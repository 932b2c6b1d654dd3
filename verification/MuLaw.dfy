/**
 G.711 mu-law (ulaw_encode and ulaw_decode of tools/adsp_arith_oracle.py), as
 section 3 and Tables 2a/2b of ITU-T G.711 have it.
 */
module MuLaw {
  import opened Arithmetic
  import opened Bytes

  type Code = c: int | 0 <= c < 0x100

  const BIAS := 132
  const CLIP := 32635
  const TOP := 32124

  function BitLength(n: nat): nat { if n == 0 then 0 else 1 + BitLength(n / 2) }

  /** The clipped and biased magnitude. */
  function Biased(x: int): nat { (if Abs(x) < CLIP then Abs(x) else CLIP) + BIAS }

  /** The segment encode chooses. */
  function Segment(x: int): int { BitLength(Biased(x)) - 8 }

  lemma {:induction false} BitLengthIs(n: nat, e: nat)
    requires Pow2(e) <= n < Pow2(e + 1)
    ensures BitLength(n) == e + 1
    decreases e
  {
    if 0 < e {
      assert Pow2(e) == 2 * Pow2(e - 1) && Pow2(e + 1) == 2 * Pow2(e);
      BitLengthIs(n / 2, e - 1);
    } else {
      assert n == 1 && BitLength(0) == 0;
    }
  }

  lemma Powers()
    ensures Pow2(0) == 1 && Pow2(1) == 2 && Pow2(2) == 4 && Pow2(3) == 8 && Pow2(4) == 16 && Pow2(5) == 32
    ensures Pow2(6) == 64 && Pow2(7) == 128 && Pow2(8) == 0x100 && Pow2(9) == 0x200 && Pow2(10) == 0x400
    ensures Pow2(11) == 0x800 && Pow2(12) == 0x1000 && Pow2(13) == 0x2000 && Pow2(14) == 0x4000 && Pow2(15) == 0x8000
  {
  }

  /** The eight segments, each the octave from 2^(e+7). */
  lemma SegmentIs(m: nat, e: nat)
    requires e < 8 && Pow2(e + 7) <= m < Pow2(e + 8)
    ensures BitLength(m) - 8 == e
  {
    BitLengthIs(m, e + 7);
  }

  lemma SegmentBounds(x: int)
    ensures 0 <= Segment(x) < 8
    ensures Pow2(Segment(x) + 7) <= Biased(x) < Pow2(Segment(x) + 8)
  {
    var m := Biased(x);
    Powers();
    var e := if m < 0x100 then 0 else if m < 0x200 then 1 else if m < 0x400 then 2 else if m < 0x800 then 3
             else if m < 0x1000 then 4 else if m < 0x2000 then 5 else if m < 0x4000 then 6 else 7;
    SegmentIs(m, e);
  }

  /** Width of a segment's intervals; always even, and a sixteenth of where the
      segment starts. */
  function Step(e: nat): (s: nat)
    ensures 0 < s
  {
    Pow2(e + 3)
  }

  lemma StepIs(e: nat)
    ensures Step(e) == 8 * Pow2(e) && Step(e) / 2 == 4 * Pow2(e) == Pow2(e + 2) && Step(e) % 2 == 0
    ensures Pow2(e + 7) == 16 * Step(e) && Pow2(e + 8) == 32 * Step(e)
  {
    assert Pow2(e + 2) == 2 * Pow2(e + 1) && Pow2(e + 3) == 2 * Pow2(e + 2) && Pow2(e + 4) == 2 * Pow2(e + 3);
    assert Pow2(e + 5) == 2 * Pow2(e + 4) && Pow2(e + 6) == 2 * Pow2(e + 5) && Pow2(e + 7) == 2 * Pow2(e + 6);
  }

  function Encode(x: int): (c: Code) {
    SegmentBounds(x);
    var sign := if x < 0 then 0x80 else 0;
    var mantissa := Biased(x) / Step(Segment(x)) % 16;
    0xFF - (sign + Segment(x) * 16 + mantissa)
  }

  function Decode(code: Code): int {
    var c := 0xFF - code;
    var magnitude := (c % 16 * 8 + BIAS) * Pow2(c / 16 % 8) - BIAS;
    if 0x80 <= c then -magnitude else magnitude
  }

  // ----- the quantiser

  /** The middle of the interval of width s that m falls in. */
  function Middle(m: nat, s: nat): int
    requires 0 < s
  {
    m / s * s + s / 2
  }

  lemma MiddleNear(m: nat, s: nat)
    requires 0 < s && s % 2 == 0
    ensures Middle(m, s) - s / 2 <= m < Middle(m, s) + s / 2
  {
    assert m == m / s * s + m % s;
  }

  lemma QuotientBounds(m: nat, s: nat, low: nat, high: nat)
    requires 0 < s && low * s <= m < high * s
    ensures low <= m / s < high
  {
    assert m == m / s * s + m % s;
    StepsApart(m / s, low, s);
    StepsApart(high - 1, m / s, s);
    assert (high - 1) * s + s == high * s;
  }

  lemma MiddleInside(m: nat, s: nat)
    requires 0 < s && s % 2 == 0 && 16 * s <= m < 32 * s
    ensures 16 <= m / s < 32
    ensures 16 * s + s / 2 <= Middle(m, s) < 32 * s
  {
    QuotientBounds(m, s, 16, 32);
    var q := m / s;
    StepsApart(q, 32, s);
    StepsApart(15, q, s);
  }

  lemma MiddleGrows(m: nat, m': nat, s: nat)
    requires 0 < s && m <= m'
    ensures Middle(m, s) <= Middle(m', s)
  {
    assert m == m / s * s + m % s && m' == m' / s * s + m' % s;
    StepsApart(m' / s, m / s, s);
    StepsApart(m / s, m' / s, s);
  }

  /** Decoding an encoded sample gives the middle of its interval, with its
      sign. */
  lemma DecodesToMiddle(x: int)
    ensures 0 <= Segment(x) < 8
    ensures var v := Middle(Biased(x), Step(Segment(x))) - BIAS;
            Decode(Encode(x)) == if x < 0 then -v else v
  {
    hide Pow2, Biased, Segment, Middle, Encode, Step;
    EncodedFields(x);
    MiddleIs(Biased(x), Segment(x), Biased(x) / Step(Segment(x)) - 16);
  }

  /** The three fields of an encoded sample. */
  lemma EncodedFields(x: int)
    ensures 0 <= Segment(x) < 8
    ensures var c := 0xFF - Encode(x);
            && (0x80 <= c <==> x < 0) && c / 16 % 8 == Segment(x)
            && 0 <= c % 16 == Biased(x) / Step(Segment(x)) - 16
  {
    hide Pow2, Biased, Segment, Step;
    SegmentBounds(x);
    StepIs(Segment(x));
    MiddleInside(Biased(x), Step(Segment(x)));
    Fields(x < 0, Segment(x), Biased(x) / Step(Segment(x)) % 16);
  }

  lemma Fields(negative: bool, e: nat, mantissa: nat)
    requires e < 8 && mantissa < 16
    ensures var c := (if negative then 0x80 else 0) + e * 16 + mantissa;
            (0x80 <= c <==> negative) && c / 16 % 8 == e && c % 16 == mantissa
  {
  }

  lemma MiddleIs(m: nat, e: nat, mantissa: nat)
    requires m / Step(e) == 16 + mantissa
    ensures Middle(m, Step(e)) == (mantissa * 8 + BIAS) * Pow2(e)
  {
    StepIs(e);
    Scaled(mantissa, Pow2(e));
  }

  lemma Scaled(mantissa: nat, p: nat)
    ensures (mantissa * 8 + BIAS) * p == (16 + mantissa) * (8 * p) + 4 * p
  {
    assert (16 + mantissa) * (8 * p) == 128 * p + (mantissa * 8) * p by {
      Regroup(mantissa, p);
    }
    assert (mantissa * 8 + BIAS) * p == (mantissa * 8) * p + BIAS * p;
  }

  lemma Regroup(a: int, p: int)
    ensures (16 + a) * (8 * p) == 128 * p + (a * 8) * p
  {
  }

  /** Within a segment the middle grows with the sample; a later segment lies
      wholly above. */
  lemma MiddleMonotone(m: nat, e: nat, m': nat, e': nat)
    requires Pow2(e + 7) <= m < Pow2(e + 8) && Pow2(e' + 7) <= m' < Pow2(e' + 8) && m <= m'
    ensures BIAS <= Middle(m, Step(e)) <= Middle(m', Step(e'))
  {
    hide Middle, Step;
    StepIs(e);
    StepIs(e');
    MiddleInside(m, Step(e));
    MiddleInside(m', Step(e'));
    AtLeastEight(e);
    if e == e' {
      MiddleGrows(m, m', Step(e));
    } else if e' < e {
      PowersGrow(e' + 8, e + 7);
    } else {
      PowersGrow(e + 8, e' + 7);
    }
  }

  lemma AtLeastEight(e: nat)
    ensures 8 <= Step(e)
  {
    StepIs(e);
  }

  lemma {:induction false} PowersGrow(a: nat, b: nat)
    requires a <= b
    ensures Pow2(a) <= Pow2(b)
    decreases b
  {
    if a < b {
      PowersGrow(a, b - 1);
    }
  }

  // ----- what the codec promises

  /** Companding never reverses an order. */
  lemma Monotone(x: int, y: int)
    requires x <= y
    ensures Decode(Encode(x)) <= Decode(Encode(y))
  {
    hide Encode, Decode, Middle, Segment, Step, Pow2;
    SegmentBounds(x);
    SegmentBounds(y);
    DecodesToMiddle(x);
    DecodesToMiddle(y);
    if 0 <= x {
      MiddleMonotone(Biased(x), Segment(x), Biased(y), Segment(y));
    } else if y < 0 {
      MiddleMonotone(Biased(y), Segment(y), Biased(x), Segment(x));
    } else {
      MiddleMonotone(Biased(x), Segment(x), Biased(x), Segment(x));
      MiddleMonotone(Biased(y), Segment(y), Biased(y), Segment(y));
    }
  }

  /** No sample decodes past full scale, and all from the clip on reach it. */
  lemma Saturates(x: int)
    ensures -32124 <= Decode(Encode(x)) <= 32124
    ensures 32635 <= x ==> Decode(Encode(x)) == 32124
    ensures x <= -32635 ==> Decode(Encode(x)) == -32124
  {
    hide Encode, Decode;
    Monotone(x, if CLIP < x then x else CLIP);
    Monotone(if x < -CLIP then x else -CLIP, x);
    AtClip(if CLIP < x then x else CLIP);
    AtClip(if x < -CLIP then x else -CLIP);
  }

  lemma AtClip(x: int)
    requires CLIP <= x || x <= -CLIP
    ensures Decode(Encode(x)) == if x < 0 then -TOP else TOP
  {
    hide Encode, Decode;
    DecodesToMiddle(x);
    Powers();
    SegmentIs(CLIP + BIAS, 7);
  }

  /** Below the clip the error is at most half the step of the chosen segment. */
  lemma ErrorBound(x: int)
    requires Abs(x) <= 32635
    ensures 0 <= Segment(x) < 8
    ensures Abs(Decode(Encode(x)) - x) <= Pow2(Segment(x) + 2)
  {
    hide Encode, Decode, Middle, Segment;
    DecodesToMiddle(x);
    StepIs(Segment(x));
    MiddleNear(Biased(x), Step(Segment(x)));
  }

  /** Every code stands for a level that survives encoding. */
  lemma LevelsStand(code: Code)
    ensures Decode(Encode(Decode(code))) == Decode(code)
  {
    hide Encode, Middle, Step;
    var c := 0xFF - code;
    var e, mantissa := c / 16 % 8, c % 16;
    var x := Decode(code);
    LevelRange(mantissa, e);
    LevelSegment(mantissa, e);
    DecodesToMiddle(x);
  }

  lemma LevelRange(mantissa: nat, e: nat)
    requires mantissa < 16 && e < 8
    ensures BIAS <= (mantissa * 8 + BIAS) * Pow2(e) <= TOP + BIAS
  {
    Powers();
  }

  /** The level of a code lies in that code's segment, at the middle of one of
      its intervals. */
  lemma LevelSegment(mantissa: nat, e: nat)
    requires mantissa < 16 && e < 8
    ensures var m := (mantissa * 8 + BIAS) * Pow2(e);
            0 <= m && BitLength(m) - 8 == e && Middle(m, Step(e)) == m
  {
    hide Middle, Step, BitLength;
    StepIs(e);
    Scaled(mantissa, Pow2(e));
    var m := (mantissa * 8 + BIAS) * Pow2(e);
    DivisionIs(m, Step(e), 16 + mantissa, 4 * Pow2(e));
    MiddleIs(m, e, mantissa);
    WithinSegment(mantissa, Step(e));
    SegmentIs(m, e);
  }

  lemma WithinSegment(mantissa: nat, s: nat)
    requires mantissa < 16 && 0 < s
    ensures 16 * s <= (16 + mantissa) * s + s / 2 < 32 * s
  {
    StepsApart(16 + mantissa, 32, s);
    StepsApart(15, 16 + mantissa, s);
  }

  /** Corners of the tables: silence, the smallest negative sample and both full
      scales. */
  lemma TableCorners()
    ensures Encode(0) == 0xFF && Decode(0xFF) == 0
    ensures Encode(-1) == 0x7F && Decode(0x7F) == 0
    ensures Encode(CLIP) == 0x80 && Decode(0x80) == TOP
    ensures Encode(-CLIP) == 0x00 && Decode(0x00) == -TOP
  {
    hide Encode, Decode, Pow2;
    Powers();
    CodeOf(0, 0, 0);
    CodeOf(-1, 0, 0);
    CodeOf(CLIP, 7, 15);
    CodeOf(-CLIP, 7, 15);
    CornerLevels();
  }

  lemma CornerLevels()
    ensures Decode(0xFF) == 0 && Decode(0x7F) == 0 && Decode(0x80) == TOP && Decode(0x00) == -TOP
  {
    hide Pow2;
    Powers();
  }

  lemma CodeOf(x: int, e: nat, mantissa: nat)
    requires e < 8 && mantissa < 16
    requires Pow2(e + 7) <= Biased(x) < Pow2(e + 8) && Biased(x) / Step(e) == 16 + mantissa
    ensures Encode(x) == 0xFF - ((if x < 0 then 0x80 else 0) + 16 * e + mantissa)
  {
    hide Pow2, Step, BitLength;
    SegmentIs(Biased(x), e);
  }
}
