/**
 The streaming polyphase resampler (RationalResampler of
 tools/analog_kernel_dispatch.py), over real samples and an arbitrary filter.
 */
module RationalResampling {
  import opened Arithmetic
  import opened StreamBookkeeping

  /** The constructor's arguments; `h` stands for the windowed-sinc design. */
  datatype Filter = Filter(up: pos, down: pos, taps: pos, phaseOffset: int, h: seq<real>)
  {
    function Lead(): nat { taps / 2 }

    function Bookkeeping(): Geometry {
      Geometry(up, down, phaseOffset as real / up as real, Lead(), taps - 1 - Lead(), 2 * taps + 2, 0, taps + 2)
    }

    function Position(m: nat): int { m * down + phaseOffset }

    /** Output m: the taps of its phase against its window. */
    function Read(): Reader {
      (m: nat, w: seq<real>) => FirFrom(h, up, Position(m) % up, w, taps)
    }

    /** The parameters a caller can rely on, in whole numbers. */
    predicate Usable() {
      && down - phaseOffset <= up * (2 * taps + Lead() + 3)
      && (-phaseOffset <= up * (taps + Lead() + 3) || down - phaseOffset <= up * (taps + Lead() + 4))
    }
  }

  /** The taps tap, tap + up, .. against the n oldest samples of a window,
      newest of them first. */
  function FirFrom(h: seq<real>, up: pos, tap: nat, w: seq<real>, n: nat): real
    decreases n
  {
    if n == 0 then 0.0
    else (if tap < |h| then h[tap] * At(w, n - 1) else 0.0) + FirFrom(h, up, tap + up, w, n - 1)
  }

  lemma {:induction false} NoTapsLeft(h: seq<real>, up: pos, tap: nat, w: seq<real>, n: nat)
    requires |h| <= tap
    ensures FirFrom(h, up, tap, w, n) == 0.0
    decreases n
  {
    if n != 0 {
      NoTapsLeft(h, up, tap + up, w, n - 1);
    }
  }

  // ----- whole-number positions

  lemma FloorOfQuotient(a: int, b: pos)
    ensures (a as real / b as real).Floor == a / b
  {
    var q, r := a / b, a % b;
    assert a == q * b + r;
    assert a as real / b as real == q as real + r as real / b as real;
    assert 0.0 <= r as real / b as real < 1.0;
  }

  lemma WholeNumberPositions(f: Filter, m: nat)
    ensures f.Bookkeeping().Base(m) == f.Position(m) / f.up
    ensures f.Bookkeeping().Floored(m) == m * f.down / f.up
  {
    FloorOfQuotient(f.Position(m), f.up);
    FloorOfQuotient(m * f.down, f.up);
    assert m as real * (f.down as real / f.up as real) == (m * f.down) as real / f.up as real;
    assert f.Position(m) as real / f.up as real
        == (m * f.down) as real / f.up as real + f.phaseOffset as real / f.up as real;
  }

  lemma ScaledBound(a: int, b: int, up: pos)
    ensures a as real / up as real <= b as real <==> a <= up * b
  {
    if a <= up * b {
      assert a as real <= up as real * b as real;
      assert a as real / up as real <= up as real * b as real / up as real == b as real;
    } else {
      assert up as real * b as real < a as real;
      DivideAcross(b as real, a as real, up as real);
    }
  }

  /** The whole-number guard says exactly that trimming is harmless. */
  lemma UsableIsSafe(f: Filter)
    ensures f.Bookkeeping().Valid()
    ensures f.Usable() <==> f.Bookkeeping().Safe()
  {
    var g := f.Bookkeeping();
    assert g.Stride() - g.phase == (f.down - f.phaseOffset) as real / f.up as real;
    assert -g.phase == (-f.phaseOffset) as real / f.up as real;
    ScaledBound(f.down - f.phaseOffset, 2 * f.taps + f.Lead() + 3, f.up);
    ScaledBound(f.down - f.phaseOffset, f.taps + f.Lead() + 4, f.up);
    ScaledBound(-f.phaseOffset, f.taps + f.Lead() + 3, f.up);
  }

  /** A filter whose every output is the oldest sample of its window. */
  function OldestTap(taps: pos, up: pos): (h: seq<real>)
    ensures |h| == taps * up
  {
    seq(taps * up, i => if i < (taps - 1) * up then 0.0 else 1.0)
  }

  lemma {:induction false} OldestTapSum(taps: pos, up: pos, tap: nat, w: seq<real>, n: nat)
    requires 0 < n <= taps && (taps - n) * up <= tap < (taps - n) * up + up
    ensures FirFrom(OldestTap(taps, up), up, tap, w, n) == At(w, 0)
    decreases n
  {
    StepsApart(taps - n, taps, up);
    if n == 1 {
      assert FirFrom(OldestTap(taps, up), up, tap + up, w, 0) == 0.0;
    } else {
      StepsApart(taps - n, taps - 1, up);
      assert (taps - n) * up + up == (taps - (n - 1)) * up;
      OldestTapSum(taps, up, tap + up, w, n - 1);
    }
  }

  ghost predicate Faithful(f: Filter, xs: seq<real>) {
    Run(f.Bookkeeping(), f.Read(), xs).1 == AllUntrimmed(f.Bookkeeping(), f.Read(), xs)
  }

  ghost predicate AlwaysFaithful(f: Filter) {
    forall h: seq<real>, xs: seq<real> | |h| == f.taps * f.up :: Faithful(f.(h := h), xs)
  }

  lemma UsableIsFaithful(f: Filter, h: seq<real>, xs: seq<real>)
    requires f.Bookkeeping().Valid() && f.Bookkeeping().Safe()
    ensures Faithful(f.(h := h), xs)
  {
    TrimmingIsFaithful(f.Bookkeeping(), f.(h := h).Read(), xs);
  }

  lemma UnusableIsNot(f: Filter)
    requires f.Bookkeeping().Valid() && !f.Bookkeeping().Safe()
    ensures !AlwaysFaithful(f)
  {
    var xs := UnsafeBetrays(f.Bookkeeping());
    OldestTapBetrays(f.(h := OldestTap(f.taps, f.up)), xs);
  }

  /** `Usable` is exactly the condition under which, whatever the filter and
      the input, trimming leaves every output as the untrimmed definition has it. */
  lemma UsableExactly(f: Filter)
    ensures f.Usable() <==> AlwaysFaithful(f)
  {
    UsableIsSafe(f);
    if f.Bookkeeping().Safe() {
      forall h: seq<real>, xs: seq<real>
        ensures Faithful(f.(h := h), xs)
      {
        UsableIsFaithful(f, h, xs);
      }
    } else {
      UnusableIsNot(f);
    }
  }

  lemma OldestTapBetrays(f: Filter, xs: seq<real>)
    requires f.h == OldestTap(f.taps, f.up)
    requires Betrayed(f.Bookkeeping(), OldestSample, xs)
    ensures !Faithful(f, xs)
  {
    var g, stream := f.Bookkeeping(), Stream(f.Bookkeeping(), xs);
    OldestTapReads(f);
    ReadersAgree(g, f.Read(), OldestSample, xs);
    OutputsAgree(g, f.Read(), OldestSample, stream, g.first, 0, g.Emitted(|stream|));
  }

  lemma OldestTapReads(f: Filter)
    requires f.h == OldestTap(f.taps, f.up)
    ensures SameOnWindows(f.Bookkeeping(), f.Read(), OldestSample)
  {
    forall m: nat, w: seq<real> | |w| == f.taps
      ensures f.Read()(m, w) == OldestSample(m, w)
    {
      OldestTapReadsAt(f, m, w);
    }
  }

  lemma OldestTapReadsAt(f: Filter, m: nat, w: seq<real>)
    requires f.h == OldestTap(f.taps, f.up) && |w| == f.taps
    ensures f.Read()(m, w) == w[0]
  {
    OldestTapSum(f.taps, f.up, f.Position(m) % f.up, w, f.taps);
  }

  // ----- the reference: zero-stuff by `up`, filter, keep every `down`-th

  /** The stream raised to `up` times its rate: up - 1 zeros after each sample. */
  function Stuffed(x: seq<real>, up: pos): (u: seq<real>)
    ensures |u| == Times(|x|, up)
  {
    if x == [] then [] else Stuffed(x[..|x| - 1], up) + [x[|x| - 1]] + Zeros(up - 1)
  }

  /** The convolution of h[j..] with a signal, ending at t. */
  function ConvolveFrom(h: seq<real>, u: seq<real>, t: int, j: nat): real
    decreases |h| - j
  {
    if |h| <= j then 0.0 else h[j] * At(u, t - j) + ConvolveFrom(h, u, t, j + 1)
  }

  /** q * up, by repeated addition; keeps products out of the sums below. */
  function Times(q: int, up: pos): int
    decreases if q < 0 then -q else q
  {
    if q == 0 then 0 else if 0 < q then Times(q - 1, up) + up else Times(q + 1, up) - up
  }

  lemma {:induction false} TimesIsProduct(q: int, up: pos)
    ensures Times(q, up) == q * up
    decreases if q < 0 then -q else q
  {
    if q != 0 {
      TimesIsProduct(if 0 < q then q - 1 else q + 1, up);
    }
  }

  lemma {:induction false} TimesNonNegative(q: nat, up: pos)
    ensures 0 <= Times(q, up)
  {
    if q != 0 {
      TimesNonNegative(q - 1, up);
    }
  }

  lemma TimesStep(q: int, up: pos)
    ensures Times(q, up) == Times(q - 1, up) + up
  {
  }

  lemma {:induction false} StuffedAt(x: seq<real>, up: pos, q: int, offset: int)
    requires 0 < offset + up && offset < up
    ensures At(Stuffed(x, up), Times(q, up) + offset) == if offset == 0 then At(x, q) else 0.0
  {
    TimesIsProduct(q, up);
    TimesIsProduct(|x|, up);
    StepsApart(q, 0, up);
    StepsApart(|x|, q, up);
    StepsApart(q, |x|, up);
    if x != [] {
      TimesIsProduct(|x| - 1, up);
      StepsApart(q, |x| - 1, up);
      StepsApart(|x| - 1, q, up);
      StuffedAt(x[..|x| - 1], up, q, offset);
    }
  }

  /** Of the next `up` consecutive terms only the one of the output's phase counts. */
  lemma {:induction false} OnePhasePerBlock(h: seq<real>, up: pos, x: seq<real>, t: int, sample: int,
                                            start: nat, tap: nat, j: nat)
    requires start <= tap < start + up <= |h| && t - tap == Times(sample, up)
    requires start <= j <= start + up
    ensures ConvolveFrom(h, Stuffed(x, up), t, j)
            == (if j <= tap then h[tap] * At(x, sample) else 0.0) + ConvolveFrom(h, Stuffed(x, up), t, start + up)
    decreases start + up - j
  {
    if j < start + up {
      OnePhasePerBlock(h, up, x, t, sample, start, tap, j + 1);
      StuffedAt(x, up, sample, tap - j);
      ConvolveStep(h, Stuffed(x, up), t, j, if j == tap then At(x, sample) else 0.0);
    }
  }

  lemma ConvolveStep(h: seq<real>, u: seq<real>, t: int, j: nat, v: real)
    requires j < |h| && At(u, t - j) == v
    ensures ConvolveFrom(h, u, t, j) == h[j] * v + ConvolveFrom(h, u, t, j + 1)
  {
  }

  lemma {:induction false} PhaseSumIsConvolution(h: seq<real>, up: pos, x: seq<real>, t: int, sample: int,
                                                 start: nat, tap: nat, w: seq<real>, n: nat)
    requires start <= tap < start + up && t - tap == Times(sample, up)
    requires n <= |w| && |h| == start + Times(n, up)
    requires forall i :: 0 <= i < n ==> w[i] == At(x, sample - (n - 1 - i))
    ensures FirFrom(h, up, tap, w, n) == ConvolveFrom(h, Stuffed(x, up), t, start)
    decreases n
  {
    if n == 0 {
      NothingLeft(h, up, x, t, start, tap, w);
    } else {
      hide FirFrom, ConvolveFrom, Stuffed;
      var v, rest := At(x, sample), FirFrom(h, up, tap + up, w, n - 1);
      TimesStep(sample, up);
      TimesStep(n, up);
      TimesNonNegative(n - 1, up);
      PhaseSumIsConvolution(h, up, x, t, sample - 1, start + up, tap + up, w, n - 1);
      assert w[n - 1] == v;
      FirStep(h, up, tap, w, n, v);
      OnePhasePerBlock(h, up, x, t, sample, start, tap, start);
      assert FirFrom(h, up, tap, w, n) == h[tap] * v + rest;
      assert ConvolveFrom(h, Stuffed(x, up), t, start) == h[tap] * v + rest;
    }
  }

  lemma NothingLeft(h: seq<real>, up: pos, x: seq<real>, t: int, start: nat, tap: nat, w: seq<real>)
    requires |h| == start <= tap
    ensures FirFrom(h, up, tap, w, 0) == 0.0 == ConvolveFrom(h, Stuffed(x, up), t, start)
  {
  }

  /** Every output is the sample of the interpolated stream at its position. */
  lemma OutputIsInterpolation(f: Filter, stream: seq<real>, m: nat)
    requires |f.h| == f.taps * f.up
    ensures f.Read()(m, Window(f.Bookkeeping(), stream, 0, m))
            == ConvolveFrom(f.h, Stuffed(stream, f.up), f.Position(m) + f.Lead() * f.up, 0)
  {
    WholeNumberPositions(f, m);
    var base, phase := f.Position(m) / f.up, f.Position(m) % f.up;
    assert (base + f.Lead()) * f.up + phase == f.Position(m) + f.Lead() * f.up;
    TimesIsProduct(base + f.Lead(), f.up);
    TimesIsProduct(f.taps, f.up);
    PhaseSumIsConvolution(f.h, f.up, stream, f.Position(m) + f.Lead() * f.up, base + f.Lead(), 0, phase,
                          Window(f.Bookkeeping(), stream, 0, m), f.taps);
  }

  // ----- how many outputs, and how much history

  /** The k-th sample pushed completes every output before the ceiling of
      ((k + 2 + taps - taps / 2) * up - phase_offset) / down. */
  lemma OutputCount(f: Filter, k: nat)
    requires 0 < k
    ensures var c := CeilingQuotient((k + 2 + f.taps - f.Lead()) * f.up - f.phaseOffset, f.down);
            f.Bookkeeping().Emitted(f.taps + 2 + k) == Max(0, c)
  {
    OffsetIsPhase(f);
    CountExactly(f.Bookkeeping(), f.taps + 2 + k);
  }

  lemma OffsetIsPhase(f: Filter)
    ensures f.Bookkeeping().Offset() == f.phaseOffset
  {
    assert f.phaseOffset as real / f.up as real * f.up as real == f.phaseOffset as real;
  }

  /** Between pushes the history never exceeds a bound fixed by the taps, plus
      the whole samples by which the phase leads. */
  lemma HistoryBound(f: Filter, s: State, stream: seq<real>)
    requires Tracks(f.Bookkeeping(), s, stream)
    ensures |s.history| <= TapsBound(f) + Max(0, CeilingQuotient(f.phaseOffset, f.up))
  {
    HistoryLag(f, s, stream);
    QuotientOfSum(s.produced * f.down, f.phaseOffset, f.up);
  }

  /** What the taps alone would allow. */
  function TapsBound(f: Filter): nat { 2 * f.taps + f.Lead() + 2 }

  /** The history exceeds that by no more than the whole samples between the next
      output's position and where trimming believes it to be. */
  lemma HistoryLag(f: Filter, s: State, stream: seq<real>)
    requires Tracks(f.Bookkeeping(), s, stream)
    ensures var lag := f.Position(s.produced) / f.up - s.produced * f.down / f.up;
            |s.history| <= TapsBound(f) + Max(0, lag)
  {
    var g := f.Bookkeeping();
    WholeNumberPositions(f, s.produced);
    if g.primed < |stream| {
      DueExactly(g, s.produced, g.Total(|stream|));
    }
  }

  lemma QuotientOfSum(a: int, p: int, b: pos)
    ensures (a + p) / b <= a / b + CeilingQuotient(p, b)
  {
    CeilingBounds(p, b);
    var c := CeilingQuotient(p, b);
    assert a == (a / b) * b + a % b && a + p == ((a + p) / b) * b + (a + p) % b;
    assert (a / b + c) * b == (a / b) * b + c * b;
    StepsApart(a / b + c, (a + p) / b, b);
  }

  // ----- when the taps alone bound the history

  ghost predicate WithinTaps(f: Filter) {
    forall xs :: |Run(f.Bookkeeping(), f.Read(), xs).0.history| <= TapsBound(f)
  }

  /** The taps alone bound the history over every run exactly when the phase
      offset is less than the common divisor of the rates: for a reduced ratio,
      when the phase does not lead at all. */
  lemma TapsBoundExactly(f: Filter)
    requires f.Usable()
    ensures WithinTaps(f) <==> f.phaseOffset < Gcd(f.up, f.down)
  {
    UsableIsSafe(f);
    var g := f.Bookkeeping();
    if f.phaseOffset < Gcd(f.up, f.down) {
      forall xs
        ensures |Run(g, f.Read(), xs).0.history| <= TapsBound(f)
      {
        var s := Run(g, f.Read(), xs).0;
        RunTracks(g, f.Read(), xs);
        HistoryLag(f, s, Stream(g, xs));
        NoCarry(f, s.produced);
      }
    } else {
      var m := LastFraction(f);
      var xs := Lagging(f, m);
      assert TapsBound(f) < |Run(g, f.Read(), xs).0.history|;
    }
  }

  /** Positions without the phase are multiples of the common divisor, so less
      than that never carries one of them past a whole sample. */
  lemma NoCarry(f: Filter, m: nat)
    requires f.phaseOffset < Gcd(f.up, f.down)
    ensures f.Position(m) / f.up <= m * f.down / f.up
  {
    var d := Gcd(f.up, f.down);
    GcdDivides(f.up, f.down);
    var q, r := m * f.down / f.up, m * f.down % f.up;
    assert m * f.down == q * f.up + r;
    DividesRemainder(m, f.down, f.up, d);
    assert f.Position(m) == q * f.up + (r + f.phaseOffset);
    assert (q + 1) * f.up == q * f.up + f.up;
    QuotientOrder(f.Position(m), f.up, q + 1);
  }

  /** A remainder of a multiple of d by a multiple of d stays d below it. */
  lemma DividesRemainder(m: nat, down: pos, up: pos, d: pos)
    requires down % d == 0 && up % d == 0
    ensures m * down % up <= up - d
  {
    var j, k, q := down / d, up / d, m * down / up;
    var r := m * down % up;
    assert down == j * d && up == k * d && m * down == q * up + r;
    Factored(m, j, q, k, d);
    assert r == (m * j - q * k) * d;
    StepsApart(k, m * j - q * k, d);
    StepsApart(m * j - q * k, k, d);
  }

  lemma Factored(m: int, j: int, q: int, k: int, d: int)
    ensures m * (j * d) - q * (k * d) == (m * j - q * k) * d
  {
    assert m * (j * d) == (m * j) * d && q * (k * d) == (q * k) * d;
  }

  /** Some output past any given sample has the largest fraction there is. */
  lemma LastFraction(f: Filter) returns (m: nat)
    ensures m * f.down % f.up == f.up - Gcd(f.up, f.down)
    ensures 2 * f.taps + 2 <= m * f.down / f.up
  {
    var d := Gcd(f.up, f.down);
    GcdDivides(f.up, f.down);
    DivisorWithin(f.up, d);
    var y, x := Bezout(f.up, f.down);
    var k := 2 * f.taps + 2;
    m := (-x) % f.up + k * f.up;
    var t := (-x) / f.up;
    assert -x == t * f.up + (-x) % f.up;
    Congruent(m, x, y, t, k, f.up, f.down, d);
    var q := (k - t) * f.down + y - 1;
    DivisionIs(m * f.down, f.up, q, f.up - d);
    StepsApart(k * f.up, m, f.down);
    ManyWhole(k, f.up, f.down, m);
  }

  lemma DivisorWithin(up: pos, d: pos)
    requires up % d == 0
    ensures d <= up
  {
    StepsApart(1, up / d, d);
    StepsApart(up / d, 0, d);
  }

  lemma Congruent(m: int, x: int, y: int, t: int, k: int, up: int, down: int, d: int)
    requires y * up + x * down == d && m == -x - t * up + k * up
    ensures m * down == ((k - t) * down + y - 1) * up + (up - d)
  {
    assert m * down == -(x * down) + ((k - t) * up) * down by {
      assert m == -x + (k - t) * up;
    }
    assert ((k - t) * up) * down == ((k - t) * down) * up;
  }

  lemma ManyWhole(k: nat, up: pos, down: pos, m: nat)
    requires 0 < k && k * up * down <= m * down
    ensures k <= m * down / up
  {
    assert 0 < k * up;
    StepsApart(1, down, k * up);
    QuotientOrder(m * down, up, k);
  }

  /** Just before output m arrives at such a fraction, one sample too many is
      held: the phase has carried its window over, and trimming ignores it. */
  lemma Lagging(f: Filter, m: nat) returns (xs: seq<real>)
    requires f.Usable() && Gcd(f.up, f.down) <= f.phaseOffset
    requires m * f.down % f.up == f.up - Gcd(f.up, f.down) && 2 * f.taps + 2 <= m * f.down / f.up
    ensures TapsBound(f) < |Run(f.Bookkeeping(), f.Read(), xs).0.history|
  {
    var g := f.Bookkeeping();
    var q := m * f.down / f.up;
    var limit := f.Position(m) / f.up;
    Carried(f, m);
    xs := Zeros(limit + f.Lead() - f.taps - 2);
    HeldAfter(f, xs, m, limit);
    WholeNumberPositions(f, m);
    PositionMonotone(g, Run(g, f.Read(), xs).0.produced, m);
  }

  lemma Carried(f: Filter, m: nat)
    requires m * f.down % f.up + f.phaseOffset >= f.up
    ensures m * f.down / f.up < f.Position(m) / f.up
  {
    var q := m * f.down / f.up;
    assert f.Position(m) == q * f.up + m * f.down % f.up + f.phaseOffset;
    assert (q + 1) * f.up == q * f.up + f.up;
    QuotientOrder(f.Position(m), f.up, q + 1);
  }

  /** A run of known length, reaching sample `limit` + lead, has not yet completed
      an output that sits at `limit`. */
  lemma HeldAfter(f: Filter, xs: seq<real>, m: nat, limit: int)
    requires f.Usable() && |xs| == limit + f.Lead() - f.taps - 2 && 0 < |xs|
    requires limit <= f.Position(m) / f.up
    ensures var g := f.Bookkeeping();
            var s := Run(g, f.Read(), xs).0;
            && s.produced == g.DueCount(limit + f.Lead()) <= m
            && |s.history| == limit + f.Lead() - g.Trimmed(s.produced)
  {
    var g := f.Bookkeeping();
    UsableIsSafe(f);
    RunTracks(g, f.Read(), xs);
    WholeNumberPositions(f, m);
    DueExactly(g, m, limit + f.Lead());
  }

  /** At 6:5 with 16 taps and a phase of one sample, 25 samples are enough to
      hold 43 where the taps alone allow 42. */
  lemma HistoryWitness(f: Filter)
    requires f.up == 6 && f.down == 5 && f.taps == 16 && f.phaseOffset == 6
    ensures f.Usable() && TapsBound(f) == 42 && |Run(f.Bookkeeping(), f.Read(), Zeros(25)).0.history| == 43
  {
    HeldAfter(f, Zeros(25), 41, 35);
    WholeNumberPositions(f, Run(f.Bookkeeping(), f.Read(), Zeros(25)).0.produced);
  }

  /** The codec's two ratios without a phase are usable with any number of taps. */
  lemma CodecRatesUsable(f: Filter)
    requires (f.up == 6 && f.down == 5) || (f.up == 5 && f.down == 6)
    requires f.phaseOffset == 0
    ensures f.Usable()
  {
    assert 6 * (2 * f.taps + f.Lead() + 3) >= 18 && 5 * (2 * f.taps + f.Lead() + 3) >= 15;
  }

  // ----- the object

  class RationalResampler {
    const filter: Filter
    var history: seq<real>
    var consumed: int          // absolute index of the oldest sample held
    var produced: nat          // index of the next output
    ghost var inputs: seq<real>  // every sample pushed so far

    ghost function View(): State reads this { State(history, consumed, produced) }

    ghost predicate InStep() reads this { Tracks(filter.Bookkeeping(), View(), Stream(filter.Bookkeeping(), inputs)) }

    constructor (filter: Filter)
      ensures this.filter == filter
      ensures View() == Initial(filter.Bookkeeping()) && inputs == []
      ensures InStep()
    {
      this.filter := filter;
      history := Zeros(filter.taps + 2);
      consumed := 0;
      produced := 0;
      inputs := [];
      new;
      WholeNumberPositions(filter, 0);
    }

    /** A push appends, emits every output whose window is now whole, and trims;
        what it returns is what the new sample adds to the untrimmed outputs. */
    method Push(sample: real) returns (out: seq<real>)
      modifies this
      ensures (View(), out) == Advance(filter.Bookkeeping(), filter.Read(), old(View()), sample)
      ensures inputs == old(inputs) + [sample]
      ensures filter.Usable() && old(InStep()) ==>
                && InStep()
                && AllUntrimmed(filter.Bookkeeping(), filter.Read(), inputs)
                   == AllUntrimmed(filter.Bookkeeping(), filter.Read(), old(inputs)) + out
    {
      history := history + [sample];
      inputs := inputs + [sample];
      out := EmitDue();
      TrimHistory();
      if filter.Usable() && old(InStep()) {
        UsableIsSafe(filter);
        PushDelivers(filter.Bookkeeping(), filter.Read(), old(View()), old(inputs), sample);
      }
    }

    /** The loop that completes outputs until one lacks its newest sample. */
    method EmitDue() returns (out: seq<real>)
      modifies this`produced
      ensures produced == Max(old(produced), filter.Bookkeeping().DueCount(consumed + |history|))
      ensures out == Outputs(filter.Bookkeeping(), filter.Read(), history, consumed, old(produced), produced)
    {
      ghost var g := filter.Bookkeeping();
      var available := consumed + |history| - 1;   // newest index
      ghost var due := g.DueCount(available + 1);
      out := [];
      var lead := filter.taps / 2;
      while true
        invariant old(produced) <= produced <= Max(old(produced), due)
        invariant out == Outputs(g, filter.Read(), history, consumed, old(produced), produced)
        decreases due - produced
      {
        var position := produced * filter.down + filter.phaseOffset;
        var base, phase := position / filter.up, position % filter.up;
        WholeNumberPositions(filter, produced);
        DueExactly(g, produced, available + 1);
        if base + lead > available {
          break;
        }
        var total := SumTaps(base, phase, Window(g, history, consumed, produced));
        out := out + [total];
        produced := produced + 1;
      }
    }

    /** Dropping the front of the history, as far behind the next output as the
        phase-free rule says. */
    method TrimHistory()
      modifies this`history, this`consumed
      ensures View() == Trim(filter.Bookkeeping(), old(history), old(consumed), produced)
    {
      var keep := filter.taps + 2;
      var oldestNeeded := (produced * filter.down) / filter.up - filter.taps;
      WholeNumberPositions(filter, produced);
      var drop := Max(0, oldestNeeded - consumed - keep);
      if drop > 0 {
        history := if drop <= |history| then history[drop..] else [];
        consumed := consumed + drop;
      }
    }

    /** The inner loop over the taps of one phase; `w` is the window they see. */
    method SumTaps(base: int, phase: nat, ghost w: seq<real>) returns (total: real)
      requires |w| == filter.taps
      requires forall i :: 0 <= i < |w| ==> w[i] == At(history, base + filter.Lead() - (|w| - 1 - i) - consumed)
      ensures total == FirFrom(filter.h, filter.up, phase, w, filter.taps)
    {
      total := 0.0;
      var k, tap := 0, phase;   // tap is phase + k * up throughout
      while k < filter.taps
        invariant 0 <= k <= filter.taps && 0 <= tap
        invariant total + FirFrom(filter.h, filter.up, tap, w, filter.taps - k)
               == FirFrom(filter.h, filter.up, phase, w, filter.taps)
      {
        if tap >= |filter.h| {
          NoTapsLeft(filter.h, filter.up, tap, w, filter.taps - k);
          break;
        }
        var index := base + filter.Lead() - k - consumed;
        FirStep(filter.h, filter.up, tap, w, filter.taps - k, At(history, index));
        if 0 <= index < |history| {
          total := total + filter.h[tap] * history[index];
        }
        k, tap := k + 1, tap + filter.up;
      }
    }
  }

  lemma FirStep(h: seq<real>, up: pos, tap: nat, w: seq<real>, n: nat, v: real)
    requires 0 < n <= |w| && w[n - 1] == v && tap < |h|
    ensures FirFrom(h, up, tap, w, n) == h[tap] * v + FirFrom(h, up, tap + up, w, n - 1)
  {
  }
}
