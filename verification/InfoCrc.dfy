/**
 The reflected CRC-16 of the V.34 INFO sequences (section 10.1.2.3.2 of ITU-T
 V.34), as tools/info_cc_framer_probe.py sends it and the V.90 DIL descriptor
 of tools/dial_tikrnl_drive.py carries it.

 A register is its sixteen bits, least significant first: shifting right drops
 the first and appends a zero, and xor with 0x8408 flips bits 3, 10 and 15.
 */
module InfoCrc {

  type Bits = seq<bool>

  type Register = c: Bits | |c| == 16 witness Repeat(false, 16)

  function Repeat(bit: bool, n: nat): (z: Bits)
    ensures |z| == n && forall i :: 0 <= i < n ==> z[i] == bit
  {
    seq(n, _ => bit)
  }

  const PRESET: Register := Repeat(true, 16)
  const ZERO: Register := Repeat(false, 16)

  /** Whether bit i of 0x8408 is set. */
  predicate Tap(i: int) { i == 3 || i == 10 || i == 15 }

  /** One bit of the CRC. */
  function CrcBit(crc: Register, bit: bool): (r: Register)
    ensures forall i :: 0 <= i < 16 ==> r[i] == ((i < 15 && crc[i + 1]) != ((crc[0] != bit) && Tap(i)))
  {
    seq(16, i requires 0 <= i < 16 => (i < 15 && crc[i + 1]) != ((crc[0] != bit) && Tap(i)))
  }

  function Crc(crc: Register, bits: Bits): Register
    decreases |bits|
  {
    if bits == [] then crc else Crc(CrcBit(crc, bits[0]), bits[1..])
  }

  // ----- the same step on machine words

  /** The register and the word hold the same bits. */
  ghost predicate Carries(w: bv16, c: Register) { CarriesLow(w, c) && CarriesHigh(w, c) }

  ghost predicate CarriesLow(w: bv16, c: Register) {
    && c[0] == (w & 0x0001 != 0)
    && c[1] == (w & 0x0002 != 0)
    && c[2] == (w & 0x0004 != 0)
    && c[3] == (w & 0x0008 != 0)
    && c[4] == (w & 0x0010 != 0)
    && c[5] == (w & 0x0020 != 0)
    && c[6] == (w & 0x0040 != 0)
    && c[7] == (w & 0x0080 != 0)
  }

  ghost predicate CarriesHigh(w: bv16, c: Register) {
    && c[8] == (w & 0x0100 != 0)
    && c[9] == (w & 0x0200 != 0)
    && c[10] == (w & 0x0400 != 0)
    && c[11] == (w & 0x0800 != 0)
    && c[12] == (w & 0x1000 != 0)
    && c[13] == (w & 0x2000 != 0)
    && c[14] == (w & 0x4000 != 0)
    && c[15] == (w & 0x8000 != 0)
  }

  /** The step as a shift and an exclusive or. */
  function WordStep(w: bv16, bit: bool): bv16 {
    if (w ^ (if bit then 1 else 0)) & 1 != 0 then (w >> 1) ^ 0x8408 else w >> 1
  }

  /** The register's step is the machine's. */
  lemma StepOnWords(w: bv16, c: Register, bit: bool)
    requires Carries(w, c)
    ensures Carries(WordStep(w, bit), CrcBit(c, bit))
  {
    hide WordStep, CarriesLow, CarriesHigh, CrcBit;
    StepLow(w, c, bit);
    StepHigh(w, c, bit);
  }

  lemma StepLow(w: bv16, c: Register, bit: bool)
    requires Carries(w, c)
    ensures CarriesLow(WordStep(w, bit), CrcBit(c, bit))
  {
    hide WordStep;
    LowBits(w, bit);
  }

  lemma StepHigh(w: bv16, c: Register, bit: bool)
    requires Carries(w, c)
    ensures CarriesHigh(WordStep(w, bit), CrcBit(c, bit))
  {
    hide WordStep;
    HighBits(w, bit);
  }

  lemma LowBits(w: bv16, bit: bool)
    ensures (WordStep(w, bit) & 0x0001 != 0) == (w & 0x0002 != 0)
    ensures (WordStep(w, bit) & 0x0002 != 0) == (w & 0x0004 != 0)
    ensures (WordStep(w, bit) & 0x0004 != 0) == (w & 0x0008 != 0)
    ensures (WordStep(w, bit) & 0x0008 != 0) == ((w & 0x0010 != 0) != ((w & 1 != 0) != bit))
    ensures (WordStep(w, bit) & 0x0010 != 0) == (w & 0x0020 != 0)
    ensures (WordStep(w, bit) & 0x0020 != 0) == (w & 0x0040 != 0)
    ensures (WordStep(w, bit) & 0x0040 != 0) == (w & 0x0080 != 0)
    ensures (WordStep(w, bit) & 0x0080 != 0) == (w & 0x0100 != 0)
  {
  }

  lemma HighBits(w: bv16, bit: bool)
    ensures (WordStep(w, bit) & 0x0100 != 0) == (w & 0x0200 != 0)
    ensures (WordStep(w, bit) & 0x0200 != 0) == (w & 0x0400 != 0)
    ensures (WordStep(w, bit) & 0x0400 != 0) == ((w & 0x0800 != 0) != ((w & 1 != 0) != bit))
    ensures (WordStep(w, bit) & 0x0800 != 0) == (w & 0x1000 != 0)
    ensures (WordStep(w, bit) & 0x1000 != 0) == (w & 0x2000 != 0)
    ensures (WordStep(w, bit) & 0x2000 != 0) == (w & 0x4000 != 0)
    ensures (WordStep(w, bit) & 0x4000 != 0) == (w & 0x8000 != 0)
    ensures (WordStep(w, bit) & 0x8000 != 0) == ((w & 1 != 0) != bit)
  {
  }

  /** The machine's register over a whole message. */
  function WordCrc(w: bv16, bits: Bits): bv16
    decreases |bits|
  {
    if bits == [] then w else WordCrc(WordStep(w, bits[0]), bits[1..])
  }

  /** From 0xFFFF on, every message leaves the same bits in both. */
  lemma {:induction false} RunOnWords(w: bv16, c: Register, bits: Bits)
    requires Carries(w, c)
    ensures Carries(WordCrc(w, bits), Crc(c, bits))
    decreases |bits|
  {
    hide Carries, WordStep, CrcBit;
    if bits != [] {
      StepOnWords(w, c, bits[0]);
      RunOnWords(WordStep(w, bits[0]), CrcBit(c, bits[0]), bits[1..]);
    }
  }

  lemma MachineCrc(bits: Bits)
    ensures Carries(WordCrc(0xFFFF, bits), Crc(PRESET, bits))
  {
    hide WordCrc, Crc;
    PresetWord();
    RunOnWords(0xFFFF, PRESET, bits);
  }

  lemma PresetWord()
    ensures Carries(0xFFFF, PRESET)
  {
  }

  // ----- the step is linear and invertible

  /** Where two bit strings differ. */
  function Difference(a: Bits, b: Bits): (e: Bits)
    requires |a| == |b|
    ensures |e| == |a| && forall i :: 0 <= i < |e| ==> e[i] == (a[i] != b[i])
  {
    seq(|a|, i requires 0 <= i < |a| => a[i] != b[i])
  }

  lemma SameExactly(a: Bits, b: Bits)
    requires |a| == |b|
    ensures Difference(a, b) == Repeat(false, |a|) <==> a == b
  {
    if Difference(a, b) == Repeat(false, |a|) {
      forall i | 0 <= i < |a|
        ensures a[i] == b[i]
      {
        assert !Difference(a, b)[i];
      }
    }
  }

  lemma {:induction false} CrcLinear(c: Register, d: Register, a: Bits, b: Bits)
    requires |a| == |b|
    ensures Crc(Difference(c, d), Difference(a, b)) == Difference(Crc(c, a), Crc(d, b))
    decreases |a|
  {
    if a != [] {
      assert CrcBit(Difference(c, d), a[0] != b[0]) == Difference(CrcBit(c, a[0]), CrcBit(d, b[0]));
      CrcLinear(CrcBit(c, a[0]), CrcBit(d, b[0]), a[1..], b[1..]);
      assert Difference(a, b)[1..] == Difference(a[1..], b[1..]);
    }
  }

  lemma {:induction false} CrcConcat(c: Register, a: Bits, b: Bits)
    ensures Crc(c, a + b) == Crc(Crc(c, a), b)
    decreases |a|
  {
    if a == [] {
      assert a + b == b;
    } else {
      assert (a + b)[1..] == a[1..] + b;
      CrcConcat(CrcBit(c, a[0]), a[1..], b);
    }
  }

  /** Zero input never brings a nonzero register to zero: bit 15 of the next
      register is the bit that was shifted out. */
  lemma {:induction false} QuietKeepsZero(c: Register, n: nat)
    ensures Crc(c, Repeat(false, n)) == ZERO <==> c == ZERO
    decreases n
  {
    if n != 0 {
      assert Repeat(false, n)[1..] == Repeat(false, n - 1);
      var next := CrcBit(c, false);
      if next == ZERO {
        assert next[15] == c[0];
        forall j | 1 <= j < 16
          ensures !c[j]
        {
          assert next[j - 1] == (c[j] != (c[0] && Tap(j - 1)));
        }
        assert c == ZERO;
      }
      QuietKeepsZero(next, n - 1);
    }
  }

  /** Up to sixteen bits as a register, the first at the bottom. */
  function Padded(bits: Bits): Register
    requires |bits| <= 16
  {
    bits + Repeat(false, 16 - |bits|)
  }

  /** Up to sixteen bits fed to a register act as those bits added to the
      register and clocked out: the key to what the code detects. */
  lemma {:induction false} FeedIsClocking(c: Register, bits: Bits)
    requires |bits| <= 16
    ensures Crc(c, bits) == Crc(Difference(c, Padded(bits)), Repeat(false, |bits|))
    decreases |bits|
  {
    if bits != [] {
      FeedIsClocking(CrcBit(c, bits[0]), bits[1..]);
      assert Repeat(false, |bits|)[1..] == Repeat(false, |bits| - 1);
      assert CrcBit(Difference(c, Padded(bits)), false)
          == Difference(CrcBit(c, bits[0]), Padded(bits[1..]));
    } else {
      assert Difference(c, Padded(bits)) == c;
    }
  }

  // ----- what the receiver can rely on

  /** Zeros in front of a message do not go unnoticed, as they would with a
      register that starts at zero. */
  lemma LeadingZerosShow(n: nat)
    ensures Crc(PRESET, Repeat(false, n)) != ZERO
  {
    QuietKeepsZero(PRESET, n);
    assert PRESET[0] != ZERO[0];
  }

  /** A message is accepted when the register ends at zero. */
  predicate Accepted(message: Bits) { Crc(PRESET, message) == ZERO }

  /** For payloads of any length exactly one 16-bit tail is accepted: the CRC,
      least significant bit first and not complemented. */
  lemma AcceptedExactly(payload: Bits, tail: Bits)
    requires |tail| == 16
    ensures Accepted(payload + tail) <==> tail == Crc(PRESET, payload)
  {
    var c := Crc(PRESET, payload);
    CrcConcat(PRESET, payload, tail);
    FeedIsClocking(c, tail);
    QuietKeepsZero(Difference(c, Padded(tail)), 16);
    assert Padded(tail) == tail;
    SameExactly(c, tail);
  }

  /** An error burst of up to sixteen bits, anywhere in payload or CRC, is
      never accepted. */
  lemma BurstRejected(sent: Bits, received: Bits, from: nat)
    requires Accepted(sent) && |received| == |sent| && received != sent
    requires forall i :: 0 <= i < |sent| && received[i] != sent[i] ==> from <= i < from + 16
    ensures !Accepted(received)
  {
    var e := Difference(sent, received);
    SameExactly(sent, received);
    BurstSeen(e, if from <= |e| then from else |e|, if from + 16 <= |e| then from + 16 else |e|);
    ErrorsDecide(sent, received);
  }

  lemma BurstSeen(e: Bits, start: nat, stop: nat)
    requires start <= stop <= |e| && stop - start <= 16 && e != Repeat(false, |e|)
    requires forall i :: 0 <= i < |e| && e[i] ==> start <= i < stop
    ensures Crc(ZERO, e) != ZERO
  {
    SilentOutside(e, start, stop);
    SomewhereInside(e, start, stop);
    WindowSeen(e[start..stop]);
    QuietKeepsZero(Crc(ZERO, e[start..stop]), |e| - stop);
  }

  lemma ErrorsDecide(sent: Bits, received: Bits)
    requires |sent| == |received| && Accepted(sent)
    ensures Accepted(received) <==> Crc(ZERO, Difference(sent, received)) == ZERO
  {
    var r := Crc(PRESET, received);
    CrcLinear(PRESET, PRESET, sent, received);
    assert Difference(PRESET, PRESET) == ZERO;
    assert Difference(ZERO, r) == r;
  }

  lemma SilentOutside(e: Bits, start: nat, stop: nat)
    requires start <= stop <= |e|
    requires forall i :: 0 <= i < |e| && e[i] ==> start <= i < stop
    ensures Crc(ZERO, e) == Crc(Crc(ZERO, e[start..stop]), Repeat(false, |e| - stop))
  {
    SilentAround(start, e[start..stop], |e| - stop);
    SilentShape(e, start, stop);
  }

  lemma SilentShape(e: Bits, start: nat, stop: nat)
    requires start <= stop <= |e|
    requires forall i :: 0 <= i < |e| && e[i] ==> start <= i < stop
    ensures e == Repeat(false, start) + e[start..stop] + Repeat(false, |e| - stop)
  {
  }

  lemma SilentAround(n: nat, window: Bits, k: nat)
    ensures Crc(ZERO, Repeat(false, n) + window + Repeat(false, k)) == Crc(Crc(ZERO, window), Repeat(false, k))
  {
    CrcConcat(ZERO, Repeat(false, n) + window, Repeat(false, k));
    CrcConcat(ZERO, Repeat(false, n), window);
    QuietKeepsZero(ZERO, n);
  }

  lemma SomewhereInside(e: Bits, start: nat, stop: nat)
    requires start <= stop <= |e| && e != Repeat(false, |e|)
    requires forall i :: 0 <= i < |e| && e[i] ==> start <= i < stop
    ensures e[start..stop] != Repeat(false, stop - start)
  {
    var i :| 0 <= i < |e| && e[i];
    assert e[start..stop][i - start];
  }

  lemma WindowSeen(window: Bits)
    requires |window| <= 16 && window != Repeat(false, |window|)
    ensures Crc(ZERO, window) != ZERO
  {
    FeedIsClocking(ZERO, window);
    QuietKeepsZero(Difference(ZERO, Padded(window)), |window|);
    SameExactly(ZERO, Padded(window));
    PaddedZero(window);
  }

  lemma PaddedZero(window: Bits)
    requires |window| <= 16
    ensures Padded(window) == ZERO ==> window == Repeat(false, |window|)
  {
    assert Padded(window)[..|window|] == window;
    assert ZERO[..|window|] == Repeat(false, |window|);
  }

  // ----- any odd number of errors

  function Odd(bits: Bits): bool { bits != [] && (bits[0] != Odd(bits[1..])) }

  lemma {:induction false} OddOfDifference(a: Bits, b: Bits)
    requires |a| == |b|
    ensures Odd(Difference(a, b)) == (Odd(a) != Odd(b))
  {
    if a != [] {
      OddOfDifference(a[1..], b[1..]);
      assert Difference(a, b)[1..] == Difference(a[1..], b[1..]);
    }
  }

  lemma {:induction false} OddOfShift(c: Bits)
    requires c != []
    ensures Odd(c[1..] + [false]) == (Odd(c) != c[0])
  {
    if |c| == 1 {
      assert c[1..] + [false] == [false];
      assert Odd([false]) == Odd([]);
    } else {
      assert (c[1..] + [false])[1..] == c[1..][1..] + [false];
      OddOfShift(c[1..]);
    }
  }

  const TAPS: Register := [false, false, false, true, false, false, false, false,
                           false, false, true, false, false, false, false, true]

  lemma {:induction false} OddSkips(n: nat, rest: Bits)
    ensures Odd(Repeat(false, n) + rest) == Odd(rest)
    ensures Odd([true] + rest) == !Odd(rest)
  {
    assert ([true] + rest)[1..] == rest;
    if n == 0 {
      assert Repeat(false, 0) + rest == rest;
    } else {
      OddSkips(n - 1, rest);
      assert (Repeat(false, n) + rest)[1..] == Repeat(false, n - 1) + rest;
    }
  }

  lemma TapsOdd()
    ensures Odd(TAPS)
  {
    var low := Repeat(false, 4) + [true];
    var middle := Repeat(false, 6) + ([true] + low);
    OddSkips(4, [true]);
    OddSkips(4, []);
    assert [true] + [] == [true];
    OddSkips(6, [true] + low);
    OddSkips(6, low);
    OddSkips(3, [true] + middle);
    OddSkips(3, middle);
    assert TAPS == Repeat(false, 3) + ([true] + middle);
  }

  /** 0x8408 has an odd number of bits, so a step passes the input's parity on. */
  lemma StepParity(c: Register, bit: bool)
    ensures Odd(CrcBit(c, bit)) == (Odd(c) != bit)
  {
    OddOfShift(c);
    if c[0] != bit {
      StepFlips(c, bit);
      TapsOdd();
      OddOfDifference(c[1..] + [false], TAPS);
    } else {
      assert CrcBit(c, bit) == c[1..] + [false];
    }
  }

  lemma StepFlips(c: Register, bit: bool)
    requires c[0] != bit
    ensures CrcBit(c, bit) == Difference(c[1..] + [false], TAPS)
  {
    forall i | 0 <= i < 16
      ensures TAPS[i] == Tap(i)
    {
    }
  }

  lemma {:induction false} ParityTracks(c: Register, bits: Bits)
    ensures Odd(Crc(c, bits)) == (Odd(c) != Odd(bits))
    decreases |bits|
  {
    if bits != [] {
      StepParity(c, bits[0]);
      ParityTracks(CrcBit(c, bits[0]), bits[1..]);
    }
  }

  /** An odd number of errors, however far apart, is never accepted. */
  lemma OddErrorsRejected(sent: Bits, received: Bits)
    requires |sent| == |received| && Accepted(sent) && Odd(Difference(sent, received))
    ensures !Accepted(received)
  {
    ErrorsDecide(sent, received);
    ParityTracks(ZERO, Difference(sent, received));
    OddSkips(16, []);
    assert Repeat(false, 16) + [] == ZERO;
  }

  // ----- the senders

  const SYNC: Bits := [true, true, false, true, true, true, false, false, true, false]   // 0x372, top bit first

  /** A bit string read as a number, its first bit the highest. */
  function Number(bits: Bits): nat {
    if bits == [] then 0 else 2 * Number(bits[..|bits| - 1]) + if bits[|bits| - 1] then 1 else 0
  }

  /** The sync pattern is the ten-bit code 0x372. */
  lemma SyncIs()
    ensures |SYNC| == 10 && Number(SYNC) == 0x372
  {
    var b: Bits := [];
    b := NextDigit(b, true);
    b := NextDigit(b, true);
    b := NextDigit(b, false);
    b := NextDigit(b, true);
    b := NextDigit(b, true);
    b := NextDigit(b, true);
    b := NextDigit(b, false);
    b := NextDigit(b, false);
    b := NextDigit(b, true);
    b := NextDigit(b, false);
    assert b == SYNC;
  }

  lemma NextDigit(bits: Bits, bit: bool) returns (more: Bits)
    ensures more == bits + [bit] && Number(more) == 2 * Number(bits) + if bit then 1 else 0
  {
    more := bits + [bit];
    assert more[..|bits|] == bits;
  }

  /** Fill, sync, payload, CRC, fill. */
  method BuildFrame(payload: Bits, leadFill: nat, tailFill: nat) returns (bits: Bits)
    ensures bits == Repeat(true, leadFill) + SYNC + payload + Crc(PRESET, payload) + Repeat(true, tailFill)
    ensures Accepted(bits[leadFill + 10..|bits| - tailFill])
  {
    bits := Repeat(true, leadFill);
    bits := bits + SYNC;
    var crc := RunCrc(payload);
    bits := bits + payload;
    bits := bits + crc;
    AcceptedExactly(payload, crc);
    Middle(Repeat(true, leadFill) + SYNC, payload + crc, Repeat(true, tailFill));
    assert bits == Repeat(true, leadFill) + SYNC + (payload + crc);
    bits := bits + Repeat(true, tailFill);
  }

  lemma Middle(a: Bits, b: Bits, c: Bits)
    ensures (a + b + c)[|a|..|a + b + c| - |c|] == b
  {
  }

  method RunCrc(bits: Bits) returns (crc: Register)
    ensures crc == Crc(PRESET, bits)
  {
    crc := PRESET;
    for i := 0 to |bits|
      invariant crc == Crc(PRESET, bits[..i])
    {
      assert bits[..i + 1] == bits[..i] + [bits[i]];
      CrcConcat(PRESET, bits[..i], [bits[i]]);
      crc := CrcBit(crc, bits[i]);
    }
    assert bits[..|bits|] == bits;
  }

  /** The V.90 N = 0 DIL descriptor: a 17-bit sync, 195 zero bits of start
      bits and fields, their CRC, fill to 276. */
  method DilDescriptor() returns (bits: Bits)
    ensures |bits| == 276
    ensures bits[..212] == Repeat(true, 17) + Repeat(false, 195)
    ensures Accepted(bits[..228]) && bits[228..] == Repeat(true, 48)
  {
    ghost var sync := Repeat(true, 17);
    bits := Repeat(true, 17);
    bits := bits + ZeroField(8);             // N
    bits := bits + Repeat(false, 8);         // reserved
    bits := bits + ZeroField(7);             // LSP - 1
    bits := bits + ZeroField(7);             // LTP - 1
    bits := bits + ZeroField(16);            // SP
    bits := bits + ZeroField(16);            // TP
    for i := 0 to 8                          // H1..H8
      invariant bits == sync + Repeat(false, 67 + 8 * i)
    {
      bits := bits + ZeroField(7);
    }
    for i := 0 to 8                          // REF1..REF8
      invariant bits == sync + Repeat(false, 131 + 8 * i)
    {
      bits := bits + ZeroField(7);
    }
    var crc := RunCrc(bits);
    AcceptedExactly(bits, crc);
    bits := bits + crc;
    assert (bits + Repeat(true, 48))[..228] == bits;
    bits := bits + Repeat(true, 276 - |bits|);
  }

  /** A start bit and a zero value of the given width. */
  function ZeroField(width: nat): (f: Bits)
    ensures f == Repeat(false, width + 1)
  {
    [false] + Repeat(false, width)
  }
}
