/**
 The source coding of the V.90 Ja and TRN1u signals in
 tools/dial_tikrnl_drive.py: a self-synchronising scrambler with taps 18 and 23
 followed by a modulo-2 differential encoder.
 */
module LineCoding {

  type Bits = seq<bool>

  /** Bit n of a signal that was silent before its start. */
  predicate Past(y: Bits, n: int) { 0 <= n < |y| && y[n] }

  function Xor3(a: bool, b: bool, c: bool): bool { (a != b) != c }

  ghost predicate ScrambledAt(x: Bits, y: Bits, n: nat)
    requires n < |x| == |y|
  {
    y[n] == Xor3(x[n], Past(y, n - 18), Past(y, n - 23))
  }

  /** y is x scrambled from a cleared register. */
  ghost predicate Scrambles(x: Bits, y: Bits) {
    |y| == |x| && forall n :: 0 <= n < |x| ==> ScrambledAt(x, y, n)
  }

  ghost predicate EncodedAt(s: Bits, e: Bits, n: nat)
    requires n < |s| == |e|
  {
    e[n] == (s[n] != Past(e, n - 1))
  }

  /** e is s differentially encoded from a preceding zero. */
  ghost predicate Encodes(s: Bits, e: Bits) {
    |e| == |s| && forall n :: 0 <= n < |s| ==> EncodedAt(s, e, n)
  }

  /** Both recurrences determine their output, so any two programs that satisfy
      them agree bit for bit. */
  lemma {:induction false} ScrambleUnique(x: Bits, y: Bits, z: Bits, n: nat)
    requires Scrambles(x, y) && Scrambles(x, z) && n <= |x|
    ensures y[..n] == z[..n]
  {
    if n != 0 {
      ScrambleUnique(x, y, z, n - 1);
      Earlier(y, z, n - 1, 18);
      Earlier(y, z, n - 1, 23);
      assert ScrambledAt(x, y, n - 1) && ScrambledAt(x, z, n - 1);
      assert y[..n] == y[..n - 1] + [y[n - 1]] && z[..n] == z[..n - 1] + [z[n - 1]];
    }
  }

  lemma {:induction false} EncodeUnique(s: Bits, e: Bits, f: Bits, n: nat)
    requires Encodes(s, e) && Encodes(s, f) && n <= |s|
    ensures e[..n] == f[..n]
  {
    if n != 0 {
      EncodeUnique(s, e, f, n - 1);
      Earlier(e, f, n - 1, 1);
      assert EncodedAt(s, e, n - 1) && EncodedAt(s, f, n - 1);
      assert e[..n] == e[..n - 1] + [e[n - 1]] && f[..n] == f[..n - 1] + [f[n - 1]];
    }
  }

  lemma Earlier(y: Bits, z: Bits, n: nat, back: nat)
    requires n < |y| && n < |z| && y[..n] == z[..n] && 0 < back
    ensures Past(y, n - back) == Past(z, n - back)
  {
    if back <= n {
      assert y[n - back] == y[..n][n - back] == z[..n][n - back];
    }
  }

  // ----- the receiving end

  /** Bit n of a signal, or of what a decoder held before the signal began:
      held[i] is the bit i + 1 places before its first. */
  function Before(held: Bits, y: Bits, n: int): bool {
    if 0 <= n < |y| then y[n] else if 0 <= -1 - n < |held| then held[-1 - n] else false
  }

  function DecodeDifferential(held: bool, e: Bits): (s: Bits)
    ensures |s| == |e| && forall n :: 0 <= n < |e| ==> s[n] == (e[n] != Before([held], e, n - 1))
  {
    seq(|e|, n requires 0 <= n < |e| => e[n] != Before([held], e, n - 1))
  }

  function Descramble(held: Bits, y: Bits): (x: Bits)
    ensures |x| == |y|
    ensures forall n :: 0 <= n < |y| ==> x[n] == Xor3(y[n], Before(held, y, n - 18), Before(held, y, n - 23))
  {
    seq(|y|, n requires 0 <= n < |y| => Xor3(y[n], Before(held, y, n - 18), Before(held, y, n - 23)))
  }

  function Receive(heldBit: bool, register: Bits, e: Bits): Bits {
    Descramble(register, DecodeDifferential(heldBit, e))
  }

  /** From a cleared decoder the source comes back unchanged. */
  lemma RoundTrip(x: Bits, y: Bits, e: Bits)
    requires Scrambles(x, y) && Encodes(y, e)
    ensures Receive(false, [], e) == x
  {
    var s := DecodeDifferential(false, e);
    forall n | 0 <= n < |e|
      ensures s[n] == y[n]
    {
      assert EncodedAt(y, e, n);
    }
    assert s == y;
    var r := Descramble([], y);
    forall n | 0 <= n < |y|
      ensures r[n] == x[n]
    {
      assert ScrambledAt(x, y, n);
    }
  }

  /** A decoder started anywhere in the stream, with anything in its register,
      recovers every source bit after 24 bits. */
  lemma SelfSynchronises(x: Bits, y: Bits, e: Bits, start: nat, heldBit: bool, register: Bits, n: nat)
    requires Scrambles(x, y) && Encodes(y, e)
    requires start + 24 <= n < |x|
    ensures Receive(heldBit, register, e[start..])[n - start] == x[n]
  {
    var s := DecodeDifferential(heldBit, e[start..]);
    forall k | start < k <= n
      ensures s[k - start] == y[k]
    {
      assert EncodedAt(y, e, k);
      assert e[start..][k - start - 1] == e[k - 1];
    }
    assert s[n - start] == y[n] && s[n - start - 18] == y[n - 18] && s[n - start - 23] == y[n - 23];
    assert ScrambledAt(x, y, n);
  }

  /** The window is tight: with 23 bits the wrong register still shows. */
  lemma WindowIsTight() returns (x: Bits, y: Bits, e: Bits)
    ensures Scrambles(x, y) && Encodes(y, e) && |x| == 24
    ensures Receive(true, [], e)[23] != x[23]
  {
    x := seq(24, n => n == 23);
    y, e := x, x;
    assert forall n :: 0 <= n < 24 ==> ScrambledAt(x, y, n);
    assert forall n :: 0 <= n < 24 ==> EncodedAt(y, e, n);
    assert DecodeDifferential(true, e)[0];
    var s := DecodeDifferential(true, e);
    assert s[0] && !s[5] && s[23];
    assert Descramble([], s)[23] == Xor3(s[23], s[5], s[0]);
  }

  /** One wrong bit at the descrambler comes out wrong at its own place and at the
      two taps, and nowhere else. */
  lemma DescramblerErrors(held: Bits, y: Bits, n: nat, k: nat)
    requires n < |y| && k < |y|
    ensures Descramble(held, y[n := !y[n]])[k] != Descramble(held, y)[k] <==> k == n || k == n + 18 || k == n + 23
  {
  }

  /** One wrong bit on the line therefore spoils exactly these six, as far as they
      lie within what was received. */
  lemma LineErrors(heldBit: bool, register: Bits, e: Bits, n: nat, k: nat)
    requires n < |e| && k < |e|
    ensures Receive(heldBit, register, e[n := !e[n]])[k] != Receive(heldBit, register, e)[k]
            <==> k == n || k == n + 1 || k == n + 18 || k == n + 19 || k == n + 23 || k == n + 24
  {
    hide DecodeDifferential, Before;
    var good, bad := DecodeDifferential(heldBit, e), DecodeDifferential(heldBit, e[n := !e[n]]);
    DecoderErrors(heldBit, e, n, register, k);
    DecoderErrors(heldBit, e, n, register, k - 18);
    DecoderErrors(heldBit, e, n, register, k - 23);
    assert Receive(heldBit, register, e)[k] == Xor3(good[k], Before(register, good, k - 18), Before(register, good, k - 23));
    assert Receive(heldBit, register, e[n := !e[n]])[k]
        == Xor3(bad[k], Before(register, bad, k - 18), Before(register, bad, k - 23));
  }

  lemma DecoderErrors(heldBit: bool, e: Bits, n: nat, register: Bits, i: int)
    requires n < |e| && i < |e|
    ensures var good, bad := DecodeDifferential(heldBit, e), DecodeDifferential(heldBit, e[n := !e[n]]);
            && (Before(register, bad, i) != Before(register, good, i) <==> i == n || i == n + 1)
            && (0 <= i ==> Before(register, bad, i) == bad[i] && Before(register, good, i) == good[i])
  {
  }

  // ----- the senders

  /** The indexed scrambler of the Ja builders. */
  method Scramble(raw: Bits) returns (scrambled: Bits)
    ensures Scrambles(raw, scrambled)
  {
    scrambled := [];
    for index := 0 to |raw|
      invariant Scrambles(raw[..index], scrambled)
    {
      var value := raw[index];
      if index >= 18 {
        value := value != scrambled[index - 18];
      }
      if index >= 23 {
        value := value != scrambled[index - 23];
      }
      Extend(raw[..index], scrambled, raw[index], value);
      assert raw[..index + 1] == raw[..index] + [raw[index]];
      scrambled := scrambled + [value];
    }
    assert raw[..|raw|] == raw;
  }

  lemma Extend(x: Bits, y: Bits, bit: bool, value: bool)
    requires Scrambles(x, y) && value == Xor3(bit, Past(y, |x| - 18), Past(y, |x| - 23))
    ensures Scrambles(x + [bit], y + [value])
  {
    forall n | 0 <= n < |x| + 1
      ensures ScrambledAt(x + [bit], y + [value], n)
    {
      assert n < |x| ==> ScrambledAt(x, y, n);
      assert Past(y + [value], n - 18) == Past(y, n - 18) && Past(y + [value], n - 23) == Past(y, n - 23);
    }
  }

  function Ones(n: nat): (b: Bits)
    ensures |b| == n && forall i :: 0 <= i < n ==> b[i]
  {
    seq(n, _ => true)
  }

  /** The last 23 bits sent, oldest first. */
  ghost predicate Holds(history: Bits, output: Bits) {
    |history| == 23 && forall k :: 0 <= k < 23 ==> history[k] == Past(output, |output| - 23 + k)
  }

  lemma Shift(history: Bits, output: Bits, bit: bool)
    requires Holds(history, output)
    ensures Holds((history + [bit])[1..], output + [bit])
  {
    forall k | 0 <= k < 23
      ensures (history + [bit])[1..][k] == Past(output + [bit], |output| + 1 - 23 + k)
    {
      if k < 22 {
        assert history[k + 1] == Past(output, |output| - 23 + (k + 1));
      }
    }
  }

  lemma TapsHeld(history: Bits, output: Bits)
    requires Holds(history, output)
    ensures history[5] == Past(output, |output| - 18) && history[0] == Past(output, |output| - 23)
  {
  }

  lemma OneMore(output: Bits, value: bool)
    requires Scrambles(Ones(|output|), output)
    requires value == Xor3(true, Past(output, |output| - 18), Past(output, |output| - 23))
    ensures Scrambles(Ones(|output| + 1), output + [value])
  {
    Extend(Ones(|output|), output, true, value);
    assert Ones(|output| + 1) == Ones(|output|) + [true];
  }

  /** TRN1u: ones through a 23-place shift register, reset to zero. */
  method Trn1u(length: nat) returns (output: Bits)
    ensures |output| == length && Scrambles(Ones(length), output)
  {
    var history: Bits := seq(23, _ => false);
    output := [];
    for i := 0 to length
      invariant |output| == i && Holds(history, output) && Scrambles(Ones(i), output)
    {
      var bit := Xor3(true, history[23 - 18], history[23 - 23]);
      TapsHeld(history, output);
      OneMore(output, bit);
      Shift(history, output, bit);
      output := output + [bit];
      history := (history + [bit])[1..];
    }
  }

  /** The differential encoder as the V.92 builder spells it. */
  method EncodeTransmitted(scrambled: Bits) returns (encoded: Bits)
    ensures Encodes(scrambled, encoded)
  {
    var previous := false;
    encoded := [];
    for i := 0 to |scrambled|
      invariant previous == Past(encoded, i - 1)
      invariant Encodes(scrambled[..i], encoded)
    {
      var transmitted := scrambled[i] != previous;
      EncodeMore(scrambled[..i], encoded, scrambled[i]);
      assert scrambled[..i + 1] == scrambled[..i] + [scrambled[i]];
      encoded := encoded + [transmitted];
      previous := transmitted;
    }
    assert scrambled[..|scrambled|] == scrambled;
  }

  /** The same encoder as the V.90 builder spells it, accumulating in place. */
  method EncodeAccumulated(scrambled: Bits) returns (encoded: Bits)
    ensures Encodes(scrambled, encoded)
  {
    var previous := false;
    encoded := [];
    for i := 0 to |scrambled|
      invariant previous == Past(encoded, i - 1)
      invariant Encodes(scrambled[..i], encoded)
    {
      previous := previous != scrambled[i];
      EncodeMore(scrambled[..i], encoded, scrambled[i]);
      assert scrambled[..i + 1] == scrambled[..i] + [scrambled[i]];
      encoded := encoded + [previous];
    }
    assert scrambled[..|scrambled|] == scrambled;
  }

  lemma EncodeMore(s: Bits, e: Bits, bit: bool)
    requires Encodes(s, e)
    ensures Encodes(s + [bit], e + [bit != Past(e, |s| - 1)])
  {
    var more := e + [bit != Past(e, |s| - 1)];
    forall n | 0 <= n < |s| + 1
      ensures EncodedAt(s + [bit], more, n)
    {
      assert n < |s| ==> EncodedAt(s, e, n);
      assert Past(more, n - 1) == Past(e, n - 1);
    }
  }

  /** The V.92-shaped Ja block: 24 ones and a zero placeholder descriptor. */
  method PlaceholderJa() returns (block: Bits)
    ensures Receive(false, [], block) == Ones(24) + seq(276, _ => false)
  {
    var raw := Ones(24) + seq(276, _ => false);
    var scrambled := Scramble(raw);
    block := EncodeTransmitted(scrambled);
    RoundTrip(raw, scrambled, block);
  }

  /** The V.90 Ja block around a descriptor. */
  method V90Ja(descriptor: Bits) returns (block: Bits)
    ensures |block| == 24 + |descriptor|
    ensures Receive(false, [], block) == Ones(24) + descriptor
  {
    var raw := Ones(24) + descriptor;
    var scrambled := Scramble(raw);
    block := EncodeAccumulated(scrambled);
    RoundTrip(raw, scrambled, block);
  }
}
