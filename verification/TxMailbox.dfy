/**
 The request/acknowledge transmit mailbox of page 13 with a cyclic bit source
 (_service_v90a_tx_request of tools/dial_tikrnl_drive.py).
 */
module TxMailbox {
  import opened Arithmetic
  import opened Bytes
  import opened Options

  const WORDS := 0x4000
  const TXD0 := 0x3F05
  const REQUEST := 0x3FAD

  type Source = s: seq<bool> | s != [] witness [true]

  /** Bit j of the source, repeated without end. */
  function Cyclic(source: Source, j: nat): bool { source[j % |source|] }

  /** A word whose oldest bit is its most significant. */
  function Packed(bits: seq<bool>): (w: nat)
    ensures w < Pow2(|bits|)
  {
    if bits == [] then 0 else 2 * Packed(bits[..|bits| - 1]) + if bits[|bits| - 1] then 1 else 0
  }

  function BitOf(w: nat, width: nat, i: nat): bool
    requires i < width
  {
    w / Pow2(width - 1 - i) % 2 == 1
  }

  /** Sixteen bits of the cyclic source from bit `from` on. */
  function Window(source: Source, from: nat): (s: seq<bool>)
    ensures |s| == 16
  {
    seq(16, i requires 0 <= i < 16 => Cyclic(source, from + i))
  }

  /** The k-th word of the source. */
  function WordAt(source: Source, k: nat): nat { Packed(Window(source, 16 * k)) }

  lemma {:induction false} PackedBit(bits: seq<bool>, i: nat)
    requires i < |bits|
    ensures BitOf(Packed(bits), |bits|, i) == bits[i]
  {
    var last, front := if bits[|bits| - 1] then 1 else 0, Packed(bits[..|bits| - 1]);
    assert Packed(bits) == 2 * front + last;
    if i == |bits| - 1 {
      assert Pow2(0) == 1;
    } else {
      hide Packed, Pow2;
      PackedBit(bits[..|bits| - 1], i);
      ShiftedBit(front, last, |bits| - 1 - i);
    }
  }

  /** Past the last bit of 2 * front + last stand the bits of front. */
  lemma ShiftedBit(front: nat, last: nat, n: nat)
    requires last < 2 && 0 < n
    ensures (2 * front + last) / Pow2(n) == front / Pow2(n - 1)
  {
    var p := Pow2(n - 1);
    var q, r := front / p, front % p;
    assert front == q * p + r;
    Regroup(q, p);
    DivisionIs(2 * front + last, 2 * p, q, 2 * r + last);
  }

  lemma Regroup(q: int, p: int)
    ensures 2 * (q * p) == q * (2 * p)
  {
  }

  /** The words, one after another, most significant bit first, are the source
      repeated. */
  lemma WordsAreTheSource(source: Source, k: nat, i: nat)
    requires i < 16
    ensures BitOf(WordAt(source, k), 16, i) == Cyclic(source, 16 * k + i)
    ensures WordAt(source, k) < 0x10000
  {
    PackedBit(Window(source, 16 * k), i);
    assert Pow2(16) == 0x10000 by {
      assert Pow2(4) == 16 && Pow2(8) == 256 && Pow2(12) == 4096;
    }
  }

  // ----- requests

  /** How often a request was seen to rise. */
  function Rises(requests: seq<bool>): nat {
    if requests == [] then 0
    else Rises(requests[..|requests| - 1]) + if Rising(requests) then 1 else 0
  }

  /** The last observation is a request and the one before it was not. */
  predicate Rising(requests: seq<bool>) {
    requests != [] && requests[|requests| - 1] && (|requests| == 1 || !requests[|requests| - 2])
  }

  /** A request is seen to rise at k. */
  predicate RisesAt(requests: seq<bool>, k: nat) {
    k < |requests| && requests[k] && (k == 0 || !requests[k - 1])
  }

  function RisingPlaces(requests: seq<bool>): set<nat> { set k: nat | k < |requests| && RisesAt(requests, k) }

  /** The count is the number of places where a request rises. */
  lemma {:induction false} RisesExactly(requests: seq<bool>)
    ensures Rises(requests) == |RisingPlaces(requests)|
  {
    if requests == [] {
      assert RisingPlaces(requests) == {};
    } else {
      var last := |requests| - 1;
      var before := requests[..last];
      RisesExactly(before);
      assert forall k: nat :: k < last ==> (RisesAt(requests, k) <==> RisesAt(before, k));
      if Rising(requests) {
        assert RisingPlaces(requests) == RisingPlaces(before) + {last};
      } else {
        assert RisingPlaces(requests) == RisingPlaces(before);
      }
    }
  }

  class Card {
    const dm: array<Word>
    const source: Source
    var resident: bool            // page 13 is loaded; page loads set it at will
    var pending: Option<Word>
    var bitpos: nat

    /** The request bit at every service made while page 13 was resident. */
    ghost var requests: seq<bool>

    ghost predicate Valid()
      reads this
    {
      && dm.Length == WORDS
      && bitpos == 16 * Rises(requests) % |source|
      && (pending.Some? <==> requests != [] && requests[|requests| - 1])
      && (pending.Some? ==> 0 < Rises(requests) && pending.value == WordAt(source, Rises(requests) - 1))
    }

    constructor (source: Source)
      ensures Valid() && requests == [] && this.source == source && fresh(dm)
    {
      dm := new Word[WORDS](_ => 0);
      this.source := source;
      resident, pending, bitpos, requests := false, None, 0, [];
    }

    /** One service, whatever the firmware has stored since the last.  While a
        request stands, the mailbox gets the word of the rise that began it. */
    method ServiceTxRequest()
      requires Valid()
      modifies this`pending, this`bitpos, this`requests, dm
      ensures Valid()
      ensures requests == if resident then old(requests) + [old(dm[0x3FAD]) / 0x8000 % 2 == 1] else old(requests)
      ensures resident && requests[|requests| - 1] ==>
                0 < Rises(requests) && dm[..] == old(dm[..])[0x3F05 := WordAt(source, Rises(requests) - 1)]
      ensures !(resident && requests[|requests| - 1]) ==> dm[..] == old(dm[..])
    {
      if !resident {
        return;
      }
      var requested := dm[REQUEST] / 0x8000 % 2 == 1;
      Observed(requests, requested);
      requests := requests + [requested];
      if !requested {
        pending := None;
        return;
      }
      if pending.Some? {
        dm[TXD0] := pending.value;
        return;
      }
      var word := TakeWord();
      pending := Some(word);
      dm[TXD0] := word;
    }

    /** The next sixteen bits, packed one at a time. */
    method TakeWord() returns (word: Word)
      requires 0 < Rises(requests) && bitpos == 16 * (Rises(requests) - 1) % |source|
      modifies this`bitpos
      ensures bitpos == 16 * Rises(requests) % |source|
      ensures word == WordAt(source, Rises(requests) - 1)
    {
      ghost var k := Rises(requests) - 1;
      WindowStarts(source, 16 * k);
      hide Window, Packed, Rises, Cyclic;
      var value := 0;
      for i := 0 to 16
        invariant bitpos == old(bitpos)
        invariant value == Packed(Window(source, 16 * k)[..i])
      {
        WindowAt(source, 16 * k, i, bitpos);
        PackedGrows(Window(source, 16 * k), i);
        value := 2 * value + if source[(bitpos + i) % |source|] then 1 else 0;
      }
      assert Window(source, 16 * k)[..16] == Window(source, 16 * k);
      WordsAreTheSource(source, k, 0);
      SamePlace(16 * k, 16, |source|);
      word, bitpos := value, (bitpos + 16) % |source|;
    }
  }

  lemma WindowStarts(source: Source, from: nat)
    ensures Packed(Window(source, from)[..0]) == 0
  {
  }

  /** The service reads a bit of the window by its position within the source. */
  lemma WindowAt(source: Source, from: nat, i: nat, bitpos: nat)
    requires i < 16 && bitpos == from % |source|
    ensures Window(source, from)[i] == source[(bitpos + i) % |source|]
  {
    SamePlace(from, i, |source|);
    assert Window(source, from)[i] == Cyclic(source, from + i);
  }

  lemma PackedGrows(bits: seq<bool>, i: nat)
    requires i < |bits|
    ensures Packed(bits[..i + 1]) == 2 * Packed(bits[..i]) + if bits[i] then 1 else 0
  {
    assert bits[..i + 1][..i] == bits[..i];
  }

  lemma Observed(requests: seq<bool>, requested: bool)
    ensures Rises(requests + [requested])
         == Rises(requests) + if requested && (requests == [] || !requests[|requests| - 1]) then 1 else 0
  {
    assert (requests + [requested])[..|requests|] == requests;
  }

  lemma SamePlace(a: nat, i: nat, n: nat)
    requires 0 < n
    ensures (a % n + i) % n == (a + i) % n
  {
    var q := a / n;
    var r := (a % n + i) % n;
    var t := (a % n + i) / n;
    assert a + i == q * n + a % n + i && a % n + i == t * n + r;
    assert a + i == (q + t) * n + r by {
      Distribute(q, t, n);
    }
    DivisionIs(a + i, n, q + t, r);
  }

  lemma Distribute(q: int, t: int, n: int)
    ensures (q + t) * n == q * n + t * n
  {
  }
}
