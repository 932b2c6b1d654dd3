/**
 Little-endian fields in a byte string: reading them and the bytes that read
 back as given values.
 */
module Bytes {

  type Byte = x: int | 0 <= x < 0x100
  type Word = x: int | 0 <= x < 0x10000

  /** The bytes s stand at pos. */
  predicate Holds(data: seq<Byte>, pos: nat, s: seq<Byte>) {
    pos + |s| <= |data| && data[pos..pos + |s|] == s
  }

  lemma HoldsConcat(data: seq<Byte>, pos: nat, a: seq<Byte>, b: seq<Byte>)
    ensures Holds(data, pos, a + b) <==> Holds(data, pos, a) && Holds(data, pos + |a|, b)
  {
    if Holds(data, pos, a + b) {
      assert a == (a + b)[..|a|] && b == (a + b)[|a|..];
    }
  }

  lemma HoldsElementwise(data: seq<Byte>, pos: nat, s: seq<Byte>)
    ensures Holds(data, pos, s) <==> Fit(data, pos, |s|) && forall i :: 0 <= i < |s| ==> data[pos + i] == s[i]
  {
    if Holds(data, pos, s) {
      forall i | 0 <= i < |s|
        ensures data[pos + i] == s[i]
      {
        assert data[pos..pos + |s|][i] == data[pos + i];
      }
    }
  }

  lemma HoldsWithin(data: seq<Byte>, pos: nat, s: seq<Byte>)
    requires Holds(data, pos, s)
    ensures pos + |s| <= |data|
  {
  }

  function Fit(data: seq<Byte>, pos: nat, n: nat): bool { pos + n <= |data| }

  // ----- 16-bit fields

  function Bytes16(v: Word): seq<Byte> { [v % 0x100, v / 0x100] }

  function Read16(data: seq<Byte>, pos: nat): Word
    requires Fit(data, pos, 2)
  {
    var low: int, high: int := data[pos], data[pos + 1];
    low + 0x100 * high
  }

  function Pack(vs: seq<Word>): (s: seq<Byte>)
    ensures |s| == 2 * |vs|
  {
    if vs == [] then [] else Bytes16(vs[0]) + Pack(vs[1..])
  }

  function Unpack(data: seq<Byte>, pos: nat, n: nat): (vs: seq<Word>)
    requires Fit(data, pos, 2 * n)
    ensures |vs| == n
    decreases n
  {
    if n == 0 then [] else [Read16(data, pos)] + Unpack(data, pos + 2, n - 1)
  }

  lemma {:induction false} PackExactly(data: seq<Byte>, pos: nat, vs: seq<Word>)
    ensures Holds(data, pos, Pack(vs)) <==> Fit(data, pos, 2 * |vs|) && Unpack(data, pos, |vs|) == vs
    decreases |vs|
  {
    if vs != [] {
      PackExactly(data, pos + 2, vs[1..]);
      HoldsConcat(data, pos, Bytes16(vs[0]), Pack(vs[1..]));
      if Fit(data, pos, 2) {
        assert data[pos..pos + 2] == [data[pos], data[pos + 1]];
      }
      if Fit(data, pos, 2 * |vs|) {
        assert Unpack(data, pos, |vs|)[1..] == Unpack(data, pos + 2, |vs| - 1);
        assert vs == [vs[0]] + vs[1..];
      }
    }
  }

  // ----- rows of 16-bit fields

  type Row = seq<Word>

  predicate Uniform(rows: seq<Row>, width: nat) { forall i :: 0 <= i < |rows| ==> |rows[i]| == width }

  // ----- 32-bit fields

  function Bytes32(v: int): (s: seq<Byte>)
    requires 0 <= v < 0x1_0000_0000
    ensures |s| == 4
  {
    Bytes16(v % 0x10000) + Bytes16(v / 0x10000)
  }

  function Read32(data: seq<Byte>, pos: nat): (v: int)
    requires Fit(data, pos, 4)
    ensures 0 <= v < 0x1_0000_0000
  {
    var low: int, high: int := Read16(data, pos), Read16(data, pos + 2);
    low + 0x10000 * high
  }

  lemma Bytes32Exactly(data: seq<Byte>, pos: nat, v: int)
    requires 0 <= v < 0x1_0000_0000 && Holds(data, pos, Bytes32(v))
    ensures Read32(data, pos) == v
  {
    var b := data[pos..pos + 4];
    assert b[0] == data[pos] && b[1] == data[pos + 1] && b[2] == data[pos + 2] && b[3] == data[pos + 3];
  }
}
