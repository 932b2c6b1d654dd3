/**
 The sparse memory image a list of data blocks describes (load_sparse of
 tools/eicon_dsp_extract.py).
 */
module SparseImage {
  import opened Bytes
  import opened DataBlocks
  import opened Options
  import Combifile

  const SIZE := 0x10000

  /** Addresses already written, and what was written there. */
  type Cells = map<int, int>

  /** One word stored at one address. */
  type Store = (int, int)

  function Place(cells: Cells, store: Store, domain: Domain): Result<Cells> {
    var (address, value) := store;
    if value < 0 || Modulus(domain) <= value then Err(TooWide)
    else if address in cells && cells[address] != value then Err(Conflict)
    else if address < 0 || SIZE <= address then Err(OutOfImage)
    else Ok(cells[address := value])
  }

  function PlaceAll(cells: Cells, stores: seq<Store>, domain: Domain): Result<Cells>
    decreases stores
  {
    if stores == [] then Ok(cells)
    else
      var first := Place(cells, stores[0], domain);
      if first.Err? then first else PlaceAll(first.value, stores[1..], domain)
  }

  function BlockStores(b: Block): (s: seq<Store>)
    ensures |s| == |b.values|
  {
    seq(|b.values|, i requires 0 <= i < |b.values| => (b.address + i, b.values[i]))
  }

  function Stores(blocks: seq<Block>): seq<Store> {
    if blocks == [] then [] else BlockStores(blocks[0]) + Stores(blocks[1..])
  }

  function Load(blocks: seq<Block>, domain: Domain): Result<Cells> { PlaceAll(map[], Stores(blocks), domain) }

  // ----- what loading means

  predicate Agree(s: Store, t: Store) { s.0 == t.0 ==> s.1 == t.1 }

  predicate InRange(s: Store, domain: Domain) { 0 <= s.0 < SIZE && 0 <= s.1 < Modulus(domain) }

  /** 16-bit addresses, and 16 bits of data or 24 of program. */
  lemma InRangeExactly(s: Store, domain: Domain)
    ensures InRange(s, domain) <==> 0 <= s.0 <= 0xFFFF && 0 <= s.1 <= if domain == Dm then 0xFFFF else 0xFF_FFFF
  {
  }

  predicate Consistent(stores: seq<Store>, domain: Domain) {
    && (forall s :: s in stores ==> InRange(s, domain))
    && forall s, t :: s in stores && t in stores ==> Agree(s, t)
  }

  predicate AgreesWith(cells: Cells, stores: seq<Store>) {
    forall s :: s in stores ==> s.0 in cells ==> cells[s.0] == s.1
  }

  /** `after` is `cells` with exactly the stores added. */
  predicate Adds(cells: Cells, stores: seq<Store>, after: Cells) {
    && (forall a :: a in cells ==> a in after && after[a] == cells[a])
    && (forall s :: s in stores ==> s.0 in after && after[s.0] == s.1)
    && forall a :: a in after ==> a in cells || (a, after[a]) in stores
  }

  lemma {:induction false} PlacedExactly(cells: Cells, stores: seq<Store>, domain: Domain)
    ensures PlaceAll(cells, stores, domain).Ok? <==> Consistent(stores, domain) && AgreesWith(cells, stores)
    ensures PlaceAll(cells, stores, domain).Ok? ==> Adds(cells, stores, PlaceAll(cells, stores, domain).value)
    decreases stores
  {
    if stores != [] {
      var first, rest := stores[0], stores[1..];
      SplitMembership(first, rest, stores);
      var placed := Place(cells, first, domain);
      if placed.Ok? {
        PlacedExactly(placed.value, rest, domain);
        FirstThenRest(cells, first, rest, placed.value, stores, domain);
      } else {
        assert first in stores;
      }
    }
  }

  lemma SplitMembership(first: Store, rest: seq<Store>, stores: seq<Store>)
    requires stores != [] && first == stores[0] && rest == stores[1..]
    ensures forall s :: s in stores <==> s == first || s in rest
  {
    assert stores == [first] + rest;
  }

  lemma FirstThenRest(cells: Cells, first: Store, rest: seq<Store>, placed: Cells, stores: seq<Store>,
                      domain: Domain)
    requires InRange(first, domain) && (first.0 in cells ==> cells[first.0] == first.1)
    requires placed == cells[first.0 := first.1]
    requires forall s :: s in stores <==> s == first || s in rest
    ensures Consistent(stores, domain) && AgreesWith(cells, stores)
            <==> Consistent(rest, domain) && AgreesWith(placed, rest)
    ensures forall after :: Adds(placed, rest, after) ==> Adds(cells, stores, after)
  {
    if Consistent(rest, domain) && AgreesWith(placed, rest) {
      forall s, t | s in stores && t in stores
        ensures Agree(s, t)
      {
      }
    }
    if Consistent(stores, domain) && AgreesWith(cells, stores) {
      forall s | s in rest
        ensures s.0 in placed ==> placed[s.0] == s.1
      {
        assert Agree(s, first);
      }
    }
    forall after | Adds(placed, rest, after)
      ensures Adds(cells, stores, after)
    {
    }
  }

  /** Some block puts v at a. */
  predicate Puts(blocks: seq<Block>, a: int, v: int) {
    exists b :: b in blocks && (a, v) in BlockStores(b)
  }

  lemma {:induction false} StoresArePuts(blocks: seq<Block>, a: int, v: int)
    ensures (a, v) in Stores(blocks) <==> Puts(blocks, a, v)
  {
    if blocks != [] {
      StoresArePuts(blocks[1..], a, v);
      assert blocks == [blocks[0]] + blocks[1..];
      if Puts(blocks, a, v) {
        var b :| b in blocks && (a, v) in BlockStores(b);
        assert b == blocks[0] || b in blocks[1..];
      }
      if Puts(blocks[1..], a, v) {
        var b :| b in blocks[1..] && (a, v) in BlockStores(b);
        assert b in blocks;
      }
      if (a, v) in BlockStores(blocks[0]) {
        assert blocks[0] in blocks;
      }
    }
  }

  /** No two blocks put different values at one address, and every value and
      address fits the memory. */
  ghost predicate Fitting(blocks: seq<Block>, domain: Domain) {
    && (forall a, v :: Puts(blocks, a, v) ==> InRange((a, v), domain))
    && forall a, v, w :: Puts(blocks, a, v) && Puts(blocks, a, w) ==> v == w
  }

  /** Loading succeeds exactly on fitting blocks, and the image it builds holds
      what the blocks put there and nothing else. */
  lemma LoadsExactly(blocks: seq<Block>, domain: Domain)
    ensures Load(blocks, domain).Ok? <==> Fitting(blocks, domain)
    ensures Load(blocks, domain).Ok? ==>
              forall a, v :: Puts(blocks, a, v)
                             <==> a in Load(blocks, domain).value && Load(blocks, domain).value[a] == v
  {
    hide PlaceAll, Stores, Puts;
    var stores := Stores(blocks);
    PlacedExactly(map[], stores, domain);
    forall a, v
      ensures (a, v) in stores <==> Puts(blocks, a, v)
    {
      StoresArePuts(blocks, a, v);
    }
    if Fitting(blocks, domain) {
      ConsistentIfFitting(blocks, stores, domain);
    }
    if Consistent(stores, domain) {
      forall a, v, w | Puts(blocks, a, v) && Puts(blocks, a, w)
        ensures v == w
      {
        assert Agree((a, v), (a, w));
      }
    }
  }

  lemma ConsistentIfFitting(blocks: seq<Block>, stores: seq<Store>, domain: Domain)
    requires Fitting(blocks, domain) && forall a, v :: (a, v) in stores <==> Puts(blocks, a, v)
    ensures Consistent(stores, domain)
  {
    hide Puts;
    forall s | s in stores
      ensures InRange(s, domain)
    {
      assert s == (s.0, s.1) && Puts(blocks, s.0, s.1);
    }
    forall s, t | s in stores && t in stores
      ensures Agree(s, t)
    {
      assert s == (s.0, s.1) && t == (t.0, t.1) && Puts(blocks, s.0, s.1) && Puts(blocks, t.0, t.1);
    }
  }

  /** The image does not depend on the order of the blocks, nor on repeats. */
  lemma OrderDoesNotMatter(blocks: seq<Block>, other: seq<Block>, domain: Domain)
    requires forall b :: b in blocks <==> b in other
    ensures Load(blocks, domain).Ok? <==> Load(other, domain).Ok?
    ensures Load(blocks, domain).Ok? ==> Load(blocks, domain) == Load(other, domain)
  {
    hide Load;
    forall a, v
      ensures Puts(blocks, a, v) <==> Puts(other, a, v)
    {
      SamePuts(blocks, other, a, v);
      SamePuts(other, blocks, a, v);
    }
    LoadsExactly(blocks, domain);
    LoadsExactly(other, domain);
    if Load(blocks, domain).Ok? && Load(other, domain).Ok? {
      SameCells(blocks, Load(blocks, domain).value, Load(other, domain).value);
    }
  }

  lemma SamePuts(blocks: seq<Block>, other: seq<Block>, a: int, v: int)
    requires forall b :: b in blocks ==> b in other
    ensures Puts(blocks, a, v) ==> Puts(other, a, v)
  {
  }

  lemma SameCells(blocks: seq<Block>, left: Cells, right: Cells)
    requires forall a, v :: Puts(blocks, a, v) <==> a in left && left[a] == v
    requires forall a, v :: Puts(blocks, a, v) <==> a in right && right[a] == v
    ensures left == right
  {
    hide Puts;
    forall a
      ensures a in left ==> a in right && right[a] == left[a]
      ensures a in right ==> a in left
    {
      assert a in left ==> Puts(blocks, a, left[a]);
      assert a in right ==> Puts(blocks, a, right[a]);
    }
  }

  // ----- blocks that come from the parser

  /** Two of the blocks put different values at one address. */
  ghost predicate Overlap(blocks: seq<Block>) {
    exists j: nat, k: nat, a, v, w ::
      j < k < |blocks| && (a, v) in BlockStores(blocks[j]) && (a, w) in BlockStores(blocks[k]) && v != w
  }

  predicate FitsImage(b: Block, domain: Domain) {
    && 0 <= b.address && b.address + |b.values| <= SIZE
    && forall i :: 0 <= i < |b.values| ==> 0 <= b.values[i] < Modulus(domain)
  }

  lemma {:induction false} OnlyConflicts(cells: Cells, stores: seq<Store>, domain: Domain)
    requires forall s :: s in stores ==> InRange(s, domain)
    ensures PlaceAll(cells, stores, domain).Err? ==> PlaceAll(cells, stores, domain).error == Conflict
    decreases stores
  {
    if stores != [] {
      assert stores[0] in stores;
      var first := Place(cells, stores[0], domain);
      if first.Ok? {
        OnlyConflicts(first.value, stores[1..], domain);
      }
    }
  }

  lemma ParsedBlockFits(b: Block, domain: Domain, segments: seq<Row>)
    requires WellFormed(b, domain, segments)
    ensures FitsImage(b, domain)
  {
  }

  lemma PutsWithin(blocks: seq<Block>, domain: Domain, a: int, v: int)
    requires forall b :: b in blocks ==> FitsImage(b, domain)
    requires Puts(blocks, a, v)
    ensures InRange((a, v), domain)
  {
  }

  /** On blocks the parser accepted, the width and address checks never fire:
      loading fails exactly when two blocks disagree about an address. */
  lemma OnlyOverlapFails(blocks: seq<Block>, domain: Domain, segments: seq<Row>)
    requires forall b :: b in blocks ==> WellFormed(b, domain, segments)
    ensures Load(blocks, domain).Err? <==> Overlap(blocks)
    ensures Load(blocks, domain).Err? ==> Load(blocks, domain).error == Conflict
  {
    hide WellFormed, Load, Puts;
    forall b | b in blocks
      ensures FitsImage(b, domain)
    {
      ParsedBlockFits(b, domain, segments);
    }
    forall a, v | Puts(blocks, a, v)
      ensures InRange((a, v), domain)
    {
      PutsWithin(blocks, domain, a, v);
    }
    LoadsExactly(blocks, domain);
    if Overlap(blocks) {
      OverlapBlocks(blocks, domain);
    }
    if Load(blocks, domain).Err? {
      var a, v, w :| Puts(blocks, a, v) && Puts(blocks, a, w) && v != w;
      DisagreementIsOverlap(blocks, a, v, w);
    }
    AlwaysConflict(blocks, domain);
  }

  lemma OverlapBlocks(blocks: seq<Block>, domain: Domain)
    requires Overlap(blocks)
    ensures !Fitting(blocks, domain)
  {
    var j: nat, k: nat, a, v, w :|
      j < k < |blocks| && (a, v) in BlockStores(blocks[j]) && (a, w) in BlockStores(blocks[k]) && v != w;
    assert blocks[j] in blocks && blocks[k] in blocks;
    assert Puts(blocks, a, v) && Puts(blocks, a, w);
  }

  /** A block puts at most one value at an address. */
  lemma OneValueEach(b: Block, a: int, v: int, w: int)
    ensures (a, v) in BlockStores(b) && (a, w) in BlockStores(b) ==> v == w
  {
  }

  lemma DisagreementIsOverlap(blocks: seq<Block>, a: int, v: int, w: int)
    requires Puts(blocks, a, v) && Puts(blocks, a, w) && v != w
    ensures Overlap(blocks)
  {
    var b :| b in blocks && (a, v) in BlockStores(b);
    var c :| c in blocks && (a, w) in BlockStores(c);
    var j :| 0 <= j < |blocks| && blocks[j] == b;
    var k :| 0 <= k < |blocks| && blocks[k] == c;
    OneValueEach(b, a, v, w);
    if k < j {
      assert (a, w) in BlockStores(blocks[k]) && (a, v) in BlockStores(blocks[j]);
    }
  }

  lemma AlwaysConflict(blocks: seq<Block>, domain: Domain)
    requires forall a, v :: Puts(blocks, a, v) ==> InRange((a, v), domain)
    ensures Load(blocks, domain).Err? ==> Load(blocks, domain).error == Conflict
  {
    hide Puts;
    forall s | s in Stores(blocks)
      ensures InRange(s, domain)
    {
      assert s == (s.0, s.1);
      StoresArePuts(blocks, s.0, s.1);
    }
    OnlyConflicts(map[], Stores(blocks), domain);
  }

  /** The same for every record of every file the parser accepts. */
  lemma ParsedRecordsLoad(data: seq<Byte>, f: Combifile.File, k: nat)
    requires Combifile.ParseFile(data) == Ok(f) && k < |f.entries|
    ensures var s := f.entries[k].download.sections;
            && (Load(s.dm, Dm).Err? <==> Overlap(s.dm)) && (Load(s.dm, Dm).Err? ==> Load(s.dm, Dm).error == Conflict)
            && (Load(s.pm, Pm).Err? <==> Overlap(s.pm)) && (Load(s.pm, Pm).Err? ==> Load(s.pm, Pm).error == Conflict)
  {
    hide *;
    Combifile.EntryWellFormed(data, f, k);
    var d := f.entries[k].download;
    OnlyOverlapFails(d.sections.dm, Dm, d.tables.segments);
    OnlyOverlapFails(d.sections.pm, Pm, d.tables.segments);
  }

  // ----- the loader

  /** `image` and `loaded` hold what `cells` does, zero elsewhere. */
  predicate Shows(image: seq<int>, loaded: set<int>, cells: Cells) {
    && |image| == SIZE && loaded == cells.Keys
    && (forall a :: a in loaded ==> 0 <= a < SIZE)
    && forall a :: 0 <= a < SIZE ==> image[a] == if a in cells then cells[a] else 0
  }

  lemma LookUp(image: seq<int>, loaded: set<int>, cells: Cells, a: int)
    requires Shows(image, loaded, cells)
    ensures a in loaded <==> a in cells
    ensures a in loaded ==> 0 <= a < SIZE && image[a] == cells[a]
  {
  }

  lemma ShowsStore(image: seq<int>, loaded: set<int>, cells: Cells, a: int, v: int)
    requires Shows(image, loaded, cells) && 0 <= a < SIZE
    ensures Shows(image[a := v], loaded + {a}, cells[a := v])
  {
  }

  datatype Verdict = Done | Refused(error: Error)

  /** Every block written in place, one word at a time. */
  method LoadSparse(blocks: seq<Block>, domain: Domain) returns (verdict: Verdict, image: array<int>, loaded: set<int>)
    ensures verdict.Done? <==> Load(blocks, domain).Ok?
    ensures verdict.Done? ==> Shows(image[..], loaded, Load(blocks, domain).value)
    ensures verdict.Refused? ==> verdict.error == Load(blocks, domain).error
  {
    image, loaded := new int[SIZE](_ => 0), {};
    assert Shows(image[..], {}, map[]);
    hide PlaceAll, BlockStores, Stores, Shows;
    assert blocks[0..] == blocks;
    ghost var cells: Cells := map[];
    for k := 0 to |blocks|
      invariant image.Length == SIZE && Shows(image[..], loaded, cells)
      invariant Load(blocks, domain) == PlaceAll(cells, Stores(blocks[k..]), domain)
    {
      var b := blocks[k];
      FirstBlock(blocks[k..]);
      ghost var later := Stores(blocks[k..][1..]);
      for i := 0 to |b.values|
        invariant image.Length == SIZE && Shows(image[..], loaded, cells)
        invariant Load(blocks, domain) == PlaceAll(cells, BlockStores(b)[i..] + later, domain)
      {
        var address, value := b.address + i, b.values[i];
        NextStore(cells, b, i, later, domain);
        LookUp(image[..], loaded, cells, address);
        if value < 0 || Modulus(domain) <= value {
          return Refused(TooWide), image, loaded;
        }
        if address in loaded && image[address] != value {
          return Refused(Conflict), image, loaded;
        }
        if address < 0 || SIZE <= address {
          return Refused(OutOfImage), image, loaded;
        }
        ShowsStore(image[..], loaded, cells, address, value);
        ghost var before := image[..];
        image[address] := value;
        assert image[..] == before[address := value];
        loaded := loaded + {address};
        cells := cells[address := value];
      }
      assert BlockStores(b)[|b.values|..] + later == later;
      assert blocks[k..][1..] == blocks[k + 1..];
    }
    assert blocks[|blocks|..] == [];
    NoStores(cells, domain);
    verdict := Done;
  }

  lemma NoStores(cells: Cells, domain: Domain)
    ensures PlaceAll(cells, Stores([]), domain) == Ok(cells)
  {
  }

  lemma FirstBlock(blocks: seq<Block>)
    requires blocks != []
    ensures Stores(blocks) == BlockStores(blocks[0])[0..] + Stores(blocks[1..])
  {
  }

  lemma NextStore(cells: Cells, b: Block, i: nat, later: seq<Store>, domain: Domain)
    requires i < |b.values|
    ensures PlaceAll(cells, BlockStores(b)[i..] + later, domain)
         == (var placed := Place(cells, (b.address + i, b.values[i]), domain);
             if placed.Err? then placed else PlaceAll(placed.value, BlockStores(b)[i + 1..] + later, domain))
  {
    var all := BlockStores(b)[i..] + later;
    assert all[0] == (b.address + i, b.values[i]);
    assert all[1..] == BlockStores(b)[i + 1..] + later;
  }
}
