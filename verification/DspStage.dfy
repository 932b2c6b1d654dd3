/**
 The DSP code image staged in card memory (tools/eicon_dsp_stage.py): a count, a
 fixed table of descriptors and the sections they point to.
 */
module DspStage {
  import opened Arithmetic
  import opened Bytes
  import opened DataBlocks
  import opened Options
  import opened Combifile

  const DESCRIPTOR_SIZE := 48
  const SECTIONS := 7

  function Align4(v: nat): (r: nat)
    ensures r % 4 == 0 && v <= r < v + 4
  {
    (v + 3) / 4 * 4
  }

  function Zeros(n: nat): (s: seq<Byte>)
    ensures |s| == n && forall i :: 0 <= i < n ==> s[i] == 0
  {
    seq(n, _ => 0)
  }

  function TableSize(max: nat): nat { 4 + max * DESCRIPTOR_SIZE }

  function PayloadBase(base: nat, max: nat): nat { Align4(base + TableSize(max)) }

  // ----- cutting a record into its sections

  /** A half-open slice that clips at the end, as the source language's does. */
  function Slice(s: seq<Byte>, from: int, to: int): seq<Byte> {
    if from < 0 || to <= from || |s| <= from then [] else s[from..if to <= |s| then to else |s|]
  }

  function RecordHeader(raw: seq<Byte>): Header
    requires FILE_HEADER_SIZE <= |raw|
  {
    hide Unpack;
    Header(Unpack(raw, 48, 17))
  }

  /** Section lengths in file order; the first may be negative in a record no
      parser accepted. */
  function Lengths(h: Header): (s: seq<int>)
    ensures |s| == SECTIONS
  {
    [h.HeaderSize() - FILE_HEADER_SIZE, h.DescriptionSize(), h.MemorySize(), h.SegmentSize(), h.SymbolSize(), h.DmSize(),
     h.PmSize()]
  }

  /** The sections from pos on, and where they end. */
  function Cut(raw: seq<Byte>, pos: int, lengths: seq<int>): (r: (seq<seq<Byte>>, int))
    ensures |r.0| == |lengths|
    decreases lengths
  {
    if lengths == [] then ([], pos)
    else
      var rest := Cut(raw, pos + lengths[0], lengths[1..]);
      ([Slice(raw, pos, pos + lengths[0])] + rest.0, rest.1)
  }

  /** The sections of a record, in the order its descriptor lists them. */
  function Parts(d: Download): (s: seq<seq<Byte>>)
    ensures |s| == SECTIONS
  {
    [d.head.excess, d.head.description, TableBytes(d.tables.memory), TableBytes(d.tables.segments),
     TableBytes(d.tables.symbols), SectionBytes(d.sections.dm), SectionBytes(d.sections.pm)]
  }

  function Joined(parts: seq<seq<Byte>>): seq<Byte> {
    if parts == [] then [] else parts[0] + Joined(parts[1..])
  }

  predicate Measured(parts: seq<seq<Byte>>, lengths: seq<int>) {
    |parts| == |lengths| && forall i :: 0 <= i < |parts| ==> |parts[i]| == lengths[i]
  }

  lemma {:induction false} CutJoined(front: seq<Byte>, parts: seq<seq<Byte>>, lengths: seq<int>)
    requires Measured(parts, lengths)
    ensures Cut(front + Joined(parts), |front|, lengths) == (parts, |front + Joined(parts)|)
    decreases parts
  {
    if parts != [] {
      assert front + Joined(parts) == (front + parts[0]) + Joined(parts[1..]);
      CutJoined(front + parts[0], parts[1..], lengths[1..]);
      assert Slice(front + Joined(parts), |front|, |front| + lengths[0]) == parts[0];
      assert parts == [parts[0]] + parts[1..];
    }
  }

  lemma RecordIsJoined(d: Download)
    requires DownloadFormed(d)
    ensures DownloadBytes(d) == (FILE_MAGIC + Pack(d.head.header.fields)) + Joined(Parts(d))
    ensures Measured(Parts(d), Lengths(d.head.header))
  {
    hide DownloadFormed, Pack;
    PartsMeasured(d);
    var s := Parts(d);
    assert Joined(s[7..]) == [];
    assert Joined(s[6..]) == s[6] + Joined(s[7..]) && Joined(s[5..]) == s[5] + Joined(s[6..]);
    assert Joined(s[4..]) == s[4] + Joined(s[5..]) && Joined(s[3..]) == s[3] + Joined(s[4..]);
    assert Joined(s[2..]) == s[2] + Joined(s[3..]) && Joined(s[1..]) == s[1] + Joined(s[2..]);
    Regroup(FILE_MAGIC, Pack(d.head.header.fields), s[0], s[1], s[2], s[3], s[4], s[5], s[6]);
  }

  lemma Regroup(m: seq<Byte>, f: seq<Byte>, a: seq<Byte>, b: seq<Byte>, c: seq<Byte>, d: seq<Byte>, e: seq<Byte>,
                g: seq<Byte>, h: seq<Byte>)
    ensures (m + (f + (a + b))) + ((c + (d + e)) + (g + h)) == (m + f) + (a + (b + (c + (d + (e + (g + (h + [])))))))
  {
  }

  lemma PartsMeasured(d: Download)
    requires DownloadFormed(d)
    ensures Measured(Parts(d), Lengths(d.head.header))
  {
    hide SectionBytes, TableBytes;
    TableLength(d.tables.memory, 4);
    TableLength(d.tables.segments, 5);
    TableLength(d.tables.symbols, 4);
  }

  /** What a record cuts into, with the header it is cut by. */
  predicate CutsInto(raw: seq<Byte>, h: Header, parts: seq<seq<Byte>>) {
    && FILE_HEADER_SIZE <= |raw| && RecordHeader(raw) == h
    && Cut(raw, FILE_HEADER_SIZE, Lengths(h)) == (parts, |raw|)
    && FILE_HEADER_SIZE <= h.HeaderSize()
  }

  /** A parsed record cuts into its own sections with nothing left over, so the
      length check never fires on one. */
  lemma ParsedRecordCuts(d: Download)
    requires DownloadFormed(d)
    ensures CutsInto(DownloadBytes(d), d.head.header, Parts(d))
  {
    hide DownloadFormed, DownloadBytes, Parts, Lengths, Pack, Unpack, Cut, Joined, Measured;
    var front := FILE_MAGIC + Pack(d.head.header.fields);
    var raw := DownloadBytes(d);
    RecordIsJoined(d);
    CutJoined(front, Parts(d), Lengths(d.head.header));
    assert Holds(raw, 48, Pack(d.head.header.fields));
    PackExactly(raw, 48, d.head.header.fields);
    HeaderLargeEnough(d);
  }

  lemma HeaderLargeEnough(d: Download)
    requires DownloadFormed(d)
    ensures FILE_HEADER_SIZE <= d.head.header.HeaderSize()
  {
  }

  // ----- laying sections out

  /** The bytes with zeros up to the next multiple of four. */
  function Pad4(s: seq<Byte>): (r: seq<Byte>)
    ensures |r| == Align4(|s|) && s <= r && forall i :: |s| <= i < |r| ==> r[i] == 0
  {
    s + Zeros(Align4(|s|) - |s|)
  }

  function Append(start: nat, payload: seq<Byte>, section: seq<Byte>): (nat, seq<Byte>) {
    if section == [] then (0, payload) else (start + |payload|, Pad4(payload + section))
  }

  function AppendAll(start: nat, payload: seq<Byte>, sections: seq<seq<Byte>>): (r: (seq<nat>, seq<Byte>))
    ensures |r.0| == |sections| && |payload| <= |r.1|
    decreases sections
  {
    if sections == [] then ([], payload)
    else
      var first := Append(start, payload, sections[0]);
      var rest := AppendAll(start, first.1, sections[1..]);
      ([first.0] + rest.0, rest.1)
  }

  /** Bytes a row of sections takes, each filled up to a multiple of four. */
  function PaddedTotal(sections: seq<seq<Byte>>): nat {
    if sections == [] then 0 else Align4(|sections[0]|) + PaddedTotal(sections[1..])
  }

  /** Sections follow each other without a gap, each at the next multiple of four. */
  lemma {:induction false} AppendAllExactly(start: nat, payload: seq<Byte>, sections: seq<seq<Byte>>)
    requires |payload| % 4 == 0
    ensures var r := AppendAll(start, payload, sections);
            && |r.1| == |payload| + PaddedTotal(sections)
            && forall j :: 0 <= j < |sections| && sections[j] != [] ==>
                             r.0[j] == start + |payload| + PaddedTotal(sections[..j])
    decreases sections
  {
    hide Append;
    if sections != [] {
      var first, rest := Append(start, payload, sections[0]), sections[1..];
      AppendPads(start, payload, sections[0]);
      AppendAllExactly(start, first.1, rest);
      var r, later := AppendAll(start, payload, sections), AppendAll(start, first.1, rest);
      forall j | 0 <= j < |sections| && sections[j] != []
        ensures r.0[j] == start + |payload| + PaddedTotal(sections[..j])
      {
        if 0 < j {
          assert r.0[j] == later.0[j - 1] && rest[j - 1] == sections[j];
          assert sections[..j][1..] == rest[..j - 1];
        }
      }
    }
  }

  lemma AppendPads(start: nat, payload: seq<Byte>, section: seq<Byte>)
    requires |payload| % 4 == 0
    ensures var r := Append(start, payload, section);
            && |r.1| == |payload| + Align4(|section|) && |r.1| % 4 == 0
            && (section != [] ==> r.0 == start + |payload|)
  {
    AlignAdds(|payload|, |section|);
  }

  lemma AlignAdds(a: nat, b: nat)
    requires a % 4 == 0
    ensures Align4(a + b) == a + Align4(b) && Align4(0) == 0
  {
  }

  /** The section stands in the payload at its pointer, between low and high. */
  predicate Lies(start: nat, payload: seq<Byte>, low: nat, high: nat, section: seq<Byte>, pointer: nat) {
    && (pointer == 0 <==> section == [])
    && (section != [] ==>
          && pointer % 4 == 0 && start <= low <= pointer && pointer + |section| <= high
          && Holds(payload, pointer - start, section))
  }

  predicate Ordered(sections: seq<seq<Byte>>, pointers: seq<nat>)
    requires |pointers| == |sections|
  {
    forall i, j :: 0 <= i < j < |sections| ==> Before(sections[i], pointers[i], sections[j], pointers[j])
  }

  predicate Before(a: seq<Byte>, p: nat, b: seq<Byte>, q: nat) { a != [] && b != [] ==> p + |a| <= q }

  predicate Laid(start: nat, payload: seq<Byte>, low: nat, high: nat, sections: seq<seq<Byte>>, pointers: seq<nat>) {
    && |pointers| == |sections|
    && (forall i :: 0 <= i < |sections| ==> Lies(start, payload, low, high, sections[i], pointers[i]))
    && Ordered(sections, pointers)
  }

  lemma LiesInMore(start: nat, payload: seq<Byte>, more: seq<Byte>, low: nat, high: nat, low': nat, high': nat,
                   section: seq<Byte>, pointer: nat)
    requires Lies(start, payload, low, high, section, pointer)
    requires payload <= more && start <= low' <= low && high <= high'
    ensures Lies(start, more, low', high', section, pointer)
  {
    if section != [] {
      var p := pointer - start;
      assert more[p..p + |section|] == payload[p..p + |section|];
    }
  }

  lemma AppendLies(start: nat, payload: seq<Byte>, section: seq<Byte>)
    requires 0 < start && start % 4 == 0 && |payload| % 4 == 0
    ensures var r := Append(start, payload, section);
            payload <= r.1 && |r.1| % 4 == 0 && Lies(start, r.1, start + |payload|, start + |r.1|, section, r.0)
  {
    if section != [] {
      var r := Pad4(payload + section);
      assert r[|payload|..|payload| + |section|] == section;
    }
  }

  lemma {:induction false} AppendAllLaid(start: nat, payload: seq<Byte>, sections: seq<seq<Byte>>)
    requires 0 < start && start % 4 == 0 && |payload| % 4 == 0
    ensures var r := AppendAll(start, payload, sections);
            payload <= r.1 && |r.1| % 4 == 0 && Laid(start, r.1, start + |payload|, start + |r.1|, sections, r.0)
    decreases sections
  {
    hide Append, Lies, Holds;
    if sections != [] {
      var first := Append(start, payload, sections[0]);
      AppendLies(start, payload, sections[0]);
      AppendAllLaid(start, first.1, sections[1..]);
      var rest := AppendAll(start, first.1, sections[1..]);
      LiesInMore(start, first.1, rest.1, start + |payload|, start + |first.1|, start + |payload|, start + |rest.1|,
                 sections[0], first.0);
      LaidAfter(start, rest.1, start + |payload|, start + |first.1|, start + |rest.1|, sections, first.0, rest.0);
    }
  }

  lemma LaidAfter(start: nat, payload: seq<Byte>, low: nat, middle: nat, high: nat, sections: seq<seq<Byte>>,
                  pointer: nat, pointers: seq<nat>)
    requires sections != [] && start <= low <= middle
    requires Lies(start, payload, low, high, sections[0], pointer)
    requires sections[0] != [] ==> pointer + |sections[0]| <= middle
    requires Laid(start, payload, middle, high, sections[1..], pointers)
    ensures Laid(start, payload, low, high, sections, [pointer] + pointers)
  {
    var all := [pointer] + pointers;
    forall i | 0 <= i < |sections|
      ensures Lies(start, payload, low, high, sections[i], all[i])
    {
      if 0 < i {
        assert Lies(start, payload, middle, high, sections[1..][i - 1], pointers[i - 1]);
      }
    }
    forall i, j | 0 <= i < j < |sections|
      ensures Before(sections[i], all[i], sections[j], all[j])
    {
      assert Lies(start, payload, middle, high, sections[1..][j - 1], pointers[j - 1]);
      if 0 < i {
        assert Before(sections[1..][i - 1], pointers[i - 1], sections[1..][j - 1], pointers[j - 1]);
      }
    }
  }

  // ----- descriptors

  type Address = v: int | 0 <= v < 0x1_0000_0000

  predicate AllAddresses(pointers: seq<nat>) { forall j :: 0 <= j < |pointers| ==> pointers[j] < 0x1_0000_0000 }

  function Pack32(vs: seq<nat>): (s: seq<Byte>)
    requires AllAddresses(vs)
    ensures |s| == 4 * |vs|
  {
    if vs == [] then [] else Bytes32(vs[0]) + Pack32(vs[1..])
  }

  lemma {:induction false} Pack32Reads(data: seq<Byte>, pos: nat, vs: seq<nat>, j: nat)
    requires AllAddresses(vs) && Holds(data, pos, Pack32(vs)) && j < |vs|
    ensures Fit(data, pos + 4 * j, 4) && Read32(data, pos + 4 * j) == vs[j]
    decreases j
  {
    hide Read32, Bytes32;
    HoldsConcat(data, pos, Bytes32(vs[0]), Pack32(vs[1..]));
    HoldsWithin(data, pos, Pack32(vs));
    if j == 0 {
      Bytes32Exactly(data, pos, vs[0]);
    } else {
      Pack32Reads(data, pos + 4, vs[1..], j - 1);
    }
  }

  type Words10 = w: seq<Word> | |w| == 10 witness [0, 0, 0, 0, 0, 0, 0, 0, 0, 0]

  function DescriptorWords(h: Header): Words10
    requires FILE_HEADER_SIZE <= h.HeaderSize()
  {
    [h.DownloadId(), h.fields[2], h.fields[3], h.fields[4], h.HeaderSize() - FILE_HEADER_SIZE, h.MemoryCount(),
     h.SegmentCount(), h.SymbolCount(), h.DmCount(), h.PmCount()]
  }

  /** The ten counters of a parsed record count what the record holds. */
  lemma CountersMean(d: Download)
    requires DownloadFormed(d)
    ensures FILE_HEADER_SIZE <= d.head.header.HeaderSize()
    ensures var w, fields := DescriptorWords(d.head.header), d.head.header.fields;
            && w[0] == fields[1] && w[1] == fields[2] && w[2] == fields[3] && w[3] == fields[4]
            && w[4] == |d.head.excess| && w[5] == |d.tables.memory| && w[6] == |d.tables.segments|
            && w[7] == |d.tables.symbols| && w[8] == |d.sections.dm| && w[9] == |d.sections.pm|
  {
  }

  /** Ten counters and seven card addresses; an address that does not fit its
      field is an error. */
  function Descriptor(h: Header, pointers: seq<nat>): (r: Result<seq<Byte>>)
    requires |pointers| == SECTIONS
    ensures r.Ok? ==> |r.value| == DESCRIPTOR_SIZE
  {
    if h.HeaderSize() < FILE_HEADER_SIZE || !AllAddresses(pointers) then Err(FieldOverflow)
    else Ok(Pack(DescriptorWords(h)) + Pack32(pointers))
  }

  function PointerIn(code: seq<Byte>, pos: nat, j: nat): Address
    requires j < SECTIONS && Fit(code, pos, DESCRIPTOR_SIZE)
  {
    Read32(code, pos + 20 + 4 * j)
  }

  /** A descriptor standing anywhere reads back as what it was made of. */
  lemma DescriptorReads(code: seq<Byte>, pos: nat, h: Header, pointers: seq<nat>, j: nat)
    requires |pointers| == SECTIONS && Descriptor(h, pointers).Ok? && j < SECTIONS
    requires Holds(code, pos, Descriptor(h, pointers).value)
    ensures Fit(code, pos, DESCRIPTOR_SIZE)
    ensures PointerIn(code, pos, j) == pointers[j]
    ensures Unpack(code, pos, 10) == DescriptorWords(h)
  {
    hide Pack, Unpack, Pack32, Holds, Read32, DescriptorWords;
    HoldsWithin(code, pos, Descriptor(h, pointers).value);
    HoldsConcat(code, pos, Pack(DescriptorWords(h)), Pack32(pointers));
    PackExactly(code, pos, DescriptorWords(h));
    Pack32Reads(code, pos + 20, pointers, j);
  }

  // ----- records, one after another

  datatype Staged = Staged(id: Word, address: nat, size: nat)

  datatype Stage = Stage(payload: seq<Byte>, descriptors: seq<seq<Byte>>, staged: seq<Staged>)

  function StageRecord(start: nat, s: Stage, raw: seq<Byte>): Result<Stage> {
    if |raw| < FILE_HEADER_SIZE then Err(Truncated)
    else
      var h := RecordHeader(raw);
      var cut := Cut(raw, FILE_HEADER_SIZE, Lengths(h));
      if cut.1 != |raw| then Err(SizeMismatch)
      else
        var placed := AppendAll(start, s.payload, cut.0);
        var descriptor :- Descriptor(h, placed.0);
        Ok(Stage(placed.1, s.descriptors + [descriptor],
                 s.staged + [Staged(h.DownloadId(), start + |s.payload|, |placed.1| - |s.payload|)]))
  }

  function StageAll(start: nat, s: Stage, raws: seq<seq<Byte>>): Result<Stage>
    decreases raws
  {
    if raws == [] then Ok(s)
    else
      var next :- StageRecord(start, s, raws[0]);
      StageAll(start, next, raws[1..])
  }

  lemma {:induction false} CutEnds(raw: seq<Byte>, pos: int, lengths: seq<int>)
    ensures Cut(raw, pos, lengths).1 == pos + Sum(lengths)
    decreases lengths
  {
    hide Slice;
    if lengths != [] {
      CutEnds(raw, pos + lengths[0], lengths[1..]);
    }
  }

  function Sum(lengths: seq<int>): int { if lengths == [] then 0 else lengths[0] + Sum(lengths[1..]) }

  /** The length check refuses exactly the records whose header accounts for more
      or fewer bytes than there are. */
  lemma LengthCheckExactly(start: nat, s: Stage, raw: seq<Byte>)
    requires FILE_HEADER_SIZE <= |raw|
    ensures var h := RecordHeader(raw);
            StageRecord(start, s, raw) == Err(SizeMismatch)
            <==> h.HeaderSize() + h.DescriptionSize() + h.MemorySize() + h.SegmentSize() + h.SymbolSize() + h.DmSize()
                 + h.PmSize() != |raw|
  {
    hide RecordHeader, Cut, AppendAll;
    var h := RecordHeader(raw);
    CutEnds(raw, FILE_HEADER_SIZE, Lengths(h));
    SumOfSeven(Lengths(h));
  }

  lemma SumOfSeven(s: seq<int>)
    requires |s| == 7
    ensures Sum(s) == s[0] + s[1] + s[2] + s[3] + s[4] + s[5] + s[6]
  {
    assert Sum(s[7..]) == 0;
    assert Sum(s[6..]) == s[6] + Sum(s[7..]) && Sum(s[5..]) == s[5] + Sum(s[6..]);
    assert Sum(s[4..]) == s[4] + Sum(s[5..]) && Sum(s[3..]) == s[3] + Sum(s[4..]);
    assert Sum(s[2..]) == s[2] + Sum(s[3..]) && Sum(s[1..]) == s[1] + Sum(s[2..]);
  }

  function Records(downloads: seq<Download>): (s: seq<seq<Byte>>)
    ensures |s| == |downloads|
  {
    seq(|downloads|, k requires 0 <= k < |downloads| => DownloadBytes(downloads[k]))
  }

  /** One record's descriptor points at its sections, between the bounds the
      stage noted for it. */
  predicate RecordStaged(start: nat, payload: seq<Byte>, descriptor: seq<Byte>, staged: Staged, h: Header,
                         sections: seq<seq<Byte>>, pointers: seq<nat>)
  {
    && |pointers| == |sections| == SECTIONS
    && Descriptor(h, pointers) == Ok(descriptor)
    && staged.id == h.DownloadId()
    && Laid(start, payload, staged.address, staged.address + staged.size, sections, pointers)
    && staged.size == PaddedTotal(sections)
    && forall j :: 0 <= j < |sections| && sections[j] != [] ==>
                     pointers[j] == staged.address + PaddedTotal(sections[..j])
  }

  /** Staged records follow each other without gaps from low to high. */
  predicate Tiles(low: nat, staged: seq<Staged>, high: nat) {
    && (forall k :: 0 < k < |staged| ==> staged[k].address == staged[k - 1].address + staged[k - 1].size)
    && (if staged == [] then low == high
        else staged[0].address == low && staged[|staged| - 1].address + staged[|staged| - 1].size == high)
  }

  ghost predicate WellStaged(start: nat, s: Stage, downloads: seq<Download>, pointers: seq<seq<nat>>) {
    && 0 < start && start % 4 == 0 && |s.payload| % 4 == 0
    && |s.descriptors| == |s.staged| == |downloads| == |pointers|
    && (forall k :: 0 <= k < |downloads| ==>
          RecordStaged(start, s.payload, s.descriptors[k], s.staged[k], downloads[k].head.header, Parts(downloads[k]),
                       pointers[k]))
    && Tiles(start, s.staged, start + |s.payload|)
  }

  /** The addresses every section of every record gets, in order. */
  function Addresses(start: nat, payload: seq<Byte>, downloads: seq<Download>): seq<nat>
    decreases downloads
  {
    if downloads == [] then []
    else
      var placed := AppendAll(start, payload, Parts(downloads[0]));
      placed.0 + Addresses(start, placed.1, downloads[1..])
  }

  ghost predicate AllFormed(downloads: seq<Download>) {
    forall k :: 0 <= k < |downloads| ==> DownloadFormed(downloads[k])
  }

  lemma LaidInMore(start: nat, payload: seq<Byte>, more: seq<Byte>, low: nat, high: nat, sections: seq<seq<Byte>>,
                   pointers: seq<nat>)
    requires Laid(start, payload, low, high, sections, pointers) && payload <= more && start <= low
    ensures Laid(start, more, low, high, sections, pointers)
  {
    hide Lies;
    forall i | 0 <= i < |sections|
      ensures Lies(start, more, low, high, sections[i], pointers[i])
    {
      LiesInMore(start, payload, more, low, high, low, high, sections[i], pointers[i]);
    }
  }

  lemma {:induction false} TileBounds(low: nat, staged: seq<Staged>, high: nat, k: nat)
    requires Tiles(low, staged, high) && k < |staged|
    ensures low <= staged[k].address
    decreases k
  {
    if 0 < k {
      TileBounds(low, staged, high, k - 1);
    }
  }

  lemma {:induction false} TilesApart(low: nat, staged: seq<Staged>, high: nat, j: nat, k: nat)
    requires Tiles(low, staged, high) && j < k < |staged|
    ensures staged[j].address + staged[j].size <= staged[k].address
    decreases k
  {
    if j < k - 1 {
      TilesApart(low, staged, high, j, k - 1);
    }
  }

  lemma {:induction false} TileEnds(low: nat, staged: seq<Staged>, high: nat, k: nat)
    requires Tiles(low, staged, high) && k < |staged|
    ensures staged[k].address + staged[k].size <= high
    decreases |staged| - k
  {
    if k < |staged| - 1 {
      TilesApart(low, staged, high, k, |staged| - 1);
    }
  }

  /** What staging one more record does. */
  lemma RecordAdded(start: nat, s: Stage, done: seq<Download>, pointers: seq<seq<nat>>, d: Download)
    requires WellStaged(start, s, done, pointers) && DownloadFormed(d)
    ensures var placed := AppendAll(start, s.payload, Parts(d));
            var next := StageRecord(start, s, DownloadBytes(d));
            && (next.Err? ==> next.error == FieldOverflow)
            && (next.Ok? <==> AllAddresses(placed.0))
            && (next.Ok? ==> next.value.payload == placed.1
                             && WellStaged(start, next.value, done + [d], pointers + [placed.0]))
  {
    hide DownloadFormed, DownloadBytes, Parts, AppendAll, Descriptor, WellStaged, StageRecord;
    RecordStep(start, s, d);
    var placed := AppendAll(start, s.payload, Parts(d));
    if AllAddresses(placed.0) {
      OneMoreStaged(start, s, done, pointers, d);
    }
  }

  /** The stage after one more parsed record. */
  function Grown(start: nat, s: Stage, d: Download): Stage
    requires Descriptor(d.head.header, AppendAll(start, s.payload, Parts(d)).0).Ok?
  {
    var placed := AppendAll(start, s.payload, Parts(d));
    Stage(placed.1, s.descriptors + [Descriptor(d.head.header, placed.0).value],
          s.staged + [Staged(d.head.header.DownloadId(), start + |s.payload|, |placed.1| - |s.payload|)])
  }

  lemma RecordStep(start: nat, s: Stage, d: Download)
    requires DownloadFormed(d)
    ensures var pointers := AppendAll(start, s.payload, Parts(d)).0;
            && (Descriptor(d.head.header, pointers).Ok? <==> AllAddresses(pointers))
            && StageRecord(start, s, DownloadBytes(d))
               == if AllAddresses(pointers) then Ok(Grown(start, s, d)) else Err(FieldOverflow)
  {
    hide DownloadFormed, DownloadBytes, Parts, Cut, Lengths, AppendAll, Descriptor, RecordHeader;
    ParsedRecordCuts(d);
    HeaderLargeEnough(d);
    DescriptorFits(d.head.header, AppendAll(start, s.payload, Parts(d)).0);
  }

  lemma OneMoreStaged(start: nat, s: Stage, done: seq<Download>, pointers: seq<seq<nat>>, d: Download)
    requires WellStaged(start, s, done, pointers)
    requires Descriptor(d.head.header, AppendAll(start, s.payload, Parts(d)).0).Ok?
    ensures WellStaged(start, Grown(start, s, d), done + [d], pointers + [AppendAll(start, s.payload, Parts(d)).0])
  {
    hide Parts, AppendAll, Descriptor, RecordStaged, Tiles;
    var next := Grown(start, s, d);
    LastStaged(start, s, d);
    TilesMore(start, s.staged, start + |s.payload|, next.staged[|done|]);
    forall k | 0 <= k < |done|
      ensures RecordStaged(start, next.payload, s.descriptors[k], s.staged[k], done[k].head.header, Parts(done[k]),
                           pointers[k])
    {
      TileBounds(start, s.staged, start + |s.payload|, k);
      RecordInMore(start, s.payload, next.payload, s.descriptors[k], s.staged[k], done[k].head.header, Parts(done[k]),
                   pointers[k]);
    }
  }

  lemma LastStaged(start: nat, s: Stage, d: Download)
    requires 0 < start && start % 4 == 0 && |s.payload| % 4 == 0
    requires Descriptor(d.head.header, AppendAll(start, s.payload, Parts(d)).0).Ok?
    ensures var placed := AppendAll(start, s.payload, Parts(d));
            && s.payload <= placed.1 && |placed.1| % 4 == 0
            && RecordStaged(start, placed.1, Descriptor(d.head.header, placed.0).value,
                            Staged(d.head.header.DownloadId(), start + |s.payload|, |placed.1| - |s.payload|),
                            d.head.header, Parts(d), placed.0)
  {
    hide Parts, AppendAll, Descriptor, Laid, PaddedTotal;
    AppendAllLaid(start, s.payload, Parts(d));
    AppendAllExactly(start, s.payload, Parts(d));
  }

  lemma RecordInMore(start: nat, payload: seq<Byte>, more: seq<Byte>, descriptor: seq<Byte>, staged: Staged, h: Header,
                     sections: seq<seq<Byte>>, pointers: seq<nat>)
    requires RecordStaged(start, payload, descriptor, staged, h, sections, pointers)
    requires payload <= more && start <= staged.address
    ensures RecordStaged(start, more, descriptor, staged, h, sections, pointers)
  {
    hide Laid, Descriptor, PaddedTotal;
    LaidInMore(start, payload, more, staged.address, staged.address + staged.size, sections, pointers);
  }

  lemma TilesMore(low: nat, staged: seq<Staged>, high: nat, last: Staged)
    requires Tiles(low, staged, high) && last.address == high
    ensures Tiles(low, staged + [last], high + last.size)
  {
  }

  lemma DescriptorFits(h: Header, pointers: seq<nat>)
    requires |pointers| == SECTIONS && FILE_HEADER_SIZE <= h.HeaderSize()
    ensures Descriptor(h, pointers).Ok? <==> AllAddresses(pointers)
    ensures Descriptor(h, pointers).Err? ==> Descriptor(h, pointers).error == FieldOverflow
  {
  }

  /** Staging parsed records fails only if some section's address does not fit
      32 bits; otherwise every record is laid out where its descriptor says. */
  lemma {:induction false} StagedExactly(start: nat, s: Stage, done: seq<Download>, pointers: seq<seq<nat>>,
                                         rest: seq<Download>)
    returns (all: seq<seq<nat>>)
    requires WellStaged(start, s, done, pointers) && AllFormed(rest)
    ensures var r := StageAll(start, s, Records(rest));
            && (r.Err? ==> r.error == FieldOverflow)
            && (r.Ok? <==> AllAddresses(Addresses(start, s.payload, rest)))
            && (r.Ok? ==> WellStaged(start, r.value, done + rest, all))
    decreases rest
  {
    hide DownloadFormed, DownloadBytes, StageRecord, WellStaged, AppendAll, Parts;
    if rest == [] {
      assert done + rest == done;
      all := pointers;
    } else {
      var first := rest[0];
      RecordAdded(start, s, done, pointers, first);
      var placed := AppendAll(start, s.payload, Parts(first));
      assert Records(rest)[0] == DownloadBytes(first) && Records(rest)[1..] == Records(rest[1..]);
      AddressesSplit(placed.0, Addresses(start, placed.1, rest[1..]));
      var next := StageRecord(start, s, DownloadBytes(first));
      if next.Ok? {
        all := StagedExactly(start, next.value, done + [first], pointers + [placed.0], rest[1..]);
        assert done + [first] + rest[1..] == done + rest;
      } else {
        all := [];
      }
    }
  }

  lemma AddressesSplit(a: seq<nat>, b: seq<nat>)
    ensures AllAddresses(a + b) <==> AllAddresses(a) && AllAddresses(b)
  {
    if AllAddresses(a + b) {
      assert forall j :: 0 <= j < |a| ==> a[j] == (a + b)[j];
      assert forall j :: 0 <= j < |b| ==> b[j] == (a + b)[|a| + j];
    }
  }

  // ----- the whole image

  datatype Code = Code(base: nat, data: seq<Byte>, staged: seq<Staged>)

  function Image(base: nat, max: nat, s: Stage): seq<Byte>
    requires |s.descriptors| <= max && |s.descriptors| < 0x1_0000_0000 && |Joined(s.descriptors)| <= max * DESCRIPTOR_SIZE
  {
    var table := Bytes32(|s.descriptors|) + Joined(s.descriptors);
    (table + Zeros(TableSize(max) - |table|)) + (Zeros(PayloadBase(base, max) - base - TableSize(max)) + s.payload)
  }

  lemma {:induction false} StagedDescriptors(start: nat, s: Stage, raws: seq<seq<Byte>>)
    requires forall k :: 0 <= k < |s.descriptors| ==> |s.descriptors[k]| == DESCRIPTOR_SIZE
    ensures StageAll(start, s, raws).Ok? ==>
              var r := StageAll(start, s, raws).value;
              |r.descriptors| == |s.descriptors| + |raws|
              && forall k :: 0 <= k < |r.descriptors| ==> |r.descriptors[k]| == DESCRIPTOR_SIZE
    decreases raws
  {
    hide AppendAll, Cut, Lengths, RecordHeader, Descriptor;
    if raws != [] && StageRecord(start, s, raws[0]).Ok? {
      StagedDescriptors(start, StageRecord(start, s, raws[0]).value, raws[1..]);
    }
  }

  lemma {:induction false} JoinedLength(parts: seq<seq<Byte>>)
    requires forall k :: 0 <= k < |parts| ==> |parts[k]| == DESCRIPTOR_SIZE
    ensures |Joined(parts)| == |parts| * DESCRIPTOR_SIZE
  {
    if parts != [] {
      JoinedLength(parts[1..]);
    }
  }

  function Build(raws: seq<seq<Byte>>, base: nat, max: nat): Result<Code> {
    if max < |raws| then Err(TableOverflow)
    else
      var s :- StageAll(PayloadBase(base, max), Stage([], [], []), raws);
      StagedDescriptors(PayloadBase(base, max), Stage([], [], []), raws);
      JoinedLength(s.descriptors);
      if 0x1_0000_0000 <= |raws| then Err(FieldOverflow) else Ok(Code(base, Image(base, max, s), s.staged))
  }

  lemma {:induction false} JoinedHolds(data: seq<Byte>, pos: nat, parts: seq<seq<Byte>>, k: nat)
    requires forall i :: 0 <= i < |parts| ==> |parts[i]| == DESCRIPTOR_SIZE
    requires Holds(data, pos, Joined(parts)) && k < |parts|
    ensures Holds(data, pos + DESCRIPTOR_SIZE * k, parts[k])
    decreases k
  {
    hide Holds;
    HoldsConcat(data, pos, parts[0], Joined(parts[1..]));
    if k != 0 {
      JoinedHolds(data, pos + DESCRIPTOR_SIZE, parts[1..], k - 1);
    }
  }

  /** Where the three parts of an image stand. */
  lemma ImageLayout(base: nat, max: nat, s: Stage)
    requires |s.descriptors| <= max && |s.descriptors| < 0x1_0000_0000 && |Joined(s.descriptors)| <= max * DESCRIPTOR_SIZE
    ensures var code := Image(base, max, s);
            && Holds(code, 0, Bytes32(|s.descriptors|))
            && Holds(code, 4, Joined(s.descriptors))
            && Holds(code, PayloadBase(base, max) - base, s.payload)
            && |code| == PayloadBase(base, max) - base + |s.payload|
  {
    hide Bytes32, Joined;
    var code := Image(base, max, s);
    var count, joined := Bytes32(|s.descriptors|), Joined(s.descriptors);
    var fill := Zeros(TableSize(max) - |count + joined|);
    var gap := Zeros(PayloadBase(base, max) - base - TableSize(max));
    assert Holds(code, 0, code);
    HoldsConcat(code, 0, (count + joined) + fill, gap + s.payload);
    HoldsConcat(code, 0, count + joined, fill);
    HoldsConcat(code, 0, count, joined);
    HoldsConcat(code, TableSize(max), gap, s.payload);
  }

  /** A successful build went through a well-laid stage. */
  lemma BuiltFrom(downloads: seq<Download>, base: nat, max: nat, code: Code)
    returns (s: Stage, pointers: seq<seq<nat>>)
    requires AllFormed(downloads) && Build(Records(downloads), base, max) == Ok(code)
    ensures WellStaged(PayloadBase(base, max), s, downloads, pointers)
    ensures |downloads| <= max && |downloads| < 0x1_0000_0000 && |s.descriptors| == |downloads| == |pointers|
    ensures forall k :: 0 <= k < |downloads| ==> |s.descriptors[k]| == DESCRIPTOR_SIZE
    ensures |Joined(s.descriptors)| <= max * DESCRIPTOR_SIZE
    ensures code == Code(base, Image(base, max, s), s.staged)
  {
    hide DownloadFormed, StageAll, Image;
    var start := PayloadBase(base, max);
    s := StageAll(start, Stage([], [], []), Records(downloads)).value;
    StagedDescriptors(start, Stage([], [], []), Records(downloads));
    JoinedLength(s.descriptors);
    pointers := StagedExactly(start, Stage([], [], []), [], [], downloads);
    assert [] + downloads == downloads;
  }

  /** When a build of parsed records fails: too many records for the table, or
      a section whose address does not fit its field.  The length check is not
      among the reasons. */
  lemma BuildsExactly(downloads: seq<Download>, base: nat, max: nat)
    requires AllFormed(downloads) && |downloads| < 0x1_0000_0000
    ensures var r := Build(Records(downloads), base, max);
            && (r == Err(TableOverflow) <==> max < |downloads|)
            && (r.Ok? <==> |downloads| <= max && AllAddresses(Addresses(PayloadBase(base, max), [], downloads)))
            && (r.Err? ==> r.error == TableOverflow || r.error == FieldOverflow)
  {
    hide DownloadFormed, StageAll, Image, Addresses, AllAddresses;
    if |downloads| <= max {
      var all := StagedExactly(PayloadBase(base, max), Stage([], [], []), [], [], downloads);
    }
  }

  predicate Position(code: Code, downloads: seq<Download>, k: nat, j: nat) {
    k < |downloads| && j < SECTIONS && 4 + DESCRIPTOR_SIZE * (k + 1) <= |code.data|
  }

  /** The pointer the image holds for section j of record k. */
  function Pointer(code: Code, downloads: seq<Download>, k: nat, j: nat): Address
    requires Position(code, downloads, k, j)
  {
    PointerIn(code.data, 4 + DESCRIPTOR_SIZE * k, j)
  }

  /** Every pointer in the image is the one the stage chose. */
  lemma PointersStand(downloads: seq<Download>, base: nat, max: nat, code: Code, s: Stage, pointers: seq<seq<nat>>,
                      k: nat, j: nat)
    requires WellStaged(PayloadBase(base, max), s, downloads, pointers)
    requires |downloads| <= max && |downloads| < 0x1_0000_0000 && |s.descriptors| == |downloads|
    requires forall i :: 0 <= i < |downloads| ==> |s.descriptors[i]| == DESCRIPTOR_SIZE
    requires |Joined(s.descriptors)| <= max * DESCRIPTOR_SIZE
    requires code == Code(base, Image(base, max, s), s.staged)
    requires k < |downloads| && j < SECTIONS
    ensures Position(code, downloads, k, j) && |pointers[k]| == SECTIONS
    ensures Pointer(code, downloads, k, j) == pointers[k][j]
    ensures FILE_HEADER_SIZE <= downloads[k].head.header.HeaderSize()
    ensures Unpack(code.data, 4 + DESCRIPTOR_SIZE * k, 10) == DescriptorWords(downloads[k].head.header)
  {
    hide Holds, Image, Joined, Pack, Unpack, Laid, Parts;
    ImageLayout(base, max, s);
    JoinedHolds(code.data, 4, s.descriptors, k);
    assert RecordStaged(PayloadBase(base, max), s.payload, s.descriptors[k], s.staged[k], downloads[k].head.header,
                        Parts(downloads[k]), pointers[k]);
    DescriptorReads(code.data, 4 + DESCRIPTOR_SIZE * k, downloads[k].head.header, pointers[k], j);
    HoldsWithin(code.data, 4 + DESCRIPTOR_SIZE * k, s.descriptors[k]);
  }

  /** Following the image's own pointers from the base address reads back every
      section of every record. */
  lemma EverySectionReadsBack(downloads: seq<Download>, base: nat, max: nat, code: Code, k: nat, j: nat)
    requires AllFormed(downloads) && Build(Records(downloads), base, max) == Ok(code)
    requires k < |downloads| && j < SECTIONS
    ensures Position(code, downloads, k, j)
    ensures var section, p := Parts(downloads[k])[j], Pointer(code, downloads, k, j);
            && (p == 0 <==> section == [])
            && (section != [] ==>
                  && p % 4 == 0 && base + TableSize(max) <= p && p + |section| <= base + |code.data|
                  && code.data[p - base..p - base + |section|] == section)
  {
    hide DownloadFormed, Build, Image, Joined, Parts, PointerIn, Unpack, WellStaged;
    var s, pointers := BuiltFrom(downloads, base, max, code);
    PointersStand(downloads, base, max, code, s, pointers, k, j);
    ImageLayout(base, max, s);
    var start := PayloadBase(base, max);
    var section := Parts(downloads[k])[j];
    SectionLies(start, s, downloads, pointers, k, j);
    if section != [] {
      HoldsInside(code.data, start - base, s.payload, pointers[k][j] - start, section);
    }
  }

  lemma SectionLies(start: nat, s: Stage, downloads: seq<Download>, pointers: seq<seq<nat>>, k: nat, j: nat)
    requires WellStaged(start, s, downloads, pointers) && k < |downloads| && j < SECTIONS && |pointers[k]| == SECTIONS
    ensures start <= s.staged[k].address && s.staged[k].address + s.staged[k].size <= start + |s.payload|
    ensures Lies(start, s.payload, s.staged[k].address, s.staged[k].address + s.staged[k].size, Parts(downloads[k])[j],
                 pointers[k][j])
  {
    hide Parts, Tiles, Descriptor, PaddedTotal, Lies;
    assert RecordStaged(start, s.payload, s.descriptors[k], s.staged[k], downloads[k].head.header, Parts(downloads[k]),
                        pointers[k]);
    TileBounds(start, s.staged, start + |s.payload|, k);
    TileEnds(start, s.staged, start + |s.payload|, k);
  }

  lemma HoldsInside(data: seq<Byte>, pos: nat, outer: seq<Byte>, at: nat, inner: seq<Byte>)
    requires Holds(data, pos, outer) && Holds(outer, at, inner)
    ensures Holds(data, pos + at, inner)
  {
    assert outer == outer[..at] + inner + outer[at + |inner|..];
    HoldsConcat(data, pos, outer[..at] + inner, outer[at + |inner|..]);
    HoldsConcat(data, pos, outer[..at], inner);
  }

  /** Where record k begins: right after the table, each earlier record taking its
      sections filled up. */
  function RecordStart(base: nat, max: nat, downloads: seq<Download>, k: nat): nat
    requires k <= |downloads|
  {
    if k == 0 then (base + 4 + 48 * max + 3) / 4 * 4
    else RecordStart(base, max, downloads, k - 1) + PaddedTotal(Parts(downloads[k - 1]))
  }

  lemma {:induction false} StagedAt(base: nat, max: nat, s: Stage, downloads: seq<Download>, pointers: seq<seq<nat>>,
                                    k: nat)
    requires WellStaged(PayloadBase(base, max), s, downloads, pointers) && k < |downloads|
    ensures s.staged[k].address == RecordStart(base, max, downloads, k)
    decreases k
  {
    hide PaddedTotal, Parts, Laid, Descriptor;
    if k != 0 {
      StagedAt(base, max, s, downloads, pointers, k - 1);
      assert RecordStaged(PayloadBase(base, max), s.payload, s.descriptors[k - 1], s.staged[k - 1],
                          downloads[k - 1].head.header, Parts(downloads[k - 1]), pointers[k - 1]);
    }
  }

  /** Every pointer in closed form: the sections stand behind the table, one after
      another in the order of the records and of their descriptors, each at the
      next multiple of four. */
  lemma PointersExactly(downloads: seq<Download>, base: nat, max: nat, code: Code, k: nat, j: nat)
    requires AllFormed(downloads) && Build(Records(downloads), base, max) == Ok(code)
    requires k < |downloads| && j < SECTIONS && Parts(downloads[k])[j] != []
    ensures Position(code, downloads, k, j)
    ensures Pointer(code, downloads, k, j)
         == RecordStart(base, max, downloads, k) + PaddedTotal(Parts(downloads[k])[..j])
  {
    hide DownloadFormed, Build, Image, Joined, Parts, Tiles, Descriptor, PointerIn, Unpack, Laid, PaddedTotal;
    var s, pointers := BuiltFrom(downloads, base, max, code);
    PointersStand(downloads, base, max, code, s, pointers, k, j);
    StagedAt(base, max, s, downloads, pointers, k);
    assert RecordStaged(PayloadBase(base, max), s.payload, s.descriptors[k], s.staged[k], downloads[k].head.header,
                        Parts(downloads[k]), pointers[k]);
  }

  /** Unused descriptors and the gap before the payload are zero. */
  lemma TableRestIsZero(downloads: seq<Download>, base: nat, max: nat, code: Code, i: nat)
    requires AllFormed(downloads) && Build(Records(downloads), base, max) == Ok(code)
    requires 4 + DESCRIPTOR_SIZE * |downloads| <= i < PayloadBase(base, max) - base
    ensures i < |code.data| && code.data[i] == 0
  {
    hide DownloadFormed, Build, WellStaged;
    var s, pointers := BuiltFrom(downloads, base, max, code);
    JoinedLength(s.descriptors);
    var table := Bytes32(|s.descriptors|) + Joined(s.descriptors);
    assert |table| == 4 + DESCRIPTOR_SIZE * |downloads|;
    var fill, gap := Zeros(TableSize(max) - |table|), Zeros(PayloadBase(base, max) - base - TableSize(max));
    assert code.data == (table + fill) + (gap + s.payload);
  }

  /** The count and every descriptor's counters stand in the table. */
  lemma CountersStand(downloads: seq<Download>, base: nat, max: nat, code: Code, k: nat)
    requires AllFormed(downloads) && Build(Records(downloads), base, max) == Ok(code)
    ensures 4 <= |code.data| && Read32(code.data, 0) == |downloads|
    ensures k < |downloads| ==>
              && Position(code, downloads, k, 0) && FILE_HEADER_SIZE <= downloads[k].head.header.HeaderSize()
              && Unpack(code.data, 4 + DESCRIPTOR_SIZE * k, 10) == DescriptorWords(downloads[k].head.header)
  {
    hide DownloadFormed, Build, Image, Joined, WellStaged, Unpack, Bytes32, Read32, Holds;
    var s, pointers := BuiltFrom(downloads, base, max, code);
    ImageLayout(base, max, s);
    HoldsWithin(code.data, 0, Bytes32(|s.descriptors|));
    Bytes32Exactly(code.data, 0, |s.descriptors|);
    if k < |downloads| {
      PointersStand(downloads, base, max, code, s, pointers, k, 0);
    }
  }

  /** No two sections share a byte: each ends before the next one begins. */
  lemma SectionsApart(downloads: seq<Download>, base: nat, max: nat, code: Code, k: nat, j: nat, k': nat, j': nat)
    requires AllFormed(downloads) && Build(Records(downloads), base, max) == Ok(code)
    requires k < |downloads| && k' < |downloads| && j < SECTIONS && j' < SECTIONS && (k < k' || (k == k' && j < j'))
    requires Parts(downloads[k])[j] != [] && Parts(downloads[k'])[j'] != []
    ensures Position(code, downloads, k, j) && Position(code, downloads, k', j')
    ensures Pointer(code, downloads, k, j) + |Parts(downloads[k])[j]| <= Pointer(code, downloads, k', j')
  {
    hide DownloadFormed, Build, Image, Joined, Parts, Tiles, Descriptor, PaddedTotal, PointerIn, Unpack, Holds;
    var s, pointers := BuiltFrom(downloads, base, max, code);
    PointersStand(downloads, base, max, code, s, pointers, k, j);
    PointersStand(downloads, base, max, code, s, pointers, k', j');
    var start := PayloadBase(base, max);
    SectionLies(start, s, downloads, pointers, k, j);
    SectionLies(start, s, downloads, pointers, k', j');
    assert RecordStaged(start, s.payload, s.descriptors[k], s.staged[k], downloads[k].head.header, Parts(downloads[k]),
                        pointers[k]);
    if k < k' {
      TilesApart(start, s.staged, start + |s.payload|, k, k');
    } else {
      assert Before(Parts(downloads[k])[j], pointers[k][j], Parts(downloads[k'])[j'], pointers[k'][j']);
    }
  }

  // ----- the builder

  /** The section data staged so far, growing in place. */
  class Payload {
    const start: nat
    var bytes: seq<Byte>

    constructor (start: nat)
      ensures this.start == start && bytes == []
    {
      this.start := start;
      bytes := [];
    }

    method AppendSection(data: seq<Byte>) returns (address: nat)
      modifies this
      ensures (address, bytes) == Append(start, old(bytes), data)
    {
      if data == [] {
        return 0;
      }
      address := start + |bytes|;
      bytes := bytes + data;
      ghost var end := |bytes|;
      while |bytes| % 4 != 0
        invariant end <= |bytes| <= Align4(end) && bytes == old(bytes) + data + Zeros(|bytes| - end)
        decreases Align4(end) - |bytes|
      {
        bytes := bytes + [0];
      }
    }

    method AppendSections(sections: seq<seq<Byte>>) returns (pointers: seq<nat>)
      modifies this
      ensures (pointers, bytes) == AppendAll(start, old(bytes), sections)
    {
      pointers := [];
      assert sections[0..] == sections;
      for i := 0 to |sections|
        invariant AppendAll(start, old(bytes), sections).0 == pointers + AppendAll(start, bytes, sections[i..]).0
        invariant AppendAll(start, old(bytes), sections).1 == AppendAll(start, bytes, sections[i..]).1
      {
        assert sections[i..][1..] == sections[i + 1..];
        var address := AppendSection(sections[i]);
        pointers := pointers + [address];
      }
      assert pointers + [] == pointers;
    }
  }

  method CutRecord(raw: seq<Byte>, start: nat, lengths: seq<int>) returns (sections: seq<seq<Byte>>, pos: int)
    ensures (sections, pos) == Cut(raw, start, lengths)
  {
    hide Slice;
    sections, pos := [], start;
    assert lengths[0..] == lengths;
    for i := 0 to |lengths|
      invariant Cut(raw, start, lengths).0 == sections + Cut(raw, pos, lengths[i..]).0
      invariant Cut(raw, start, lengths).1 == Cut(raw, pos, lengths[i..]).1
    {
      assert lengths[i..][1..] == lengths[i + 1..];
      var end := pos + lengths[i];
      sections := sections + [Slice(raw, pos, end)];
      pos := end;
    }
    assert sections + [] == sections;
  }

  method BuildCode(raws: seq<seq<Byte>>, base: nat, max: nat) returns (r: Result<Code>)
    ensures r == Build(raws, base, max)
  {
    hide RecordHeader, Lengths, Cut, AppendAll, Descriptor, Bytes32;
    if max < |raws| {
      return Err(TableOverflow);
    }
    var start := Align4(base + TableSize(max));
    var payload := new Payload(start);
    var descriptors: seq<seq<Byte>>, staged: seq<Staged> := [], [];
    assert raws[0..] == raws;
    for i := 0 to |raws|
      invariant payload.start == start
      invariant StageAll(start, Stage([], [], []), raws)
             == StageAll(start, Stage(payload.bytes, descriptors, staged), raws[i..])
    {
      assert raws[i..][1..] == raws[i + 1..];
      var raw := raws[i];
      if |raw| < FILE_HEADER_SIZE {
        return Err(Truncated);
      }
      var h := RecordHeader(raw);
      var sections, pos := CutRecord(raw, FILE_HEADER_SIZE, Lengths(h));
      if pos != |raw| {
        return Err(SizeMismatch);
      }
      var before := |payload.bytes|;
      var pointers := payload.AppendSections(sections);
      var descriptor := Descriptor(h, pointers);
      if descriptor.Err? {
        return Err(descriptor.error);
      }
      descriptors := descriptors + [descriptor.value];
      staged := staged + [Staged(h.DownloadId(), start + before, |payload.bytes| - before)];
    }
    StagedDescriptors(start, Stage([], [], []), raws);
    JoinedLength(descriptors);
    if 0x1_0000_0000 <= |raws| {
      return Err(FieldOverflow);
    }
    var data := Bytes32(|raws|);
    for i := 0 to |descriptors|
      invariant data + Joined(descriptors[i..]) == Bytes32(|raws|) + Joined(descriptors)
    {
      assert descriptors[i..][1..] == descriptors[i + 1..];
      assert data + Joined(descriptors[i..]) == data + descriptors[i] + Joined(descriptors[i + 1..]);
      data := data + descriptors[i];
    }
    assert data + Joined([]) == data;
    data := data + Zeros(TableSize(max) - |data|);
    data := data + (Zeros(start - (base + |data|)) + payload.bytes);
    r := Ok(Code(base, data, staged));
  }

  // ----- which downloads a card gets

  const TASK_KERNEL := 0x0258

  predicate Marked(mask: seq<Byte>, fileSet: nat) {
    fileSet / 8 < |mask| && mask[fileSet / 8] / Pow2(fileSet % 8) % 2 == 1
  }

  /** What bit i of a byte contributes to it. */
  function Weight(b: Byte, i: nat): nat { if Marked([b], i) then Pow2(i) else 0 }

  /** The marks of a byte are its binary digits, the first file set's the lowest. */
  lemma MarksAreDigits(b: Byte)
    ensures b == Weight(b, 0) + Weight(b, 1) + Weight(b, 2) + Weight(b, 3) + Weight(b, 4) + Weight(b, 5) + Weight(b, 6)
                 + Weight(b, 7)
  {
    hide Weight, Pow2;
    SmallPowers();
    DigitsOf(b);
    WeightIs(b, 0);
    WeightIs(b, 1);
    WeightIs(b, 2);
    WeightIs(b, 3);
    WeightIs(b, 4);
    WeightIs(b, 5);
    WeightIs(b, 6);
    WeightIs(b, 7);
  }

  lemma SmallPowers()
    ensures Pow2(0) == 1 && Pow2(1) == 2 && Pow2(2) == 4 && Pow2(3) == 8
    ensures Pow2(4) == 16 && Pow2(5) == 32 && Pow2(6) == 64 && Pow2(7) == 128
  {
  }

  lemma WeightIs(b: Byte, i: nat)
    requires i < 8
    ensures Weight(b, i) == Pow2(i) * (b / Pow2(i) % 2)
  {
    hide Pow2;
    DivisionIs(i, 8, 0, i);
    var power, digit := Pow2(i), b / Pow2(i) % 2;
    assert Marked([b], i) <==> digit == 1;
    assert digit == 0 ==> power * digit == 0;
    assert digit == 1 ==> power * digit == power;
  }

  lemma DigitsOf(b: int)
    requires 0 <= b < 0x100
    ensures b == b % 2 + 2 * (b / 2 % 2) + 4 * (b / 4 % 2) + 8 * (b / 8 % 2) + 16 * (b / 16 % 2) + 32 * (b / 32 % 2)
                 + 64 * (b / 64 % 2) + 128 * (b / 128 % 2)
  {
    assert b / 2 / 2 == b / 4 && b / 4 / 2 == b / 8 && b / 8 / 2 == b / 16 && b / 16 / 2 == b / 32;
    assert b / 32 / 2 == b / 64 && b / 64 / 2 == b / 128 && b / 128 < 2;
  }

  /** The marks of a mask are those of its bytes, eight file sets to a byte. */
  lemma MarksByByte(mask: seq<Byte>, k: nat, i: nat)
    requires i < 8
    ensures Marked(mask, 8 * k + i) <==> k < |mask| && Marked([mask[k]], i)
  {
    DivisionIs(8 * k + i, 8, k, i);
  }

  function FileSets(mask: seq<Byte>): set<nat> { set i: nat | i < 8 * |mask| && Marked(mask, i) }

  function Id(e: Entry): Word { e.download.head.header.DownloadId() }

  /** The first directory row for a card type decides. */
  function FileSetOf(directory: seq<Row>, cardType: int): Result<nat>
    requires Uniform(directory, 2)
  {
    if directory == [] then Err(UnknownCard)
    else if directory[0][0] == cardType then Ok(directory[0][1])
    else FileSetOf(directory[1..], cardType)
  }

  /** The row that decides is the first one for the card. */
  predicate DecidesAt(directory: seq<Row>, cardType: int, i: nat)
    requires Uniform(directory, 2)
  {
    i < |directory| && directory[i][0] == cardType && forall j :: 0 <= j < i ==> directory[j][0] != cardType
  }

  lemma {:induction false} FileSetExactly(directory: seq<Row>, cardType: int, fileSet: nat)
    requires Uniform(directory, 2)
    ensures FileSetOf(directory, cardType) == Ok(fileSet)
            <==> exists i: nat :: DecidesAt(directory, cardType, i) && directory[i][1] == fileSet
    ensures FileSetOf(directory, cardType).Err? <==> forall i :: 0 <= i < |directory| ==> directory[i][0] != cardType
  {
    if directory != [] {
      if directory[0][0] == cardType {
        assert DecidesAt(directory, cardType, 0);
      } else {
        var rest := directory[1..];
        FileSetExactly(rest, cardType, fileSet);
        assert forall j :: 0 <= j < |rest| ==> rest[j] == directory[j + 1];
        assert forall j :: 0 < j < |directory| ==> directory[j] == rest[j - 1];
        if i: nat :| DecidesAt(directory, cardType, i) && directory[i][1] == fileSet {
          assert DecidesAt(rest, cardType, i - 1) && rest[i - 1][1] == fileSet;
        }
        if i: nat :| DecidesAt(rest, cardType, i) && rest[i][1] == fileSet {
          assert DecidesAt(directory, cardType, i + 1) && directory[i + 1][1] == fileSet;
        }
      }
    }
  }

  function Chosen(entries: seq<Entry>, keep: Entry -> bool): seq<Entry> {
    if entries == [] then []
    else (if keep(entries[0]) then [entries[0]] else []) + Chosen(entries[1..], keep)
  }

  /** Choosing keeps each matching entry as often as it occurs, and no other. */
  lemma {:induction false} ChosenExactly(entries: seq<Entry>, keep: Entry -> bool, e: Entry)
    ensures multiset(Chosen(entries, keep))[e] == if keep(e) then multiset(entries)[e] else 0
  {
    if entries != [] {
      ChosenExactly(entries[1..], keep, e);
      assert entries == [entries[0]] + entries[1..];
      assert multiset(entries)[e] == multiset([entries[0]])[e] + multiset(entries[1..])[e];
    }
  }

  /** Where the entries that match stand. */
  function Places(entries: seq<Entry>, keep: Entry -> bool): seq<nat> {
    if entries == [] then []
    else (if keep(entries[0]) then [0] else []) + Shifted(Places(entries[1..], keep))
  }

  predicate Ascending(at: seq<nat>) { forall j, k :: 0 <= j < k < |at| ==> at[j] < at[k] }

  /** Every matching place is listed once, in ascending order. */
  lemma {:induction false} PlacesExactly(entries: seq<Entry>, keep: Entry -> bool, i: nat)
    ensures i in Places(entries, keep) <==> i < |entries| && keep(entries[i])
    ensures Ascending(Places(entries, keep))
  {
    if entries != [] {
      var later := Places(entries[1..], keep);
      PlacesExactly(entries[1..], keep, if 0 < i then i - 1 else 0);
      ShiftedMembers(later, i);
    }
  }

  lemma {:induction false} ChosenCount(entries: seq<Entry>, keep: Entry -> bool)
    ensures |Chosen(entries, keep)| == |Places(entries, keep)|
  {
    if entries != [] {
      ChosenCount(entries[1..], keep);
    }
  }

  /** The chosen entries are those at the matching places, in the file's order. */
  lemma {:induction false} ChosenInOrder(entries: seq<Entry>, keep: Entry -> bool, k: nat)
    requires k < |Places(entries, keep)|
    ensures k < |Chosen(entries, keep)| && Places(entries, keep)[k] < |entries|
    ensures Chosen(entries, keep)[k] == entries[Places(entries, keep)[k]]
    decreases entries
  {
    hide Shifted;
    ChosenCount(entries, keep);
    var rest, n := entries[1..], if keep(entries[0]) then 1 else 0;
    if n <= k {
      ChosenInOrder(rest, keep, k - n);
      assert Places(entries, keep)[k] == Places(rest, keep)[k - n] + 1;
      assert Chosen(entries, keep)[k] == Chosen(rest, keep)[k - n];
    }
  }

  function Shifted(at: seq<nat>): (s: seq<nat>)
    ensures |s| == |at| && forall k :: 0 <= k < |s| ==> s[k] == at[k] + 1
  {
    seq(|at|, k requires 0 <= k < |at| => at[k] + 1)
  }

  lemma ShiftedMembers(at: seq<nat>, i: nat)
    ensures i in Shifted(at) <==> 0 < i && i - 1 in at
  {
    if 0 < i && i - 1 in at {
      var k :| 0 <= k < |at| && at[k] == i - 1;
      assert Shifted(at)[k] == i;
    }
  }

  function InFileSet(fileSet: nat): Entry -> bool { (e: Entry) => Marked(e.mask, fileSet) }

  function RequiredDownloads(f: File, cardType: int): Result<(seq<Entry>, nat)>
    requires Uniform(f.front.directory, 2)
  {
    var fileSet :- FileSetOf(f.front.directory, cardType);
    if f.front.header.MaskSize() <= fileSet / 8 then Err(BadFileSet)
    else Ok((Chosen(f.entries, InFileSet(fileSet)), fileSet))
  }

  /** A card gets each download its file set marks, as often as the file has it,
      and no other. */
  lemma RequiredExactly(f: File, cardType: int, e: Entry)
    requires Uniform(f.front.directory, 2)
    ensures var r := RequiredDownloads(f, cardType);
            && (r.Ok? ==>
                  && FileSetOf(f.front.directory, cardType) == Ok(r.value.1)
                  && r.value.1 / 8 < f.front.header.MaskSize()
                  && multiset(r.value.0)[e] == if Marked(e.mask, r.value.1) then multiset(f.entries)[e] else 0)
            && (r == Err(BadFileSet) <==>
                  FileSetOf(f.front.directory, cardType).Ok?
                  && f.front.header.MaskSize() <= FileSetOf(f.front.directory, cardType).value / 8)
            && (r == Err(UnknownCard) <==>
                  forall i :: 0 <= i < |f.front.directory| ==> f.front.directory[i][0] != cardType)
  {
    hide Chosen, Marked;
    var fileSet := FileSetOf(f.front.directory, cardType);
    FileSetExactly(f.front.directory, cardType, if fileSet.Ok? then fileSet.value else 0);
    NoRowUnknown(f.front.directory, cardType);
    if fileSet.Ok? {
      ChosenExactly(f.entries, InFileSet(fileSet.value), e);
    }
  }

  /** And in the order the file has them. */
  lemma RequiredInOrder(f: File, cardType: int, k: nat)
    requires Uniform(f.front.directory, 2) && RequiredDownloads(f, cardType).Ok?
    ensures var (selected, fileSet) := RequiredDownloads(f, cardType).value;
            var at := Places(f.entries, InFileSet(fileSet));
            && |at| == |selected| && Ascending(at)
            && (k < |at| ==> at[k] < |f.entries| && selected[k] == f.entries[at[k]])
            && (k in at <==> k < |f.entries| && Marked(f.entries[k].mask, fileSet))
  {
    hide Marked, Chosen, Places;
    var keep := InFileSet(RequiredDownloads(f, cardType).value.1);
    ChosenCount(f.entries, keep);
    PlacesExactly(f.entries, keep, k);
    if k < |Places(f.entries, keep)| {
      ChosenInOrder(f.entries, keep, k);
    }
  }

  lemma {:induction false} NoRowUnknown(directory: seq<Row>, cardType: int)
    requires Uniform(directory, 2)
    ensures FileSetOf(directory, cardType).Err? ==> FileSetOf(directory, cardType).error == UnknownCard
  {
    if directory != [] {
      NoRowUnknown(directory[1..], cardType);
    }
  }

  /** The file sets whose task kernel is the one this file set runs. */
  function Family(entries: seq<Entry>, fileSet: nat): set<nat> {
    if entries == [] then {fileSet}
    else if Id(entries[0]) == TASK_KERNEL && fileSet in FileSets(entries[0].mask) then FileSets(entries[0].mask)
    else Family(entries[1..], fileSet)
  }

  /** Entry i is the first task kernel that the file set marks. */
  predicate KernelAt(entries: seq<Entry>, fileSet: nat, i: nat) {
    i < |entries| && Kernel(entries[i], fileSet) && forall j :: 0 <= j < i ==> !Kernel(entries[j], fileSet)
  }

  predicate Kernel(e: Entry, fileSet: nat) { Id(e) == TASK_KERNEL && fileSet in FileSets(e.mask) }

  lemma KernelExactly(e: Entry, fileSet: nat)
    ensures Kernel(e, fileSet) <==> Id(e) == 0x0258 && Marked(e.mask, fileSet)
  {
    hide Marked;
    MarkedWithin(e.mask, fileSet);
  }

  lemma MarkedWithin(mask: seq<Byte>, i: nat)
    ensures Marked(mask, i) ==> i < 8 * |mask|
  {
  }

  /** The family is what the first such kernel marks, or the file set alone. */
  lemma {:induction false} FamilyExactly(entries: seq<Entry>, fileSet: nat)
    ensures fileSet in Family(entries, fileSet)
    ensures forall i: nat :: KernelAt(entries, fileSet, i) ==> Family(entries, fileSet) == FileSets(entries[i].mask)
    ensures (forall i :: 0 <= i < |entries| ==> !Kernel(entries[i], fileSet)) ==> Family(entries, fileSet) == {fileSet}
  {
    if entries != [] && !Kernel(entries[0], fileSet) {
      var rest := entries[1..];
      FamilyExactly(rest, fileSet);
      assert forall j :: 0 <= j < |rest| ==> rest[j] == entries[j + 1];
      forall i: nat | KernelAt(entries, fileSet, i)
        ensures KernelAt(rest, fileSet, i - 1)
      {
      }
    }
  }

  function Variant(id: int, family: set<nat>): Entry -> bool { (e: Entry) => Id(e) == id && FileSets(e.mask) * family != {} }

  /** A variant has the id and shares a file set with the family. */
  lemma VariantExactly(e: Entry, id: int, family: set<nat>)
    ensures Variant(id, family)(e) <==> Id(e) == id && exists i :: i in family && Marked(e.mask, i)
  {
    if i :| i in family && Marked(e.mask, i) {
      assert i in FileSets(e.mask) * family;
    }
    if FileSets(e.mask) * family != {} {
      var i :| i in FileSets(e.mask) * family;
    }
  }

  function ResolveExtra(f: File, id: int, fileSet: nat, selected: seq<Entry>): Result<Entry> {
    var candidates := Chosen(f.entries, Variant(id, Family(f.entries, fileSet)));
    if exists e :: e in selected && Id(e) == id then Err(AlreadySelected)
    else if candidates == [] then Err(NoVariant)
    else if 1 < |candidates| then Err(Ambiguous)
    else Ok(candidates[0])
  }

  function ResolveExtras(f: File, ids: seq<int>, fileSet: nat, selected: seq<Entry>): Result<seq<Entry>> {
    if ids == [] then Ok([])
    else
      var first :- ResolveExtra(f, ids[0], fileSet, selected);
      var rest :- ResolveExtras(f, ids[1..], fileSet, selected);
      Ok([first] + rest)
  }

  function Selection(f: File, cardType: int, ids: seq<int>): Result<seq<Entry>>
    requires Uniform(f.front.directory, 2)
  {
    var required :- RequiredDownloads(f, cardType);
    var extra :- ResolveExtras(f, ids, required.1, required.0);
    Ok(required.0 + extra)
  }

  /** Entry i of the file is the only one that matches. */
  predicate OnlyAt(entries: seq<Entry>, keep: Entry -> bool, i: nat) {
    i < |entries| && keep(entries[i]) && forall j :: 0 <= j < |entries| && j != i ==> !keep(entries[j])
  }

  lemma {:induction false} OneChosen(entries: seq<Entry>, keep: Entry -> bool, e: Entry)
    ensures Chosen(entries, keep) == [e] <==> exists i: nat :: OnlyAt(entries, keep, i) && entries[i] == e
  {
    if entries == [] {
    } else if keep(entries[0]) {
      NoneChosen(entries[1..], keep);
      var rest := Chosen(entries[1..], keep);
      assert Chosen(entries, keep) == [entries[0]] + rest;
      if Chosen(entries, keep) == [e] {
        assert ([entries[0]] + rest)[0] == e && |rest| == 0;
        assert OnlyAt(entries, keep, 0) by {
          forall j | 0 < j < |entries|
            ensures !keep(entries[j])
          {
            assert entries[j] == entries[1..][j - 1];
          }
        }
      }
      if i: nat :| OnlyAt(entries, keep, i) && entries[i] == e {
        assert i == 0;
        forall j | 0 <= j < |entries[1..]|
          ensures !keep(entries[1..][j])
        {
          assert !keep(entries[j + 1]);
        }
      }
    } else {
      OneChosen(entries[1..], keep, e);
      if i: nat :| OnlyAt(entries, keep, i) && entries[i] == e {
        assert OnlyAt(entries[1..], keep, i - 1) && entries[1..][i - 1] == e;
      }
      if i: nat :| OnlyAt(entries[1..], keep, i) && entries[1..][i] == e {
        OnlyOneLater(entries, keep, i);
      }
    }
  }

  lemma OnlyOneLater(entries: seq<Entry>, keep: Entry -> bool, i: nat)
    requires entries != [] && !keep(entries[0]) && OnlyAt(entries[1..], keep, i)
    ensures OnlyAt(entries, keep, i + 1)
  {
    forall j | 0 <= j < |entries| && j != i + 1
      ensures !keep(entries[j])
    {
      if 0 < j {
        assert entries[j] == entries[1..][j - 1];
      }
    }
  }

  lemma {:induction false} NoneChosen(entries: seq<Entry>, keep: Entry -> bool)
    ensures Chosen(entries, keep) == [] <==> forall j :: 0 <= j < |entries| ==> !keep(entries[j])
  {
    if entries != [] {
      NoneChosen(entries[1..], keep);
      assert entries == [entries[0]] + entries[1..];
      assert forall j :: 0 <= j < |entries[1..]| ==> entries[1..][j] == entries[j + 1];
      assert forall j :: 0 < j < |entries| ==> entries[j] == entries[1..][j - 1];
    }
  }

  /** An extra download is named by its id exactly when the card does not have
      it yet and just one entry of the file is a variant for its family. */
  lemma ExtraExactly(f: File, id: int, fileSet: nat, selected: seq<Entry>, e: Entry)
    ensures ResolveExtra(f, id, fileSet, selected) == Ok(e)
            <==> (forall s :: s in selected ==> Id(s) != id)
                 && exists i: nat :: OnlyAt(f.entries, Variant(id, Family(f.entries, fileSet)), i) && f.entries[i] == e
  {
    hide Chosen, Family, Variant, OnlyAt;
    var keep := Variant(id, Family(f.entries, fileSet));
    OneChosen(f.entries, keep, e);
    var candidates := Chosen(f.entries, keep);
    assert |candidates| == 1 ==> candidates == [candidates[0]];
  }

  lemma {:induction false} ChosenFrom(entries: seq<Entry>, keep: Entry -> bool)
    ensures forall e :: e in Chosen(entries, keep) ==> e in entries && keep(e)
  {
    forall e | e in Chosen(entries, keep)
      ensures e in entries && keep(e)
    {
      ChosenExactly(entries, keep, e);
      assert e in multiset(Chosen(entries, keep));
    }
  }

  lemma {:induction false} ExtrasFrom(f: File, ids: seq<int>, fileSet: nat, selected: seq<Entry>)
    ensures var r := ResolveExtras(f, ids, fileSet, selected);
            r.Ok? ==> forall e :: e in r.value ==> e in f.entries
  {
    if ids != [] {
      ExtrasFrom(f, ids[1..], fileSet, selected);
      ChosenFrom(f.entries, Variant(ids[0], Family(f.entries, fileSet)));
    }
  }

  lemma {:induction false} ExtrasExactly(f: File, ids: seq<int>, fileSet: nat, selected: seq<Entry>)
    ensures var r := ResolveExtras(f, ids, fileSet, selected);
            && (r.Ok? <==> forall j :: 0 <= j < |ids| ==> ResolveExtra(f, ids[j], fileSet, selected).Ok?)
            && (r.Ok? ==> |r.value| == |ids|)
            && (r.Ok? ==> forall j :: 0 <= j < |ids| ==> ResolveExtra(f, ids[j], fileSet, selected) == Ok(r.value[j]))
            && (r.Err? ==> exists j :: 0 <= j < |ids| && ResolveExtra(f, ids[j], fileSet, selected) == Err(r.error)
                                      && forall i :: 0 <= i < j ==> ResolveExtra(f, ids[i], fileSet, selected).Ok?)
  {
    hide ResolveExtra;
    if ids != [] {
      var first, rest := ResolveExtra(f, ids[0], fileSet, selected), ids[1..];
      ExtrasExactly(f, rest, fileSet, selected);
      assert forall j :: 0 <= j < |rest| ==> rest[j] == ids[j + 1];
      assert forall j :: 0 < j < |ids| ==> ids[j] == rest[j - 1];
      var later := ResolveExtras(f, rest, fileSet, selected);
      if first.Ok? && later.Err? {
        var j :| 0 <= j < |rest| && ResolveExtra(f, rest[j], fileSet, selected) == Err(later.error)
                 && forall i :: 0 <= i < j ==> ResolveExtra(f, rest[i], fileSet, selected).Ok?;
        assert ResolveExtra(f, ids[j + 1], fileSet, selected) == Err(later.error);
        assert forall i :: 0 <= i < j + 1 ==> ResolveExtra(f, ids[i], fileSet, selected).Ok?;
      }
    }
  }

  /** The card's own downloads do not have the id, and entry e is the file's only
      variant of it for their family. */
  ghost predicate NewVariant(f: File, id: int, fileSet: nat, required: seq<Entry>, e: Entry) {
    && (forall s :: s in required ==> Id(s) != id)
    && exists i: nat :: OnlyAt(f.entries, Variant(id, Family(f.entries, fileSet)), i) && f.entries[i] == e
  }

  ghost predicate HasNewVariant(f: File, id: int, fileSet: nat, required: seq<Entry>) {
    exists e :: NewVariant(f, id, fileSet, required, e)
  }

  /** What is staged: everything the card requires, then for each extra id, in the
      order they were given, the file's only new variant of it.  Staging is refused
      exactly when the requirement is, or some id has no such variant. */
  lemma SelectionExactly(f: File, cardType: int, ids: seq<int>)
    requires Uniform(f.front.directory, 2)
    ensures var r, required := Selection(f, cardType, ids), RequiredDownloads(f, cardType);
            && (required.Err? ==> r == Err(required.error))
            && (required.Ok? ==>
                  var (own, fileSet) := required.value;
                  && (r.Ok? <==> forall j :: 0 <= j < |ids| ==> HasNewVariant(f, ids[j], fileSet, own))
                  && (r.Ok? ==> own <= r.value && |r.value| == |own| + |ids|)
                  && (r.Ok? ==> forall j :: 0 <= j < |ids| ==>
                        NewVariant(f, ids[j], fileSet, own, r.value[|own| + j]) && Id(r.value[|own| + j]) == ids[j]))
  {
    hide ResolveExtra, ResolveExtras, NewVariant, HasNewVariant, Chosen, RequiredDownloads;
    var r, required := Selection(f, cardType, ids), RequiredDownloads(f, cardType);
    if required.Ok? {
      var (own, fileSet) := required.value;
      ExtrasExactly(f, ids, fileSet, own);
      forall j | 0 <= j < |ids|
        ensures ResolveExtra(f, ids[j], fileSet, own).Ok? <==> HasNewVariant(f, ids[j], fileSet, own)
      {
        VariantFound(f, ids[j], fileSet, own);
      }
      if r.Ok? {
        var extra := ResolveExtras(f, ids, fileSet, own).value;
        assert r.value == own + extra;
        forall j | 0 <= j < |ids|
          ensures NewVariant(f, ids[j], fileSet, own, r.value[|own| + j]) && Id(r.value[|own| + j]) == ids[j]
        {
          VariantIs(f, ids[j], fileSet, own, extra[j]);
        }
      }
    }
  }

  lemma VariantIs(f: File, id: int, fileSet: nat, own: seq<Entry>, e: Entry)
    ensures ResolveExtra(f, id, fileSet, own) == Ok(e) <==> NewVariant(f, id, fileSet, own, e)
    ensures NewVariant(f, id, fileSet, own, e) ==> Id(e) == id
  {
    hide ResolveExtra, Family;
    ExtraExactly(f, id, fileSet, own, e);
  }

  lemma VariantFound(f: File, id: int, fileSet: nat, own: seq<Entry>)
    ensures ResolveExtra(f, id, fileSet, own).Ok? <==> HasNewVariant(f, id, fileSet, own)
  {
    hide ResolveExtra, NewVariant;
    var r := ResolveExtra(f, id, fileSet, own);
    if r.Ok? {
      VariantIs(f, id, fileSet, own, r.value);
    }
    if e :| NewVariant(f, id, fileSet, own, e) {
      VariantIs(f, id, fileSet, own, e);
    }
  }

  lemma SelectedFrom(f: File, cardType: int, ids: seq<int>)
    requires Uniform(f.front.directory, 2)
    ensures var r := Selection(f, cardType, ids);
            r.Ok? ==> forall e :: e in r.value ==> e in f.entries
  {
    hide ResolveExtra;
    if RequiredDownloads(f, cardType).Ok? {
      var required := RequiredDownloads(f, cardType).value;
      ChosenFrom(f.entries, InFileSet(required.1));
      ExtrasFrom(f, ids, required.1, required.0);
    }
  }

  // ----- from file to image

  function Downloads(entries: seq<Entry>): (s: seq<Download>)
    ensures |s| == |entries|
  {
    seq(|entries|, k requires 0 <= k < |entries| => entries[k].download)
  }

  lemma ParsedDirectory(data: seq<Byte>)
    ensures ParseFile(data).Ok? ==> FileFormed(ParseFile(data).value) && Uniform(ParseFile(data).value.front.directory, 2)
  {
    hide ParseFile;
    if ParseFile(data).Ok? {
      FileExactly(data, ParseFile(data).value);
    }
  }

  /** A combifile's bytes to the image of the card's downloads. */
  function StageFile(data: seq<Byte>, cardType: int, base: nat, max: nat, ids: seq<int>): Result<Code> {
    var f :- ParseFile(data);
    ParsedDirectory(data);
    var selected :- Selection(f, cardType, ids);
    Build(Records(Downloads(selected)), base, max)
  }

  method BuildDspCodeImage(data: seq<Byte>, cardType: int, base: nat, max: nat, ids: seq<int>) returns (r: Result<Code>)
    ensures r == StageFile(data, cardType, base, max, ids)
  {
    hide ParseFile, Selection, Build;
    var f :- ReadCombifile(data);
    ParsedDirectory(data);
    var selected :- Selection(f, cardType, ids);
    r := BuildCode(Records(Downloads(selected)), base, max);
  }

  /** The downloads a successful build staged: parsed, well formed, and the
      selected entries in order. */
  lemma StagedFile(data: seq<Byte>, cardType: int, base: nat, max: nat, ids: seq<int>, f: File, selected: seq<Entry>)
    requires ParseFile(data) == Ok(f) && Uniform(f.front.directory, 2) && Selection(f, cardType, ids) == Ok(selected)
    ensures AllFormed(Downloads(selected))
    ensures StageFile(data, cardType, base, max, ids) == Build(Records(Downloads(selected)), base, max)
    ensures forall e :: e in selected ==> e in f.entries
  {
    hide ParseFile, Selection, Build, DownloadFormed;
    FileExactly(data, f);
    SelectedFrom(f, cardType, ids);
    forall k | 0 <= k < |selected|
      ensures DownloadFormed(Downloads(selected)[k])
    {
      assert selected[k] in selected && selected[k] in f.entries;
      var i :| 0 <= i < |f.entries| && f.entries[i] == selected[k];
      assert EntryFormed(f.front.header.MaskSize())(f.entries[i]);
    }
  }

  /** End to end: whatever file, card and extra ids, if staging succeeds then
      the card finds every section of every selected record by the pointers in
      the image; and staging never fails on a length mismatch. */
  lemma CardFindsEverySection(data: seq<Byte>, cardType: int, base: nat, max: nat, ids: seq<int>, f: File,
                              selected: seq<Entry>, code: Code, k: nat, j: nat)
    requires ParseFile(data) == Ok(f) && Uniform(f.front.directory, 2) && Selection(f, cardType, ids) == Ok(selected)
    requires StageFile(data, cardType, base, max, ids) == Ok(code) && k < |selected| && j < SECTIONS
    ensures Position(code, Downloads(selected), k, j)
    ensures var section, p := Parts(selected[k].download)[j], Pointer(code, Downloads(selected), k, j);
            && (p == 0 <==> section == [])
            && (section != [] ==>
                  && p % 4 == 0 && base + TableSize(max) <= p && p + |section| <= base + |code.data|
                  && code.data[p - base..p - base + |section|] == section)
  {
    hide ParseFile, Selection, Build, AllFormed, Parts, StageFile, PointerIn;
    StagedFile(data, cardType, base, max, ids, f, selected);
    EverySectionReadsBack(Downloads(selected), base, max, code, k, j);
  }

  /** And the table lists exactly what was asked for: a record for each required
      download and each extra id, under its own id, with counters that count what
      the record holds. */
  lemma TableListsSelection(data: seq<Byte>, cardType: int, base: nat, max: nat, ids: seq<int>, f: File, own: seq<Entry>,
                            fileSet: nat, code: Code, k: nat)
    requires ParseFile(data) == Ok(f) && Uniform(f.front.directory, 2)
    requires RequiredDownloads(f, cardType) == Ok((own, fileSet))
    requires StageFile(data, cardType, base, max, ids) == Ok(code)
    ensures 4 <= |code.data| && Read32(code.data, 0) == |own| + |ids|
    ensures k < |own| + |ids| ==>
              && Fit(code.data, 4 + DESCRIPTOR_SIZE * k, DESCRIPTOR_SIZE) && Selection(f, cardType, ids).Ok?
              && |Selection(f, cardType, ids).value| == |own| + |ids|
              && (var w, e := Unpack(code.data, 4 + DESCRIPTOR_SIZE * k, 10), Selection(f, cardType, ids).value[k];
                  && (if k < |own| then e == own[k] && w[0] == Id(own[k]) else w[0] == ids[k - |own|])
                  && w[5] == |e.download.tables.memory| && w[6] == |e.download.tables.segments|
                  && w[7] == |e.download.tables.symbols| && w[8] == |e.download.sections.dm|
                  && w[9] == |e.download.sections.pm|)
  {
    hide ParseFile, Selection, Build, RequiredDownloads, Unpack, DownloadFormed, NewVariant;
    SelectionExactly(f, cardType, ids);
    var selected := Selection(f, cardType, ids).value;
    StagedFile(data, cardType, base, max, ids, f, selected);
    CountersStand(Downloads(selected), base, max, code, k);
    if k < |selected| {
      assert DownloadFormed(Downloads(selected)[k]);
      CountersMean(selected[k].download);
      if k < |own| {
        assert selected[k] == own[k];
      } else {
        assert Id(selected[|own| + (k - |own|)]) == ids[k - |own|];
      }
    }
  }
}
