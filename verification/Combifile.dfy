/**
 The combifile parser of tools/eicon_dsp_extract.py: directory, usage masks and
 download records.  A file is described by the values below; `FileBytes` is its
 layout, and the parser is proved to be exactly the inverse of that layout.
 */
module Combifile {
  import opened Bytes
  import opened DataBlocks
  import opened Options

  // ----- repetition: every table and section is `count` items in a row

  type Parser<T> = nat -> Result<(T, nat)>

  function Many<T>(parse: Parser<T>, pos: nat, count: nat): Result<(seq<T>, nat)>
    decreases count
  {
    if count == 0 then Ok(([], pos))
    else
      var first :- parse(pos);
      var rest :- Many(parse, first.1, count - 1);
      Ok(([first.0] + rest.0, rest.1))
  }

  function Concat<T>(bytes: T -> seq<Byte>, items: seq<T>): seq<Byte> {
    if items == [] then [] else bytes(items[0]) + Concat(bytes, items[1..])
  }

  predicate All<T>(good: T -> bool, items: seq<T>) { forall i :: 0 <= i < |items| ==> good(items[i]) }

  /** A parser that accepts exactly the bytes of good items. */
  ghost predicate Exact<T(!new)>(data: seq<Byte>, parse: Parser<T>, bytes: T -> seq<Byte>, good: T -> bool) {
    forall pos: nat, item: T, end: nat :: ExactAt(data, parse, bytes, good, pos, item, end)
  }

  ghost predicate ExactAt<T(!new)>(data: seq<Byte>, parse: Parser<T>, bytes: T -> seq<Byte>, good: T -> bool,
                                   pos: nat, item: T, end: nat)
  {
    parse(pos) == Ok((item, end)) <==> good(item) && Holds(data, pos, bytes(item)) && end == pos + |bytes(item)|
  }

  lemma {:induction false} ManyExactly<T(!new)>(data: seq<Byte>, parse: Parser<T>, bytes: T -> seq<Byte>,
                                                good: T -> bool, pos: nat, items: seq<T>, end: nat)
    requires Exact(data, parse, bytes, good) && pos <= |data|
    ensures Many(parse, pos, |items|) == Ok((items, end))
            <==> All(good, items) && Holds(data, pos, Concat(bytes, items)) && end == pos + |Concat(bytes, items)|
    decreases |items|
  {
    if items != [] {
      var first, rest := items[0], items[1..];
      var middle := pos + |bytes(first)|;
      assert ExactAt(data, parse, bytes, good, pos, first, middle);
      HoldsConcat(data, pos, bytes(first), Concat(bytes, rest));
      assert items == [first] + rest;
      if parse(pos) == Ok((first, middle)) {
        ManyExactly(data, parse, bytes, good, middle, rest, end);
      } else if parse(pos).Ok? {
        assert ExactAt(data, parse, bytes, good, pos, parse(pos).value.0, parse(pos).value.1);
      }
    }
  }

  lemma {:induction false} ManyCount<T>(parse: Parser<T>, pos: nat, count: nat)
    ensures Many(parse, pos, count).Ok? ==> |Many(parse, pos, count).value.0| == count
    decreases count
  {
    if count != 0 && parse(pos).Ok? {
      ManyCount(parse, parse(pos).value.1, count - 1);
    }
  }

  function After<T>(done: seq<T>, rest: Result<(seq<T>, nat)>): Result<(seq<T>, nat)> {
    if rest.Ok? then Ok((done + rest.value.0, rest.value.1)) else rest
  }

  lemma AfterNothing<T>(rest: Result<(seq<T>, nat)>)
    ensures After([], rest) == rest
  {
    if rest.Ok? {
      assert [] + rest.value.0 == rest.value.0;
    }
  }

  lemma AfterOneMore<T>(done: seq<T>, parse: Parser<T>, pos: nat, count: nat)
    requires 0 < count && parse(pos).Ok?
    ensures var next := parse(pos).value;
            After(done, Many(parse, pos, count)) == After(done + [next.0], Many(parse, next.1, count - 1))
  {
    var next := parse(pos).value;
    var rest := Many(parse, next.1, count - 1);
    if rest.Ok? {
      assert done + ([next.0] + rest.value.0) == done + [next.0] + rest.value.0;
    }
  }

  /** The loop that advances a cursor over `count` items. */
  method Repeat<T>(parse: Parser<T>, start: nat, count: nat) returns (r: Result<(seq<T>, nat)>)
    ensures r == Many(parse, start, count)
  {
    var items: seq<T>, pos := [], start;
    AfterNothing(Many(parse, start, count));
    for i := 0 to count
      invariant Many(parse, start, count) == After(items, Many(parse, pos, count - i))
    {
      var next := parse(pos);
      if next.Err? {
        return Err(next.error);
      }
      AfterOneMore(items, parse, pos, count - i);
      items, pos := items + [next.value.0], next.value.1;
    }
    assert items + [] == items;
    return Ok((items, pos));
  }

  // ----- strings in a row

  lemma ThreeParts(data: seq<Byte>, pos: nat, a: seq<Byte>, b: seq<Byte>, c: seq<Byte>)
    ensures Holds(data, pos, a + (b + c))
            <==> Holds(data, pos, a) && Holds(data, pos + |a|, b) && Holds(data, pos + |a| + |b|, c)
  {
    hide Holds;
    HoldsConcat(data, pos, a, b + c);
    HoldsConcat(data, pos + |a|, b, c);
  }

  lemma FourParts(data: seq<Byte>, pos: nat, a: seq<Byte>, b: seq<Byte>, c: seq<Byte>, d: seq<Byte>)
    ensures Holds(data, pos, a + (b + (c + d)))
            <==> Holds(data, pos, a) && Holds(data, pos + |a|, b) && Holds(data, pos + |a| + |b|, c)
                 && Holds(data, pos + |a| + |b| + |c|, d)
  {
    hide Holds;
    HoldsConcat(data, pos, a, b + (c + d));
    ThreeParts(data, pos + |a|, b, c, d);
  }

  lemma SixParts(data: seq<Byte>, pos: nat, a: seq<Byte>, b: seq<Byte>, c: seq<Byte>, d: seq<Byte>, e: seq<Byte>,
                 f: seq<Byte>)
    ensures Holds(data, pos, a + (b + (c + (d + (e + f)))))
            <==> Holds(data, pos, a) && Holds(data, pos + |a|, b) && Holds(data, pos + |a| + |b|, c)
                 && Holds(data, pos + |a| + |b| + |c|, d) && Holds(data, pos + |a| + |b| + |c| + |d|, e)
                 && Holds(data, pos + |a| + |b| + |c| + |d| + |e|, f)
  {
    hide Holds;
    HoldsConcat(data, pos, a, b + (c + (d + (e + f))));
    HoldsConcat(data, pos + |a|, b, c + (d + (e + f)));
    FourParts(data, pos + |a| + |b|, c, d, e, f);
  }

  // ----- tables

  function RowParser(data: seq<Byte>, width: nat): Parser<Row> {
    (pos: nat) => if Fit(data, pos, 2 * width) then Ok((Unpack(data, pos, width), pos + 2 * width)) else Err(Truncated)
  }

  function RowBytes(): Row -> seq<Byte> { (row: Row) => Pack(row) }

  function OfWidth(width: nat): Row -> bool { (row: Row) => |row| == width }

  lemma RowsExact(data: seq<Byte>, width: nat)
    ensures Exact(data, RowParser(data, width), RowBytes(), OfWidth(width))
  {
    forall pos: nat, row: Row, end: nat
      ensures ExactAt(data, RowParser(data, width), RowBytes(), OfWidth(width), pos, row, end)
    {
      PackExactly(data, pos, row);
    }
  }

  // ----- data sections

  type Segments = s: seq<Row> | Uniform(s, 5) witness []

  function BlockParser(data: seq<Byte>, domain: Domain, segments: Segments): Parser<Block> {
    (pos: nat) => ParseBlock(data, pos, domain, segments)
  }

  function ToBytes(): Block -> seq<Byte> { (b: Block) => BlockBytes(b) }

  ghost function Good(domain: Domain, segments: Segments): Block -> bool {
    (b: Block) => WellFormed(b, domain, segments)
  }

  lemma BlocksExact(data: seq<Byte>, domain: Domain, segments: Segments)
    ensures Exact(data, BlockParser(data, domain, segments), ToBytes(), Good(domain, segments))
  {
    forall pos: nat, b: Block, end: nat
      ensures ExactAt(data, BlockParser(data, domain, segments), ToBytes(), Good(domain, segments), pos, b, end)
    {
      BlockExactly(data, pos, domain, segments, b, end);
    }
  }

  function SectionBytes(blocks: seq<Block>): seq<Byte> { Concat(ToBytes(), blocks) }

  /** A section of a declared size and block count; the blocks must end exactly
      where the section does. */
  function ParseSection(data: seq<Byte>, pos: nat, size: nat, count: nat, domain: Domain, segments: Segments)
    : Result<(seq<Block>, nat)>
  {
    if !Fit(data, pos, size) then Err(Truncated)
    else
      var blocks :- Many(BlockParser(data, domain, segments), pos, count);
      if blocks.1 != pos + size then Err(SectionLength) else Ok(blocks)
  }

  lemma SectionExactly(data: seq<Byte>, pos: nat, size: nat, count: nat, domain: Domain, segments: Segments,
                       blocks: seq<Block>, end: nat)
    ensures ParseSection(data, pos, size, count, domain, segments) == Ok((blocks, end))
            <==> All(Good(domain, segments), blocks) && Holds(data, pos, SectionBytes(blocks)) && end == pos + size
                 && |blocks| == count && |SectionBytes(blocks)| == size
  {
    if Fit(data, pos, size) {
      BlocksExact(data, domain, segments);
      ManyCount(BlockParser(data, domain, segments), pos, count);
      if |blocks| == count {
        ManyExactly(data, BlockParser(data, domain, segments), ToBytes(), Good(domain, segments), pos, blocks, end);
      }
    }
  }

  method ParseBlocks(data: seq<Byte>, pos: nat, size: nat, count: nat, domain: Domain, segments: Segments)
    returns (r: Result<(seq<Block>, nat)>)
    ensures r == ParseSection(data, pos, size, count, domain, segments)
  {
    if !Fit(data, pos, size) {
      return Err(Truncated);
    }
    r := Repeat(BlockParser(data, domain, segments), pos, count);
    if r.Ok? && r.value.1 != pos + size {
      r := Err(SectionLength);
    }
  }

  // ----- download records

  function Ascii(text: string): seq<Byte> {
    seq(|text|, i requires 0 <= i < |text| => text[i] as int % 0x100)
  }

  function Padded48(text: string): (s: seq<Byte>)
    requires |text| <= 48
    ensures |s| == 48
  {
    Ascii(text) + seq(48 - |text|, _ => 0)
  }

  /** A magic string stands character by character, filled up with zeros. */
  lemma PaddedExactly(text: string, i: nat)
    requires |text| <= 48 && i < 48
    ensures Padded48(text)[i] == if i < |text| then text[i] as int % 0x100 else 0
  {
    assert |Ascii(text)| == |text|;
  }

  const COMBI_MAGIC := Padded48("Eicon.Diehl DSP Download Combifile")
  const FILE_MAGIC := Padded48("Eicon.Diehl DSP Download\0File\0")
  const FORMAT_VERSION := 0x0100
  const COMBI_HEADER_SIZE := 62
  const FILE_HEADER_SIZE := 82

  type Fields = f: seq<Word> | |f| == 17 witness [0, 0, 0, 0, 0, 0, 0, 0, 0, 0, 0, 0, 0, 0, 0, 0, 0]

  /** The seventeen 16-bit header fields, in file order. */
  datatype Header = Header(fields: Fields)
  {
    function Version(): Word { fields[0] }
    function DownloadId(): Word { fields[1] }
    function HeaderSize(): Word { fields[5] }
    function DescriptionSize(): Word { fields[6] }
    function MemorySize(): Word { fields[7] }
    function MemoryCount(): Word { fields[8] }
    function SegmentSize(): Word { fields[9] }
    function SegmentCount(): Word { fields[10] }
    function SymbolSize(): Word { fields[11] }
    function SymbolCount(): Word { fields[12] }
    function DmSize(): Word { fields[13] }
    function DmCount(): Word { fields[14] }
    function PmSize(): Word { fields[15] }
    function PmCount(): Word { fields[16] }
  }

  datatype Head = Head(header: Header, excess: seq<Byte>, description: seq<Byte>)
  datatype Tables = Tables(memory: seq<Row>, segments: Segments, symbols: seq<Row>)
  datatype Sections = Sections(dm: seq<Block>, pm: seq<Block>)
  datatype Download = Download(head: Head, tables: Tables, sections: Sections)

  predicate HeadFormed(h: Head) {
    && h.header.Version() == FORMAT_VERSION
    && h.header.HeaderSize() == FILE_HEADER_SIZE + |h.excess|
    && h.header.DescriptionSize() == |h.description|
  }

  predicate TablesFormed(t: Tables, h: Header) {
    && h.MemorySize() == 8 * |t.memory| && h.MemoryCount() == |t.memory| && Uniform(t.memory, 4)
    && h.SegmentSize() == 10 * |t.segments| && h.SegmentCount() == |t.segments|
    && h.SymbolSize() == 8 * |t.symbols| && h.SymbolCount() == |t.symbols| && Uniform(t.symbols, 4)
  }

  ghost predicate SectionsFormed(s: Sections, h: Header, segments: Segments) {
    && h.DmSize() == |SectionBytes(s.dm)| && h.DmCount() == |s.dm| && All(Good(Dm, segments), s.dm)
    && h.PmSize() == |SectionBytes(s.pm)| && h.PmCount() == |s.pm| && All(Good(Pm, segments), s.pm)
  }

  ghost predicate DownloadFormed(d: Download) {
    && HeadFormed(d.head)
    && TablesFormed(d.tables, d.head.header)
    && SectionsFormed(d.sections, d.head.header, d.tables.segments)
  }

  function HeadBytes(h: Head): seq<Byte> { FILE_MAGIC + (Pack(h.header.fields) + (h.excess + h.description)) }

  function TableBytes(rows: seq<Row>): seq<Byte> { Concat(RowBytes(), rows) }

  lemma {:induction false} TableLength(rows: seq<Row>, width: nat)
    requires Uniform(rows, width)
    ensures |TableBytes(rows)| == 2 * width * |rows|
  {
    if rows != [] {
      TableLength(rows[1..], width);
      assert TableBytes(rows) == Pack(rows[0]) + TableBytes(rows[1..]);
      assert 2 * width * |rows| == 2 * width * (|rows| - 1) + 2 * width;
    }
  }

  function TablesBytes(t: Tables): seq<Byte> {
    TableBytes(t.memory) + (TableBytes(t.segments) + TableBytes(t.symbols))
  }

  function SectionsBytes(s: Sections): seq<Byte> { SectionBytes(s.dm) + SectionBytes(s.pm) }

  function DownloadBytes(d: Download): seq<Byte> {
    HeadBytes(d.head) + (TablesBytes(d.tables) + SectionsBytes(d.sections))
  }

  function ParseHead(data: seq<Byte>, pos: nat): Result<(Head, nat)> {
    if !Fit(data, pos, FILE_HEADER_SIZE) then Err(Truncated)
    else
      hide Unpack;
      var header := Header(Unpack(data, pos + 48, 17));
      var excess := header.HeaderSize() - FILE_HEADER_SIZE;
      if data[pos..pos + 48] != FILE_MAGIC then Err(BadMagic)
      else if header.Version() != FORMAT_VERSION then Err(BadVersion)
      else if excess < 0 then Err(HeaderTooSmall)
      else
        var start := pos + FILE_HEADER_SIZE;
        if !Fit(data, start, excess) then Err(Truncated)
        else if !Fit(data, start + excess, header.DescriptionSize()) then Err(Truncated)
        else
          var end := start + excess + header.DescriptionSize();
          Ok((Head(header, data[start..start + excess], data[start + excess..end]), end))
  }

  ghost predicate HeadRead(data: seq<Byte>, pos: nat, h: Head) {
    var start := pos + FILE_HEADER_SIZE;
    var middle, end := start + |h.excess|, start + |h.excess| + |h.description|;
    && Fit(data, start, |h.excess| + |h.description|)
    && data[pos..pos + 48] == FILE_MAGIC && Unpack(data, pos + 48, 17) == h.header.fields
    && data[start..middle] == h.excess && data[middle..end] == h.description
  }

  lemma HeadLayout(data: seq<Byte>, pos: nat, h: Head)
    ensures Holds(data, pos, HeadBytes(h)) <==> HeadRead(data, pos, h)
    ensures |HeadBytes(h)| == FILE_HEADER_SIZE + |h.excess| + |h.description|
  {
    hide Pack, Unpack;
    FourParts(data, pos, FILE_MAGIC, Pack(h.header.fields), h.excess, h.description);
    PackExactly(data, pos + 48, h.header.fields);
  }

  lemma HeadExactly(data: seq<Byte>, pos: nat, h: Head, end: nat)
    ensures ParseHead(data, pos) == Ok((h, end))
            <==> HeadFormed(h) && Holds(data, pos, HeadBytes(h)) && end == pos + |HeadBytes(h)|
  {
    hide Unpack, Holds, HeadBytes;
    HeadLayout(data, pos, h);
  }

  /** Each table's declared size is checked before its rows are read. */
  function ParseTable(data: seq<Byte>, pos: nat, size: Word, count: Word, width: nat): (r: Result<(seq<Row>, nat)>)
    ensures r.Ok? ==> Uniform(r.value.0, width)
  {
    RowsUniform(data, width, pos, count);
    if size != 2 * width * count then Err(TableMismatch) else Many(RowParser(data, width), pos, count)
  }

  lemma {:induction false} RowsUniform(data: seq<Byte>, width: nat, pos: nat, count: nat)
    ensures Many(RowParser(data, width), pos, count).Ok? ==>
              Uniform(Many(RowParser(data, width), pos, count).value.0, width)
    decreases count
  {
    if count != 0 && Fit(data, pos, 2 * width) {
      RowsUniform(data, width, pos + 2 * width, count - 1);
    }
  }

  function ParseTables(data: seq<Byte>, pos: nat, h: Header): Result<(Tables, nat)> {
    var memory :- ParseTable(data, pos, h.MemorySize(), h.MemoryCount(), 4);
    var segments :- ParseTable(data, memory.1, h.SegmentSize(), h.SegmentCount(), 5);
    var symbols :- ParseTable(data, segments.1, h.SymbolSize(), h.SymbolCount(), 4);
    Ok((Tables(memory.0, segments.0, symbols.0), symbols.1))
  }

  lemma TableExactly(data: seq<Byte>, pos: nat, size: Word, count: Word, width: nat, rows: seq<Row>, end: nat)
    requires pos <= |data|
    ensures ParseTable(data, pos, size, count, width) == Ok((rows, end))
            <==> size == 2 * width * count && count == |rows| && Uniform(rows, width)
                 && Holds(data, pos, TableBytes(rows)) && end == pos + |TableBytes(rows)|
  {
    RowsExact(data, width);
    ManyCount(RowParser(data, width), pos, count);
    UniformRows(rows, width);
    if |rows| == count {
      ManyExactly(data, RowParser(data, width), RowBytes(), OfWidth(width), pos, rows, end);
    }
  }

  lemma UniformRows(rows: seq<Row>, width: nat)
    ensures All(OfWidth(width), rows) <==> Uniform(rows, width)
  {
    if All(OfWidth(width), rows) {
      assert forall i :: 0 <= i < |rows| ==> OfWidth(width)(rows[i]);
    }
  }

  /** A successful parse passes through all three tables. */
  lemma TableStages(data: seq<Byte>, pos: nat, h: Header, t: Tables, end: nat) returns (p1: nat, p2: nat)
    requires ParseTables(data, pos, h) == Ok((t, end))
    ensures ParseTable(data, pos, h.MemorySize(), h.MemoryCount(), 4) == Ok((t.memory, p1))
    ensures ParseTable(data, p1, h.SegmentSize(), h.SegmentCount(), 5) == Ok((t.segments, p2))
    ensures ParseTable(data, p2, h.SymbolSize(), h.SymbolCount(), 4) == Ok((t.symbols, end))
  {
    hide ParseTable;
    p1 := ParseTable(data, pos, h.MemorySize(), h.MemoryCount(), 4).value.1;
    p2 := ParseTable(data, p1, h.SegmentSize(), h.SegmentCount(), 5).value.1;
  }

  lemma TablesParsed(data: seq<Byte>, pos: nat, h: Header, t: Tables, end: nat)
    requires pos <= |data| && ParseTables(data, pos, h) == Ok((t, end))
    ensures TablesFormed(t, h) && Holds(data, pos, TablesBytes(t)) && end == pos + |TablesBytes(t)|
  {
    hide ParseTable, ParseTables, TableBytes, Holds, Uniform;
    var p1, p2 := TableStages(data, pos, h, t, end);
    TableExactly(data, pos, h.MemorySize(), h.MemoryCount(), 4, t.memory, p1);
    HoldsWithin(data, pos, TableBytes(t.memory));
    TableExactly(data, p1, h.SegmentSize(), h.SegmentCount(), 5, t.segments, p2);
    HoldsWithin(data, p1, TableBytes(t.segments));
    TableExactly(data, p2, h.SymbolSize(), h.SymbolCount(), 4, t.symbols, end);
    ThreeParts(data, pos, TableBytes(t.memory), TableBytes(t.segments), TableBytes(t.symbols));
  }

  lemma TablesFound(data: seq<Byte>, pos: nat, h: Header, t: Tables)
    requires TablesFormed(t, h) && Holds(data, pos, TablesBytes(t))
    ensures ParseTables(data, pos, h) == Ok((t, pos + |TablesBytes(t)|))
  {
    hide ParseTable, TableBytes, Holds, Uniform;
    var p1 := pos + |TableBytes(t.memory)|;
    var p2 := p1 + |TableBytes(t.segments)|;
    HoldsConcat(data, pos, TableBytes(t.memory), TableBytes(t.segments) + TableBytes(t.symbols));
    HoldsConcat(data, p1, TableBytes(t.segments), TableBytes(t.symbols));
    HoldsWithin(data, pos, TableBytes(t.memory));
    HoldsWithin(data, p1, TableBytes(t.segments));
    TableExactly(data, pos, h.MemorySize(), h.MemoryCount(), 4, t.memory, p1);
    TableExactly(data, p1, h.SegmentSize(), h.SegmentCount(), 5, t.segments, p2);
    TableExactly(data, p2, h.SymbolSize(), h.SymbolCount(), 4, t.symbols, p2 + |TableBytes(t.symbols)|);
  }

  function ParseSections(data: seq<Byte>, pos: nat, h: Header, segments: Segments): Result<(Sections, nat)> {
    var dm :- ParseSection(data, pos, h.DmSize(), h.DmCount(), Dm, segments);
    var pm :- ParseSection(data, dm.1, h.PmSize(), h.PmCount(), Pm, segments);
    Ok((Sections(dm.0, pm.0), pm.1))
  }

  /** A successful parse passes through both sections. */
  lemma SectionStages(data: seq<Byte>, pos: nat, h: Header, segments: Segments, s: Sections, end: nat)
    returns (middle: nat)
    requires ParseSections(data, pos, h, segments) == Ok((s, end))
    ensures ParseSection(data, pos, h.DmSize(), h.DmCount(), Dm, segments) == Ok((s.dm, middle))
    ensures ParseSection(data, middle, h.PmSize(), h.PmCount(), Pm, segments) == Ok((s.pm, end))
  {
    middle := ParseSection(data, pos, h.DmSize(), h.DmCount(), Dm, segments).value.1;
  }

  lemma SectionsParsed(data: seq<Byte>, pos: nat, h: Header, segments: Segments, s: Sections, end: nat)
    requires ParseSections(data, pos, h, segments) == Ok((s, end))
    ensures SectionsFormed(s, h, segments) && Holds(data, pos, SectionsBytes(s)) && end == pos + |SectionsBytes(s)|
  {
    hide ParseSection, ParseSections, SectionBytes, Good, Holds, All;
    var middle := SectionStages(data, pos, h, segments, s, end);
    SectionExactly(data, pos, h.DmSize(), h.DmCount(), Dm, segments, s.dm, middle);
    SectionExactly(data, middle, h.PmSize(), h.PmCount(), Pm, segments, s.pm, end);
    HoldsConcat(data, pos, SectionBytes(s.dm), SectionBytes(s.pm));
  }

  lemma JoinSections(data: seq<Byte>, pos: nat, h: Header, segments: Segments, s: Sections, middle: nat, end: nat)
    requires ParseSection(data, pos, h.DmSize(), h.DmCount(), Dm, segments) == Ok((s.dm, middle))
    requires ParseSection(data, middle, h.PmSize(), h.PmCount(), Pm, segments) == Ok((s.pm, end))
    ensures ParseSections(data, pos, h, segments) == Ok((s, end))
  {
  }

  lemma SectionsFound(data: seq<Byte>, pos: nat, h: Header, segments: Segments, s: Sections)
    requires SectionsFormed(s, h, segments) && Holds(data, pos, SectionsBytes(s))
    ensures ParseSections(data, pos, h, segments) == Ok((s, pos + |SectionsBytes(s)|))
  {
    hide ParseSection, ParseSections, SectionBytes, Good, Holds, All;
    var middle := pos + |SectionBytes(s.dm)|;
    var end := middle + |SectionBytes(s.pm)|;
    HoldsConcat(data, pos, SectionBytes(s.dm), SectionBytes(s.pm));
    SectionExactly(data, pos, h.DmSize(), h.DmCount(), Dm, segments, s.dm, middle);
    SectionExactly(data, middle, h.PmSize(), h.PmCount(), Pm, segments, s.pm, end);
    JoinSections(data, pos, h, segments, s, middle, end);
  }

  function ParseDownload(data: seq<Byte>, pos: nat): Result<(Download, nat)> {
    var head :- ParseHead(data, pos);
    var tables :- ParseTables(data, head.1, head.0.header);
    var sections :- ParseSections(data, tables.1, head.0.header, tables.0.segments);
    Ok((Download(head.0, tables.0, sections.0), sections.1))
  }

  /** One record: accepted exactly when its bytes are those of a well-formed
      download, which is what is returned. */
  lemma DownloadExactly(data: seq<Byte>, pos: nat, d: Download, end: nat)
    ensures ParseDownload(data, pos) == Ok((d, end))
            <==> DownloadFormed(d) && Holds(data, pos, DownloadBytes(d)) && end == pos + |DownloadBytes(d)|
  {
    hide *;
    if ParseDownload(data, pos) == Ok((d, end)) {
      DownloadParsed(data, pos, d, end);
    }
    if DownloadFormed(d) && Holds(data, pos, DownloadBytes(d)) {
      DownloadFound(data, pos, d);
    }
  }

  /** A successful parse passes through the three parts of a record. */
  lemma DownloadStages(data: seq<Byte>, pos: nat, d: Download, end: nat) returns (p1: nat, p2: nat)
    requires ParseDownload(data, pos) == Ok((d, end))
    ensures p1 <= |data| && ParseHead(data, pos) == Ok((d.head, p1))
    ensures ParseTables(data, p1, d.head.header) == Ok((d.tables, p2))
    ensures ParseSections(data, p2, d.head.header, d.tables.segments) == Ok((d.sections, end))
  {
    p1 := ParseHead(data, pos).value.1;
    p2 := ParseTables(data, p1, ParseHead(data, pos).value.0.header).value.1;
  }

  lemma DownloadParsed(data: seq<Byte>, pos: nat, d: Download, end: nat)
    requires ParseDownload(data, pos) == Ok((d, end))
    ensures DownloadFormed(d) && Holds(data, pos, DownloadBytes(d)) && end == pos + |DownloadBytes(d)|
  {
    hide ParseHead, ParseTables, ParseSections, HeadBytes, TablesBytes, SectionsBytes, HeadFormed, TablesFormed, SectionsFormed, Holds;
    var p1, p2 := DownloadStages(data, pos, d, end);
    HeadExactly(data, pos, d.head, p1);
    TablesParsed(data, p1, d.head.header, d.tables, p2);
    SectionsParsed(data, p2, d.head.header, d.tables.segments, d.sections, end);
    ThreeParts(data, pos, HeadBytes(d.head), TablesBytes(d.tables), SectionsBytes(d.sections));
  }

  lemma JoinDownload(data: seq<Byte>, pos: nat, d: Download, p1: nat, p2: nat, end: nat)
    requires ParseHead(data, pos) == Ok((d.head, p1))
    requires ParseTables(data, p1, d.head.header) == Ok((d.tables, p2))
    requires ParseSections(data, p2, d.head.header, d.tables.segments) == Ok((d.sections, end))
    ensures ParseDownload(data, pos) == Ok((d, end))
  {
  }

  lemma DownloadFound(data: seq<Byte>, pos: nat, d: Download)
    requires DownloadFormed(d) && Holds(data, pos, DownloadBytes(d))
    ensures ParseDownload(data, pos) == Ok((d, pos + |DownloadBytes(d)|))
  {
    hide ParseHead, ParseTables, ParseSections, HeadBytes, TablesBytes, SectionsBytes, HeadFormed, TablesFormed, SectionsFormed, Holds;
    ThreeParts(data, pos, HeadBytes(d.head), TablesBytes(d.tables), SectionsBytes(d.sections));
    var p1 := pos + |HeadBytes(d.head)|;
    var p2 := p1 + |TablesBytes(d.tables)|;
    HeadExactly(data, pos, d.head, p1);
    TablesFound(data, p1, d.head.header, d.tables);
    SectionsFound(data, p2, d.head.header, d.tables.segments, d.sections);
    JoinDownload(data, pos, d, p1, p2, p2 + |SectionsBytes(d.sections)|);
  }

  // ----- where everything in a record stands

  /** Header word k of a record, straight from the file. */
  function HeaderWord(data: seq<Byte>, pos: nat, k: nat): Word
    requires Fit(data, pos, FILE_HEADER_SIZE) && k < 17
  {
    Read16(data, pos + 48 + 2 * k)
  }

  lemma {:induction false} UnpackedAt(data: seq<Byte>, pos: nat, n: nat, k: nat)
    requires Fit(data, pos, 2 * n) && k < n
    ensures Unpack(data, pos, n)[k] == Read16(data, pos + 2 * k)
    decreases n
  {
    hide Read16;
    if k != 0 {
      UnpackedAt(data, pos + 2, n - 1, k - 1);
    }
  }

  lemma {:induction false} RowStands(data: seq<Byte>, pos: nat, rows: seq<Row>, width: nat, i: nat)
    requires Uniform(rows, width) && Holds(data, pos, TableBytes(rows)) && i < |rows| && 0 < width <= 5
    ensures Fit(data, pos + 2 * width * i, 2 * width) && Unpack(data, pos + 2 * width * i, width) == rows[i]
    decreases i
  {
    hide Holds, Unpack, Pack;
    HoldsConcat(data, pos, Pack(rows[0]), TableBytes(rows[1..]));
    if i == 0 {
      PackExactly(data, pos, rows[0]);
    } else {
      RowStands(data, pos + 2 * width, rows[1..], width, i - 1);
      OneRowOn(pos, width, i);
    }
  }

  lemma OneRowOn(pos: nat, width: nat, i: nat)
    requires 0 < i
    ensures pos + 2 * width + 2 * width * (i - 1) == pos + 2 * width * i
  {
  }

  /** The bytes between the header and the first table. */
  ghost predicate HeadStands(data: seq<Byte>, pos: nat, d: Download, tables: nat) {
    && Fit(data, pos, FILE_HEADER_SIZE) && data[pos..pos + 48] == FILE_MAGIC
    && HeaderWord(data, pos, 0) == FORMAT_VERSION && FILE_HEADER_SIZE <= HeaderWord(data, pos, 5)
    && tables == pos + HeaderWord(data, pos, 5) + HeaderWord(data, pos, 6) <= |data|
    && d.head.excess == data[pos + FILE_HEADER_SIZE..pos + HeaderWord(data, pos, 5)]
    && d.head.description == data[pos + HeaderWord(data, pos, 5)..tables]
  }

  /** A table of `count` rows of `width` words that takes `size` bytes. */
  ghost predicate TableStands(data: seq<Byte>, pos: nat, rows: seq<Row>, width: nat, size: nat, count: nat) {
    && |rows| == count && size == 2 * width * count && Fit(data, pos, size)
    && forall i :: 0 <= i < count ==> RowAt(data, pos, rows, width, i)
  }

  ghost predicate RowAt(data: seq<Byte>, pos: nat, rows: seq<Row>, width: nat, i: nat) {
    i < |rows| && Fit(data, pos + 2 * width * i, 2 * width) && Unpack(data, pos + 2 * width * i, width) == rows[i]
  }

  /** Which header word counts what, and where each part of an accepted record
      stands: the sizes add up from the front, and each count is that of its own
      table or section. */
  lemma RecordLayout(data: seq<Byte>, pos: nat, d: Download, end: nat)
    requires ParseDownload(data, pos) == Ok((d, end))
    ensures Fit(data, pos, FILE_HEADER_SIZE)
    ensures forall k :: 0 <= k < 17 ==> d.head.header.fields[k] == HeaderWord(data, pos, k)
    ensures var memory := pos + HeaderWord(data, pos, 5) + HeaderWord(data, pos, 6);
            var segments := memory + HeaderWord(data, pos, 7);
            var symbols := segments + HeaderWord(data, pos, 9);
            var dm := symbols + HeaderWord(data, pos, 11);
            var pm := dm + HeaderWord(data, pos, 13);
            && HeadStands(data, pos, d, memory)
            && TableStands(data, memory, d.tables.memory, 4, HeaderWord(data, pos, 7), HeaderWord(data, pos, 8))
            && TableStands(data, segments, d.tables.segments, 5, HeaderWord(data, pos, 9), HeaderWord(data, pos, 10))
            && TableStands(data, symbols, d.tables.symbols, 4, HeaderWord(data, pos, 11), HeaderWord(data, pos, 12))
            && |d.sections.dm| == HeaderWord(data, pos, 14) && |d.sections.pm| == HeaderWord(data, pos, 16)
            && Holds(data, dm, SectionBytes(d.sections.dm)) && |SectionBytes(d.sections.dm)| == HeaderWord(data, pos, 13)
            && Holds(data, pm, SectionBytes(d.sections.pm)) && |SectionBytes(d.sections.pm)| == HeaderWord(data, pos, 15)
            && end == pm + HeaderWord(data, pos, 15)
  {
    hide ParseDownload, HeadBytes, TablesBytes, SectionsBytes, HeadStands, TableStands, Holds, SectionBytes, TableBytes,
         HeaderWord;
    DownloadExactly(data, pos, d, end);
    ThreeParts(data, pos, HeadBytes(d.head), TablesBytes(d.tables), SectionsBytes(d.sections));
    HeadLayout(data, pos, d.head);
    HeadPlaced(data, pos, d);
    var memory := pos + |HeadBytes(d.head)|;
    TablesPlaced(data, memory, d.tables);
    var dm := memory + |TablesBytes(d.tables)|;
    SectionsPlaced(data, dm, d.sections);
  }

  lemma HeadPlaced(data: seq<Byte>, pos: nat, d: Download)
    requires HeadFormed(d.head) && Holds(data, pos, HeadBytes(d.head))
    ensures Fit(data, pos, FILE_HEADER_SIZE)
    ensures forall k :: 0 <= k < 17 ==> d.head.header.fields[k] == HeaderWord(data, pos, k)
    ensures HeadStands(data, pos, d, pos + |HeadBytes(d.head)|)
    ensures |HeadBytes(d.head)| == HeaderWord(data, pos, 5) + HeaderWord(data, pos, 6)
  {
    hide Holds, HeadBytes, Unpack;
    HeadLayout(data, pos, d.head);
    forall k | 0 <= k < 17
      ensures d.head.header.fields[k] == HeaderWord(data, pos, k)
    {
      UnpackedAt(data, pos + 48, 17, k);
    }
  }

  lemma TablesPlaced(data: seq<Byte>, pos: nat, t: Tables)
    requires Holds(data, pos, TablesBytes(t)) && Uniform(t.memory, 4) && Uniform(t.symbols, 4)
    ensures var segments := pos + 8 * |t.memory|;
            var symbols := segments + 10 * |t.segments|;
            && |TablesBytes(t)| == 8 * |t.memory| + 10 * |t.segments| + 8 * |t.symbols|
            && TableStands(data, pos, t.memory, 4, 8 * |t.memory|, |t.memory|)
            && TableStands(data, segments, t.segments, 5, 10 * |t.segments|, |t.segments|)
            && TableStands(data, symbols, t.symbols, 4, 8 * |t.symbols|, |t.symbols|)
  {
    hide Holds, TableBytes, TableStands;
    TableLength(t.memory, 4);
    TableLength(t.segments, 5);
    TableLength(t.symbols, 4);
    ThreeParts(data, pos, TableBytes(t.memory), TableBytes(t.segments), TableBytes(t.symbols));
    TablePlaced(data, pos, t.memory, 4);
    TablePlaced(data, pos + 8 * |t.memory|, t.segments, 5);
    TablePlaced(data, pos + 8 * |t.memory| + 10 * |t.segments|, t.symbols, 4);
  }

  lemma TablePlaced(data: seq<Byte>, pos: nat, rows: seq<Row>, width: nat)
    requires Uniform(rows, width) && Holds(data, pos, TableBytes(rows)) && 0 < width <= 5
    ensures TableStands(data, pos, rows, width, 2 * width * |rows|, |rows|)
  {
    hide Holds, TableBytes, Unpack;
    TableLength(rows, width);
    HoldsWithin(data, pos, TableBytes(rows));
    forall i | 0 <= i < |rows|
      ensures RowAt(data, pos, rows, width, i)
    {
      RowStands(data, pos, rows, width, i);
    }
  }

  lemma SectionsPlaced(data: seq<Byte>, pos: nat, s: Sections)
    requires Holds(data, pos, SectionsBytes(s))
    ensures Holds(data, pos, SectionBytes(s.dm)) && Holds(data, pos + |SectionBytes(s.dm)|, SectionBytes(s.pm))
    ensures |SectionsBytes(s)| == |SectionBytes(s.dm)| + |SectionBytes(s.pm)|
  {
    hide Holds, SectionBytes;
    HoldsConcat(data, pos, SectionBytes(s.dm), SectionBytes(s.pm));
  }

  // ----- whole files

  /** A usage mask and the record it belongs to. */
  datatype Entry = Entry(mask: seq<Byte>, download: Download)

  type CombiFields = f: seq<Word> | |f| == 7 witness [0, 0, 0, 0, 0, 0, 0]

  datatype CombiHeader = CombiHeader(fields: CombiFields)
  {
    function Version(): Word { fields[0] }
    function HeaderSize(): Word { fields[1] }
    function DescriptionSize(): Word { fields[2] }
    function DirectoryEntries(): Word { fields[3] }
    function DirectorySize(): Word { fields[4] }
    function DownloadCount(): Word { fields[5] }
    function MaskSize(): Word { fields[6] }
  }

  /** `slack` and `directorySlack` are bytes the format allows and nobody reads. */
  datatype Front = Front(header: CombiHeader, slack: seq<Byte>, description: seq<Byte>, directory: seq<Row>,
                         directorySlack: seq<Byte>)

  datatype File = File(front: Front, entries: seq<Entry>)

  predicate FrontFormed(f: Front) {
    && f.header.Version() == FORMAT_VERSION
    && f.header.HeaderSize() == COMBI_HEADER_SIZE + |f.slack|
    && f.header.DescriptionSize() == |f.description|
    && f.header.DirectoryEntries() == |f.directory| && Uniform(f.directory, 2)
    && f.header.DirectorySize() == 4 * |f.directory| + |f.directorySlack|
  }

  ghost function EntryFormed(maskSize: nat): Entry -> bool {
    (e: Entry) => |e.mask| == maskSize && DownloadFormed(e.download)
  }

  ghost predicate FileFormed(f: File) {
    && FrontFormed(f.front)
    && f.front.header.DownloadCount() == |f.entries| && All(EntryFormed(f.front.header.MaskSize()), f.entries)
  }

  function FrontBytes(f: Front): seq<Byte> {
    COMBI_MAGIC + (Pack(f.header.fields) + (f.slack + (f.description + (TableBytes(f.directory) + f.directorySlack))))
  }

  function EntryBytes(): Entry -> seq<Byte> { (e: Entry) => e.mask + DownloadBytes(e.download) }

  /** The layout of a combifile: header, directory, then masks and records. */
  function FileBytes(f: File): seq<Byte> { FrontBytes(f.front) + Concat(EntryBytes(), f.entries) }

  function ParseFront(data: seq<Byte>): Result<(Front, nat)> {
    if !Fit(data, 0, COMBI_HEADER_SIZE) then Err(Truncated)
    else
      hide Unpack;
      var header := CombiHeader(Unpack(data, 48, 7));
      var size := header.HeaderSize();
      if data[0..48] != COMBI_MAGIC then Err(BadMagic)
      else if header.Version() != FORMAT_VERSION then Err(BadVersion)
      else if size < COMBI_HEADER_SIZE then Err(HeaderTooSmall)
      else if !Fit(data, size, header.DescriptionSize()) then Err(Truncated)
      else
        var middle := size + header.DescriptionSize();
        var rows := 4 * header.DirectoryEntries();
        if header.DirectorySize() < rows then Err(DirectoryTooShort)
        else if !Fit(data, middle, header.DirectorySize()) then Err(Truncated)
        else
          var directory :- Many(RowParser(data, 2), middle, header.DirectoryEntries());
          var end := middle + header.DirectorySize();
          Ok((Front(header, data[COMBI_HEADER_SIZE..size], data[size..middle], directory.0,
                    data[middle + rows..end]), end))
  }

  function EntryParser(data: seq<Byte>, maskSize: nat): Parser<Entry> {
    (pos: nat) =>
      if !Fit(data, pos, maskSize) then Err(Truncated)
      else
        var download :- ParseDownload(data, pos + maskSize);
        Ok((Entry(data[pos..pos + maskSize], download.0), download.1))
  }

  function ParseFile(data: seq<Byte>): Result<File> {
    var front :- ParseFront(data);
    var entries :- Many(EntryParser(data, front.0.header.MaskSize()), front.1, front.0.header.DownloadCount());
    if entries.1 != |data| then Err(TrailingBytes) else Ok(File(front.0, entries.0))
  }

  lemma EntriesExact(data: seq<Byte>, maskSize: nat)
    ensures Exact(data, EntryParser(data, maskSize), EntryBytes(), EntryFormed(maskSize))
  {
    forall pos: nat, e: Entry, end: nat
      ensures ExactAt(data, EntryParser(data, maskSize), EntryBytes(), EntryFormed(maskSize), pos, e, end)
    {
      EntryExactly(data, maskSize, pos, e, end);
    }
  }

  lemma EntryExactly(data: seq<Byte>, maskSize: nat, pos: nat, e: Entry, end: nat)
    ensures ExactAt(data, EntryParser(data, maskSize), EntryBytes(), EntryFormed(maskSize), pos, e, end)
  {
    hide ParseDownload, DownloadBytes, DownloadFormed;
    var record := DownloadBytes(e.download);
    HoldsConcat(data, pos, e.mask, record);
    DownloadExactly(data, pos + maskSize, e.download, end);
    assert EntryParser(data, maskSize)(pos) == Ok((e, end))
      <==> Fit(data, pos, maskSize) && data[pos..pos + maskSize] == e.mask
           && ParseDownload(data, pos + maskSize) == Ok((e.download, end));
    assert |e.mask| == maskSize ==>
      (Holds(data, pos, e.mask) <==> Fit(data, pos, maskSize) && data[pos..pos + maskSize] == e.mask);
  }

  lemma DirectoryRead(data: seq<Byte>, pos: nat, rows: seq<Row>)
    requires Fit(data, pos, 4 * |rows|)
    ensures Many(RowParser(data, 2), pos, |rows|).Ok?
    ensures Many(RowParser(data, 2), pos, |rows|).value.0 == rows
            <==> Uniform(rows, 2) && Holds(data, pos, TableBytes(rows))
  {
    RowsAlwaysFit(data, 2, pos, |rows|);
    var r := Many(RowParser(data, 2), pos, |rows|).value;
    RowsExact(data, 2);
    UniformRows(rows, 2);
    ManyExactly(data, RowParser(data, 2), RowBytes(), OfWidth(2), pos, rows, pos + |TableBytes(rows)|);
    ManyExactly(data, RowParser(data, 2), RowBytes(), OfWidth(2), pos, rows, r.1);
  }

  lemma {:induction false} RowsAlwaysFit(data: seq<Byte>, width: nat, pos: nat, count: nat)
    requires width == 2 && Fit(data, pos, 4 * count)
    ensures Many(RowParser(data, width), pos, count).Ok?
    decreases count
  {
    if count != 0 {
      RowsAlwaysFit(data, width, pos + 4, count - 1);
    }
  }

  ghost predicate FrontRead(data: seq<Byte>, f: Front)
    requires Uniform(f.directory, 2)
  {
    var p1 := COMBI_HEADER_SIZE + |f.slack|;
    var p2 := p1 + |f.description|;
    var p3 := p2 + 4 * |f.directory|;
    && Fit(data, p3, |f.directorySlack|)
    && data[0..48] == COMBI_MAGIC && Unpack(data, 48, 7) == f.header.fields
    && data[COMBI_HEADER_SIZE..p1] == f.slack && data[p1..p2] == f.description
    && Holds(data, p2, TableBytes(f.directory)) && data[p3..p3 + |f.directorySlack|] == f.directorySlack
  }

  lemma FrontLayout(data: seq<Byte>, f: Front)
    requires Uniform(f.directory, 2)
    ensures Holds(data, 0, FrontBytes(f)) <==> FrontRead(data, f)
    ensures |FrontBytes(f)| == COMBI_HEADER_SIZE + |f.slack| + |f.description| + 4 * |f.directory| + |f.directorySlack|
  {
    hide Pack, Unpack, TableBytes;
    TableLength(f.directory, 2);
    SixParts(data, 0, COMBI_MAGIC, Pack(f.header.fields), f.slack, f.description, TableBytes(f.directory),
             f.directorySlack);
    PackExactly(data, 48, f.header.fields);
  }

  lemma FrontExactly(data: seq<Byte>, f: Front, end: nat)
    ensures ParseFront(data) == Ok((f, end)) <==> FrontFormed(f) && Holds(data, 0, FrontBytes(f)) && end == |FrontBytes(f)|
  {
    if ParseFront(data) == Ok((f, end)) {
      FrontParsed(data, f, end);
    }
    if FrontFormed(f) && Holds(data, 0, FrontBytes(f)) {
      FrontFound(data, f);
    }
  }

  lemma FrontParsed(data: seq<Byte>, f: Front, end: nat)
    requires ParseFront(data) == Ok((f, end))
    ensures FrontFormed(f) && Holds(data, 0, FrontBytes(f)) && end == |FrontBytes(f)|
  {
    hide Unpack, TableBytes, FrontBytes, Many, RowParser, Holds;
    var middle := f.header.HeaderSize() + f.header.DescriptionSize();
    RowsUniform(data, 2, middle, f.header.DirectoryEntries());
    ManyCount(RowParser(data, 2), middle, f.header.DirectoryEntries());
    DirectoryRead(data, middle, f.directory);
    FrontLayout(data, f);
  }

  lemma FrontFound(data: seq<Byte>, f: Front)
    requires FrontFormed(f) && Holds(data, 0, FrontBytes(f))
    ensures ParseFront(data) == Ok((f, |FrontBytes(f)|))
  {
    hide Unpack, TableBytes, FrontBytes, Many, RowParser, Holds;
    FrontLayout(data, f);
    DirectoryRead(data, f.header.HeaderSize() + f.header.DescriptionSize(), f.directory);
  }

  /** The parser and the layout are inverse to each other: a file is accepted,
      with every byte accounted for, exactly when it is the layout of a
      well-formed value, and that value is what is returned. */
  lemma FileExactly(data: seq<Byte>, f: File)
    ensures ParseFile(data) == Ok(f) <==> FileFormed(f) && FileBytes(f) == data
  {
    hide ParseFront, FrontBytes, FrontFormed, Many, EntryParser, EntryBytes, EntryFormed, Concat, All;
    var start := |FrontBytes(f.front)|;
    var rest := Concat(EntryBytes(), f.entries);
    FrontExactly(data, f.front, start);
    HoldsConcat(data, 0, FrontBytes(f.front), rest);
    assert FileBytes(f) == data ==> data[0..|data|] == data;
    if ParseFront(data).Ok? {
      FrontExactly(data, ParseFront(data).value.0, ParseFront(data).value.1);
    }
    if ParseFront(data) == Ok((f.front, start)) && start <= |data| {
      var header := f.front.header;
      EntriesExact(data, header.MaskSize());
      ManyCount(EntryParser(data, header.MaskSize()), start, header.DownloadCount());
      ManyExactly(data, EntryParser(data, header.MaskSize()), EntryBytes(), EntryFormed(header.MaskSize()), start,
                  f.entries, |data|);
    }
  }

  /** Every block of every record of an accepted file is well formed for the
      segments of its own record. */
  lemma EntryWellFormed(data: seq<Byte>, f: File, k: nat)
    requires ParseFile(data) == Ok(f) && k < |f.entries|
    ensures var d := f.entries[k].download;
            && (forall b :: b in d.sections.dm ==> WellFormed(b, Dm, d.tables.segments))
            && (forall b :: b in d.sections.pm ==> WellFormed(b, Pm, d.tables.segments))
  {
    hide ParseFile, WellFormed;
    FileExactly(data, f);
    var d := f.entries[k].download;
    assert EntryFormed(f.front.header.MaskSize())(f.entries[k]);
    forall b | b in d.sections.dm
      ensures WellFormed(b, Dm, d.tables.segments)
    {
      assert Good(Dm, d.tables.segments)(b);
    }
    forall b | b in d.sections.pm
      ensures WellFormed(b, Pm, d.tables.segments)
    {
      assert Good(Pm, d.tables.segments)(b);
    }
  }

  /** So every value the parser returns, of any file it accepts, is the one stored
      for it, with the base of its segment where a relocation byte names one. */
  lemma FileValues(data: seq<Byte>, f: File, k: nat, domain: Domain, b: Block, i: nat)
    requires ParseFile(data) == Ok(f) && k < |f.entries|
    requires b in (if domain == Dm then f.entries[k].download.sections.dm else f.entries[k].download.sections.pm)
    requires i < b.words
    ensures |b.values| == b.words && HasContainer(b.attributes, b.payload, i)
    ensures var raw, segments := StoredAt(b.attributes, b.payload, i), f.entries[k].download.tables.segments;
            var relocation := raw / 0x100_0000;
            && 0 <= raw < 0x1_0000_0000
            && (relocation == 0 ==> b.values[i] == raw)
            && (relocation != 0 ==>
                  && relocation % 0x40 < |segments| + 4
                  && Relocated(domain, relocation / 0x40, raw % Modulus(domain), TargetBase(relocation, segments),
                               b.values[i]))
  {
    hide ParseFile, WellFormed, Relocated, StoredAt, HasContainer;
    EntryWellFormed(data, f, k);
    AcceptedValues(b, domain, f.entries[k].download.tables.segments, i);
  }

  /** Which header word counts what in the file itself, and where its front ends:
      header, description, directory, then the first usage mask. */
  lemma FrontStands(data: seq<Byte>, f: Front, end: nat)
    requires ParseFront(data) == Ok((f, end))
    ensures Fit(data, 0, COMBI_HEADER_SIZE) && forall k :: 0 <= k < 7 ==> f.header.fields[k] == Read16(data, 48 + 2 * k)
    ensures var size, description := Read16(data, 50), Read16(data, 52);
            && data[0..48] == COMBI_MAGIC && Read16(data, 48) == FORMAT_VERSION && COMBI_HEADER_SIZE <= size
            && end == size + description + Read16(data, 56) <= |data|
            && f.description == data[size..size + description]
            && 4 * |f.directory| <= Read16(data, 56)
            && TableStands(data, size + description, f.directory, 2, 4 * |f.directory|, Read16(data, 54))
            && f.header.DownloadCount() == Read16(data, 58) && f.header.MaskSize() == Read16(data, 60)
  {
    hide ParseFront, FrontBytes, Holds, TableBytes, TableStands, Unpack, Read16;
    FrontExactly(data, f, end);
    FrontLayout(data, f);
    forall k | 0 <= k < 7
      ensures f.header.fields[k] == Read16(data, 48 + 2 * k)
    {
      UnpackedAt(data, 48, 7, k);
    }
    TableLength(f.directory, 2);
    TablePlaced(data, COMBI_HEADER_SIZE + |f.slack| + |f.description|, f.directory, 2);
  }

  // ----- the cursor over a file

  method ReadTable(data: seq<Byte>, pos: nat, size: Word, count: Word, width: nat) returns (r: Result<(seq<Row>, nat)>)
    ensures r == ParseTable(data, pos, size, count, width)
  {
    if size != 2 * width * count {
      return Err(TableMismatch);
    }
    r := Repeat(RowParser(data, width), pos, count);
  }

  method ReadDownload(data: seq<Byte>, start: nat) returns (r: Result<(Download, nat)>)
    ensures r == ParseDownload(data, start)
  {
    hide ParseHead, ParseTable, ParseSection;
    var head :- ParseHead(data, start);
    var h, pos := head.0.header, head.1;
    var memory :- ReadTable(data, pos, h.MemorySize(), h.MemoryCount(), 4);
    var segments :- ReadTable(data, memory.1, h.SegmentSize(), h.SegmentCount(), 5);
    var symbols :- ReadTable(data, segments.1, h.SymbolSize(), h.SymbolCount(), 4);
    pos := symbols.1;
    var dm :- ParseBlocks(data, pos, h.DmSize(), h.DmCount(), Dm, segments.0);
    var pm :- ParseBlocks(data, dm.1, h.PmSize(), h.PmCount(), Pm, segments.0);
    r := Ok((Download(head.0, Tables(memory.0, segments.0, symbols.0), Sections(dm.0, pm.0)), pm.1));
  }

  /** Directory first, then one usage mask and one record at a time. */
  method ReadCombifile(data: seq<Byte>) returns (r: Result<File>)
    ensures r == ParseFile(data)
  {
    hide ParseFront, ParseDownload;
    var front :- ParseFront(data);
    var count, size := front.0.header.DownloadCount(), front.0.header.MaskSize();
    ghost var parse := EntryParser(data, size);
    var entries: seq<Entry>, pos: nat := [], front.1;
    AfterNothing(Many(parse, pos, count));
    for index := 0 to count
      invariant Many(parse, front.1, count) == After(entries, Many(parse, pos, count - index))
    {
      if !Fit(data, pos, size) {
        return Err(Truncated);
      }
      var mask := data[pos..pos + size];
      var download := ReadDownload(data, pos + size);
      if download.Err? {
        return Err(download.error);
      }
      AfterOneMore(entries, parse, pos, count - index);
      entries, pos := entries + [Entry(mask, download.value.0)], download.value.1;
    }
    assert entries + [] == entries;
    return if pos != |data| then Err(TrailingBytes) else Ok(File(front.0, entries));
  }
}
