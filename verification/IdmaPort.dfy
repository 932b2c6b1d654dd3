/**
 The memory-mapped IDMA ports of the four DSP blocks (_dsp_block_for_mmio and
 _dsp_mmio_write of tools/analog_mips_boot.py).
 */
module IdmaPort {
  import opened Arithmetic
  import opened Bytes
  import opened DataBlocks

  const MEMORY := 0x4000

  type Memory = m: seq<int> | |m| == MEMORY witness seq(MEMORY, _ => 0)

  function Cleared(): (m: Memory)
    ensures forall a :: 0 <= a < MEMORY ==> m[a] == 0
  {
    seq(MEMORY, _ => 0)
  }

  datatype Half = Nothing | First(word: Word)

  /** One block's port: the IDMA address, a pending program-memory half word,
      and the memories behind it. */
  datatype Port = Port(address: Word, half: Half, pm: Memory, dm: Memory)

  datatype Decoded = Elsewhere | At(block: int, offset: nat)

  const WINDOWS := [0x1F80_1800, 0x1F80_2800, 0x1F80_3800, 0x1F80_4800]

  /** The block a window address belongs to, under its uncached name. */
  function Decode(address: int): Decoded {
    if 0x1F80_1800 <= address < 0x1F80_1900 then At(0xBF80_1800, address - 0x1F80_1800)
    else if 0x1F80_2800 <= address < 0x1F80_2900 then At(0xBF80_2800, address - 0x1F80_2800)
    else if 0x1F80_3800 <= address < 0x1F80_3900 then At(0xBF80_3800, address - 0x1F80_3800)
    else if 0x1F80_4800 <= address < 0x1F80_4900 then At(0xBF80_4800, address - 0x1F80_4800)
    else Elsewhere
  }

  const BLOCKS: set<int> := {0xBF80_1800, 0xBF80_2800, 0xBF80_3800, 0xBF80_4800}

  /** A window is exactly the 256 bytes above its base. */
  lemma DecodesWindows(address: int)
    ensures match Decode(address)
            case At(block, offset) =>
              block in BLOCKS && offset < 0x100 && address == block - 0xA000_0000 + offset
            case Elsewhere =>
              forall i :: 0 <= i < |WINDOWS| ==> !(WINDOWS[i] <= address < WINDOWS[i] + 0x100)
  {
  }

  predicate DataSide(address: Word) { address / 0x4000 % 2 == 1 }

  /** Bit 14 of an address decides between the memories. */
  lemma DataSideExactly(address: Word)
    ensures DataSide(address) <==> 0x4000 <= address < 0x8000 || 0xC000 <= address
  {
  }

  /** What a write of one host word does to a port. */
  function Written(p: Port, offset: nat, word: Word): Port {
    if offset == 8 then p.(address := word, half := Nothing)
    else if offset != 0 then p
    else
      var cell := p.address % MEMORY;
      if DataSide(p.address) then p.(dm := p.dm[cell := word], address := 0x4000 + (p.address + 1) % MEMORY)
      else if p.half == Nothing then p.(half := First(word))
      else
        p.(pm := p.pm[cell := p.half.word * 0x100 + word % 0x100], address := (p.address + 1) % MEMORY, half := Nothing)
  }

  type Ports = m: map<int, Port> | m.Keys == BLOCKS
    witness var p := Port(0, Nothing, Cleared(), Cleared());
            map[0xBF80_1800 := p, 0xBF80_2800 := p, 0xBF80_3800 := p, 0xBF80_4800 := p]

  function AllWritten(ports: Ports, address: int, value: int): Ports {
    match Decode(address)
    case Elsewhere => ports
    case At(block, offset) => ports[block := Written(ports[block], offset, value % 0x10000)]
  }

  class DspPorts {
    var address: map<int, Word>
    var half: map<int, Half>
    var pm: map<int, Memory>
    var dm: map<int, Memory>

    constructor ()
      ensures State() == (map b | b in BLOCKS :: Port(0, Nothing, Cleared(), Cleared()))
    {
      address, half, pm, dm := map[], map[], map[], map[];
    }

    /** The port of a block; entries nobody has written yet are zero. */
    ghost function PortOf(block: int): Port
      reads this
    {
      Port(if block in address then address[block] else 0,
           if block in half then half[block] else Nothing,
           if block in pm then pm[block] else Cleared(),
           if block in dm then dm[block] else Cleared())
    }

    ghost function State(): Ports
      reads this
    {
      map b | b in BLOCKS :: PortOf(b)
    }

    method MmioWrite(target: int, value: int)
      modifies this
      ensures match Decode(target)
              case Elsewhere => forall b :: PortOf(b) == old(PortOf(b))
              case At(block, offset) =>
                && PortOf(block) == Written(old(PortOf(block)), offset, value % 0x10000)
                && forall b :: b != block ==> PortOf(b) == old(PortOf(b))
    {
      hide Cleared, Decode, DataSide;
      var decoded := Decode(target);
      if decoded == Elsewhere {
        return;
      }
      var block, offset, word := decoded.block, decoded.offset, value % 0x10000;
      if offset == 8 {
        address, half := address[block := word], half[block := Nothing];
        return;
      }
      if offset != 0 {
        return;
      }
      var idma := if block in address then address[block] else 0;
      if DataSide(idma) {
        StoreData(block, idma, word);
      } else {
        StoreProgram(block, idma, word);
      }
    }

    method StoreData(block: int, idma: Word, word: Word)
      requires DataSide(idma) && PortOf(block).address == idma
      modifies this
      ensures PortOf(block) == Written(old(PortOf(block)), 0, word)
      ensures forall b :: b != block ==> PortOf(b) == old(PortOf(b))
    {
      hide Cleared, DataSide;
      var memory := if block in dm then dm[block] else Cleared();
      dm := dm[block := memory[idma % MEMORY := word]];
      address := address[block := 0x4000 + (idma + 1) % MEMORY];
    }

    method StoreProgram(block: int, idma: Word, word: Word)
      requires !DataSide(idma) && PortOf(block).address == idma
      modifies this
      ensures PortOf(block) == Written(old(PortOf(block)), 0, word)
      ensures forall b :: b != block ==> PortOf(b) == old(PortOf(b))
    {
      hide Cleared, DataSide;
      var memory := if block in pm then pm[block] else Cleared();
      var first := if block in half then half[block] else Nothing;
      if first == Nothing {
        pm, half := pm[block := memory], half[block := First(word)];
      } else {
        pm := pm[block := memory[idma % MEMORY := first.word * 0x100 + word % 0x100]];
        address := address[block := (idma + 1) % MEMORY];
        half := half[block := Nothing];
      }
    }

    /** Together, the four ports follow AllWritten. */
    method Serve(w: Write)
      modifies this
      ensures State() == AllWritten(old(State()), w.address, w.value)
    {
      hide Written, Decode;
      ghost var after := AllWritten(State(), w.address, w.value);
      MmioWrite(w.address, w.value);
      assert forall b :: b in BLOCKS ==> State()[b] == after[b];
    }

    /** Any run of writes, each one a separate call of the hook. */
    method ServeAll(writes: seq<Write>)
      modifies this
      ensures State() == Run(old(State()), writes)
    {
      assert writes[0..] == writes;
      for i := 0 to |writes|
        invariant Run(old(State()), writes) == Run(State(), writes[i..])
      {
        assert writes[i..][1..] == writes[i + 1..];
        Serve(writes[i]);
      }
    }
  }

  // ----- runs of writes

  datatype Write = Write(address: int, value: int)

  function Run(ports: Ports, writes: seq<Write>): Ports
    decreases writes
  {
    if writes == [] then ports else Run(AllWritten(ports, writes[0].address, writes[0].value), writes[1..])
  }

  /** Writes that reach one block, as offsets and words. */
  function Reaching(writes: seq<Write>, block: int): seq<(nat, Word)> {
    if writes == [] then []
    else
      var d := Decode(writes[0].address);
      var rest := Reaching(writes[1..], block);
      if d.At? && d.block == block then [(d.offset, writes[0].value % 0x10000)] + rest else rest
  }

  function RunPort(p: Port, writes: seq<(nat, Word)>): Port
    decreases writes
  {
    if writes == [] then p else RunPort(Written(p, writes[0].0, writes[0].1), writes[1..])
  }

  /** Blocks do not disturb each other: however a block's writes are interleaved
      with traffic to the rest, it ends as if it had been written alone. */
  lemma {:induction false} BlocksAreSeparate(ports: Ports, writes: seq<Write>, block: int)
    requires block in BLOCKS
    ensures Run(ports, writes)[block] == RunPort(ports[block], Reaching(writes, block))
    decreases writes
  {
    hide Written;
    if writes != [] {
      BlocksAreSeparate(AllWritten(ports, writes[0].address, writes[0].value), writes[1..], block);
      var d := Decode(writes[0].address);
      if d.At? && d.block == block {
        var reaching := Reaching(writes, block);
        assert reaching[1..] == Reaching(writes[1..], block);
      }
    }
  }

  // ----- streaming a block of program memory

  /** The words of a payload, each written to the data register. */
  function Stream(words: seq<Word>): seq<(nat, Word)> { seq(|words|, i requires 0 <= i < |words| => (0, words[i])) }

  /** Memory after storing the values from `start` on, round the end. */
  function Stored(pm: Memory, start: nat, values: seq<int>): Memory
    decreases values
  {
    if values == [] then pm else Stored(pm[start % MEMORY := values[0]], start + 1, values[1..])
  }

  /** The instruction two host words carry. */
  function Instruction(first: Word, second: Word): int { first * 0x100 + second % 0x100 }

  function Instructions(words: seq<Word>): (s: seq<int>)
    ensures |s| == |words| / 2
  {
    seq(|words| / 2, i requires 0 <= i < |words| / 2 => Instruction(words[2 * i], words[2 * i + 1]))
  }

  lemma OnePair(p: Port, first: Word, second: Word, rest: seq<(nat, Word)>)
    requires p.half == Nothing && !DataSide(p.address)
    ensures RunPort(p, [(0, first), (0, second)] + rest)
         == RunPort(p.(pm := p.pm[p.address % MEMORY := Instruction(first, second)], address := (p.address + 1) % MEMORY),
                    rest)
  {
    var writes := [(0, first), (0, second)] + rest;
    var half := Written(p, 0, first);
    assert writes[1..] == [(0, second)] + rest;
    assert writes[1..][1..] == rest;
    assert RunPort(half, writes[1..]) == RunPort(Written(half, 0, second), rest);
  }

  lemma {:induction false} StreamStores(p: Port, words: seq<Word>)
    requires p.half == Nothing && !DataSide(p.address) && |words| % 2 == 0
    ensures RunPort(p, Stream(words)).pm == Stored(p.pm, p.address, Instructions(words))
    ensures RunPort(p, Stream(words)).half == Nothing && RunPort(p, Stream(words)).dm == p.dm
    decreases words
  {
    if words != [] {
      var rest := words[2..];
      var values := Instructions(words);
      assert Stream(words) == [(0, words[0]), (0, words[1])] + Stream(rest);
      assert values == [Instruction(words[0], words[1])] + Instructions(rest);
      OnePair(p, words[0], words[1], Stream(rest));
      var next := p.(pm := p.pm[p.address % MEMORY := values[0]], address := (p.address + 1) % MEMORY);
      StreamStores(next, rest);
      StoredModulo(next.pm, next.address, p.address + 1, values[1..]);
    }
  }

  /** On the data side every host word is a value of its own, and the pending
      half of a program word, if any, is not disturbed. */
  lemma {:induction false} DataStreamStores(p: Port, words: seq<Word>)
    requires DataSide(p.address)
    ensures RunPort(p, Stream(words)).dm == Stored(p.dm, p.address, words)
    ensures RunPort(p, Stream(words)).pm == p.pm && RunPort(p, Stream(words)).half == p.half
    decreases words
  {
    if words != [] {
      var rest := words[1..];
      assert Stream(words) == [(0, words[0])] + Stream(rest);
      assert Stream(words)[1..] == Stream(rest);
      var next := Written(p, 0, words[0]);
      NextCell(p.address);
      DataStreamStores(next, rest);
      StoredModulo(next.dm, next.address, p.address + 1, rest);
    }
  }

  lemma NextCell(address: Word)
    ensures DataSide(0x4000 + (address + 1) % MEMORY)
    ensures (0x4000 + (address + 1) % MEMORY) % MEMORY == (address + 1) % MEMORY
  {
    DivisionIs(0x4000 + (address + 1) % MEMORY, MEMORY, 1, (address + 1) % MEMORY);
  }

  lemma {:induction false} StoredModulo(pm: Memory, start: nat, start': nat, values: seq<int>)
    requires start % MEMORY == start' % MEMORY
    ensures Stored(pm, start, values) == Stored(pm, start', values)
    decreases values
  {
    if values != [] {
      StoredModulo(pm[start % MEMORY := values[0]], start + 1, start' + 1, values[1..]);
    }
  }

  /** Steps from one address to another, upwards round the end. */
  function Distance(start: int, a: int): nat { (a - start) % MEMORY }

  lemma OneStepNearer(start: int, a: int)
    requires 0 < Distance(start, a)
    ensures Distance(start + 1, a) == Distance(start, a) - 1
  {
    DivisionIs(a - (start + 1), MEMORY, (a - start) / MEMORY, Distance(start, a) - 1);
  }

  lemma AllTheWayRound(start: int)
    ensures Distance(start + 1, start % MEMORY) == MEMORY - 1
  {
    DivisionIs(start % MEMORY - (start + 1), MEMORY, -(start / MEMORY) - 1, MEMORY - 1);
  }

  lemma NoDistance(start: int, a: int)
    requires 0 <= a < MEMORY && start % MEMORY == a
    ensures Distance(start, a) == 0
  {
    DivisionIs(a - start, MEMORY, -(start / MEMORY), 0);
  }

  /** An address the values do not reach keeps what it held. */
  lemma {:induction false} OutOfReach(pm: Memory, start: nat, values: seq<int>, a: nat)
    requires a < MEMORY && |values| <= Distance(start, a)
    ensures Stored(pm, start, values)[a] == pm[a]
    decreases values
  {
    if values != [] {
      OneStepNearer(start, a);
      if start % MEMORY == a {
        NoDistance(start, a);
      }
      OutOfReach(pm[start % MEMORY := values[0]], start + 1, values[1..], a);
    }
  }

  /** Each value stands at its own address until a later one comes round to it. */
  lemma {:induction false} StandsInPlace(pm: Memory, start: nat, values: seq<int>, i: nat)
    requires i < |values| <= i + MEMORY
    ensures Stored(pm, start, values)[(start + i) % MEMORY] == values[i]
    decreases values
  {
    var first := pm[start % MEMORY := values[0]];
    if i == 0 {
      AllTheWayRound(start);
      OutOfReach(first, start + 1, values[1..], start % MEMORY);
    } else {
      StandsInPlace(first, start + 1, values[1..], i - 1);
    }
  }

  // ----- agreement with the extractor

  /** The instruction a container's two host words carry is the container
      without its relocation byte. */
  lemma ContainerInstruction(data: seq<Byte>, pos: nat)
    requires Fit(data, pos, 4)
    ensures Instruction(Read16(data, pos), Read16(data, pos + 2)) == Container(4, Pm, data, pos) % 0x100_0000
  {
    var low: int, b2: int, b3: int := Read16(data, pos), data[pos + 2], data[pos + 3];
    HostWords(low, b2, b3);
    DivisionIs(Container(4, Pm, data, pos), 0x100_0000, b3, low * 0x100 + b2);
  }

  function WithoutRelocation(raw: seq<int>): (s: seq<int>)
    ensures |s| == |raw|
  {
    seq(|raw|, i requires 0 <= i < |raw| => raw[i] % 0x100_0000)
  }

  lemma {:induction false} PayloadInstructions(data: seq<Byte>, pos: nat, n: nat)
    requires Fit(data, pos, 4 * n)
    ensures Instructions(Unpack(data, pos, 2 * n)) == WithoutRelocation(Containers(4, Pm, data, pos, n))
    decreases n
  {
    hide Container, Read16, Instruction, Instructions, Unpack;
    if n != 0 {
      TwoWords(data, pos, n);
      ContainerInstruction(data, pos);
      PayloadInstructions(data, pos + 4, n - 1);
      InstructionsSplit(Unpack(data, pos, 2 * n));
      OneWithout(Container(4, Pm, data, pos), Containers(4, Pm, data, pos + 4, n - 1));
    } else {
      assert Unpack(data, pos, 0) == [];
      InstructionsNone();
    }
  }

  lemma InstructionsNone()
    ensures Instructions([]) == []
  {
  }

  lemma OneWithout(first: int, rest: seq<int>)
    ensures WithoutRelocation([first] + rest) == [first % 0x100_0000] + WithoutRelocation(rest)
  {
  }

  lemma TwoWords(data: seq<Byte>, pos: nat, n: nat)
    requires 0 < n && Fit(data, pos, 4 * n)
    ensures var words := Unpack(data, pos, 2 * n);
            words[0] == Read16(data, pos) && words[1] == Read16(data, pos + 2)
            && words[2..] == Unpack(data, pos + 4, 2 * (n - 1))
  {
    hide Read16;
    var later := Unpack(data, pos + 2, 2 * n - 1);
    assert Unpack(data, pos, 2 * n) == [Read16(data, pos)] + later;
    assert later == [Read16(data, pos + 2)] + Unpack(data, pos + 4, 2 * (n - 1));
  }

  lemma InstructionsSplit(words: seq<Word>)
    requires 2 <= |words|
    ensures Instructions(words) == [Instruction(words[0], words[1])] + Instructions(words[2..])
  {
  }

  /** No container of the block carries a relocation byte. */
  predicate Unrelocated(b: Block)
    requires |b.payload| == PayloadSize(b.attributes, b.words)
  {
    forall i :: 0 <= i < b.words ==>
      Containers(Width(b.attributes), DomainOf(b.attributes), b.payload, 0, b.words)[i] < 0x100_0000
  }

  /** That is, the top byte of every container stored is zero. */
  lemma UnrelocatedExactly(b: Block)
    requires |b.payload| == PayloadSize(b.attributes, b.words)
    ensures forall i :: 0 <= i < b.words ==> HasContainer(b.attributes, b.payload, i)
    ensures Unrelocated(b) <==> forall i :: 0 <= i < b.words ==> StoredAt(b.attributes, b.payload, i) < 0x100_0000
  {
    hide Container, StoredAt, HasContainer;
    var width, domain := Width(b.attributes), DomainOf(b.attributes);
    var raw := Containers(width, domain, b.payload, 0, b.words);
    forall i | 0 <= i < b.words
      ensures HasContainer(b.attributes, b.payload, i) && raw[i] == StoredAt(b.attributes, b.payload, i)
    {
      ContainersAt(width, domain, b.payload, 0, b.words, i);
      StoredIsContainer(b.attributes, b.payload, i);
    }
  }

  /** Streaming the payload of an unrelocated DWORD program-memory block into a
      port after an address write, however it is interleaved with traffic to
      the other blocks, stores the very instructions the extractor decoded. */
  lemma StreamedBlock(ports: Ports, writes: seq<Write>, block: int, start: Word, b: Block, segments: seq<Row>)
    requires block in BLOCKS && !DataSide(start)
    requires WellFormed(b, Pm, segments) && IsDword(b.attributes) && Unrelocated(b)
    requires Reaching(writes, block) == [(8, start)] + Stream(Unpack(b.payload, 0, 2 * b.words))
    ensures Run(ports, writes)[block].pm == Stored(ports[block].pm, start, b.values)
    ensures forall i :: 0 <= i < |b.values| <= i + MEMORY ==>
                          Run(ports, writes)[block].pm[(start + i) % MEMORY] == b.values[i]
    ensures Run(ports, writes)[block].dm == ports[block].dm
  {
    hide Run, Reaching, Stored, Unpack, Containers, Resolve;
    BlocksAreSeparate(ports, writes, block);
    var p := ports[block];
    var words := Unpack(b.payload, 0, 2 * b.words);
    assert ([(8, start)] + Stream(words))[1..] == Stream(words);
    StreamStores(p.(address := start, half := Nothing), words);
    PayloadInstructions(b.payload, 0, b.words);
    var raw := Containers(4, Pm, b.payload, 0, b.words);
    UnrelocatedValues(b, segments);
    assert Instructions(words) == b.values;
    forall i | 0 <= i < |b.values| <= i + MEMORY
      ensures Stored(p.pm, start, b.values)[(start + i) % MEMORY] == b.values[i]
    {
      StandsInPlace(p.pm, start, b.values, i);
    }
  }

  lemma UnrelocatedValues(b: Block, segments: seq<Row>)
    requires WellFormed(b, Pm, segments) && IsDword(b.attributes) && Unrelocated(b)
    ensures WithoutRelocation(Containers(4, Pm, b.payload, 0, b.words)) == b.values
  {
    hide Containers, Resolve, Uniform;
    var raw := Containers(4, Pm, b.payload, 0, b.words);
    PlainValuesStand(raw, b.attributes, segments);
  }
}
