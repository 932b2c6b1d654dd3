/**
 The addressed data blocks of a DSP download (parse_blocks and
 resolve_block_values of tools/eicon_dsp_extract.py): what bytes they are, what
 they decode to, and that the parser is exactly the inverse of that layout.
 */
module DataBlocks {
  import opened Arithmetic
  import opened Bytes
  import opened Options

  datatype Error =
    | Truncated | BadMagic | BadVersion | HeaderTooSmall | TableMismatch | DirectoryTooShort | TrailingBytes
    | WrongDomain | ContainerBits | UnmarkedRelocation | MissingSegment | AddressOverflow | SectionLength
    | TooWide | Conflict | OutOfImage
    | UnknownCard | BadFileSet | AlreadySelected | NoVariant | Ambiguous | TableOverflow | SizeMismatch | FieldOverflow

  type Result<+T> = Outcome<T, Error>

  datatype Domain = Dm | Pm

  function Modulus(domain: Domain): int { if domain == Dm then 0x10000 else 0x100_0000 }

  // ----- attribute bits

  function DomainOf(attributes: Word): Domain { if attributes % 2 == 1 then Pm else Dm }

  predicate IsDword(attributes: Word) { attributes / 2 % 2 == 1 }

  predicate MayResolve(attributes: Word) { attributes / 4 % 2 == 1 }

  type ByteWidth = w: nat | 2 <= w <= 4 witness 2

  function Width(attributes: Word): ByteWidth {
    if IsDword(attributes) then 4 else if DomainOf(attributes) == Pm then 3 else 2
  }

  // ----- containers: 16-bit words, packed 24-bit words, or 32-bit words

  function Limit(width: ByteWidth): int { if width == 2 then 0x10000 else if width == 3 then 0x100_0000 else 0x1_0000_0000 }

  predicate Fits(width: ByteWidth, v: int) { 0 <= v < Limit(width) }

  predicate AllFit(width: ByteWidth, raw: seq<int>) { forall i :: 0 <= i < |raw| ==> Fits(width, raw[i]) }

  /** A 32-bit program container holds the upper sixteen instruction bits first,
      then the lower eight with the relocation byte above them. */
  function ContainerBytes(width: ByteWidth, domain: Domain, v: int): (s: seq<Byte>)
    requires Fits(width, v)
    ensures |s| == width
  {
    if width == 2 then Bytes16(v)
    else if width == 3 then [v % 0x100, v / 0x100 % 0x100, v / 0x10000]
    else if domain == Dm then Bytes32(v)
    else Bytes16(v / 0x100 % 0x10000) + [v % 0x100, v / 0x100_0000]
  }

  function Container(width: ByteWidth, domain: Domain, data: seq<Byte>, pos: nat): (v: int)
    requires Fit(data, pos, width)
    ensures Fits(width, v)
  {
    if width == 2 then Read16(data, pos)
    else if width == 3 then
      var b0: int, b1: int, b2: int := data[pos], data[pos + 1], data[pos + 2];
      b0 + 0x100 * b1 + 0x10000 * b2
    else if domain == Dm then Read32(data, pos)
    else
      var raw := Read32(data, pos);
      raw / 0x100_0000 * 0x100_0000 + raw % 0x10000 * 0x100 + raw / 0x10000 % 0x100
  }

  lemma ContainerExactly(width: ByteWidth, domain: Domain, data: seq<Byte>, pos: nat, v: int)
    requires Fits(width, v)
    ensures Holds(data, pos, ContainerBytes(width, domain, v))
            <==> Fit(data, pos, width) && Container(width, domain, data, pos) == v
  {
    if width == 2 {
      WordExactly(data, pos, v);
    } else if width == 3 {
      PackedExactly(data, pos, v);
    } else {
      DwordExactly(domain, data, pos, v);
    }
  }

  lemma WordExactly(data: seq<Byte>, pos: nat, v: Word)
    ensures Holds(data, pos, Bytes16(v)) <==> Fit(data, pos, 2) && Read16(data, pos) == v
  {
    HoldsElementwise(data, pos, Bytes16(v));
    if Fit(data, pos, 2) {
      TwoDigits(data[pos], data[pos + 1], 0x100, v);
    }
  }

  lemma PackedExactly(data: seq<Byte>, pos: nat, v: int)
    requires Fits(3, v)
    ensures Holds(data, pos, ContainerBytes(3, Pm, v)) <==> Fit(data, pos, 3) && Container(3, Pm, data, pos) == v
  {
    HoldsElementwise(data, pos, ContainerBytes(3, Pm, v));
    if Fit(data, pos, 3) {
      TwoDigits(data[pos], data[pos + 1] as int + 0x100 * data[pos + 2] as int, 0x100, v);
      TwoDigits(data[pos + 1], data[pos + 2], 0x100, v / 0x100);
    }
  }

  lemma DwordExactly(domain: Domain, data: seq<Byte>, pos: nat, v: int)
    requires Fits(4, v)
    ensures Holds(data, pos, ContainerBytes(4, domain, v)) <==> Fit(data, pos, 4) && Container(4, domain, data, pos) == v
  {
    if Fit(data, pos, 4) {
      assert data[pos..pos + 4] == [data[pos], data[pos + 1], data[pos + 2], data[pos + 3]];
      if domain == Dm {
        DwordDm(data[pos], data[pos + 1], data[pos + 2], data[pos + 3], v);
      } else {
        DwordPm(data[pos], data[pos + 1], data[pos + 2], data[pos + 3], v);
      }
    }
  }

  lemma TwoDigits(low: int, high: int, base: int, v: int)
    requires 0 <= low < base && (base == 0x100 || base == 0x10000)
    ensures low + base * high == v <==> low == v % base && high == v / base
  {
  }

  lemma DwordDm(b0: Byte, b1: Byte, b2: Byte, b3: Byte, v: int)
    requires Fits(4, v)
    ensures b0 as int + 0x100 * b1 as int + 0x10000 * (b2 as int + 0x100 * b3 as int) == v
            <==> [b0, b1, b2, b3] == ContainerBytes(4, Dm, v)
  {
    TwoDigits(b0 as int + 0x100 * b1 as int, b2 as int + 0x100 * b3 as int, 0x10000, v);
    TwoDigits(b0, b1, 0x100, v % 0x10000);
    TwoDigits(b2, b3, 0x100, v / 0x10000);
    assert ContainerBytes(4, Dm, v)
        == [v % 0x10000 % 0x100, v % 0x10000 / 0x100, v / 0x10000 % 0x100, v / 0x10000 / 0x100];
  }

  lemma DwordPm(b0: Byte, b1: Byte, b2: Byte, b3: Byte, v: int)
    requires Fits(4, v)
    ensures var raw := b0 as int + 0x100 * b1 as int + 0x10000 * (b2 as int + 0x100 * b3 as int);
            raw / 0x100_0000 * 0x100_0000 + raw % 0x10000 * 0x100 + raw / 0x10000 % 0x100 == v
            <==> [b0, b1, b2, b3] == ContainerBytes(4, Pm, v)
  {
    var low: int, high: int := b0 as int + 0x100 * b1 as int, b2 as int + 0x100 * b3 as int;
    HostWords(low, b2, b3);
    TwoDigits(b2, low + 0x10000 * b3 as int, 0x100, v);
    TwoDigits(low, b3, 0x10000, v / 0x100);
    TwoDigits(b0, b1, 0x100, v / 0x100 % 0x10000);
    assert v / 0x100 / 0x10000 == v / 0x100_0000;
    assert ContainerBytes(4, Pm, v)
        == [v / 0x100 % 0x10000 % 0x100, v / 0x100 % 0x10000 / 0x100, v % 0x100, v / 0x100_0000];
  }

  lemma HostWords(low: int, b2: int, b3: int)
    requires 0 <= low < 0x10000 && 0 <= b2 < 0x100 && 0 <= b3 < 0x100
    ensures var raw := low + 0x10000 * (b2 + 0x100 * b3);
            raw / 0x100_0000 == b3 && raw % 0x10000 == low && raw / 0x10000 % 0x100 == b2
  {
    var raw := low + 0x10000 * (b2 + 0x100 * b3);
    assert raw / 0x10000 == b2 + 0x100 * b3;
  }

  /** Bytes taken by n containers. */
  function Span(width: ByteWidth, n: nat): nat { if width == 2 then 2 * n else if width == 3 then 3 * n else 4 * n }

  function PackContainers(width: ByteWidth, domain: Domain, raw: seq<int>): (s: seq<Byte>)
    requires AllFit(width, raw)
    ensures |s| == Span(width, |raw|)
  {
    if raw == [] then []
    else ContainerBytes(width, domain, raw[0]) + PackContainers(width, domain, raw[1..])
  }

  function Containers(width: ByteWidth, domain: Domain, data: seq<Byte>, pos: nat, n: nat): (raw: seq<int>)
    requires Fit(data, pos, Span(width, n))
    ensures |raw| == n && AllFit(width, raw)
    decreases n
  {
    if n == 0 then []
    else [Container(width, domain, data, pos)] + Containers(width, domain, data, pos + width, n - 1)
  }

  /** Unpacking undoes packing. */
  lemma {:induction false} ContainersInverse(width: ByteWidth, domain: Domain, data: seq<Byte>, pos: nat, raw: seq<int>)
    requires AllFit(width, raw) && Holds(data, pos, PackContainers(width, domain, raw))
    ensures Fit(data, pos, Span(width, |raw|)) && Containers(width, domain, data, pos, |raw|) == raw
    decreases |raw|
  {
    hide Container, ContainerBytes, PackContainers, Fits, Holds;
    HoldsWithin(data, pos, PackContainers(width, domain, raw));
    if raw != [] {
      FirstOfPacked(width, domain, data, pos, raw);
      ContainersInverse(width, domain, data, pos + width, raw[1..]);
      assert raw == [raw[0]] + raw[1..];
    }
  }

  lemma FirstOfPacked(width: ByteWidth, domain: Domain, data: seq<Byte>, pos: nat, raw: seq<int>)
    requires AllFit(width, raw) && raw != [] && Holds(data, pos, PackContainers(width, domain, raw))
    ensures Fit(data, pos, width) && Container(width, domain, data, pos) == raw[0]
    ensures AllFit(width, raw[1..]) && Holds(data, pos + width, PackContainers(width, domain, raw[1..]))
  {
    SplitPacked(width, domain, data, pos, raw);
    ContainerExactly(width, domain, data, pos, raw[0]);
  }

  lemma SplitPacked(width: ByteWidth, domain: Domain, data: seq<Byte>, pos: nat, raw: seq<int>)
    requires AllFit(width, raw) && raw != [] && Holds(data, pos, PackContainers(width, domain, raw))
    ensures Holds(data, pos, ContainerBytes(width, domain, raw[0]))
    ensures AllFit(width, raw[1..]) && Holds(data, pos + width, PackContainers(width, domain, raw[1..]))
  {
    HoldsConcat(data, pos, ContainerBytes(width, domain, raw[0]), PackContainers(width, domain, raw[1..]));
  }

  // ----- relocation

  /** Base of a segment number; the first four are absolute. */
  function SegmentBase(segment: int, segments: seq<Row>): Result<int>
    requires Uniform(segments, 5) && 0 <= segment
  {
    if segment < 4 then Ok(0)
    else if |segments| <= segment - 4 then Err(MissingSegment)
    else Ok(segments[segment - 4][2])
  }

  /** The four ways a base is added to a word.  The last is the split address of
      a CALL or JUMP on FLAG_IN: bits 3..2 are its top, bits 15..4 the rest. */
  function Relocate(domain: Domain, kind: int, value: int, base: int): int {
    if kind == 0 then value + (if domain == Dm then base else base * 0x100)
    else if kind == 1 then value + base
    else if kind == 2 then value + base * 0x10
    else
      var t := value / 0x10000 * 0x10000 + value / 4 % 4 * 0x4000 + value / 0x10 % 0x1000 * 4 + value % 4 + base * 4;
      t / 0x10000 % 0x100 * 0x10000 + t / 4 % 0x1000 * 0x10 + t / 0x4000 % 4 * 4 + t % 4
  }

  /** The address a CALL or JUMP on FLAG_IN holds. */
  function SplitAddress(value: int): int { value / 4 % 4 * 0x1000 + value / 0x10 % 0x1000 }

  /** Relocating such an instruction adds the base to that address, modulo the
      14-bit program memory, and touches its condition bits not at all. */
  lemma SplitRelocation(value: int, base: int)
    requires 0 <= value < 0x100_0000 && 0 <= base < 0x10000
    ensures var r := Relocate(Pm, 3, value, base);
            && 0 <= r < 0x100_0000
            && SplitAddress(r) == (SplitAddress(value) + base) % 0x4000
            && r % 4 == value % 4
            && (SplitAddress(value) + base < 0x4000 ==> r / 0x10000 == value / 0x10000)
            && r / 0x10000 == (value / 0x10000 + (SplitAddress(value) + base) / 0x4000) % 0x100
  {
    var high, mid, two, low := value / 0x10000, value / 0x10 % 0x1000, value / 4 % 4, value % 4;
    var a := two * 0x1000 + mid + base;
    var t := high * 0x10000 + two * 0x4000 + mid * 4 + low + base * 4;
    var r := Relocate(Pm, 3, value, base);
    assert r == t / 0x10000 % 0x100 * 0x10000 + t / 4 % 0x1000 * 0x10 + t / 0x4000 % 4 * 4 + t % 4;
    SplitSum(high, a, low, t);
    SplitResult((high + a / 0x4000) % 0x100, a % 0x1000, a / 0x1000 % 4, low, r);
    SplitAdded(high, a);
  }

  /** The other three kinds add the base, modulo its width, to the field the
      address stands in and leave the bits below it alone: the upper 16 bits of
      a program word, its low part, or the address field of a command. */
  lemma FieldRelocation(value: int, base: int)
    requires 0 <= value < 0x100_0000 && 0 <= base < 0x10000
    ensures var r := Relocate(Pm, 0, value, base) % 0x100_0000;
            r / 0x100 == (value / 0x100 + base) % 0x10000 && r % 0x100 == value % 0x100
    ensures var r := Relocate(Pm, 1, value, base) % 0x100_0000;
            r % 0x10000 == (value % 0x10000 + base) % 0x10000
    ensures var r := Relocate(Pm, 2, value, base) % 0x100_0000;
            r / 0x10 % 0x4000 == (value / 0x10 % 0x4000 + base) % 0x4000 && r % 0x10 == value % 0x10
    ensures value < 0x10000 ==>
              Relocate(Dm, 0, value, base) % 0x10000 == (value + base) % 0x10000
  {
    FieldAdded(value, base, 0x100, 0x10000);
    FieldAdded(value, base, 0x10, 0x10_0000);
    LowAdded(value, base);
    CommandAdded(value / 0x10, base);
  }

  lemma LowAdded(a: int, b: int)
    ensures (a + b) % 0x100_0000 % 0x10000 == (a % 0x10000 + b) % 0x10000
  {
    var u := (a + b) % 0x100_0000;
    DivisionIs(a % 0x10000 + b, 0x10000, (a + b) / 0x100_0000 * 0x100 + u / 0x10000 - a / 0x10000, u % 0x10000);
  }

  lemma CommandAdded(a: int, b: int)
    ensures (a + b) % 0x10_0000 % 0x4000 == (a % 0x4000 + b) % 0x4000
  {
    var u := (a + b) % 0x10_0000;
    DivisionIs(a % 0x4000 + b, 0x4000, (a + b) / 0x10_0000 * 0x40 + u / 0x4000 - a / 0x4000, u % 0x4000);
  }

  /** Adding base units of a field of n values, u to the unit. */
  lemma FieldAdded(value: int, base: int, u: int, n: int)
    requires 0 <= value < 0x100_0000 && 0 <= base < 0x10000
    requires (u == 0x100 && n == 0x10000) || (u == 0x10 && n == 0x10_0000)
    ensures var r := (value + base * u) % 0x100_0000;
            r / u == (value / u + base) % n && r % u == value % u
  {
    var high, low := value / u + base, value % u;
    var r := high % n * u + low;
    assert value + base * u == high * u + low;
    assert high == high / n * n + high % n;
    DivisionIs(value + base * u, 0x100_0000, high / n, r);
    DivisionIs(r, u, high % n, low);
  }

  lemma SplitAdded(high: int, a: int)
    requires 0 <= high < 0x100
    ensures a / 0x1000 % 4 * 0x1000 + a % 0x1000 == a % 0x4000
    ensures 0 <= a < 0x4000 ==> (high + a / 0x4000) % 0x100 == high
  {
  }

  lemma SplitSum(high: int, a: int, low: int, t: int)
    requires 0 <= high < 0x100 && 0 <= a < 0x14000 && 0 <= low < 4 && t == high * 0x10000 + a * 4 + low
    ensures t % 4 == low && t / 4 % 0x1000 == a % 0x1000 && t / 0x4000 % 4 == a / 0x1000 % 4
    ensures t / 0x10000 == high + a / 0x4000
  {
    var top, rest := a / 0x1000, a % 0x1000;
    DivisionIs(t, 4, high * 0x4000 + a, low);
    DivisionIs(t / 4, 0x1000, high * 4 + top, rest);
    DivisionIs(t, 0x4000, high * 4 + top, rest * 4 + low);
    DivisionIs(high * 4 + top, 4, high + top / 4, top % 4);
    DivisionIs(t, 0x10000, high + a / 0x4000, a % 0x4000 * 4 + low);
  }

  lemma SplitResult(high: int, mid: int, two: int, low: int, r: int)
    requires 0 <= high < 0x100 && 0 <= mid < 0x1000 && 0 <= two < 4 && 0 <= low < 4
    requires r == high * 0x10000 + mid * 0x10 + two * 4 + low
    ensures r % 4 == low && SplitAddress(r) == two * 0x1000 + mid && r / 0x10000 == high
    ensures 0 <= r < 0x100_0000
  {
    DivisionIs(r, 4, high * 0x4000 + mid * 4 + two, low);
    DivisionIs(r / 4, 4, high * 0x1000 + mid, two);
    DivisionIs(r, 0x10, high * 0x1000 + mid, two * 4 + low);
    DivisionIs(r / 0x10, 0x1000, high, mid);
    DivisionIs(r, 0x10000, high, mid * 0x10 + two * 4 + low);
  }

  /** One container, relocated if its top byte says so. */
  function ResolveWord(raw: int, attributes: Word, segments: seq<Row>): (r: Result<int>)
    requires Uniform(segments, 5) && 0 <= raw < 0x1_0000_0000
    ensures r.Ok? ==> 0 <= r.value < Modulus(DomainOf(attributes))
    ensures r.Ok? && raw < 0x100_0000 ==> r.value == raw
  {
    var domain := DomainOf(attributes);
    var relocation, value := raw / 0x100_0000, raw % Modulus(domain);
    if domain == Dm && raw / 0x10000 % 0x100 != 0 then Err(ContainerBits)
    else if relocation == 0 then Ok(value)
    else if !MayResolve(attributes) then Err(UnmarkedRelocation)
    else
      var base :- SegmentBase(relocation % 0x40, segments);
      Ok(Relocate(domain, relocation / 0x40, value, base) % Modulus(domain))
  }

  function Resolve(raw: seq<int>, attributes: Word, segments: seq<Row>): (r: Result<seq<int>>)
    requires Uniform(segments, 5) && forall i :: 0 <= i < |raw| ==> 0 <= raw[i] < 0x1_0000_0000
    ensures r.Ok? ==> |r.value| == |raw|
    ensures r.Ok? ==> forall i :: 0 <= i < |raw| ==> 0 <= r.value[i] < Modulus(DomainOf(attributes))
    ensures r.Ok? ==> forall i :: 0 <= i < |raw| && raw[i] < 0x100_0000 ==> r.value[i] == raw[i]
  {
    if raw == [] then Ok([])
    else
      var first :- ResolveWord(raw[0], attributes, segments);
      var rest :- Resolve(raw[1..], attributes, segments);
      Ok([first] + rest)
  }

  // ----- what resolving means

  /** Unit of the field a relocation of this kind adds its base to. */
  function AddressUnit(domain: Domain, kind: int): (u: int)
    ensures u == 1 || u == 0x10 || u == 0x100
  {
    if kind == 0 && domain == Pm then 0x100 else if kind == 2 then 0x10 else 1
  }

  /** The word with the base added where its kind says: to the address split over
      a CALL or JUMP on FLAG_IN, whose carry goes to the bits above it, or to the
      field that counts in units of u, the bits below it standing. */
  predicate Relocated(domain: Domain, kind: int, value: int, base: int, r: int) {
    && 0 <= r < Modulus(domain)
    && if kind == 3 then
         && SplitAddress(r) == (SplitAddress(value) + base) % 0x4000 && r % 4 == value % 4
         && r / 0x10000 == (value / 0x10000 + (SplitAddress(value) + base) / 0x4000) % (Modulus(domain) / 0x10000)
       else
         var u := AddressUnit(domain, kind);
         r / u == (value / u + base) % (Modulus(domain) / u) && r % u == value % u
  }

  /** The fields fix the word: two results of one relocation are the same. */
  lemma RelocatedUnique(domain: Domain, kind: int, value: int, base: int, r: int, r': int)
    requires Relocated(domain, kind, value, base, r) && Relocated(domain, kind, value, base, r')
    ensures r == r'
  {
    if kind == 3 {
      SplitRebuilds(r);
      SplitRebuilds(r');
    } else {
      var u := AddressUnit(domain, kind);
      assert r == r / u * u + r % u && r' == r' / u * u + r' % u;
    }
  }

  lemma SplitRebuilds(r: int)
    requires 0 <= r
    ensures r == r / 0x10000 * 0x10000 + SplitAddress(r) % 0x1000 * 0x10 + SplitAddress(r) / 0x1000 * 4 + r % 4
  {
    DivisionIs(r, 0x10000, r / 0x10 / 0x1000, r / 0x10 % 0x1000 * 0x10 + r % 0x10);
    DivisionIs(r, 0x10, r / 4 / 4, r / 4 % 4 * 4 + r % 4);
    DivisionIs(SplitAddress(r), 0x1000, r / 4 % 4, r / 0x10 % 0x1000);
  }

  /** Base a relocation byte names, if its segment exists. */
  function TargetBase(relocation: int, segments: seq<Row>): int
    requires Uniform(segments, 5) && 0 <= relocation && relocation % 0x40 < |segments| + 4
  {
    if relocation % 0x40 < 4 then 0 else segments[relocation % 0x40 - 4][2]
  }

  /** One container: which guard refuses it, and otherwise the word itself when it
      has no relocation byte, and the relocated word when it has one. */
  lemma ResolvesExactly(raw: int, attributes: Word, segments: seq<Row>)
    requires Uniform(segments, 5) && 0 <= raw < 0x1_0000_0000
    ensures var r, domain := ResolveWord(raw, attributes, segments), if attributes % 2 == 1 then Pm else Dm;
            var relocation, marked := raw / 0x100_0000, attributes / 4 % 2 == 1;
            var spare := domain == Dm && raw / 0x10000 % 0x100 != 0;
            && (r == Err(ContainerBits) <==> spare)
            && (r == Err(UnmarkedRelocation) <==> !spare && relocation != 0 && !marked)
            && (r == Err(MissingSegment) <==>
                  !spare && relocation != 0 && marked && |segments| + 4 <= relocation % 0x40)
            && (r.Ok? || r == Err(ContainerBits) || r == Err(UnmarkedRelocation) || r == Err(MissingSegment))
            && (r.Ok? && relocation == 0 ==> r.value == raw)
            && (r.Ok? && relocation != 0 ==>
                  && relocation % 0x40 < |segments| + 4
                  && Relocated(domain, relocation / 0x40, raw % Modulus(domain), TargetBase(relocation, segments), r.value))
  {
    hide Relocated, Relocate;
    var domain, relocation := DomainOf(attributes), raw / 0x100_0000;
    if relocation % 0x40 < |segments| + 4 {
      RelocatesFields(domain, relocation / 0x40, raw % Modulus(domain), TargetBase(relocation, segments));
    }
    NoRelocationByte(raw);
  }

  lemma NoRelocationByte(raw: int)
    requires 0 <= raw
    ensures raw / 0x100_0000 == 0 ==> raw % 0x100_0000 == raw
    ensures raw / 0x100_0000 == 0 && raw / 0x10000 % 0x100 == 0 ==> raw % 0x10000 == raw
  {
  }

  lemma RelocatesFields(domain: Domain, kind: int, value: int, base: int)
    requires 0 <= kind < 4 && 0 <= value < Modulus(domain) && 0 <= base < 0x10000
    ensures Relocated(domain, kind, value, base, Relocate(domain, kind, value, base) % Modulus(domain))
  {
    if kind == 3 {
      SplitRelocation(value, base);
      SplitCarries(domain, value, base);
    } else {
      var u := AddressUnit(domain, kind);
      AddedInUnits(value, base, u, Modulus(domain));
    }
  }

  lemma AddedInUnits(value: int, base: int, u: int, modulus: int)
    requires u == 1 || u == 0x10 || u == 0x100
    requires modulus == 0x10000 || modulus == 0x100_0000
    ensures var r := (value + base * u) % modulus;
            r / u == (value / u + base) % (modulus / u) && r % u == value % u
  {
    var high, low, n := value / u + base, value % u, modulus / u;
    assert value + base * u == high * u + low && modulus == n * u;
    InUnits(high, low, u, n);
  }

  lemma InUnits(high: int, low: int, u: int, n: int)
    requires 0 < u && 0 < n && 0 <= low < u
    ensures 0 < n * u && (high * u + low) % (n * u) / u == high % n && (high * u + low) % (n * u) % u == low
  {
    var q, h := high / n, high % n;
    assert high == q * n + h;
    assert high * u + low == q * (n * u) + (h * u + low) by {
      Regroup(q, n, h, u);
    }
    StepsApart(h, n, u);
    assert 0 <= h * u && 0 < n * u;
    DivisionIs(high * u + low, n * u, q, h * u + low);
    DivisionIs(h * u + low, u, h, low);
  }

  lemma Regroup(q: int, n: int, h: int, u: int)
    ensures (q * n + h) * u == q * (n * u) + h * u
  {
  }

  /** A split relocation modulo the memory's width keeps address and condition,
      and carries into the bits above. */
  lemma SplitCarries(domain: Domain, value: int, base: int)
    requires 0 <= value < Modulus(domain) && 0 <= base < 0x10000
    ensures Relocated(domain, 3, value, base, Relocate(domain, 3, value, base) % Modulus(domain))
  {
    hide Relocate, SplitAddress;
    var r := Relocate(Pm, 3, value, base);
    SplitAnywhere(domain, value, base);
    SplitRelocation(value, base);
    if domain == Dm {
      LowPart(r);
    }
  }

  lemma SplitAnywhere(domain: Domain, value: int, base: int)
    ensures Relocate(domain, 3, value, base) == Relocate(Pm, 3, value, base)
  {
  }

  lemma LowPart(r: int)
    requires 0 <= r < 0x100_0000
    ensures SplitAddress(r % 0x10000) == SplitAddress(r) && r % 0x10000 % 4 == r % 4 && r % 0x10000 / 0x10000 == 0
  {
    var low := r % 0x10000;
    assert r == r / 0x10000 * 0x10000 + low;
    DivisionIs(r / 4, 4, r / 0x10000 * 0x1000 + low / 0x10, low / 4 % 4);
    DivisionIs(r / 0x10, 0x1000, r / 0x10000, low / 0x10);
  }

  /** Values go container by container, and the first refusal refuses the block. */
  lemma {:induction false} ResolvesEach(raw: seq<int>, attributes: Word, segments: seq<Row>)
    requires Uniform(segments, 5) && forall i :: 0 <= i < |raw| ==> 0 <= raw[i] < 0x1_0000_0000
    ensures var r := Resolve(raw, attributes, segments);
            && (r.Ok? <==> forall i :: 0 <= i < |raw| ==> ResolveWord(raw[i], attributes, segments).Ok?)
            && (r.Ok? ==> forall i :: 0 <= i < |raw| ==> ResolveWord(raw[i], attributes, segments) == Ok(r.value[i]))
            && (r.Err? ==> exists i :: 0 <= i < |raw| && ResolveWord(raw[i], attributes, segments) == Err(r.error)
                                      && forall j :: 0 <= j < i ==> ResolveWord(raw[j], attributes, segments).Ok?)
  {
    hide ResolveWord;
    if raw != [] {
      var first, rest := ResolveWord(raw[0], attributes, segments), raw[1..];
      ResolvesEach(rest, attributes, segments);
      assert forall i :: 0 <= i < |rest| ==> rest[i] == raw[i + 1];
      assert forall i :: 0 < i < |raw| ==> raw[i] == rest[i - 1];
      var later := Resolve(rest, attributes, segments);
      if first.Ok? && later.Err? {
        var i :| 0 <= i < |rest| && ResolveWord(rest[i], attributes, segments) == Err(later.error)
                 && forall j :: 0 <= j < i ==> ResolveWord(rest[j], attributes, segments).Ok?;
        assert ResolveWord(raw[i + 1], attributes, segments) == Err(later.error);
        assert forall j :: 0 <= j < i + 1 ==> ResolveWord(raw[j], attributes, segments).Ok?;
      }
    }
  }

  /** The values appended one container after another, up to the first that
      cannot be resolved. */
  method ResolveBlockValues(raw: seq<int>, attributes: Word, segments: seq<Row>) returns (r: Result<seq<int>>)
    requires Uniform(segments, 5) && forall i :: 0 <= i < |raw| ==> 0 <= raw[i] < 0x1_0000_0000
    ensures r == Resolve(raw, attributes, segments)
  {
    hide ResolveWord;
    var values: seq<int> := [];
    assert raw[0..] == raw;
    for i := 0 to |raw|
      invariant Resolve(raw, attributes, segments) == Prefixed(values, Resolve(raw[i..], attributes, segments))
    {
      var value := ResolveWord(raw[i], attributes, segments);
      if value.Err? {
        return Err(value.error);
      }
      PrefixedOneMore(values, raw[i..], attributes, segments);
      assert raw[i..][1..] == raw[i + 1..];
      values := values + [value.value];
    }
    assert raw[|raw|..] == [] && values + [] == values;
    return Ok(values);
  }

  function Prefixed(done: seq<int>, rest: Result<seq<int>>): Result<seq<int>> {
    if done == [] || rest.Err? then rest else Ok(done + rest.value)
  }

  lemma PrefixedOneMore(done: seq<int>, raw: seq<int>, attributes: Word, segments: seq<Row>)
    requires raw != [] && Uniform(segments, 5) && forall i :: 0 <= i < |raw| ==> 0 <= raw[i] < 0x1_0000_0000
    requires ResolveWord(raw[0], attributes, segments).Ok?
    ensures Prefixed(done, Resolve(raw, attributes, segments))
         == Prefixed(done + [ResolveWord(raw[0], attributes, segments).value], Resolve(raw[1..], attributes, segments))
  {
    hide ResolveWord, Resolve;
    FirstResolved(raw, attributes, segments);
    PrefixedTwice(done, ResolveWord(raw[0], attributes, segments).value, Resolve(raw[1..], attributes, segments));
  }

  lemma FirstResolved(raw: seq<int>, attributes: Word, segments: seq<Row>)
    requires raw != [] && Uniform(segments, 5) && forall i :: 0 <= i < |raw| ==> 0 <= raw[i] < 0x1_0000_0000
    requires ResolveWord(raw[0], attributes, segments).Ok?
    ensures Resolve(raw, attributes, segments)
         == Prefixed([ResolveWord(raw[0], attributes, segments).value], Resolve(raw[1..], attributes, segments))
  {
    hide ResolveWord;
  }

  lemma PrefixedTwice(done: seq<int>, value: int, rest: Result<seq<int>>)
    ensures Prefixed(done, Prefixed([value], rest)) == Prefixed(done + [value], rest)
  {
    if rest.Ok? {
      assert done + ([value] + rest.value) == done + [value] + rest.value;
      assert [] + [value] == [value];
    }
  }

  // ----- blocks

  /** `payload` is the block as stored, with its pad byte; `values` is what it
      resolves to. */
  datatype Block = Block(attributes: Word, segment: Word, offset: Word, words: Word, payload: seq<Byte>,
                         address: int, values: seq<int>)

  /** Payload bytes of a block, padded to a whole number of 16-bit words. */
  function PayloadSize(attributes: Word, words: Word): nat {
    var size := Span(Width(attributes), words);
    size + size % 2
  }

  /** The containers, and at most one pad byte that makes the size even. */
  lemma PayloadIsPadded(attributes: Word, words: Word)
    ensures PayloadSize(attributes, words) % 2 == 0
    ensures Span(Width(attributes), words) <= PayloadSize(attributes, words) <= Span(Width(attributes), words) + 1
    ensures PayloadSize(attributes, words) == Span(Width(attributes), words)
            <==> IsDword(attributes) || DomainOf(attributes) == Dm || words % 2 == 0
  {
    MadeEven(Span(Width(attributes), words));
    TripleParity(words);
  }

  lemma MadeEven(size: nat)
    ensures (size + size % 2) % 2 == 0 && size <= size + size % 2 <= size + 1
  {
  }

  lemma TripleParity(n: nat)
    ensures 3 * n % 2 == n % 2 && 2 * n % 2 == 0 && 4 * n % 2 == 0
  {
    DivisionIs(3 * n, 2, n + n / 2, n % 2);
    DivisionIs(2 * n, 2, n, 0);
    DivisionIs(4 * n, 2, 2 * n, 0);
  }

  /** The containers of a payload, relocated. */
  function Decoded(attributes: Word, words: Word, payload: seq<Byte>, segments: seq<Row>): (r: Result<seq<int>>)
    requires Uniform(segments, 5) && |payload| == PayloadSize(attributes, words)
    ensures r.Ok? ==> |r.value| == words && forall i :: 0 <= i < words ==> 0 <= r.value[i] < Modulus(DomainOf(attributes))
  {
    Resolve(Containers(Width(attributes), DomainOf(attributes), payload, 0, words), attributes, segments)
  }

  ghost predicate WellFormed(b: Block, domain: Domain, segments: seq<Row>) {
    && Uniform(segments, 5)
    && DomainOf(b.attributes) == domain
    && |b.payload| == PayloadSize(b.attributes, b.words)
    && Decoded(b.attributes, b.words, b.payload, segments) == Ok(b.values)
    && SegmentBase(b.segment, segments) == Ok(b.address - b.offset)
    && b.address + b.words <= 0x10000
  }

  function BlockBytes(b: Block): (s: seq<Byte>)
    ensures |s| == 8 + |b.payload|
  {
    Pack([b.attributes, b.segment, b.offset, b.words]) + b.payload
  }

  function ParseBlock(data: seq<Byte>, pos: nat, domain: Domain, segments: seq<Row>): (r: Result<(Block, nat)>)
    requires Uniform(segments, 5)
  {
    if !Fit(data, pos, 8) then Err(Truncated)
    else
      var attributes, segment := Read16(data, pos), Read16(data, pos + 2);
      var offset, words := Read16(data, pos + 4), Read16(data, pos + 6);
      var size := PayloadSize(attributes, words);
      if DomainOf(attributes) != domain then Err(WrongDomain)
      else if !Fit(data, pos + 8, size) then Err(Truncated)
      else
        var payload := data[pos + 8..pos + 8 + size];
        var values :- Decoded(attributes, words, payload, segments);
        var base :- SegmentBase(segment, segments);
        if base + offset + words > 0x10000 then Err(AddressOverflow)
        else Ok((Block(attributes, segment, offset, words, payload, base + offset, values), pos + 8 + size))
  }

  lemma HeaderExactly(data: seq<Byte>, pos: nat, a: Word, s: Word, o: Word, n: Word)
    ensures Holds(data, pos, Pack([a, s, o, n]))
            <==> Fit(data, pos, 8) && Read16(data, pos) == a && Read16(data, pos + 2) == s
                 && Read16(data, pos + 4) == o && Read16(data, pos + 6) == n
  {
    PackExactly(data, pos, [a, s, o, n]);
    if Fit(data, pos, 8) {
      assert Unpack(data, pos + 6, 1) == [Read16(data, pos + 6)];
      assert Unpack(data, pos + 4, 2) == [Read16(data, pos + 4), Read16(data, pos + 6)];
      assert Unpack(data, pos + 2, 3) == [Read16(data, pos + 2), Read16(data, pos + 4), Read16(data, pos + 6)];
      assert Unpack(data, pos, 4)
          == [Read16(data, pos), Read16(data, pos + 2), Read16(data, pos + 4), Read16(data, pos + 6)];
    }
  }

  /** The parser accepts exactly the bytes of well-formed blocks, and returns
      the block they are the bytes of. */
  lemma BlockExactly(data: seq<Byte>, pos: nat, domain: Domain, segments: seq<Row>, b: Block, end: nat)
    requires Uniform(segments, 5)
    ensures ParseBlock(data, pos, domain, segments) == Ok((b, end))
            <==> WellFormed(b, domain, segments) && Holds(data, pos, BlockBytes(b)) && end == pos + |BlockBytes(b)|
  {
    HeaderExactly(data, pos, b.attributes, b.segment, b.offset, b.words);
    HoldsConcat(data, pos, Pack([b.attributes, b.segment, b.offset, b.words]), b.payload);
  }

  /** Where an accepted block lies: at its offset, from the base its segment
      names if the segment is relocatable, and inside the address space. */
  lemma BlockAddress(data: seq<Byte>, pos: nat, domain: Domain, segments: seq<Row>, b: Block, end: nat)
    requires Uniform(segments, 5) && ParseBlock(data, pos, domain, segments) == Ok((b, end))
    ensures b.segment < 4 ==> b.address == b.offset
    ensures 4 <= b.segment ==> b.segment - 4 < |segments| && b.address == segments[b.segment - 4][2] + b.offset
    ensures 0 <= b.address && b.address + b.words <= 0x10000 && |b.values| == b.words
  {
    BlockExactly(data, pos, domain, segments, b, end);
  }

  predicate HasContainer(attributes: Word, payload: seq<Byte>, i: nat) {
    if attributes / 2 % 2 == 1 then 4 * i + 4 <= |payload|
    else if attributes % 2 == 1 then 3 * i + 3 <= |payload|
    else 2 * i + 2 <= |payload|
  }

  /** Container i of a payload, byte by byte: 32 bits of data, or two host words of
      program; otherwise 24 bits of program or 16 of data. */
  function StoredAt(attributes: Word, payload: seq<Byte>, i: nat): int
    requires HasContainer(attributes, payload, i)
  {
    if attributes / 2 % 2 == 1 then
      var b0: int, b1: int, b2: int, b3: int := payload[4 * i], payload[4 * i + 1], payload[4 * i + 2], payload[4 * i + 3];
      if attributes % 2 == 1 then b0 * 0x100 + b1 * 0x10000 + b2 + b3 * 0x100_0000
      else b0 + b1 * 0x100 + b2 * 0x10000 + b3 * 0x100_0000
    else if attributes % 2 == 1 then
      var b0: int, b1: int, b2: int := payload[3 * i], payload[3 * i + 1], payload[3 * i + 2];
      b0 + b1 * 0x100 + b2 * 0x10000
    else
      var b0: int, b1: int := payload[2 * i], payload[2 * i + 1];
      b0 + b1 * 0x100
  }

  lemma {:induction false} ContainersAt(width: ByteWidth, domain: Domain, data: seq<Byte>, pos: nat, n: nat, i: nat)
    requires Fit(data, pos, Span(width, n)) && i < n
    ensures Fit(data, pos + Span(width, i), width)
    ensures Containers(width, domain, data, pos, n)[i] == Container(width, domain, data, pos + Span(width, i))
    decreases n
  {
    hide Container;
    if i != 0 {
      ContainersAt(width, domain, data, pos + width, n - 1, i - 1);
    }
  }

  lemma StoredIsContainer(attributes: Word, payload: seq<Byte>, i: nat)
    requires Fit(payload, Span(Width(attributes), i), Width(attributes))
    ensures HasContainer(attributes, payload, i)
    ensures Container(Width(attributes), DomainOf(attributes), payload, Span(Width(attributes), i))
         == StoredAt(attributes, payload, i)
  {
    var width, at := Width(attributes), Span(Width(attributes), i);
    if width == 4 && DomainOf(attributes) == Pm {
      var b0: int, b1: int, b2: int, b3: int := payload[at], payload[at + 1], payload[at + 2], payload[at + 3];
      HostWords(b0 + 0x100 * b1, b2, b3);
    }
  }

  /** The values of an accepted block, one by one: the bytes stored for it, with
      the base of the segment its relocation byte names where it has one.  A data
      word with spare bits, an unmarked relocation or a segment that does not
      exist cannot occur. */
  lemma AcceptedValues(b: Block, domain: Domain, segments: seq<Row>, i: nat)
    requires WellFormed(b, domain, segments) && i < b.words
    ensures |b.values| == b.words && HasContainer(b.attributes, b.payload, i)
    ensures domain == Pm <==> b.attributes % 2 == 1
    ensures var raw := StoredAt(b.attributes, b.payload, i);
            var relocation := raw / 0x100_0000;
            && 0 <= raw < 0x1_0000_0000
            && (domain == Dm ==> raw / 0x10000 % 0x100 == 0)
            && (relocation == 0 ==> b.values[i] == raw)
            && (relocation != 0 ==>
                  && b.attributes / 4 % 2 == 1 && relocation % 0x40 < |segments| + 4
                  && Relocated(domain, relocation / 0x40, raw % Modulus(domain), TargetBase(relocation, segments),
                               b.values[i]))
  {
    hide Container, Relocated, ResolveWord, StoredAt, HasContainer, SegmentBase;
    var width := Width(b.attributes);
    ContainersAt(width, domain, b.payload, 0, b.words, i);
    StoredIsContainer(b.attributes, b.payload, i);
    var raw := Containers(width, domain, b.payload, 0, b.words);
    ResolvesEach(raw, b.attributes, segments);
    ResolvesExactly(raw[i], b.attributes, segments);
  }

  /** A block written from plain values, one container each, parses to them. */
  lemma WrittenValuesReadBack(b: Block, raw: seq<int>, pad: seq<Byte>, segments: seq<Row>)
    requires Uniform(segments, 5) && |raw| == b.words && AllFit(Width(b.attributes), raw)
    requires forall i :: 0 <= i < |raw| ==> raw[i] < Modulus(DomainOf(b.attributes))
    requires b.payload == PackContainers(Width(b.attributes), DomainOf(b.attributes), raw) + pad
    requires |b.payload| == PayloadSize(b.attributes, b.words)
    ensures Decoded(b.attributes, b.words, b.payload, segments) == Ok(raw)
  {
    var packed := PackContainers(Width(b.attributes), DomainOf(b.attributes), raw);
    assert b.payload[0..|packed|] == packed;
    ContainersInverse(Width(b.attributes), DomainOf(b.attributes), b.payload, 0, raw);
    PlainValuesStand(raw, b.attributes, segments);
  }

  lemma {:induction false} PlainValuesStand(raw: seq<int>, attributes: Word, segments: seq<Row>)
    requires Uniform(segments, 5)
    requires AllFit(4, raw) && forall i :: 0 <= i < |raw| ==> raw[i] < Modulus(DomainOf(attributes))
    ensures Resolve(raw, attributes, segments) == Ok(raw)
  {
    if raw != [] {
      PlainValuesStand(raw[1..], attributes, segments);
      assert raw == [raw[0]] + raw[1..];
      assert ResolveWord(raw[0], attributes, segments) == Ok(raw[0]);
    }
  }
}
