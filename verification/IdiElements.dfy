/**
 Information elements of the card's signalling interface (tools/eicon_idi.py):
 code, length and data, closed by a zero, with a codeset shift ending the part
 that is framed this way.
 */
module IdiElements {
  import opened Bytes
  import opened Options

  const SHIFT := 0x90
  const IDI_SIN := 0x01
  const IDI_CAI := 0x10
  const IDI_UID := 0x2D
  const IDI_OAD := 0x6C
  const IDI_CPN := 0x70
  const IDI_DSA := 0x71

  datatype Element = Element(code: int, data: seq<Byte>)

  datatype Error = BadCode | TooLong | NotAscii | HeaderCut | DataCut

  type Result<+T> = Outcome<T, Error>

  function ElementBytes(e: Element): (r: Result<seq<Byte>>)
    ensures r.Ok? <==> 0 <= e.code < 0x100 && |e.data| < 0x100
    ensures r.Ok? ==> r.value == [e.code as Byte, |e.data| as Byte] + e.data
  {
    if 0x100 <= |e.data| then Err(TooLong)
    else if e.code < 0 || 0x100 <= e.code then Err(BadCode)
    else Ok([e.code, |e.data|] + e.data)
  }

  /** The elements in a row, without the zero that closes them. */
  function Framed(elements: seq<Element>): Result<seq<Byte>> {
    if elements == [] then Ok([])
    else
      var first :- ElementBytes(elements[0]);
      var rest :- Framed(elements[1..]);
      Ok(first + rest)
  }

  function Encoded(elements: seq<Element>): Result<seq<Byte>> {
    var framed :- Framed(elements);
    Ok(framed + [0])
  }

  /** The codes the parser takes for elements: not the terminator, not a shift. */
  predicate Ordinary(code: int) { code != 0 && code / 0x10 != SHIFT / 0x10 }

  lemma OrdinaryExactly(code: Byte)
    ensures Ordinary(code) <==> code != 0x00 && !(0x90 <= code <= 0x9F)
  {
  }

  function Parse(payload: seq<Byte>): Result<seq<Element>> {
    if payload == [] || !Ordinary(payload[0]) then Ok([])
    else if |payload| == 1 then Err(HeaderCut)
    else
      var end := 2 + payload[1] as int;
      if |payload| < end then Err(DataCut)
      else
        var rest :- Parse(payload[end..]);
        Ok([Element(payload[0], payload[2..end])] + rest)
  }

  // ----- encoding and parsing as loops

  method IdiParameters(elements: seq<Element>) returns (r: Result<seq<Byte>>)
    ensures r == Encoded(elements)
  {
    var out: seq<Byte> := [];
    assert elements[0..] == elements;
    AfterNothing(Framed(elements));
    for i := 0 to |elements|
      invariant Framed(elements) == After(out, Framed(elements[i..]))
    {
      var bytes := ElementBytes(elements[i]);
      assert elements[i..][1..] == elements[i + 1..];
      if bytes.Err? {
        return Err(bytes.error);
      }
      AfterTwo(out, bytes.value, Framed(elements[i + 1..]));
      out := out + bytes.value;
    }
    assert elements[|elements|..] == [] && out + [] == out;
    return Ok(out + [0]);
  }

  method ParseIdiParameters(payload: seq<Byte>) returns (r: Result<seq<Element>>)
    ensures r == Parse(payload)
  {
    hide Parse;
    var out: seq<Element>, i := [], 0;
    AfterNothing(Parse(payload));
    assert payload[0..] == payload;
    while i < |payload|
      invariant i <= |payload| && Parse(payload) == After(out, Parse(payload[i..]))
    {
      NoMore(payload, i);
      var code := payload[i];
      if code == 0 || code / 0x10 == SHIFT / 0x10 {
        break;
      }
      if |payload| <= i + 1 {
        return Err(HeaderCut);
      }
      OneParsed(payload, i);
      var length: int := payload[i + 1];
      if |payload| < i + 2 + length {
        return Err(DataCut);
      }
      var data := payload[i + 2..i + 2 + length];
      AfterTwo(out, [Element(code, data)], Parse(payload[i + 2 + length..]));
      out, i := out + [Element(code, data)], i + 2 + length;
    }
    NoMore(payload, i);
    assert out + [] == out;
    return Ok(out);
  }

  function After<T>(done: seq<T>, rest: Result<seq<T>>): Result<seq<T>> {
    if rest.Ok? then Ok(done + rest.value) else rest
  }

  lemma AfterNothing<T>(rest: Result<seq<T>>)
    ensures After([], rest) == rest
  {
    if rest.Ok? {
      assert [] + rest.value == rest.value;
    }
  }

  lemma AfterTwo<T>(done: seq<T>, more: seq<T>, rest: Result<seq<T>>)
    ensures After(done, After(more, rest)) == After(done + more, rest)
  {
    if rest.Ok? {
      assert done + (more + rest.value) == done + more + rest.value;
    }
  }

  lemma NoMore(payload: seq<Byte>, i: nat)
    requires i <= |payload|
    ensures i == |payload| || !Ordinary(payload[i]) ==> Parse(payload[i..]) == Ok([])
    ensures i + 1 == |payload| && Ordinary(payload[i]) ==> Parse(payload[i..]) == Err(HeaderCut)
  {
  }

  lemma OneParsed(payload: seq<Byte>, i: nat)
    requires i + 1 < |payload| && Ordinary(payload[i])
    ensures var end := i + 2 + payload[i + 1] as int;
            Parse(payload[i..])
            == if |payload| < end then Err(DataCut)
               else After([Element(payload[i], payload[i + 2..end])], Parse(payload[end..]))
  {
    var tail := payload[i..];
    var end := 2 + tail[1] as int;
    if end <= |tail| {
      assert tail[2..end] == payload[i + 2..i + end] && tail[end..] == payload[i + end..];
    }
  }

  // ----- parsing against encoding

  predicate AllOrdinary(elements: seq<Element>) { forall i :: 0 <= i < |elements| ==> Ordinary(elements[i].code) }

  /** The elements before the first that is not ordinary. */
  function Readable(elements: seq<Element>): (r: seq<Element>)
    ensures r <= elements && AllOrdinary(r)
  {
    if elements == [] || !Ordinary(elements[0].code) then []
    else [elements[0]] + Readable(elements[1..])
  }

  lemma FirstElement(e: Element, bytes: seq<Byte>, rest: seq<Byte>)
    requires ElementBytes(e) == Ok(bytes) && Ordinary(e.code)
    ensures Parse(bytes + rest) == After([e], Parse(rest))
  {
    var payload := bytes + rest;
    assert payload[0] == e.code && payload[1] == |e.data|;
    assert payload[2..2 + |e.data|] == e.data && payload[2 + |e.data|..] == rest;
  }

  lemma NotAnElement(e: Element, bytes: seq<Byte>, rest: seq<Byte>)
    requires ElementBytes(e) == Ok(bytes) && !Ordinary(e.code)
    ensures Parse(bytes + rest) == Ok([])
  {
    assert (bytes + rest)[0] == e.code;
  }

  /** Framed elements followed by anything parse to those before the first that
      is not ordinary, and on to the rest if there is none. */
  lemma {:induction false} ParseFramed(elements: seq<Element>, rest: seq<Byte>)
    requires Framed(elements).Ok?
    ensures Parse(Framed(elements).value + rest)
         == if AllOrdinary(elements) then After(elements, Parse(rest)) else Ok(Readable(elements))
  {
    hide Parse, ElementBytes;
    if elements == [] {
      assert [] + rest == rest;
      AfterNothing(Parse(rest));
    } else {
      var e := elements[0];
      var bytes, framed := ElementBytes(e).value, Framed(elements[1..]).value;
      assert Framed(elements).value + rest == bytes + (framed + rest);
      assert elements == [e] + elements[1..];
      if Ordinary(e.code) {
        FirstElement(e, bytes, framed + rest);
        ParseFramed(elements[1..], rest);
        AfterTwo([e], elements[1..], Parse(rest));
      } else {
        NotAnElement(e, bytes, framed + rest);
      }
    }
  }

  lemma {:induction false} ReadableExactly(elements: seq<Element>)
    ensures Readable(elements) == elements <==> AllOrdinary(elements)
  {
    if elements != [] && Ordinary(elements[0].code) {
      ReadableExactly(elements[1..]);
      assert elements == [elements[0]] + elements[1..];
      assert Readable(elements)[1..] == Readable(elements[1..]);
    }
  }

  /** Parsing undoes encoding exactly for lists of ordinary elements; of any
      other list it reads the ordinary beginning. */
  lemma RoundTripExactly(elements: seq<Element>)
    requires Encoded(elements).Ok?
    ensures Parse(Encoded(elements).value) == Ok(Readable(elements))
    ensures Parse(Encoded(elements).value) == Ok(elements) <==> AllOrdinary(elements)
  {
    hide Framed, Readable;
    ParseFramed(elements, [0]);
    ReadableExactly(elements);
    assert elements + [] == elements;
  }

  /** Encoding fails exactly on an element whose code or data does not fit. */
  lemma {:induction false} EncodesExactly(elements: seq<Element>)
    ensures Encoded(elements).Ok? <==>
            forall i :: 0 <= i < |elements| ==> 0 <= elements[i].code < 0x100 && |elements[i].data| < 0x100
  {
    if elements != [] {
      EncodesExactly(elements[1..]);
      assert elements == [elements[0]] + elements[1..];
      assert forall i :: 0 <= i < |elements[1..]| ==> elements[1..][i] == elements[i + 1];
      assert forall i :: 0 < i < |elements| ==> elements[i] == elements[1..][i - 1];
    }
  }

  // ----- cut-off payloads

  /** However a payload is cut, parsing it gives an error or a beginning of what
      the whole gives: never an element that was not there. */
  lemma {:induction false} CutPayload(payload: seq<Byte>, n: nat)
    requires n <= |payload|
    ensures Parse(payload[..n]).Ok? && Parse(payload).Ok? ==> Parse(payload[..n]).value <= Parse(payload).value
    decreases |payload|
  {
    hide Parse;
    var cut := payload[..n];
    assert payload[0..] == payload && cut[0..] == cut;
    NoMore(cut, 0);
    if 2 <= n && Ordinary(payload[0]) {
      OneParsed(payload, 0);
      OneParsed(cut, 0);
      var end := 2 + payload[1] as int;
      if end <= n {
        assert cut[end..] == payload[end..][..n - end] && cut[2..end] == payload[2..end];
        CutPayload(payload[end..], n - end);
        AfterGrows(Element(payload[0], payload[2..end]), Parse(cut[end..]), Parse(payload[end..]));
      }
    }
  }

  lemma AfterGrows(e: Element, less: Result<seq<Element>>, more: Result<seq<Element>>)
    requires less.Ok? && more.Ok? ==> less.value <= more.value
    ensures After([e], less).Ok? && After([e], more).Ok? ==> After([e], less).value <= After([e], more).value
  {
  }

  /** In particular a truncated encoding never yields a different element. */
  lemma CutEncoding(elements: seq<Element>, n: nat)
    requires Encoded(elements).Ok? && n <= |Encoded(elements).value|
    ensures var r := Parse(Encoded(elements).value[..n]);
            r.Ok? ==> r.value <= elements
  {
    hide Framed, Readable;
    CutPayload(Encoded(elements).value, n);
    RoundTripExactly(elements);
  }

  // ----- the call request

  /** An address element: numbering plan, perhaps octet 3a, then the digits. */
  function AddressIe(code: int, number: string, plan: int, octet3a: Option<int>): Result<Element> {
    if exists i :: 0 <= i < |number| && 128 as char <= number[i] then Err(NotAscii)
    else
      var digits := seq(|number|, i requires 0 <= i < |number| => number[i] as int % 0x80);
      Ok(Element(code, [plan % 0x100] + (if octet3a.Some? then [octet3a.value % 0x100] else []) + digits))
  }

  /** The ordinary elements of a call request, in the driver's order. */
  function CallElements(destination: string, origination: string, userId: seq<Byte>, cai: seq<Byte>, planDest: int,
                        planOrig: int, presentation: Option<int>, subaddress: string)
    : Result<seq<Element>>
  {
    var calling :- if origination == "" then Ok([])
                   else One(AddressIe(IDI_OAD, origination, planOrig, presentation));
    var called :- AddressIe(IDI_CPN, destination, planDest, None);
    var sub :- if subaddress == "" then Ok([]) else One(AddressIe(IDI_DSA, subaddress, 0xFF, None));
    Ok([Element(IDI_UID, userId), Element(IDI_CAI, cai)] + calling + [called] + sub)
  }

  function One(e: Result<Element>): Result<seq<Element>> {
    if e.Ok? then Ok([e.value]) else Err(e.error)
  }

  /** The elements without their terminator, then the service pair behind a
      shift to codeset 6. */
  function CallReqPayload(elements: seq<Element>, service: int, serviceAdd: int): Result<seq<Byte>> {
    var encoded :- Encoded(elements);
    Ok(encoded[..|encoded| - 1] + [SHIFT + 8 + 6, IDI_SIN, 2, service % 0x100, serviceAdd % 0x100] + [0])
  }

  lemma CallElementsOrdinary(destination: string, origination: string, userId: seq<Byte>, cai: seq<Byte>, planDest: int,
                             planOrig: int, presentation: Option<int>, subaddress: string)
    ensures var r := CallElements(destination, origination, userId, cai, planDest, planOrig, presentation,
                                  subaddress);
            r.Ok? ==> AllOrdinary(r.value)
  {
  }

  /** The digits of a number as bytes. */
  predicate Digits(data: seq<Byte>, number: string) {
    |data| == |number| && forall i :: 0 <= i < |number| ==> number[i] < 128 as char && data[i] == number[i] as int
  }

  /** Whose number stands where: the user and the modem configuration first, then
      the calling number if there is one, the called number, and the called
      subaddress if there is one, each behind its numbering plan. */
  lemma CallNumbers(destination: string, origination: string, userId: seq<Byte>, cai: seq<Byte>, planDest: int,
                    planOrig: int, presentation: Option<int>, subaddress: string, elements: seq<Element>)
    requires CallElements(destination, origination, userId, cai, planDest, planOrig, presentation, subaddress)
          == Ok(elements)
    ensures var c := if origination == "" then 2 else 3;
            && |elements| == c + (if subaddress == "" then 1 else 2)
            && elements[0] == Element(0x2D, userId) && elements[1] == Element(0x10, cai)
            && elements[c].code == 0x70 && elements[c].data != []
            && elements[c].data[0] == planDest % 0x100 && Digits(elements[c].data[1..], destination)
            && (origination != "" ==>
                  var d, n := elements[2].data, if presentation.Some? then 2 else 1;
                  && elements[2].code == 0x6C && n <= |d| && d[0] == planOrig % 0x100 && Digits(d[n..], origination)
                  && (presentation.Some? ==> d[1] == presentation.value % 0x100))
            && (subaddress != "" ==>
                  var d := elements[c + 1].data;
                  elements[c + 1].code == 0x71 && d != [] && d[0] == 0xFF && Digits(d[1..], subaddress))
  {
    hide AddressIe;
    AddressParts(IDI_OAD, origination, planOrig, presentation);
    AddressParts(IDI_CPN, destination, planDest, None);
    AddressParts(IDI_DSA, subaddress, 0xFF, None);
  }

  lemma AddressParts(code: int, number: string, plan: int, octet3a: Option<int>)
    ensures var r, n := AddressIe(code, number, plan, octet3a), if octet3a.Some? then 2 else 1;
            && (r.Ok? <==> forall i :: 0 <= i < |number| ==> number[i] < 128 as char)
            && (r.Ok? ==>
                  var d := r.value.data;
                  && r.value.code == code && n <= |d| && d[0] == plan % 0x100 && Digits(d[n..], number)
                  && (octet3a.Some? ==> d[1] == octet3a.value % 0x100))
  {
  }

  /** What follows the ordinary elements: a shift to codeset 6 for one element,
      the service pair, and the terminator in its new place. */
  lemma CallRequestTail(elements: seq<Element>, service: int, serviceAdd: int)
    ensures CallReqPayload(elements, service, serviceAdd).Ok? <==> Framed(elements).Ok?
    ensures Framed(elements).Ok? ==>
              CallReqPayload(elements, service, serviceAdd).value
              == Framed(elements).value + [0x9E, 0x01, 0x02, service % 0x100, serviceAdd % 0x100, 0x00]
  {
    if Framed(elements).Ok? {
      var framed := Framed(elements).value;
      assert (framed + [0])[..|framed|] == framed;
    }
  }

  /** A call request parses to exactly its ordinary elements: the codeset-6 tail
      is not mistaken for one of them. */
  lemma CallRequestReadsBack(destination: string, origination: string, userId: seq<Byte>, cai: seq<Byte>, planDest: int,
                             planOrig: int, presentation: Option<int>, subaddress: string, service: int,
                             serviceAdd: int, elements: seq<Element>)
    requires CallElements(destination, origination, userId, cai, planDest, planOrig, presentation,
                          subaddress) == Ok(elements)
    ensures var r := CallReqPayload(elements, service, serviceAdd); r.Ok? ==> Parse(r.value) == Ok(elements)
  {
    hide CallElements;
    CallElementsOrdinary(destination, origination, userId, cai, planDest, planOrig, presentation,
                         subaddress);
    if Framed(elements).Ok? {
      var framed := Framed(elements).value;
      var tail: seq<Byte> := [SHIFT + 8 + 6, IDI_SIN, 2, service % 0x100, serviceAdd % 0x100, 0];
      assert (framed + [0])[..|framed|] == framed;
      assert CallReqPayload(elements, service, serviceAdd).value == framed + tail;
      ParseFramed(elements, tail);
      assert Parse(tail) == Ok([]);
      assert elements + [] == elements;
    }
  }
}
