/**
 Data mode of the AT terminal (tools/eicon_at.py): the guarded +++ escape, and
 the DLE framing of Class 1 fax data.
 */
module AtEscape {
  import opened Bytes

  // ----- what an escape is

  /** A byte and the clock reading it arrived at. */
  datatype Stamped = Stamped(byte: Byte, time: real)

  /** The data-mode session so far: when it began, and every byte since. */
  datatype Session = Session(entered: real, bytes: seq<Stamped>)

  /** The escape character and its guard time in seconds. */
  datatype Settings = Settings(escape: Byte, guard: real)

  function Content(s: Session): (b: seq<Byte>)
    ensures |b| == |s.bytes|
  {
    seq(|s.bytes|, i requires 0 <= i < |s.bytes| => s.bytes[i].byte)
  }

  function TimeBefore(s: Session, i: nat): real
    requires i <= |s.bytes|
  {
    if i == 0 then s.entered else s.bytes[i - 1].time
  }

  predicate LongEnough(guard: real, from: real, to: real) { guard == 0.0 || guard <= to - from }

  /** From byte i on there is nothing but escape characters, and a guard time of
      silence before the first of them. */
  predicate Opens(s: Session, c: Settings, i: nat) {
    && i < |s.bytes|
    && (forall j :: i <= j < |s.bytes| ==> s.bytes[j].byte == c.escape)
    && LongEnough(c.guard, TimeBefore(s, i), s.bytes[i].time)
  }

  /** At `now` the terminal has asked for command mode: at least three escape
      characters end the session, with guard silence before and after. */
  ghost predicate Escaped(s: Session, c: Settings, now: real) {
    && c.escape <= 127
    && 3 <= |s.bytes| && LongEnough(c.guard, TimeBefore(s, |s.bytes|), now)
    && exists i :: 0 <= i <= |s.bytes| - 3 && Opens(s, c, i)
  }

  /** Without a guard time any three escape characters at the end are an escape.
      With one, the line must have been silent that long after the last of them
      and before some run of at least three that nothing else follows; `entered`
      counts as the end of the silence before the first byte. */
  lemma EscapeMeans(s: Session, c: Settings, now: real)
    ensures c.guard == 0.0 && 3 <= |s.bytes| ==>
              (Escaped(s, c, now) <==>
                 c.escape <= 127 && s.bytes[|s.bytes| - 3].byte == s.bytes[|s.bytes| - 2].byte
                                    == s.bytes[|s.bytes| - 1].byte == c.escape)
    ensures Escaped(s, c, now) ==> 3 <= |s.bytes| && c.escape <= 127
    ensures Escaped(s, c, now) && c.guard > 0.0 ==>
              && now - s.bytes[|s.bytes| - 1].time >= c.guard
              && exists i :: 0 <= i <= |s.bytes| - 3 && AllEscapes(s, c, i) && Silence(s, i) >= c.guard
    ensures forall i :: c.guard > 0.0 && c.escape <= 127 && 0 <= i <= |s.bytes| - 3 && AllEscapes(s, c, i)
                        && Silence(s, i) >= c.guard && now - s.bytes[|s.bytes| - 1].time >= c.guard
                        ==> Escaped(s, c, now)
  {
    if c.guard == 0.0 && 3 <= |s.bytes| && s.bytes[|s.bytes| - 3].byte == c.escape
       && s.bytes[|s.bytes| - 2].byte == c.escape && s.bytes[|s.bytes| - 1].byte == c.escape {
      assert Opens(s, c, |s.bytes| - 3);
    }
    if Escaped(s, c, now) {
      var i :| 0 <= i <= |s.bytes| - 3 && Opens(s, c, i);
      assert AllEscapes(s, c, i);
    }
    forall i | c.guard > 0.0 && c.escape <= 127 && 0 <= i <= |s.bytes| - 3 && AllEscapes(s, c, i)
               && Silence(s, i) >= c.guard && now - s.bytes[|s.bytes| - 1].time >= c.guard
      ensures Escaped(s, c, now)
    {
      assert Opens(s, c, i);
    }
  }

  predicate AllEscapes(s: Session, c: Settings, i: nat) {
    forall j :: i <= j < |s.bytes| ==> s.bytes[j].byte == c.escape
  }

  /** How long the line was silent before byte i. */
  function Silence(s: Session, i: nat): real
    requires i < |s.bytes|
  {
    s.bytes[i].time - (if i == 0 then s.entered else s.bytes[i - 1].time)
  }

  function Escapes(c: Settings, n: nat): (b: seq<Byte>)
    ensures |b| == n
  {
    seq(n, _ => c.escape)
  }

  // ----- one more byte

  function With(s: Session, b: Byte, now: real): Session { s.(bytes := s.bytes + [Stamped(b, now)]) }

  function WithAll(s: Session, data: seq<Byte>, now: real): Session {
    s.(bytes := s.bytes + seq(|data|, i requires 0 <= i < |data| => Stamped(data[i], now)))
  }

  lemma OpensWith(s: Session, c: Settings, b: Byte, now: real, i: nat)
    ensures i < |s.bytes| ==> (Opens(With(s, b, now), c, i) <==> b == c.escape && Opens(s, c, i))
    ensures i == |s.bytes| ==>
              (Opens(With(s, b, now), c, i) <==> b == c.escape && LongEnough(c.guard, TimeBefore(s, |s.bytes|), now))
    ensures |s.bytes| < i ==> !Opens(With(s, b, now), c, i)
  {
    var t := With(s, b, now);
    assert t.bytes[|s.bytes|] == Stamped(b, now);
    if i < |s.bytes| {
      assert TimeBefore(t, i) == TimeBefore(s, i);
      if Opens(t, c, i) {
        assert forall j :: i <= j < |s.bytes| ==> s.bytes[j] == t.bytes[j];
      }
    }
  }

  lemma ContentWith(s: Session, b: Byte, now: real)
    ensures Content(With(s, b, now)) == Content(s) + [b]
    ensures TimeBefore(With(s, b, now), |s.bytes| + 1) == now
  {
  }

  lemma ContentWithAll(s: Session, data: seq<Byte>, now: real)
    ensures Content(WithAll(s, data, now)) == Content(s) + data
  {
  }

  lemma EscapesCommute(c: Settings, n: nat)
    ensures Escapes(c, 0) == []
    ensures Escapes(c, n) + [c.escape] == Escapes(c, n + 1) == [c.escape] + Escapes(c, n)
  {
  }

  /** The three ways a byte leaves the account balanced: sent after the held
      escapes, held with them, or sent in place of one of them. */
  lemma Balance(s: Session, sent: seq<Byte>, c: Settings, n: nat, b: Byte, now: real)
    requires Content(s) == sent + Escapes(c, n)
    ensures Content(With(s, b, now)) == (sent + (Escapes(c, n) + [b])) + Escapes(c, 0)
    ensures b == c.escape ==> Content(With(s, b, now)) == (sent + []) + Escapes(c, n + 1)
    ensures b == c.escape ==> Content(With(s, b, now)) == (sent + [b]) + Escapes(c, n)
    ensures Escapes(c, 0) + [b] == [b]
  {
    ContentWith(s, b, now);
    EscapesCommute(c, n);
  }

  // ----- the terminal

  datatype Mode = Command | Data

  class Terminal {
    var mode: Mode
    var s2: nat
    var s12: nat
    var escapeCount: nat
    var escapeLast: real
    var lastData: real

    ghost var session: Session
    ghost var sent: seq<Byte>
    ghost var begin: nat

    function Current(): Settings
      requires s2 <= 255
      reads this
    {
      Settings(s2, s12 as real / 50.0)
    }

    /** The held count and the two clock fields say exactly whether, and where,
        an escape has begun; what was not sent is what is held. */
    ghost predicate Valid()
      reads this
    {
      && s2 <= 255 && s12 <= 255 && escapeCount <= 3
      && (mode != Data || 127 < s2 ==> escapeCount == 0)
      && (mode == Data ==> Content(session) == sent + Escapes(Current(), escapeCount))
      && (mode == Data && s2 <= 127 ==> Tracking())
    }

    ghost predicate Tracking()
      requires s2 <= 255
      reads this
    {
      && (escapeCount == 0 ==>
            lastData == TimeBefore(session, |session.bytes|) && forall i :: !Opens(session, Current(), i))
      && (escapeCount != 0 ==>
            && escapeLast == TimeBefore(session, |session.bytes|)
            && Opens(session, Current(), begin) && (forall i :: 0 <= i < begin ==> !Opens(session, Current(), i))
            && escapeCount == if |session.bytes| - begin < 3 then |session.bytes| - begin else 3)
    }

    constructor ()
      ensures Valid() && mode == Command
    {
      mode, s2, s12, escapeCount, escapeLast, lastData := Command, 43, 50, 0, 0.0, 0.0;
      session, sent, begin := Session(0.0, []), [], 0;
    }

    /** Carrier up: into data mode unless told to stay. */
    method Connected(stay: bool, now: real)
      requires Valid()
      modifies this
      ensures Valid() && mode == (if stay then Command else Data) && session == Session(now, []) && sent == []
    {
      mode, lastData, escapeCount := if stay then Command else Data, now, 0;
      session, sent, begin := Session(now, []), [], 0;
    }

    method Disconnected()
      requires Valid()
      modifies this
      ensures Valid() && mode == Command
    {
      mode, escapeCount := Command, 0;
    }

    /** ATO, given in command mode. */
    method Online(now: real)
      requires Valid() && mode == Command
      modifies this
      ensures Valid() && mode == Data && session == Session(now, []) && sent == []
    {
      mode, lastData := Data, now;
      session, sent, begin := Session(now, []), [], 0;
    }

    /** ATSn=v, given in command mode. */
    method SetRegister(index: nat, value: nat)
      requires Valid() && mode == Command && value <= 255
      modifies this
      ensures Valid() && mode == Command
      ensures s2 == (if index == 2 then value else old(s2)) && s12 == if index == 12 then value else old(s12)
    {
      if index == 2 {
        s2 := value;
      } else if index == 12 {
        s12 := value;
      }
    }

    /** Everything fed is in the session, and everything but the held escapes has
        gone to the link, in order. */
    method FeedData(data: seq<Byte>, now: real) returns (toLink: seq<Byte>)
      requires Valid() && mode == Data
      modifies this
      ensures Valid() && mode == Data && s2 == old(s2) && s12 == old(s12)
      ensures session == WithAll(old(session), data, now) && sent == old(sent) + toLink
      ensures old(Content(session)) + data == sent + Escapes(Current(), escapeCount)
    {
      hide Content, Escapes, Tracking;
      toLink := [];
      var escape := s2;
      if 127 < escape {
        lastData := now;
        ContentWithAll(session, data, now);
        EscapesCommute(Current(), 0);
        session, sent := WithAll(session, data, now), sent + data;
        return data;
      }
      for k := 0 to |data|
        invariant Valid() && mode == Data && s2 == old(s2) && s12 == old(s12)
        invariant session == WithAll(old(session), data[..k], now) && sent == old(sent) + toLink
      {
        hide Valid, Content, Escapes;
        var out := FeedByte(data[k], now);
        assert data[..k + 1] == data[..k] + [data[k]];
        toLink := toLink + out;
      }
      assert data[..|data|] == data;
      ContentWithAll(old(session), data, now);
    }

    /** The body of that loop. */
    method FeedByte(byte: Byte, now: real) returns (out: seq<Byte>)
      requires Valid() && mode == Data && s2 <= 127
      modifies this
      ensures Valid() && mode == Data && s2 == old(s2) && s12 == old(s12)
      ensures session == With(old(session), byte, now) && sent == old(sent) + out
    {
      hide Opens, Content, Escapes;
      var guard := s12 as real / 50.0;
      out := [];
      session := With(session, byte, now);
      ghost var c := Current();
      ContentWith(old(session), byte, now);
      Balance(old(session), sent, c, escapeCount, byte, now);
      forall i: nat
        ensures i < |session.bytes| - 1 ==> (Opens(session, c, i) <==> byte == s2 && Opens(old(session), c, i))
        ensures i == |session.bytes| - 1 ==>
                  (Opens(session, c, i) <==> byte == s2 && LongEnough(guard, TimeBefore(old(session), i), now))
        ensures |session.bytes| <= i ==> !Opens(session, c, i)
      {
        OpensWith(old(session), c, byte, now, i);
      }
      if byte == s2 {
        if escapeCount == 0 {
          if guard != 0.0 && now - lastData < guard {
            out, lastData := [byte], now;
            sent := sent + out;
            return;
          }
          escapeCount, begin := 1, |session.bytes| - 1;
        } else if escapeCount < 3 {
          escapeCount := escapeCount + 1;
        } else {
          out := [byte];
        }
        escapeLast := now;
        sent := sent + out;
        assert sent + [] == sent;
        return;
      }
      out := Escapes(Current(), escapeCount) + [byte];
      escapeCount, lastData := 0, now;
      sent := sent + out;
    }

    /** Leaves data mode exactly when the session is an escape, having withheld
        exactly three characters of it. */
    method Poll(now: real) returns (left: bool)
      requires Valid()
      modifies this
      ensures Valid() && s2 == old(s2) && s12 == old(s12) && session == old(session) && sent == old(sent)
      ensures left <==> old(mode) == Data && Escaped(session, Current(), now)
      ensures left ==> mode == Command && Content(session) == sent + Escapes(Current(), 3)
      ensures !left ==> mode == old(mode) && escapeCount == old(escapeCount)
    {
      if mode != Data || escapeCount < 3 {
        return false;
      }
      var guard := s12 as real / 50.0;
      if guard != 0.0 && now - escapeLast < guard {
        return false;
      }
      escapeCount, mode := 0, Command;
      return true;
    }
  }

  // ----- Class 1 fax data

  const DLE: Byte := 0x10
  const ETX: Byte := 0x03

  /** A frame under way, or the one that has been completed. */
  datatype Fax = Open(payload: seq<Byte>) | Sent(frame: seq<Byte>)

  /** One chunk of the terminal's stream; what follows DLE ETX is dropped, and a
      DLE that ends the chunk is stored. */
  function Fed(payload: seq<Byte>, data: seq<Byte>): Fax
    decreases data
  {
    if data == [] then Open(payload)
    else if data[0] != DLE || |data| == 1 then Fed(payload + [data[0]], data[1..])
    else if data[1] == DLE then Fed(payload + [DLE], data[2..])
    else if data[1] != ETX then Fed(payload + [DLE, data[1]], data[2..])
    else Sent(payload)
  }

  /** Chunks fed in turn; once the frame is complete the rest is ignored. */
  function FedAll(payload: seq<Byte>, chunks: seq<seq<Byte>>): Fax
    decreases chunks
  {
    if chunks == [] then Open(payload)
    else
      match Fed(payload, chunks[0])
      case Sent(frame) => Sent(frame)
      case Open(more) => FedAll(more, chunks[1..])
  }

  /** Every DLE doubled, as the receive side writes it. */
  function Doubled(payload: seq<Byte>): seq<Byte> {
    if payload == [] then []
    else (if payload[0] == DLE then [DLE, DLE] else [payload[0]]) + Doubled(payload[1..])
  }

  function Joined(pieces: seq<seq<Byte>>): seq<Byte> {
    if pieces == [] then [] else pieces[0] + Joined(pieces[1..])
  }

  lemma {:induction false} DoubledIsFed(payload: seq<Byte>, piece: seq<Byte>, rest: seq<Byte>)
    ensures Fed(payload, Doubled(piece) + rest) == Fed(payload + piece, rest)
    decreases piece
  {
    hide Fed;
    if piece == [] {
      assert Doubled(piece) + rest == rest && payload + piece == payload;
    } else {
      var tail := Doubled(piece[1..]) + rest;
      FedStarts(payload, piece[0], tail);
      DoubledIsFed(payload + [piece[0]], piece[1..], rest);
      assert payload + [piece[0]] + piece[1..] == payload + piece;
      assert Doubled(piece) + rest == (if piece[0] == DLE then [DLE, DLE] else [piece[0]]) + tail;
    }
  }

  lemma FedStarts(payload: seq<Byte>, x: Byte, tail: seq<Byte>)
    ensures Fed(payload, (if x == DLE then [DLE, DLE] else [x]) + tail) == Fed(payload + [x], tail)
  {
    if x == DLE {
      assert ([DLE, DLE] + tail)[2..] == tail;
    } else {
      assert ([x] + tail)[1..] == tail;
    }
  }

  /** What is still to come of a frame whose bytes `left` have not been read. */
  function Remaining(left: seq<Byte>): (s: seq<Byte>)
    ensures 2 <= |s|
  {
    Doubled(left) + [DLE, ETX]
  }

  /** Length of the run of DLEs a chunk ends with. */
  function DleRun(chunk: seq<Byte>): nat {
    if chunk == [] || chunk[|chunk| - 1] != DLE then 0 else 1 + DleRun(chunk[..|chunk| - 1])
  }

  /** The chunk ends on a DLE that has no partner in it. */
  predicate EndsUnpaired(chunk: seq<Byte>) { DleRun(chunk) % 2 == 1 }

  predicate AllPaired(chunks: seq<seq<Byte>>) { forall i :: 0 <= i < |chunks| ==> !EndsUnpaired(chunks[i]) }

  // ----- one step of the cursor, seen from the whole list of chunks

  /** The chunks with n bytes of the first one read. */
  function ReadOn(chunks: seq<seq<Byte>>, n: nat): seq<seq<Byte>>
    requires chunks != [] && n <= |chunks[0]|
  {
    [chunks[0][n..]] + chunks[1..]
  }

  /** Bytes and chunks still to be read. */
  function Size(chunks: seq<seq<Byte>>): nat { |Joined(chunks)| + |chunks| }

  lemma ReadingOn(chunks: seq<seq<Byte>>, n: nat)
    requires chunks != [] && 0 < n <= |chunks[0]|
    ensures n <= |Joined(chunks)| && Joined(ReadOn(chunks, n)) == Joined(chunks)[n..]
    ensures Joined(chunks)[..n] == chunks[0][..n]
    ensures Size(ReadOn(chunks, n)) < Size(chunks)
  {
    assert ReadOn(chunks, n)[1..] == chunks[1..];
    CutFront(chunks[0], Joined(chunks[1..]), n);
  }

  lemma CutFront(a: seq<Byte>, b: seq<Byte>, n: nat)
    requires n <= |a|
    ensures (a + b)[..n] == a[..n] && (a + b)[n..] == a[n..] + b
  {
  }

  lemma EmptyChunk(payload: seq<Byte>, chunks: seq<seq<Byte>>)
    requires chunks != [] && chunks[0] == []
    ensures FedAll(payload, chunks) == FedAll(payload, chunks[1..])
    ensures Joined(chunks) == Joined(chunks[1..]) && Size(chunks[1..]) < Size(chunks)
    ensures AllPaired(chunks) <==> AllPaired(chunks[1..])
  {
    assert [] + Joined(chunks[1..]) == Joined(chunks[1..]);
    PairedAfter(chunks, 0);
  }

  /** Reading on past a whole pair, or past any other byte, leaves the pairing of
      every chunk's end as it was. */
  lemma PairedAfter(chunks: seq<seq<Byte>>, n: nat)
    requires chunks != [] && n <= |chunks[0]|
    ensures (EndsUnpaired(chunks[0][n..]) <==> EndsUnpaired(chunks[0])) ==>
              (AllPaired(ReadOn(chunks, n)) <==> AllPaired(chunks))
    ensures chunks[0] == [] ==> (AllPaired(chunks[1..]) <==> AllPaired(chunks))
  {
    var after := ReadOn(chunks, n);
    assert forall i :: 0 < i < |chunks| ==> after[i] == chunks[i] == chunks[1..][i - 1];
    assert forall i :: 0 <= i < |chunks[1..]| ==> chunks[1..][i] == chunks[i + 1];
  }

  lemma {:induction false} RunUnchanged(x: Byte, chunk: seq<Byte>)
    requires x != DLE
    ensures DleRun([x] + chunk) == DleRun(chunk)
  {
    if chunk != [] {
      assert ([x] + chunk)[..|chunk|] == [x] + chunk[..|chunk| - 1];
      RunUnchanged(x, chunk[..|chunk| - 1]);
    } else {
      assert [x] + chunk == [x];
    }
  }

  lemma {:induction false} PairUnchanged(chunk: seq<Byte>)
    ensures EndsUnpaired([DLE, DLE] + chunk) <==> EndsUnpaired(chunk)
  {
    var longer := [DLE, DLE] + chunk;
    if chunk != [] {
      assert longer[..|chunk| + 1] == [DLE, DLE] + chunk[..|chunk| - 1];
      PairUnchanged(chunk[..|chunk| - 1]);
    } else {
      assert longer == [DLE, DLE] && longer[..1] == [DLE] && [DLE][..0] == [];
      assert DleRun([]) == 0;
      assert DleRun([DLE]) == 1;
      assert DleRun(longer) == 2;
    }
  }

  /** A byte that is no DLE, or a DLE that ends its chunk, is stored. */
  lemma StepStored(payload: seq<Byte>, chunks: seq<seq<Byte>>)
    requires chunks != [] && chunks[0] != [] && (chunks[0][0] != DLE || |chunks[0]| == 1)
    ensures FedAll(payload, chunks) == FedAll(payload + [chunks[0][0]], ReadOn(chunks, 1))
    ensures chunks[0][0] != DLE ==> (AllPaired(ReadOn(chunks, 1)) <==> AllPaired(chunks))
    ensures chunks[0] == [DLE] ==> !AllPaired(chunks)
  {
    assert ReadOn(chunks, 1)[1..] == chunks[1..];
    assert chunks[0] == [chunks[0][0]] + chunks[0][1..];
    if chunks[0][0] != DLE {
      RunUnchanged(chunks[0][0], chunks[0][1..]);
      PairedAfter(chunks, 1);
    } else {
      assert DleRun([]) == 0 && chunks[0][..0] == [];
      assert EndsUnpaired(chunks[0]);
    }
  }

  lemma StepPair(payload: seq<Byte>, chunks: seq<seq<Byte>>)
    requires chunks != [] && 2 <= |chunks[0]| && chunks[0][0] == DLE == chunks[0][1]
    ensures FedAll(payload, chunks) == FedAll(payload + [DLE], ReadOn(chunks, 2))
    ensures AllPaired(ReadOn(chunks, 2)) <==> AllPaired(chunks)
  {
    assert ReadOn(chunks, 2)[1..] == chunks[1..];
    assert chunks[0] == [DLE, DLE] + chunks[0][2..];
    PairUnchanged(chunks[0][2..]);
    PairedAfter(chunks, 2);
  }

  lemma StepOther(payload: seq<Byte>, chunks: seq<seq<Byte>>)
    requires chunks != [] && 2 <= |chunks[0]| && chunks[0][0] == DLE
    ensures chunks[0][1] == ETX ==> FedAll(payload, chunks) == Sent(payload)
    ensures chunks[0][1] != ETX && chunks[0][1] != DLE ==>
              FedAll(payload, chunks) == FedAll(payload + [DLE, chunks[0][1]], ReadOn(chunks, 2))
  {
    assert ReadOn(chunks, 2)[1..] == chunks[1..];
  }

  lemma RemainingStarts(left: seq<Byte>)
    ensures left == [] ==> Remaining(left) == [DLE, ETX]
    ensures left != [] && left[0] != DLE ==> Remaining(left) == [left[0]] + Remaining(left[1..])
    ensures left != [] && left[0] == DLE ==> Remaining(left) == [DLE, DLE] + Remaining(left[1..])
    ensures left != [] && left[0] == DLE ==> Remaining(left)[1..] == [DLE] + Remaining(left[1..])
  {
  }

  /** The front of the first chunk is the front of what is still to come. */
  lemma FrontOf(chunks: seq<seq<Byte>>, coming: seq<Byte>)
    requires chunks != [] && chunks[0] != [] && Joined(chunks) == coming
    ensures coming != [] && chunks[0][0] == coming[0]
    ensures 2 <= |chunks[0]| ==> 2 <= |coming| && chunks[0][1] == coming[1]
    ensures Joined(ReadOn(chunks, 1)) == coming[1..] && Size(ReadOn(chunks, 1)) < Size(chunks)
    ensures 2 <= |chunks[0]| ==> Joined(ReadOn(chunks, 2)) == coming[2..] && Size(ReadOn(chunks, 2)) < Size(chunks)
  {
    ReadingOn(chunks, 1);
    assert coming[..1][0] == chunks[0][..1][0];
    if 2 <= |chunks[0]| {
      ReadingOn(chunks, 2);
      assert coming[..2][1] == chunks[0][..2][1];
    }
  }

  // ----- cuttings that deliver the frame

  lemma {:induction false} PairedDelivers(payload: seq<Byte>, left: seq<Byte>, chunks: seq<seq<Byte>>)
    requires Joined(chunks) == Remaining(left) && AllPaired(chunks)
    ensures FedAll(payload, chunks) == Sent(payload + left)
    decreases Size(chunks)
  {
    hide FedAll, Fed, Joined, Remaining, AllPaired, EndsUnpaired, Size;
    assert chunks != [] by {
      NoChunks(left);
    }
    RemainingStarts(left);
    if chunks[0] == [] {
      EmptyChunk(payload, chunks);
      PairedDelivers(payload, left, chunks[1..]);
    } else {
      FrontOf(chunks, Remaining(left));
      if |chunks[0]| == 1 || chunks[0][0] != DLE {
        StepStored(payload, chunks);
        PairedDelivers(payload + [left[0]], left[1..], ReadOn(chunks, 1));
        assert payload + [left[0]] + left[1..] == payload + left;
      } else if left == [] {
        StepOther(payload, chunks);
        assert payload + left == payload;
      } else {
        StepPair(payload, chunks);
        PairedDelivers(payload + [DLE], left[1..], ReadOn(chunks, 2));
        assert payload + [DLE] + left[1..] == payload + left;
      }
    }
  }

  lemma NoChunks(left: seq<Byte>)
    ensures Joined([]) == [] != Remaining(left)
  {
  }

  // ----- cuttings that do not

  function Etxs(bytes: seq<Byte>): nat {
    if bytes == [] then 0 else (if bytes[0] == ETX then 1 else 0) + Etxs(bytes[1..])
  }

  lemma {:induction false} EtxsJoined(a: seq<Byte>, b: seq<Byte>)
    ensures Etxs(a + b) == Etxs(a) + Etxs(b)
  {
    if a == [] {
      assert a + b == b;
    } else {
      EtxsJoined(a[1..], b);
      assert a + b == [a[0]] + (a[1..] + b);
    }
  }

  /** An ETX whose DLE has been read away does not complete a frame. */
  lemma {:induction false} LoneEtx(payload: seq<Byte>, chunks: seq<seq<Byte>>)
    requires Joined(chunks) == [ETX]
    ensures FedAll(payload, chunks) == Open(payload + [ETX])
    decreases chunks
  {
    if chunks[0] == [] {
      EmptyChunk(payload, chunks);
      LoneEtx(payload, chunks[1..]);
    } else {
      FrontOf(chunks, [ETX]);
      StepStored(payload, chunks);
      NothingToRead(payload + [ETX], ReadOn(chunks, 1));
    }
  }

  lemma {:induction false} NothingToRead(payload: seq<Byte>, chunks: seq<seq<Byte>>)
    requires Joined(chunks) == []
    ensures FedAll(payload, chunks) == Open(payload)
    decreases chunks
  {
    if chunks != [] {
      EmptyChunk(payload, chunks);
      NothingToRead(payload, chunks[1..]);
    }
  }

  /** The cursor has gone astray: either it is in step but has stored too many
      bytes, or it stands on the second DLE of a pair. */
  ghost predicate Astray(frame: seq<Byte>, payload: seq<Byte>, left: seq<Byte>, coming: seq<Byte>) {
    && Etxs(payload) + Etxs(left) == Etxs(frame)
    && ((coming == Remaining(left) && |frame| < |payload| + |left|)
        || (coming == [DLE] + Remaining(left) && |frame| <= |payload| + |left|))
  }

  /** Once astray it never delivers the frame. */
  lemma {:induction false} AstrayNeverDelivers(frame: seq<Byte>, payload: seq<Byte>, left: seq<Byte>,
                                               chunks: seq<seq<Byte>>)
    requires Astray(frame, payload, left, Joined(chunks))
    ensures FedAll(payload, chunks) != Sent(frame)
    decreases Size(chunks)
  {
    hide FedAll, Fed, Joined, Remaining, EndsUnpaired, AllPaired, Size, Etxs;
    assert chunks != [] by {
      NoChunks(left);
    }
    if chunks[0] == [] {
      EmptyChunk(payload, chunks);
      AstrayNeverDelivers(frame, payload, left, chunks[1..]);
    } else if Joined(chunks) == Remaining(left) && |frame| < |payload| + |left| {
      TooLong(frame, payload, left, chunks);
    } else {
      OutOfStep(frame, payload, left, chunks);
    }
  }

  lemma {:induction false} TooLong(frame: seq<Byte>, payload: seq<Byte>, left: seq<Byte>, chunks: seq<seq<Byte>>)
    requires chunks != [] && chunks[0] != [] && Joined(chunks) == Remaining(left)
    requires Etxs(payload) + Etxs(left) == Etxs(frame) && |frame| < |payload| + |left|
    ensures FedAll(payload, chunks) != Sent(frame)
    decreases Size(chunks), 0
  {
    hide FedAll, Fed, Joined, Remaining, EndsUnpaired, AllPaired, Size, Etxs;
    RemainingStarts(left);
    FrontOf(chunks, Remaining(left));
    var stored := payload + [chunks[0][0]];
    MovedOver(payload, left);
    if left == [] {
      if |chunks[0]| == 1 {
        StepStored(payload, chunks);
        LoneEtx(stored, ReadOn(chunks, 1));
      } else {
        StepOther(payload, chunks);
      }
    } else if |chunks[0]| == 1 || left[0] != DLE {
      StepStored(payload, chunks);
      AstrayNeverDelivers(frame, stored, left[1..], ReadOn(chunks, 1));
    } else {
      StepPair(payload, chunks);
      AstrayNeverDelivers(frame, payload + [DLE], left[1..], ReadOn(chunks, 2));
    }
  }

  lemma {:induction false} OutOfStep(frame: seq<Byte>, payload: seq<Byte>, left: seq<Byte>, chunks: seq<seq<Byte>>)
    requires chunks != [] && chunks[0] != [] && Joined(chunks) == [DLE] + Remaining(left)
    requires Etxs(payload) + Etxs(left) == Etxs(frame) && |frame| <= |payload| + |left|
    ensures FedAll(payload, chunks) != Sent(frame)
    decreases Size(chunks), 0
  {
    hide FedAll, Fed, Joined, Remaining, EndsUnpaired, AllPaired, Size, Etxs;
    RemainingStarts(left);
    FrontOf(chunks, [DLE] + Remaining(left));
    MovedOver(payload, left);
    assert ([DLE] + Remaining(left))[1..] == Remaining(left);
    assert ([DLE] + Remaining(left))[2..] == Remaining(left)[1..];
    if |chunks[0]| == 1 {
      StepStored(payload, chunks);
      AstrayNeverDelivers(frame, payload + [DLE], left, ReadOn(chunks, 1));
    } else if left == [] {
      StepPair(payload, chunks);
      LoneEtx(payload + [DLE], ReadOn(chunks, 2));
    } else if left[0] == DLE {
      StepPair(payload, chunks);
      AstrayNeverDelivers(frame, payload + [DLE], left[1..], ReadOn(chunks, 2));
    } else {
      StepOther(payload, chunks);
      if left[0] != ETX {
        AstrayNeverDelivers(frame, payload + [DLE, left[0]], left[1..], ReadOn(chunks, 2));
      }
    }
  }

  /** ETX counts as bytes are stored. */
  lemma MovedOver(payload: seq<Byte>, left: seq<Byte>)
    ensures Etxs([]) == 0 && Etxs(payload + [DLE]) == Etxs(payload)
    ensures left != [] ==> Etxs(payload + [left[0]]) + Etxs(left[1..]) == Etxs(payload) + Etxs(left)
    ensures left != [] ==> Etxs(payload + [DLE, left[0]]) + Etxs(left[1..]) == Etxs(payload) + Etxs(left)
    ensures left != [] && left[0] == ETX ==> 0 < Etxs(left)
  {
    EtxsJoined(payload, [DLE]);
    if left != [] {
      EtxsJoined(payload, [left[0]]);
      EtxsJoined(payload + [DLE], [left[0]]);
      assert payload + [DLE] + [left[0]] == payload + [DLE, left[0]];
      assert Etxs([left[0]]) == (if left[0] == ETX then 1 else 0) + Etxs([]);
    }
  }

  lemma {:induction false} UnpairedNeverDelivers(payload: seq<Byte>, left: seq<Byte>, chunks: seq<seq<Byte>>)
    requires Joined(chunks) == Remaining(left) && !AllPaired(chunks)
    ensures FedAll(payload, chunks) != Sent(payload + left)
    decreases Size(chunks)
  {
    hide FedAll, Fed, Joined, Remaining, EndsUnpaired, AllPaired, Size, Etxs;
    assert chunks != [] by {
      NoChunks(left);
    }
    RemainingStarts(left);
    if chunks[0] == [] {
      EmptyChunk(payload, chunks);
      UnpairedNeverDelivers(payload, left, chunks[1..]);
    } else {
      FrontOf(chunks, Remaining(left));
      if chunks[0][0] != DLE {
        StepStored(payload, chunks);
        UnpairedNeverDelivers(payload + [left[0]], left[1..], ReadOn(chunks, 1));
        assert payload + [left[0]] + left[1..] == payload + left;
      } else if |chunks[0]| == 1 {
        StepStored(payload, chunks);
        if left == [] {
          LoneEtx(payload + [DLE], ReadOn(chunks, 1));
        } else {
          MovedOver(payload, left);
          EtxsJoined(payload, left);
          AstrayNeverDelivers(payload + left, payload + [DLE], left[1..], ReadOn(chunks, 1));
        }
      } else if left == [] {
        PairedEnd(chunks);
      } else {
        StepPair(payload, chunks);
        UnpairedNeverDelivers(payload + [DLE], left[1..], ReadOn(chunks, 2));
        assert payload + [DLE] + left[1..] == payload + left;
      }
    }
  }

  /** DLE ETX in one chunk, with nothing after it, leaves no chunk unpaired. */
  lemma PairedEnd(chunks: seq<seq<Byte>>)
    requires Joined(chunks) == [DLE, ETX] && chunks != [] && 2 <= |chunks[0]|
    ensures AllPaired(chunks)
  {
    FrontOf(chunks, [DLE, ETX]);
    assert chunks[0] == [DLE, ETX];
    assert Joined(chunks) == [DLE, ETX] + Joined(chunks[1..]);
    AllEmpty(chunks[1..]);
    forall i | 0 <= i < |chunks|
      ensures !EndsUnpaired(chunks[i])
    {
      if 0 < i {
        assert chunks[i] == chunks[1..][i - 1];
      }
    }
  }

  lemma {:induction false} AllEmpty(chunks: seq<seq<Byte>>)
    requires Joined(chunks) == []
    ensures forall i :: 0 <= i < |chunks| ==> chunks[i] == []
  {
    if chunks != [] {
      AllEmpty(chunks[1..]);
      assert forall i :: 0 < i < |chunks| ==> chunks[i] == chunks[1..][i - 1];
    }
  }

  /** The receive side's framing undone by the send side.  However the doubled
      frame and its DLE ETX are cut into chunks, the frame comes out as it went
      in if and only if no chunk ends on an unpaired DLE. */
  lemma FramesRoundTrip(payload: seq<Byte>, frame: seq<Byte>, chunks: seq<seq<Byte>>)
    requires Joined(chunks) == Doubled(frame) + [0x10, 0x03]
    ensures FedAll(payload, chunks) == Sent(payload + frame) <==> AllPaired(chunks)
  {
    hide FedAll, AllPaired, Joined;
    if AllPaired(chunks) {
      PairedDelivers(payload, frame, chunks);
    } else {
      UnpairedNeverDelivers(payload, frame, chunks);
    }
  }

  /** What a bad cut does depends on where the rest is cut: the frame may gain a
      byte, end early, or never be completed. */
  lemma BadCuts()
    ensures FedAll([], [[DLE], [DLE], [DLE, ETX]]) == Sent([DLE, DLE])
    ensures FedAll([], [[DLE], [DLE, ETX, DLE, ETX]]) == Sent([DLE])
    ensures FedAll([], [[DLE], [DLE, DLE, ETX]]) == Open([DLE, DLE, ETX])
    ensures FedAll([], [[DLE], [ETX]]) == Open([DLE, ETX])
  {
    SplitPairAddsOne([], []);
    assert Doubled([]) + [DLE] == [DLE];
    OneStep([DLE], [[DLE, ETX, DLE, ETX]]);
    OneStep([DLE], [[DLE, DLE, ETX]]);
    OneStep([DLE], [[ETX]]);
    assert [DLE] + [DLE] == [DLE, DLE] && [DLE, DLE, ETX][2..] == [ETX];
    assert Fed([DLE], [DLE, DLE, ETX]) == Fed([DLE, DLE], [ETX]) == Open([DLE, DLE, ETX]);
    assert Fed([DLE], [ETX]) == Open([DLE, ETX]);
  }

  lemma OneStep(chunk: seq<Byte>, rest: seq<seq<Byte>>)
    requires chunk == [DLE] && |rest| == 1
    ensures FedAll([], [chunk] + rest) == Fed([DLE], rest[0])
  {
    assert ([chunk] + rest)[1..] == rest && rest[1..] == [];
    assert Fed([], chunk) == Fed([DLE], []) == Open([DLE]);
    assert FedAll([], [chunk] + rest) == FedAll([DLE], rest);
    if Fed([DLE], rest[0]).Open? {
      assert FedAll([DLE], rest) == FedAll(Fed([DLE], rest[0]).payload, []);
    }
  }

  /** When the second DLE of a pair is alone in its chunk, the frame gains a byte. */
  lemma SplitPairAddsOne(payload: seq<Byte>, before: seq<Byte>)
    ensures FedAll(payload, [Doubled(before) + [DLE], [DLE], [DLE, ETX]]) == Sent(payload + before + [DLE, DLE])
  {
    DoubledIsFed(payload, before, [DLE]);
    var chunks := [Doubled(before) + [DLE], [DLE], [DLE, ETX]];
    var held := payload + before + [DLE];
    assert chunks[1..] == [[DLE], [DLE, ETX]] && chunks[1..][1..] == [[DLE, ETX]];
    assert Fed(held, [DLE]) == Open(held + [DLE]);
    assert Fed(held + [DLE], [DLE, ETX]) == Sent(held + [DLE]);
    assert FedAll(held, [[DLE], [DLE, ETX]]) == FedAll(held + [DLE], [[DLE, ETX]]);
    assert held + [DLE] == payload + before + [DLE, DLE];
  }

  class FaxPort {
    var sending: bool
    var payload: seq<Byte>
    var frames: seq<seq<Byte>>

    method FeedFaxData(data: seq<Byte>) returns (complete: bool)
      modifies this
      ensures !old(sending) ==> !complete && !sending && payload == old(payload) && frames == old(frames)
      ensures old(sending) ==>
                match Fed(old(payload), data)
                case Sent(frame) => complete && !sending && payload == [] && frames == old(frames) + [frame]
                case Open(more) => !complete && sending && payload == more && frames == old(frames)
    {
      complete := false;
      if !sending {
        return;
      }
      var pos := 0;
      while pos < |data|
        invariant pos <= |data| && sending && frames == old(frames)
        invariant Fed(old(payload), data) == Fed(payload, data[pos..])
      {
        var byte := data[pos];
        if byte != DLE {
          payload, pos := payload + [byte], pos + 1;
        } else if pos + 1 == |data| {
          payload := payload + [byte];
          return;
        } else if data[pos + 1] == DLE {
          payload, pos := payload + [DLE], pos + 2;
        } else if data[pos + 1] != ETX {
          payload, pos := payload + [byte, data[pos + 1]], pos + 2;
        } else {
          frames, payload, sending, complete := frames + [payload], [], false, true;
          return;
        }
      }
    }

    /** The reads of one frame, in turn. */
    method FeedChunks(chunks: seq<seq<Byte>>)
      requires sending
      modifies this
      ensures match FedAll(old(payload), chunks)
              case Sent(frame) => !sending && payload == [] && frames == old(frames) + [frame]
              case Open(more) => sending && payload == more && frames == old(frames)
    {
      assert chunks[0..] == chunks;
      for i := 0 to |chunks|
        invariant sending && frames == old(frames)
        invariant FedAll(old(payload), chunks) == FedAll(payload, chunks[i..])
      {
        assert chunks[i..][1..] == chunks[i + 1..];
        var complete := FeedFaxData(chunks[i]);
        if complete {
          return;
        }
      }
    }
  }
}
