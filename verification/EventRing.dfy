/**
 The 2400 Hz publication cycle and the DSP-to-host event ring of
 tools/dial_kernel_dispatch.py.

 Ghost state keeps every event ever written to the ring and how far the host
 has read, both as unbounded numbers; the ring itself only has eight slots and
 16-bit counters.
 */
module EventRing {
  import opened Arithmetic
  import opened Bytes
  import opened Options

  const MEMORY_WORDS := 0x4000
  const EVENT_STRUCT_PTR := 0x3F70
  const CHANGE_BITS := 0x3FA1
  const RSTATUS_CH_DBS := 0x3FA3
  const RSTATUS_DBS := 0x3FA4
  const TRNPROG_DBS := 0x3FA5
  const PUBLISHED_WORDS := {CHANGE_BITS, RSTATUS_CH_DBS, RSTATUS_DBS, TRNPROG_DBS}
  const LIVE_RSTATUS_CH := 0x3FC0
  const LIVE_RSTATUS := 0x3FC1
  const LIVE_TRNPROG := 0x3FC2
  const SAMPLE_RATE := 8000

  // ----- the ring as a window on everything written

  /** Nine words at p: eight slots and the counter.  ProduceRx2400 and PollEvents
      check the range themselves; a valid structure also lies clear of the words
      the host publishes and reads. */
  predicate RingAt(p: int) {
    && 0 < p && p + 8 < MEMORY_WORDS
    && Avoids(p, EVENT_STRUCT_PTR, EVENT_STRUCT_PTR) && Avoids(p, CHANGE_BITS, TRNPROG_DBS)
    && Avoids(p, LIVE_RSTATUS_CH, LIVE_TRNPROG)
  }

  predicate Avoids(p: int, low: int, high: int) { p + 8 < low || high < p }

  /** That is: the words p .. p + 8 lie in memory, past its first, and none of
      them is a word the protocol uses for something else. */
  lemma RingExactly(p: int)
    ensures RingAt(p) <==>
              && 1 <= p <= 0x3FF7
              && EVENT_STRUCT_PTR !in Ring(p) && LIVE_RSTATUS_CH !in Ring(p) && LIVE_RSTATUS !in Ring(p)
              && LIVE_TRNPROG !in Ring(p) && forall w :: CHANGE_BITS <= w <= TRNPROG_DBS ==> w !in Ring(p)
  {
    if RingAt(p) {
    } else if 1 <= p <= 0x3FF7 {
      if !Avoids(p, CHANGE_BITS, TRNPROG_DBS) {
        var w := if p < CHANGE_BITS then CHANGE_BITS else p;
        assert w in Ring(p) && CHANGE_BITS <= w <= TRNPROG_DBS;
      }
    }
  }

  function Ring(p: int): set<int> { {p, p + 1, p + 2, p + 3, p + 4, p + 5, p + 6, p + 7, p + 8} }

  /** Slot i % 8 of the ring holds event i, for the newest eight events. */
  ghost predicate SlotsHold(mem: seq<Word>, p: int, written: seq<Word>)
    requires |mem| == MEMORY_WORDS && RingAt(p)
  {
    forall i :: 0 <= i < |written| && |written| - 8 <= i ==> mem[p + i % 8] == written[i]
  }

  ghost predicate RingHolds(mem: seq<Word>, p: int, written: seq<Word>)
    requires |mem| == MEMORY_WORDS && RingAt(p)
  {
    SlotsHold(mem, p, written) && mem[p + 8] == |written| % 0x10000
  }

  /** Where a poll starts reading, counted over all events ever written.  A host
      that has never polled trusts the 16-bit counter. */
  function PollFrom(read: Option<nat>, total: nat): (from: nat)
    requires read.Some? ==> read.value <= total
    ensures from <= total <= from + 8
  {
    match read
    case None => total - Min(8, total % 0x10000)
    case Some(r) => Max(r, total - 8)
  }

  /** Polled often enough, nothing is lost while at most eight events arrive
      between polls, and otherwise exactly all but the newest eight are. */
  lemma LossLaw(read: nat, total: nat)
    requires read <= total
    ensures PollFrom(Some(read), total) - read == Max(0, total - read - 8)
    ensures PollFrom(Some(read), total) == read <==> total - read <= 8
  {
  }

  /** A first poll reads the newest eight exactly if the counter has not just
      wrapped; after 65539 events it would read three. */
  lemma FirstPollLaw(total: nat)
    ensures total - PollFrom(None, total) == Min(8, total) <==> total < 8 || 8 <= total % 0x10000
    ensures 0x10003 - PollFrom(None, 0x10003) == 3
  {
  }

  /** The slot of a new event disturbs none of the seven before it. */
  lemma SlotWritten(mem: seq<Word>, p: int, written: seq<Word>, event: Word)
    requires |mem| == MEMORY_WORDS && RingAt(p) && SlotsHold(mem, p, written)
    ensures SlotsHold(mem[p + |written| % 8 := event], p, written + [event])
  {
  }

  // ----- the object

  class KernelDispatch {
    const dm: array<Word>
    var rx2400Phase: nat
    var rx2400Last: Option<Status>
    var hostEventCounter: Option<Word>
    var publishedRstatusCh: Word
    var publishedRstatus: Word
    var publishedTrnProgress: Word
    var events: multiset<Word>    // how often each event code was seen

    ghost var pointer: int        // where the event structure stays
    ghost var written: seq<Word>  // every event ever put in the ring
    ghost var read: Option<nat>   // how many of them the host has passed
    ghost var calls: nat          // service calls so far
    ghost var cycles: nat         // publication cycles fired so far

    ghost predicate Valid()
      reads this, dm
    {
      && dm.Length == MEMORY_WORDS
      && RingAt(pointer) && dm[EVENT_STRUCT_PTR] % 0x4000 == pointer
      && RingHolds(dm[..], pointer, written)
      && (hostEventCounter.Some? <==> read.Some?)
      && (read.Some? ==>
            && read.value <= |written| < read.value + 0x10000
            && hostEventCounter.value == read.value % 0x10000)
      && rx2400Phase < SAMPLE_RATE
      && rx2400Phase == 2400 * calls - SAMPLE_RATE * cycles
      && (rx2400Last.Some? <==> 0 < cycles)
    }

    ghost function Mirrors(): Status
      requires dm.Length == MEMORY_WORDS
      reads this, dm
    {
      (dm[RSTATUS_CH_DBS], dm[RSTATUS_DBS], dm[TRNPROG_DBS])
    }

    ghost function Published(): Status
      reads this
    {
      (publishedRstatusCh, publishedRstatus, publishedTrnProgress)
    }

    /** Host, mirrors and the status captured by the latest cycle agree. */
    ghost predicate Agreed()
      requires dm.Length == MEMORY_WORDS
      reads this, dm
    {
      rx2400Last.Some? ==> Mirrors() == rx2400Last.value && Published() == rx2400Last.value
    }

    /** A host attached to a card whose ring already counts `residue` events. */
    constructor (dm: array<Word>, ghost residue: seq<Word>)
      requires dm.Length == MEMORY_WORDS
      requires RingAt(dm[EVENT_STRUCT_PTR] % 0x4000)
      requires RingHolds(dm[..], dm[EVENT_STRUCT_PTR] % 0x4000, residue)
      ensures Valid() && Agreed() && this.dm == dm && calls == cycles == 0 && read == None
      ensures written == residue
    {
      this.dm := dm;
      rx2400Phase, rx2400Last, hostEventCounter := 0, None, None;
      publishedRstatusCh, publishedRstatus, publishedTrnProgress := 0, 0, 0;
      events := multiset{};
      pointer := dm[EVENT_STRUCT_PTR] % 0x4000;
      written, read, calls, cycles := residue, None, 0, 0;
    }

    /** Stores outside the ring leave the ring alone. */
    twostate lemma RingUntouched()
      requires old(dm.Length == MEMORY_WORDS && RingAt(pointer) && RingHolds(dm[..], pointer, written))
      requires pointer == old(pointer) && written == old(written) && dm.Length == MEMORY_WORDS
      requires forall i :: pointer <= i <= pointer + 8 ==> dm[i] == old(dm[i])
      ensures RingHolds(dm[..], pointer, written)
    {
    }

    /** What the card does between two services: any status, any events. */
    method Firmware(status: Status, newEvents: seq<Word>)
      requires Valid()
      requires read.Some? ==> |written| + |newEvents| + 3 < read.value + 0x10000
      modifies dm, this`written
      ensures Valid() && written == old(written) + newEvents
      ensures Mirrors() == old(Mirrors())
    {
      dm[LIVE_RSTATUS_CH], dm[LIVE_RSTATUS], dm[LIVE_TRNPROG] := status.0, status.1, status.2;
      RingUntouched();
      AppendEvents(dm[EVENT_STRUCT_PTR] % 0x4000, newEvents);
    }

    /** The ring's writer: fill slots, count, store the counter. */
    method AppendEvents(p: int, newEvents: seq<Word>)
      requires dm.Length == MEMORY_WORDS && RingAt(p) && RingHolds(dm[..], p, written)
      modifies dm, this`written
      ensures RingHolds(dm[..], p, written) && written == old(written) + newEvents
      ensures Outside(old(dm[..]), dm[..], p, p + 8)
    {
      var counter: int := dm[p + 8];
      for i := 0 to |newEvents|
        invariant written == old(written) + newEvents[..i]
        invariant counter == |written| % 0x10000
        invariant SlotsHold(dm[..], p, written)
        invariant Outside(old(dm[..]), dm[..], p, p + 8)
      {
        FillSlot(p, counter, newEvents[i]);
        counter := (counter + 1) % 0x10000;
      }
      assert newEvents[..|newEvents|] == newEvents;
      SlotsIgnoreCounter(dm[..], p, written, counter);
      ghost var after := dm[..][p + 8 := counter];
      dm[p + 8] := counter;
      assert dm[..] == after;
    }

    method FillSlot(p: int, counter: int, event: Word)
      requires dm.Length == MEMORY_WORDS && RingAt(p) && SlotsHold(dm[..], p, written)
      requires counter == |written| % 0x10000
      modifies dm, this`written
      ensures SlotsHold(dm[..], p, written) && written == old(written) + [event]
      ensures Outside(old(dm[..]), dm[..], p, p + 7)
    {
      SlotWritten(dm[..], p, written, event);
      ghost var after := dm[..][p + |written| % 8 := event];
      dm[p + counter % 8] := event;
      assert dm[..] == after;
      written := written + [event];
    }

    /** One 8 kHz tick of the phase accumulator; a cycle fires when it overflows. */
    method ProduceRx2400()
      requires Valid()
      requires read.Some? ==> |written| + 3 < read.value + 0x10000
      modifies this`rx2400Phase, this`rx2400Last, this`calls, this`cycles, this`written, dm
      ensures Valid() && calls == old(calls) + 1
      ensures OnlyPublication(old(dm[..]), dm[..], pointer)
      ensures cycles == old(cycles) ==>
                dm[..] == old(dm[..]) && rx2400Last == old(rx2400Last) && written == old(written)
      ensures cycles != old(cycles) ==>
                dm[CHANGE_BITS] == Flagged(old(rx2400Last), old(Live()), old(dm[CHANGE_BITS]))
      ensures cycles != old(cycles) && old(rx2400Last) == Some(old(Live())) ==>
                written == old(written) && Mirrors() == old(Mirrors()) && dm[CHANGE_BITS] == old(dm[CHANGE_BITS]) % 0x10
      ensures cycles != old(cycles) ==>
                && rx2400Last == Some(old(Live()))
                && written == old(written) + Publications(old(rx2400Last), old(Live()))
                && Mirrors() == Mirrored(old(rx2400Last), old(Live()), old(Mirrors()))
    {
      hide Publications, Mirrored, Flagged, Changed, RingHolds;
      PublishesChanges(old(Live()), old(Live()), 0);
      MirrorsChanges(old(Live()), old(Live()), old(Mirrors()), old(dm[CHANGE_BITS]), 0);
      assert old(written) + [] == old(written);
      calls := calls + 1;
      rx2400Phase := rx2400Phase + 2400;
      if rx2400Phase < SAMPLE_RATE {
        return;
      }
      rx2400Phase := rx2400Phase - SAMPLE_RATE;
      cycles := cycles + 1;
      var current := (dm[LIVE_RSTATUS_CH], dm[LIVE_RSTATUS], dm[LIVE_TRNPROG]);
      var previous := rx2400Last;
      rx2400Last := Some(current);
      PublishCycle(previous, current);
    }

    /** The publications of one cycle: mirrors and flags first, then events, if
        the pointer leads to a ring. */
    method PublishCycle(previous: Option<Status>, current: Status)
      requires dm.Length == MEMORY_WORDS
      requires RingAt(pointer) && dm[EVENT_STRUCT_PTR] % 0x4000 == pointer && RingHolds(dm[..], pointer, written)
      modifies dm, this`written
      ensures RingHolds(dm[..], pointer, written)
      ensures written == old(written) + Publications(previous, current)
      ensures Mirrors() == Mirrored(previous, current, old(Mirrors()))
      ensures dm[CHANGE_BITS] == Flagged(previous, current, old(dm[CHANGE_BITS]))
      ensures OnlyPublication(old(dm[..]), dm[..], pointer)
    {
      hide Publications, Mirrored, Flagged, Changed, RingHolds;
      var p := dm[EVENT_STRUCT_PTR] % 0x4000;
      var publications := PublishChanged(previous, current);
      RingUntouched();
      if publications == [] || p == 0 || p + 8 >= MEMORY_WORDS {
        return;
      }
      AppendEvents(p, publications);
    }

    ghost function Live(): Status
      requires dm.Length == MEMORY_WORDS
      reads this, dm
    {
      (dm[LIVE_RSTATUS_CH], dm[LIVE_RSTATUS], dm[LIVE_TRNPROG])
    }

    /** Copy the words that changed to their mirrors and flag them. */
    method PublishChanged(previous: Option<Status>, current: Status) returns (publications: seq<Word>)
      requires dm.Length == MEMORY_WORDS
      modifies dm
      ensures publications == Publications(previous, current)
      ensures Mirrors() == Mirrored(previous, current, old(Mirrors()))
      ensures dm[CHANGE_BITS] == Flagged(previous, current, old(dm[CHANGE_BITS]))
      ensures forall i :: 0 <= i < MEMORY_WORDS && i !in PUBLISHED_WORDS ==> dm[i] == old(dm[i])
    {
      var change := dm[CHANGE_BITS] % 0x10;
      publications := [];
      if Changed(previous, current, 0) {
        dm[RSTATUS_CH_DBS] := current.0;
        change := change + 0x8000;
        publications := publications + [1];
      }
      if Changed(previous, current, 1) {
        dm[RSTATUS_DBS] := current.1;
        change := change + 0x4000;
        publications := publications + [2];
      }
      if Changed(previous, current, 2) {
        dm[TRNPROG_DBS] := current.2;
        change := change + 0x2000;
        publications := publications + [3];
      }
      dm[CHANGE_BITS] := change;
    }

    /** Consume the ring.  `got` is what the host saw, in order: a contiguous
        run of the events written, ending with the newest. */
    method PollEvents() returns (got: seq<Word>)
      requires Valid()
      modifies this`hostEventCounter, this`publishedRstatusCh, this`publishedRstatus,
               this`publishedTrnProgress, this`events, this`read
      ensures Valid() && read == Some(|written|)
      ensures got == written[PollFrom(old(read), |written|)..]
      ensures events == old(events) + multiset(got)
      ensures Published() == Seen(got, Mirrors(), old(Published()))
    {
      var p := dm[EVENT_STRUCT_PTR] % 0x4000;
      got := [];
      if p == 0 || p + 8 >= MEMORY_WORDS {
        return;
      }
      var dspCounter: int := dm[p + 8];
      var host: int := if hostEventCounter.None? then Max(0, dspCounter - 8) else hostEventCounter.value;
      var pending := (dspCounter - host) % 0x10000;
      if pending > 8 {
        host := (dspCounter - 8) % 0x10000;
        pending := 8;
      }
      PollStart(read, |written|, host, pending);
      got, host := ReadPending(p, host, pending);
      hostEventCounter := Some(host);
      read := Some(|written|);
    }

    /** The loop over the pending events, from the oldest to the newest. */
    method ReadPending(p: int, start: int, pending: nat) returns (got: seq<Word>, host: int)
      requires dm.Length == MEMORY_WORDS && RingAt(p) && SlotsHold(dm[..], p, written)
      requires pending <= 8 && pending <= |written| && start == (|written| - pending) % 0x10000
      modifies this`publishedRstatusCh, this`publishedRstatus, this`publishedTrnProgress, this`events
      ensures got == written[|written| - pending..] && host == |written| % 0x10000
      ensures events == old(events) + multiset(got)
      ensures Published() == Seen(got, Mirrors(), old(Published()))
    {
      ghost var from := |written| - pending;
      got, host := [], start;
      for i := 0 to pending
        invariant got == written[from..from + i] && host == (from + i) % 0x10000
        invariant events == old(events) + multiset(got)
        invariant Published() == Seen(got, Mirrors(), old(Published()))
      {
        var event;
        event, host := ReadSlot(p, host, from + i);
        SeenGrows(got, event, Mirrors(), old(Published()));
        TakeOneMore(written, from, i);
        got := got + [event];
      }
    }

    method ReadSlot(p: int, host: int, ghost i: nat) returns (event: Word, next: int)
      requires dm.Length == MEMORY_WORDS && RingAt(p) && SlotsHold(dm[..], p, written)
      requires i < |written| <= i + 8 && host == i % 0x10000
      modifies this`publishedRstatusCh, this`publishedRstatus, this`publishedTrnProgress, this`events
      ensures event == written[i] && next == (i + 1) % 0x10000
      ensures events == old(events) + multiset{event}
      ensures Published() == Seen([event], Mirrors(), old(Published()))
    {
      SlotRead(dm[..], p, written, i, host);
      event := dm[p + host % 8];
      next := (host + 1) % 0x10000;
      Consume(event);
    }

    method Consume(event: Word)
      requires dm.Length == MEMORY_WORDS
      modifies this`publishedRstatusCh, this`publishedRstatus, this`publishedTrnProgress, this`events
      ensures events == old(events) + multiset{event}
      ensures Published() == Seen([event], Mirrors(), old(Published()))
    {
      events := events + multiset{event};
      if event == 1 {
        publishedRstatusCh := dm[RSTATUS_CH_DBS];
      } else if event == 2 {
        publishedRstatus := dm[RSTATUS_DBS];
      } else if event == 3 {
        publishedTrnProgress := dm[TRNPROG_DBS];
      }
    }

    /** The publishing half of one service call.  After n calls exactly
        floor(2400 n / 8000) cycles have fired, and once one has, the host's
        three words equal the mirrors and the status as of the latest cycle. */
    method Service() returns (got: seq<Word>)
      requires Valid() && Agreed()
      requires read.Some? ==> |written| + 3 < read.value + 0x10000
      requires read.None? ==> calls == 0
      modifies this, dm
      ensures Valid() && Agreed() && read == Some(|written|)
      ensures calls == old(calls) + 1 && cycles == 2400 * calls / SAMPLE_RATE
      ensures pointer == old(pointer) && dm[EVENT_STRUCT_PTR] == old(dm[EVENT_STRUCT_PTR])
      ensures rx2400Last == if cycles == old(cycles) then old(rx2400Last) else Some(old(Live()))
      ensures old(written) <= written && got == written[PollFrom(old(read), |written|)..]
    {
      ghost var last, live := rx2400Last, Live();
      ProduceRx2400();
      got := PollEvents();
      if cycles != old(cycles) {
        AllPublished(last, live, old(written), old(read), old(Mirrors()), old(Published()));
      }
    }
  }

  type Status = (Word, Word, Word)

  ghost predicate Outside(before: seq<Word>, after: seq<Word>, low: int, high: int) {
    |before| == |after| && forall i :: 0 <= i < |before| && !(low <= i <= high) ==> after[i] == before[i]
  }

  /** Nothing but the flags, the mirrors and the ring at p has changed. */
  ghost predicate OnlyPublication(before: seq<Word>, after: seq<Word>, p: int) {
    && |before| == |after|
    && forall i :: 0 <= i < |before| && i !in PUBLISHED_WORDS && !(p <= i <= p + 8) ==> after[i] == before[i]
  }

  lemma SlotsIgnoreCounter(mem: seq<Word>, p: int, written: seq<Word>, counter: Word)
    requires |mem| == MEMORY_WORDS && RingAt(p) && SlotsHold(mem, p, written)
    ensures SlotsHold(mem[p + 8 := counter], p, written)
  {
  }

  lemma SlotRead(mem: seq<Word>, p: int, written: seq<Word>, i: nat, host: int)
    requires |mem| == MEMORY_WORDS && RingAt(p) && SlotsHold(mem, p, written)
    requires i < |written| <= i + 8 && host == i % 0x10000
    ensures mem[p + host % 8] == written[i] && (host + 1) % 0x10000 == (i + 1) % 0x10000
  {
    assert host % 8 == i % 8;
  }

  lemma TakeOneMore(written: seq<Word>, from: nat, i: nat)
    requires from + i < |written|
    ensures written[from..from + i + 1] == written[from..from + i] + [written[from + i]]
  {
  }

  /** The 16-bit arithmetic of a poll finds the unbounded starting point. */
  lemma PollStart(read: Option<nat>, total: nat, host: int, pending: int)
    requires read.Some? ==> read.value <= total < read.value + 0x10000
    requires var c := total % 0x10000;
             var h := if read.None? then Max(0, c - 8) else read.value % 0x10000;
             var n := (c - h) % 0x10000;
             host == (if n > 8 then (c - 8) % 0x10000 else h) && pending == Min(8, n)
    ensures pending == total - PollFrom(read, total) && host == PollFrom(read, total) % 0x10000
  {
  }

  /** What the host holds after seeing some events. */
  function Seen(got: seq<Word>, mirrors: Status, before: Status): Status {
    (if 1 in got then mirrors.0 else before.0,
     if 2 in got then mirrors.1 else before.1,
     if 3 in got then mirrors.2 else before.2)
  }

  lemma SeenGrows(got: seq<Word>, event: Word, mirrors: Status, before: Status)
    ensures Seen(got + [event], mirrors, before) == Seen([event], mirrors, Seen(got, mirrors, before))
  {
  }

  /** What the mirrors hold after a cycle. */
  function Mirrored(previous: Option<Status>, current: Status, mirrors: Status): Status {
    (if Changed(previous, current, 0) then current.0 else mirrors.0,
     if Changed(previous, current, 1) then current.1 else mirrors.1,
     if Changed(previous, current, 2) then current.2 else mirrors.2)
  }

  /** What the change flags hold after a cycle: the low four bits as they were,
      and one flag for each word that changed. */
  function Flagged(previous: Option<Status>, current: Status, change: Word): (r: Word) {
    change % 0x10 + (if Changed(previous, current, 0) then 0x8000 else 0)
    + (if Changed(previous, current, 1) then 0x4000 else 0) + (if Changed(previous, current, 2) then 0x2000 else 0)
  }

  /** The flags F, E and D say which words the same cycle put in the mirrors and
      which events it wrote, and no earlier flag is left standing. */
  lemma FlagsNameEvents(previous: Option<Status>, current: Status, change: Word)
    ensures var r := Flagged(previous, current, change);
            && (r / 0x8000 == 1 <==> 1 in Publications(previous, current))
            && (r / 0x4000 % 2 == 1 <==> 2 in Publications(previous, current))
            && (r / 0x2000 % 2 == 1 <==> 3 in Publications(previous, current))
            && r % 0x10 == change % 0x10 && r / 0x10 % 0x200 == 0
  {
  }

  /** The host's next poll sees every word a cycle publishes, so it catches up
      with the status even if the card filled the ring in between. */
  lemma AllPublished(previous: Option<Status>, current: Status, written: seq<Word>, read: Option<nat>,
                     mirrors: Status, published: Status)
    requires read.Some? && read.value <= |written|
    requires previous.Some? ==> mirrors == previous.value && published == previous.value
    ensures Mirrored(previous, current, mirrors) == current
    ensures var all := written + Publications(previous, current);
            Seen(all[PollFrom(read, |all|)..], current, published) == current
  {
    var p := Publications(previous, current);
    var all := written + p;
    var got := all[PollFrom(read, |all|)..];
    forall e: Word | e in p
      ensures e in got
    {
      var k :| 0 <= k < |p| && p[k] == e;
      assert got[|got| - |p| + k] == e;
    }
  }

  /** Whether word k of the status is published: always on the first cycle,
      where the previous value counts as the complement of the current one. */
  predicate Changed(previous: Option<Status>, current: Status, k: int) {
    match previous
    case None => true
    case Some(old_) =>
      if k == 0 then current.0 != old_.0 else if k == 1 then current.1 != old_.1 else current.2 != old_.2
  }

  /** The event codes of the words that changed, in order. */
  function Publications(previous: Option<Status>, current: Status): (p: seq<Word>)
    ensures |p| <= 3
    ensures 1 in p <==> Changed(previous, current, 0)
    ensures 2 in p <==> Changed(previous, current, 1)
    ensures 3 in p <==> Changed(previous, current, 2)
  {
    (if Changed(previous, current, 0) then [1] else [])
    + (if Changed(previous, current, 1) then [2] else [])
    + (if Changed(previous, current, 2) then [3] else [])
  }

  /** Component k of a status. */
  function Component(s: Status, k: nat): Word
    requires k < 3
  {
    if k == 0 then s.0 else if k == 1 then s.1 else s.2
  }

  /** A cycle publishes a component, as event k + 1, exactly when it differs from
      the last cycle's; the first cycle publishes all three, and a cycle on an
      unchanged status nothing. */
  lemma PublishesChanges(s: Status, t: Status, k: nat)
    requires k < 3
    ensures k + 1 in Publications(Some(s), t) <==> Component(s, k) != Component(t, k)
    ensures Publications(Some(s), s) == []
    ensures Publications(None, t) == [1, 2, 3]
  {
  }

  /** A mirror takes the new value of its component exactly when that is published
      and stands otherwise; without a change the flags are cleared. */
  lemma MirrorsChanges(s: Status, t: Status, mirrors: Status, change: Word, k: nat)
    requires k < 3
    ensures Component(Mirrored(Some(s), t, mirrors), k)
         == if Component(s, k) != Component(t, k) then Component(t, k) else Component(mirrors, k)
    ensures Mirrored(None, t, mirrors) == t
    ensures Mirrored(Some(s), s, mirrors) == mirrors && Flagged(Some(s), s, change) == change % 0x10
  {
  }

  /** The host's word k takes the mirror's value when event k + 1 was read, and
      otherwise stays what it was. */
  lemma SeenExactly(got: seq<Word>, mirrors: Status, before: Status, k: nat)
    requires k < 3
    ensures Component(Seen(got, mirrors, before), k)
         == if k + 1 in got then Component(mirrors, k) else Component(before, k)
  {
  }
}
