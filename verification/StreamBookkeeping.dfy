/**
 Index bookkeeping common to the two streaming rate converters of
 tools/analog_kernel_dispatch.py.

 Both converters append one input sample at a time to a history, emit every
 output whose window has become available, and then drop the front of the
 history.  Samples have an absolute index; `consumed` is the absolute index of
 the first one still held.  The only things in which the two converters differ
 are the numbers gathered in `Geometry` and how a window of samples becomes an
 output (`Reader`), so the law of the bookkeeping is proved once, here.
 */
module StreamBookkeeping {
  import opened Arithmetic

  type pos = x: int | 0 < x witness 1

  /** Output m sits at the exact position m * down / up + phase and reads the
      absolute indices Base(m) - back .. Base(m) + lead.  The history starts
      with `primed` zero samples, the first at absolute index `first`; trimming
      stays `keep` samples behind the phase-free position of the next output. */
  datatype Geometry = Geometry(
    up: pos, down: pos, phase: real, lead: nat, back: nat, keep: nat, first: int, primed: nat)
  {
    ghost predicate Valid() {
      && 0 <= first + keep
      && 0 <= first + primed
    }

    function Stride(): (r: real)
      ensures 0.0 < r
    {
      down as real / up as real
    }

    function Base(m: nat): int { (m as real * Stride() + phase).Floor }

    function Floored(m: nat): int { (m as real * Stride()).Floor }

    /** How many outputs are due once the next absolute index is `total`. */
    function DueCount(total: int): nat {
      var room := ((total - lead) as real - phase) / Stride();
      if room <= 0.0 then 0 else -(-room).Floor
    }

    /** The phase in whole steps of 1 / up sample. */
    function Offset(): int { (phase * up as real).Floor }

    function Total(length: int): int { first + length }

    /** Outputs emitted once the stream, zeros included, is `length` long. */
    function Emitted(length: int): nat {
      if length <= primed then 0 else DueCount(Total(length))
    }

    /** Absolute index up to which the history has been trimmed. */
    function Trimmed(m: nat): int {
      if Floored(m) - keep <= first then first else Floored(m) - keep
    }

    /** No push drops more samples than it holds. */
    predicate DropsHeld() { Stride() - phase <= (keep + lead + 1) as real }

    /** The oldest sample of the next window is still held. */
    predicate KeepsNeeded() {
      -phase <= (keep - back) as real || Stride() - phase <= (keep - back + 1) as real
    }

    /** Exactly the parameters for which trimming is harmless (TrimmingExactly). */
    predicate Safe() { DropsHeld() && KeepsNeeded() }
  }

  function Zeros(n: nat): (z: seq<real>)
    ensures |z| == n && forall i :: 0 <= i < n ==> z[i] == 0.0
  {
    seq(n, _ => 0.0)
  }

  function At(x: seq<real>, i: int): real {
    if 0 <= i < |x| then x[i] else 0.0
  }

  /** The window of output m, cut out of a history whose first sample has
      absolute index `consumed`; anything not held reads as zero. */
  function Window(g: Geometry, history: seq<real>, consumed: int, m: nat): (w: seq<real>)
    ensures |w| == g.back + g.lead + 1
    ensures forall i :: 0 <= i < |w| ==> w[i] == At(history, g.Base(m) - g.back + i - consumed)
  {
    seq(g.back + g.lead + 1, i => At(history, g.Base(m) - g.back + i - consumed))
  }

  type Reader = (nat, seq<real>) -> real

  // ----- the streaming machine

  datatype State = State(history: seq<real>, consumed: int, produced: nat)

  function Initial(g: Geometry): State { State(Zeros(g.primed), g.first, 0) }

  /** Outputs from .. to - 1, read off a history that starts at `consumed`. */
  function Outputs(g: Geometry, read: Reader, history: seq<real>, consumed: int, from: nat, to: nat): (r: seq<real>)
    requires from <= to
    ensures |r| == to - from
    ensures forall i :: 0 <= i < |r| ==> r[i] == read(from + i, Window(g, history, consumed, from + i))
  {
    seq(to - from, i requires 0 <= i => read(from + i, Window(g, history, consumed, from + i)))
  }

  /** One push: append, emit what is due, trim. */
  function Advance(g: Geometry, read: Reader, s: State, x: real): (r: (State, seq<real>)) {
    var held := s.history + [x];
    var produced := Max(s.produced, g.DueCount(s.consumed + |held|));
    (Trim(g, held, s.consumed, produced), Outputs(g, read, held, s.consumed, s.produced, produced))
  }

  function Trim(g: Geometry, held: seq<real>, consumed: int, produced: nat): State {
    var drop := Max(0, g.Floored(produced) - g.keep - consumed);
    State(if drop <= |held| then held[drop..] else [], consumed + drop, produced)
  }

  function Run(g: Geometry, read: Reader, xs: seq<real>): (r: (State, seq<real>)) {
    if xs == [] then (Initial(g), [])
    else
      var before := Run(g, read, xs[..|xs| - 1]);
      var after := Advance(g, read, before.0, xs[|xs| - 1]);
      (after.0, before.1 + after.1)
  }

  // ----- the definition it is measured against: nothing is ever trimmed

  function Stream(g: Geometry, xs: seq<real>): seq<real> { Zeros(g.primed) + xs }

  function Untrimmed(g: Geometry, read: Reader, stream: seq<real>, from: nat, to: nat): (r: seq<real>)
    requires from <= to
  {
    Outputs(g, read, stream, g.first, from, to)
  }

  function AllUntrimmed(g: Geometry, read: Reader, xs: seq<real>): (r: seq<real>) {
    Untrimmed(g, read, Stream(g, xs), 0, g.Emitted(|Stream(g, xs)|))
  }

  /** The machine is in step with the whole stream. */
  ghost predicate Tracks(g: Geometry, s: State, stream: seq<real>) {
    && g.primed <= |stream|
    && s.produced == g.Emitted(|stream|)
    && s.consumed == g.Trimmed(s.produced)
    && s.consumed <= g.Total(|stream|)
    && s.history == stream[s.consumed - g.first..]
  }

  // ----- arithmetic of positions

  lemma StrideLeft(g: Geometry, m: nat)
    ensures (m + 1) as real * g.Stride() == m as real * g.Stride() + g.Stride()
  {
  }

  lemma ScaleMonotone(a: real, b: real, c: real)
    requires a <= b && 0.0 <= c
    ensures a * c <= b * c
  {
    assert 0.0 <= (b - a) * c;
  }

  lemma PositionMonotone(g: Geometry, m: nat, n: nat)
    requires m <= n
    ensures m as real * g.Stride() <= n as real * g.Stride()
    ensures g.Base(m) <= g.Base(n)
    ensures g.Floored(m) <= g.Floored(n)
  {
    ScaleMonotone(m as real, n as real, g.Stride());
  }

  lemma DivideAcross(a: real, b: real, c: real)
    requires 0.0 < c
    ensures a * c < b <==> a < b / c
  {
    assert b / c * c == b;
    if a < b / c {
      assert 0.0 < (b / c - a) * c;
    } else {
      ScaleMonotone(b / c, a, c);
    }
  }

  /** The count of due outputs has a closed form: output m is due, that is its
      newest sample has arrived, exactly when m < DueCount(total). */
  lemma DueExactly(g: Geometry, m: nat, total: int)
    ensures g.Base(m) + g.lead < total <==> m < g.DueCount(total)
    ensures m as real * g.Stride() + g.phase < (total - g.lead) as real <==> m < g.DueCount(total)
  {
    DivideAcross(m as real, (total - g.lead) as real - g.phase, g.Stride());
  }

  /** The same count in whole numbers. */
  lemma DueInSteps(g: Geometry, m: nat, total: int)
    ensures m * g.down < (total - g.lead) * g.up - g.Offset() <==> m < g.DueCount(total)
  {
    DueExactly(g, m, total);
    assert m as real * g.Stride() == (m * g.down) as real / g.up as real;
    StepOrder(m * g.down, g.up, g.phase, total - g.lead);
  }

  /** A position of `at` steps and a phase, against a whole number of samples. */
  lemma StepOrder(at: int, up: pos, phase: real, limit: int)
    ensures at as real / up as real + phase < limit as real <==> at < limit * up - (phase * up as real).Floor
  {
    Spread(limit as real, phase, up as real);
    assert at as real / up as real * up as real == at as real;
    assert limit as real * up as real == (limit * up) as real;
    InOrder(at as real / up as real, limit as real - phase, up as real);
  }

  lemma Spread(a: real, b: real, c: real)
    ensures (a - b) * c == a * c - b * c
  {
  }

  lemma InOrder(a: real, b: real, c: real)
    requires 0.0 < c
    ensures a < b <==> a * c < b * c
  {
    DivideAcross(a, b * c, c);
    assert b * c / c == b;
  }

  /** It is a ceiling, or zero where that is negative. */
  lemma CountExactly(g: Geometry, total: int)
    ensures g.DueCount(total) == Max(0, CeilingQuotient((total - g.lead) * g.up - g.Offset(), g.down))
  {
    var a, n := (total - g.lead) * g.up - g.Offset(), g.DueCount(total);
    CeilingBounds(a, g.down);
    DueInSteps(g, n, total);
    if n != 0 {
      DueInSteps(g, n - 1, total);
    }
    BetweenMultiples(CeilingQuotient(a, g.down), n, a, g.down);
  }

  lemma BetweenMultiples(c: int, n: nat, a: int, b: pos)
    requires (c - 1) * b < a <= c * b
    requires a <= n * b && (n != 0 ==> (n - 1) * b < a)
    ensures n == Max(0, c)
  {
    StepsApart(c, n - 1, b);
    StepsApart(n - 1, c, b);
    StepsApart(n, c - 1, b);
    StepsApart(c, 0, b);
    StepsApart(c - 1, n, b);
  }

  /** The first output not due sits less than one stride past the newest sample. */
  lemma FirstNotDue(g: Geometry, total: int, next: nat)
    requires next == g.DueCount(total) != 0
    ensures (total - g.lead) as real <= next as real * g.Stride() + g.phase
    ensures next as real * g.Stride() + g.phase < (total - g.lead) as real + g.Stride()
  {
    DueExactly(g, next, total);
    DueExactly(g, next - 1, total);
    StrideLeft(g, next - 1);
  }

  lemma DueMonotone(g: Geometry, t: int, u: int)
    requires t <= u
    ensures g.DueCount(t) <= g.DueCount(u)
  {
    if 0 < g.DueCount(t) {
      DueExactly(g, g.DueCount(t) - 1, t);
      DueExactly(g, g.DueCount(t) - 1, u);
    }
  }

  // ----- trimming is harmless exactly for the safe parameters

  /** A push that reaches `total` samples never drops more than it holds. */
  lemma NeverOverdrops(g: Geometry, total: int)
    requires g.Valid() && g.DropsHeld()
    requires g.first <= total
    ensures g.Trimmed(g.DueCount(total)) <= total
  {
    var m := g.DueCount(total);
    if 0 < m {
      DueExactly(g, m - 1, total);
      StrideLeft(g, m - 1);
    }
  }

  /** The oldest sample of the next window has not been trimmed, or never
      existed. */
  lemma NothingNeededIsGone(g: Geometry, total: int, m: nat)
    requires g.Valid() && g.KeepsNeeded()
    requires g.DueCount(total) <= m
    ensures g.Trimmed(g.DueCount(total)) <= Max(g.first, g.Base(m) - g.back)
  {
    var next := g.DueCount(total);
    PositionMonotone(g, next, m);
    if next != 0 {
      FirstNotDue(g, total, next);
      TrimmedBehind(g, total, next);
    }
  }

  lemma TrimmedBehind(g: Geometry, total: int, next: nat)
    requires g.Valid() && g.KeepsNeeded()
    requires (total - g.lead) as real <= next as real * g.Stride() + g.phase < (total - g.lead) as real + g.Stride()
    ensures g.Trimmed(next) <= Max(g.first, g.Base(next) - g.back)
  {
    var at := next as real * g.Stride();
    FloorGap(at, g.Stride(), g.phase, total - g.lead, g.keep - g.back);
    assert g.Floored(next) == at.Floor;
    assert g.Base(next) == (at + g.phase).Floor;
  }

  lemma FloorGap(at: real, stride: real, phase: real, limit: int, slack: int)
    requires limit as real <= at + phase
    requires at < limit as real - phase + stride
    requires -phase <= slack as real || stride - phase <= (slack + 1) as real
    ensures at.Floor - slack <= (at + phase).Floor
  {
    assert limit <= (at + phase).Floor;
    if -phase <= slack as real {
      assert (at.Floor - slack) as real <= at + phase;
    } else {
      assert at < (limit + slack + 1) as real;
    }
  }

  lemma WindowSurvivesTrimming(g: Geometry, stream: seq<real>, consumed: int, m: nat)
    requires g.first <= consumed <= g.Total(|stream|)
    requires consumed <= Max(g.first, g.Base(m) - g.back)
    ensures Window(g, stream[consumed - g.first..], consumed, m) == Window(g, stream, g.first, m)
  {
  }

  lemma WindowIgnoresTheFuture(g: Geometry, stream: seq<real>, more: seq<real>, m: nat)
    requires g.Base(m) + g.lead < g.Total(|stream|)
    ensures Window(g, stream, g.first, m) == Window(g, stream + more, g.first, m)
  {
  }

  lemma TrimmedMonotone(g: Geometry, m: nat, n: nat)
    requires m <= n
    ensures g.Trimmed(m) <= g.Trimmed(n)
  {
    PositionMonotone(g, m, n);
  }

  lemma TrimAdvances(g: Geometry, stream: seq<real>, consumed: int, held: seq<real>, produced: nat)
    requires g.first <= consumed <= g.Total(|stream|) && held == stream[consumed - g.first..]
    requires consumed <= g.Trimmed(produced) <= g.Total(|stream|)
    ensures var s := Trim(g, held, consumed, produced);
            && s.consumed == g.Trimmed(produced) && s.produced == produced
            && s.history == stream[s.consumed - g.first..]
  {
  }

  /** One push keeps the machine in step. */
  lemma AdvanceKeepsStep(g: Geometry, read: Reader, s: State, stream: seq<real>, x: real)
    requires g.Valid() && g.DropsHeld() && Tracks(g, s, stream)
    ensures var r := Advance(g, read, s, x);
            && Tracks(g, r.0, stream + [x])
            && s.produced <= r.0.produced
            && r.1 == Outputs(g, read, s.history + [x], s.consumed, s.produced, r.0.produced)
  {
    var grown := stream + [x];
    var held := s.history + [x];
    assert held == grown[s.consumed - g.first..];
    assert s.consumed + |held| == g.Total(|grown|);
    ProducedGrows(g, s, stream);
    TrimKeepsStep(g, s, stream, x);
  }

  /** One push emits the untrimmed outputs. */
  lemma AdvanceTracks(g: Geometry, read: Reader, s: State, stream: seq<real>, x: real)
    requires g.Valid() && g.Safe() && Tracks(g, s, stream)
    ensures var r := Advance(g, read, s, x);
            && Tracks(g, r.0, stream + [x])
            && s.produced <= r.0.produced
            && r.1 == Untrimmed(g, read, stream + [x], s.produced, r.0.produced)
  {
    AdvanceKeepsStep(g, read, s, stream, x);
    OutputsUntrimmed(g, read, s, stream, x, g.DueCount(g.Total(|stream| + 1)));
  }

  lemma ProducedGrows(g: Geometry, s: State, stream: seq<real>)
    requires Tracks(g, s, stream)
    ensures s.produced <= g.DueCount(g.Total(|stream| + 1))
  {
    DueMonotone(g, g.Total(|stream|), g.Total(|stream| + 1));
  }

  lemma TrimKeepsStep(g: Geometry, s: State, stream: seq<real>, x: real)
    requires g.Valid() && g.DropsHeld() && Tracks(g, s, stream)
    ensures Tracks(g, Trim(g, s.history + [x], s.consumed, g.DueCount(g.Total(|stream| + 1))), stream + [x])
  {
    var total := g.Total(|stream| + 1);
    ProducedGrows(g, s, stream);
    TrimmedMonotone(g, s.produced, g.DueCount(total));
    NeverOverdrops(g, total);
    TrimInStep(g, s, stream, x, g.DueCount(total));
  }

  lemma TrimInStep(g: Geometry, s: State, stream: seq<real>, x: real, produced: nat)
    requires g.first <= s.consumed <= g.Total(|stream|) && s.history == stream[s.consumed - g.first..]
    requires s.consumed <= g.Trimmed(produced) <= g.Total(|stream| + 1)
    requires g.primed <= |stream| && produced == g.Emitted(|stream| + 1)
    ensures Tracks(g, Trim(g, s.history + [x], s.consumed, produced), stream + [x])
  {
    assert s.history + [x] == (stream + [x])[s.consumed - g.first..];
    TrimAdvances(g, stream + [x], s.consumed, s.history + [x], produced);
  }

  lemma OutputsUntrimmed(g: Geometry, read: Reader, s: State, stream: seq<real>, x: real, to: nat)
    requires g.Valid() && g.KeepsNeeded() && Tracks(g, s, stream) && s.produced <= to
    ensures Outputs(g, read, s.history + [x], s.consumed, s.produced, to)
            == Untrimmed(g, read, stream + [x], s.produced, to)
  {
    var grown := stream + [x];
    assert s.history + [x] == grown[s.consumed - g.first..];
    var trimmed := Outputs(g, read, s.history + [x], s.consumed, s.produced, to);
    var whole := Untrimmed(g, read, grown, s.produced, to);
    forall i | 0 <= i < |trimmed|
      ensures trimmed[i] == whole[i]
    {
      NextWindowHeld(g, s, stream, s.produced + i);
      WindowSurvivesTrimming(g, grown, s.consumed, s.produced + i);
    }
  }

  lemma NextWindowHeld(g: Geometry, s: State, stream: seq<real>, m: nat)
    requires g.Valid() && g.KeepsNeeded() && Tracks(g, s, stream) && s.produced <= m
    ensures s.consumed <= Max(g.first, g.Base(m) - g.back)
  {
    if |stream| == g.primed {
      assert g.Floored(0) == 0;
    } else {
      NothingNeededIsGone(g, g.Total(|stream|), m);
    }
  }

  /** For every input and every reader the trimmed converter emits exactly the
      outputs of the untrimmed definition, index for index. */
  lemma {:induction false} TrimmingIsFaithful(g: Geometry, read: Reader, xs: seq<real>)
    requires g.Valid() && g.Safe()
    ensures Tracks(g, Run(g, read, xs).0, Stream(g, xs))
    ensures Run(g, read, xs).1 == AllUntrimmed(g, read, xs)
  {
    if xs == [] {
      assert g.Floored(0) == 0;
      assert Stream(g, xs) == Zeros(g.primed);
    } else {
      var earlier, x := xs[..|xs| - 1], xs[|xs| - 1];
      TrimmingIsFaithful(g, read, earlier);
      assert Stream(g, xs) == Stream(g, earlier) + [x];
      AdvanceTracks(g, read, Run(g, read, earlier).0, Stream(g, earlier), x);
      OutputsExtend(g, read, earlier, x);
      assert xs == earlier + [x];
    }
  }

  lemma OutputsExtend(g: Geometry, read: Reader, xs: seq<real>, x: real)
    ensures var n, n' := g.Emitted(|Stream(g, xs)|), g.Emitted(|Stream(g, xs + [x])|);
            && n <= n'
            && AllUntrimmed(g, read, xs + [x])
               == AllUntrimmed(g, read, xs) + Untrimmed(g, read, Stream(g, xs + [x]), n, n')
  {
    var stream, grown := Stream(g, xs), Stream(g, xs + [x]);
    assert grown == stream + [x];
    var n := g.Emitted(|stream|);
    DueMonotone(g, g.Total(|stream|), g.Total(|grown|));
    var all := AllUntrimmed(g, read, xs + [x]);
    forall m | 0 <= m < n
      ensures all[m] == AllUntrimmed(g, read, xs)[m]
    {
      DueExactly(g, m, g.Total(|stream|));
      WindowIgnoresTheFuture(g, stream, [x], m);
    }
  }

  /** What one push returns is exactly what it adds to the untrimmed outputs. */
  lemma PushDelivers(g: Geometry, read: Reader, s: State, xs: seq<real>, x: real)
    requires g.Valid() && g.Safe() && Tracks(g, s, Stream(g, xs))
    ensures Tracks(g, Advance(g, read, s, x).0, Stream(g, xs + [x]))
    ensures AllUntrimmed(g, read, xs + [x]) == AllUntrimmed(g, read, xs) + Advance(g, read, s, x).1
  {
    AdvanceTracks(g, read, s, Stream(g, xs), x);
    assert Stream(g, xs + [x]) == Stream(g, xs) + [x];
    OutputsExtend(g, read, xs, x);
  }

  // ----- outside the safe parameters some input betrays the trimming

  const OldestSample: Reader := (m, w) => if w == [] then 0.0 else w[0]

  ghost predicate Betrayed(g: Geometry, read: Reader, xs: seq<real>) {
    Run(g, read, xs).1 != AllUntrimmed(g, read, xs)
  }

  lemma {:induction false} RunProduces(g: Geometry, read: Reader, xs: seq<real>)
    ensures |Run(g, read, xs).1| == Run(g, read, xs).0.produced
  {
    if xs != [] {
      RunProduces(g, read, xs[..|xs| - 1]);
    }
  }

  lemma {:induction false} RunTracks(g: Geometry, read: Reader, xs: seq<real>)
    requires g.Valid() && g.DropsHeld()
    ensures Tracks(g, Run(g, read, xs).0, Stream(g, xs))
  {
    if xs == [] {
      assert g.Floored(0) == 0;
      assert Stream(g, xs) == Zeros(g.primed);
    } else {
      var earlier, x := xs[..|xs| - 1], xs[|xs| - 1];
      RunTracks(g, read, earlier);
      assert Stream(g, xs) == Stream(g, earlier) + [x];
      AdvanceKeepsStep(g, read, Run(g, read, earlier).0, Stream(g, earlier), x);
    }
  }

  /** Where the machine believes the next sample will land. */
  function Reached(s: State): int { s.consumed + |s.history| }

  lemma ReachedAfter(g: Geometry, read: Reader, s: State, x: real)
    ensures var r := Advance(g, read, s, x).0;
            && Reached(s) + 1 <= Reached(r)
            && g.Floored(r.produced) - g.keep <= Reached(r)
            && g.DueCount(Reached(s) + 1) <= r.produced
  {
  }

  lemma {:induction false} ReachedNeverFallsBehind(g: Geometry, read: Reader, xs: seq<real>, ys: seq<real>)
    ensures Reached(Run(g, read, xs).0) + |ys| <= Reached(Run(g, read, xs + ys).0)
  {
    if ys == [] {
      assert xs + ys == xs;
    } else {
      var y := ys[|ys| - 1];
      assert (xs + ys)[..|xs + ys| - 1] == xs + ys[..|ys| - 1];
      ReachedNeverFallsBehind(g, read, xs, ys[..|ys| - 1]);
      ReachedAfter(g, read, Run(g, read, xs + ys[..|ys| - 1]).0, y);
    }
  }

  /** At multiples of `up` the position is a whole number. */
  lemma WholePosition(g: Geometry, j: nat)
    ensures (g.up * j) as real * g.Stride() == (g.down * j) as real
    ensures j <= g.up * j && j <= g.down * j
    ensures g.Floored(g.up * j) == g.down * j
    ensures g.Base(g.up * j) == g.down * j + g.phase.Floor
  {
    calc {
      (g.up * j) as real * g.Stride();
      j as real * (g.up as real * (g.down as real / g.up as real));
      (g.down * j) as real;
    }
    FloorShift(g.down * j, g.phase);
  }

  lemma FloorShift(k: int, r: real)
    ensures (k as real + r).Floor == k + r.Floor
  {
  }

  lemma OutputBefore(g: Geometry, m: nat, whole: int)
    requires 0 < m && m as real * g.Stride() == whole as real
    ensures g.Base(m - 1) == whole + (g.phase - g.Stride()).Floor
  {
    StrideLeft(g, m - 1);
    FloorShift(whole, g.phase - g.Stride());
    assert (m - 1) as real * g.Stride() + g.phase == whole as real + (g.phase - g.Stride());
  }

  /** If some push drops more than it holds, the machine runs ahead of the
      stream for ever and emits some later output one sample early. */
  lemma OverdropBetrays(g: Geometry) returns (xs: seq<real>)
    requires g.Valid() && !g.DropsHeld()
    ensures Betrayed(g, OldestSample, xs)
  {
    var early := (g.phase - g.Stride()).Floor;
    var j: nat := Max(1, g.Total(g.primed) - early - g.lead);
    WholePosition(g, j);
    OutputBefore(g, g.up * j, g.down * j);
    xs := OverdropAt(g, g.up * j, g.Base(g.up * j - 1) + g.lead + 1);
  }

  lemma OverdropAt(g: Geometry, m: nat, total: int) returns (xs: seq<real>)
    requires g.Valid() && g.Total(g.primed) < total && 0 < m
    requires g.Base(m - 1) + g.lead < total <= g.Floored(m) - g.keep - 1
    ensures Betrayed(g, OldestSample, xs)
  {
    xs := Zeros(total - g.Total(g.primed));
    if !Betrayed(g, OldestSample, xs) {
      RunsAhead(g, m, total);
      xs := EarlyOutput(g, xs, total);
    }
  }

  lemma RunsAhead(g: Geometry, m: nat, total: int)
    requires g.Valid() && g.Total(g.primed) < total && 0 < m
    requires g.Base(m - 1) + g.lead < total <= g.Floored(m) - g.keep - 1
    requires !Betrayed(g, OldestSample, Zeros(total - g.Total(g.primed)))
    ensures total < Reached(Run(g, OldestSample, Zeros(total - g.Total(g.primed))).0)
  {
    var xs := Zeros(total - g.Total(g.primed));
    var s := Run(g, OldestSample, xs).0;
    RunProduces(g, OldestSample, xs);
    DueExactly(g, m - 1, total);
    assert s.produced == g.DueCount(total);
    PositionMonotone(g, m, s.produced);
    ReachedAfter(g, OldestSample, Run(g, OldestSample, xs[..|xs| - 1]).0, xs[|xs| - 1]);
  }

  lemma EarlyOutput(g: Geometry, xs: seq<real>, total: int) returns (ys: seq<real>)
    requires g.Valid() && total == g.Total(g.primed + |xs|)
    requires total < Reached(Run(g, OldestSample, xs).0)
    ensures Betrayed(g, OldestSample, ys)
  {
    var j: nat := Max(0, total + 1 - g.lead - g.phase.Floor);
    WholePosition(g, j);
    var m := g.up * j;
    var zs := Zeros(g.Base(m) + g.lead - total - 1);
    ReachedNeverFallsBehind(g, OldestSample, xs, zs);
    ys := xs + zs + [0.0];
    assert ys[..|ys| - 1] == xs + zs;
    OneSampleEarly(g, ys, m);
  }

  lemma OneSampleEarly(g: Geometry, ys: seq<real>, m: nat)
    requires ys != [] && g.Base(m) + g.lead == g.Total(g.primed + |ys|)
    requires g.Base(m) + g.lead <= Reached(Run(g, OldestSample, ys[..|ys| - 1]).0)
    ensures Betrayed(g, OldestSample, ys)
  {
    DueExactly(g, m, Reached(Run(g, OldestSample, ys[..|ys| - 1]).0) + 1);
    LastPushProduces(g, OldestSample, ys);
    NotYetDue(g, m, ys);
  }

  lemma LastPushProduces(g: Geometry, read: Reader, ys: seq<real>)
    requires ys != []
    ensures g.DueCount(Reached(Run(g, read, ys[..|ys| - 1]).0) + 1) <= |Run(g, read, ys).1|
  {
    RunProduces(g, read, ys);
    ReachedAfter(g, read, Run(g, read, ys[..|ys| - 1]).0, ys[|ys| - 1]);
  }

  lemma NotYetDue(g: Geometry, m: nat, ys: seq<real>)
    requires g.Total(g.primed + |ys|) <= g.Base(m) + g.lead
    ensures |AllUntrimmed(g, OldestSample, ys)| <= m
  {
    DueExactly(g, m, g.Total(g.primed + |ys|));
  }

  /** If the oldest sample of a window is trimmed too soon, an impulse at that
      sample is emitted as zero. */
  lemma MissingBetrays(g: Geometry) returns (xs: seq<real>)
    requires g.Valid() && g.DropsHeld() && !g.KeepsNeeded()
    ensures Betrayed(g, OldestSample, xs)
  {
    var room := Max(1, Max(g.phase.Floor, g.Total(g.primed) + g.back) + 1);
    if (g.phase - g.Stride()).Floor < g.phase.Floor {
      var j: nat := Max(1, room - g.phase.Floor);
      FirstOfAPush(g, j);
      xs := TrimmedImpulse(g, g.up * j, g.Base(g.up * j) + g.lead);
    } else {
      LateByAPhase(g, room + g.lead);
      xs := TrimmedImpulse(g, g.DueCount(room + g.lead), room + g.lead);
    }
  }

  lemma FirstOfAPush(g: Geometry, j: nat)
    requires !g.KeepsNeeded() && 0 < j
    requires (g.phase - g.Stride()).Floor < g.phase.Floor
    ensures var m := g.up * j;
            && m == g.DueCount(g.Base(m) + g.lead)
            && j + g.phase.Floor <= g.Base(m)
            && g.Base(m) - g.back < g.Floored(m) - g.keep
  {
    WholePosition(g, j);
    OutputBefore(g, g.up * j, g.down * j);
    FirstDue(g, g.up * j);
    assert g.phase.Floor < g.back - g.keep;
  }

  lemma FirstDue(g: Geometry, m: nat)
    requires 0 < m && g.Base(m - 1) < g.Base(m)
    ensures m == g.DueCount(g.Base(m) + g.lead)
  {
    DueExactly(g, m - 1, g.Base(m) + g.lead);
    DueExactly(g, m, g.Base(m) + g.lead);
  }

  lemma LateByAPhase(g: Geometry, total: int)
    requires !g.KeepsNeeded()
    requires g.phase.Floor <= (g.phase - g.Stride()).Floor
    requires g.phase.Floor < total - g.lead
    ensures var m := g.DueCount(total);
            && g.Base(m) + g.lead == total
            && g.Base(m) - g.back < g.Floored(m) - g.keep
  {
    DueExactly(g, 0, total);
    FirstNotDue(g, total, g.DueCount(total));
    LateAt(g, total - g.lead, g.DueCount(total));
  }

  lemma LateAt(g: Geometry, limit: int, m: nat)
    requires !g.KeepsNeeded()
    requires g.phase.Floor <= (g.phase - g.Stride()).Floor
    requires limit as real <= m as real * g.Stride() + g.phase < limit as real + g.Stride()
    ensures g.Base(m) == limit && g.Base(m) - g.back < g.Floored(m) - g.keep
  {
    var at := m as real * g.Stride();
    PhaseGap(at, g.Stride(), g.phase, limit, g.keep - g.back);
    assert g.Floored(m) == at.Floor;
    assert g.Base(m) == (at + g.phase).Floor;
  }

  lemma PhaseGap(at: real, stride: real, phase: real, limit: int, slack: int)
    requires 0.0 < stride && phase.Floor <= (phase - stride).Floor
    requires limit as real <= at + phase < limit as real + stride
    requires slack as real < -phase && (slack + 1) as real < stride - phase
    ensures (at + phase).Floor == limit
    ensures limit + slack < at.Floor
  {
    assert (phase - stride).Floor <= -slack - 2;
    assert stride < 1.0;
    assert (limit + slack + 1) as real <= at;
  }

  lemma TrimmedImpulse(g: Geometry, m: nat, total: int) returns (xs: seq<real>)
    requires g.Valid() && g.DropsHeld() && g.Total(g.primed) < total
    requires m == g.DueCount(total) && g.Base(m) + g.lead == total
    requires g.Total(g.primed) <= g.Base(m) - g.back < g.Floored(m) - g.keep
    ensures Betrayed(g, OldestSample, xs)
  {
    var oldest := g.Base(m) - g.back;
    var n := total - g.Total(g.primed);
    xs := Zeros(n + 1)[oldest - g.Total(g.primed) := 1.0];
    DueExactly(g, m, total + 1);
    ImpulseLost(g, xs, m, oldest);
    ImpulseSeen(g, xs, m, oldest);
  }

  lemma ImpulseLost(g: Geometry, xs: seq<real>, m: nat, oldest: int)
    requires g.Valid() && g.DropsHeld() && 1 < |xs|
    requires m == g.DueCount(g.Total(g.primed + |xs| - 1)) < g.DueCount(g.Total(g.primed + |xs|))
    requires g.first <= oldest == g.Base(m) - g.back < g.Floored(m) - g.keep
    ensures m < |Run(g, OldestSample, xs).1| && Run(g, OldestSample, xs).1[m] == 0.0
  {
    var earlier, x := xs[..|xs| - 1], xs[|xs| - 1];
    RunTracks(g, OldestSample, earlier);
    RunProduces(g, OldestSample, earlier);
    ImpulseMissed(g, Run(g, OldestSample, earlier).0, x, m, oldest);
  }

  lemma ImpulseSeen(g: Geometry, xs: seq<real>, m: nat, oldest: int)
    requires m < g.Emitted(|Stream(g, xs)|) && oldest == g.Base(m) - g.back
    requires 0 <= oldest - g.Total(g.primed) < |xs| && xs[oldest - g.Total(g.primed)] == 1.0
    ensures m < |AllUntrimmed(g, OldestSample, xs)| && AllUntrimmed(g, OldestSample, xs)[m] == 1.0
  {
    assert Stream(g, xs)[oldest - g.first] == 1.0;
    assert Window(g, Stream(g, xs), g.first, m)[0] == 1.0;
  }

  lemma ImpulseMissed(g: Geometry, s: State, x: real, m: nat, oldest: int)
    requires s.produced == m < g.DueCount(Reached(s) + 1)
    requires oldest == g.Base(m) - g.back < s.consumed
    ensures |Advance(g, OldestSample, s, x).1| != 0 && Advance(g, OldestSample, s, x).1[0] == 0.0
  {
    assert Window(g, s.history + [x], s.consumed, m)[0] == 0.0;
  }

  lemma UnsafeBetrays(g: Geometry) returns (xs: seq<real>)
    requires g.Valid() && !g.Safe()
    ensures Betrayed(g, OldestSample, xs)
  {
    if g.DropsHeld() {
      xs := MissingBetrays(g);
    } else {
      xs := OverdropBetrays(g);
    }
  }

  ghost predicate SameOnWindows(g: Geometry, r1: Reader, r2: Reader) {
    forall m: nat, w: seq<real> | |w| == g.back + g.lead + 1 :: r1(m, w) == r2(m, w)
  }

  lemma OutputsAgree(g: Geometry, r1: Reader, r2: Reader, history: seq<real>, consumed: int, from: nat, to: nat)
    requires SameOnWindows(g, r1, r2) && from <= to
    ensures Outputs(g, r1, history, consumed, from, to) == Outputs(g, r2, history, consumed, from, to)
  {
  }

  /** Readers that agree on windows of the right length give the same runs. */
  lemma {:induction false} ReadersAgree(g: Geometry, r1: Reader, r2: Reader, xs: seq<real>)
    requires SameOnWindows(g, r1, r2)
    ensures Run(g, r1, xs) == Run(g, r2, xs)
  {
    if xs != [] {
      var s, x := Run(g, r1, xs[..|xs| - 1]).0, xs[|xs| - 1];
      ReadersAgree(g, r1, r2, xs[..|xs| - 1]);
      AdvanceAgrees(g, r1, r2, s, x);
    }
  }

  lemma AdvanceAgrees(g: Geometry, r1: Reader, r2: Reader, s: State, x: real)
    requires SameOnWindows(g, r1, r2)
    ensures Advance(g, r1, s, x) == Advance(g, r2, s, x)
  {
    var held := s.history + [x];
    OutputsAgree(g, r1, r2, held, s.consumed, s.produced, Max(s.produced, g.DueCount(s.consumed + |held|)));
  }

  /** Trimming the history is invisible for every input and every reader
      exactly for the safe parameters. */
  lemma TrimmingExactly(g: Geometry)
    requires g.Valid()
    ensures g.Safe() <==> forall read: Reader, xs: seq<real> :: Run(g, read, xs).1 == AllUntrimmed(g, read, xs)
  {
    if g.Safe() {
      forall read: Reader, xs: seq<real>
        ensures Run(g, read, xs).1 == AllUntrimmed(g, read, xs)
      {
        TrimmingIsFaithful(g, read, xs);
      }
    } else {
      var xs := UnsafeBetrays(g);
    }
  }
}
