/**
 The codec boundary of AnalogKernelModem in tools/analog_kernel_dispatch.py:
 one bearer sample in, one bearer sample out, with the kernel running at the
 codec's rate in between.  A kernel frame is an arbitrary function of every
 word presented to the kernel so far.
 */
module CodecBoundary {
  import opened Arithmetic
  import opened StreamBookkeeping
  import opened RationalResampling
  import opened LagrangeResampling

  // ----- sample arithmetic

  function Clamp16(x: int): int { if x < -32768 then -32768 else if 32767 < x then 32767 else x }

  /** Nearest integer, ties to even. */
  function Round(x: real): (r: int)
    ensures -0.5 <= x - r as real <= 0.5
    ensures x - r as real == 0.5 || x - r as real == -0.5 ==> r % 2 == 0
  {
    var f := x.Floor;
    var part := x - f as real;
    if part < 0.5 || (part == 0.5 && f % 2 == 0) then f else f + 1
  }

  /** A 16-bit line word read as a signed sample; wider words are masked first. */
  function Signed(word: int): int {
    var low := word % 0x10000;
    if 0x8000 <= low then low - 0x10000 else low
  }

  function ToWord(x: real): int { Clamp16(Round(x)) % 0x10000 }

  /** Masking first is what makes a negative sample survive: every 16-bit
      signed value, and every line word holding it, reads back unchanged. */
  lemma SignedUndoesMask(sample: int)
    requires -32768 <= sample < 32768
    ensures Signed(sample) == sample && Signed(sample % 0x10000) == sample
  {
  }

  function Distance(x: real, n: int): real { if x < n as real then n as real - x else x - n as real }

  /** n is the 16-bit sample closest to x, and the even one of two. */
  ghost predicate Nearest16(x: real, n: int) {
    && -32768 <= n <= 32767
    && (forall k :: -32768 <= k <= 32767 ==> Distance(x, n) <= Distance(x, k))
    && (-32768.0 <= x <= 32767.0 ==> Distance(x, n) <= 0.5 && (Distance(x, n) == 0.5 ==> n % 2 == 0))
  }

  lemma NearestInRange(x: real, n: int)
    requires Nearest16(x, n)
    ensures -32768 <= n <= 32767
  {
  }

  /** Clamping keeps a 16-bit value and takes any other to the nearer bound. */
  lemma ClampExactly(x: int)
    ensures -32768 <= x <= 32767 ==> Clamp16(x) == x
    ensures x < -32768 ==> Clamp16(x) == -32768
    ensures 32767 < x ==> Clamp16(x) == 32767
  {
  }

  /** Rounding and clamping take every real to its nearest sample. */
  lemma RoundsToNearest(x: real)
    ensures Nearest16(x, Clamp16(Round(x)))
  {
    hide Round, Clamp16;
    var y, n := Round(x), Clamp16(Round(x));
    ClampExactly(y);
    forall k | -32768 <= k <= 32767
      ensures Distance(x, n) <= Distance(x, k)
    {
      if n == y {
        NoneCloser(x, y, k);
      }
    }
  }

  lemma NoneCloser(x: real, y: int, k: int)
    requires -0.5 <= x - y as real <= 0.5
    ensures Distance(x, y) <= Distance(x, k)
  {
    assert k < y ==> k as real + 1.0 <= y as real;
    assert y < k ==> y as real + 1.0 <= k as real;
  }

  /** The word the kernel gets is 16 bits wide and carries that sample. */
  lemma WordCarriesNearest(x: real)
    ensures 0 <= ToWord(x) < 0x10000 && Nearest16(x, Signed(ToWord(x)))
  {
    hide Nearest16, Round;
    RoundsToNearest(x);
    ClampExactly(Round(x));
    SignedUndoesMask(Clamp16(Round(x)));
  }

  // ----- the converters, as values

  /** Either converter may stand on either side of the kernel. */
  datatype Converter = Polyphase(filter: Filter) | SixPoint(ratio: Ratio)
  {
    function Bookkeeping(): Geometry {
      match this
      case Polyphase(filter) => filter.Bookkeeping()
      case SixPoint(ratio) => ratio.Bookkeeping()
    }

    function Read(): Reader {
      match this
      case Polyphase(filter) => filter.Read()
      case SixPoint(ratio) => ratio.Read()
    }

    predicate Usable() {
      match this
      case Polyphase(filter) => filter.Usable()
      case SixPoint(ratio) => ratio.Usable()
    }

    /** Outputs completed by n pushes. */
    function Count(n: nat): nat { Bookkeeping().Emitted(Bookkeeping().primed + n) }

    /** Samples held before the first push, less those an output looks ahead. */
    function Lag(): int { Bookkeeping().first + Bookkeeping().primed - Bookkeeping().lead }
  }

  /** Everything a converter delivers for a stream. */
  function Delivered(c: Converter, xs: seq<real>): seq<real> { Run(c.Bookkeeping(), c.Read(), xs).1 }

  /** For usable parameters that is the untrimmed definition. */
  lemma DeliversUntrimmed(c: Converter, xs: seq<real>)
    requires c.Usable()
    ensures Delivered(c, xs) == AllUntrimmed(c.Bookkeeping(), c.Read(), xs) && |Delivered(c, xs)| == c.Count(|xs|)
  {
    hide Run, Outputs;
    UsableTrims(c);
    TrimmingIsFaithful(c.Bookkeeping(), c.Read(), xs);
  }

  lemma UsableTrims(c: Converter)
    requires c.Usable()
    ensures c.Bookkeeping().Valid() && c.Bookkeeping().Safe()
  {
    match c
    case Polyphase(filter) => RationalResampling.UsableIsSafe(filter);
    case SixPoint(ratio) => LagrangeResampling.UsableIsSafe(ratio);
  }

  lemma DeliveredGrows(c: Converter, xs: seq<real>, x: real)
    ensures var r := Advance(c.Bookkeeping(), c.Read(), Run(c.Bookkeeping(), c.Read(), xs).0, x);
            Run(c.Bookkeeping(), c.Read(), xs + [x]) == (r.0, Delivered(c, xs) + r.1)
  {
    assert (xs + [x])[..|xs|] == xs;
  }

  /** The count of outputs in whole numbers. */
  lemma CountIs(c: Converter, n: nat)
    requires 0 < n
    ensures var g := c.Bookkeeping();
            c.Count(n) == Max(0, CeilingQuotient((n + c.Lag()) * g.up - g.Offset(), g.down))
  {
    var g := c.Bookkeeping();
    CountExactly(g, g.Total(g.primed + n));
  }

  // ----- what is computed, without queues

  type Kernel = seq<int> -> int

  function Replies(kernel: Kernel, frames: seq<int>): (r: seq<real>)
    ensures |r| == |frames|
  {
    seq(|frames|, i requires 0 <= i < |frames| => kernel(frames[..i + 1]) as real)
  }

  function Words(raised: seq<real>): (w: seq<int>)
    ensures |w| == |raised| && forall i :: 0 <= i < |w| ==> w[i] == ToWord(raised[i])
  {
    seq(|raised|, i requires 0 <= i < |raised| => ToWord(raised[i]))
  }

  /** The words the kernel sees: the bearer samples brought to the codec rate. */
  function Frames(toCodec: Converter, samples: seq<real>): (w: seq<int>) { Words(Delivered(toCodec, samples)) }

  /** The bearer stream: the kernel's replies brought back to the bearer rate. */
  function Returned(toCodec: Converter, toBearer: Converter, kernel: Kernel, samples: seq<real>): seq<real> {
    Delivered(toBearer, Replies(kernel, Frames(toCodec, samples)))
  }

  /** How many calls found a sample to return: each takes one if there is one. */
  function Served(toCodec: Converter, toBearer: Converter, kernel: Kernel, samples: seq<real>): nat {
    if samples == [] then 0
    else
      var before := Served(toCodec, toBearer, kernel, samples[..|samples| - 1]);
      if before < |Returned(toCodec, toBearer, kernel, samples)| then before + 1 else before
  }

  lemma ServedGrows(toCodec: Converter, toBearer: Converter, kernel: Kernel, samples: seq<real>, x: real)
    ensures var before := Served(toCodec, toBearer, kernel, samples);
            Served(toCodec, toBearer, kernel, samples + [x])
            == if before < |Returned(toCodec, toBearer, kernel, samples + [x])| then before + 1 else before
  {
    hide Returned;
    assert (samples + [x])[..|samples|] == samples;
  }

  /** Every word presented to the kernel carries the nearest sample to what the
      converter delivered there. */
  lemma FramesCarryNearest(toCodec: Converter, samples: seq<real>, i: nat)
    requires i < |Frames(toCodec, samples)|
    ensures var delivered, word := Delivered(toCodec, samples), Frames(toCodec, samples)[i];
            i < |delivered| && 0 <= word < 0x10000 && Nearest16(delivered[i], Signed(word))
  {
    hide Nearest16, Delivered, ToWord;
    WordCarriesNearest(Delivered(toCodec, samples)[i]);
  }

  /** End to end, for usable converters: the kernel's i-th frame sees the nearest
      sample to the untrimmed codec stream's i-th, and every one before it; what
      comes back is the untrimmed bearer stream of its replies. */
  lemma EndToEnd(toCodec: Converter, toBearer: Converter, kernel: Kernel, samples: seq<real>, i: nat)
    requires toCodec.Usable() && toBearer.Usable()
    ensures var raised, frames := AllUntrimmed(toCodec.Bookkeeping(), toCodec.Read(), samples), Frames(toCodec, samples);
            var replies := Replies(kernel, frames);
            && |frames| == |raised| == |replies|
            && (i < |frames| ==> Nearest16(raised[i], Signed(frames[i])) && replies[i] == kernel(frames[..i + 1]) as real)
            && Returned(toCodec, toBearer, kernel, samples)
               == AllUntrimmed(toBearer.Bookkeeping(), toBearer.Read(), replies)
  {
    hide Nearest16, ToWord, Signed, Delivered;
    DeliversUntrimmed(toCodec, samples);
    DeliversUntrimmed(toBearer, Replies(kernel, Frames(toCodec, samples)));
    if i < |Frames(toCodec, samples)| {
      FramesCarryNearest(toCodec, samples, i);
    }
  }

  // ----- when the queue starves

  /** The two converters undo each other's rate, a ratio in lowest terms. */
  predicate Wired(toCodec: Converter, toBearer: Converter) {
    var g, b := toCodec.Bookkeeping(), toBearer.Bookkeeping();
    g.up == b.down && g.down == b.up && Gcd(g.up, g.down) == 1
  }

  /** Bearer samples produced by n calls. */
  function Produced(toCodec: Converter, toBearer: Converter, n: nat): nat { toBearer.Count(toCodec.Count(n)) }

  function Occupancy(toCodec: Converter, toBearer: Converter, n: nat): int { Produced(toCodec, toBearer, n) - n }

  /** Room the two converters leave for their phases, in steps of 1 / up. */
  function Slack(toCodec: Converter, toBearer: Converter): int {
    var g, b := toCodec.Bookkeeping(), toBearer.Bookkeeping();
    toCodec.Lag() * g.up + toBearer.Lag() * g.down - g.Offset() - b.Offset()
  }

  /** The guard on taps and phases: the first call completes a codec sample, and
      together the phases use less than the room there is. */
  predicate Steady(toCodec: Converter, toBearer: Converter) {
    var g := toCodec.Bookkeeping();
    g.Offset() < (1 + toCodec.Lag()) * g.up && 0 < Slack(toCodec, toBearer) + g.up
  }

  ghost predicate KeepsUp(toCodec: Converter, toBearer: Converter) {
    forall n: nat :: n <= Produced(toCodec, toBearer, n)
  }

  /** Whether n calls have n samples to return, in whole numbers: u and d are the
      rates, a and b the lags, o and p the phases. */
  lemma Reaches(u: pos, d: pos, a: int, b: int, o: int, p: int, n: nat, c: int, q: int)
    requires 0 < n && c == Max(0, CeilingQuotient((n + a) * u - o, d))
    requires q == if c == 0 then 0 else Max(0, CeilingQuotient((c + b) * d - p, u))
    ensures n <= q <==> o < (n + a) * u && (n - 1) * u < (c + b) * d - p
    ensures (n + a) * u - o <= c * d
    ensures n <= q ==> (c - 1) * d < (n + a) * u - o && (q - 1) * u < (c + b) * d - p <= q * u
  {
    CeilingBounds((n + a) * u - o, d);
    CeilingBounds((c + b) * d - p, u);
    var e, r := CeilingQuotient((n + a) * u - o, d), CeilingQuotient((c + b) * d - p, u);
    StepsApart(e, 0, d);
    StepsApart(0, e - 1, d);
    StepsApart(r, n - 1, u);
    StepsApart(n - 1, r - 1, u);
  }

  lemma ProducedIs(toCodec: Converter, toBearer: Converter, n: nat)
    requires Wired(toCodec, toBearer) && 0 < n
    ensures var g, b := toCodec.Bookkeeping(), toBearer.Bookkeeping();
            var c, q := toCodec.Count(n), Produced(toCodec, toBearer, n);
            && c == Max(0, CeilingQuotient((n + toCodec.Lag()) * g.up - g.Offset(), g.down))
            && q == if c == 0 then 0 else Max(0, CeilingQuotient((c + toBearer.Lag()) * g.down - b.Offset(), g.up))
  {
    CountIs(toCodec, n);
    if toCodec.Count(n) != 0 {
      CountIs(toBearer, toCodec.Count(n));
    }
  }

  /** For either kind of converter on either side, any rates and any phases: the
      queue always has a sample to return exactly when the guard holds. */
  lemma SteadyExactly(toCodec: Converter, toBearer: Converter)
    requires Wired(toCodec, toBearer)
    ensures KeepsUp(toCodec, toBearer) <==> Steady(toCodec, toBearer)
  {
    if Steady(toCodec, toBearer) {
      forall n: nat
        ensures n <= Produced(toCodec, toBearer, n)
      {
        if n != 0 {
          SteadyKeepsUp(toCodec, toBearer, n);
        }
      }
    } else {
      var n := UnsteadyStarves(toCodec, toBearer);
    }
  }

  lemma SteadyKeepsUp(toCodec: Converter, toBearer: Converter, n: nat)
    requires Wired(toCodec, toBearer) && Steady(toCodec, toBearer) && 0 < n
    ensures n <= Produced(toCodec, toBearer, n)
  {
    hide Gcd;
    var g, b := toCodec.Bookkeeping(), toBearer.Bookkeeping();
    var u, d, a, e := g.up, g.down, toCodec.Lag(), toBearer.Lag();
    ProducedIs(toCodec, toBearer, n);
    Reaches(u, d, a, e, g.Offset(), b.Offset(), n, toCodec.Count(n), Produced(toCodec, toBearer, n));
    StepsApart(1 + a, n + a, u);
    Distribute(u, d, a, e, n, toCodec.Count(n));
  }

  lemma Distribute(u: int, d: int, a: int, b: int, n: int, c: int)
    ensures (n + a) * u == n * u + a * u && (n - 1) * u == n * u - u && (c + b) * d == c * d + b * d
  {
  }

  /** Outside the guard some call comes away empty. */
  lemma UnsteadyStarves(toCodec: Converter, toBearer: Converter) returns (n: nat)
    requires Wired(toCodec, toBearer) && !Steady(toCodec, toBearer)
    ensures Produced(toCodec, toBearer, n) < n
  {
    hide Gcd;
    var g, b := toCodec.Bookkeeping(), toBearer.Bookkeeping();
    var u, d, a, e := g.up, g.down, toCodec.Lag(), toBearer.Lag();
    n := 1;
    if g.Offset() < (1 + a) * u {
      n := WholeCall(u, d, a, g.Offset());
    }
    ProducedIs(toCodec, toBearer, n);
    var c := toCodec.Count(n);
    Reaches(u, d, a, e, g.Offset(), b.Offset(), n, c, Produced(toCodec, toBearer, n));
    Distribute(u, d, a, e, n, c);
    if g.Offset() < (1 + a) * u {
      StepsApart(1 + a, n + a, u);
      ExactCeiling((n + a) * u - g.Offset(), d);
    }
  }

  lemma ExactCeiling(x: int, d: pos)
    requires x % d == 0
    ensures CeilingQuotient(x, d) * d == x
    ensures 0 < x ==> 0 < CeilingQuotient(x, d)
  {
    DivisionIs(-x, d, -(x / d), 0);
    assert x == x / d * d;
    StepsApart(x / d, 0, d);
  }

  /** Rates in lowest terms bring some call exactly to a codec sample. */
  lemma WholeCall(u: pos, d: pos, a: int, o: int) returns (n: nat)
    requires Gcd(u, d) == 1
    ensures 0 < n && ((n + a) * u - o) % d == 0
  {
    var x, y := Bezout(u, d);
    var k := o - a * u;
    var q := x * k / d;
    n := x * k % d + d;
    assert x * k == q * d + x * k % d;
    Whole(u, d, a, o, x, y, k, q, n);
    DivisionIs((n + a) * u - o, d, -(y * k) - q * u + u, 0);
  }

  lemma Whole(u: int, d: int, a: int, o: int, x: int, y: int, k: int, q: int, n: int)
    requires x * u + y * d == 1 && k == o - a * u && n == x * k - q * d + d
    ensures (n + a) * u - o == (-(y * k) - q * u + u) * d
  {
    assert (n + a) * u - o == n * u - k;
    assert n * u == (x * k) * u - (q * d) * u + d * u;
    assert (x * k) * u == k * (x * u) == k * (1 - y * d) == k - k * (y * d);
    assert (y * k) * d == k * (y * d) && (q * d) * u == (q * u) * d;
    assert (-(y * k) - q * u + u) * d == -((y * k) * d) - (q * u) * d + u * d;
  }

  /** The queue after every call, between bounds that do not grow with the run. */
  lemma QueueBounds(toCodec: Converter, toBearer: Converter, n: nat)
    requires Wired(toCodec, toBearer) && Steady(toCodec, toBearer) && 0 < n
    ensures var g, q := toCodec.Bookkeeping(), Occupancy(toCodec, toBearer, n);
            0 <= q && (q - 1) * g.up - g.down < Slack(toCodec, toBearer) <= q * g.up
  {
    hide Gcd, CeilingQuotient;
    var g, b := toCodec.Bookkeeping(), toBearer.Bookkeeping();
    ProducedIs(toCodec, toBearer, n);
    SteadyKeepsUp(toCodec, toBearer, n);
    QueueFrom(g.up, g.down, toCodec.Lag(), toBearer.Lag(), g.Offset(), b.Offset(), n, toCodec.Count(n),
              Produced(toCodec, toBearer, n));
  }

  lemma QueueFrom(u: pos, d: pos, a: int, b: int, o: int, p: int, n: nat, c: int, q: int)
    requires 0 < n <= q && c == Max(0, CeilingQuotient((n + a) * u - o, d))
    requires q == if c == 0 then 0 else Max(0, CeilingQuotient((c + b) * d - p, u))
    ensures (q - n - 1) * u - d < a * u + b * d - o - p <= (q - n) * u
  {
    hide CeilingQuotient;
    Reaches(u, d, a, b, o, p, n, c, q);
    Distribute(u, d, a, b, n, c);
    assert (q - n) * u == q * u - n * u && (q - n - 1) * u == (q - 1) * u - n * u && (c - 1) * d == c * d - d;
  }

  /** For usable converters those counts are what runs deliver, so the guard
      decides whether every call of every run is served. */
  lemma ServedExactly(toCodec: Converter, toBearer: Converter, kernel: Kernel)
    requires Wired(toCodec, toBearer) && toCodec.Usable() && toBearer.Usable()
    ensures (forall samples :: Served(toCodec, toBearer, kernel, samples) == |samples|) <==> Steady(toCodec, toBearer)
  {
    hide Steady, Wired, Served, Produced, Returned;
    SteadyExactly(toCodec, toBearer);
    if Steady(toCodec, toBearer) {
      forall samples
        ensures Served(toCodec, toBearer, kernel, samples) == |samples|
      {
        AllServed(toCodec, toBearer, kernel, samples);
      }
    } else {
      var n :| 0 <= n && Produced(toCodec, toBearer, n) < n;
      var samples := Zeros(n);
      ServedWithin(toCodec, toBearer, kernel, samples);
      ReturnedCount(toCodec, toBearer, kernel, samples);
      assert Served(toCodec, toBearer, kernel, samples) < |samples|;
    }
  }

  lemma ReturnedCount(toCodec: Converter, toBearer: Converter, kernel: Kernel, samples: seq<real>)
    requires toCodec.Usable() && toBearer.Usable()
    ensures |Returned(toCodec, toBearer, kernel, samples)| == Produced(toCodec, toBearer, |samples|)
  {
    DeliversUntrimmed(toCodec, samples);
    DeliversUntrimmed(toBearer, Replies(kernel, Frames(toCodec, samples)));
  }

  lemma {:induction false} AllServed(toCodec: Converter, toBearer: Converter, kernel: Kernel, samples: seq<real>)
    requires toCodec.Usable() && toBearer.Usable() && KeepsUp(toCodec, toBearer)
    ensures Served(toCodec, toBearer, kernel, samples) == |samples|
  {
    hide Returned, Produced;
    if samples != [] {
      AllServed(toCodec, toBearer, kernel, samples[..|samples| - 1]);
      ReturnedCount(toCodec, toBearer, kernel, samples);
      assert |samples| <= Produced(toCodec, toBearer, |samples|);
    }
  }

  lemma {:induction false} ServedWithin(toCodec: Converter, toBearer: Converter, kernel: Kernel, samples: seq<real>)
    requires toCodec.Usable() && toBearer.Usable()
    ensures Served(toCodec, toBearer, kernel, samples) <= |Returned(toCodec, toBearer, kernel, samples)|
  {
    hide Returned, Produced;
    if samples != [] {
      var before := samples[..|samples| - 1];
      ServedWithin(toCodec, toBearer, kernel, before);
      ReturnedCount(toCodec, toBearer, kernel, before);
      ReturnedCount(toCodec, toBearer, kernel, samples);
      ProducedMonotone(toCodec, toBearer, |before|, |samples|);
    }
  }

  lemma ProducedMonotone(toCodec: Converter, toBearer: Converter, m: nat, n: nat)
    requires m <= n
    ensures Produced(toCodec, toBearer, m) <= Produced(toCodec, toBearer, n)
  {
    CountMonotone(toCodec, m, n);
    CountMonotone(toBearer, toCodec.Count(m), toCodec.Count(n));
  }

  lemma CountMonotone(c: Converter, m: nat, n: nat)
    requires m <= n
    ensures c.Count(m) <= c.Count(n)
  {
    var g := c.Bookkeeping();
    DueMonotone(g, g.Total(g.primed + m), g.Total(g.primed + n));
  }

  // ----- particular wirings

  /** The default wiring: 9600 Hz codec, 8000 Hz bearer, 16 taps per phase. */
  predicate Default(toCodec: Converter, toBearer: Converter) {
    && toCodec.Polyphase? && toBearer.Polyphase?
    && toCodec.filter.up == toBearer.filter.down == 6 && toCodec.filter.down == toBearer.filter.up == 5
    && toCodec.filter.taps == toBearer.filter.taps == 16
    && toCodec.filter.phaseOffset == toBearer.filter.phaseOffset == 0
  }

  lemma DefaultIsSteady(toCodec: Converter, toBearer: Converter)
    requires Default(toCodec, toBearer)
    ensures Wired(toCodec, toBearer) && Steady(toCodec, toBearer) && toCodec.Usable() && toBearer.Usable()
    ensures toCodec.Lag() == toBearer.Lag() == 10 && Slack(toCodec, toBearer) == 110
    ensures toCodec.Bookkeeping().Offset() == toBearer.Bookkeeping().Offset() == 0
  {
    OffsetIsPhase(toCodec.filter);
    OffsetIsPhase(toBearer.filter);
    assert Gcd(6, 5) == Gcd(5, 1) == Gcd(1, 0) == 1;
  }

  /** Exactly 19 samples are left queued after every call, and the codec runs
      exactly six frames in every five calls after the first. */
  lemma DefaultOccupancy(toCodec: Converter, toBearer: Converter, n: nat)
    requires Default(toCodec, toBearer) && 0 < n
    ensures Occupancy(toCodec, toBearer, n) == 19
    ensures toCodec.Count(1) == 14
    ensures toCodec.Count(n + 5) == toCodec.Count(n) + 6
  {
    hide Gcd;
    DefaultIsSteady(toCodec, toBearer);
    QueueBounds(toCodec, toBearer, n);
    CountIs(toCodec, 1);
    CountIs(toCodec, n);
    CountIs(toCodec, n + 5);
  }

  /** The six-point converter looks three samples ahead of a history that starts
      with none to spare: before the kernel it leaves the first call empty unless
      its phase offset is below -2. */
  lemma SixPointStarves(toCodec: Converter, toBearer: Converter)
    requires Wired(toCodec, toBearer) && toCodec.SixPoint? && -2.0 <= toCodec.ratio.phaseOffset
    ensures Produced(toCodec, toBearer, 1) == 0
  {
    var g := toCodec.Bookkeeping();
    CountIs(toCodec, 1);
    assert -2.0 * g.up as real <= g.phase * g.up as real by {
      ScaleMonotone(-2.0, g.phase, g.up as real);
    }
    assert g.Offset() >= -2 * g.up;
    CeilingBounds((1 + toCodec.Lag()) * g.up - g.Offset(), g.down);
    StepsApart(0, CeilingQuotient((1 + toCodec.Lag()) * g.up - g.Offset(), g.down) - 1, g.down);
  }

  // ----- the object

  /** One of the two converter objects. */
  datatype Resampler = Fir(fir: RationalResampler) | Interpolator(six: LagrangeResampler)
  {
    function Object(): object {
      match this
      case Fir(fir) => fir
      case Interpolator(six) => six
    }

    function Plan(): Converter {
      match this
      case Fir(fir) => Polyphase(fir.filter)
      case Interpolator(six) => SixPoint(six.ratio)
    }

    ghost function Inputs(): seq<real>
      reads Object()
    {
      match this
      case Fir(fir) => fir.inputs
      case Interpolator(six) => six.inputs
    }

    /** The object stands where a run over its inputs leaves it. */
    ghost predicate Ran()
      reads Object()
    {
      Run(Plan().Bookkeeping(), Plan().Read(), Inputs()).0
      == match this
         case Fir(fir) => fir.View()
         case Interpolator(six) => six.View()
    }

    method Push(sample: real) returns (out: seq<real>)
      requires Ran()
      modifies Object()
      ensures Ran() && Inputs() == old(Inputs()) + [sample]
      ensures Delivered(Plan(), Inputs()) == Delivered(Plan(), old(Inputs())) + out
    {
      DeliveredGrows(Plan(), Inputs(), sample);
      match this {
        case Fir(fir) => out := fir.Push(sample);
        case Interpolator(six) => out := six.Push(sample);
      }
    }
  }

  method Build(plan: Converter) returns (r: Resampler)
    ensures r.Plan() == plan && r.Ran() && r.Inputs() == [] && fresh(r.Object())
  {
    match plan {
      case Polyphase(filter) =>
        var fir := new RationalResampler(filter);
        r := Fir(fir);
      case SixPoint(ratio) =>
        var six := new LagrangeResampler(ratio);
        r := Interpolator(six);
    }
  }

  class AnalogKernelModem {
    const kernel: Kernel
    const toCodec: Resampler
    const toBearer: Resampler
    var frames: seq<int>          // every word the kernel was given
    var bearerOut: seq<real>      // outputs not yet returned
    var lastOut: int
    ghost var samples: seq<real>  // every bearer sample so far
    ghost var served: nat         // how many outputs have been returned

    ghost function Stream(): seq<real>
      reads this`frames
    {
      Delivered(toBearer.Plan(), Replies(kernel, frames))
    }

    ghost predicate Valid()
      reads this, toCodec.Object(), toBearer.Object()
    {
      && Queued() && Apart()
      && toCodec.Ran() && toCodec.Inputs() == samples
      && frames == Frames(toCodec.Plan(), samples)
      && served == Served(toCodec.Plan(), toBearer.Plan(), kernel, samples)
    }

    ghost predicate Apart() {
      toCodec.Object() != toBearer.Object() && toCodec.Object() != this && toBearer.Object() != this
    }

    /** The queue is what the bearer side has delivered, less what was returned. */
    ghost predicate Queued()
      reads this`frames, this`bearerOut, this`lastOut, this`served, toBearer.Object()
    {
      && toBearer.Ran() && toBearer.Inputs() == Replies(kernel, frames)
      && served <= |Stream()| && bearerOut == Stream()[served..]
      && lastOut == if served == 0 then 0 else Clamp16(Round(Stream()[served - 1]))
    }

    constructor (kernel: Kernel, toCodec: Converter, toBearer: Converter)
      ensures Valid() && samples == [] && this.kernel == kernel
      ensures this.toCodec.Plan() == toCodec && this.toBearer.Plan() == toBearer
      ensures fresh(this.toCodec.Object()) && fresh(this.toBearer.Object())
    {
      var codec := Build(toCodec);
      var bearer := Build(toBearer);
      this.kernel, this.toCodec, this.toBearer := kernel, codec, bearer;
      frames, bearerOut, lastOut := [], [], 0;
      samples, served := [], 0;
    }

    /** One bearer sample in, one out.  A call returns the next sample of the
        bearer stream, rounded and clamped, if there is one, and otherwise
        repeats itself; under the guard there always is. */
    method FrameFast(word: int) returns (out: int)
      requires Valid()
      modifies this, toCodec.Object(), toBearer.Object()
      ensures Valid() && lastOut == out
      ensures samples == old(samples) + [Signed(word) as real]
      ensures var stream := Returned(toCodec.Plan(), toBearer.Plan(), kernel, samples);
              if old(served) < |stream| then served == old(served) + 1 && Nearest16(stream[old(served)], out)
              else served == old(served) && out == old(lastOut)
      ensures -32768 <= out <= 32767
      ensures Reliable() ==>
                && served == |samples| <= |Returned(toCodec.Plan(), toBearer.Plan(), kernel, samples)|
                && Nearest16(Returned(toCodec.Plan(), toBearer.Plan(), kernel, samples)[|samples| - 1], out)
                && |bearerOut| == Occupancy(toCodec.Plan(), toBearer.Plan(), |samples|)
      ensures Default(toCodec.Plan(), toBearer.Plan()) ==> Reliable() && |bearerOut| == 19
    {
      hide Wired, Steady, Produced, Served, Returned, Queued, Round, Clamp16, Delivered, Frames, Signed, Default, Run, Nearest16;
      ghost var before := samples;
      Accounts();
      Feed(Signed(word) as real);
      out := TakeOne();
      ServedGrows(toCodec.Plan(), toBearer.Plan(), kernel, before, Signed(word) as real);
      StreamIs();
      Accounts();
    }

    /** The sample raised to the codec's rate and through the kernel. */
    method Feed(sample: real)
      requires Valid()
      modifies this`samples, this`frames, this`bearerOut, toCodec.Object(), toBearer.Object()
      ensures Queued() && toCodec.Ran() && toCodec.Inputs() == samples == old(samples) + [sample]
      ensures frames == Frames(toCodec.Plan(), samples)
    {
      hide Queued;
      var raised := toCodec.Push(sample);
      WordsAppend(Delivered(toCodec.Plan(), samples), raised);
      samples := samples + [sample];
      RunFrames(raised);
    }

    lemma StreamIs()
      requires frames == Frames(toCodec.Plan(), samples)
      ensures Stream() == Returned(toCodec.Plan(), toBearer.Plan(), kernel, samples)
    {
    }

    /** The wiring under which no call comes away empty (ServedExactly). */
    ghost predicate Reliable() {
      && Wired(toCodec.Plan(), toBearer.Plan()) && Steady(toCodec.Plan(), toBearer.Plan())
      && toCodec.Plan().Usable() && toBearer.Plan().Usable()
    }

    lemma Accounts()
      requires Valid()
      ensures served <= |Stream()| && |bearerOut| == |Stream()| - served
      ensures Reliable() ==>
                && served == |samples| && |Stream()| == Produced(toCodec.Plan(), toBearer.Plan(), |samples|)
      ensures Default(toCodec.Plan(), toBearer.Plan()) && samples != [] ==>
                Reliable() && Occupancy(toCodec.Plan(), toBearer.Plan(), |samples|) == 19
    {
      hide Wired, Steady, Produced;
      if Reliable() {
        ServedExactly(toCodec.Plan(), toBearer.Plan(), kernel);
        ReturnedCount(toCodec.Plan(), toBearer.Plan(), kernel, samples);
      }
      if Default(toCodec.Plan(), toBearer.Plan()) && samples != [] {
        DefaultIsSteady(toCodec.Plan(), toBearer.Plan());
        DefaultOccupancy(toCodec.Plan(), toBearer.Plan(), |samples|);
      }
    }

    /** The head of the queue, or the last value again if there is none. */
    method TakeOne() returns (out: int)
      requires Queued()
      modifies this`bearerOut, this`lastOut, this`served
      ensures Queued() && lastOut == out && -32768 <= out <= 32767
      ensures if old(served) < |Stream()| then served == old(served) + 1 && Nearest16(Stream()[old(served)], out)
              else served == old(served) && out == old(lastOut)
    {
      hide Round, Clamp16, Nearest16;
      if served < |Stream()| {
        RoundsToNearest(Stream()[served]);
        NearestInRange(Stream()[served], Clamp16(Round(Stream()[served])));
      }
      if 0 < served {
        RoundsToNearest(Stream()[served - 1]);
        NearestInRange(Stream()[served - 1], Clamp16(Round(Stream()[served - 1])));
      }
      if bearerOut != [] {
        lastOut := Clamp16(Round(bearerOut[0]));
        bearerOut, served := bearerOut[1..], served + 1;
      }
      out := lastOut;
    }

    /** The loop over the codec samples of one call. */
    method RunFrames(raised: seq<real>)
      requires Queued() && Apart()
      modifies this`frames, this`bearerOut, toBearer.Object()
      ensures Queued() && frames == old(frames) + Words(raised)
    {
      hide Queued, Words, ToWord;
      assert raised[..0] == [];
      NoWords();
      for i := 0 to |raised|
        invariant Queued() && frames == old(frames) + Words(raised[..i])
      {
        CodecFrame(raised[i]);
        assert raised[..i + 1] == raised[..i] + [raised[i]];
        WordsAppend(raised[..i], [raised[i]]);
      }
      assert raised[..|raised|] == raised;
    }

    /** One kernel frame, its reply brought back to the bearer rate. */
    method CodecFrame(raised: real)
      requires Queued() && Apart()
      modifies this`frames, this`bearerOut, toBearer.Object()
      ensures Queued() && frames == old(frames) + [ToWord(raised)]
    {
      hide Round, Clamp16, Delivered, Replies, Words, ToWord, Run;
      ghost var before := Stream();
      RepliesExtend(kernel, frames, ToWord(raised));
      frames := frames + [ToWord(raised)];
      var returned := toBearer.Push(kernel(frames) as real);
      bearerOut := bearerOut + returned;
      QueueGrows(before, served, returned);
    }
  }

  lemma WordsAppend(before: seq<real>, raised: seq<real>)
    ensures Words(before + raised) == Words(before) + Words(raised)
    ensures |raised| == 1 ==> Words(raised) == [ToWord(raised[0])]
  {
  }

  lemma NoWords()
    ensures Words([]) == []
  {
  }

  lemma QueueGrows(before: seq<real>, popped: nat, more: seq<real>)
    requires popped <= |before|
    ensures (before + more)[popped..] == before[popped..] + more
    ensures 0 < popped ==> (before + more)[popped - 1] == before[popped - 1]
  {
  }

  lemma RepliesExtend(kernel: Kernel, frames: seq<int>, word: int)
    ensures Replies(kernel, frames + [word]) == Replies(kernel, frames) + [kernel(frames + [word]) as real]
  {
    var grown := frames + [word];
    forall i | 0 <= i < |frames|
      ensures Replies(kernel, grown)[i] == Replies(kernel, frames)[i]
    {
      assert grown[..i + 1] == frames[..i + 1];
    }
    assert grown[..|grown|] == grown;
  }
}
