/**
 The streaming six-point Lagrange converter (LagrangeResampler of
 tools/analog_kernel_dispatch.py), in exact real arithmetic.
 */
module LagrangeResampling {
  import opened Arithmetic
  import opened StreamBookkeeping

  /** The constructor's arguments. */
  datatype Ratio = Ratio(up: pos, down: pos, phaseOffset: real)
  {
    /** An output reads from two samples before the one its position falls on
        to three after it; before sample 0 stand six zeros. */
    function Bookkeeping(): Geometry {
      Geometry(up, down, phaseOffset, 3, 2, 10, -6, 6)
    }

    function Position(m: nat): real { m as real * Bookkeeping().Stride() + phaseOffset }

    function Fraction(m: nat): real { Position(m) - Position(m).Floor as real }

    function Read(): Reader {
      (m: nat, w: seq<real>) => WeightedSum(Fraction(m), w, 6)
    }

    predicate Usable() {
      && Bookkeeping().Stride() - phaseOffset <= 14.0
      && (-8.0 <= phaseOffset || Bookkeeping().Stride() - phaseOffset <= 9.0)
    }
  }

  /** Factor k of coefficient j; factor j is absent. */
  function Factor(frac: real, j: int, k: int): real {
    if k == j then 1.0 else (frac - (k - 2) as real) / (j - k) as real
  }

  function Product(vs: seq<real>): real {
    if vs == [] then 1.0 else Product(vs[..|vs| - 1]) * vs[|vs| - 1]
  }

  function Coefficient(frac: real, j: int): real {
    Product(seq(6, k requires 0 <= k => Factor(frac, j, k)))
  }

  function WeightedSum(frac: real, w: seq<real>, n: nat): real {
    if n == 0 then 0.0 else WeightedSum(frac, w, n - 1) + Coefficient(frac, n - 1) * At(w, n - 1)
  }

  // ----- polynomials of degree at most five

  datatype Quintic = Quintic(c0: real, c1: real, c2: real, c3: real, c4: real, c5: real)
  {
    function At(t: real): real { Horner(c0, c1, c2, c3, c4, c5, t) }

    /** The polynomial t -> At(b + t). */
    function Recentred(b: real): Quintic {
      Quintic(Horner(c0, c1, c2, c3, c4, c5, b),
              Horner(c1, 2.0 * c2, 3.0 * c3, 4.0 * c4, 5.0 * c5, 0.0, b),
              Horner(c2, 3.0 * c3, 6.0 * c4, 10.0 * c5, 0.0, 0.0, b),
              Horner(c3, 4.0 * c4, 10.0 * c5, 0.0, 0.0, 0.0, b),
              Horner(c4, 5.0 * c5, 0.0, 0.0, 0.0, 0.0, b),
              c5)
    }
  }

  function Horner(c0: real, c1: real, c2: real, c3: real, c4: real, c5: real, t: real): real {
    c0 + t * (c1 + t * (c2 + t * (c3 + t * (c4 + t * c5))))
  }

  lemma TaylorShift(c0: real, c1: real, c2: real, c3: real, c4: real, c5: real, b: real, t: real)
    ensures Horner(Horner(c0, c1, c2, c3, c4, c5, b),
                   Horner(c1, 2.0 * c2, 3.0 * c3, 4.0 * c4, 5.0 * c5, 0.0, b),
                   Horner(c2, 3.0 * c3, 6.0 * c4, 10.0 * c5, 0.0, 0.0, b),
                   Horner(c3, 4.0 * c4, 10.0 * c5, 0.0, 0.0, 0.0, b),
                   Horner(c4, 5.0 * c5, 0.0, 0.0, 0.0, 0.0, b),
                   c5, t)
            == Horner(c0, c1, c2, c3, c4, c5, b + t)
  {
  }

  lemma RecentredMeans(c: Quintic, b: real, t: real)
    ensures c.Recentred(b).At(t) == c.At(b + t)
  {
    TaylorShift(c.c0, c.c1, c.c2, c.c3, c.c4, c.c5, b, t);
  }

  // ----- the coefficients reproduce polynomials up to degree five

  lemma ProductOfSix(v0: real, v1: real, v2: real, v3: real, v4: real, v5: real)
    ensures Product([v0, v1, v2, v3, v4, v5]) == v0 * v1 * v2 * v3 * v4 * v5
  {
    ProductGrows([], [v0]);
    ProductGrows([v0], [v0, v1]);
    ProductGrows([v0, v1], [v0, v1, v2]);
    ProductGrows([v0, v1, v2], [v0, v1, v2, v3]);
    ProductGrows([v0, v1, v2, v3], [v0, v1, v2, v3, v4]);
    ProductGrows([v0, v1, v2, v3, v4], [v0, v1, v2, v3, v4, v5]);
  }

  lemma ProductGrows(vs: seq<real>, ws: seq<real>)
    requires |ws| == |vs| + 1 && forall i :: 0 <= i < |vs| ==> ws[i] == vs[i]
    ensures Product(ws) == Product(vs) * ws[|vs|]
  {
    assert ws[..|vs|] == vs;
  }

  lemma Unrolled(f: real, j: int, v0: real, v1: real, v2: real, v3: real, v4: real, v5: real)
    requires v0 == Factor(f, j, 0) && v1 == Factor(f, j, 1) && v2 == Factor(f, j, 2)
    requires v3 == Factor(f, j, 3) && v4 == Factor(f, j, 4) && v5 == Factor(f, j, 5)
    ensures Coefficient(f, j) == v0 * v1 * v2 * v3 * v4 * v5
  {
    assert seq(6, k requires 0 <= k => Factor(f, j, k)) == [v0, v1, v2, v3, v4, v5];
    ProductOfSix(v0, v1, v2, v3, v4, v5);
  }

  lemma LowerCoefficients(f: real)
    ensures Coefficient(f, 0) == (f + 1.0) * f * (f - 1.0) * (f - 2.0) * (f - 3.0) / -120.0
    ensures Coefficient(f, 1) == (f + 2.0) * f * (f - 1.0) * (f - 2.0) * (f - 3.0) / 24.0
  {
    Unrolled(f, 0, 1.0, (f + 1.0) / -1.0, f / -2.0, (f - 1.0) / -3.0, (f - 2.0) / -4.0, (f - 3.0) / -5.0);
    Unrolled(f, 1, (f + 2.0) / 1.0, 1.0, f / -1.0, (f - 1.0) / -2.0, (f - 2.0) / -3.0, (f - 3.0) / -4.0);
  }

  lemma MiddleCoefficients(f: real)
    ensures Coefficient(f, 2) == (f + 2.0) * (f + 1.0) * (f - 1.0) * (f - 2.0) * (f - 3.0) / -12.0
    ensures Coefficient(f, 3) == (f + 2.0) * (f + 1.0) * f * (f - 2.0) * (f - 3.0) / 12.0
  {
    Unrolled(f, 2, (f + 2.0) / 2.0, (f + 1.0) / 1.0, 1.0, (f - 1.0) / -1.0, (f - 2.0) / -2.0, (f - 3.0) / -3.0);
    Unrolled(f, 3, (f + 2.0) / 3.0, (f + 1.0) / 2.0, f / 1.0, 1.0, (f - 2.0) / -1.0, (f - 3.0) / -2.0);
  }

  lemma UpperCoefficients(f: real)
    ensures Coefficient(f, 4) == (f + 2.0) * (f + 1.0) * f * (f - 1.0) * (f - 3.0) / -24.0
    ensures Coefficient(f, 5) == (f + 2.0) * (f + 1.0) * f * (f - 1.0) * (f - 2.0) / 120.0
  {
    Unrolled(f, 4, (f + 2.0) / 4.0, (f + 1.0) / 3.0, f / 2.0, (f - 1.0) / 1.0, 1.0, (f - 3.0) / -1.0);
    Unrolled(f, 5, (f + 2.0) / 5.0, (f + 1.0) / 4.0, f / 3.0, (f - 1.0) / 2.0, (f - 2.0) / 1.0, 1.0);
  }

  /** The i-th moment of the coefficients about floor(position) is frac^i. */
  lemma Moments(f: real)
    ensures var l0, l1, l2 := Coefficient(f, 0), Coefficient(f, 1), Coefficient(f, 2);
            var l3, l4, l5 := Coefficient(f, 3), Coefficient(f, 4), Coefficient(f, 5);
            && l0 + l1 + l2 + l3 + l4 + l5 == 1.0
            && -2.0 * l0 - l1 + l3 + 2.0 * l4 + 3.0 * l5 == f
            && 4.0 * l0 + l1 + l3 + 4.0 * l4 + 9.0 * l5 == f * f
            && -8.0 * l0 - l1 + l3 + 8.0 * l4 + 27.0 * l5 == f * f * f
            && 16.0 * l0 + l1 + l3 + 16.0 * l4 + 81.0 * l5 == f * f * f * f
            && -32.0 * l0 - l1 + l3 + 32.0 * l4 + 243.0 * l5 == f * f * f * f * f
  {
    LowerCoefficients(f);
    MiddleCoefficients(f);
    UpperCoefficients(f);
  }

  /** The coefficients of a polynomial against six moments. */
  function Against(q: Quintic, m0: real, m1: real, m2: real, m3: real, m4: real, m5: real): real {
    q.c0 * m0 + q.c1 * m1 + q.c2 * m2 + q.c3 * m3 + q.c4 * m4 + q.c5 * m5
  }

  /** Values of a polynomial under six weights, sorted by its coefficients. */
  lemma Regroup(q: Quintic, l0: real, l1: real, l2: real, l3: real, l4: real, l5: real)
    ensures l0 * q.At(-2.0) + l1 * q.At(-1.0) + l2 * q.At(0.0) + l3 * q.At(1.0) + l4 * q.At(2.0) + l5 * q.At(3.0)
            == Against(q, l0 + l1 + l2 + l3 + l4 + l5,
                       -2.0 * l0 - l1 + l3 + 2.0 * l4 + 3.0 * l5,
                       4.0 * l0 + l1 + l3 + 4.0 * l4 + 9.0 * l5,
                       -8.0 * l0 - l1 + l3 + 8.0 * l4 + 27.0 * l5,
                       16.0 * l0 + l1 + l3 + 16.0 * l4 + 81.0 * l5,
                       -32.0 * l0 - l1 + l3 + 32.0 * l4 + 243.0 * l5)
  {
  }

  lemma AgainstPowers(q: Quintic, f: real)
    ensures Against(q, 1.0, f, f * f, f * f * f, f * f * f * f, f * f * f * f * f) == q.At(f)
  {
  }

  /** Six weights with the moments of frac evaluate any polynomial of degree at
      most five at frac from its values at -2 .. +3. */
  lemma MomentsInterpolate(q: Quintic, f: real, l0: real, l1: real, l2: real, l3: real, l4: real, l5: real)
    requires l0 + l1 + l2 + l3 + l4 + l5 == 1.0
    requires -2.0 * l0 - l1 + l3 + 2.0 * l4 + 3.0 * l5 == f
    requires 4.0 * l0 + l1 + l3 + 4.0 * l4 + 9.0 * l5 == f * f
    requires -8.0 * l0 - l1 + l3 + 8.0 * l4 + 27.0 * l5 == f * f * f
    requires 16.0 * l0 + l1 + l3 + 16.0 * l4 + 81.0 * l5 == f * f * f * f
    requires -32.0 * l0 - l1 + l3 + 32.0 * l4 + 243.0 * l5 == f * f * f * f * f
    ensures l0 * q.At(-2.0) + l1 * q.At(-1.0) + l2 * q.At(0.0) + l3 * q.At(1.0) + l4 * q.At(2.0) + l5 * q.At(3.0)
            == q.At(f)
  {
    hide Against, Horner;
    Regroup(q, l0, l1, l2, l3, l4, l5);
    AgainstPowers(q, f);
  }

  lemma SixTerms(f: real, w0: real, w1: real, w2: real, w3: real, w4: real, w5: real)
    ensures WeightedSum(f, [w0, w1, w2, w3, w4, w5], 6)
            == Coefficient(f, 0) * w0 + Coefficient(f, 1) * w1 + Coefficient(f, 2) * w2
               + Coefficient(f, 3) * w3 + Coefficient(f, 4) * w4 + Coefficient(f, 5) * w5
  {
    var w := [w0, w1, w2, w3, w4, w5];
    assert WeightedSum(f, w, 1) == Coefficient(f, 0) * w0;
    assert WeightedSum(f, w, 2) == WeightedSum(f, w, 1) + Coefficient(f, 1) * w1;
    assert WeightedSum(f, w, 3) == WeightedSum(f, w, 2) + Coefficient(f, 2) * w2;
    assert WeightedSum(f, w, 4) == WeightedSum(f, w, 3) + Coefficient(f, 3) * w3;
    assert WeightedSum(f, w, 5) == WeightedSum(f, w, 4) + Coefficient(f, 4) * w4;
  }

  lemma ValuesInterpolate(q: Quintic, f: real)
    ensures WeightedSum(f, [q.At(-2.0), q.At(-1.0), q.At(0.0), q.At(1.0), q.At(2.0), q.At(3.0)], 6) == q.At(f)
  {
    SixTerms(f, q.At(-2.0), q.At(-1.0), q.At(0.0), q.At(1.0), q.At(2.0), q.At(3.0));
    Moments(f);
    MomentsInterpolate(q, f, Coefficient(f, 0), Coefficient(f, 1), Coefficient(f, 2), Coefficient(f, 3),
                       Coefficient(f, 4), Coefficient(f, 5));
  }

  /** A window of values of a polynomial is read as the polynomial. */
  lemma WindowOfPolynomial(q: Quintic, w: seq<real>, f: real)
    requires |w| == 6 && forall j :: 0 <= j < 6 ==> w[j] == q.At((j - 2) as real)
    ensures WeightedSum(f, w, 6) == q.At(f)
  {
    assert w == [q.At(-2.0), q.At(-1.0), q.At(0.0), q.At(1.0), q.At(2.0), q.At(3.0)];
    ValuesInterpolate(q, f);
  }

  // ----- what a run delivers

  /** Six real samples of a polynomial give the polynomial at the position. */
  lemma ReproducesAt(r: Ratio, c: Quintic, xs: seq<real>, m: nat)
    requires forall i :: 0 <= i < |xs| ==> xs[i] == c.At(i as real)
    requires var base := r.Bookkeeping().Base(m); 2 <= base && base + 3 < |xs|
    ensures var g := r.Bookkeeping();
            r.Read()(m, Window(g, Stream(g, xs), g.first, m)) == c.At(r.Position(m))
  {
    var g := r.Bookkeeping();
    var base := g.Base(m);
    var q := c.Recentred(base as real);
    var w := Window(g, Stream(g, xs), g.first, m);
    forall j | 0 <= j < 6
      ensures w[j] == q.At((j - 2) as real)
    {
      RecentredMeans(c, base as real, (j - 2) as real);
      SampleInWindow(r, xs, m, j);
    }
    WindowOfPolynomial(q, w, r.Fraction(m));
    RecentredMeans(c, base as real, r.Fraction(m));
    PositionParts(r, m);
  }

  /** Whatever the output and wherever its window lies, a window that holds the
      values of a polynomial is read as that polynomial at the fraction. */
  lemma ReadsPolynomial(r: Ratio, q: Quintic, m: nat, w: seq<real>)
    requires |w| == 6 && forall j :: 0 <= j < 6 ==> w[j] == q.At((j - 2) as real)
    ensures r.Read()(m, w) == q.At(r.Position(m) - r.Position(m).Floor as real)
  {
    hide Quintic.At, WeightedSum;
    WindowOfPolynomial(q, w, r.Fraction(m));
  }

  /** The untrimmed output at any position, the first ones included: six samples
      around it under the coefficients, silence standing outside the input. */
  lemma InterpolatesAt(r: Ratio, xs: seq<real>, m: nat)
    ensures var g, b, f := r.Bookkeeping(), r.Position(m).Floor, r.Position(m) - r.Position(m).Floor as real;
            r.Read()(m, Window(g, Stream(g, xs), g.first, m))
            == Coefficient(f, 0) * At(xs, b - 2) + Coefficient(f, 1) * At(xs, b - 1) + Coefficient(f, 2) * At(xs, b)
               + Coefficient(f, 3) * At(xs, b + 1) + Coefficient(f, 4) * At(xs, b + 2) + Coefficient(f, 5) * At(xs, b + 3)
  {
    hide Coefficient, WeightedSum;
    var g, b := r.Bookkeeping(), r.Position(m).Floor;
    var w := Window(g, Stream(g, xs), g.first, m);
    PositionParts(r, m);
    forall j | 0 <= j < 6
      ensures w[j] == At(xs, b - 2 + j)
    {
      SilentBefore(r, xs, b - 2 + j);
    }
    assert w == [At(xs, b - 2), At(xs, b - 1), At(xs, b), At(xs, b + 1), At(xs, b + 2), At(xs, b + 3)];
    SixTerms(r.Fraction(m), At(xs, b - 2), At(xs, b - 1), At(xs, b), At(xs, b + 1), At(xs, b + 2), At(xs, b + 3));
  }

  lemma SilentBefore(r: Ratio, xs: seq<real>, i: int)
    ensures var g := r.Bookkeeping(); At(Stream(g, xs), i - g.first) == At(xs, i)
  {
  }

  /** So every output of every run is that interpolation of its inputs. */
  lemma RunInterpolates(r: Ratio, xs: seq<real>, m: nat)
    requires r.Usable() && m < |Run(r.Bookkeeping(), r.Read(), xs).1|
    ensures var b, f := r.Position(m).Floor, r.Position(m) - r.Position(m).Floor as real;
            Run(r.Bookkeeping(), r.Read(), xs).1[m]
            == Coefficient(f, 0) * At(xs, b - 2) + Coefficient(f, 1) * At(xs, b - 1) + Coefficient(f, 2) * At(xs, b)
               + Coefficient(f, 3) * At(xs, b + 1) + Coefficient(f, 4) * At(xs, b + 2) + Coefficient(f, 5) * At(xs, b + 3)
  {
    hide Coefficient, Run, WeightedSum;
    UsableIsSafe(r);
    TrimmingIsFaithful(r.Bookkeeping(), r.Read(), xs);
    InterpolatesAt(r, xs, m);
  }

  lemma PositionParts(r: Ratio, m: nat)
    ensures r.Bookkeeping().Base(m) == r.Position(m).Floor
    ensures r.Bookkeeping().Base(m) as real + r.Fraction(m) == r.Position(m)
  {
  }

  lemma SampleInWindow(r: Ratio, xs: seq<real>, m: nat, j: nat)
    requires var base := r.Bookkeeping().Base(m); 2 <= base && base + 3 < |xs|
    requires j < 6
    ensures var g := r.Bookkeeping();
            Window(g, Stream(g, xs), g.first, m)[j] == xs[g.Base(m) + j - 2]
  {
  }

  /** Fed the values of a polynomial of degree at most five, the converter
      returns that polynomial at m * down / up + phase, as soon as the window
      lies inside real samples. */
  lemma RunReproduces(r: Ratio, c: Quintic, xs: seq<real>, m: nat)
    requires r.Usable()
    requires forall i :: 0 <= i < |xs| ==> xs[i] == c.At(i as real)
    requires var g := r.Bookkeeping(); 2 <= g.Base(m) && m < |Run(g, r.Read(), xs).1|
    ensures Run(r.Bookkeeping(), r.Read(), xs).1[m] == c.At(r.Position(m))
  {
    var g := r.Bookkeeping();
    UsableIsSafe(r);
    TrimmingIsFaithful(g, r.Read(), xs);
    DueExactly(g, m, g.Total(|Stream(g, xs)|));
    ReproducesAt(r, c, xs, m);
  }

  lemma UsableIsSafe(r: Ratio)
    ensures r.Bookkeeping().Valid()
    ensures r.Usable() <==> r.Bookkeeping().Safe()
  {
  }

  // ----- the object

  class LagrangeResampler {
    const ratio: Ratio
    var history: seq<real>
    var consumed: int
    var produced: nat
    ghost var inputs: seq<real>  // every sample pushed so far

    ghost function View(): State reads this { State(history, consumed, produced) }

    ghost predicate InStep() reads this { Tracks(ratio.Bookkeeping(), View(), Stream(ratio.Bookkeeping(), inputs)) }

    constructor (ratio: Ratio)
      ensures this.ratio == ratio
      ensures View() == Initial(ratio.Bookkeeping()) && inputs == []
      ensures InStep()
    {
      this.ratio := ratio;
      history := Zeros(6);
      consumed := -6;
      produced := 0;
      inputs := [];
      new;
      assert ratio.Bookkeeping().Floored(0) == 0;
    }

    method Push(sample: real) returns (out: seq<real>)
      modifies this
      ensures (View(), out) == Advance(ratio.Bookkeeping(), ratio.Read(), old(View()), sample)
      ensures inputs == old(inputs) + [sample]
      ensures ratio.Usable() && old(InStep()) ==>
                && InStep()
                && AllUntrimmed(ratio.Bookkeeping(), ratio.Read(), inputs)
                   == AllUntrimmed(ratio.Bookkeeping(), ratio.Read(), old(inputs)) + out
    {
      history := history + [sample];
      inputs := inputs + [sample];
      out := EmitDue();
      TrimHistory();
      if ratio.Usable() && old(InStep()) {
        UsableIsSafe(ratio);
        PushDelivers(ratio.Bookkeeping(), ratio.Read(), old(View()), old(inputs), sample);
      }
    }

    method EmitDue() returns (out: seq<real>)
      modifies this`produced
      ensures produced == Max(old(produced), ratio.Bookkeeping().DueCount(consumed + |history|))
      ensures out == Outputs(ratio.Bookkeeping(), ratio.Read(), history, consumed, old(produced), produced)
    {
      ghost var g := ratio.Bookkeeping();
      var available := consumed + |history| - 1;
      ghost var due := g.DueCount(available + 1);
      out := [];
      while true
        invariant old(produced) <= produced <= Max(old(produced), due)
        invariant out == Outputs(g, ratio.Read(), history, consumed, old(produced), produced)
        decreases due - produced
      {
        var base, frac := Locate();
        DueExactly(g, produced, available + 1);
        if base + 3 > available {
          break;
        }
        var total := SumWindow(base, frac, Window(g, history, consumed, produced));
        out := out + [total];
        produced := produced + 1;
      }
    }

    /** floor(position) of the next output, and its fraction. */
    method Locate() returns (base: int, frac: real)
      ensures base == ratio.Bookkeeping().Base(produced) && frac == ratio.Fraction(produced)
    {
      var position := ratio.Position(produced);
      PositionParts(ratio, produced);
      base := position.Floor;
      frac := position - base as real;
    }

    method TrimHistory()
      modifies this`history, this`consumed
      ensures View() == Trim(ratio.Bookkeeping(), old(history), old(consumed), produced)
    {
      var oldestNeeded := ratio.Bookkeeping().Floored(produced) - 2;   // floor(produced * down / up) - 2
      var drop := Max(0, oldestNeeded - consumed - 8);
      if drop > 0 {
        history := if drop <= |history| then history[drop..] else [];
        consumed := consumed + drop;
      }
    }

    /** The sum over the six coefficients; `w` is the window they see. */
    method SumWindow(base: int, frac: real, ghost w: seq<real>) returns (total: real)
      requires |w| == 6
      requires forall j :: 0 <= j < 6 ==> w[j] == At(history, base - 2 + j - consumed)
      ensures total == WeightedSum(frac, w, 6)
    {
      var coefficients := Coefficients(frac);
      total := 0.0;
      for j := 0 to 6
        invariant total == WeightedSum(frac, w, j)
      {
        var index := base + j - 2 - consumed;
        assert w[j] == At(history, index);
        if 0 <= index < |history| {
          total := total + coefficients[j] * history[index];
        }
      }
    }
  }

  /** All six Lagrange basis values at one fraction, factor by factor. */
  method Coefficients(frac: real) returns (result: seq<real>)
    ensures |result| == 6
    ensures forall j :: 0 <= j < 6 ==> result[j] == Coefficient(frac, j)
  {
    result := [];
    for j := 0 to 6
      invariant |result| == j
      invariant forall i :: 0 <= i < j ==> result[i] == Coefficient(frac, i)
    {
      var offset := j - 2;
      var value := 1.0;
      ghost var factors: seq<real> := [];
      for k := 0 to 6
        invariant |factors| == k && value == Product(factors)
        invariant forall i :: 0 <= i < k ==> factors[i] == Factor(frac, j, i)
      {
        ProductGrows(factors, factors + [Factor(frac, j, k)]);
        factors := factors + [Factor(frac, j, k)];
        if k != j {
          value := value * ((frac - (k - 2) as real) / (offset - (k - 2)) as real);
        }
      }
      assert factors == seq(6, k requires 0 <= k => Factor(frac, j, k));
      result := result + [value];
    }
  }
}
