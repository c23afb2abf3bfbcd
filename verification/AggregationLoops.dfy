/** The loops that fold const-zero constraints and projections into equality constraints. */
module AggregationLoops {
  import opened Residues
  import opened Products
  import opened Sums
  import opened Arrays
  import opened Transforms
  import opened Polynomials
  import opened Vectors
  import opened Constraints
  import opened Recursion
  import opened Projection
  import opened ConstZeroAggregation
  import opened RunningSums

  lemma ScalarTimes(x: Zq, v: seq<Poly>)
    ensures VecScale(x, v) == TimesVector(ConstPoly(x), v)
  {
    hide TimesVector;
    forall i, k | 0 <= i < |v| && 0 <= k < D
      ensures Slot(VecScale(x, v), i, k) == Slot(TimesVector(ConstPoly(x), v), i, k)
    {
      TimesSlot(ConstPoly(x), v, i, k);
      ScaleSlot(x, v, i, k);
      ConstEntry(x, k);
    }
    VecExt(VecScale(x, v), TimesVector(ConstPoly(x), v));
  }

  lemma ConstEntry(x: Zq, k: nat)
    requires k < D
    ensures At(ConstPoly(x), k) == x
  {
    Canonical(x);
  }

  /** One more vector times its scalar weight. */
  lemma ScaledStep(count: nat, w: int -> Zq, vs: int -> seq<Poly>, len: nat)
    requires |vs(count)| == len
    ensures VecAdd(Combination(count, ScalarWeights(w), vs, len), VecScale(w(count), vs(count)))
         == Combination(count + 1, ScalarWeights(w), vs, len)
  {
    hide Combination, VecAdd, VecScale, TimesVector;
    ScalarTimes(w(count), vs(count));
    CombinationStep(count, ScalarWeights(w), vs, len);
    assert ScalarWeights(w)(count) == ConstPoly(w(count));
  }

  ghost predicate Shaped(zs: seq<ConstZero>, r: nat, n: nat) {
    forall l :: 0 <= l < |zs| ==> |zs[l].a| == r * r && |zs[l].phi| == r * n
  }

  /** The first ka constraints have their a scaled, the first kp their phi. */
  ghost predicate ScaledUpTo(now: seq<ConstZero>, was: seq<ConstZero>, psi: int -> Zq, ka: nat, kp: nat) {
    && |now| == |was|
    && forall i :: 0 <= i < |now| ==>
         now[i] == ConstZero(was[i].r, was[i].n, if i < ka then VecScale(psi(i), was[i].a) else was[i].a,
                             if i < kp then VecScale(psi(i), was[i].phi) else was[i].phi, was[i].b)
  }

  /** The quadratic and linear part of one aggregated constraint, computed the way both sides do. */
  method AggregateParts(zeros: seq<ConstZero>, psi: int -> Zq, jl: (int, int) -> int, rows: nat, omega: int -> Zq,
                        r: nat, n: nat)
    returns (a: seq<Poly>, phi: seq<Poly>)
    requires Shaped(zeros, r, n)
    ensures a == AggregatedA(zeros, psi, r) && phi == AggregatedPhi(zeros, psi, jl, rows, omega, r, n)
    ensures |a| == r * r && |phi| == r * n
  {
    hide Combination, VecAdd, VecScale, ConjugateRow, NttVec, ScalarWeights;
    NonNegative(r, r);
    NonNegative(r, n);
    var temp, count := zeros, |zeros|;
    for l := 0 to count
      invariant |temp| == count && ScaledUpTo(temp, zeros, psi, l, 0)
    {
      temp := temp[l := temp[l].(a := VecScale(psi(l), temp[l].a))];
    }
    a := Zeros(r * r);
    NoCombination(ScalarWeights(psi), QuadraticPart(zeros), r * r);
    for l := 0 to count
      invariant a == Combination(l, ScalarWeights(psi), QuadraticPart(zeros), r * r)
    {
      ScaledStep(l, psi, QuadraticPart(zeros), r * r);
      a := VecAdd(a, temp[l].a);
    }
    for l := 0 to count
      invariant |temp| == count && ScaledUpTo(temp, zeros, psi, count, l)
    {
      temp := temp[l := temp[l].(phi := VecScale(psi(l), temp[l].phi))];
    }
    phi := Zeros(r * n);
    NoCombination(ScalarWeights(psi), LinearPart(zeros), r * n);
    for l := 0 to count
      invariant phi == Combination(l, ScalarWeights(psi), LinearPart(zeros), r * n)
    {
      ScaledStep(l, psi, LinearPart(zeros), r * n);
      phi := VecAdd(phi, temp[l].phi);
    }
    var reduction := ReduceRows(jl, rows, omega, r * n);
    phi := VecAdd(phi, NttVec(reduction));
    CombinationLength(count, ScalarWeights(psi), QuadraticPart(zeros), r * r);
    CombinationLength(count, ScalarWeights(psi), LinearPart(zeros), r * n);
  }

  /** The projection rows, each times its weight, added up. */
  method ReduceRows(jl: (int, int) -> int, rows: nat, omega: int -> Zq, len: nat) returns (reduction: seq<Poly>)
    ensures reduction == CombinedRows(jl, rows, omega, len)
  {
    hide Combination, VecAdd, VecScale, ConjugateRow, ScalarWeights;
    reduction := Zeros(len);
    NoCombination(ScalarWeights(omega), ConjugatedRows(jl, len), len);
    for j := 0 to rows
      invariant reduction == Combination(j, ScalarWeights(omega), ConjugatedRows(jl, len), len)
    {
      ScaledStep(j, omega, ConjugatedRows(jl, len), len);
      var omegaTimesRow := VecScale(omega(j), ConjugateRow(Row(jl, j), len));
      reduction := VecAdd(reduction, omegaTimesRow);
    }
  }

  /** The verifier's expected constant coefficient, one term at a time. */
  method SumExpected(zeros: seq<ConstZero>, psi: int -> Zq, rows: nat, omega: int -> Zq, p: int -> int) returns (b0: Zq)
    ensures b0 == ExpectedB0(zeros, psi, rows, omega, p)
  {
    hide Sum, M;
    b0 := 0;
    ghost var f, g := WeightedBy(psi, Offsets(zeros)), WeightedBy(omega, p);
    SumStep(0, f);
    SumStep(0, g);
    Canonical(0);
    for l := 0 to |zeros|
      invariant b0 == M(Sum(l, f))
    {
      SumStep(l + 1, f);
      TermAdded(Sum(l, f), psi(l) * zeros[l].b, b0);
      b0 := M(b0 + M(psi(l) * zeros[l].b));
    }
    ghost var total := Sum(|zeros|, f);
    for l := 0 to rows
      invariant b0 == M(total - Sum(l, g))
    {
      SumStep(l + 1, g);
      TermTaken(total - Sum(l, g), omega(l) * p(l), b0);
      b0 := M(b0 - M(omega(l) * p(l)));
    }
  }

  lemma TermAdded(sum: int, x: int, b: Zq)
    requires b == M(sum)
    ensures M(b + M(x)) == M(sum + x)
  {
    MTwice(sum);
    MTwice(x);
    CongAdd(b, sum, M(x), x);
  }

  lemma TermTaken(sum: int, x: int, b: Zq)
    requires b == M(sum)
    ensures M(b - M(x)) == M(sum - x)
  {
    MTwice(sum);
    MTwice(x);
    CongSub(b, sum, M(x), x);
  }
}
