/** The Johnson-Lindenstrauss projection and its rows as conjugated ring elements. */
module Projection {
  import opened Residues
  import opened Products
  import opened Sums
  import opened Arrays
  import opened Polynomials
  import opened Vectors
  import opened Constraints
  import opened NegacyclicProducts

  /** The coefficients of all polynomials one after the other. */
  function Flat(s: seq<Poly>): int -> int {
    x => if x >= 0 then Slot(s, x / D, x % D) else 0
  }

  /** One row of the projection matrix applied to the coefficients of s. */
  function ProjectRow(row: int -> int, s: seq<Poly>): Zq {
    M(Sum(|s| * D, Pointwise(row, Flat(s))))
  }

  /** The entries for polynomial i of the row, as X -> 1/X has them modulo X^64 + 1. */
  function ConjugateTerms(row: int -> int, i: int): int -> int {
    c => if c == 0 then row(i * D) else -row(i * D + (D - c))
  }

  function Conjugate(row: int -> int, i: int): Poly {
    Tabulate(ConjugateTerms(row, i))
  }

  function ConjugateRow(row: int -> int, len: nat): (v: seq<Poly>)
    ensures |v| == len
  {
    Vec(len, i => Conjugate(row, i))
  }

  function RowPart(row: int -> int, i: int): int -> int {
    c => row(i * D + c)
  }

  /** The terms of the constant coefficient of conj(a)*b. */
  function ConstantTerms(row: int -> int, i: int, b: Poly): int -> int {
    c => At(Conjugate(row, i), c) * Wrap(Coeffs(b), D, 0 - c)
  }

  lemma ConjugateAt(row: int -> int, i: int, c: nat)
    requires c < D
    ensures At(Conjugate(row, i), c) == M(ConjugateTerms(row, i)(c))
  {}

  lemma WrapBelow(b: Poly, c: nat)
    requires 0 < c < D
    ensures Wrap(Coeffs(b), D, 0 - c) == 0 - At(b, D - c)
  {}

  lemma ConjugateTerm(row: int -> int, i: int, b: Poly, c: nat)
    requires c < D
    ensures M(ConstantTerms(row, i, b)(c)) == M(Pointwise(RowPart(row, i), Coeffs(b))(if c == 0 then 0 else D - c))
  {
    hide Conjugate, At, M, Wrap;
    ConjugateAt(row, i, c);
    if c == 0 {
      MMulLeft(row(i * D), At(b, 0));
      assert Wrap(Coeffs(b), D, 0 - 0) == At(b, 0) by { WrapZero(b); }
    } else {
      var x: int, y: int := row(i * D + (D - c)), At(b, D - c);
      WrapBelow(b, c);
      MMulLeft(-x, -y);
      NegNeg(x, y);
    }
  }

  lemma WrapZero(b: Poly)
    ensures Wrap(Coeffs(b), D, 0) == At(b, 0)
  {}

  lemma NegNeg(x: int, y: int)
    ensures -x * -y == x * y
  {}

  /** g is f with everything after the first term in reverse order. */
  lemma SumTurned(n: nat, f: int -> int, g: int -> int)
    requires n >= 1
    requires forall c :: 0 <= c < n ==> M(g(c)) == M(f(if c == 0 then 0 else n - c))
    ensures M(Sum(n, g)) == M(Sum(n, f))
  {
    hide Sum;
    SumSplit(1, n - 1, g);
    SumSplit(1, n - 1, f);
    SumStep(1, g);
    SumStep(1, f);
    var f1, g1 := c => f(1 + c), c => g(1 + c);
    SumReverse(n - 1, f1);
    var h := c => f1(n - 1 - 1 - c);
    forall c | 0 <= c < n - 1 ensures M(g1(c)) == M(h(c)) {
      assert g1(c) == g(1 + c);
    }
    SumCong(n - 1, g1, h);
  }

  /** The constant coefficient of conj(a)*b is the inner product of the coefficients. */
  lemma ConjugateProduct(row: int -> int, i: int, b: Poly)
    ensures At(RingMul(Conjugate(row, i), b), 0) == M(Sum(D, Pointwise(RowPart(row, i), Coeffs(b))))
  {
    hide Sum, Conjugate;
    var f, g := Pointwise(RowPart(row, i), Coeffs(b)), ConstantTerms(row, i, b);
    forall c | 0 <= c < D ensures M(g(c)) == M(f(if c == 0 then 0 else D - c)) {
      ConjugateTerm(row, i, b, c);
    }
    SumTurned(D, f, g);
    var h := c => Coeffs(Conjugate(row, i))(c) * Wrap(Coeffs(b), D, 0 - c);
    forall c | 0 <= c < D ensures h(c) == g(c) {
      CoeffsAt(Conjugate(row, i), c);
    }
    SumExt(D, h, g);
    assert NegProd(Coeffs(Conjugate(row, i)), Coeffs(b), D, 0) == Sum(D, h);
  }
}

/** Folding the const-zero constraints and the projection into one equality constraint. */
module ConstZeroAggregation {
  import opened Residues
  import opened Products
  import opened Sums
  import opened Arrays
  import opened Transforms
  import opened Polynomials
  import opened Vectors
  import opened Packing
  import opened Constraints
  import opened Recursion
  import opened LinearMeaning
  import opened Projection

  const NO_CONST_ZERO := ConstZero(0, 0, [], [], 0)

  function ConstZeroAt(zs: seq<ConstZero>, l: int): ConstZero {
    if 0 <= l < |zs| then zs[l] else NO_CONST_ZERO
  }

  /** Scalar weights as polynomials that have the scalar in every place. */
  function ScalarWeights(w: int -> Zq): int -> Poly {
    l => ConstPoly(w(l))
  }

  function QuadraticPart(zs: seq<ConstZero>): int -> seq<Poly> {
    l => ConstZeroAt(zs, l).a
  }

  function LinearPart(zs: seq<ConstZero>): int -> seq<Poly> {
    l => ConstZeroAt(zs, l).phi
  }

  function AggregatedA(zs: seq<ConstZero>, psi: int -> Zq, r: nat): seq<Poly> {
    Combination(|zs|, ScalarWeights(psi), QuadraticPart(zs), r * r)
  }

  /** The projection rows as vectors of polynomials. */
  function ConjugatedRows(jl: (int, int) -> int, len: nat): int -> seq<Poly> {
    j => ConjugateRow(Row(jl, j), len)
  }

  /** The projection rows combined with the weights omega, in coefficients. */
  function CombinedRows(jl: (int, int) -> int, rows: nat, omega: int -> Zq, len: nat): seq<Poly> {
    Combination(rows, ScalarWeights(omega), ConjugatedRows(jl, len), len)
  }

  function AggregatedPhi(zs: seq<ConstZero>, psi: int -> Zq, jl: (int, int) -> int, rows: nat, omega: int -> Zq,
                         r: nat, n: nat): seq<Poly> {
    VecAdd(Combination(|zs|, ScalarWeights(psi), LinearPart(zs), r * n),
           NttVec(CombinedRows(jl, rows, omega, r * n)))
  }

  /** The prover's b = -(<G, a> + <S, phi>). */
  function BalancingTerm(a: seq<Poly>, phi: seq<Poly>, r: nat, n: nat, s: seq<Poly>): Poly {
    PolyNeg(Body(a, phi, r, n, s))
  }

  /** One aggregated constraint with a given b. */
  function AggregatedWith(zs: seq<ConstZero>, psi: int -> Zq, jl: (int, int) -> int, rows: nat, omega: int -> Zq,
                          r: nat, n: nat, b: Poly): Equality {
    Equality(r, n, AggregatedA(zs, psi, r), AggregatedPhi(zs, psi, jl, rows, omega, r, n), b)
  }

  /** The b that the prover sends for it. */
  function AggregatedB(zs: seq<ConstZero>, psi: int -> Zq, jl: (int, int) -> int, rows: nat, omega: int -> Zq,
                       r: nat, n: nat, s: seq<Poly>): Poly {
    BalancingTerm(AggregatedA(zs, psi, r), AggregatedPhi(zs, psi, jl, rows, omega, r, n), r, n, NttVec(s))
  }

  /** The constant coefficient the verifier asks for. */
  function ExpectedB0(zs: seq<ConstZero>, psi: int -> Zq, rows: nat, omega: int -> Zq, p: int -> int): Zq {
    M(Sum(|zs|, WeightedBy(psi, Offsets(zs))) - Sum(rows, WeightedBy(omega, p)))
  }

  function WeightedBy(w: int -> Zq, x: int -> int): int -> int {
    l => w(l) * x(l)
  }

  function Offsets(zs: seq<ConstZero>): int -> int {
    l => ConstZeroAt(zs, l).b
  }

  /** With the prover's b the aggregated constraint holds of the witness, whatever the weights. */
  lemma BalancedHolds(a: seq<Poly>, phi: seq<Poly>, r: nat, n: nat, s: seq<Poly>)
    ensures Satisfies(Equality(r, n, a, phi, BalancingTerm(a, phi, r, n, s)), s)
  {
    hide BodyAt;
    var c := Equality(r, n, a, phi, BalancingTerm(a, phi, r, n, s));
    forall k | 0 <= k < D ensures M(EvalAt(c, s, k)) == 0 {
      assert At(c.b, k) == M(0 - At(Body(a, phi, r, n, s), k));
      assert At(Body(a, phi, r, n, s), k) == M(BodyAt(a, phi, r, n, s, k));
    }
  }

  lemma AggregatedHolds(zs: seq<ConstZero>, psi: int -> Zq, jl: (int, int) -> int, rows: nat, omega: int -> Zq,
                        r: nat, n: nat, s: seq<Poly>)
    ensures Satisfies(AggregatedWith(zs, psi, jl, rows, omega, r, n, AggregatedB(zs, psi, jl, rows, omega, r, n, s)),
                      NttVec(s))
  {
    hide Satisfies, BalancingTerm, AggregatedA, AggregatedPhi;
    BalancedHolds(AggregatedA(zs, psi, r), AggregatedPhi(zs, psi, jl, rows, omega, r, n), r, n, NttVec(s));
  }

  /** The inverse transform of a linear combination of values. */
  lemma InttSum(n: nat, w: int -> int, a: int -> Poly, c: Poly)
    requires forall k :: 0 <= k < D ==> At(c, k) == M(Sum(n, j => w(j) * At(a(j), k)))
    ensures forall i :: 0 <= i < D ==> At(Intt(c), i) == M(Sum(n, j => w(j) * At(Intt(a(j)), i)))
  {
    hide Sum, Ntt, Intt;
    var back: int -> Poly := j => Intt(a(j));
    var x := Tabulate(i => Sum(n, j => w(j) * At(back(j), i)));
    NttSum(n, w, back, x);
    forall k | 0 <= k < D ensures At(Ntt(x), k) == At(c, k) {
      var f, g := j => w(j) * At(Ntt(back(j)), k), j => w(j) * At(a(j), k);
      forall j | 0 <= j < n ensures f(j) == g(j) {
        NttIntt(a(j));
        assert back(j) == Intt(a(j));
      }
      SumExt(n, f, g);
    }
    PolyExt(Ntt(x), c);
    InttNtt(x);
    forall i | 0 <= i < D ensures At(Intt(c), i) == M(Sum(n, j => w(j) * At(Intt(a(j)), i))) {
      SumExt(n, j => w(j) * At(back(j), i), j => w(j) * At(Intt(a(j)), i));
    }
  }

  // ---- The constant coefficient of the aggregate. ----

  /** One row of the projection as inner products of values. */
  function ProjectionPoly(row: int -> int, s: seq<Poly>): Poly {
    Tabulate(k => Dot(NttVec(ConjugateRow(row, |s|)), NttVec(s), |s|, k))
  }

  function PairProducts(u: seq<Poly>, v: seq<Poly>): int -> Poly {
    x => PolyMul(Ntt(PolyAt(u, x)), Ntt(PolyAt(v, x)))
  }

  lemma FlatAt(s: seq<Poly>, x: nat, c: nat)
    requires c < D
    ensures Flat(s)(x * D + c) == Slot(s, x, c)
  {
    assert (x * D + c) / D == x && (x * D + c) % D == c;
  }

  lemma FlatRow(row: int -> int, s: seq<Poly>, x: nat)
    ensures Sum(D, c => Pointwise(row, Flat(s))(x * D + c)) == Sum(D, Pointwise(RowPart(row, x), Coeffs(PolyAt(s, x))))
  {
    hide Sum, Flat;
    var f, g := c => Pointwise(row, Flat(s))(x * D + c), Pointwise(RowPart(row, x), Coeffs(PolyAt(s, x)));
    forall c | 0 <= c < D ensures f(c) == g(c) {
      FlatAt(s, x, c);
      CoeffsAt(PolyAt(s, x), c);
      assert Pointwise(row, Flat(s))(x * D + c) == row(x * D + c) * Flat(s)(x * D + c);
      assert g(c) == row(x * D + c) * At(PolyAt(s, x), c);
    }
    SumExt(D, f, g);
  }

  /** The constant coefficient of the inner product with a conjugated row is the projection. */
  lemma ProjectionConstant(row: int -> int, s: seq<Poly>)
    ensures ConstantTerm(ProjectionPoly(row, s)) == ProjectRow(row, s)
  {
    hide Sum, Ntt, Intt, ConjugateRow, Flat;
    var u, one := ConjugateRow(row, |s|), x => 1;
    var a := PairProducts(u, s);
    PairsSum(row, s);
    forall k | 0 <= k < D ensures At(ProjectionPoly(row, s), k) == M(Sum(|s|, x => one(x) * At(a(x), k))) {
      SumExt(|s|, x => 1 * At(PairProducts(u, s)(x), k), x => one(x) * At(a(x), k));
    }
    InttSum(|s|, one, a, ProjectionPoly(row, s));
    var f, g := x => one(x) * At(Intt(a(x)), 0), x => Sum(D, c => Pointwise(row, Flat(s))(x * D + c));
    forall x | 0 <= x < |s| ensures M(f(x)) == M(g(x)) {
      PairConstant(row, s, x);
      FlatRow(row, s, x);
    }
    SumCong(|s|, f, g);
    SumFlatten(|s|, D, Pointwise(row, Flat(s)));
  }

  lemma PairConstant(row: int -> int, s: seq<Poly>, x: nat)
    requires x < |s|
    ensures At(Intt(PairProducts(ConjugateRow(row, |s|), s)(x)), 0)
         == M(Sum(D, Pointwise(RowPart(row, x), Coeffs(PolyAt(s, x)))))
  {
    hide Sum, Ntt, Intt, Conjugate, RingMul;
    Convolution(Conjugate(row, x), PolyAt(s, x));
    ConjugateProduct(row, x, PolyAt(s, x));
    assert PolyAt(ConjugateRow(row, |s|), x) == Conjugate(row, x);
  }

  lemma PairsSum(row: int -> int, s: seq<Poly>)
    ensures forall k :: 0 <= k < D ==>
      At(ProjectionPoly(row, s), k) == M(Sum(|s|, x => 1 * At(PairProducts(ConjugateRow(row, |s|), s)(x), k)))
  {
    hide Sum, Ntt, ConjugateRow, ProjectionPoly, PairProducts;
    var u := ConjugateRow(row, |s|);
    forall k | 0 <= k < D ensures At(ProjectionPoly(row, s), k) == M(Sum(|s|, x => 1 * At(PairProducts(u, s)(x), k))) {
      PairsAt(u, s, k);
      ProjectionAt(row, s, k);
    }
  }

  lemma ProjectionAt(row: int -> int, s: seq<Poly>, k: nat)
    requires k < D
    ensures At(ProjectionPoly(row, s), k) == M(Dot(NttVec(ConjugateRow(row, |s|)), NttVec(s), |s|, k))
  {
    hide Dot, NttVec;
  }

  lemma PairsAt(u: seq<Poly>, s: seq<Poly>, k: nat)
    requires |u| == |s| && k < D
    ensures M(Dot(NttVec(u), NttVec(s), |s|, k)) == M(Sum(|s|, x => 1 * At(PairProducts(u, s)(x), k)))
  {
    hide Sum, NttVec, PairProducts, Slot, M;
    var f, g := Pointwise(Slots(NttVec(u), k), Slots(NttVec(s), k)), x => 1 * At(PairProducts(u, s)(x), k);
    forall x | 0 <= x < |s| ensures M(f(x)) == M(g(x)) {
      PairSlot(u, s, x, k);
      MTwice(Slot(NttVec(u), x, k) * Slot(NttVec(s), x, k));
    }
    SumCong(|s|, f, g);
  }

  lemma PairSlot(u: seq<Poly>, s: seq<Poly>, x: nat, k: nat)
    requires x < |s| && |u| == |s| && k < D
    ensures At(PairProducts(u, s)(x), k) == M(Slot(NttVec(u), x, k) * Slot(NttVec(s), x, k))
  {
    hide Ntt;
  }

  lemma ScalarWeightAt(w: int -> Zq, l: int, k: nat)
    requires k < D
    ensures At(ScalarWeights(w)(l), k) == w(l)
  {
    assert ScalarWeights(w)(l) == ConstPoly(w(l));
  }

  /** w_l times coordinate k of the inner product of the l-th vector with v. */
  function ScaledDots(w: int -> Zq, vs: int -> seq<Poly>, v: seq<Poly>, n: nat, k: int): int -> int {
    l => w(l) * Dot(vs(l), v, n, k)
  }

  lemma ScalarLinear(count: nat, w: int -> Zq, vs: int -> seq<Poly>, v: seq<Poly>, n: nat, k: nat)
    requires k < D
    ensures M(Dot(Combination(count, ScalarWeights(w), vs, n), v, n, k)) == M(Sum(count, ScaledDots(w, vs, v, n, k)))
  {
    hide Sum, Dot, Combination, ScalarWeights;
    DotLinear(count, ScalarWeights(w), vs, v, n, k);
    var f, g := DotTerms(ScalarWeights(w), vs, v, n, k), ScaledDots(w, vs, v, n, k);
    forall l | 0 <= l < count ensures f(l) == g(l) {
      ScalarWeightAt(w, l, k);
    }
    SumExt(count, f, g);
  }

  function TransformedRows(jl: (int, int) -> int, len: nat): int -> seq<Poly> {
    j => NttVec(ConjugateRow(Row(jl, j), len))
  }

  /** Transforming the combined rows is combining the transformed rows. */
  lemma CombinedRowsNtt(jl: (int, int) -> int, rows: nat, omega: int -> Zq, len: nat)
    ensures NttVec(CombinedRows(jl, rows, omega, len))
         == Combination(rows, ScalarWeights(omega), TransformedRows(jl, len), len)
  {
    hide Sum, Ntt, ConjugateRow, Slot, CombinedRows, ScalarWeights, Combination;
    var u, v := NttVec(CombinedRows(jl, rows, omega, len)),
                Combination(rows, ScalarWeights(omega), TransformedRows(jl, len), len);
    assert |CombinedRows(jl, rows, omega, len)| == len && |v| == len by {
      CombinationSize(rows, ScalarWeights(omega), ConjugatedRows(jl, len), len);
      CombinationSize(rows, ScalarWeights(omega), TransformedRows(jl, len), len);
      CombinedRowsIs(jl, rows, omega, len);
    }
    forall x, k | 0 <= x < len && 0 <= k < D ensures Slot(u, x, k) == Slot(v, x, k) {
      CombinedRowsSlot(jl, rows, omega, len, x, k);
    }
    VecExt(u, v);
  }

  lemma CombinationSize(count: nat, w: int -> Poly, vs: int -> seq<Poly>, len: nat)
    ensures |Combination(count, w, vs, len)| == len
  {}

  lemma CombinedRowsIs(jl: (int, int) -> int, rows: nat, omega: int -> Zq, len: nat)
    ensures CombinedRows(jl, rows, omega, len) == Combination(rows, ScalarWeights(omega), ConjugatedRows(jl, len), len)
  {}

  lemma CombinationAt(count: nat, w: int -> Zq, vs: int -> seq<Poly>, len: nat, x: nat, k: nat)
    requires x < len && k < D
    ensures At(PolyAt(Combination(count, ScalarWeights(w), vs, len), x), k)
         == M(Sum(count, l => w(l) * Slot(vs(l), x, k)))
  {
    hide Sum, Combination, ScalarWeights;
    CombinationSlot(count, ScalarWeights(w), vs, len, x, k);
    var f, g := l => Weights(ScalarWeights(w), k)(l) * Family(vs, k)(l, x), l => w(l) * Slot(vs(l), x, k);
    forall l | 0 <= l < count ensures f(l) == g(l) {
      ScalarWeightAt(w, l, k);
    }
    SumExt(count, f, g);
  }

  lemma CombinedRowsSlot(jl: (int, int) -> int, rows: nat, omega: int -> Zq, len: nat, x: nat, k: nat)
    requires x < len && k < D
    ensures Slot(NttVec(CombinedRows(jl, rows, omega, len)), x, k)
         == Slot(Combination(rows, ScalarWeights(omega), TransformedRows(jl, len), len), x, k)
  {
    hide Sum, Ntt, ConjugateRow, ScalarWeights, Combination;
    var c := PolyAt(CombinedRows(jl, rows, omega, len), x);
    var w: int -> int, a: int -> Poly := j => omega(j), j => PolyAt(ConjugateRow(Row(jl, j), len), x);
    forall i | 0 <= i < D ensures At(c, i) == M(Sum(rows, j => w(j) * At(a(j), i))) {
      var vs := ConjugatedRows(jl, len);
      CombinationAt(rows, omega, vs, len, x, i);
      var f, g := j => omega(j) * Slot(vs(j), x, i), j => w(j) * At(a(j), i);
      forall j | 0 <= j < rows ensures f(j) == g(j) {
        assert a(j) == PolyAt(vs(j), x);
      }
      SumExt(rows, f, g);
    }
    NttSum(rows, w, a, c);
    CombinationAt(rows, omega, TransformedRows(jl, len), len, x, k);
    var f, g := j => w(j) * At(Ntt(a(j)), k), j => omega(j) * Slot(TransformedRows(jl, len)(j), x, k);
    forall j | 0 <= j < rows ensures f(j) == g(j) {
      TransformedAt(jl, len, j, x, k);
    }
    SumExt(rows, f, g);
    CombinationSize(rows, ScalarWeights(omega), ConjugatedRows(jl, len), len);
  }

  lemma TransformedAt(jl: (int, int) -> int, len: nat, j: int, x: nat, k: int)
    requires x < len
    ensures Slot(TransformedRows(jl, len)(j), x, k) == At(Ntt(PolyAt(ConjugateRow(Row(jl, j), len), x)), k)
  {
    hide Ntt, ConjugateRow;
  }

  function BodyTerms(zs: seq<ConstZero>, psi: int -> Zq, r: nat, n: nat, s: seq<Poly>, k: int): int -> int {
    l => psi(l) * BodyAt(ConstZeroAt(zs, l).a, ConstZeroAt(zs, l).phi, r, n, s, k)
  }

  function RowTerms(jl: (int, int) -> int, omega: int -> Zq, len: nat, s: seq<Poly>, k: int): int -> int {
    j => omega(j) * Dot(NttVec(ConjugateRow(Row(jl, j), len)), s, len, k)
  }

  /** The body of the aggregate is the combination of the bodies and of the projection rows. */
  lemma AggregatedBody(zs: seq<ConstZero>, psi: int -> Zq, jl: (int, int) -> int, rows: nat, omega: int -> Zq,
                       r: nat, n: nat, s: seq<Poly>, k: nat)
    requires k < D
    ensures M(BodyAt(AggregatedA(zs, psi, r), AggregatedPhi(zs, psi, jl, rows, omega, r, n), r, n, s, k))
         == M(Sum(|zs|, BodyTerms(zs, psi, r, n, s, k)) + Sum(rows, RowTerms(jl, omega, r * n, s, k)))
  {
    hide Sum, Dot, Combination, GramMatrix, NttVec, CombinedRows, ScalarWeights, M, VecAdd, ScaledDots,
      TransformedRows, BodyTerms, RowTerms, QuadraticPart, LinearPart;
    var g := GramMatrix(s, r, n);
    var u, v := Combination(|zs|, ScalarWeights(psi), LinearPart(zs), r * n),
                NttVec(CombinedRows(jl, rows, omega, r * n));
    ScalarLinear(|zs|, psi, QuadraticPart(zs), g, r * r, k);
    ScalarLinear(|zs|, psi, LinearPart(zs), s, r * n, k);
    RowsLinear(jl, rows, omega, r * n, s, k);
    PhiSum(zs, psi, jl, rows, omega, r, n, s, k);
    BodySplit(zs, psi, r, n, s, k);
    JoinBody(Dot(AggregatedA(zs, psi, r), g, r * r, k), Dot(VecAdd(u, v), s, r * n, k), Dot(u, s, r * n, k),
             Dot(v, s, r * n, k),
             Sum(|zs|, ScaledDots(psi, QuadraticPart(zs), g, r * r, k)),
               Sum(|zs|, ScaledDots(psi, LinearPart(zs), s, r * n, k)),
             Sum(rows, RowTerms(jl, omega, r * n, s, k)));
  }

  lemma PhiSum(zs: seq<ConstZero>, psi: int -> Zq, jl: (int, int) -> int, rows: nat, omega: int -> Zq, r: nat,
               n: nat, s: seq<Poly>, k: nat)
    requires k < D
    ensures M(Dot(AggregatedPhi(zs, psi, jl, rows, omega, r, n), s, r * n, k))
         == M(Dot(Combination(|zs|, ScalarWeights(psi), LinearPart(zs), r * n), s, r * n, k)
            + Dot(NttVec(CombinedRows(jl, rows, omega, r * n)), s, r * n, k))
  {
    hide Dot, Combination, NttVec, ScalarWeights, M, VecAdd;
    CombinationSize(|zs|, ScalarWeights(psi), LinearPart(zs), r * n);
    CombinationSize(rows, ScalarWeights(omega), ConjugatedRows(jl, r * n), r * n);
    DotSum(Combination(|zs|, ScalarWeights(psi), LinearPart(zs), r * n), NttVec(CombinedRows(jl, rows, omega, r * n)),
           s, k);
  }

  lemma RowsLinear(jl: (int, int) -> int, rows: nat, omega: int -> Zq, len: nat, s: seq<Poly>, k: nat)
    requires k < D
    ensures M(Dot(NttVec(CombinedRows(jl, rows, omega, len)), s, len, k))
         == M(Sum(rows, RowTerms(jl, omega, len, s, k)))
  {
    hide Sum, Dot, Combination, NttVec, CombinedRows, ScalarWeights, M, ConjugateRow;
    CombinedRowsNtt(jl, rows, omega, len);
    ScalarLinear(rows, omega, TransformedRows(jl, len), s, len, k);
    SumExt(rows, ScaledDots(omega, TransformedRows(jl, len), s, len, k), RowTerms(jl, omega, len, s, k));
  }

  lemma JoinBody(a: int, uv: int, u: int, v: int, x: int, y: int, z: int)
    requires M(a) == M(x) && M(uv) == M(u + v) && M(u) == M(y) && M(v) == M(z)
    ensures M(a + uv) == M(x + y + z)
  {}

  lemma DotSum(u: seq<Poly>, v: seq<Poly>, s: seq<Poly>, k: nat)
    requires |u| == |v| && k < D
    ensures M(Dot(VecAdd(u, v), s, |u|, k)) == M(Dot(u, s, |u|, k) + Dot(v, s, |u|, k))
  {
    hide Sum, Slot, VecAdd, M;
    var f, g, h := Pointwise(Slots(VecAdd(u, v), k), Slots(s, k)), Pointwise(Slots(u, k), Slots(s, k)),
                   Pointwise(Slots(v, k), Slots(s, k));
    forall i | 0 <= i < |u| ensures M(f(i)) == M(g(i) + h(i)) {
      SumTerm(u, v, s, i, k);
    }
    SumOfTwo(|u|, f, g, h);
  }

  lemma SumTerm(u: seq<Poly>, v: seq<Poly>, s: seq<Poly>, i: nat, k: nat)
    requires i < |u| && k < D
    ensures M(Slot(VecAdd(u, v), i, k) * Slot(s, i, k))
         == M(Slot(u, i, k) * Slot(s, i, k) + Slot(v, i, k) * Slot(s, i, k))
  {
    hide Slot, VecAdd, M;
    SumSlot(u, v, i, k);
    SumProduct(Slot(u, i, k), Slot(v, i, k), Slot(s, i, k));
  }

  lemma SumSlot(u: seq<Poly>, v: seq<Poly>, i: nat, k: nat)
    requires i < |u| && k < D
    ensures Slot(VecAdd(u, v), i, k) == M(Slot(u, i, k) + Slot(v, i, k))
  {}

  lemma SumProduct(x: int, y: int, z: int)
    ensures M(M(x + y) * z) == M(x * z + y * z)
  {
    MMulLeft(x + y, z);
    Distribute(z, x + y, x, y);
  }

  lemma SumDistributes(count: nat, w: int -> Zq, x: int -> int, y: int -> int, f: int -> int, g: int -> int,
                       h: int -> int)
    requires forall l :: 0 <= l < count ==> f(l) == w(l) * (x(l) + y(l))
    requires forall l :: 0 <= l < count ==> g(l) == w(l) * x(l)
    requires forall l :: 0 <= l < count ==> h(l) == w(l) * y(l)
    ensures Sum(count, f) == Sum(count, g) + Sum(count, h)
  {
    hide *;
    forall l | 0 <= l < count ensures f(l) == g(l) + h(l) {
      Distribute(w(l), x(l) + y(l), x(l), y(l));
    }
    SumExt(count, f, l => g(l) + h(l));
    SumAdd(count, g, h);
  }

  lemma BodySplit(zs: seq<ConstZero>, psi: int -> Zq, r: nat, n: nat, s: seq<Poly>, k: int)
    ensures Sum(|zs|, BodyTerms(zs, psi, r, n, s, k))
         == Sum(|zs|, ScaledDots(psi, QuadraticPart(zs), GramMatrix(s, r, n), r * r, k)) + Sum(|zs|,
             ScaledDots(psi, LinearPart(zs), s, r * n, k))
  {
    hide Sum, Dot, GramMatrix;
    var x, y := l => Dot(ConstZeroAt(zs, l).a, GramMatrix(s, r, n), r * r, k),
                l => Dot(ConstZeroAt(zs, l).phi, s, r * n, k);
    SumDistributes(|zs|, psi, x, y, BodyTerms(zs, psi, r, n, s, k),
                   ScaledDots(psi, QuadraticPart(zs), GramMatrix(s, r, n), r * r, k),
                   ScaledDots(psi, LinearPart(zs), s, r * n, k));
  }

  /** All the polynomials whose combination the aggregate's body is. */
  function PartWeight(count: nat, psi: int -> Zq, omega: int -> Zq): int -> int {
    t => if t < count then 0 - psi(t) else 0 - omega(t - count)
  }

  function PartPoly(zs: seq<ConstZero>, jl: (int, int) -> int, r: nat, n: nat, s: seq<Poly>): int -> Poly {
    t => Pick(t < |zs|, Body(ConstZeroAt(zs, t).a, ConstZeroAt(zs, t).phi, r, n, NttVec(s)),
              ProjectionPoly(Row(jl, t - |zs|), s))
  }

  lemma NegatedTerm(w: int, x: int, p: int)
    requires p == M(x)
    ensures M((0 - w) * p) == M(-1 * (w * x))
  {
    CongScale(p, x, 0 - w);
    assert (0 - w) * x == -1 * (w * x);
  }

  lemma PartTerm(zs: seq<ConstZero>, psi: int -> Zq, jl: (int, int) -> int, omega: int -> Zq, r: nat, n: nat,
                 s: seq<Poly>, t: nat, k: nat)
    requires k < D && |s| == r * n
    ensures M(PartWeight(|zs|, psi, omega)(t) * At(PartPoly(zs, jl, r, n, s)(t), k))
         == M(-1 * (if t < |zs| then BodyTerms(zs, psi, r, n, NttVec(s), k)(t)
                    else RowTerms(jl, omega, r * n, NttVec(s), k)(t - |zs|)))
  {
    hide BodyAt, Dot, NttVec, ConjugateRow, Row, M;
    assert PartPoly(zs, jl, r, n, s)(t)
        == Pick(t < |zs|, Body(ConstZeroAt(zs, t).a, ConstZeroAt(zs, t).phi, r, n, NttVec(s)),
                ProjectionPoly(Row(jl, t - |zs|), s));
    if t < |zs| {
      var x := BodyAt(ConstZeroAt(zs, t).a, ConstZeroAt(zs, t).phi, r, n, NttVec(s), k);
      NegatedTerm(psi(t), x, At(PartPoly(zs, jl, r, n, s)(t), k));
    } else {
      var x := Dot(NttVec(ConjugateRow(Row(jl, t - |zs|), |s|)), NttVec(s), |s|, k);
      NegatedTerm(omega(t - |zs|), x, At(PartPoly(zs, jl, r, n, s)(t), k));
    }
  }

  lemma SumParts(n: nat, m: nat, f: int -> int, u: int -> int, v: int -> int)
    requires forall t :: 0 <= t < n + m ==> M(f(t)) == M(-1 * (if t < n then u(t) else v(t - n)))
    ensures M(Sum(n + m, f)) == M(0 - (Sum(n, u) + Sum(m, v)))
  {
    hide Sum, M;
    SumSplit(n, m, f);
    var f2 := t => f(n + t);
    SumCong(n, f, t => -1 * u(t));
    SumScale(n, -1, u);
    SumCong(m, f2, t => -1 * v(t));
    SumScale(m, -1, v);
    CongAdd(Sum(n, f), -Sum(n, u), Sum(m, f2), -Sum(m, v));
  }

  /** The prover's b is a combination of the bodies and of the projection rows. */
  lemma AggregatedParts(zs: seq<ConstZero>, psi: int -> Zq, jl: (int, int) -> int, rows: nat, omega: int -> Zq,
                        r: nat, n: nat, s: seq<Poly>, k: nat)
    requires k < D && |s| == r * n
    ensures At(AggregatedB(zs, psi, jl, rows, omega, r, n, s), k)
         == M(Sum(|zs| + rows, t => PartWeight(|zs|, psi, omega)(t) * At(PartPoly(zs, jl, r, n, s)(t), k)))
  {
    hide Sum, BodyAt, AggregatedA, AggregatedPhi, NttVec, PartWeight, PartPoly, BodyTerms, RowTerms;
    var f := t => PartWeight(|zs|, psi, omega)(t) * At(PartPoly(zs, jl, r, n, s)(t), k);
    var u, v := BodyTerms(zs, psi, r, n, NttVec(s), k), RowTerms(jl, omega, r * n, NttVec(s), k);
    forall t | 0 <= t < |zs| + rows ensures M(f(t)) == M(-1 * (if t < |zs| then u(t) else v(t - |zs|))) {
      PartTerm(zs, psi, jl, omega, r, n, s, t, k);
    }
    SumParts(|zs|, rows, f, u, v);
    AggregatedBody(zs, psi, jl, rows, omega, r, n, NttVec(s), k);
    NegatedBody(AggregatedA(zs, psi, r), AggregatedPhi(zs, psi, jl, rows, omega, r, n), r, n, NttVec(s), k,
                Sum(|zs|, u) + Sum(rows, v));
  }

  lemma NegatedBody(a: seq<Poly>, phi: seq<Poly>, r: nat, n: nat, s: seq<Poly>, k: nat, x: int)
    requires k < D && M(BodyAt(a, phi, r, n, s, k)) == M(x)
    ensures At(BalancingTerm(a, phi, r, n, s), k) == M(0 - x)
  {
    hide BodyAt;
  }

  function BodyConstants(zs: seq<ConstZero>, r: nat, n: nat, s: seq<Poly>): int -> int {
    l => ConstantTerm(Body(ConstZeroAt(zs, l).a, ConstZeroAt(zs, l).phi, r, n, NttVec(s)))
  }

  function Projections(jl: (int, int) -> int, s: seq<Poly>): int -> int {
    j => ProjectRow(Row(jl, j), s)
  }

  /** psi_l times what the l-th const-zero constraint leaves. */
  function Residuals(zs: seq<ConstZero>, psi: int -> Zq, r: nat, n: nat, s: seq<Poly>): int -> int {
    l => psi(l) * (BodyConstants(zs, r, n, s)(l) + Offsets(zs)(l))
  }

  lemma PartConstant(zs: seq<ConstZero>, jl: (int, int) -> int, r: nat, n: nat, s: seq<Poly>, t: nat)
    ensures At(Intt(PartPoly(zs, jl, r, n, s)(t)), 0)
         == if t < |zs| then BodyConstants(zs, r, n, s)(t) else Projections(jl, s)(t - |zs|)
  {
    hide Body, Intt, NttVec, ProjectionPoly, ProjectRow, Row;
    assert PartPoly(zs, jl, r, n, s)(t)
        == Pick(t < |zs|, Body(ConstZeroAt(zs, t).a, ConstZeroAt(zs, t).phi, r, n, NttVec(s)),
                ProjectionPoly(Row(jl, t - |zs|), s));
    if t >= |zs| { ProjectionConstant(Row(jl, t - |zs|), s); }
  }

  /** The constant coefficient of the prover's b before the constraints are used. */
  lemma ConstantOfB(zs: seq<ConstZero>, psi: int -> Zq, jl: (int, int) -> int, rows: nat, omega: int -> Zq, r: nat,
                    n: nat, s: seq<Poly>)
    requires |s| == r * n
    ensures ConstantTerm(AggregatedB(zs, psi, jl, rows, omega, r, n, s))
         == M(0 - (Sum(|zs|, WeightedBy(psi, BodyConstants(zs, r, n, s))) + Sum(rows,
             WeightedBy(omega, Projections(jl, s)))))
  {
    hide Sum, Intt, AggregatedB, PartPoly, PartWeight, BodyConstants, Projections;
    var w, a, b, total := PartWeight(|zs|, psi, omega), PartPoly(zs, jl, r, n, s),
                          AggregatedB(zs, psi, jl, rows, omega, r, n, s), |zs| + rows;
    forall k | 0 <= k < D ensures At(b, k) == M(Sum(total, t => w(t) * At(a(t), k))) {
      AggregatedParts(zs, psi, jl, rows, omega, r, n, s, k);
      SumExt(total, t => PartWeight(|zs|, psi, omega)(t) * At(PartPoly(zs, jl, r, n, s)(t), k),
             t => w(t) * At(a(t), k));
    }
    InttSum(total, w, a, b);
    PartsOfB(zs, psi, jl, rows, omega, r, n, s);
    SumExt(total, t => w(t) * At(Intt(a(t)), 0), PartTermsOfB(zs, psi, jl, omega, r, n, s));
  }

  function PartTermsOfB(zs: seq<ConstZero>, psi: int -> Zq, jl: (int, int) -> int, omega: int -> Zq, r: nat, n: nat,
                        s: seq<Poly>): int -> int {
    t => PartWeight(|zs|, psi, omega)(t) * At(Intt(PartPoly(zs, jl, r, n, s)(t)), 0)
  }

  lemma PartsOfB(zs: seq<ConstZero>, psi: int -> Zq, jl: (int, int) -> int, rows: nat, omega: int -> Zq, r: nat,
                 n: nat, s: seq<Poly>)
    ensures M(Sum(|zs| + rows, PartTermsOfB(zs, psi, jl, omega, r, n, s)))
         == M(0 - (Sum(|zs|, WeightedBy(psi, BodyConstants(zs, r, n, s))) + Sum(rows,
             WeightedBy(omega, Projections(jl, s)))))
  {
    hide Sum, Intt, PartPoly, BodyConstants, Projections, M;
    var f, u, v := PartTermsOfB(zs, psi, jl, omega, r, n, s), WeightedBy(psi, BodyConstants(zs, r, n, s)),
                   WeightedBy(omega, Projections(jl, s));
    forall t | 0 <= t < |zs| + rows ensures M(f(t)) == M(-1 * (if t < |zs| then u(t) else v(t - |zs|))) {
      PartConstant(zs, jl, r, n, s, t);
      Negation(if t < |zs| then psi(t) else omega(t - |zs|), At(Intt(PartPoly(zs, jl, r, n, s)(t)), 0));
    }
    SumParts(|zs|, rows, f, u, v);
  }

  lemma Negation(w: int, x: int)
    ensures (0 - w) * x == -1 * (w * x)
  {}

  /** What the verifier computes from the message p differs from the constant coefficient of the
      prover's b by the weighted residuals of the const-zero constraints, and by nothing else. */
  lemma ConstantMeasures(zs: seq<ConstZero>, psi: int -> Zq, jl: (int, int) -> int, rows: nat, omega: int -> Zq,
                         r: nat, n: nat, s: seq<Poly>)
    requires |s| == r * n
    ensures M(ConstantTerm(AggregatedB(zs, psi, jl, rows, omega, r, n, s)) + Sum(|zs|, Residuals(zs, psi, r, n, s)))
         == ExpectedB0(zs, psi, rows, omega, Projections(jl, s))
  {
    hide Sum, AggregatedB, BodyConstants, Projections, Intt;
    ConstantOfB(zs, psi, jl, rows, omega, r, n, s);
    SumDistributes(|zs|, psi, BodyConstants(zs, r, n, s), Offsets(zs), Residuals(zs, psi, r, n, s),
                   WeightedBy(psi, BodyConstants(zs, r, n, s)), WeightedBy(psi, Offsets(zs)));
  }

  /** When the constraints hold and p is the projection of the witness, the verifier's test passes. */
  lemma AggregationFaithful(zs: seq<ConstZero>, psi: int -> Zq, jl: (int, int) -> int, rows: nat, omega: int -> Zq,
                            r: nat, n: nat, s: seq<Poly>)
    requires |s| == r * n
    requires forall l :: 0 <= l < |zs| ==> zs[l].r == r && zs[l].n == n && SatisfiesConstZero(zs[l], NttVec(s))
    ensures ConstantTerm(AggregatedB(zs, psi, jl, rows, omega, r, n, s))
         == ExpectedB0(zs, psi, rows, omega, Projections(jl, s))
  {
    hide Sum, AggregatedB, Projections, ConstantTerm, Residuals, SatisfiesConstZero;
    ConstantMeasures(zs, psi, jl, rows, omega, r, n, s);
    var f, zero := Residuals(zs, psi, r, n, s), l => 0;
    forall l | 0 <= l < |zs| ensures M(f(l)) == M(zero(l)) {
      NoResidual(zs, psi, r, n, s, l);
    }
    SumCong(|zs|, f, zero);
    SumZero(|zs|, zero);
  }

  lemma NoResidual(zs: seq<ConstZero>, psi: int -> Zq, r: nat, n: nat, s: seq<Poly>, l: nat)
    requires l < |zs| && zs[l].r == r && zs[l].n == n && SatisfiesConstZero(zs[l], NttVec(s))
    ensures M(Residuals(zs, psi, r, n, s)(l)) == 0
  {
    hide ConstantTerm, Body, NttVec;
    assert ConstZeroAt(zs, l) == zs[l];
    CongScale(BodyConstants(zs, r, n, s)(l) + Offsets(zs)(l), 0, psi(l));
  }
}
