/** Constraints over a witness matrix, and their aggregation into one. */
module Constraints {
  import opened Residues
  import opened Products
  import opened Sums
  import opened Arrays
  import opened Transforms
  import opened Polynomials
  import opened Vectors
  import opened Packing

  /** sum_ij a[i,j]<s_i,s_j> + sum_i <phi_i,s_i> + b = 0, over the values of the witness. */
  datatype Equality = Equality(r: nat, n: nat, a: seq<Poly>, phi: seq<Poly>, b: Poly) {
    predicate Valid() {
      |a| == r * r && |phi| == r * n
    }
  }

  /** The same with only the constant coefficient required to vanish. */
  datatype ConstZero = ConstZero(r: nat, n: nat, a: seq<Poly>, phi: seq<Poly>, b: Zq) {
    predicate Valid() {
      |a| == r * r && |phi| == r * n
    }
  }

  function Slots(v: seq<Poly>, k: int): int -> int {
    i => Slot(v, i, k)
  }

  /** Coordinate k of the inner product of u and v, before reduction. */
  function Dot(u: seq<Poly>, v: seq<Poly>, n: nat, k: int): int {
    Sum(n, Pointwise(Slots(u, k), Slots(v, k)))
  }

  /** S * S^t for a witness of r rows of length n. */
  function GramMatrix(s: seq<Poly>, r: nat, n: nat): seq<Poly> {
    Matmul(s, r, n, Transpose(s, r, n), r)
  }

  /** Coordinate k of the left-hand side without b. */
  function BodyAt(a: seq<Poly>, phi: seq<Poly>, r: nat, n: nat, s: seq<Poly>, k: int): int {
    Dot(a, GramMatrix(s, r, n), r * r, k) + Dot(phi, s, r * n, k)
  }

  function EvalAt(c: Equality, s: seq<Poly>, k: int): int {
    BodyAt(c.a, c.phi, c.r, c.n, s, k) + At(c.b, k)
  }

  /** The witness with values s satisfies c. */
  ghost predicate Satisfies(c: Equality, s: seq<Poly>) {
    forall k :: 0 <= k < D ==> M(EvalAt(c, s, k)) == 0
  }

  /** The left-hand side of a const-zero constraint, as values. */
  function Body(a: seq<Poly>, phi: seq<Poly>, r: nat, n: nat, s: seq<Poly>): Poly {
    Tabulate(k => BodyAt(a, phi, r, n, s, k))
  }

  /** The constant coefficient of a polynomial given by values. */
  function ConstantTerm(y: Poly): Zq {
    At(Intt(y), 0)
  }

  ghost predicate SatisfiesConstZero(c: ConstZero, s: seq<Poly>) {
    M(ConstantTerm(Body(c.a, c.phi, c.r, c.n, s)) + c.b) == 0
  }

  /** The weighted sum of a family of vectors of length len. */
  function Combination(count: nat, w: int -> Poly, vs: int -> seq<Poly>, len: nat): seq<Poly> {
    Vec(len, x => PolyDot(count, w, i => PolyAt(vs(i), x)))
  }

  function Weights(w: int -> Poly, k: int): int -> int {
    i => At(w(i), k)
  }

  /** Coordinate k of entry x of the i-th vector. */
  function Family(vs: int -> seq<Poly>, k: int): (int, int) -> int {
    (i, x) => Slot(vs(i), x, k)
  }

  lemma CombinationSlot(count: nat, w: int -> Poly, vs: int -> seq<Poly>, len: nat, x: nat, k: nat)
    requires x < len && k < D
    ensures Slot(Combination(count, w, vs, len), x, k) == M(Combine(count, Weights(w, k), Family(vs, k))(x))
  {
    hide Sum;
    var f, weights, fam := i => PolyAt(vs(i), x), Weights(w, k), Family(vs, k);
    forall i | 0 <= i < count ensures PolyTerms(w, f, k)(i) == weights(i) * fam(i, x) {
      assert f(i) == PolyAt(vs(i), x);
    }
    SumExt(count, PolyTerms(w, f, k), i => weights(i) * fam(i, x));
  }

  function DotTerms(w: int -> Poly, vs: int -> seq<Poly>, v: seq<Poly>, n: nat, k: int): int -> int {
    i => At(w(i), k) * Dot(vs(i), v, n, k)
  }

  /** Inner products are linear in the combined vector. */
  lemma DotLinear(count: nat, w: int -> Poly, vs: int -> seq<Poly>, v: seq<Poly>, n: nat, k: nat)
    requires k < D
    ensures M(Dot(Combination(count, w, vs, n), v, n, k)) == M(Sum(count, DotTerms(w, vs, v, n, k)))
  {
    hide Sum, Slot, Combination, Combine;
    var u, p := Combination(count, w, vs, n), Slots(v, k);
    var x, c := Family(vs, k), Combine(count, Weights(w, k), Family(vs, k));
    LinearSum(n, count, Weights(w, k), x, p);
    var f, g := Pointwise(Slots(u, k), p), Pointwise(c, p);
    forall l | 0 <= l < n ensures M(f(l)) == M(g(l)) {
      CombinationSlot(count, w, vs, n, l, k);
      CongMul(Slot(u, l, k), c(l), p(l), p(l));
    }
    SumCong(n, f, g);
    var a, b := LinearTerms(n, Weights(w, k), x, p), DotTerms(w, vs, v, n, k);
    forall i | 0 <= i < count ensures a(i) == b(i) {
      SumExt(n, Pointwise(Row(x, i), p), Pointwise(Slots(vs(i), k), p));
    }
    SumExt(count, a, b);
  }

  const NO_CONSTRAINT := Equality(0, 0, [], [], ZERO)

  function ConstraintAt(cs: seq<Equality>, i: int): Equality {
    if 0 <= i < |cs| then cs[i] else NO_CONSTRAINT
  }

  function Alphas(alpha: seq<Poly>): int -> Poly {
    i => PolyAt(alpha, i)
  }

  function PartsA(cs: seq<Equality>): int -> seq<Poly> {
    i => ConstraintAt(cs, i).a
  }

  function PartsPhi(cs: seq<Equality>): int -> seq<Poly> {
    i => ConstraintAt(cs, i).phi
  }

  function PartsB(cs: seq<Equality>): int -> Poly {
    i => ConstraintAt(cs, i).b
  }

  /** One constraint: the combination of all of them with the polynomials alpha. */
  function Aggregate(cs: seq<Equality>, alpha: seq<Poly>, r: nat, n: nat): Equality {
    Equality(r, n,
             Combination(|cs|, Alphas(alpha), PartsA(cs), r * r),
             Combination(|cs|, Alphas(alpha), PartsPhi(cs), r * n),
             PolyDot(|cs|, Alphas(alpha), PartsB(cs)))
  }

  function EvalTerms(cs: seq<Equality>, alpha: seq<Poly>, s: seq<Poly>, k: int): int -> int {
    i => Slot(alpha, i, k) * EvalAt(ConstraintAt(cs, i), s, k)
  }

  /** Aggregation is linear in evaluation, whatever the witness. */
  lemma AggregateEval(cs: seq<Equality>, alpha: seq<Poly>, r: nat, n: nat, s: seq<Poly>, k: nat)
    requires k < D
    requires forall i :: 0 <= i < |cs| ==> cs[i].r == r && cs[i].n == n
    ensures M(EvalAt(Aggregate(cs, alpha, r, n), s, k)) == M(Sum(|cs|, EvalTerms(cs, alpha, s, k)))
  {
    hide Sum, Dot, Combination, GramMatrix, M;
    var w, va, vp, vb := Alphas(alpha), PartsA(cs), PartsPhi(cs), PartsB(cs);
    var g := GramMatrix(s, r, n);
    DotLinear(|cs|, w, va, g, r * r, k);
    DotLinear(|cs|, w, vp, s, r * n, k);
    var ta, tp, tb := DotTerms(w, va, g, r * r, k), DotTerms(w, vp, s, r * n, k), PolyTerms(w, vb, k);
    var c := Aggregate(cs, alpha, r, n);
    PolyDotAt(|cs|, w, vb, k);
    AddThree(Dot(c.a, g, r * r, k), Sum(|cs|, ta), Dot(c.phi, s, r * n, k), Sum(|cs|, tp), At(c.b, k), Sum(|cs|, tb));
    forall i | 0 <= i < |cs| ensures ta(i) + tp(i) + tb(i) == EvalTerms(cs, alpha, s, k)(i) {
      EvalTerm(cs, alpha, r, n, s, k, i);
    }
    SumThree(|cs|, ta, tp, tb, EvalTerms(cs, alpha, s, k));
  }

  lemma AddThree(a: int, a': int, b: int, b': int, c: int, c': int)
    requires M(a) == M(a') && M(b) == M(b') && M(c) == M(c')
    ensures M(a + b + c) == M(a' + b' + c')
  {
    hide M;
    CongAdd(a, a', b, b');
    CongAdd(a + b, a' + b', c, c');
  }

  lemma PolyDotAt(count: nat, u: int -> Poly, v: int -> Poly, k: nat)
    requires k < D
    ensures M(At(PolyDot(count, u, v), k)) == M(Sum(count, PolyTerms(u, v, k)))
  {
    hide Sum;
  }

  lemma SumThree(n: nat, f: int -> int, g: int -> int, h: int -> int, t: int -> int)
    requires forall i :: 0 <= i < n ==> f(i) + g(i) + h(i) == t(i)
    ensures Sum(n, f) + Sum(n, g) + Sum(n, h) == Sum(n, t)
  {
    hide Sum;
    var fg := i => f(i) + g(i);
    SumAdd(n, f, g);
    SumAdd(n, fg, h);
    SumExt(n, i => fg(i) + h(i), t);
  }

  /** One term of the aggregate's evaluation. */
  lemma EvalTerm(cs: seq<Equality>, alpha: seq<Poly>, r: nat, n: nat, s: seq<Poly>, k: int, i: nat)
    requires i < |cs| && cs[i].r == r && cs[i].n == n
    ensures Slot(alpha, i, k) * Dot(ConstraintAt(cs, i).a, GramMatrix(s, r, n), r * r, k)
          + Slot(alpha, i, k) * Dot(ConstraintAt(cs, i).phi, s, r * n, k)
          + Slot(alpha, i, k) * At(ConstraintAt(cs, i).b, k)
         == EvalTerms(cs, alpha, s, k)(i)
  {
    hide Dot, GramMatrix, Slot, At;
    var x, y := ConstraintAt(cs, i), Slot(alpha, i, k);
    Distribute(y, BodyAt(x.a, x.phi, r, n, s, k), Dot(x.a, GramMatrix(s, r, n), r * r, k), Dot(x.phi, s, r * n, k));
    Distribute(y, EvalAt(x, s, k), BodyAt(x.a, x.phi, r, n, s, k), At(x.b, k));
  }

  /** A witness of every constraint is a witness of the aggregate. */
  lemma AggregateSatisfied(cs: seq<Equality>, alpha: seq<Poly>, r: nat, n: nat, s: seq<Poly>)
    requires forall i :: 0 <= i < |cs| ==> cs[i].r == r && cs[i].n == n && Satisfies(cs[i], s)
    ensures Satisfies(Aggregate(cs, alpha, r, n), s)
  {
    hide Sum, EvalAt, Aggregate;
    forall k | 0 <= k < D ensures M(EvalAt(Aggregate(cs, alpha, r, n), s, k)) == 0 {
      AggregateEval(cs, alpha, r, n, s, k);
      var t := EvalTerms(cs, alpha, s, k);
      forall i | 0 <= i < |cs| ensures M(t(i)) == M((i => 0)(i)) {
        CongScale(EvalAt(cs[i], s, k), 0, Slot(alpha, i, k));
      }
      SumCong(|cs|, t, i => 0);
      SumZero(|cs|, i => 0);
    }
  }
}
