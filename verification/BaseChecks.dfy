/** Parameters of one round, and the algebraic checks on a base proof. */
module Parameters {
  import opened Residues
  import opened Products
  import opened Polynomials
  import opened Packing
  import opened DigitVectors

  type Byte = x: int | 0 <= x < 256 witness 0
  type Bytes = seq<Byte>

  datatype Param = Param(
    r: nat, n: nat, seed: Bytes, kappa: nat, kappa1: nat, kappa2: nat,
    matA: seq<Poly>, matB: seq<Poly>, matC: seq<Poly>, matD: seq<Poly>,
    base1: nat, base2: nat, base3: nat, beta: real, jlOut: nat, rounds: nat)
  {
    predicate Bases() {
      base1 >= 2 && base2 >= 2 && base3 >= 2
    }

    function TLen(): nat
      requires Bases()
    {
      Digits(base1) * (r * kappa)
    }

    function GLen(): nat
      requires Bases()
    {
      OffTotal(r);
      Digits(base2) * Off(r, r)
    }

    function HLen(): nat
      requires Bases()
    {
      OffTotal(r);
      Digits(base3) * Off(r, r)
    }

    /** The sizes that the constructor gives the commitment matrices. */
    predicate Valid() {
      && Bases() && r >= 1 && n >= 1 && kappa >= 1 && kappa1 >= 1 && kappa2 >= 1 && rounds >= 1
      && |matA| == n * kappa && |matB| == TLen() * kappa1
      && |matC| == GLen() * kappa1 && |matD| == HLen() * kappa2
    }
  }
}

module BaseChecks {
  import opened Residues
  import opened Products
  import opened Sums
  import opened Arrays
  import opened Transforms
  import opened Polynomials
  import opened Vectors
  import opened Packing
  import opened Constraints
  import opened DigitVectors
  import opened Parameters

  datatype Proof = Proof(zHat: seq<Poly>, t: seq<Poly>, g: seq<Poly>, h: seq<Poly>)

  predicate ProofShape(p: Param, pf: Proof)
    requires p.Bases()
  {
    |pf.zHat| == p.n && |pf.t| == p.TLen() && |pf.g| == p.GLen() && |pf.h| == p.HLen()
  }

  /** S@A for a single row. */
  function Commit(mat: seq<Poly>, outLen: nat, data: seq<Poly>): (u: seq<Poly>)
    ensures |u| == outLen
  {
    Matmul(data, 1, |data|, mat, outLen)
  }

  function OpeningU1(p: Param, t: seq<Poly>, g: seq<Poly>): seq<Poly> {
    VecAdd(Commit(p.matB, p.kappa1, NttVec(t)), Commit(p.matC, p.kappa1, NttVec(g)))
  }

  function OpeningU2(p: Param, h: seq<Poly>): seq<Poly> {
    Commit(p.matD, p.kappa2, NttVec(h))
  }

  function THat(p: Param, t: seq<Poly>): (v: seq<Poly>)
    requires p.Bases()
    ensures |v| == p.r * p.kappa
  {
    NttVec(RecomposeVec(t, p.base1, Digits(p.base1), p.r * p.kappa))
  }

  /** Values of the symmetric matrix whose packed triangle is recomposed from digits. */
  function SymmHat(d: seq<Poly>, base: nat, r: nat): (v: seq<Poly>)
    requires base >= 2
    ensures |v| == r * r
  {
    OffTotal(r);
    NttVec(SymmMatrix(RecomposeVec(d, base, Digits(base), Off(r, r)), r))
  }

  function Trace(m: seq<Poly>, r: nat): Poly {
    Tabulate(k => Sum(r, i => Slot(m, i * r + i, k)))
  }

  /** c^t * m * c */
  function Quadratic(c: seq<Poly>, m: seq<Poly>, r: nat): (v: seq<Poly>)
    ensures |v| == 1
  {
    Matmul(c, 1, r, Matmul(m, r, r, c, 1), 1)
  }

  predicate CheckU1(p: Param, u1: seq<Poly>, pf: Proof) {
    OpeningU1(p, pf.t, pf.g) == u1
  }

  predicate CheckU2(p: Param, u2: seq<Poly>, pf: Proof) {
    OpeningU2(p, pf.h) == u2
  }

  /** zA = sum_i c_i t_i */
  predicate CheckA(p: Param, c: seq<Poly>, pf: Proof)
    requires p.Bases()
  {
    Commit(p.matA, p.kappa, pf.zHat) == Matmul(c, 1, p.r, THat(p, pf.t), p.kappa)
  }

  /** <z,z> = c^t G c */
  predicate CheckZ(p: Param, c: seq<Poly>, pf: Proof)
    requires p.Bases()
  {
    Matmul(pf.zHat, 1, p.n, pf.zHat, 1) == Quadratic(c, SymmHat(pf.g, p.base2, p.r), p.r)
  }

  /** c^t Phi z = c^t H c */
  predicate CheckPhi(p: Param, fc: Equality, c: seq<Poly>, pf: Proof)
    requires p.Bases()
  {
    Matmul(c, 1, p.r, Matmul(fc.phi, p.r, p.n, pf.zHat, 1), 1) == Quadratic(c, SymmHat(pf.h, p.base3, p.r), p.r)
  }

  /** <a,G> + tr H + b = 0 */
  predicate CheckTrace(p: Param, fc: Equality, pf: Proof)
    requires p.Bases()
  {
    var aG := Matmul(fc.a, 1, p.r * p.r, SymmHat(pf.g, p.base2, p.r), 1);
    VecAdd(VecAdd(aG, [Trace(SymmHat(pf.h, p.base3, p.r), p.r)]), [fc.b]) == [ZERO]
  }

  /** Checks 3 to 7 on a base proof. */
  predicate Algebraic(p: Param, fc: Equality, u1: seq<Poly>, u2: seq<Poly>, c: seq<Poly>, pf: Proof)
    requires p.Bases()
  {
    && CheckU1(p, u1, pf) && CheckU2(p, u2, pf) && CheckA(p, c, pf)
    && CheckZ(p, c, pf) && CheckPhi(p, fc, c, pf) && CheckTrace(p, fc, pf)
  }

  // ---- What each check says coordinate by coordinate. ----

  /** Column j of a matrix with cb columns. */
  function Column(b: seq<Poly>, cb: nat, j: int, len: nat): (v: seq<Poly>)
    ensures |v| == len
  {
    Vec(len, l => PolyAt(b, l * cb + j))
  }

  lemma RowMatmul(a: seq<Poly>, ca: nat, b: seq<Poly>, cb: nat, j: nat, k: nat)
    requires j < cb && k < D
    ensures Slot(Matmul(a, 1, ca, b, cb), j, k) == M(Dot(a, Column(b, cb, j, ca), ca, k))
  {
    hide Sum, Matmul;
    MatmulSlot(a, 1, ca, b, cb, 0, j, k);
    var f, g := l => Slot(a, 0 * ca + l, k) * Slot(b, l * cb + j, k),
                Pointwise(Slots(a, k), Slots(Column(b, cb, j, ca), k));
    forall l | 0 <= l < ca ensures f(l) == g(l) {
      assert 0 * ca == 0;
    }
    SumExt(ca, f, g);
  }

  lemma DotCommutes(u: seq<Poly>, v: seq<Poly>, n: nat, k: int)
    ensures Dot(u, v, n, k) == Dot(v, u, n, k)
  {
    hide Sum, Slot;
    SumExt(n, Pointwise(Slots(u, k), Slots(v, k)), Pointwise(Slots(v, k), Slots(u, k)));
  }

  /** Two vectors agree exactly when all their coordinates do. */
  lemma SlotwiseEqual(u: seq<Poly>, v: seq<Poly>)
    requires |u| == |v|
    ensures u == v <==> forall i, k :: 0 <= i < |u| && 0 <= k < D ==> Slot(u, i, k) == Slot(v, i, k)
  {
    if forall i, k :: 0 <= i < |u| && 0 <= k < D ==> Slot(u, i, k) == Slot(v, i, k) { VecExt(u, v); }
  }

  /** The residues gap(0..n, 0..D) are all zero. */
  ghost predicate Vanishes(gap: (int, int) -> int, n: nat) {
    forall i, k :: 0 <= i < n && 0 <= k < D ==> M(gap(i, k)) == 0
  }

  /** Vectors are equal exactly when the coordinate gaps between them vanish. */
  lemma GapIff(u: seq<Poly>, v: seq<Poly>, gap: (int, int) -> int)
    requires |u| == |v|
    requires forall i, k :: 0 <= i < |u| && 0 <= k < D ==> M(gap(i, k)) == M(Slot(u, i, k) - Slot(v, i, k))
    ensures u == v <==> Vanishes(gap, |u|)
  {
    hide Slot;
    SlotwiseEqual(u, v);
    forall i, k | 0 <= i < |u| && 0 <= k < D
      ensures M(gap(i, k)) == 0 <==> Slot(u, i, k) == Slot(v, i, k)
    {}
  }

  function GapU1(p: Param, u1: seq<Poly>, t: seq<Poly>, g: seq<Poly>): (int, int) -> int {
    (i, k) => Dot(Column(p.matB, p.kappa1, i, |t|), NttVec(t), |t|, k)
            + Dot(Column(p.matC, p.kappa1, i, |g|), NttVec(g), |g|, k) - Slot(u1, i, k)
  }

  function GapU2(p: Param, u2: seq<Poly>, h: seq<Poly>): (int, int) -> int {
    (i, k) => Dot(Column(p.matD, p.kappa2, i, |h|), NttVec(h), |h|, k) - Slot(u2, i, k)
  }

  function GapA(p: Param, c: seq<Poly>, zHat: seq<Poly>, tHat: seq<Poly>): (int, int) -> int {
    (i, k) => Dot(Column(p.matA, p.kappa, i, p.n), zHat, p.n, k) - Dot(c, Column(tHat, p.kappa, i, p.r), p.r, k)
  }

  /** c_i c_j at coordinate k. */
  function Outer(c: seq<Poly>, k: int): (int, int) -> int {
    (i, j) => Slot(c, i, k) * Slot(c, j, k)
  }

  function EntryAt(m: seq<Poly>, r: nat, k: int): (int, int) -> int {
    (i, j) => Slot(m, i * r + j, k)
  }

  /** sum_ij c_i c_j m_ij at coordinate k. */
  function QuadraticAt(c: seq<Poly>, m: seq<Poly>, r: nat, k: int): int {
    Sum(r, FullRow(r, ProductOf(Outer(c, k), EntryAt(m, r, k))))
  }

  function DiagonalAt(m: seq<Poly>, r: nat, k: int): int -> int {
    i => Slot(m, i * r + i, k)
  }

  function GapZ(p: Param, c: seq<Poly>, zHat: seq<Poly>, gHat: seq<Poly>): (int, int) -> int {
    (i, k) => Dot(zHat, zHat, p.n, k) - QuadraticAt(c, gHat, p.r, k)
  }

  function GapPhi(p: Param, phi: seq<Poly>, c: seq<Poly>, zHat: seq<Poly>, hHat: seq<Poly>): (int, int) -> int {
    (i, k) => Dot(Matmul(c, 1, p.r, phi, p.n), zHat, p.n, k) - QuadraticAt(c, hHat, p.r, k)
  }

  function GapTrace(p: Param, fc: Equality, gHat: seq<Poly>, hHat: seq<Poly>): (int, int) -> int {
    (i, k) => Dot(fc.a, gHat, p.r * p.r, k) + Sum(p.r, DiagonalAt(hHat, p.r, k)) + At(fc.b, k)
  }

  lemma CheckU1Gap(p: Param, u1: seq<Poly>, pf: Proof)
    requires |u1| == p.kappa1
    ensures CheckU1(p, u1, pf) <==> Vanishes(GapU1(p, u1, pf.t, pf.g), p.kappa1)
  {
    hide Dot, Slot, Commit, Vanishes;
    var a, b := Commit(p.matB, p.kappa1, NttVec(pf.t)), Commit(p.matC, p.kappa1, NttVec(pf.g));
    var u, gap := OpeningU1(p, pf.t, pf.g), GapU1(p, u1, pf.t, pf.g);
    forall i, k | 0 <= i < |u1| && 0 <= k < D ensures M(gap(i, k)) == M(Slot(u, i, k) - Slot(u1, i, k)) {
      CommitSlot(p.matB, p.kappa1, NttVec(pf.t), i, k);
      CommitSlot(p.matC, p.kappa1, NttVec(pf.g), i, k);
      VecAddSlot(a, b, i, k);
    }
    GapIff(u, u1, gap);
  }

  lemma CommitSlot(mat: seq<Poly>, outLen: nat, data: seq<Poly>, i: nat, k: nat)
    requires i < outLen && k < D
    ensures Slot(Commit(mat, outLen, data), i, k) == M(Dot(Column(mat, outLen, i, |data|), data, |data|, k))
  {
    hide Dot, Slot, Matmul;
    RowMatmul(data, |data|, mat, outLen, i, k);
    DotCommutes(data, Column(mat, outLen, i, |data|), |data|, k);
  }

  lemma CheckU2Gap(p: Param, u2: seq<Poly>, pf: Proof)
    requires |u2| == p.kappa2
    ensures CheckU2(p, u2, pf) <==> Vanishes(GapU2(p, u2, pf.h), p.kappa2)
  {
    hide Dot, Slot, Commit, Vanishes;
    var u, gap := OpeningU2(p, pf.h), GapU2(p, u2, pf.h);
    forall i, k | 0 <= i < |u2| && 0 <= k < D ensures M(gap(i, k)) == M(Slot(u, i, k) - Slot(u2, i, k)) {
      CommitSlot(p.matD, p.kappa2, NttVec(pf.h), i, k);
    }
    GapIff(u, u2, gap);
  }

  lemma CheckAGap(p: Param, c: seq<Poly>, pf: Proof)
    requires p.Bases() && |pf.zHat| == p.n
    ensures CheckA(p, c, pf) <==> Vanishes(GapA(p, c, pf.zHat, THat(p, pf.t)), p.kappa)
  {
    hide Dot, Slot, Commit, Vanishes, Matmul, THat;
    var tHat := THat(p, pf.t);
    var u, v, gap := Commit(p.matA, p.kappa, pf.zHat), Matmul(c, 1, p.r, tHat, p.kappa), GapA(p, c, pf.zHat, tHat);
    forall i, k | 0 <= i < p.kappa && 0 <= k < D ensures M(gap(i, k)) == M(Slot(u, i, k) - Slot(v, i, k)) {
      CommitSlot(p.matA, p.kappa, pf.zHat, i, k);
      RowMatmul(c, p.r, tHat, p.kappa, i, k);
    }
    GapIff(u, v, gap);
  }

  /** c^t * (m * v) at coordinate k is the double sum. */
  lemma NestedMatmul(c: seq<Poly>, r: nat, m: seq<Poly>, n: nat, v: seq<Poly>, k: nat)
    requires k < D
    ensures Slot(Matmul(c, 1, r, Matmul(m, r, n, v, 1), 1), 0, k)
         == M(Sum(r, i => Slot(c, i, k) * Sum(n, l => Slot(m, i * n + l, k) * Slot(v, l, k))))
  {
    hide Sum, Slot, Matmul, Grid;
    var mv := Matmul(m, r, n, v, 1);
    MatmulSlot(c, 1, r, mv, 1, 0, 0, k);
    var f, g := i => Slot(c, 0 * r + i, k) * Slot(mv, i * 1 + 0, k),
                i => Slot(c, i, k) * Sum(n, l => Slot(m, i * n + l, k) * Slot(v, l, k));
    forall i | 0 <= i < r ensures M(f(i)) == M(g(i)) {
      MatmulSlot(m, r, n, v, 1, i, 0, k);
      var a, b := l => Slot(m, i * n + l, k) * Slot(v, l * 1 + 0, k), l => Slot(m, i * n + l, k) * Slot(v, l, k);
      SumExt(n, a, b);
      CongScale(Slot(mv, i * 1 + 0, k), Sum(n, b), Slot(c, i, k));
      assert 0 * r + i == i;
    }
    SumCong(r, f, g);
  }

  lemma QuadraticSlot(c: seq<Poly>, m: seq<Poly>, r: nat, k: nat)
    requires k < D
    ensures Slot(Quadratic(c, m, r), 0, k) == M(QuadraticAt(c, m, r, k))
  {
    hide Sum, Slot, Matmul;
    NestedMatmul(c, r, m, r, c, k);
    var f, g := i => Slot(c, i, k) * Sum(r, l => Slot(m, i * r + l, k) * Slot(c, l, k)),
                FullRow(r, ProductOf(Outer(c, k), EntryAt(m, r, k)));
    forall i | 0 <= i < r ensures f(i) == g(i) {
      var t, x := l => Slot(m, i * r + l, k) * Slot(c, l, k), Slot(c, i, k);
      SumScale(r, x, t);
      var a, b := l => x * t(l), RowOf(ProductOf(Outer(c, k), EntryAt(m, r, k)), i);
      forall l | 0 <= l < r ensures a(l) == b(l) {
        ProductTerm(x, Slot(m, i * r + l, k), Slot(c, l, k));
      }
      SumExt(r, a, b);
    }
    SumExt(r, f, g);
  }

  lemma ProductTerm(x: int, y: int, z: int)
    ensures x * (y * z) == (x * z) * y
  {}

  lemma CheckZGap(p: Param, c: seq<Poly>, pf: Proof)
    requires p.Bases() && |pf.zHat| == p.n
    ensures CheckZ(p, c, pf) <==> Vanishes(GapZ(p, c, pf.zHat, SymmHat(pf.g, p.base2, p.r)), 1)
  {
    hide Dot, Slot, Quadratic, Vanishes, Matmul, SymmHat, QuadraticAt;
    var gHat := SymmHat(pf.g, p.base2, p.r);
    var u, v, gap := Matmul(pf.zHat, 1, p.n, pf.zHat, 1), Quadratic(c, gHat, p.r), GapZ(p, c, pf.zHat, gHat);
    forall i, k | 0 <= i < 1 && 0 <= k < D ensures M(gap(i, k)) == M(Slot(u, i, k) - Slot(v, i, k)) {
      SelfProduct(pf.zHat, k);
      QuadraticSlot(c, gHat, p.r, k);
    }
    GapIff(u, v, gap);
  }

  lemma ColumnOfOne(v: seq<Poly>)
    ensures Column(v, 1, 0, |v|) == v
  {
    assert forall l :: 0 <= l < |v| ==> Column(v, 1, 0, |v|)[l] == v[l];
  }

  lemma SelfProduct(z: seq<Poly>, k: nat)
    requires k < D
    ensures Slot(Matmul(z, 1, |z|, z, 1), 0, k) == M(Dot(z, z, |z|, k))
  {
    hide Dot, Slot, Matmul;
    RowMatmul(z, |z|, z, 1, 0, k);
    ColumnOfOne(z);
  }

  /** (c^t Phi) z = c^t (Phi z) */
  lemma PhiAssociates(c: seq<Poly>, r: nat, phi: seq<Poly>, n: nat, z: seq<Poly>, k: nat)
    requires k < D
    ensures Slot(Matmul(c, 1, r, Matmul(phi, r, n, z, 1), 1), 0, k) == M(Dot(Matmul(c, 1, r, phi, n), z, n, k))
  {
    hide Sum, Slot, Matmul, Combine;
    NestedMatmul(c, r, phi, n, z, k);
    var w, x, p := Slots(c, k), EntryAt(phi, n, k), Slots(z, k);
    LinearSum(n, r, w, x, p);
    var f, g := i => Slot(c, i, k) * Sum(n, l => Slot(phi, i * n + l, k) * Slot(z, l, k)), LinearTerms(n, w, x, p);
    forall i | 0 <= i < r ensures f(i) == g(i) {
      SumExt(n, l => Slot(phi, i * n + l, k) * Slot(z, l, k), Pointwise(Row(x, i), p));
    }
    SumExt(r, f, g);
    var cPhi := Matmul(c, 1, r, phi, n);
    var a, b := Pointwise(Slots(cPhi, k), p), Pointwise(Combine(r, w, x), p);
    forall l | 0 <= l < n ensures M(a(l)) == M(b(l)) {
      CombineMatmul(c, r, phi, n, l, k);
      CongMul(Slot(cPhi, l, k), Combine(r, w, x)(l), p(l), p(l));
    }
    SumCong(n, a, b);
  }

  lemma CombineMatmul(c: seq<Poly>, r: nat, phi: seq<Poly>, n: nat, l: nat, k: nat)
    requires l < n && k < D
    ensures Slot(Matmul(c, 1, r, phi, n), l, k) == M(Combine(r, Slots(c, k), EntryAt(phi, n, k))(l))
  {
    hide Sum, Slot, Matmul;
    MatmulSlot(c, 1, r, phi, n, 0, l, k);
    var w, x := Slots(c, k), EntryAt(phi, n, k);
    SumExt(r, i => Slot(c, 0 * r + i, k) * Slot(phi, i * n + l, k), i => w(i) * x(i, l));
  }

  lemma CheckPhiGap(p: Param, fc: Equality, c: seq<Poly>, pf: Proof)
    requires p.Bases() && |pf.zHat| == p.n
    ensures CheckPhi(p, fc, c, pf) <==> Vanishes(GapPhi(p, fc.phi, c, pf.zHat, SymmHat(pf.h, p.base3, p.r)), 1)
  {
    hide Dot, Slot, Quadratic, Vanishes, Matmul, SymmHat, QuadraticAt;
    var hHat := SymmHat(pf.h, p.base3, p.r);
    var u, v, gap := Matmul(c, 1, p.r, Matmul(fc.phi, p.r, p.n, pf.zHat, 1), 1), Quadratic(c, hHat, p.r),
                     GapPhi(p, fc.phi, c, pf.zHat, hHat);
    forall i, k | 0 <= i < 1 && 0 <= k < D ensures M(gap(i, k)) == M(Slot(u, i, k) - Slot(v, i, k)) {
      PhiAssociates(c, p.r, fc.phi, p.n, pf.zHat, k);
      QuadraticSlot(c, hHat, p.r, k);
    }
    GapIff(u, v, gap);
  }

  lemma CheckTraceGap(p: Param, fc: Equality, pf: Proof)
    requires p.Bases()
    ensures CheckTrace(p, fc, pf)
       <==> Vanishes(GapTrace(p, fc, SymmHat(pf.g, p.base2, p.r), SymmHat(pf.h, p.base3, p.r)), 1)
  {
    hide Dot, Slot, Vanishes, Matmul, SymmHat, Sum;
    var gHat, hHat := SymmHat(pf.g, p.base2, p.r), SymmHat(pf.h, p.base3, p.r);
    var aG, tr := Matmul(fc.a, 1, p.r * p.r, gHat, 1), [Trace(hHat, p.r)];
    var u, gap := VecAdd(VecAdd(aG, tr), [fc.b]), GapTrace(p, fc, gHat, hHat);
    forall i, k | 0 <= i < 1 && 0 <= k < D ensures M(gap(i, k)) == M(Slot(u, i, k) - Slot([ZERO], i, k)) {
      TraceSlots(fc, aG, gHat, hHat, p.r, k);
    }
    GapIff(u, [ZERO], gap);
  }

  lemma TraceSlots(fc: Equality, aG: seq<Poly>, gHat: seq<Poly>, hHat: seq<Poly>, r: nat, k: nat)
    requires k < D && |gHat| == r * r && aG == Matmul(fc.a, 1, r * r, gHat, 1)
    ensures Slot(VecAdd(VecAdd(aG, [Trace(hHat, r)]), [fc.b]), 0, k)
         == M(Dot(fc.a, gHat, r * r, k) + Sum(r, DiagonalAt(hHat, r, k)) + At(fc.b, k))
    ensures Slot([ZERO], 0, k) == 0
  {
    hide Dot, Sum, Matmul, M, VecAdd, Trace, Slot;
    RowMatmul(fc.a, r * r, gHat, 1, 0, k);
    ColumnOfOne(gHat);
    TraceSlot(hHat, r, k);
    var tr := [Trace(hHat, r)];
    VecAddSlot(aG, tr, 0, k);
    VecAddSlot(VecAdd(aG, tr), [fc.b], 0, k);
    SingleSlot(Trace(hHat, r), k);
    SingleSlot(fc.b, k);
    SingleSlot(ZERO, k);
    ZeroEntry(k);
    MTwice(Dot(fc.a, gHat, r * r, k));
    MTwice(Sum(r, DiagonalAt(hHat, r, k)));
    MTwice(Slot(aG, 0, k) + Slot(tr, 0, k));
    CongAdd(Slot(aG, 0, k), Dot(fc.a, gHat, r * r, k), Slot(tr, 0, k), Sum(r, DiagonalAt(hHat, r, k)));
    CongAdd(Slot(VecAdd(aG, tr), 0, k), Dot(fc.a, gHat, r * r, k) + Sum(r, DiagonalAt(hHat, r, k)), At(fc.b, k),
            At(fc.b, k));
  }

  lemma SingleSlot(p: Poly, k: int)
    ensures Slot([p], 0, k) == At(p, k)
  {}

  lemma ZeroEntry(k: nat)
    requires k < D
    ensures At(ZERO, k) == 0
  {}

  lemma TraceSlot(m: seq<Poly>, r: nat, k: nat)
    requires k < D
    ensures At(Trace(m, r), k) == M(Sum(r, DiagonalAt(m, r, k)))
  {
    hide Sum;
    SumExt(r, i => Slot(m, i * r + i, k), DiagonalAt(m, r, k));
  }
}
