/** Polynomials of degree below 64 over Z_q, as coefficients (Rq) or as transform values (Tq). */
module Polynomials {
  import opened Residues
  import opened Products
  import opened Arrays
  import opened Sums
  import opened Powers
  import opened PowersOfTwo
  import opened BitReversal
  import opened Roots
  import opened RingRoots
  import opened Transforms
  import opened NegacyclicProducts

  const LOG_D: nat := 6
  const D: nat := 64

  /** The root of order 2D, and its inverse. */
  const PSI: int := 0x0519_c7d0_d2ff_7a61
  const PSI_INV: int := 0x184b_02d4_1ce1_5ce5

  type Poly = p: seq<Zq> | |p| == D witness seq(D, _ => 0)

  /** The k-th entry, zero outside the range, so that sums may run over any index. */
  function At(p: seq<Zq>, k: int): Zq {
    if 0 <= k < |p| then p[k] else 0
  }

  function Tabulate(f: int -> int): (p: Poly)
    ensures forall k :: 0 <= k < D ==> At(p, k) == M(f(k))
  {
    Vec<Zq>(D, k => M(f(k)))
  }

  const ZERO: Poly := Tabulate(k => 0)

  lemma PolyExt(p: Poly, q: Poly)
    requires forall k :: 0 <= k < D ==> At(p, k) == At(q, k)
    ensures p == q
  {
    forall k | 0 <= k < D ensures p[k] == q[k] {
      assert At(p, k) == At(q, k);
    }
  }

  /** The entries as a function on all integers. */
  function Coeffs(a: Poly): int -> int {
    i => At(a, i)
  }

  /** The entries of y in bit-reversed order. */
  function Reordered(y: Poly): int -> int {
    k => At(y, Rev(k, LOG_D))
  }

  /** Coefficients to values; the values come in bit-reversed order. */
  function Ntt(a: Poly): Poly {
    Tabulate(k => Fwd(PSI, LOG_D, Coeffs(a), Rev(k, LOG_D)))
  }

  /** Values in bit-reversed order back to coefficients. */
  function Intt(y: Poly): Poly {
    Tabulate(i => Inv(PSI_INV, LOG_D, Reordered(y), i))
  }

  /** The product in Zq[X]/(X^64 + 1). */
  function RingMul(a: Poly, b: Poly): Poly {
    Tabulate(m => NegProd(Coeffs(a), Coeffs(b), D, m))
  }

  function PolyMul(a: Poly, b: Poly): Poly {
    Tabulate(k => At(a, k) * At(b, k))
  }

  lemma SizeIsD()
    ensures Pow2(LOG_D) == D
  {
    assert Pow2(3) == 8;
  }

  lemma PsiIsRoot()
    ensures PSI == Omega(LOG_D + 1) && IsRoot(PSI, LOG_D + 1) && M(PSI * PSI_INV) == 1
  {
    hide Squarings;
    RouToPsi();
    OmegaIsRoot(LOG_D + 1);
  }

  lemma RevRange(k: int)
    ensures 0 <= Rev(k, LOG_D) < D
    ensures 0 <= k < D ==> Rev(Rev(k, LOG_D), LOG_D) == k
  {
    hide Rev, Pow2;
    SizeIsD();
    if 0 <= k < D { RevInvolution(k, LOG_D); }
  }

  /** The value stored at a bit-reversed place is the value in natural order. */
  lemma NttReordered(a: Poly, k: int)
    requires 0 <= k < D
    ensures Reordered(Ntt(a))(k) == M(Fwd(PSI, LOG_D, Coeffs(a), k))
  {
    hide Rev, Pow2, Fwd;
    RevRange(k);
    var r := Rev(k, LOG_D);
    assert At(Ntt(a), r) == M(Fwd(PSI, LOG_D, Coeffs(a), Rev(r, LOG_D)));
  }

  /** Value form determines the coefficients. */
  lemma InttNtt(a: Poly)
    ensures Intt(Ntt(a)) == a
  {
    hide Fwd, Inv, Pow2, Rev, Ntt, Coeffs, Reordered, IsRoot, Tabulate;
    SizeIsD();
    PsiIsRoot();
    var y, z := Reordered(Ntt(a)), k => Fwd(PSI, LOG_D, Coeffs(a), k);
    forall k | 0 <= k < D ensures M(y(k)) == M(z(k)) {
      NttReordered(a, k);
    }
    forall i | 0 <= i < D ensures At(Intt(Ntt(a)), i) == At(a, i) {
      InvCong(PSI_INV, LOG_D, y, z, i);
      InvFwd(PSI, PSI_INV, LOG_D, Coeffs(a), i);
      CoeffsAt(a, i);
    }
    PolyExt(Intt(Ntt(a)), a);
  }

  lemma CoeffsAt(a: Poly, i: int)
    ensures Coeffs(a)(i) == At(a, i)
  {}

  /** Every vector of values is the transform of some polynomial. */
  lemma NttIntt(y: Poly)
    ensures Ntt(Intt(y)) == y
  {
    hide Fwd, Inv, Pow2, Rev, Intt, IsRoot, Tabulate;
    SizeIsD();
    PsiIsRoot();
    var x, z := Coeffs(Intt(y)), i => Inv(PSI_INV, LOG_D, Reordered(y), i);
    forall i | 0 <= i < D ensures M(x(i)) == M(z(i)) {
      InttAt(y, i);
    }
    forall k | 0 <= k < D ensures At(Ntt(Intt(y)), k) == At(y, k) {
      RevRange(k);
      FwdCong(PSI, LOG_D, x, z, Rev(k, LOG_D));
      FwdInv(PSI, PSI_INV, LOG_D, Reordered(y), Rev(k, LOG_D));
    }
    PolyExt(Ntt(Intt(y)), y);
  }

  lemma InttAt(y: Poly, i: int)
    requires 0 <= i < D
    ensures At(Intt(y), i) == M(Inv(PSI_INV, LOG_D, Reordered(y), i))
  {}

  lemma NttAt(a: Poly, k: int)
    requires 0 <= k < D
    ensures At(Ntt(a), k) == M(Fwd(PSI, LOG_D, Coeffs(a), Rev(k, LOG_D)))
  {
    hide Fwd, Rev;
  }

  /** The transform of a linear combination is the linear combination of the transforms. */
  lemma NttSum(n: nat, w: int -> int, a: int -> Poly, c: Poly)
    requires forall i :: 0 <= i < D ==> At(c, i) == M(Sum(n, j => w(j) * At(a(j), i)))
    ensures forall k :: 0 <= k < D ==> At(Ntt(c), k) == M(Sum(n, j => w(j) * At(Ntt(a(j)), k)))
  {
    forall k | 0 <= k < D ensures At(Ntt(c), k) == M(Sum(n, j => w(j) * At(Ntt(a(j)), k))) {
      NttSumAt(n, w, a, c, k);
    }
  }

  function Rows(a: int -> Poly): (int, int) -> int {
    (j, i) => At(a(j), i)
  }

  lemma CombineRows(n: nat, w: int -> int, a: int -> Poly, i: int)
    ensures Combine(n, w, Rows(a))(i) == Sum(n, j => w(j) * At(a(j), i))
  {
    hide Sum;
    var x := Rows(a);
    SumExt(n, j => w(j) * x(j, i), j => w(j) * At(a(j), i));
  }

  lemma NttSumAt(n: nat, w: int -> int, a: int -> Poly, c: Poly, k: int)
    requires forall i :: 0 <= i < D ==> At(c, i) == M(Sum(n, j => w(j) * At(a(j), i)))
    requires 0 <= k < D
    ensures At(Ntt(c), k) == M(Sum(n, j => w(j) * At(Ntt(a(j)), k)))
  {
    hide Sum, Fwd, Pow2, Rev, Ntt, Tabulate;
    SizeIsD();
    var r, x := Rev(k, LOG_D), Rows(a);
    var z := Combine(n, w, x);
    forall i | 0 <= i < D ensures M(Coeffs(c)(i)) == M(z(i)) {
      CombineRows(n, w, a, i);
    }
    FwdCong(PSI, LOG_D, Coeffs(c), z, r);
    FwdSum(PSI, LOG_D, n, w, x, r);
    var f, g := FwdTerms(PSI, LOG_D, w, x, r), j => w(j) * At(Ntt(a(j)), k);
    forall j | 0 <= j < n ensures M(f(j)) == M(g(j)) {
      FwdCong(PSI, LOG_D, Row(x, j), Coeffs(a(j)), r);
      NttAt(a(j), k);
      CongScale(Fwd(PSI, LOG_D, Row(x, j), r), At(Ntt(a(j)), k), w(j));
    }
    SumCong(n, f, g);
    NttAt(c, k);
  }

  /** Convolution theorem: multiply the values, transform back, and the ring product comes out. */
  lemma Convolution(a: Poly, b: Poly)
    ensures Intt(PolyMul(Ntt(a), Ntt(b))) == RingMul(a, b)
  {
    hide Intt, Ntt, RingMul, PolyMul;
    forall k | 0 <= k < D ensures At(Ntt(RingMul(a, b)), k) == At(PolyMul(Ntt(a), Ntt(b)), k) {
      ProductAt(a, b, k);
    }
    PolyExt(Ntt(RingMul(a, b)), PolyMul(Ntt(a), Ntt(b)));
    InttNtt(RingMul(a, b));
  }

  lemma ProductAt(a: Poly, b: Poly, k: int)
    requires 0 <= k < D
    ensures At(Ntt(RingMul(a, b)), k) == At(PolyMul(Ntt(a), Ntt(b)), k)
  {
    hide Ntt, Fwd, Rev, Pow2, IsRoot, NegProd;
    SizeIsD();
    PsiIsRoot();
    var r := Rev(k, LOG_D);
    var z := m => NegProd(Coeffs(a), Coeffs(b), Pow2(LOG_D), m);
    NttAt(RingMul(a, b), k);
    forall m | 0 <= m < D ensures M(Coeffs(RingMul(a, b))(m)) == M(z(m)) {}
    FwdCong(PSI, LOG_D, Coeffs(RingMul(a, b)), z, r);
    FwdProduct(PSI, LOG_D, Coeffs(a), Coeffs(b), r);
    NttAt(a, k);
    NttAt(b, k);
    CongMul(At(Ntt(a), k), Fwd(PSI, LOG_D, Coeffs(a), r), At(Ntt(b), k), Fwd(PSI, LOG_D, Coeffs(b), r));
  }
}
