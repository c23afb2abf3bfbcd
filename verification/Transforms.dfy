/** The negacyclic transform as a sum: its inverse, and what it does to products. */
module Transforms {
  import opened Residues
  import opened Products
  import opened Sums
  import opened Powers
  import opened PowersOfTwo
  import opened Roots

  /** The powers that evaluation at psi^(2k+1) multiplies the coefficients with. */
  function FwdKernel(psi: int, k: int): int -> int {
    i => Pow(psi, i * (2 * k + 1))
  }

  function InvKernel(v: int, i: int): int -> int {
    k => Pow(v * v, i * k)
  }

  /** The polynomial with coefficients x(0..N) evaluated at psi^(2k+1). */
  function Fwd(psi: int, l: nat, x: int -> int, k: int): int {
    Sum(Pow2(l), Pointwise(x, FwdKernel(psi, k)))
  }

  /** The i-th coefficient recovered from the values y(0..N), v being the inverse of psi. */
  function Inv(v: int, l: nat, y: int -> int, i: int): int {
    Pow(HALF, l) * (Pow(v, i) * Sum(Pow2(l), Pointwise(y, InvKernel(v, i))))
  }

  function Row(x: (int, int) -> int, j: int): int -> int {
    i => x(j, i)
  }

  /** The combination of the rows of x with the weights w. */
  function Combine(n: nat, w: int -> int, x: (int, int) -> int): int -> int {
    i => Sum(n, j => w(j) * x(j, i))
  }

  function LinearTerms(m: nat, w: int -> int, x: (int, int) -> int, p: int -> int): int -> int {
    j => w(j) * Sum(m, Pointwise(Row(x, j), p))
  }

  /** A sum against p is linear in what p is multiplied with. */
  lemma LinearSum(m: nat, n: nat, w: int -> int, x: (int, int) -> int, p: int -> int)
    ensures Sum(m, Pointwise(Combine(n, w, x), p)) == Sum(n, LinearTerms(m, w, x, p))
  {
    hide Sum;
    var f := (i, j) => w(j) * (x(j, i) * p(i));
    var l, r := Pointwise(Combine(n, w, x), p), i => Sum(n, j => f(i, j));
    forall i | 0 <= i < m ensures l(i) == r(i) {
      LinearTerm(n, w, j => x(j, i), p(i));
      SumExt(n, j => w(j) * x(j, i), j => w(j) * (j => x(j, i))(j));
      SumExt(n, j => w(j) * ((j => x(j, i))(j) * p(i)), j => f(i, j));
    }
    SumExt(m, l, r);
    SumSwap(m, n, f);
    var c, d := j => Sum(m, i => f(i, j)), LinearTerms(m, w, x, p);
    forall j | 0 <= j < n ensures c(j) == d(j) {
      var t := Pointwise(Row(x, j), p);
      SumScale(m, w(j), t);
      SumExt(m, i => f(i, j), i => w(j) * t(i));
    }
    SumExt(n, c, d);
  }

  function FwdTerms(psi: int, l: nat, w: int -> int, x: (int, int) -> int, k: int): int -> int {
    j => w(j) * Fwd(psi, l, Row(x, j), k)
  }

  /** The forward transform is linear. */
  lemma FwdSum(psi: int, l: nat, n: nat, w: int -> int, x: (int, int) -> int, k: int)
    ensures Fwd(psi, l, Combine(n, w, x), k) == Sum(n, FwdTerms(psi, l, w, x, k))
  {
    hide Sum, Pow, Combine, FwdKernel;
    var p := FwdKernel(psi, k);
    LinearSum(Pow2(l), n, w, x, p);
    var f, g := LinearTerms(Pow2(l), w, x, p), FwdTerms(psi, l, w, x, k);
    forall j | 0 <= j < n ensures f(j) == g(j) {
      assert Fwd(psi, l, Row(x, j), k) == Sum(Pow2(l), Pointwise(Row(x, j), p));
    }
    SumExt(n, f, g);
  }

  lemma LinearTerm(n: nat, w: int -> int, y: int -> int, p: int)
    ensures Sum(n, j => w(j) * y(j)) * p == Sum(n, j => w(j) * (y(j) * p))
  {
    hide *;
    SumScale(n, p, j => w(j) * y(j));
    forall j | 0 <= j < n ensures p * (w(j) * y(j)) == w(j) * (y(j) * p) {
      Rotate(p, w(j), y(j));
    }
    SumExt(n, j => p * (j => w(j) * y(j))(j), j => w(j) * (y(j) * p));
  }

  lemma FwdCong(psi: int, l: nat, x: int -> int, x': int -> int, k: int)
    requires forall i :: 0 <= i < Pow2(l) ==> M(x(i)) == M(x'(i))
    ensures M(Fwd(psi, l, x, k)) == M(Fwd(psi, l, x', k))
  {
    hide Sum;
    PointwiseCong(Pow2(l), x, x', FwdKernel(psi, k));
  }

  lemma PointwiseCong(n: nat, x: int -> int, x': int -> int, p: int -> int)
    requires forall i :: 0 <= i < n ==> M(x(i)) == M(x'(i))
    ensures M(Sum(n, Pointwise(x, p))) == M(Sum(n, Pointwise(x', p)))
  {
    hide Sum;
    forall i | 0 <= i < n ensures M(Pointwise(x, p)(i)) == M(Pointwise(x', p)(i)) {
      CongMul(x(i), x'(i), p(i), p(i));
    }
    SumCong(n, Pointwise(x, p), Pointwise(x', p));
  }

  lemma InvCong(v: int, l: nat, y: int -> int, y': int -> int, i: int)
    requires forall k :: 0 <= k < Pow2(l) ==> M(y(k)) == M(y'(k))
    ensures M(Inv(v, l, y, i)) == M(Inv(v, l, y', i))
  {
    hide Sum, Pow;
    PointwiseCong(Pow2(l), y, y', InvKernel(v, i));
    var a, b := Sum(Pow2(l), Pointwise(y, InvKernel(v, i))), Sum(Pow2(l), Pointwise(y', InvKernel(v, i)));
    CongScale(a, b, Pow(v, i));
    CongScale(Pow(v, i) * a, Pow(v, i) * b, Pow(HALF, l));
  }

  /** a*psi^(i*(2k+1)) splits into a twist psi^i and a power of the root psi^2. */
  lemma Twist(psi: int, i: int, k: int)
    requires i >= 0 && k >= 0
    ensures Pow(psi, i * (2 * k + 1)) == Pow(psi, i) * Pow(psi * psi, i * k)
  {
    NonNegative(i, k);
    assert i * (2 * k + 1) == i + 2 * (i * k);
    PowAdd(psi, i, 2 * (i * k));
    PowSquare(psi, i * k);
  }

  /** x(j) against the powers w^(jk) and u^(ik). */
  function PickTerms(w: int, u: int, x: int -> int, i: int): (int, int) -> int {
    (k, j) => x(j) * (Pow(w, j * k) * Pow(u, i * k))
  }

  lemma PickRow(w: int, u: int, n: nat, x: int -> int, i: int, k: int)
    ensures Sum(n, j => x(j) * Pow(w, j * k)) * Pow(u, i * k) == Sum(n, j => PickTerms(w, u, x, i)(k, j))
  {
    hide Sum, Pow;
    var c, t := Pow(u, i * k), j => x(j) * Pow(w, j * k);
    SumScale(n, c, t);
    var f, g := j => c * t(j), j => PickTerms(w, u, x, i)(k, j);
    forall j | 0 <= j < n ensures f(j) == g(j) {
      Rotate(c, x(j), Pow(w, j * k));
      assert PickTerms(w, u, x, i)(k, j) == x(j) * (Pow(w, j * k) * Pow(u, i * k));
    }
    SumExt(n, f, g);
  }

  lemma PickColumn(w: int, u: int, l: nat, x: int -> int, i: nat, j: nat)
    requires IsRoot(w, l) && M(w * u) == 1 && i < Pow2(l) && j < Pow2(l)
    ensures M(Sum(Pow2(l), k => PickTerms(w, u, x, i)(k, j))) == M(Picked(Pow2(l), x, i)(j))
  {
    hide Sum, Pow, Pow2, IsRoot;
    var n, t := Pow2(l), k => Pow(w, j * k) * Pow(u, i * k);
    SumScale(n, x(j), t);
    var f, g := k => PickTerms(w, u, x, i)(k, j), k => x(j) * t(k);
    forall k | 0 <= k < n ensures f(k) == g(k) {
      assert PickTerms(w, u, x, i)(k, j) == x(j) * (Pow(w, j * k) * Pow(u, i * k));
    }
    SumExt(n, f, g);
    Orthogonal(w, u, l, j, i);
    CongScale(Sum(n, t), if j == i then n else 0, x(j));
  }

  /** The i-th weighted sum over values picks the i-th term: N times x(i) twisted. */
  lemma PickTerm(w: int, u: int, l: nat, x: int -> int, i: nat)
    requires IsRoot(w, l) && M(w * u) == 1 && i < Pow2(l)
    ensures M(Sum(Pow2(l), k => Sum(Pow2(l), j => x(j) * Pow(w, j * k)) * Pow(u, i * k))) == M(Pow2(l) * x(i))
  {
    hide Sum, Pow, Pow2, IsRoot, PickTerms, M;
    var n, f := Pow2(l), PickTerms(w, u, x, i);
    var rows, sums := k => Sum(n, j => x(j) * Pow(w, j * k)) * Pow(u, i * k), k => Sum(n, j => f(k, j));
    forall k | 0 <= k < n ensures rows(k) == sums(k) {
      PickRow(w, u, n, x, i, k);
      SumExt(n, j => PickTerms(w, u, x, i)(k, j), j => f(k, j));
    }
    SumExt(n, rows, sums);
    forall j | 0 <= j < n ensures M(Sum(n, k => f(k, j))) == M(Picked(n, x, i)(j)) {
      PickColumn(w, u, l, x, i, j);
      SumExt(n, k => f(k, j), k => PickTerms(w, u, x, i)(k, j));
    }
    PickSum(n, f, x, i);
  }

  function Picked(n: nat, x: int -> int, i: int): int -> int {
    j => x(j) * (if j == i then n else 0)
  }

  lemma PickSum(n: nat, f: (int, int) -> int, x: int -> int, i: nat)
    requires i < n
    requires forall j :: 0 <= j < n ==> M(Sum(n, k => f(k, j))) == M(Picked(n, x, i)(j))
    ensures M(Sum(n, k => Sum(n, j => f(k, j)))) == M(n * x(i))
  {
    hide Sum, M;
    SumSwap(n, n, f);
    SumCong(n, j => Sum(n, k => f(k, j)), Picked(n, x, i));
    PickedSum(n, x, i);
  }

  lemma PickedSum(n: nat, x: int -> int, i: nat)
    requires i < n
    ensures Sum(n, Picked(n, x, i)) == n * x(i)
  {
    hide Sum;
    SumSingle(n, i, Picked(n, x, i));
  }

  lemma Rotate(c: int, x: int, p: int)
    ensures c * (x * p) == x * (p * c)
  {}

  lemma MulFour(h: int, v: int, n: int, p: int, x: int)
    ensures h * (v * (n * (p * x))) == h * (n * ((p * v) * x))
  {
    Rotate(v, n, p * x);
    assert (p * x) * v == (p * v) * x;
  }

  /** Undoing a twist by v^i and the factor N. */
  lemma Untwist(psi: int, v: int, l: nat, i: nat, x: int)
    requires M(psi * v) == 1
    ensures M(Pow(HALF, l) * (Pow(v, i) * (Pow2(l) * (Pow(psi, i) * x)))) == M(x)
  {
    MulFour(Pow(HALF, l), Pow(v, i), Pow2(l), Pow(psi, i), x);
    InverseSize(l, (Pow(psi, i) * Pow(v, i)) * x);
    PowBase(psi, v, i);
    PowCong(psi * v, 1, i);
    PowOne(i);
    CongMul(Pow(psi, i) * Pow(v, i), 1, x, x);
  }

  lemma FwdTwisted(psi: int, l: nat, x: int -> int, k: nat)
    ensures Fwd(psi, l, x, k) == Sum(Pow2(l), j => (Pow(psi, j) * x(j)) * Pow(psi * psi, j * k))
  {
    hide Sum;
    var f, g := Pointwise(x, FwdKernel(psi, k)), j => (Pow(psi, j) * x(j)) * Pow(psi * psi, j * k);
    forall j | 0 <= j < Pow2(l) ensures f(j) == g(j) {
      Twist(psi, j, k);
      Associate(x(j), Pow(psi, j), Pow(psi * psi, j * k));
    }
    SumExt(Pow2(l), f, g);
  }

  lemma SquaresCancel(psi: int, v: int)
    requires M(psi * v) == 1
    ensures M((psi * psi) * (v * v)) == 1
  {
    Exchange(psi, psi, v, v);
    CongMul(psi * v, 1, psi * v, 1);
  }

  /** Inverse after forward is the identity on coefficients. */
  lemma InvFwd(psi: int, v: int, l: nat, x: int -> int, i: nat)
    requires IsRoot(psi, l + 1) && M(psi * v) == 1 && i < Pow2(l)
    ensures M(Inv(v, l, k => Fwd(psi, l, x, k), i)) == M(x(i))
  {
    hide Sum, Pow, Fwd, Pow2;
    var n, w, u := Pow2(l), psi * psi, v * v;
    RootSquare(psi, l + 1);
    SquaresCancel(psi, v);
    var t, y := j => Pow(psi, j) * x(j), k => Fwd(psi, l, x, k);
    var f, g := Pointwise(y, InvKernel(v, i)), k => Sum(n, j => t(j) * Pow(w, j * k)) * Pow(u, i * k);
    forall k | 0 <= k < n ensures f(k) == g(k) {
      FwdTwisted(psi, l, x, k);
      SumExt(n, j => (Pow(psi, j) * x(j)) * Pow(psi * psi, j * k), j => t(j) * Pow(w, j * k));
    }
    SumExt(n, f, g);
    PickTerm(w, u, l, t, i);
    CongScale(Sum(n, f), n * t(i), Pow(v, i));
    CongScale(Pow(v, i) * Sum(n, f), Pow(v, i) * (n * t(i)), Pow(HALF, l));
    Untwist(psi, v, l, i, x(i));
  }

  /** v^i cancels the twist psi^i under a factor. */
  lemma CancelTwist(psi: int, v: int, h: int, i: nat, s: int, c: int)
    requires M(psi * v) == 1
    ensures M((h * (Pow(v, i) * s)) * (Pow(psi, i) * c)) == M(h * (s * c))
  {
    var e := Pow(psi, i) * Pow(v, i);
    assert (h * (Pow(v, i) * s)) * (Pow(psi, i) * c) == e * (h * (s * c)) by {
      Exchange(h, Pow(v, i) * s, Pow(psi, i), c);
      Exchange(Pow(v, i), s, Pow(psi, i), c);
      var x, y := Pow(v, i), Pow(psi, i);
      Associate(h, x * s, y * c);
      Rotate(h, x * y, s * c);
    }
    PowBase(psi, v, i);
    PowCong(psi * v, 1, i);
    PowOne(i);
    CongMul(e, 1, h * (s * c), h * (s * c));
  }

  lemma InverseTerm(psi: int, v: int, l: nat, y: int -> int, k: nat, i: nat)
    requires M(psi * v) == 1
    ensures M(Inv(v, l, y, i) * FwdKernel(psi, k)(i))
         == M(Pow(HALF, l) * (Sum(Pow2(l), m => y(m) * Pow(v * v, m * i)) * Pow(psi * psi, k * i)))
  {
    hide Sum, Pow, Pow2;
    var s := Sum(Pow2(l), m => y(m) * Pow(v * v, m * i));
    forall m | 0 <= m < Pow2(l) ensures Pointwise(y, InvKernel(v, i))(m) == y(m) * Pow(v * v, m * i) {
      assert i * m == m * i;
    }
    SumExt(Pow2(l), Pointwise(y, InvKernel(v, i)), m => y(m) * Pow(v * v, m * i));
    Twist(psi, i, k);
    assert i * k == k * i;
    CancelTwist(psi, v, Pow(HALF, l), i, s, Pow(psi * psi, k * i));
  }

  /** Forward after inverse is the identity on values. */
  lemma FwdInv(psi: int, v: int, l: nat, y: int -> int, k: nat)
    requires IsRoot(psi, l + 1) && M(psi * v) == 1 && k < Pow2(l)
    ensures M(Fwd(psi, l, i => Inv(v, l, y, i), k)) == M(y(k))
  {
    hide Sum, Pow, Inv, Pow2, FwdKernel;
    var n, w, u, h := Pow2(l), psi * psi, v * v, Pow(HALF, l);
    RootInverse(psi, v, l + 1);
    RootSquare(v, l + 1);
    assert v * psi == psi * v;
    SquaresCancel(v, psi);
    var f, x := i => Sum(n, m => y(m) * Pow(u, m * i)) * Pow(w, k * i), i => Inv(v, l, y, i);
    var g, hf := Pointwise(x, FwdKernel(psi, k)), i => h * f(i);
    forall i | 0 <= i < n ensures M(g(i)) == M(hf(i)) {
      InverseTerm(psi, v, l, y, k, i);
      SumExt(n, m => y(m) * Pow(v * v, m * i), m => y(m) * Pow(u, m * i));
    }
    SumCong(n, g, hf);
    SumScale(n, h, f);
    PickTerm(u, w, l, y, k);
    CongScale(Sum(n, f), n * y(k), h);
    InverseSize(l, y(k));
  }
}

/** Multiplication modulo X^N + 1 and its transform. */
module NegacyclicProducts {
  import opened Residues
  import opened Products
  import opened Sums
  import opened Powers
  import opened PowersOfTwo
  import opened Roots
  import opened Transforms

  /** b(t), where a negative t reads from the top with the sign X^N = -1 gives it. */
  function Wrap(b: int -> int, n: int, t: int): int {
    if t >= 0 then b(t) else -b(t + n)
  }

  /** The m-th coefficient of a*b modulo X^n + 1. */
  function NegProd(a: int -> int, b: int -> int, n: nat, m: int): int {
    Sum(n, i => a(i) * Wrap(b, n, m - i))
  }

  function PowersOf(p: int): int -> int {
    i => Pow(p, i)
  }

  function Eval(a: int -> int, n: nat, p: int): int {
    Sum(n, Pointwise(a, PowersOf(p)))
  }

  lemma Negated(c: int, r: int, s: int, t: int, x: int)
    requires c * r == t * s && M(t) == M(-1)
    ensures M(c * (x * r)) == M(-(x * s))
  {
    calc {
      M(c * (x * r));
      { assert c * (x * r) == x * (c * r); }
      M(x * (t * s));
      { CongMul(t, -1, s, s); CongMul(x, x, t * s, -s); }
      M(x * -s);
      { assert x * -s == -(x * s); }
      M(-(x * s));
    }
  }

  /** A coefficient x pushed past X^n comes back negated. */
  lemma WrapTerm(x: int, p: int, n: nat, i: nat, m: nat)
    requires M(Pow(p, n)) == M(-1) && i <= n
    ensures M(Pow(p, i) * (x * Pow(p, n - i + m))) == M(-(x * Pow(p, m)))
  {
    PowAdd(p, i, n - i + m);
    PowAdd(p, n, m);
    Negated(Pow(p, i), Pow(p, n - i + m), Pow(p, m), Pow(p, n), x);
  }

  lemma ShiftTermHigh(b: int -> int, n: nat, p: int, i: nat, m: nat)
    requires M(Pow(p, n)) == M(-1) && m < i <= n
    ensures M(Wrap(b, n, m - i) * Pow(p, m)) == M(Pow(p, i) * (b(n - i + m) * Pow(p, n - i + m)))
  {
    WrapTerm(b(n - i + m), p, n, i, m);
    assert Wrap(b, n, m - i) * Pow(p, m) == -(b(n - i + m) * Pow(p, m)) by {
      assert Wrap(b, n, m - i) == -b(n - i + m);
    }
  }

  lemma ShiftTermLow(b: int -> int, n: nat, p: int, i: nat, j: nat)
    ensures Wrap(b, n, i + j - i) * Pow(p, i + j) == Pow(p, i) * (b(j) * Pow(p, j))
  {
    PowAdd(p, i, j);
    Rotate(Pow(p, i), b(j), Pow(p, j));
  }

  /** g is c*f rotated by i places: the part that wraps round. */
  lemma RotatedHigh(n: nat, i: nat, c: int, g: int -> int, f: int -> int)
    requires i <= n
    requires forall m :: 0 <= m < i ==> M(g(m)) == M(c * f(n - i + m))
    ensures M(Sum(i, g)) == M(c * Sum(i, m => f(n - i + m)))
  {
    hide *;
    SumScale(i, c, m => f(n - i + m));
    SumCong(i, g, m => c * (m => f(n - i + m))(m));
  }

  /** g is c*f rotated by i places: the part that does not. */
  lemma RotatedLow(n: nat, i: nat, c: int, g: int -> int, f: int -> int)
    requires i <= n
    requires forall j :: 0 <= j < n - i ==> g(i + j) == c * f(j)
    ensures Sum(n - i, j => g(i + j)) == c * Sum(n - i, f)
  {
    hide *;
    SumScale(n - i, c, f);
    SumExt(n - i, j => g(i + j), j => c * f(j));
  }

  lemma RotatedSum(n: nat, i: nat, c: int, g: int -> int, f: int -> int)
    requires i <= n
    requires M(Sum(i, g)) == M(c * Sum(i, m => f(n - i + m)))
    requires Sum(n - i, j => g(i + j)) == c * Sum(n - i, f)
    ensures M(Sum(n, g)) == M(c * Sum(n, f))
  {
    hide *;
    SumSplit(i, n - i, g);
    SumSplit(n - i, i, f);
    var low, high := Sum(n - i, f), Sum(i, m => f(n - i + m));
    CongAdd(Sum(i, g), c * high, c * low, c * low);
    Distribute(c, Sum(n, f), low, high);
  }

  /** Multiplying by X^i shifts the coefficients and negates those that wrap round. */
  lemma ShiftEval(b: int -> int, n: nat, p: int, i: nat)
    requires M(Pow(p, n)) == M(-1) && i < n
    ensures M(Sum(n, m => Wrap(b, n, m - i) * Pow(p, m))) == M(Pow(p, i) * Eval(b, n, p))
  {
    hide Sum, Pow, M, Wrap;
    var g, f := m => Wrap(b, n, m - i) * Pow(p, m), Pointwise(b, PowersOf(p));
    assert M(Sum(i, g)) == M(Pow(p, i) * Sum(i, m => f(n - i + m))) by {
      forall m | 0 <= m < i ensures M(g(m)) == M(Pow(p, i) * f(n - i + m)) {
        ShiftTermHigh(b, n, p, i, m);
      }
      RotatedHigh(n, i, Pow(p, i), g, f);
    }
    assert Sum(n - i, j => g(i + j)) == Pow(p, i) * Sum(n - i, f) by {
      forall j | 0 <= j < n - i ensures g(i + j) == Pow(p, i) * f(j) {
        ShiftTermLow(b, n, p, i, j);
      }
      RotatedLow(n, i, Pow(p, i), g, f);
    }
    RotatedSum(n, i, Pow(p, i), g, f);
  }

  lemma ProductRow(a: int -> int, b: int -> int, n: nat, p: int, m: int)
    ensures NegProd(a, b, n, m) * Pow(p, m) == Sum(n, i => a(i) * (Wrap(b, n, m - i) * Pow(p, m)))
  {
    hide Sum, Pow, Wrap;
    var c, t := Pow(p, m), i => a(i) * Wrap(b, n, m - i);
    SumScale(n, c, t);
    var f, g := i => c * t(i), i => a(i) * (Wrap(b, n, m - i) * c);
    forall i | 0 <= i < n ensures f(i) == g(i) {
      Rotate(c, a(i), Wrap(b, n, m - i));
    }
    SumExt(n, f, g);
    SumExt(n, g, i => a(i) * (Wrap(b, n, m - i) * Pow(p, m)));
    assert NegProd(a, b, n, m) == Sum(n, t);
  }

  lemma ProductColumn(a: int -> int, b: int -> int, n: nat, p: int, i: nat)
    requires M(Pow(p, n)) == M(-1) && i < n
    ensures M(Sum(n, m => a(i) * (Wrap(b, n, m - i) * Pow(p, m)))) == M(Eval(b, n, p) * (a(i) * Pow(p, i)))
  {
    hide Sum, Pow, Wrap, Eval;
    var t := m => Wrap(b, n, m - i) * Pow(p, m);
    SumScale(n, a(i), t);
    SumExt(n, m => a(i) * (Wrap(b, n, m - i) * Pow(p, m)), m => a(i) * t(m));
    ShiftEval(b, n, p, i);
    CongScale(Sum(n, t), Pow(p, i) * Eval(b, n, p), a(i));
    Rotate(Eval(b, n, p), a(i), Pow(p, i));
  }

  /** A double sum whose columns are congruent to e times the terms of f. */
  lemma FactoredSum(n: nat, t: (int, int) -> int, r: int -> int, e: int, f: int -> int)
    requires forall m :: 0 <= m < n ==> r(m) == Sum(n, i => t(m, i))
    requires forall i :: 0 <= i < n ==> M(Sum(n, m => t(m, i))) == M(e * f(i))
    ensures M(Sum(n, r)) == M(e * Sum(n, f))
  {
    hide *;
    SumExt(n, r, m => Sum(n, i => t(m, i)));
    SumSwap(n, n, t);
    SumCong(n, i => Sum(n, m => t(m, i)), i => e * f(i));
    SumScale(n, e, f);
  }

  /** Evaluation at a root of X^n + 1 is multiplicative. */
  lemma EvalProduct(a: int -> int, b: int -> int, n: nat, p: int)
    requires M(Pow(p, n)) == M(-1)
    ensures M(Eval(m => NegProd(a, b, n, m), n, p)) == M(Eval(b, n, p) * Eval(a, n, p))
  {
    hide Sum, Pow, M, Wrap;
    var t := (m, i) => a(i) * (Wrap(b, n, m - i) * Pow(p, m));
    var f, c := Pointwise(a, PowersOf(p)), m => NegProd(a, b, n, m);
    var r := Pointwise(c, PowersOf(p));
    forall m | 0 <= m < n ensures r(m) == Sum(n, i => t(m, i)) {
      ProductRow(a, b, n, p, m);
      SumExt(n, i => a(i) * (Wrap(b, n, m - i) * Pow(p, m)), i => t(m, i));
    }
    forall i | 0 <= i < n ensures M(Sum(n, m => t(m, i))) == M(Eval(b, n, p) * f(i)) {
      ProductColumn(a, b, n, p, i);
      SumExt(n, m => a(i) * (Wrap(b, n, m - i) * Pow(p, m)), m => t(m, i));
    }
    FactoredSum(n, t, r, Eval(b, n, p), f);
  }

  /** psi^(2k+1) is a root of X^N + 1. */
  lemma OddPower(psi: int, l: nat, k: nat)
    requires IsRoot(psi, l + 1)
    ensures M(Pow(Pow(psi, 2 * k + 1), Pow2(l))) == M(-1)
  {
    PowMul(psi, 2 * k + 1, Pow2(l));
    HalfPower(psi, l + 1, 2 * k + 1);
    assert (2 * k + 1) * Pow2(l) == Pow2(l) * (2 * k + 1);
  }

  lemma FwdIsEval(psi: int, l: nat, x: int -> int, k: nat)
    ensures Fwd(psi, l, x, k) == Eval(x, Pow2(l), Pow(psi, 2 * k + 1))
  {
    hide Sum, Pow;
    var p := Pow(psi, 2 * k + 1);
    forall i | 0 <= i < Pow2(l) ensures FwdKernel(psi, k)(i) == PowersOf(p)(i) {
      PowMul(psi, 2 * k + 1, i);
      assert (2 * k + 1) * i == i * (2 * k + 1);
    }
    SumExt(Pow2(l), Pointwise(x, FwdKernel(psi, k)), Pointwise(x, PowersOf(p)));
  }

  /** Convolution theorem: the transform turns multiplication modulo X^N + 1 into products of values. */
  lemma FwdProduct(psi: int, l: nat, a: int -> int, b: int -> int, k: nat)
    requires IsRoot(psi, l + 1)
    ensures M(Fwd(psi, l, m => NegProd(a, b, Pow2(l), m), k)) == M(Fwd(psi, l, a, k) * Fwd(psi, l, b, k))
  {
    OddPower(psi, l, k);
    EvalProduct(a, b, Pow2(l), Pow(psi, 2 * k + 1));
    FwdIsEval(psi, l, a, k);
    FwdIsEval(psi, l, b, k);
    FwdIsEval(psi, l, m => NegProd(a, b, Pow2(l), m), k);
  }
}
