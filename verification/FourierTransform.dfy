/** The discrete Fourier transform as a sum, and how it splits. */
module FourierTransform {
  import opened Residues
  import opened Products
  import opened Sums
  import opened Powers

  function DftKernel(w: int, k: int): int -> int {
    j => Pow(w, j * k)
  }

  /** sum_j x(j) w^(jk) */
  function Dft(w: int, n: nat, x: int -> int, k: int): int {
    Sum(n, Pointwise(x, DftKernel(w, k)))
  }

  lemma DftCong(w: int, n: nat, x: int -> int, y: int -> int, k: int)
    requires forall j :: 0 <= j < n ==> M(x(j)) == M(y(j))
    ensures M(Dft(w, n, x, k)) == M(Dft(w, n, y, k))
  {
    hide Sum, Pow;
    var f, g := Pointwise(x, DftKernel(w, k)), Pointwise(y, DftKernel(w, k));
    forall j | 0 <= j < n ensures M(f(j)) == M(g(j)) {
      CongMul(x(j), y(j), Pow(w, j * k), Pow(w, j * k));
    }
    SumCong(n, f, g);
  }

  /** Entries b, b + c, b + 2c, ... of x. */
  function Strided(x: int -> int, c: int, b: int): int -> int {
    m => x(m * c + b)
  }

  /** The transforms of the strided parts at kappa, each turned by w^(b kappa). */
  function Turned(w: int, p: nat, c: nat, x: int -> int, kappa: int): int -> int {
    b => Dft(Pow(w, c), p, Strided(x, c, b), kappa) * Pow(w, b * kappa)
  }

  /** w^((mc + b)(kappa + k2 p)) without the full periods. */
  lemma SplitPower(w: int, p: nat, c: nat, m: nat, b: nat, kappa: nat, k2: nat)
    requires M(Pow(w, p * c)) == 1
    ensures M(Pow(w, (m * c + b) * (kappa + k2 * p)))
         == M(Pow(Pow(w, c), m * kappa) * (Pow(w, b * kappa) * Pow(Pow(w, p), b * k2)))
  {
    hide Pow;
    var e0, e1, e2, e3 := c * (m * kappa), (p * c) * (m * k2), b * kappa, p * (b * k2);
    SplitExponent(p, c, m, b, kappa, k2);
    NonNegative(m, kappa);
    NonNegative(m, k2);
    NonNegative(b, kappa);
    NonNegative(b, k2);
    NonNegative(c, m * kappa);
    NonNegative(p, c);
    NonNegative(p * c, m * k2);
    NonNegative(p, b * k2);
    PowAdd(w, e0 + e1, e2 + e3);
    PowAdd(w, e0, e1);
    PowAdd(w, e2, e3);
    PowMul(w, c, m * kappa);
    PowMul(w, p * c, m * k2);
    PowMul(w, p, b * k2);
    PowCong(Pow(w, p * c), 1, m * k2);
    PowOne(m * k2);
    FullPeriod(Pow(w, e0), Pow(w, e1), Pow(w, e2) * Pow(w, e3));
  }

  lemma FullPeriod(x: int, one: int, y: int)
    requires M(one) == 1
    ensures M((x * one) * y) == M(x * y)
  {
    CongScale(one, 1, x);
    CongMul(x * one, x, y, y);
  }

  lemma SplitExponent(p: nat, c: nat, m: nat, b: nat, kappa: nat, k2: nat)
    ensures (m * c + b) * (kappa + k2 * p) == (c * (m * kappa) + (p * c) * (m * k2)) + (b * kappa + p * (b * k2))
  {
    Distribute(m * c + b, kappa + k2 * p, kappa, k2 * p);
    assert (m * c + b) * kappa == c * (m * kappa) + b * kappa by { Rotate3(m, c, kappa); }
    assert (m * c + b) * (k2 * p) == (p * c) * (m * k2) + p * (b * k2) by { Exchange(m, c, k2, p); Rotate4(m * k2, c,
        p); Rotate3(b, p, k2); Associate(b, k2, p); }
  }

  lemma Rotate3(m: int, c: int, k: int)
    ensures (m * c) * k == c * (m * k)
  {}

  lemma Rotate4(x: int, c: int, p: int)
    ensures x * (c * p) == (p * c) * x
  {}

  lemma TwoLayerTerm(w: int, p: nat, c: nat, x: int -> int, kappa: nat, k2: nat, m: nat, b: nat)
    requires M(Pow(w, p * c)) == 1
    ensures M(x(m * c + b) * Pow(w, (m * c + b) * (kappa + k2 * p)))
         == M((Pow(w, b * kappa) * Pow(Pow(w, p), b * k2)) * (Strided(x, c, b)(m) * Pow(Pow(w, c), m * kappa)))
  {
    hide Pow;
    SplitPower(w, p, c, m, b, kappa, k2);
    var u, v, y := Pow(Pow(w, c), m * kappa), Pow(w, b * kappa) * Pow(Pow(w, p), b * k2), x(m * c + b);
    CongScale(Pow(w, (m * c + b) * (kappa + k2 * p)), u * v, y);
    assert y * (u * v) == v * (y * u) by { Associate(y, u, v); }
  }

  lemma TwoLayerColumn(w: int, p: nat, c: nat, x: int -> int, kappa: nat, k2: nat, b: nat)
    requires M(Pow(w, p * c)) == 1
    ensures M(Sum(p, m => x(m * c + b) * Pow(w, (m * c + b) * (kappa + k2 * p))))
         == M(Turned(w, p, c, x, kappa)(b) * Pow(Pow(w, p), b * k2))
  {
    hide Pow, Sum;
    var s := Pow(w, b * kappa) * Pow(Pow(w, p), b * k2);
    var t := Pointwise(Strided(x, c, b), DftKernel(Pow(w, c), kappa));
    var f, g := m => x(m * c + b) * Pow(w, (m * c + b) * (kappa + k2 * p)), m => s * t(m);
    forall m | 0 <= m < p ensures M(f(m)) == M(g(m)) {
      TwoLayerTerm(w, p, c, x, kappa, k2, m, b);
    }
    SumCong(p, f, g);
    SumScale(p, s, t);
    Regroup(Pow(w, b * kappa), Pow(Pow(w, p), b * k2), Sum(p, t));
  }

  lemma Regroup(u: int, v: int, d: int)
    ensures (u * v) * d == (d * u) * v
  {}

  /** Transforms of the strided parts, turned and transformed across, give the whole transform. */
  lemma TwoLayers(w: int, p: nat, c: nat, x: int -> int, kappa: nat, k2: nat)
    requires M(Pow(w, p * c)) == 1
    ensures p * c >= 0
    ensures M(Dft(w, p * c, x, kappa + k2 * p)) == M(Dft(Pow(w, p), c, Turned(w, p, c, x, kappa), k2))
  {
    hide Pow, Sum;
    var k := kappa + k2 * p;
    FlatDft(w, p, c, x, k);
    var h := DftGrid(w, c, x, k);
    SumSwap(p, c, h);
    var cols, g := b => Sum(p, m => h(m, b)), Pointwise(Turned(w, p, c, x, kappa), DftKernel(Pow(w, p), k2));
    forall b | 0 <= b < c ensures M(cols(b)) == M(g(b)) {
      TwoLayerColumn(w, p, c, x, kappa, k2, b);
      SumExt(p, m => h(m, b), m => x(m * c + b) * Pow(w, (m * c + b) * (kappa + k2 * p)));
    }
    SumCong(c, cols, g);
  }

  /** The terms of the transform by row and column. */
  function DftGrid(w: int, c: nat, x: int -> int, k: int): (int, int) -> int {
    (m, b) => x(m * c + b) * Pow(w, (m * c + b) * k)
  }

  lemma FlatDft(w: int, p: nat, c: nat, x: int -> int, k: int)
    ensures p * c >= 0
    ensures Dft(w, p * c, x, k) == Sum(p, m => Sum(c, b => DftGrid(w, c, x, k)(m, b)))
  {
    hide Pow, Sum;
    var f, h := Pointwise(x, DftKernel(w, k)), DftGrid(w, c, x, k);
    SumFlatten(p, c, f);
    var l, r := m => Sum(c, b => f(m * c + b)), m => Sum(c, b => h(m, b));
    forall m | 0 <= m < p ensures l(m) == r(m) {
      SumExt(c, b => f(m * c + b), b => h(m, b));
    }
    SumExt(p, l, r);
  }
}
