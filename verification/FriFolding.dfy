/** Folding a codeword: the even part plus alpha times the odd part, on the squared domain. */
module FriFolding {
  import opened Residues
  import opened Products
  import opened Sums
  import opened Powers
  import opened PowersOfTwo
  import opened Roots
  import opened FourierTransform
  import Dit

  /** p_even + alpha * p_odd */
  function FoldPoly(p: int -> int, alpha: int): int -> int {
    j => Strided(p, 2, 0)(j) + alpha * Strided(p, 2, 1)(j)
  }

  /** The coefficients from len on are zero. */
  ghost predicate LengthAtMost(p: int -> int, len: nat) {
    forall j :: j >= len ==> p(j) == 0
  }

  /** Folding halves the length, rounding up. */
  lemma FoldLength(p: int -> int, alpha: int, len: nat)
    requires LengthAtMost(p, len)
    ensures LengthAtMost(FoldPoly(p, alpha), (len + 1) / 2)
  {
    forall j | j >= (len + 1) / 2 ensures FoldPoly(p, alpha)(j) == 0 {
      assert Strided(p, 2, 0)(j) == p(j * 2 + 0) == 0 && Strided(p, 2, 1)(j) == p(j * 2 + 1) == 0;
      assert alpha * 0 == 0;
    }
  }

  /** What the prover stores from two entries half a domain apart, with a reduction after every operation. */
  function FoldValue(a: Zq, b: Zq, alpha: Zq, twiddle: Zq): Zq {
    Combined(EvenPart(a, b), OddPart(a, b, twiddle), alpha)
  }

  function Combined(even: Zq, odd: Zq, alpha: Zq): Zq {
    M(even + M(alpha * odd))
  }

  function EvenPart(a: Zq, b: Zq): Zq {
    M(M(a + b) * HALF)
  }

  function OddPart(a: Zq, b: Zq, twiddle: Zq): Zq {
    M(M(M(a - b) * HALF) * twiddle)
  }

  lemma FoldDft(w: int, n: nat, p: int -> int, alpha: int, i: int)
    ensures Dft(w, n, FoldPoly(p, alpha), i) == Dft(w, n, Strided(p, 2, 0), i) + alpha * Dft(w, n, Strided(p, 2, 1), i)
  {
    hide *;
    var k := DftKernel(w, i);
    var f, g, h := Pointwise(FoldPoly(p, alpha), k), Pointwise(Strided(p, 2, 0), k), Pointwise(Strided(p, 2, 1), k);
    var g', h' := j => alpha * h(j), j => g(j) + alpha * h(j);
    SumScale(n, alpha, h);
    SumAdd(n, g, g');
    SumExt(n, j => g(j) + g'(j), h');
    forall j | 0 <= j < n ensures f(j) == h'(j) {
      FoldPoint(p, alpha, k, j);
    }
    SumExt(n, f, h');
    DftIs(w, n, FoldPoly(p, alpha), i);
    DftIs(w, n, Strided(p, 2, 0), i);
    DftIs(w, n, Strided(p, 2, 1), i);
  }

  lemma DftIs(w: int, n: nat, p: int -> int, i: int)
    ensures Dft(w, n, p, i) == Sum(n, Pointwise(p, DftKernel(w, i)))
  {}

  lemma FoldPoint(p: int -> int, alpha: int, k: int -> int, j: int)
    ensures Pointwise(FoldPoly(p, alpha), k)(j)
         == Pointwise(Strided(p, 2, 0), k)(j) + alpha * Pointwise(Strided(p, 2, 1), k)(j)
  {
    hide Strided;
    FoldTerm(Strided(p, 2, 0)(j), alpha, Strided(p, 2, 1)(j), k(j));
  }

  lemma FoldTerm(a: int, alpha: int, b: int, k: int)
    ensures (a + alpha * b) * k == a * k + alpha * (b * k)
  {
    Associate(alpha, b, k);
  }

  /** The two values half a domain apart, from the even and the odd part. */
  lemma EvenOdd(w: int, k: nat, p: int -> int, i: nat)
    requires k >= 1 && IsRoot(w, k)
    ensures M(Dft(w, Pow2(k), p, i))
         == M(Dft(w * w, Pow2(k - 1), Strided(p, 2, 0), i) + Dft(w * w, Pow2(k - 1), Strided(p, 2, 1), i) * Pow(w, i))
    ensures M(Dft(w, Pow2(k), p, i + Pow2(k - 1)))
         == M(Dft(w * w, Pow2(k - 1), Strided(p, 2, 0), i) - Dft(w * w, Pow2(k - 1), Strided(p, 2, 1), i) * Pow(w, i))
  {
    hide Sum, Pow, Dft, Strided;
    var n := Pow2(k - 1);
    assert Pow2(k) == n * 2;
    RootFull(w, k);
    TwoLayers(w, n, 2, p, i, 0);
    TwoLayers(w, n, 2, p, i, 1);
    var z := Turned(w, n, 2, p, i);
    Dit.DftPair(Pow(w, n), z, 0);
    Dit.DftPair(Pow(w, n), z, 1);
    PowSquare(w, 1);
    PowStep(w * w, 1);
    PowStep(w * w, 0);
    PowStep(w, 0);
    assert 0 * i == 0 && 1 * i == i;
    var e, o := Dft(w * w, n, Strided(p, 2, 0), i), Dft(w * w, n, Strided(p, 2, 1), i) * Pow(w, i);
    assert z(0) == Dft(w * w, n, Strided(p, 2, 0), i) * 1 && z(1) == o;
    CongScale(Pow(w, n), -1, o);
    CongAdd(e, e, o * Pow(w, n), o * -1);
  }

  /** From the sum and the difference of two values back to their halves. */
  lemma Halved(a: Zq, b: Zq, e: int, o: int)
    requires M(a) == M(e + o) && M(b) == M(e - o)
    ensures M(M(a + b) * HALF) == M(e) && M(M(a - b) * HALF) == M(o)
  {
    hide M;
    CongAdd(a, e + o, b, e - o);
    CongSub(a, e + o, b, e - o);
    MMulLeft(a + b, HALF);
    MMulLeft(a - b, HALF);
    CongMul(a + b, 2 * e, HALF, HALF);
    CongMul(a - b, 2 * o, HALF, HALF);
    HalfTwice(e);
    HalfTwice(o);
  }

  lemma Untwiddled(o: int, x: int, y: Zq, odd: Zq)
    requires M(x * y) == 1 && odd == M(o * x)
    ensures M(odd * y) == M(o)
  {
    hide M;
    Canonical(1);
    MMulLeft(o * x, y);
    Associate(o, x, y);
    CongScale(x * y, 1, o);
  }

  /** Folding the values of p gives the values of p_even + alpha p_odd on the squared domain. */
  lemma FoldCommutes(w: int, k: nat, p: int -> int, alpha: Zq, a: Zq, b: Zq, twiddle: Zq, i: nat)
    requires k >= 1 && IsRoot(w, k) && M(Pow(w, i) * twiddle) == 1
    requires a == M(Dft(w, Pow2(k), p, i)) && b == M(Dft(w, Pow2(k), p, i + Pow2(k - 1)))
    ensures FoldValue(a, b, alpha, twiddle) == M(Dft(w * w, Pow2(k - 1), FoldPoly(p, alpha), i))
  {
    hide *;
    EvenOdd(w, k, p, i);
    var n := Pow2(k - 1);
    var e, o := Dft(w * w, n, Strided(p, 2, 0), i), Dft(w * w, n, Strided(p, 2, 1), i);
    MTwice(Dft(w, Pow2(k), p, i));
    MTwice(Dft(w, Pow2(k), p, i + Pow2(k - 1)));
    FoldDft(w * w, n, p, alpha, i);
    FoldValueIs(a, b, alpha, twiddle, e, o, Pow(w, i));
  }

  lemma FoldValueIs(a: Zq, b: Zq, alpha: Zq, twiddle: Zq, e: int, o: int, x: int)
    requires M(x * twiddle) == 1 && M(a) == M(e + o * x) && M(b) == M(e - o * x)
    ensures FoldValue(a, b, alpha, twiddle) == M(e + alpha * o)
  {
    hide M;
    Halved(a, b, e, o * x);
    Untwiddled(o, x, twiddle, M(M(a - b) * HALF));
    var even, odd := M(M(a + b) * HALF), M(M(M(a - b) * HALF) * twiddle);
    MTwice(e);
    MTwice(o);
    CongScale(odd, o, alpha);
    MTwice(alpha * odd);
    CongAdd(even, e, M(alpha * odd), alpha * o);
  }

  /** The two entries may be exchanged when the twiddle changes its sign. */
  lemma FoldSwapped(a: Zq, b: Zq, alpha: Zq, x: Zq, y: Zq)
    requires M(x + y) == 0
    ensures FoldValue(b, a, alpha, x) == FoldValue(a, b, alpha, y)
  {
    hide M;
    var d: int := b - a;
    assert a - b == 0 - d;
    MMulLeft(d, HALF);
    MMulLeft(0 - d, HALF);
    MMulLeft(d * HALF, x);
    MMulLeft((0 - d) * HALF, y);
    SignMoved(d * HALF, x, y);
  }

  lemma SignMoved(d: int, x: int, y: int)
    requires M(x + y) == 0
    ensures M(d * x) == M((0 - d) * y)
  {
    CongScale(x + y, 0, d);
    assert d * (x + y) == d * x - (0 - d) * y;
    CongZero(d * x, (0 - d) * y);
  }
}
