/** The coefficient ring Z_q, finite sums and powers. */
module Residues {

  /** The modulus of babykoala: the product of the BabyBear and KoalaBear primes. */
  const Q: int := 0x3b88_0000_f700_0001

  /** (Q + 1) / 2, the inverse of two. */
  const HALF: int := 0x1dc4_0000_7b80_0001

  /** A ring element in its canonical form. */
  type Zq = x: int | 0 <= x < Q witness 0

  /** The canonical representative of x. Two integers are congruent when M agrees on them. */
  function M(x: int): Zq {
    x % Q
  }

  lemma MTwice(x: int)
    ensures M(M(x)) == M(x)
  {}

  lemma Canonical(x: Zq)
    ensures M(x) == x
  {}

  lemma MMulLeft(x: int, y: int)
    ensures M(M(x) * y) == M(x * y)
  {
    var k := x / Q;
    Multiple(Q, k, M(x), y);
    Shifted(x * y, M(x) * y, k * y);
  }

  lemma Multiple(n: int, k: int, r: int, y: int)
    ensures (n * k + r) * y == n * (k * y) + r * y
  {
    assert (n * k) * y == n * (k * y);
  }

  lemma Shifted(a: int, b: int, z: int)
    requires a == Q * z + b
    ensures M(a) == M(b)
  {}

  lemma CongAdd(a: int, b: int, c: int, d: int)
    requires M(a) == M(b) && M(c) == M(d)
    ensures M(a + c) == M(b + d)
  {}

  lemma CongSub(a: int, b: int, c: int, d: int)
    requires M(a) == M(b) && M(c) == M(d)
    ensures M(a - c) == M(b - d)
  {}

  lemma CongMul(a: int, b: int, c: int, d: int)
    requires M(a) == M(b) && M(c) == M(d)
    ensures M(a * c) == M(b * d)
  {
    MMulLeft(a, c);
    MMulLeft(b, c);
    MMulLeft(c, b);
    MMulLeft(d, b);
  }

  lemma CongScale(a: int, b: int, c: int)
    requires M(a) == M(b)
    ensures M(c * a) == M(c * b)
  {
    CongMul(c, c, a, b);
  }

  lemma HalfTwice(x: int)
    ensures M(HALF * (2 * x)) == M(x)
  {
    assert HALF * (2 * x) == Q * x + x;
  }

  /** Equality of residues is divisibility of the difference. */
  lemma CongZero(a: int, b: int)
    ensures M(a) == M(b) <==> M(a - b) == 0
  {}
}

/** Small facts about products, so that larger proofs need no nonlinear search. */
module Products {
  lemma Distribute(a: int, e: int, b: int, c: int)
    requires e == b + c
    ensures a * e == a * b + a * c
  {}

  lemma NonNegative(a: int, b: int)
    requires a >= 0 && b >= 0
    ensures a * b >= 0
  {}

  lemma Associate(a: int, b: int, c: int)
    ensures a * (b * c) == (a * b) * c
  {}

  lemma Exchange(a: int, b: int, x: int, y: int)
    ensures (a * b) * (x * y) == (a * x) * (b * y)
  {
    assert (a * b) * (x * y) == a * (b * (x * y));
    assert b * (x * y) == x * (b * y);
  }
}

module Sums {
  import opened Residues
  import opened Products

  /** f(0) + ... + f(n-1). */
  function Sum(n: nat, f: int -> int): int {
    if n == 0 then 0 else Sum(n - 1, f) + f(n - 1)
  }

  function Pointwise(u: int -> int, v: int -> int): int -> int {
    i => u(i) * v(i)
  }

  lemma SumStep(n: nat, f: int -> int)
    ensures Sum(0, f) == 0
    ensures n > 0 ==> Sum(n, f) == Sum(n - 1, f) + f(n - 1)
  {}

  lemma SumExt(n: nat, f: int -> int, g: int -> int)
    requires forall i :: 0 <= i < n ==> f(i) == g(i)
    ensures Sum(n, f) == Sum(n, g)
  {
    if n > 0 { SumExt(n - 1, f, g); }
  }

  lemma SumCong(n: nat, f: int -> int, g: int -> int)
    requires forall i :: 0 <= i < n ==> M(f(i)) == M(g(i))
    ensures M(Sum(n, f)) == M(Sum(n, g))
  {
    if n > 0 {
      SumCong(n - 1, f, g);
      CongAdd(Sum(n - 1, f), Sum(n - 1, g), f(n - 1), g(n - 1));
    }
  }

  lemma SumZero(n: nat, f: int -> int)
    requires forall i :: 0 <= i < n ==> f(i) == 0
    ensures Sum(n, f) == 0
  {
    if n > 0 { SumZero(n - 1, f); }
  }

  lemma SumAdd(n: nat, f: int -> int, g: int -> int)
    ensures Sum(n, i => f(i) + g(i)) == Sum(n, f) + Sum(n, g)
  {
    if n > 0 { SumAdd(n - 1, f, g); }
  }

  lemma SumScale(n: nat, c: int, f: int -> int)
    ensures Sum(n, i => c * f(i)) == c * Sum(n, f)
  {
    if n > 0 { SumScale(n - 1, c, f); }
  }

  lemma SumSplit(n: nat, m: nat, f: int -> int)
    ensures Sum(n + m, f) == Sum(n, f) + Sum(m, i => f(n + i))
  {
    if m > 0 { SumSplit(n, m - 1, f); }
  }

  /** Only the k-th term is not zero. */
  lemma SumSingle(n: nat, k: int, f: int -> int)
    requires 0 <= k < n
    requires forall i :: 0 <= i < n && i != k ==> f(i) == 0
    ensures Sum(n, f) == f(k)
  {
    if k == n - 1 { SumZero(n - 1, f); } else { SumSingle(n - 1, k, f); }
  }

  lemma SumSwap(n: nat, m: nat, f: (int, int) -> int)
    ensures Sum(n, i => Sum(m, j => f(i, j))) == Sum(m, j => Sum(n, i => f(i, j)))
  {
    if n == 0 {
      SumZero(m, j => Sum(n, i => f(i, j)));
    } else {
      SumSwap(n - 1, m, f);
      SumAdd(m, j => Sum(n - 1, i => f(i, j)), j => f(n - 1, j));
      SumExt(m, j => Sum(n, i => f(i, j)),
                j => (j => Sum(n - 1, i => f(i, j)))(j) + (j => f(n - 1, j))(j));
    }
  }

  /** A sum over a row-major index is a sum over rows of sums over columns. */
  lemma SumFlatten(n: nat, m: nat, f: int -> int)
    ensures n * m >= 0
    ensures Sum(n * m, f) == Sum(n, i => Sum(m, j => f(i * m + j)))
  {
    hide Sum;
    var rows := i => Sum(m, j => f(i * m + j));
    SumStep(n, rows);
    SumStep(0, f);
    if n > 0 {
      SumFlatten(n - 1, m, f);
      Distribute(m, n, n - 1, 1);
      SumSplit((n - 1) * m, m, f);
      SumExt(m, j => f((n - 1) * m + j), i => f((n - 1) * m + i));
      SumExt(n - 1, rows, i => Sum(m, j => f(i * m + j)));
    }
  }

  lemma SumReverse(n: nat, f: int -> int)
    ensures Sum(n, f) == Sum(n, i => f(n - 1 - i))
  {
    if n > 0 {
      var g := i => f(n - 1 - i);
      SumSplit(1, n - 1, g);
      SumReverse(n - 1, f);
      SumExt(n - 1, i => g(1 + i), i => f(n - 1 - 1 - i));
      assert Sum(1, g) == Sum(0, g) + g(0);
    }
  }

  /** Even-indexed terms and odd-indexed terms. */
  lemma SumEvenOdd(n: nat, f: int -> int)
    ensures Sum(2 * n, f) == Sum(n, i => f(2 * i)) + Sum(n, i => f(2 * i + 1))
  {
    if n > 0 {
      SumEvenOdd(n - 1, f);
      assert Sum(2 * n, f) == Sum(2 * n - 2, f) + f(2 * n - 2) + f(2 * n - 1);
    }
  }
}

module Powers {
  import opened Residues
  import opened Products

  /** b to the power e; every exponent below one gives one, so that Pow is total. */
  function Pow(b: int, e: int): int
    decreases e
  {
    if e <= 0 then 1 else b * Pow(b, e - 1)
  }

  lemma PowAdd(b: int, e: int, f: int)
    requires e >= 0 && f >= 0
    ensures Pow(b, e + f) == Pow(b, e) * Pow(b, f)
    decreases e
  {
    if e > 0 {
      PowAdd(b, e - 1, f);
      assert Pow(b, e + f) == b * (Pow(b, e - 1) * Pow(b, f));
    }
  }

  lemma PowStep(b: int, e: int)
    ensures e <= 0 ==> Pow(b, e) == 1
    ensures e > 0 ==> Pow(b, e) == b * Pow(b, e - 1)
  {}

  lemma PowMul(b: int, e: int, f: int)
    requires e >= 0 && f >= 0
    ensures e * f >= 0
    ensures Pow(b, e * f) == Pow(Pow(b, e), f)
    decreases f
  {
    hide Pow;
    PowStep(b, 0);
    PowStep(Pow(b, e), 0);
    if f > 0 {
      PowMul(b, e, f - 1);
      NonNegative(e, f - 1);
      Distribute(e, f, f - 1, 1);
      PowAdd(b, e, e * (f - 1));
      PowStep(Pow(b, e), f);
    } else {
      assert e * 0 == 0;
    }
  }

  lemma PowBase(a: int, b: int, e: int)
    ensures Pow(a * b, e) == Pow(a, e) * Pow(b, e)
    decreases e
  {
    if e > 0 {
      PowBase(a, b, e - 1);
      var x, y := Pow(a, e - 1), Pow(b, e - 1);
      Exchange(a, b, x, y);
    }
  }

  lemma PowOne(e: int)
    ensures Pow(1, e) == 1
    decreases e
  {
    if e > 0 { PowOne(e - 1); }
  }

  lemma PowCong(a: int, b: int, e: int)
    requires M(a) == M(b)
    ensures M(Pow(a, e)) == M(Pow(b, e))
    decreases e
  {
    if e > 0 {
      PowCong(a, b, e - 1);
      CongMul(a, b, Pow(a, e - 1), Pow(b, e - 1));
    }
  }

  lemma PowPositive(b: int, e: int)
    requires b >= 1
    ensures Pow(b, e) >= 1
    decreases e
  {
    if e > 0 {
      PowPositive(b, e - 1);
      assert b * Pow(b, e - 1) >= 1 * Pow(b, e - 1);
    }
  }

  /** Powers of minus one: plus one at even exponents, minus one at odd ones. */
  lemma PowMinusOne(e: int)
    requires e >= 0
    ensures Pow(-1, e) == if e % 2 == 0 then 1 else -1
    decreases e
  {
    if e > 0 { PowMinusOne(e - 1); }
  }
}

/** Sequences given by a function of the index. */
module Arrays {
  import opened Products

  function Vec<T>(n: nat, f: int -> T): (v: seq<T>)
    ensures |v| == n
    ensures forall i :: 0 <= i < n ==> v[i] == f(i)
  {
    seq(n, i => f(i))
  }

  /** A row-major matrix. */
  function Grid<T>(rows: nat, cols: nat, f: (int, int) -> T): (m: seq<T>)
    ensures |m| == rows * cols
  {
    if rows == 0 then []
    else Grid(rows - 1, cols, f) + Vec(cols, j => f(rows - 1, j))
  }

  lemma RowMajor(i: int, j: int, rows: int, cols: int)
    requires 0 <= i < rows && 0 <= j < cols
    ensures 0 <= i * cols && i * cols + j < rows * cols
  {
    NonNegative(i, cols);
    NonNegative(rows - i - 1, cols);
    Distribute(cols, rows, rows - i - 1, i + 1);
    Distribute(cols, i + 1, i, 1);
  }

  lemma {:induction false} GridAt<T>(rows: nat, cols: nat, f: (int, int) -> T, i: nat, j: nat)
    requires i < rows && j < cols
    ensures 0 <= i * cols && i * cols + j < |Grid(rows, cols, f)|
    ensures Grid(rows, cols, f)[i * cols + j] == f(i, j)
  {
    RowMajor(i, j, rows, cols);
    Distribute(cols, rows, rows - 1, 1);
    if i < rows - 1 {
      GridAt(rows - 1, cols, f, i, j);
    }
  }

  /** src written over dst from off on. */
  function CopyAt<T>(dst: seq<T>, off: nat, src: seq<T>): (r: seq<T>)
    requires off + |src| <= |dst|
    ensures |r| == |dst|
  {
    dst[..off] + src + dst[off + |src|..]
  }

  /** The place of entry j of row i in a row-major matrix with cols columns. */
  function Cell(cols: nat, i: nat, j: nat): nat {
    NonNegative(i, cols);
    i * cols + j
  }

  lemma CellRange(rows: nat, cols: nat, i: nat, j: nat)
    requires i < rows && j < cols
    ensures Cell(cols, i, j) < Cell(cols, rows, 0)
  {
    RowMajor(i, j, rows, cols);
  }

  lemma CellUnique(cols: nat, i: nat, j: nat, k: nat, l: nat)
    requires j < cols && l < cols && Cell(cols, i, j) == Cell(cols, k, l)
    ensures i == k && j == l
  {
    if i < k { RowMajor(i, j, k, cols); } else if k < i { RowMajor(k, l, i, cols); }
  }
}
