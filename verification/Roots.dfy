/** Roots of unity of power-of-two order, and the bit reversal of indices. */
module PowersOfTwo {
  function Pow2(l: nat): (n: nat)
    ensures n >= 1
  {
    if l == 0 then 1 else 2 * Pow2(l - 1)
  }

  lemma Pow2Add(k: nat, l: nat)
    ensures Pow2(k + l) == Pow2(k) * Pow2(l)
  {
    if k > 0 {
      Pow2Add(k - 1, l);
      assert Pow2(k + l) == 2 * (Pow2(k - 1) * Pow2(l));
    }
  }
}

module BitReversal {
  import opened PowersOfTwo

  /** The l low bits of i in reverse order. */
  function Rev(i: int, l: nat): (r: nat)
    ensures r < Pow2(l)
    decreases l
  {
    if l == 0 then 0 else (i % 2) * Pow2(l - 1) + Rev(i / 2, l - 1)
  }

  /** Reversal seen from the other end: the top bit of i becomes the bottom bit. */
  lemma {:induction false} RevTop(hi: nat, lo: nat, l: nat)
    requires l >= 1 && hi < 2 && lo < Pow2(l - 1)
    ensures Rev(hi * Pow2(l - 1) + lo, l) == 2 * Rev(lo, l - 1) + hi
  {
    hide Rev, Pow2;
    var i := hi * Pow2(l - 1) + lo;
    RevStep(i, l);
    if l >= 2 {
      Pow2Step(l - 2);
      TwiceOf(hi, Pow2(l - 2));
      TwiceOf(lo % 2, Pow2(l - 2));
      assert i % 2 == lo % 2 && i / 2 == hi * Pow2(l - 2) + lo / 2;
      RevTop(hi, lo / 2, l - 1);
      RevStep(lo, l - 1);
    } else {
      Pow2Step(0);
      RevStep(lo, 0);
      RevStep(hi, 0);
      assert lo == 0 && i == hi;
    }
  }

  lemma Pow2Step(l: nat)
    ensures Pow2(0) == 1 && Pow2(l + 1) == 2 * Pow2(l)
  {}

  lemma RevStep(i: int, l: nat)
    ensures Rev(i, 0) == 0
    ensures l > 0 ==> Rev(i, l) == (i % 2) * Pow2(l - 1) + Rev(i / 2, l - 1)
  {}

  lemma TwiceOf(x: int, n: int)
    ensures x * (2 * n) == 2 * (x * n)
  {}

  /** Reversing twice gives the index back. */
  lemma {:induction false} RevInvolution(i: nat, l: nat)
    requires i < Pow2(l)
    ensures Rev(Rev(i, l), l) == i
  {
    if l > 0 {
      RevInvolution(i / 2, l - 1);
      RevTop(i % 2, Rev(i / 2, l - 1), l);
    }
  }
}

module Roots {
  import opened Residues
  import opened Products
  import opened Sums
  import opened Powers
  import opened PowersOfTwo

  /** w has order 2^l in the sense the transforms need: half way round it is minus one. */
  ghost predicate IsRoot(w: int, l: nat) {
    if l == 0 then M(w) == 1 else M(Pow(w, Pow2(l - 1))) == M(-1)
  }

  lemma RootSquare(w: int, l: nat)
    requires l >= 1 && IsRoot(w, l)
    ensures IsRoot(w * w, l - 1)
  {
    if l == 1 {
      assert Pow(w, 1) == w * Pow(w, 0) == w;
      CongMul(w, -1, w, -1);
    } else {
      PowMul(w, 2, Pow2(l - 2));
      assert Pow(w, 2) == w * Pow(w, 1) && Pow(w, 1) == w * Pow(w, 0);
    }
  }

  lemma RootFull(w: int, l: nat)
    requires IsRoot(w, l)
    ensures M(Pow(w, Pow2(l))) == 1
  {
    if l == 0 {
      assert Pow(w, 1) == w * Pow(w, 0);
    } else {
      var h := Pow(w, Pow2(l - 1));
      PowAdd(w, Pow2(l - 1), Pow2(l - 1));
      CongMul(h, -1, h, -1);
    }
  }

  lemma RootInverse(w: int, v: int, l: nat)
    requires IsRoot(w, l) && M(w * v) == 1
    ensures IsRoot(v, l)
  {
    if l == 0 {
      CongMul(w, 1, v, v);
    } else {
      var e := Pow2(l - 1);
      PowBase(w, v, e);
      PowCong(w * v, 1, e);
      PowOne(e);
      CongMul(Pow(w, e), -1, Pow(v, e), Pow(v, e));
      assert M(-Pow(v, e)) == M(1);
      CongSub(0, 0, -Pow(v, e), 1);
    }
  }

  /** (-1)^t */
  function Sign(t: int): int {
    if t % 2 == 0 then 1 else -1
  }

  lemma HalfPower(w: int, l: nat, t: int)
    requires l >= 1 && IsRoot(w, l) && t >= 0
    ensures M(Pow(w, Pow2(l - 1) * t)) == M(Sign(t))
  {
    var h := Pow2(l - 1);
    PowMul(w, h, t);
    PowCong(Pow(w, h), -1, t);
    PowMinusOne(t);
  }

  /** Half a period more multiplies w^(t*k) by (-1)^t. */
  lemma HalfTurn(w: int, l: nat, t: int, k: int)
    requires l >= 1 && IsRoot(w, l) && t >= 0 && k >= 0
    ensures M(Pow(w, Pow2(l - 1) * t + t * k)) == M(Sign(t) * Pow(w, t * k))
  {
    var h := Pow2(l - 1);
    NonNegative(t, k);
    NonNegative(h, t);
    PowAdd(w, h * t, t * k);
    HalfPower(w, l, t);
    CongMul(Pow(w, h * t), Sign(t), Pow(w, t * k), Pow(w, t * k));
  }

  lemma PowSquare(w: int, e: int)
    requires e >= 0
    ensures Pow(w, 2 * e) == Pow(w * w, e)
  {
    PowMul(w, 2, e);
    assert Pow(w, 2) == w * Pow(w, 1) && Pow(w, 1) == w * Pow(w, 0);
  }

  lemma HalfSums(w: int, l: nat, t: nat)
    requires l >= 1 && IsRoot(w, l)
    ensures M(Sum(Pow2(l), k => Pow(w, t * k))) == M((1 + Sign(t)) * Sum(Pow2(l - 1), k => Pow(w, t * k)))
  {
    hide Sum, Pow;
    var f := k => Pow(w, t * k);
    var h, s := Pow2(l - 1), Sign(t);
    SumSplit(h, h, f);
    forall k | 0 <= k < h ensures M(f(h + k)) == M(s * f(k)) {
      Distribute(t, h + k, h, k);
      HalfTurn(w, l, t, k);
    }
    SumCong(h, k => f(h + k), k => s * f(k));
    SumScale(h, s, f);
    CongAdd(Sum(h, f), Sum(h, f), Sum(h, k => f(h + k)), s * Sum(h, f));
    Distribute(Sum(h, f), 1 + s, 1, s);
  }

  lemma SquareSum(w: int, n: nat, u: nat)
    ensures Sum(n, k => Pow(w, 2 * u * k)) == Sum(n, k => Pow(w * w, u * k))
  {
    forall k | 0 <= k < n ensures Pow(w, 2 * u * k) == Pow(w * w, u * k) {
      Associate(2, u, k);
      NonNegative(u, k);
      PowSquare(w, u * k);
    }
    SumExt(n, k => Pow(w, 2 * u * k), k => Pow(w * w, u * k));
  }

  /** The powers w^(t*k) over a whole period cancel unless they are all one. */
  lemma {:induction false} PeriodSum(w: int, l: nat, t: nat)
    requires IsRoot(w, l) && t < Pow2(l)
    ensures M(Sum(Pow2(l), k => Pow(w, t * k))) == M(if t == 0 then Pow2(l) else 0)
    decreases l
  {
    if t == 0 {
      SumOnes(Pow2(l), k => Pow(w, t * k));
    } else {
      HalfSums(w, l, t);
      var s := Sum(Pow2(l - 1), k => Pow(w, t * k));
      if t % 2 == 0 {
        var u := t / 2;
        assert t == 2 * u;
        RootSquare(w, l);
        PeriodSum(w * w, l - 1, u);
        SquareSum(w, Pow2(l - 1), u);
        assert s == Sum(Pow2(l - 1), k => Pow(w, 2 * u * k));
        assert (1 + Sign(t)) * s == s + s;
        CongAdd(s, 0, s, 0);
      } else {
        assert (1 + Sign(t)) * s == 0;
      }
    }
  }

  lemma SumOnes(n: nat, f: int -> int)
    requires forall i :: 0 <= i < n ==> f(i) == 1
    ensures Sum(n, f) == n
  {
    if n > 0 { SumOnes(n - 1, f); }
  }

  /** Powers of a root and of its inverse at the same exponent cancel. */
  lemma PowCancel(w: int, v: int, a: int, e: int)
    requires M(w * v) == 1 && a >= 0 && e >= 0
    ensures M(Pow(w, a + e) * Pow(v, e)) == M(Pow(w, a))
  {
    PowAdd(w, a, e);
    PowBase(w, v, e);
    PowCong(w * v, 1, e);
    PowOne(e);
    var x := Pow(w, a);
    assert Pow(w, a + e) * Pow(v, e) == x * (Pow(w, e) * Pow(v, e));
    CongScale(Pow(w * v, e), 1, x);
  }

  lemma Orthogonal(w: int, v: int, l: nat, a: nat, b: nat)
    requires IsRoot(w, l) && M(w * v) == 1 && a < Pow2(l) && b < Pow2(l)
    ensures M(Sum(Pow2(l), k => Pow(w, a * k) * Pow(v, b * k))) == M(if a == b then Pow2(l) else 0)
  {
    if a >= b {
      OrthogonalOrdered(w, v, l, a, b);
    } else {
      RootInverse(w, v, l);
      assert w * v == v * w;
      OrthogonalOrdered(v, w, l, b, a);
      SumExt(Pow2(l), k => Pow(w, a * k) * Pow(v, b * k), k => Pow(v, b * k) * Pow(w, a * k));
    }
  }

  lemma OrthogonalOrdered(w: int, v: int, l: nat, a: nat, b: nat)
    requires IsRoot(w, l) && M(w * v) == 1 && b <= a < Pow2(l)
    ensures M(Sum(Pow2(l), k => Pow(w, a * k) * Pow(v, b * k))) == M(if a == b then Pow2(l) else 0)
  {
    forall k | 0 <= k < Pow2(l)
      ensures M(Pow(w, a * k) * Pow(v, b * k)) == M(Pow(w, (a - b) * k))
    {
      Distribute(k, a, a - b, b);
      NonNegative(a - b, k);
      NonNegative(b, k);
      PowCancel(w, v, (a - b) * k, b * k);
    }
    SumCong(Pow2(l), k => Pow(w, a * k) * Pow(v, b * k), k => Pow(w, (a - b) * k));
    PeriodSum(w, l, a - b);
  }

  /** HALF^l is the inverse of 2^l. */
  lemma InverseSize(l: nat, x: int)
    ensures M(Pow(HALF, l) * (Pow2(l) * x)) == M(x)
  {
    if l > 0 {
      var y := Pow2(l - 1) * x;
      assert Pow2(l) * x == 2 * y;
      assert Pow(HALF, l) * (2 * y) == Pow(HALF, l - 1) * (HALF * (2 * y));
      HalfTwice(y);
      CongScale(HALF * (2 * y), y, Pow(HALF, l - 1));
      InverseSize(l - 1, x);
    }
  }
}
