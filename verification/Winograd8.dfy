/** The straight-line kernel for transforms of length eight. */
module Winograd8 {
  import opened Residues
  import opened Products
  import opened Sums
  import opened Powers
  import opened FourierTransform

  lemma AddCong(a: int, x: int, b: int, y: int)
    requires M(a) == M(x) && M(b) == M(y)
    ensures M(M(a + b)) == M(x + y) && M(M(a - b)) == M(x - y)
  {
    CongAdd(a, x, b, y);
    CongSub(a, x, b, y);
  }

  lemma MulCong(a: int, x: int, t: int)
    requires M(a) == M(x)
    ensures M(M(a * t)) == M(x * t)
  {
    CongMul(a, x, t, t);
  }

  function Plus(a: int, b: int, t: int): int { a + b * t }

  function Minus(a: int, b: int, t: int): int { a - b * t }

  function Both(p: int, q: int, t1: int, t2: int): int { (p + q) * t1 + (p - q) * t2 }

  function Cross(p: int, q: int, t1: int, t2: int): int { (p + q) * t1 - (p - q) * t2 }

  /** What the kernel leaves at each place, for its three constants. */
  function Kernel(x: int -> int, t0: int, t1: int, t2: int, k: int): int {
    var a, b, p, q := x(0) - x(4), x(2) - x(6), x(1) - x(5), x(3) - x(7);
    match k
    case 0 => (x(0) + x(4) + (x(2) + x(6))) + ((x(1) + x(5)) + (x(3) + x(7)))
    case 4 => (x(0) + x(4) + (x(2) + x(6))) - ((x(1) + x(5)) + (x(3) + x(7)))
    case 2 => Plus(x(0) + x(4) - (x(2) + x(6)), (x(1) + x(5)) - (x(3) + x(7)), t0)
    case 6 => Minus(x(0) + x(4) - (x(2) + x(6)), (x(1) + x(5)) - (x(3) + x(7)), t0)
    case 1 => Plus(a, b, t0) + Both(p, q, t1, t2)
    case 5 => Plus(a, b, t0) - Both(p, q, t1, t2)
    case 3 => Minus(a, b, t0) + Cross(p, q, t1, t2)
    case _ => Minus(a, b, t0) - Cross(p, q, t1, t2)
  }

  lemma TurnedSum(e: int, a: int, f: int, b: int, t: int)
    requires M(e) == M(a) && M(f) == M(b * t)
    ensures M(M(e + f)) == M(Plus(a, b, t)) && M(M(e - f)) == M(Minus(a, b, t))
  {
    hide M;
    AddCong(e, a, f, b * t);
  }

  lemma HalvesSum(e: int, f: int, p: int, q: int, t1: int, t2: int)
    requires M(e) == M((p + q) * t1) && M(f) == M((p - q) * t2)
    ensures M(M(e + f)) == M(Both(p, q, t1, t2)) && M(M(e - f)) == M(Cross(p, q, t1, t2))
  {
    hide M;
    AddCong(e, (p + q) * t1, f, (p - q) * t2);
  }

  /** The eight elements are updated in the source's order; T is its temporary. */
  method Ntt8(x: seq<Zq>, t0: Zq, t1: Zq, t2: Zq) returns (y: seq<Zq>)
    requires |x| == 8
    ensures |y| == 8
    ensures forall k :: 0 <= k < 8 ==> M(y[k]) == M(Kernel(i => if 0 <= i < 8 then x[i] else 0, t0, t1, t2, k))
  {
    hide M, Both, Cross, Plus, Minus;
    var e0, e1, e2, e3, e4, e5, e6, e7 := x[0], x[1], x[2], x[3], x[4], x[5], x[6], x[7];
    ghost var x0, x1, x2, x3: int := x[0], x[1], x[2], x[3];
    ghost var x4: int, x5: int, x6: int, x7: int := x[4], x[5], x[6], x[7];
    var T: Zq := M(e3 - e7);
    AddCong(e3, x3, e7, x7);
    e7 := M(e3 + e7);
    AddCong(e1, x1, e5, x5);
    e3 := M(e1 - e5);
    e5 := M(e1 + e5);
    AddCong(e2, x2, e6, x6);
    e1 := M(e2 + e6);
    e2 := M(e2 - e6);
    AddCong(e0, x0, e4, x4);
    e6 := M(e0 + e4);
    e0 := M(e0 - e4);
    MulCong(e2, x2 - x6, t0);
    e2 := M(e2 * t0);
    AddCong(e6, x0 + x4, e1, x2 + x6);
    e4 := M(e6 + e1);
    e6 := M(e6 - e1);
    AddCong(e3, x1 - x5, T, x3 - x7);
    e1 := M(e3 + T);
    e3 := M(e3 - T);
    AddCong(e5, x1 + x5, e7, x3 + x7);
    T := M(e5 + e7);
    e5 := M(e5 - e7);
    TurnedSum(e0, x0 - x4, e2, x2 - x6, t0);
    e7 := M(e0 + e2);
    e0 := M(e0 - e2);
    MulCong(e1, x1 - x5 + (x3 - x7), t1);
    e1 := M(e1 * t1);
    MulCong(e5, x1 + x5 - (x3 + x7), t0);
    e5 := M(e5 * t0);
    MulCong(e3, x1 - x5 - (x3 - x7), t2);
    e3 := M(e3 * t2);
    ghost var p, q := x1 - x5, x3 - x7;
    ghost var u, v := Plus(x0 - x4, x2 - x6, t0), Minus(x0 - x4, x2 - x6, t0);
    TurnedSum(e6, x0 + x4 - (x2 + x6), e5, x1 + x5 - (x3 + x7), t0);
    e2 := M(e6 + e5);
    e6 := M(e6 - e5);
    HalvesSum(e1, e3, p, q, t1, t2);
    e5 := M(e1 + e3);
    e3 := M(e1 - e3);
    AddCong(e7, u, e5, Both(p, q, t1, t2));
    e1 := M(e7 + e5);
    e5 := M(e7 - e5);
    AddCong(e0, v, e3, Cross(p, q, t1, t2));
    e7 := M(e0 - e3);
    e3 := M(e0 + e3);
    AddCong(e4, x0 + x4 + (x2 + x6), T, x1 + x5 + (x3 + x7));
    e0 := M(e4 + T);
    e4 := M(e4 - T);
    y := [e0, e1, e2, e3, e4, e5, e6, e7];
  }

  /** Powers of w up to the period, when w^4 is minus one. */
  function Unit(w: int, r: int): int {
    match r
    case 0 => 1
    case 1 => w
    case 2 => w * w
    case 3 => w * w * w
    case 4 => -1
    case 5 => -w
    case 6 => -(w * w)
    case _ => -(w * w * w)
  }

  lemma FirstPowers(w: int)
    ensures Pow(w, 0) == 1 && Pow(w, 1) == w && Pow(w, 2) == w * w && Pow(w, 3) == w * w * w
  {
    assert Pow(w, 0) == 1;
    assert Pow(w, 1) == w * Pow(w, 0);
    assert Pow(w, 2) == w * Pow(w, 1);
    assert Pow(w, 3) == w * Pow(w, 2);
  }

  lemma UnitPower(w: int, r: nat)
    requires M(Pow(w, 4)) == M(-1) && r < 8
    ensures M(Pow(w, r)) == M(Unit(w, r))
  {
    hide Pow;
    FirstPowers(w);
    if r >= 4 {
      PowAdd(w, 4, r - 4);
      CongMul(Pow(w, 4), -1, Pow(w, r - 4), Pow(w, r - 4));
    }
  }

  lemma FullTurn(w: int, e: nat)
    requires M(Pow(w, 4)) == M(-1) && e >= 8
    ensures M(Pow(w, e)) == M(Pow(w, e - 8))
  {
    hide Pow;
    PowAdd(w, 4, e - 4);
    PowAdd(w, 4, e - 8);
    TwiceNegated(Pow(w, 4), Pow(w, e - 8), Pow(w, e - 4), Pow(w, e));
  }

  lemma PeriodicPower(w: int, e: nat)
    requires M(Pow(w, 4)) == M(-1)
    ensures M(Pow(w, e)) == M(Unit(w, e % 8))
    decreases e
  {
    hide Pow, Unit;
    if e < 8 {
      UnitPower(w, e);
    } else {
      PeriodicPower(w, e - 8);
      FullTurn(w, e);
      assert e % 8 == (e - 8) % 8;
    }
  }

  lemma TwiceNegated(m: int, x: int, y: int, z: int)
    requires M(m) == M(-1) && y == m * x && z == m * y
    ensures M(z) == M(x)
  {
    CongMul(m, -1, x, x);
    CongMul(m, -1, y, y);
    OppositeTwice(-1 * x, -1 * y, x, y, z);
  }

  lemma OppositeTwice(u: int, v: int, x: int, y: int, z: int)
    requires u == -x && v == -y && M(y) == M(u) && M(z) == M(v)
    ensures M(z) == M(x)
  {}

  function Unrolled(w: int, x: int -> int, k: int): int {
    x(0) * Unit(w, 0) + x(1) * Unit(w, k % 8) + x(2) * Unit(w, 2 * k % 8) + x(3) * Unit(w, 3 * k % 8)
      + x(4) * Unit(w, 4 * k % 8) + x(5) * Unit(w, 5 * k % 8) + x(6) * Unit(w, 6 * k % 8) + x(7) * Unit(w, 7 * k % 8)
  }

  lemma EightTerms(f: int -> int)
    ensures Sum(8, f) == f(0) + f(1) + f(2) + f(3) + f(4) + f(5) + f(6) + f(7)
  {
    hide Sum;
    SumStep(8, f);
    SumStep(7, f);
    SumStep(6, f);
    SumStep(5, f);
    SumStep(4, f);
    SumStep(3, f);
    SumStep(2, f);
    SumStep(1, f);
  }

  lemma DftUnrolled(w: int, x: int -> int, k: nat)
    requires M(Pow(w, 4)) == M(-1) && k < 8
    ensures M(Dft(w, 8, x, k)) == M(Unrolled(w, x, k))
  {
    hide Sum, Pow, Unit;
    var f, g := Pointwise(x, DftKernel(w, k)), j => x(j) * Unit(w, j * k % 8);
    forall j | 0 <= j < 8 ensures M(f(j)) == M(g(j)) {
      PeriodicPower(w, j * k);
      CongScale(Pow(w, j * k), Unit(w, j * k % 8), x(j));
    }
    SumCong(8, f, g);
    UnrolledSum(w, x, k);
    SumExt(8, g, j => x(j) * Unit(w, j * k % 8));
  }

  lemma UnrolledSum(w: int, x: int -> int, k: nat)
    ensures Sum(8, j => x(j) * Unit(w, j * k % 8)) == Unrolled(w, x, k)
  {
    hide Sum, Unit;
    var g := j => x(j) * Unit(w, j * k % 8);
    EightTerms(g);
    assert g(0) == x(0) * Unit(w, 0 * k % 8) && 0 * k % 8 == 0;
    assert g(1) == x(1) * Unit(w, 1 * k % 8) && 1 * k == k;
  }

  lemma Difference(a: int, b: int, c: int)
    ensures (a - b) * c == a * c - b * c
  {}

  lemma Total(a: int, b: int, c: int)
    ensures (a + b) * c == a * c + b * c
  {}

  lemma Halves(p: int, q: int, t1: int, t2: int, w: int, w3: int)
    requires M(t1 + t2) == M(w) && M(t1 - t2) == M(w3)
    ensures M(Both(p, q, t1, t2)) == M(p * w + q * w3)
    ensures M(Cross(p, q, t1, t2)) == M(p * w3 + q * w)
  {
    CongScale(t1 + t2, w, p);
    CongScale(t1 - t2, w3, q);
    CongScale(t1 - t2, w3, p);
    CongScale(t1 + t2, w, q);
    Expanded(p, q, t1, t2);
    CongAdd(p * (t1 + t2), p * w, q * (t1 - t2), q * w3);
    CongAdd(p * (t1 - t2), p * w3, q * (t1 + t2), q * w);
  }

  lemma Expanded(p: int, q: int, t1: int, t2: int)
    ensures Both(p, q, t1, t2) == p * (t1 + t2) + q * (t1 - t2)
    ensures Cross(p, q, t1, t2) == p * (t1 - t2) + q * (t1 + t2)
  {
    Distribute(p, t1 + t2, t1, t2);
    Distribute(q, t1 + t2, t1, t2);
    Distribute(t1, p + q, p, q);
    assert p * (t1 - t2) == p * t1 - p * t2 && q * (t1 - t2) == q * t1 - q * t2 && (p - q) * t2 == p * t2 - q * t2;
  }

  /** The constants of the kernel for the root w. */
  ghost predicate Constants(w: int, t0: int, t1: int, t2: int) {
    M(t0) == M(w * w) && M(t1 + t2) == M(w) && M(t1 - t2) == M(w * w * w)
  }

  lemma Linear(a: int, b: int, t: int, w2: int)
    requires M(t) == M(w2)
    ensures M(Plus(a, b, t)) == M(Plus(a, b, w2)) && M(Minus(a, b, t)) == M(Minus(a, b, w2))
  {
    CongScale(t, w2, b);
    CongAdd(a, a, b * t, b * w2);
    CongSub(a, a, b * t, b * w2);
  }

  /** Places 1, 5, 3 and 7 in exact powers of w. */
  function OddValue(a: int, b: int, p: int, q: int, w: int, k: int): int {
    match k
    case 1 => Plus(a, b, w * w) + (p * w + q * (w * w * w))
    case 5 => Plus(a, b, w * w) - (p * w + q * (w * w * w))
    case 3 => Minus(a, b, w * w) + (p * (w * w * w) + q * w)
    case _ => Minus(a, b, w * w) - (p * (w * w * w) + q * w)
  }

  lemma OddPlaces(x: int -> int, w: int, t0: int, t1: int, t2: int, k: nat)
    requires Constants(w, t0, t1, t2) && k < 8 && k % 2 == 1
    ensures M(Kernel(x, t0, t1, t2, k)) == M(OddValue(x(0) - x(4), x(2) - x(6), x(1) - x(5), x(3) - x(7), w, k))
  {
    hide M, Plus, Minus, Both, Cross;
    var a, b, p, q, w2, w3 := x(0) - x(4), x(2) - x(6), x(1) - x(5), x(3) - x(7), w * w, w * w * w;
    Linear(a, b, t0, w2);
    Halves(p, q, t1, t2, w, w3);
    CongAdd(Plus(a, b, t0), Plus(a, b, w2), Both(p, q, t1, t2), p * w + q * w3);
    CongSub(Plus(a, b, t0), Plus(a, b, w2), Both(p, q, t1, t2), p * w + q * w3);
    CongAdd(Minus(a, b, t0), Minus(a, b, w2), Cross(p, q, t1, t2), p * w3 + q * w);
    CongSub(Minus(a, b, t0), Minus(a, b, w2), Cross(p, q, t1, t2), p * w3 + q * w);
  }

  lemma Negation(y: int, c: int)
    ensures y * -c == -(y * c)
  {}

  lemma OddUnrolled(x: int -> int, w: int, k: nat)
    requires k < 8 && k % 2 == 1
    ensures Unrolled(w, x, k) == OddValue(x(0) - x(4), x(2) - x(6), x(1) - x(5), x(3) - x(7), w, k)
  {
    hide OddValue, Unrolled;
    OddUnit(w, k);
    if k == 1 || k == 5 { OuterPlaces(x, w, k); } else { InnerPlaces(x, w, k); }
  }

  lemma OuterPlaces(x: int -> int, w: int, k: nat)
    requires k == 1 || k == 5
    ensures Unrolled(w, x, k) == OddValue(x(0) - x(4), x(2) - x(6), x(1) - x(5), x(3) - x(7), w, k)
  {
    var w2, w3 := w * w, w * w * w;
    Difference(x(2), x(6), w2);
    Negation(x(6), w2);
    Difference(x(1), x(5), w);
    Difference(x(3), x(7), w3);
    NegateOuter(x, w, w3);
  }

  lemma InnerPlaces(x: int -> int, w: int, k: nat)
    requires k == 3 || k == 7
    ensures Unrolled(w, x, k) == OddValue(x(0) - x(4), x(2) - x(6), x(1) - x(5), x(3) - x(7), w, k)
  {
    var w2, w3 := w * w, w * w * w;
    Difference(x(2), x(6), w2);
    Negation(x(2), w2);
    Difference(x(3), x(7), w);
    Difference(x(1), x(5), w3);
    NegateOuter(x, w3, w);
  }

  lemma NegateOuter(x: int -> int, u: int, v: int)
    ensures x(1) * -u == -(x(1) * u) && x(5) * -u == -(x(5) * u) && x(3) * -v == -(x(3) * v) && x(7) * -v == -(x(7) * v)
  {}

  lemma OddUnit(w: int, k: nat)
    requires k < 8 && k % 2 == 1
    ensures k == 1 || k == 3 || k == 5 || k == 7
  {}

  lemma EvenPlaces(x: int -> int, w: int, t0: int, t1: int, t2: int, k: nat)
    requires Constants(w, t0, t1, t2) && k < 8 && k % 2 == 0
    ensures M(Kernel(x, t0, t1, t2, k)) == M(Kernel(x, w * w, 0, 0, k))
  {
    hide M, Plus, Minus, Both, Cross;
    Linear(x(0) + x(4) - (x(2) + x(6)), (x(1) + x(5)) - (x(3) + x(7)), t0, w * w);
    assert k == 0 || k == 2 || k == 4 || k == 6;
  }

  lemma EvenUnrolled(x: int -> int, w: int, k: nat)
    requires k < 8 && k % 2 == 0
    ensures Unrolled(w, x, k) == Kernel(x, w * w, 0, 0, k)
  {
    hide Unrolled, Kernel;
    assert k == 0 || k == 2 || k == 4 || k == 6;
    if k == 0 || k == 4 { PlainPlaces(x, w, k); } else { TurnedPlaces(x, w, k); }
  }

  lemma PlainPlaces(x: int -> int, w: int, k: nat)
    requires k == 0 || k == 4
    ensures Unrolled(w, x, k) == Kernel(x, w * w, 0, 0, k)
  {}

  lemma TurnedPlaces(x: int -> int, w: int, k: nat)
    requires k == 2 || k == 6
    ensures Unrolled(w, x, k) == Kernel(x, w * w, 0, 0, k)
  {
    var w2 := w * w;
    NegateOuter(x, w2, w2);
    Difference(x(1) + x(5), x(3) + x(7), w2);
    Total(x(1), x(5), w2);
    Total(x(3), x(7), w2);
  }

  /** The kernel is the transform of length eight. */
  lemma KernelIsDft(x: int -> int, w: int, t0: int, t1: int, t2: int, k: nat)
    requires M(Pow(w, 4)) == M(-1) && Constants(w, t0, t1, t2) && k < 8
    ensures M(Kernel(x, t0, t1, t2, k)) == M(Dft(w, 8, x, k))
  {
    hide Kernel, Unrolled, Pow, Dft, M, OddValue;
    DftUnrolled(w, x, k);
    if k % 2 == 1 {
      OddPlaces(x, w, t0, t1, t2, k);
      OddUnrolled(x, w, k);
    } else {
      EvenPlaces(x, w, t0, t1, t2, k);
      EvenUnrolled(x, w, k);
    }
  }
}
