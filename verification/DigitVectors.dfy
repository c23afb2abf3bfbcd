/** Digit-major decomposition of vectors of polynomials, and weights that act on it. */
module DigitVectors {
  import opened Residues
  import opened Products
  import opened Sums
  import opened Powers
  import opened Arrays
  import opened BalancedDigits
  import opened DecompositionLoops
  import opened Transforms
  import opened Polynomials
  import opened Vectors
  import opened Packing
  import opened Constraints

  /** Digits per coefficient for this ring. */
  function Digits(base: nat): nat
    requires base >= 2
  {
    NofDigits(Q, base)
  }

  function DigitPoly(p: Poly, base: nat, j: int): Poly
    requires base >= 2
  {
    Tabulate(k => Digit(Rest(Centered(At(p, k), Q, base), base, j), base))
  }

  /** All polynomials' digit 0, then all their digits 1, and so on. */
  function DecomposeVec(v: seq<Poly>, base: nat, l: nat): (d: seq<Poly>)
    requires base >= 2
    ensures |d| == l * |v|
  {
    Grid(l, |v|, (j, x) => DigitPoly(PolyAt(v, x), base, j))
  }

  /** Coordinate k of the digits of entry x, by digit number. */
  function DigitSlots(d: seq<Poly>, size: nat, x: int, k: int): int -> int {
    j => Slot(d, j * size + x, k)
  }

  function BasePowers(base: int): int -> int {
    j => Pow(base, j)
  }

  function RecomposeVec(d: seq<Poly>, base: int, l: nat, size: nat): (v: seq<Poly>)
    ensures |v| == size
  {
    Vec(size, x => Tabulate(k => Sum(l, Pointwise(BasePowers(base), DigitSlots(d, size, x, k)))))
  }

  lemma DecomposeSlot(v: seq<Poly>, base: nat, l: nat, j: nat, x: nat, k: nat)
    requires base >= 2 && j < l && x < |v| && k < D
    ensures Slot(DecomposeVec(v, base, l), j * |v| + x, k)
         == M(Digit(Rest(Centered(Slot(v, x, k), Q, base), base, j), base))
  {
    hide Grid, Rest;
    GridAt(l, |v|, (j, x) => DigitPoly(PolyAt(v, x), base, j), j, x);
  }

  /** The loop over single residues stores exactly these coordinates. */
  lemma StoredDigits(v: seq<Poly>, base: nat, l: nat, j: nat, x: nat, k: nat)
    requires 2 <= base <= Q && j < l && x < |v| && k < D
    ensures Slot(DecomposeVec(v, base, l), j * |v| + x, k) == DigitOf(Slot(v, x, k), Q, base, j)
  {
    hide Rest, DecomposeVec;
    DecomposeSlot(v, base, l, j, x, k);
    DigitCarry(Rest(Centered(Slot(v, x, k), Q, base), base, j), base);
  }

  /** Recomposition undoes decomposition on every vector. */
  lemma VectorRoundTrip(v: seq<Poly>, base: nat)
    requires base >= 2
    ensures RecomposeVec(DecomposeVec(v, base, Digits(base)), base, Digits(base), |v|) == v
  {
    hide Sum, DecomposeVec, Digits, Slot;
    var l := Digits(base);
    var d := DecomposeVec(v, base, l);
    var w := RecomposeVec(d, base, l, |v|);
    forall x, k | 0 <= x < |v| && 0 <= k < D ensures Slot(w, x, k) == Slot(v, x, k) {
      RecomposeSlot(d, base, l, |v|, x, k);
      EntryRoundTrip(v, base, x, k);
    }
    VecExt(w, v);
  }

  lemma RecomposeSlot(d: seq<Poly>, base: int, l: nat, size: nat, x: nat, k: nat)
    requires x < size && k < D
    ensures Slot(RecomposeVec(d, base, l, size), x, k)
         == M(Sum(l, Pointwise(BasePowers(base), DigitSlots(d, size, x, k))))
  {
    hide Sum;
  }

  lemma EntryRoundTrip(v: seq<Poly>, base: nat, x: nat, k: nat)
    requires base >= 2 && x < |v| && k < D
    ensures M(Sum(Digits(base), Pointwise(BasePowers(base),
                                          DigitSlots(DecomposeVec(v, base, Digits(base)), |v|, x, k))))
         == Slot(v, x, k)
  {
    hide Sum, Pow, Rest, DecomposeVec, NofDigits, Slot;
    var l := Digits(base);
    var d, c := DecomposeVec(v, base, l), Centered(Slot(v, x, k), Q, base);
    var f, g := Pointwise(BasePowers(base), DigitSlots(d, |v|, x, k)), DigitTerms(c, base);
    forall j | 0 <= j < l ensures M(f(j)) == M(g(j)) {
      DecomposeSlot(v, base, l, j, x, k);
      CongScale(Slot(d, j * |v| + x, k), Digit(Rest(c, base, j), base), Pow(base, j));
    }
    SumCong(l, f, g);
    RoundTrip(Slot(v, x, k), Q, base);
  }

  /** What l digits of an entry lose: base^l times the carry that is left. */
  function Lost(x: Zq, base: nat, l: nat): int
    requires base >= 2
  {
    Pow(base, l) * Rest(Centered(x, Q, base), base, l)
  }

  /** Any number of digits recompose to the entry less what is lost. */
  lemma PartialRoundTrip(v: seq<Poly>, base: nat, l: nat, x: nat, k: nat)
    requires base >= 2 && x < |v| && k < D
    ensures Slot(RecomposeVec(DecomposeVec(v, base, l), base, l, |v|), x, k)
         == M(Slot(v, x, k) - Lost(Slot(v, x, k), base, l))
  {
    hide Sum, Pow, Rest, DecomposeVec, Slot, RecomposeVec, Centered;
    var d, c := DecomposeVec(v, base, l), Centered(Slot(v, x, k), Q, base);
    RecomposeSlot(d, base, l, |v|, x, k);
    var f, g := Pointwise(BasePowers(base), DigitSlots(d, |v|, x, k)), DigitTerms(c, base);
    forall j | 0 <= j < l ensures M(f(j)) == M(g(j)) {
      DecomposeSlot(v, base, l, j, x, k);
      CongScale(Slot(d, j * |v| + x, k), Digit(Rest(c, base, j), base), Pow(base, j));
    }
    SumCong(l, f, g);
    DigitsValue(c, base, l);
    CenteredResidue(Slot(v, x, k), Q, base);
    CongSub(c, Slot(v, x, k), Lost(Slot(v, x, k), base, l), Lost(Slot(v, x, k), base, l));
  }

  /** l digits recompose to the vector exactly when nothing is lost of any coefficient, modulo q. */
  lemma RecomposesIff(v: seq<Poly>, base: nat, l: nat)
    requires base >= 2
    ensures RecomposeVec(DecomposeVec(v, base, l), base, l, |v|) == v
       <==> forall x, k :: 0 <= x < |v| && 0 <= k < D ==> M(Lost(Slot(v, x, k), base, l)) == 0
  {
    hide DecomposeVec, RecomposeVec, Slot, Lost;
    var w := RecomposeVec(DecomposeVec(v, base, l), base, l, |v|);
    forall x, k | 0 <= x < |v| && 0 <= k < D
      ensures Slot(w, x, k) == Slot(v, x, k) <==> M(Lost(Slot(v, x, k), base, l)) == 0
    {
      PartialRoundTrip(v, base, l, x, k);
      NothingLost(Slot(v, x, k), Lost(Slot(v, x, k), base, l));
    }
    if forall x, k :: 0 <= x < |v| && 0 <= k < D ==> M(Lost(Slot(v, x, k), base, l)) == 0 { VecExt(w, v); }
  }

  lemma NothingLost(x: Zq, y: int)
    ensures M(x - y) == x <==> M(y) == 0
  {
    if M(x - y) == x {
      var j, i := (x - y) / Q, y / Q;
      assert x - y == Q * j + x && y == Q * i + M(y);
    }
  }

  /** The transform commutes with recomposition. */
  lemma NttRecompose(d: seq<Poly>, base: int, l: nat, size: nat, x: nat, k: nat)
    requires x < size && k < D && |d| == l * size
    ensures Slot(NttVec(RecomposeVec(d, base, l, size)), x, k)
         == M(Sum(l, Pointwise(BasePowers(base), DigitSlots(NttVec(d), size, x, k))))
  {
    hide Sum, Ntt, Pow;
    var c, a, w := PolyAt(RecomposeVec(d, base, l, size), x), j => PolyAt(d, j * size + x), BasePowers(base);
    forall i | 0 <= i < D ensures At(c, i) == M(Sum(l, j => w(j) * At(a(j), i))) {
      SumExt(l, Pointwise(w, DigitSlots(d, size, x, i)), j => w(j) * At(a(j), i));
    }
    NttSum(l, w, a, c);
    var f, g := j => w(j) * At(Ntt(a(j)), k), Pointwise(w, DigitSlots(NttVec(d), size, x, k));
    forall j | 0 <= j < l ensures f(j) == g(j) {
      RowMajor(j, x, l, size);
    }
    SumExt(l, f, g);
    assert At(Ntt(c), k) == M(Sum(l, f));
  }

  /** w scaled by the j-th power of the base, one multiplication at a time. */
  function Scaled(w: seq<Poly>, base: int, j: nat): (v: seq<Poly>)
    ensures |v| == |w|
  {
    if j == 0 then w else VecScale(base, Scaled(w, base, j - 1))
  }

  /** [w | base*w | base^2*w | ...]: the coefficients that see through a digit-major vector. */
  function DigitWeights(w: seq<Poly>, base: int, l: nat): (v: seq<Poly>)
    ensures |v| == l * |w|
  {
    if l == 0 then []
    else DigitWeights(w, base, l - 1) + Scaled(w, base, l - 1)
  }

  lemma ScaledSlot(w: seq<Poly>, base: int, j: nat, x: nat, k: nat)
    requires x < |w| && k < D
    ensures M(Slot(Scaled(w, base, j), x, k)) == M(Pow(base, j) * Slot(w, x, k))
  {
    hide Pow, Slot;
    if j > 0 {
      ScaledSlot(w, base, j - 1, x, k);
      ScaledNext(w, base, j, x, k);
      ScaledPower(base, j, Slot(Scaled(w, base, j - 1), x, k), Slot(w, x, k), Slot(Scaled(w, base, j), x, k));
    } else {
      PowStep(base, 0);
    }
  }

  lemma ScaledNext(w: seq<Poly>, base: int, j: nat, x: nat, k: nat)
    requires j > 0 && x < |w| && k < D
    ensures Slot(Scaled(w, base, j), x, k) == M(base * Slot(Scaled(w, base, j - 1), x, k))
  {}

  lemma ScaledPower(base: int, j: nat, y: int, s: int, z: int)
    requires j > 0 && M(y) == M(Pow(base, j - 1) * s) && z == M(base * y)
    ensures M(z) == M(Pow(base, j) * s)
  {
    hide Pow;
    PowStep(base, j);
    CongScale(y, Pow(base, j - 1) * s, base);
    Associate(base, Pow(base, j - 1), s);
  }

  lemma {:induction false} WeightSlot(w: seq<Poly>, base: int, l: nat, j: nat, x: nat, k: nat)
    requires j < l && x < |w| && k < D
    ensures 0 <= j * |w| && j * |w| + x < |DigitWeights(w, base, l)|
    ensures M(Slot(DigitWeights(w, base, l), j * |w| + x, k)) == M(Pow(base, j) * Slot(w, x, k))
  {
    hide Scaled, Pow;
    RowMajor(j, x, l, |w|);
    if j < l - 1 {
      WeightSlot(w, base, l - 1, j, x, k);
    } else {
      ScaledSlot(w, base, j, x, k);
    }
  }

  /** The digits of entry x put back together, before reduction. */
  function Recomposed(v: seq<Poly>, base: int, l: nat, size: nat, k: int): int -> int {
    x => Sum(l, Pointwise(BasePowers(base), DigitSlots(v, size, x, k)))
  }

  /** Weights times digits is the original coefficients times the recomposed entries. */
  lemma WeightsDot(w: seq<Poly>, v: seq<Poly>, base: int, l: nat, k: nat)
    requires k < D
    ensures l * |w| >= 0
    ensures M(Dot(DigitWeights(w, base, l), v, l * |w|, k))
         == M(Sum(|w|, Pointwise(Slots(w, k), Recomposed(v, base, l, |w|, k))))
  {
    hide Sum, Slot, DigitWeights, Pow;
    var n := |w|;
    var f, u := Pointwise(Slots(DigitWeights(w, base, l), k), Slots(v, k)),
                (j, x) => Pow(base, j) * Slot(w, x, k) * Slot(v, j * n + x, k);
    SumFlatten(l, n, f);
    var rows, urows := j => Sum(n, x => f(j * n + x)), j => Sum(n, x => u(j, x));
    forall j | 0 <= j < l ensures M(rows(j)) == M(urows(j)) {
      WeightRow(w, v, base, l, j, k, f, u);
    }
    SumCong(l, rows, urows);
    SumSwap(l, n, u);
    var cols, g := x => Sum(l, j => u(j, x)), Pointwise(Slots(w, k), Recomposed(v, base, l, n, k));
    forall x | 0 <= x < n ensures cols(x) == g(x) {
      WeightColumn(w, v, base, l, x, k, u);
    }
    SumExt(n, cols, g);
  }

  lemma WeightRow(w: seq<Poly>, v: seq<Poly>, base: int, l: nat, j: nat, k: nat, f: int -> int, u: (int, int) -> int)
    requires j < l && k < D
    requires f == Pointwise(Slots(DigitWeights(w, base, l), k), Slots(v, k))
    requires forall x :: u(j, x) == Pow(base, j) * Slot(w, x, k) * Slot(v, j * |w| + x, k)
    ensures M(Sum(|w|, x => f(j * |w| + x))) == M(Sum(|w|, x => u(j, x)))
  {
    hide Sum, Slot, DigitWeights, Pow;
    var a, b := x => f(j * |w| + x), x => u(j, x);
    forall x | 0 <= x < |w| ensures M(a(x)) == M(b(x)) {
      WeightSlot(w, base, l, j, x, k);
      var y := Slot(v, j * |w| + x, k);
      CongMul(Slot(DigitWeights(w, base, l), j * |w| + x, k), Pow(base, j) * Slot(w, x, k), y, y);
    }
    SumCong(|w|, a, b);
  }

  lemma WeightColumn(w: seq<Poly>, v: seq<Poly>, base: int, l: nat, x: nat, k: nat, u: (int, int) -> int)
    requires forall j :: u(j, x) == Pow(base, j) * Slot(w, x, k) * Slot(v, j * |w| + x, k)
    ensures Sum(l, j => u(j, x)) == Slot(w, x, k) * Recomposed(v, base, l, |w|, k)(x)
  {
    hide Sum, Slot, Pow;
    var t := Pointwise(BasePowers(base), DigitSlots(v, |w|, x, k));
    SumScale(l, Slot(w, x, k), t);
    var a, b := j => u(j, x), j => Slot(w, x, k) * t(j);
    forall j | 0 <= j < l ensures a(j) == b(j) {
      assert Pow(base, j) * Slot(w, x, k) == Slot(w, x, k) * Pow(base, j);
      Associate(Slot(w, x, k), Pow(base, j), Slot(v, j * |w| + x, k));
    }
    SumExt(l, a, b);
  }

  /** Weights times digits is an inner product with the transformed recomposition. */
  lemma WeightsSeeThrough(w: seq<Poly>, d: seq<Poly>, base: int, l: nat, k: nat)
    requires k < D && |d| == l * |w|
    ensures M(Dot(DigitWeights(w, base, l), NttVec(d), |d|, k))
         == M(Dot(w, NttVec(RecomposeVec(d, base, l, |w|)), |w|, k))
  {
    hide Sum, Slot, DigitWeights, Pow, RecomposeVec, NttVec;
    WeightsDot(w, NttVec(d), base, l, k);
    var v := NttVec(RecomposeVec(d, base, l, |w|));
    var f, g := Pointwise(Slots(w, k), Recomposed(NttVec(d), base, l, |w|, k)), Pointwise(Slots(w, k), Slots(v, k));
    forall x | 0 <= x < |w| ensures M(f(x)) == M(g(x)) {
      NttRecompose(d, base, l, |w|, x, k);
      CongScale(Recomposed(NttVec(d), base, l, |w|, k)(x), Slot(v, x, k), Slot(w, x, k));
    }
    SumCong(|w|, f, g);
  }
}
