/** The next round's constraints hold of the packed witness exactly when the base proof checks. */
module LinearMeaning {
  import opened Residues
  import opened Products
  import opened Sums
  import opened Powers
  import opened Arrays
  import opened Transforms
  import opened Polynomials
  import opened Vectors
  import opened Packing
  import opened Constraints
  import opened DigitVectors
  import opened Layout
  import opened Parameters
  import opened BaseChecks
  import opened Recursion

  lemma NttZero()
    ensures Ntt(ZERO) == ZERO
  {
    hide Sum, Ntt;
    var w, a := j => 0, j => ZERO;
    forall i | 0 <= i < D ensures At(ZERO, i) == M(Sum(0, j => w(j) * At(a(j), i))) {
      SumStep(0, j => w(j) * At(a(j), i));
    }
    NttSum(0, w, a, ZERO);
    forall k | 0 <= k < D ensures At(Ntt(ZERO), k) == At(ZERO, k) {
      SumStep(0, j => w(j) * At(Ntt(a(j)), k));
      assert At(Ntt(ZERO), k) == M(Sum(0, j => w(j) * At(Ntt(a(j)), k)));
    }
    PolyExt(Ntt(ZERO), ZERO);
  }

  lemma NttConcat(u: seq<Poly>, v: seq<Poly>)
    ensures NttVec(u + v) == NttVec(u) + NttVec(v)
  {
    hide Ntt;
    forall i | 0 <= i < |u + v| ensures NttVec(u + v)[i] == (NttVec(u) + NttVec(v))[i] {}
  }

  lemma NttPad(v: seq<Poly>, w: nat)
    requires |v| <= w
    ensures NttVec(Pad(v, w)) == Pad(NttVec(v), w)
  {
    hide Ntt;
    NttConcat(v, Zeros(w - |v|));
    NttZero();
    assert NttVec(Zeros(w - |v|)) == Zeros(w - |v|);
  }

  /** Packing and transforming may be done in either order. */
  lemma NttPacked(pr: Preparer, w: Parts)
    requires Fits(pr) && Shaped(pr, w)
    ensures NttVec(Packed(pr, w)) == Packed(pr, NttParts(w))
  {
    hide NttVec, Packed, Pad;
    PackedConcat(pr, w);
    PackedConcat(pr, NttParts(w));
    var m := pr.nPrime;
    var a, b, c, d, e := Pad(w.z0, pr.nu * m), Pad(w.z1, pr.nu * m), Pad(w.t, pr.lt * m), Pad(w.g, pr.lg * m),
                         Pad(w.h, pr.lh * m);
    NttConcat(a + b + c + d, e);
    NttConcat(a + b + c, d);
    NttConcat(a + b, c);
    NttConcat(a, b);
    NttPad(w.z0, pr.nu * m);
    NttPad(w.z1, pr.nu * m);
    NttPad(w.t, pr.lt * m);
    NttPad(w.g, pr.lg * m);
    NttPad(w.h, pr.lh * m);
  }

  lemma DotZeros(m: nat, v: seq<Poly>, n: nat, k: int)
    ensures Dot(Zeros(m), v, n, k) == 0
  {
    hide Sum;
    SumZero(n, Pointwise(Slots(Zeros(m), k), Slots(v, k)));
  }

  /** A constraint without quadratic part evaluates to its five regional inner products and b. */
  lemma LinearEval(pr: Preparer, parts: Parts, b: Poly, s: Parts, k: int)
    requires Fits(pr) && Shaped(pr, parts) && Shaped(pr, s)
    ensures EvalAt(LinearConstraint(pr, parts, b), Packed(pr, s), k) == PartsDot(pr, parts, s, k) + At(b, k)
  {
    hide Dot, Packed, GramMatrix;
    DotZeros(pr.rPrime * pr.rPrime, GramMatrix(Packed(pr, s), pr.rPrime, pr.nPrime), pr.rPrime * pr.rPrime, k);
    PackedDot(pr, parts, s, k);
  }

  /** The witness of the next round, as values. */
  function Witness(pr: Preparer, w: Parts): seq<Poly>
    requires Fits(pr) && Shaped(pr, w)
  {
    NttVec(Packed(pr, w))
  }

  lemma WitnessEval(pr: Preparer, parts: Parts, b: Poly, w: Parts, k: int)
    requires Fits(pr) && Shaped(pr, parts) && Shaped(pr, w)
    ensures EvalAt(LinearConstraint(pr, parts, b), Witness(pr, w), k) == PartsDot(pr, parts, NttParts(w), k) + At(b, k)
  {
    hide EvalAt, NttVec, Packed, PartsDot;
    NttPacked(pr, w);
    LinearEval(pr, parts, b, NttParts(w), k);
  }

  lemma PlusNegated(e: int, u: int)
    ensures M(e + M(0 - u)) == M(e - u)
  {}

  lemma U1Meaning(p: Param, pr: Preparer, u1: seq<Poly>, w: Parts, i: nat, k: nat)
    requires Fits(pr) && Shaped(pr, w) && i < p.kappa1 && k < D
    ensures M(EvalAt(U1Constraint(p, pr, u1, i), Witness(pr, w), k)) == M(GapU1(p, u1, w.t, w.g)(i, k))
  {
    hide EvalAt, NttVec, Witness, Dot, Column, Zeros, Slot, Packed, Fits, M, At, PolyNeg, PolyAt;
    var parts := Parts(Zeros(pr.prevN), Zeros(pr.prevN), Column(p.matB, p.kappa1, i, pr.tLen),
                       Column(p.matC, p.kappa1, i, pr.gLen), Zeros(pr.hLen));
    var e := PartsDot(pr, parts, NttParts(w), k);
    WitnessEval(pr, parts, PolyNeg(PolyAt(u1, i)), w, k);
    NegAt(u1, i, k);
    PlusNegated(e, Slot(u1, i, k));
    assert e - Slot(u1, i, k) == GapU1(p, u1, w.t, w.g)(i, k) by {
      DotZeros(pr.prevN, NttVec(w.z0), pr.prevN, k);
      DotZeros(pr.prevN, NttVec(w.z1), pr.prevN, k);
      DotZeros(pr.hLen, NttVec(w.h), pr.hLen, k);
    }
  }

  lemma NegAt(u: seq<Poly>, i: int, k: nat)
    requires k < D
    ensures At(PolyNeg(PolyAt(u, i)), k) == M(0 - Slot(u, i, k))
  {}

  lemma U2Meaning(p: Param, pr: Preparer, u2: seq<Poly>, w: Parts, i: nat, k: nat)
    requires Fits(pr) && Shaped(pr, w) && i < p.kappa2 && k < D
    ensures M(EvalAt(U2Constraint(p, pr, u2, i), Witness(pr, w), k)) == M(GapU2(p, u2, w.h)(i, k))
  {
    hide EvalAt, NttVec, Witness, Dot, Column, Zeros, Slot, Packed, Fits, M, At, PolyNeg, PolyAt;
    var parts := Parts(Zeros(pr.prevN), Zeros(pr.prevN), Zeros(pr.tLen), Zeros(pr.gLen),
                       Column(p.matD, p.kappa2, i, pr.hLen));
    var e := PartsDot(pr, parts, NttParts(w), k);
    WitnessEval(pr, parts, PolyNeg(PolyAt(u2, i)), w, k);
    NegAt(u2, i, k);
    PlusNegated(e, Slot(u2, i, k));
    assert e - Slot(u2, i, k) == GapU2(p, u2, w.h)(i, k) by {
      DotZeros(pr.prevN, NttVec(w.z0), pr.prevN, k);
      DotZeros(pr.prevN, NttVec(w.z1), pr.prevN, k);
      DotZeros(pr.tLen, NttVec(w.t), pr.tLen, k);
      DotZeros(pr.gLen, NttVec(w.g), pr.gLen, k);
    }
  }

  /** <v, z0 + s*z1> = <v, z0> + <s*v, z1> */
  lemma SplitZ(v: seq<Poly>, a: seq<Poly>, b: seq<Poly>, s: int, k: nat)
    requires |v| == |a| == |b| && k < D
    ensures M(Dot(v, VecAdd(a, VecScale(s, b)), |v|, k)) == M(Dot(v, a, |v|, k) + Dot(VecScale(s, v), b, |v|, k))
  {
    hide Sum, Slot, VecAdd, VecScale, M;
    var z, sv := VecAdd(a, VecScale(s, b)), VecScale(s, v);
    var f, g, h := Pointwise(Slots(v, k), Slots(z, k)), Pointwise(Slots(v, k), Slots(a, k)),
                   Pointwise(Slots(sv, k), Slots(b, k));
    forall i | 0 <= i < |v| ensures M(f(i)) == M(g(i) + h(i)) {
      SplitSlot(v, a, b, s, i, k);
    }
    SumOfTwo(|v|, f, g, h);
  }

  lemma SumOfTwo(n: nat, f: int -> int, g: int -> int, h: int -> int)
    requires forall i :: 0 <= i < n ==> M(f(i)) == M(g(i) + h(i))
    ensures M(Sum(n, f)) == M(Sum(n, g) + Sum(n, h))
  {
    hide Sum, M;
    SumCong(n, f, i => g(i) + h(i));
    SumAdd(n, g, h);
  }

  lemma SplitSlot(v: seq<Poly>, a: seq<Poly>, b: seq<Poly>, s: int, i: nat, k: nat)
    requires |v| == |a| == |b| && k < D && i < |v|
    ensures M(Slot(v, i, k) * Slot(VecAdd(a, VecScale(s, b)), i, k))
         == M(Slot(v, i, k) * Slot(a, i, k) + Slot(VecScale(s, v), i, k) * Slot(b, i, k))
  {
    hide Slot, VecAdd, VecScale, M;
    VecAddSlot(a, VecScale(s, b), i, k);
    ScaleSlot(s, b, i, k);
    ScaleSlot(s, v, i, k);
    SplitTerm(s, Slot(v, i, k), Slot(a, i, k), Slot(b, i, k), Slot(VecAdd(a, VecScale(s, b)), i, k),
              Slot(VecScale(s, v), i, k), Slot(VecScale(s, b), i, k));
  }

  lemma SplitTerm(s: int, v: int, a: int, b: int, z: int, sv: int, sb: int)
    requires z == M(a + sb) && sb == M(s * b) && sv == M(s * v)
    ensures M(v * z) == M(v * a + sv * b)
  {
    calc {
      M(v * z);
      { CongAdd(a, a, sb, s * b); CongScale(z, a + s * b, v); }
      M(v * (a + s * b));
      { Distribute(v, a + s * b, a, s * b); Rotate(v, s, b); assert s * (b * v) == (s * v) * b; }
      M(v * a + (s * v) * b);
      { CongMul(s * v, sv, b, b); CongAdd(v * a, v * a, (s * v) * b, sv * b); }
      M(v * a + sv * b);
    }
  }

  lemma ZeroAt(k: nat)
    requires k < D
    ensures At(ZERO, k) == 0
  {}

  /** The challenges placed in column i pick out column i of the other factor, negated. */
  lemma NegChallengesDot(c: seq<Poly>, r: nat, kappa: nat, i: nat, v: seq<Poly>, k: nat)
    requires i < kappa && k < D
    ensures r * kappa >= 0
    ensures M(Dot(NegChallenges(c, r, kappa, i), v, r * kappa, k)) == M(0 - Dot(c, Column(v, kappa, i, r), r, k))
  {
    hide Sum, Slot, NegChallenges, Column, M;
    var f := Pointwise(Slots(NegChallenges(c, r, kappa, i), k), Slots(v, k));
    var t := Pointwise(Slots(c, k), Slots(Column(v, kappa, i, r), k));
    SumFlatten(r, kappa, f);
    var rows, neg := j => Sum(kappa, m => f(j * kappa + m)), j => -1 * t(j);
    forall j | 0 <= j < r ensures M(rows(j)) == M(neg(j)) {
      NegChallengeRow(c, r, kappa, i, v, j, k);
      SumExt(kappa, m => f(j * kappa + m), NegRowTerms(c, r, kappa, i, v, j, k));
    }
    SumCong(r, rows, neg);
    SumScale(r, -1, t);
  }

  function NegRowTerms(c: seq<Poly>, r: nat, kappa: nat, i: nat, v: seq<Poly>, j: nat, k: nat): int -> int {
    m => Slot(NegChallenges(c, r, kappa, i), j * kappa + m, k) * Slot(v, j * kappa + m, k)
  }

  lemma NegChallengeRow(c: seq<Poly>, r: nat, kappa: nat, i: nat, v: seq<Poly>, j: nat, k: nat)
    requires i < kappa && j < r && k < D
    ensures M(Sum(kappa, NegRowTerms(c, r, kappa, i, v, j, k)))
         == M(-1 * (Slot(c, j, k) * Slot(Column(v, kappa, i, r), j, k)))
  {
    hide Sum, Slot, NegChallenges, Column, M;
    var g := NegRowTerms(c, r, kappa, i, v, j, k);
    forall m | 0 <= m < kappa && m != i ensures g(m) == 0 {
      NegChallengeSlot(c, r, kappa, i, j, m, k);
    }
    SumSingle(kappa, i, g);
    NegChallengeSlot(c, r, kappa, i, j, i, k);
    var x, y := Slot(c, j, k), Slot(v, j * kappa + i, k);
    ColumnSlot(v, kappa, i, r, j, k);
    NegatedProduct(Slot(NegChallenges(c, r, kappa, i), j * kappa + i, k), x, y);
  }

  lemma NegatedProduct(s: int, x: int, y: int)
    requires s == M(0 - x)
    ensures M(s * y) == M(-1 * (x * y))
  {
    CongMul(s, -x, y, y);
    assert -x * y == -1 * (x * y);
  }

  lemma ColumnSlot(v: seq<Poly>, cb: nat, i: int, len: nat, j: nat, k: int)
    requires j < len
    ensures Slot(Column(v, cb, i, len), j, k) == Slot(v, j * cb + i, k)
  {}

  lemma NegChallengeSlot(c: seq<Poly>, r: nat, kappa: nat, i: nat, j: nat, m: nat, k: nat)
    requires j < r && m < kappa && k < D
    ensures Slot(NegChallenges(c, r, kappa, i), j * kappa + m, k) == if m == i then M(0 - Slot(c, j, k)) else 0
  {
    hide Grid;
    var f := NegChallengeEntry(c, i);
    GridAt(r, kappa, f, j, m);
    assert f(j, m) == Pick(m == i, PolyNeg(PolyAt(c, j)), ZERO);
    NegAt(c, j, k);
    ZeroAt(k);
  }

  lemma AMeaning(p: Param, pr: Preparer, c: seq<Poly>, base0: nat, w: Parts, i: nat, k: nat)
    requires Fits(pr) && Shaped(pr, w) && p.Bases() && pr.tLen == p.TLen() && pr.prevN == p.n
    requires i < p.kappa && k < D
    ensures M(EvalAt(AConstraint(p, pr, c, base0, i), Witness(pr, w), k))
         == M(GapA(p, c, ZHat(w.z0, w.z1, base0), THat(p, w.t))(i, k))
  {
    hide EvalAt, NttVec, Witness, Dot, Column, Zeros, Slot, Packed, Fits, M, VecScale, VecAdd, DigitWeights, Digits,
      NegChallenges, RecomposeVec;
    var col, neg, l := Column(p.matA, p.kappa, i, p.n), NegChallenges(c, p.r, p.kappa, i), Digits(p.base1);
    var parts := Parts(col, VecScale(base0, col), DigitWeights(neg, p.base1, l), Zeros(pr.gLen), Zeros(pr.hLen));
    WitnessEval(pr, parts, ZERO, w, k);
    ZeroAt(k);
    DotZeros(pr.gLen, NttVec(w.g), pr.gLen, k);
    DotZeros(pr.hLen, NttVec(w.h), pr.hLen, k);
    var x := Dot(col, NttVec(w.z0), p.n, k) + Dot(VecScale(base0, col), NttVec(w.z1), p.n, k);
    var y := Dot(DigitWeights(neg, p.base1, l), NttVec(w.t), pr.tLen, k);
    assert EvalAt(AConstraint(p, pr, c, base0, i), Witness(pr, w), k) == x + y;
    SplitZ(col, NttVec(w.z0), NttVec(w.z1), base0, k);
    WeightsSeeThrough(neg, w.t, p.base1, l, k);
    NegChallengesDot(c, p.r, p.kappa, i, THat(p, w.t), k);
    CongAdd(x, Dot(col, ZHat(w.z0, w.z1, base0), p.n, k), y, 0 - Dot(c, Column(THat(p, w.t), p.kappa, i, p.r), p.r, k));
  }
}

module QuadraticMeaning {
  import opened Residues
  import opened Products
  import opened Sums
  import opened Powers
  import opened Arrays
  import opened Transforms
  import opened Polynomials
  import opened Vectors
  import opened Packing
  import opened Constraints
  import opened DigitVectors
  import opened Layout
  import opened Parameters
  import opened BaseChecks
  import opened Recursion
  import opened LinearMeaning

  /** The values of the symmetric matrix packed in v. */
  function MatrixHat(v: seq<Poly>, r: nat): seq<Poly> {
    NttVec(SymmMatrix(v, r))
  }

  lemma MatrixHatSlot(v: seq<Poly>, r: nat, i: nat, j: nat, k: int)
    requires i < r && j < r && |v| == Off(r, r)
    ensures Slot(MatrixHat(v, r), i * r + j, k) == Slot(NttVec(v), Place(r, i, j), k)
  {
    hide Grid, Ntt, Off;
    RowMajor(i, j, r, r);
    GridAt(r, r, Unpacked(v, r), i, j);
    if i <= j { PlaceRange(r, i, j - i, r); } else { PlaceRange(r, j, i - j, r); }
  }

  lemma PlaceSymmetric(n: int, i: int, j: int)
    ensures Place(n, i, j) == Place(n, j, i)
  {}

  /** An inner product with a packed symmetric matrix is the inner product over the whole matrix. */
  lemma PackedAgainst(u: seq<Poly>, m: (int, int) -> int, v: seq<Poly>, r: nat, k: int)
    requires |v| == Off(r, r)
    requires forall i, j :: 0 <= i <= j < r ==> M(Slot(u, Place(r, i, j), k)) == M(Folded(m, i, j))
    ensures M(Dot(u, NttVec(v), Off(r, r), k))
         == M(Sum(r, FullRow(r, ProductOf(m, EntryAt(MatrixHat(v, r), r, k)))))
  {
    hide Sum, Slot, Place, Off, MatrixHat, NttVec, M, Folded, FullRow;
    var g, mp, gp := EntryAt(MatrixHat(v, r), r, k), Slots(u, k), Slots(NttVec(v), k);
    forall i, j | 0 <= i < r && 0 <= j < r ensures g(i, j) == g(j, i) {
      MatrixHatSlot(v, r, i, j, k);
      MatrixHatSlot(v, r, j, i, k);
      PlaceSymmetric(r, i, j);
    }
    forall i, j | 0 <= i <= j < r ensures M(gp(Place(r, i, j))) == M(g(i, j)) {
      MatrixHatSlot(v, r, i, j, k);
    }
    SymmetricDot(r, m, g, mp, gp);
  }

  /** <-u, v> = -<u, v> */
  lemma NegDot(u: seq<Poly>, v: seq<Poly>, k: nat)
    requires k < D
    ensures M(Dot(VecNeg(u), v, |u|, k)) == M(0 - Dot(u, v, |u|, k))
  {
    hide Sum, Slot, VecNeg, M;
    var f, t := Pointwise(Slots(VecNeg(u), k), Slots(v, k)), Pointwise(Slots(u, k), Slots(v, k));
    var neg := i => -1 * t(i);
    forall i | 0 <= i < |u| ensures M(f(i)) == M(neg(i)) {
      NegSlot(u, i, k);
      NegatedProduct(Slot(VecNeg(u), i, k), Slot(u, i, k), Slot(v, i, k));
    }
    SumCong(|u|, f, neg);
    SumScale(|u|, -1, t);
  }

  /** Digit weights of the packed -c*c^t against digits give -c^t M c for the recomposed M. */
  lemma OuterWeights(c: seq<Poly>, d: seq<Poly>, base: nat, r: nat, k: nat)
    requires base >= 2 && k < D && |d| == Digits(base) * Off(r, r)
    ensures M(Dot(DigitWeights(VecNeg(OuterSymm(c, r)), base, Digits(base)), NttVec(d), |d|, k))
         == M(0 - QuadraticAt(c, SymmHat(d, base, r), r, k))
  {
    hide Sum, Slot, Place, Off, Dot, NttVec, M, Folded, FullRow, DigitWeights, OuterSymm, VecNeg, RecomposeVec,
      Digits, SymmMatrix;
    OffTotal(r);
    var v, u := RecomposeVec(d, base, Digits(base), Off(r, r)), OuterSymm(c, r);
    WeightsSeeThrough(VecNeg(u), d, base, Digits(base), k);
    NegDot(u, NttVec(v), k);
    forall i, j | 0 <= i <= j < r ensures M(Slot(u, Place(r, i, j), k)) == M(Folded(Outer(c, k), i, j)) {
      OuterSymmSlot(c, r, i, j, k);
    }
    PackedAgainst(u, Outer(c, k), v, r, k);
    CongSub(0, 0, Dot(u, NttVec(v), Off(r, r), k), QuadraticAt(c, SymmHat(d, base, r), r, k));
  }

  lemma PhiMeaning(p: Param, pr: Preparer, phi: seq<Poly>, c: seq<Poly>, base0: nat, w: Parts, k: nat)
    requires Fits(pr) && Shaped(pr, w) && p.Bases() && pr.hLen == p.HLen() && pr.prevN == p.n && k < D
    ensures M(EvalAt(PhiConstraint(p, pr, phi, c, base0), Witness(pr, w), k))
         == M(GapPhi(p, phi, c, ZHat(w.z0, w.z1, base0), SymmHat(w.h, p.base3, p.r))(0, k))
  {
    hide EvalAt, NttVec, Witness, Dot, Zeros, Slot, Packed, Fits, M, VecScale, VecAdd, DigitWeights, Digits, Matmul,
      OuterSymm, SymmHat, QuadraticAt, VecNeg, Off;
    var cPhi, l := Matmul(c, 1, p.r, phi, p.n), Digits(p.base3);
    var hw := DigitWeights(VecNeg(OuterSymm(c, p.r)), p.base3, l);
    var parts := Parts(cPhi, VecScale(base0, cPhi), Zeros(pr.tLen), Zeros(pr.gLen), hw);
    WitnessEval(pr, parts, ZERO, w, k);
    ZeroAt(k);
    DotZeros(pr.tLen, NttVec(w.t), pr.tLen, k);
    DotZeros(pr.gLen, NttVec(w.g), pr.gLen, k);
    var x := Dot(cPhi, NttVec(w.z0), p.n, k) + Dot(VecScale(base0, cPhi), NttVec(w.z1), p.n, k);
    var y := Dot(hw, NttVec(w.h), pr.hLen, k);
    assert EvalAt(PhiConstraint(p, pr, phi, c, base0), Witness(pr, w), k) == x + y;
    SplitZ(cPhi, NttVec(w.z0), NttVec(w.z1), base0, k);
    OuterWeights(c, w.h, p.base3, p.r, k);
    CongAdd(x, Dot(cPhi, ZHat(w.z0, w.z1, base0), p.n, k), y, 0 - QuadraticAt(c, SymmHat(w.h, p.base3, p.r), p.r, k));
  }

  /** The packed identity against a packed symmetric matrix is its trace. */
  lemma IdentityTrace(v: seq<Poly>, r: nat, k: nat)
    requires |v| == Off(r, r) && k < D
    ensures M(Dot(SymmIdentity(r), NttVec(v), Off(r, r), k)) == M(Sum(r, DiagonalAt(MatrixHat(v, r), r, k)))
  {
    hide Sum, Slot, Place, Off, MatrixHat, NttVec, M, SymmIdentity;
    var m := (i: int, j: int) => if i == j then 1 else 0;
    forall i, j | 0 <= i <= j < r ensures M(Slot(SymmIdentity(r), Place(r, i, j), k)) == M(Folded(m, i, j)) {
      SymmIdentitySlot(r, i, j, k);
    }
    PackedAgainst(SymmIdentity(r), m, v, r, k);
    var g := EntryAt(MatrixHat(v, r), r, k);
    var f := FullRow(r, ProductOf(m, g));
    forall i | 0 <= i < r ensures f(i) == DiagonalAt(MatrixHat(v, r), r, k)(i) {
      SumSingle(r, i, RowOf(ProductOf(m, g), i));
    }
    SumExt(r, f, DiagonalAt(MatrixHat(v, r), r, k));
  }

  /** A flat inner product of two square matrices, as a sum over rows. */
  lemma DotOfMatrices(a: seq<Poly>, b: seq<Poly>, r: nat, k: int)
    ensures r * r >= 0
    ensures Dot(a, b, r * r, k) == Sum(r, FullRow(r, ProductOf(EntryAt(a, r, k), EntryAt(b, r, k))))
  {
    hide Sum, Slot;
    var f, g := Pointwise(Slots(a, k), Slots(b, k)), ProductOf(EntryAt(a, r, k), EntryAt(b, r, k));
    SumFlatten(r, r, f);
    var rows := i => Sum(r, j => f(i * r + j));
    forall i | 0 <= i < r ensures rows(i) == FullRow(r, g)(i) {
      SumExt(r, j => f(i * r + j), RowOf(g, i));
    }
    SumExt(r, rows, FullRow(r, g));
  }

  lemma FoldedDot(a: seq<Poly>, v: seq<Poly>, r: nat, k: nat)
    requires |v| == Off(r, r) && k < D && |a| == r * r
    ensures M(Dot(FoldedSymm(a, r), NttVec(v), Off(r, r), k)) == M(Dot(a, MatrixHat(v, r), r * r, k))
  {
    hide Sum, Slot, Place, Off, MatrixHat, NttVec, M, FoldedSymm, Folded, FullRow, Dot;
    forall i, j | 0 <= i <= j < r
      ensures M(Slot(FoldedSymm(a, r), Place(r, i, j), k)) == M(Folded(EntryAt(a, r, k), i, j))
    {
      FoldedSymmSlot(a, r, i, j, k);
    }
    PackedAgainst(FoldedSymm(a, r), EntryAt(a, r, k), v, r, k);
    DotOfMatrices(a, MatrixHat(v, r), r, k);
  }

  lemma TraceMeaning(p: Param, pr: Preparer, fc: Equality, w: Parts, k: nat)
    requires Fits(pr) && Shaped(pr, w) && p.Bases() && pr.gLen == p.GLen() && pr.hLen == p.HLen() && k < D
    requires |fc.a| == p.r * p.r
    ensures M(EvalAt(TraceConstraint(p, pr, fc), Witness(pr, w), k))
         == M(GapTrace(p, fc, SymmHat(w.g, p.base2, p.r), SymmHat(w.h, p.base3, p.r))(0, k))
  {
    hide EvalAt, NttVec, Witness, Dot, Zeros, Slot, Packed, Fits, M, DigitWeights, Digits, FoldedSymm, SymmIdentity,
      Off, SymmMatrix, RecomposeVec, Sum;
    OffTotal(p.r);
    var r, l2, l3 := p.r, Digits(p.base2), Digits(p.base3);
    var gw, hw := DigitWeights(FoldedSymm(fc.a, r), p.base2, l2), DigitWeights(SymmIdentity(r), p.base3, l3);
    var parts := Parts(Zeros(pr.prevN), Zeros(pr.prevN), Zeros(pr.tLen), gw, hw);
    WitnessEval(pr, parts, fc.b, w, k);
    DotZeros(pr.prevN, NttVec(w.z0), pr.prevN, k);
    DotZeros(pr.prevN, NttVec(w.z1), pr.prevN, k);
    DotZeros(pr.tLen, NttVec(w.t), pr.tLen, k);
    var x, y := Dot(gw, NttVec(w.g), pr.gLen, k), Dot(hw, NttVec(w.h), pr.hLen, k);
    assert EvalAt(TraceConstraint(p, pr, fc), Witness(pr, w), k) == x + y + At(fc.b, k);
    var g, h := RecomposeVec(w.g, p.base2, l2, Off(r, r)), RecomposeVec(w.h, p.base3, l3, Off(r, r));
    WeightsSeeThrough(FoldedSymm(fc.a, r), w.g, p.base2, l2, k);
    FoldedDot(fc.a, g, r, k);
    WeightsSeeThrough(SymmIdentity(r), w.h, p.base3, l3, k);
    IdentityTrace(h, r, k);
    var a, b := Dot(fc.a, MatrixHat(g, r), r * r, k), Sum(r, DiagonalAt(MatrixHat(h, r), r, k));
    CongAdd(x, a, y, b);
    CongAdd(x + y, a + b, At(fc.b, k), At(fc.b, k));
  }
}

module SquareMeaning {
  import opened Residues
  import opened Products
  import opened Sums
  import opened Arrays
  import opened Transforms
  import opened Polynomials
  import opened Vectors
  import opened Packing
  import opened Constraints
  import opened DigitVectors
  import opened Layout
  import opened Parameters
  import opened BaseChecks
  import opened Recursion
  import opened LinearMeaning
  import opened QuadraticMeaning

  lemma GramSlot(s: seq<Poly>, r: nat, n: nat, i: nat, j: nat, k: nat)
    requires i < r && j < r && k < D
    ensures M(Slot(GramMatrix(s, r, n), i * r + j, k)) == M(Sum(n, l => Slot(s, i * n + l, k) * Slot(s, j * n + l, k)))
  {
    hide Sum, Slot, Matmul, Transpose;
    MatmulSlot(s, r, n, Transpose(s, r, n), r, i, j, k);
    var f, g := l => Slot(s, i * n + l, k) * Slot(Transpose(s, r, n), l * r + j, k),
                l => Slot(s, i * n + l, k) * Slot(s, j * n + l, k);
    forall l | 0 <= l < n ensures f(l) == g(l) {
      TransposeSlot(s, r, n, l, j, k);
    }
    SumExt(n, f, g);
  }

  /** Row a+i against row b+i, summed over the i of one group of rows. */
  function BlockTerms(s: seq<Poly>, r: nat, n: nat, a: int, b: int, k: int): int -> int {
    i => Slot(GramMatrix(s, r, n), (a + i) * r + (b + i), k)
  }

  /** Two groups of rows, row against row, are two stretches of the witness, entry against entry. */
  lemma BlockSum(s: seq<Poly>, r: nat, n: nat, count: nat, a: nat, b: nat, k: nat)
    requires a + count <= r && b + count <= r && k < D
    ensures count * n >= 0
    ensures M(Sum(count, BlockTerms(s, r, n, a, b, k)))
         == M(Sum(count * n, x => Slot(s, a * n + x, k) * Slot(s, b * n + x, k)))
  {
    hide Sum, Slot, GramMatrix, M;
    var f := x => Slot(s, a * n + x, k) * Slot(s, b * n + x, k);
    SumFlatten(count, n, f);
    var g, h := BlockTerms(s, r, n, a, b, k), i => Sum(n, l => f(i * n + l));
    forall i | 0 <= i < count ensures M(g(i)) == M(h(i)) {
      GramSlot(s, r, n, a + i, b + i, k);
      BlockRow(s, n, a, b, i, k, f);
    }
    SumCong(count, g, h);
  }

  lemma BlockRow(s: seq<Poly>, n: nat, a: nat, b: nat, i: nat, k: nat, f: int -> int)
    requires forall x :: f(x) == Slot(s, a * n + x, k) * Slot(s, b * n + x, k)
    ensures Sum(n, l => Slot(s, (a + i) * n + l, k) * Slot(s, (b + i) * n + l, k)) == Sum(n, l => f(i * n + l))
  {
    hide Sum, Slot;
    Distribute(n, a + i, a, i);
    Distribute(n, b + i, b, i);
    var g, h := l => Slot(s, (a + i) * n + l, k) * Slot(s, (b + i) * n + l, k), l => f(i * n + l);
    forall l | 0 <= l < n ensures g(l) == h(l) {}
    SumExt(n, g, h);
  }

  /** The row groups of z0 and z1 in the packed witness. */
  function ZPart(p: Parts, second: bool): seq<Poly> {
    if second then p.z1 else p.z0
  }

  function GroupStart(pr: Preparer, second: bool): nat {
    if second then pr.nu else 0
  }

  lemma GroupSlots(pr: Preparer, p: Parts, second: bool, x: nat, k: int)
    requires Fits(pr) && Shaped(pr, p) && x < pr.nu * pr.nPrime
    ensures Slot(Packed(pr, p), GroupStart(pr, second) * pr.nPrime + x, k)
         == Slot(Pad(ZPart(p, second), pr.nu * pr.nPrime), x, k)
  {
    hide Packed, Pad;
    PackedConcat(pr, p);
    Regions(pr);
  }

  /** Rows of one z-part against the rows of another sum to their inner product. */
  lemma GroupDot(pr: Preparer, p: Parts, first: bool, second: bool, k: nat)
    requires Fits(pr) && Shaped(pr, p) && k < D
    ensures M(Sum(pr.nu, BlockTerms(Packed(pr, p), pr.rPrime, pr.nPrime,
                                    GroupStart(pr, first), GroupStart(pr, second), k)))
         == M(Dot(ZPart(p, first), ZPart(p, second), pr.prevN, k))
  {
    hide Sum, Slot, Packed, Pad, M;
    var s, a, b, w := Packed(pr, p), GroupStart(pr, first), GroupStart(pr, second), pr.nu * pr.nPrime;
    var n := pr.nPrime;
    BlockSum(s, pr.rPrime, n, pr.nu, a, b, k);
    var u, v := Pad(ZPart(p, first), w), Pad(ZPart(p, second), w);
    var f, g := x => Slot(s, a * n + x, k) * Slot(s, b * n + x, k), Pointwise(Slots(u, k), Slots(v, k));
    forall x | 0 <= x < w ensures f(x) == g(x) {
      GroupSlots(pr, p, first, x, k);
      GroupSlots(pr, p, second, x, k);
    }
    SumExt(w, f, g);
    DotPad(ZPart(p, first), ZPart(p, second), w, k);
  }

  lemma SumTwo(n: nat, i: int, j: int, f: int -> int)
    requires 0 <= i < n && 0 <= j < n && i != j
    requires forall x :: 0 <= x < n && x != i && x != j ==> f(x) == 0
    ensures Sum(n, f) == f(i) + f(j)
  {
    if n - 1 != i && n - 1 != j {
      SumTwo(n - 1, i, j, f);
    } else if n - 1 == i {
      SumSingle(n - 1, j, f);
    } else {
      SumSingle(n - 1, i, f);
    }
  }

  function Block(nu: nat, base0: nat): (int, int) -> int {
    (i, j) => BlockCoefficient(nu, base0, i, j)
  }

  /** Row i of the block coefficients against a matrix g. */
  function BlockTerm(nu: nat, base0: nat, g: (int, int) -> int, i: int): int {
    if i < nu then g(i, i) + base0 * g(i, nu + i)
    else if i < 2 * nu then WrapSquare(base0) * g(i, i) + base0 * g(i, i - nu)
    else 0
  }

  lemma BlockFullRow(nu: nat, r: nat, base0: nat, g: (int, int) -> int, i: nat)
    requires 2 * nu <= r && i < r
    ensures FullRow(r, ProductOf(Block(nu, base0), g))(i) == BlockTerm(nu, base0, g, i)
  {
    hide Sum, WrapSquare;
    var f := RowOf(ProductOf(Block(nu, base0), g), i);
    if i < nu {
      SumTwo(r, i, nu + i, f);
    } else if i < 2 * nu {
      SumTwo(r, i, i - nu, f);
    } else {
      SumZero(r, f);
    }
  }

  /** Entries (a+i, b+i) of g for the i of one block. */
  function BlockDiagonal(g: (int, int) -> int, a: int, b: int): int -> int {
    i => g(a + i, b + i)
  }

  lemma SumWeighted(n: nat, x: int, y: int, u: int -> int, v: int -> int, f: int -> int)
    requires forall i :: 0 <= i < n ==> f(i) == x * u(i) + y * v(i)
    ensures Sum(n, f) == x * Sum(n, u) + y * Sum(n, v)
  {
    hide Sum;
    var xu, yv := i => x * u(i), i => y * v(i);
    SumExt(n, f, i => xu(i) + yv(i));
    SumAdd(n, xu, yv);
    SumScale(n, x, u);
    SumScale(n, y, v);
  }

  /** Summing the block coefficients against any matrix leaves the four diagonals of the blocks. */
  lemma BlockRows(nu: nat, r: nat, base0: nat, g: (int, int) -> int)
    requires 2 * nu <= r
    ensures Sum(r, FullRow(r, ProductOf(Block(nu, base0), g)))
         == Sum(nu, BlockDiagonal(g, 0, 0)) + base0 * Sum(nu, BlockDiagonal(g, 0, nu))
          + WrapSquare(base0) * Sum(nu, BlockDiagonal(g, nu, nu)) + base0 * Sum(nu, BlockDiagonal(g, nu, 0))
  {
    hide Sum, WrapSquare, FullRow, BlockTerm;
    var f, t := FullRow(r, ProductOf(Block(nu, base0), g)), i => BlockTerm(nu, base0, g, i);
    forall i | 0 <= i < r ensures f(i) == t(i) {
      BlockFullRow(nu, r, base0, g, i);
    }
    SumExt(r, f, t);
    BlockSplit(nu, r, base0, g, t);
  }

  lemma BlockSplit(nu: nat, r: nat, base0: nat, g: (int, int) -> int, t: int -> int)
    requires 2 * nu <= r
    requires forall i :: 0 <= i < r ==> t(i) == BlockTerm(nu, base0, g, i)
    ensures Sum(r, t)
         == Sum(nu, BlockDiagonal(g, 0, 0)) + base0 * Sum(nu, BlockDiagonal(g, 0, nu))
          + WrapSquare(base0) * Sum(nu, BlockDiagonal(g, nu, nu)) + base0 * Sum(nu, BlockDiagonal(g, nu, 0))
  {
    hide Sum, WrapSquare;
    SumSplit(2 * nu, r - 2 * nu, t);
    SumSplit(nu, nu, t);
    SumZero(r - 2 * nu, i => t(2 * nu + i));
    SumWeighted(nu, 1, base0, BlockDiagonal(g, 0, 0), BlockDiagonal(g, 0, nu), t);
    SumWeighted(nu, WrapSquare(base0), base0, BlockDiagonal(g, nu, nu), BlockDiagonal(g, nu, 0), i => t(nu + i));
  }

  lemma FullCong(n: nat, f: (int, int) -> int, g: (int, int) -> int)
    requires forall i, j :: 0 <= i < n && 0 <= j < n ==> M(f(i, j)) == M(g(i, j))
    ensures M(Sum(n, FullRow(n, f))) == M(Sum(n, FullRow(n, g)))
  {
    hide Sum, M;
    forall i | 0 <= i < n ensures M(FullRow(n, f)(i)) == M(FullRow(n, g)(i)) {
      SumCong(n, RowOf(f, i), RowOf(g, i));
    }
    SumCong(n, FullRow(n, f), FullRow(n, g));
  }

  lemma SquareBlocksSlot(pr: Preparer, base0: nat, i: nat, j: nat, k: nat)
    requires i < pr.rPrime && j < pr.rPrime && k < D
    ensures Slot(SquareBlocks(pr, base0), i * pr.rPrime + j, k) == M(BlockCoefficient(pr.nu, base0, i, j))
  {
    hide Grid, BlockCoefficient;
    GridAt(pr.rPrime, pr.rPrime, BlockEntry(pr.nu, base0), i, j);
    assert BlockEntry(pr.nu, base0)(i, j) == ConstPoly(BlockCoefficient(pr.nu, base0, i, j));
  }

  /** The blocks against the Gram matrix of any witness, as four sums over row groups. */
  lemma BlocksGram(pr: Preparer, base0: nat, s: seq<Poly>, k: nat)
    requires Fits(pr) && k < D
    ensures M(Dot(SquareBlocks(pr, base0), GramMatrix(s, pr.rPrime, pr.nPrime), pr.rPrime * pr.rPrime, k))
         == M(Sum(pr.nu, BlockTerms(s, pr.rPrime, pr.nPrime, 0, 0, k))
            + base0 * Sum(pr.nu, BlockTerms(s, pr.rPrime, pr.nPrime, 0, pr.nu, k))
            + WrapSquare(base0) * Sum(pr.nu, BlockTerms(s, pr.rPrime, pr.nPrime, pr.nu, pr.nu, k))
            + base0 * Sum(pr.nu, BlockTerms(s, pr.rPrime, pr.nPrime, pr.nu, 0, k)))
  {
    hide Sum, Slot, SquareBlocks, GramMatrix, FullRow, WrapSquare, BlockCoefficient, M, Dot;
    var r, gram, nu := pr.rPrime, GramMatrix(s, pr.rPrime, pr.nPrime), pr.nu;
    var g := EntryAt(gram, r, k);
    DotOfMatrices(SquareBlocks(pr, base0), gram, r, k);
    var f, h := ProductOf(EntryAt(SquareBlocks(pr, base0), r, k), g), ProductOf(Block(nu, base0), g);
    forall i, j | 0 <= i < r && 0 <= j < r ensures M(f(i, j)) == M(h(i, j)) {
      SquareBlocksSlot(pr, base0, i, j, k);
      ReducedFactor(BlockCoefficient(nu, base0, i, j), g(i, j));
    }
    FullCong(r, f, h);
    BlockRows(nu, r, base0, g);
    DiagonalTerms(s, r, pr.nPrime, 0, 0, nu, k);
    DiagonalTerms(s, r, pr.nPrime, 0, nu, nu, k);
    DiagonalTerms(s, r, pr.nPrime, nu, nu, nu, k);
    DiagonalTerms(s, r, pr.nPrime, nu, 0, nu, k);
  }

  lemma ReducedFactor(x: int, y: int)
    ensures M(M(x) * y) == M(x * y)
  {
    MMulLeft(x, y);
  }

  lemma DiagonalTerms(s: seq<Poly>, r: nat, n: nat, a: nat, b: nat, count: nat, k: int)
    ensures Sum(count, BlockDiagonal(EntryAt(GramMatrix(s, r, n), r, k), a, b))
         == Sum(count, BlockTerms(s, r, n, a, b, k))
  {
    hide Sum, Slot, GramMatrix;
    SumExt(count, BlockDiagonal(EntryAt(GramMatrix(s, r, n), r, k), a, b), BlockTerms(s, r, n, a, b, k));
  }

  /** <z0 + s*z1, z0 + s*z1> written out. */
  lemma SquareOfSum(a: seq<Poly>, b: seq<Poly>, s: int, k: nat)
    requires |a| == |b| && k < D
    ensures M(Dot(VecAdd(a, VecScale(s, b)), VecAdd(a, VecScale(s, b)), |a|, k))
         == M(Dot(a, a, |a|, k) + s * Dot(a, b, |a|, k) + s * s * Dot(b, b, |a|, k) + s * Dot(b, a, |a|, k))
  {
    hide Dot, VecAdd, VecScale, M;
    var n, z := |a|, VecAdd(a, VecScale(s, b));
    SplitZ(z, a, b, s, k);
    DotScaled(z, b, s, k);
    DotCommutes(z, a, n, k);
    DotCommutes(z, b, n, k);
    SplitZ(a, a, b, s, k);
    DotScaled(a, b, s, k);
    SplitZ(b, a, b, s, k);
    DotScaled(b, b, s, k);
    Expand(s, Dot(z, z, n, k), Dot(a, z, n, k), Dot(b, z, n, k), Dot(VecScale(s, z), b, n, k),
           Dot(a, a, n, k), Dot(a, b, n, k), Dot(b, a, n, k), Dot(b, b, n, k),
           Dot(VecScale(s, a), b, n, k), Dot(VecScale(s, b), b, n, k));
  }

  lemma Expand(s: int, zz: int, az: int, bz: int, szb: int, aa: int, ab: int, ba: int, bb: int, sab: int, sbb: int)
    requires M(zz) == M(az + szb) && M(szb) == M(s * bz)
    requires M(az) == M(aa + sab) && M(sab) == M(s * ab)
    requires M(bz) == M(ba + sbb) && M(sbb) == M(s * bb)
    ensures M(zz) == M(aa + s * ab + s * s * bb + s * ba)
  {
    hide M;
    CongAdd(ba, ba, sbb, s * bb);
    CongScale(bz, ba + s * bb, s);
    Distribute(s, ba + s * bb, ba, s * bb);
    Associate(s, s, bb);
    CongAdd(aa, aa, sab, s * ab);
    CongAdd(az, aa + s * ab, szb, s * ba + s * s * bb);
  }

  lemma DotScaled(u: seq<Poly>, v: seq<Poly>, s: int, k: nat)
    requires k < D
    ensures M(Dot(VecScale(s, u), v, |u|, k)) == M(s * Dot(u, v, |u|, k))
  {
    hide Sum, Slot, VecScale, M;
    var f, t := Pointwise(Slots(VecScale(s, u), k), Slots(v, k)), Pointwise(Slots(u, k), Slots(v, k));
    var st := i => s * t(i);
    forall i | 0 <= i < |u| ensures M(f(i)) == M(st(i)) {
      ScaleSlot(s, u, i, k);
      ReducedFactor(s * Slot(u, i, k), Slot(v, i, k));
      Associate(s, Slot(u, i, k), Slot(v, i, k));
    }
    SumCong(|u|, f, st);
    SumScale(|u|, s, t);
  }

  /** The quadratic part of the last constraint on the packed witness: <z,z>, off by the wrap of base0^2. */
  lemma BlocksMeaning(pr: Preparer, base0: nat, w: Parts, k: nat)
    requires Fits(pr) && Shaped(pr, w) && k < D
    ensures M(Dot(SquareBlocks(pr, base0), GramMatrix(Witness(pr, w), pr.rPrime, pr.nPrime), pr.rPrime * pr.rPrime, k))
         == M(Dot(ZHat(w.z0, w.z1, base0), ZHat(w.z0, w.z1, base0), pr.prevN, k)
            + (WrapSquare(base0) - base0 * base0) * Dot(NttVec(w.z1), NttVec(w.z1), pr.prevN, k))
  {
    hide Dot, Packed, NttVec, VecAdd, VecScale, M, SquareBlocks, GramMatrix, WrapSquare, Fits, Sum, BlockTerms;
    NttPacked(pr, w);
    var s, p := Witness(pr, w), NttParts(w);
    BlocksGram(pr, base0, s, k);
    GroupDot(pr, p, false, false, k);
    GroupDot(pr, p, false, true, k);
    GroupDot(pr, p, true, true, k);
    GroupDot(pr, p, true, false, k);
    SquareOfSum(p.z0, p.z1, base0, k);
    var n, r', n' := pr.prevN, pr.rPrime, pr.nPrime;
    Collect(base0, WrapSquare(base0),
      Sum(pr.nu, BlockTerms(s, r', n', 0, 0, k)), Sum(pr.nu, BlockTerms(s, r', n', 0, pr.nu, k)),
      Sum(pr.nu, BlockTerms(s, r', n', pr.nu, pr.nu, k)), Sum(pr.nu, BlockTerms(s, r', n', pr.nu, 0, k)),
      Dot(p.z0, p.z0, n, k), Dot(p.z0, p.z1, n, k), Dot(p.z1, p.z1, n, k), Dot(p.z1, p.z0, n, k),
      Dot(ZHat(w.z0, w.z1, base0), ZHat(w.z0, w.z1, base0), n, k));
  }

  lemma Collect(s: int, w: int, saa: int, sab: int, sbb: int, sba: int, aa: int, ab: int, bb: int, ba: int, zz: int)
    requires M(saa) == M(aa) && M(sab) == M(ab) && M(sbb) == M(bb) && M(sba) == M(ba)
    requires M(zz) == M(aa + s * ab + s * s * bb + s * ba)
    ensures M(saa + s * sab + w * sbb + s * sba) == M(zz + (w - s * s) * bb)
  {
    CongScale(sab, ab, s);
    CongScale(sba, ba, s);
    CongScale(sbb, bb, w);
    Distribute(bb, w, w - s * s, s * s);
    CollectSums(saa, s * sab, w * sbb, s * sba, aa, s * ab, w * bb, s * ba, s * s * bb, (w - s * s) * bb, zz);
  }

  lemma CollectSums(a': int, b': int, c': int, d': int, a: int, b: int, c: int, d: int, square: int, rest: int, zz: int)
    requires M(a') == M(a) && M(b') == M(b) && M(c') == M(c) && M(d') == M(d)
    requires M(zz) == M(a + b + square + d) && c == square + rest
    ensures M(a' + b' + c' + d') == M(zz + rest)
  {
    CongAdd(a', a, b', b);
    CongAdd(c', c, d', d);
    CongAdd(a' + b', a + b, c' + d', c + d);
    CongAdd(zz, a + b + square + d, rest, rest);
  }

  /** The last constraint says <z,z> = c^t G c, off by the wrap of base0^2. */
  lemma ZMeaning(p: Param, pr: Preparer, c: seq<Poly>, base0: nat, w: Parts, k: nat)
    requires Fits(pr) && Shaped(pr, w) && p.Bases() && pr.gLen == p.GLen() && pr.prevN == p.n && k < D
    ensures M(EvalAt(ZConstraint(p, pr, c, base0), Witness(pr, w), k))
         == M(GapZ(p, c, ZHat(w.z0, w.z1, base0), SymmHat(w.g, p.base2, p.r))(0, k)
            + (WrapSquare(base0) - base0 * base0) * Dot(NttVec(w.z1), NttVec(w.z1), p.n, k))
  {
    hide Dot, Packed, NttVec, M, SquareBlocks, GramMatrix, WrapSquare, Fits, DigitWeights, Digits, OuterSymm,
      SymmHat, QuadraticAt, VecNeg, Off, ZHat, Zeros;
    var gw := DigitWeights(VecNeg(OuterSymm(c, p.r)), p.base2, Digits(p.base2));
    var parts := Parts(Zeros(pr.prevN), Zeros(pr.prevN), Zeros(pr.tLen), gw, Zeros(pr.hLen));
    NttPacked(pr, w);
    PackedDot(pr, parts, NttParts(w), k);
    DotZeros(pr.prevN, NttVec(w.z0), pr.prevN, k);
    DotZeros(pr.prevN, NttVec(w.z1), pr.prevN, k);
    DotZeros(pr.tLen, NttVec(w.t), pr.tLen, k);
    DotZeros(pr.hLen, NttVec(w.h), pr.hLen, k);
    ZeroAt(k);
    BlocksMeaning(pr, base0, w, k);
    OuterWeights(c, w.g, p.base2, p.r, k);
    var zz, y := ZHat(w.z0, w.z1, base0), Dot(gw, NttVec(w.g), pr.gLen, k);
    var x := Dot(SquareBlocks(pr, base0), GramMatrix(Witness(pr, w), pr.rPrime, pr.nPrime), pr.rPrime * pr.rPrime, k);
    assert EvalAt(ZConstraint(p, pr, c, base0), Witness(pr, w), k) == x + y;
    var e := (WrapSquare(base0) - base0 * base0) * Dot(NttVec(w.z1), NttVec(w.z1), p.n, k);
    CongAdd(x, Dot(zz, zz, p.n, k) + e, y, 0 - QuadraticAt(c, SymmHat(w.g, p.base2, p.r), p.r, k));
  }
}
