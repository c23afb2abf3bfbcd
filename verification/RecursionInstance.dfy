/** The loops that write one round's checks down as the next round's constraints. */
module RecursionSteps {
  import opened Residues
  import opened Products
  import opened Powers
  import opened Arrays
  import opened BalancedDigits
  import opened Polynomials
  import opened Vectors
  import opened Packing
  import opened Constraints
  import opened DigitVectors
  import opened Layout
  import opened Parameters
  import opened BaseChecks
  import opened Recursion
  import opened LabradorInstances
  import opened MatrixBuffers
  import opened SymmetricLoops
  import opened RecursionBuffers
  import opened CoefficientLoops

  lemma SomeDigits(base: nat)
    requires base >= 2
    ensures Digits(base) >= 1
  {
    assert Pow(base, 0) == 1;
  }

  /** A row of the transpose is a column. */
  lemma TransposedRow(a: seq<Poly>, rows: nat, cols: nat, i: nat)
    requires i < cols
    ensures 0 <= i * rows && i * rows + rows <= cols * rows
    ensures Transpose(a, rows, cols)[i * rows..i * rows + rows] == Column(a, cols, i, rows)
  {
    hide Grid;
    NonNegative(i, rows);
    NonNegative(cols - i - 1, rows);
    Distribute(rows, cols, cols - i - 1, i + 1);
    Distribute(rows, i + 1, i, 1);
    var f := (k, j) => PolyAt(a, j * cols + k);
    var start := i * rows;
    var l, r := Transpose(a, rows, cols)[start..start + rows], Column(a, cols, i, rows);
    forall j | 0 <= j < rows ensures l[j] == r[j] {
      GridAt(cols, rows, (i, j) => PolyAt(a, j * cols + i), i, j);
    }
  }

  /** The constraints after the first was many are those of f. */
  ghost predicate Appended(eqs: seq<Equality>, was: seq<Equality>, f: int -> Equality, count: nat) {
    && |eqs| == |was| + count && eqs[..|was|] == was
    && forall i :: 0 <= i < count ==> eqs[|was| + i] == f(i)
  }

  lemma OneAppended(eqs: seq<Equality>, was: seq<Equality>, f: int -> Equality, count: nat, c: Equality)
    requires Appended(eqs, was, f, count) && c == f(count)
    ensures Appended(eqs + [c], was, f, count + 1)
  {}

  ghost function U1Family(p: Param, pr: Preparer, u1: seq<Poly>): int -> Equality
    requires Fits(pr)
  {
    i => U1Constraint(p, pr, u1, i)
  }

  ghost function U2Family(p: Param, pr: Preparer, u2: seq<Poly>): int -> Equality
    requires Fits(pr)
  {
    i => U2Constraint(p, pr, u2, i)
  }

  ghost function AFamily(p: Param, pr: Preparer, c: seq<Poly>, base0: nat): int -> Equality
    requires Fits(pr) && p.Bases() && pr.tLen == p.TLen()
  {
    i => AConstraint(p, pr, c, base0, i)
  }

  /** An instance for constraints of the next round's shape. */
  ghost predicate Target(inst: LabradorInstance, pr: Preparer)
    reads inst
  {
    inst.Valid() && inst.param.r == pr.rPrime && inst.param.n == pr.nPrime
  }

  method NewPhi(pr: Preparer) returns (phi: array<Poly>)
    requires Fits(pr)
    ensures fresh(phi) && phi[..] == Packed(pr, NoParts(pr))
  {
    NonNegative(pr.rPrime, pr.nPrime);
    phi := new Poly[pr.rPrime * pr.nPrime](i => ZERO);
    NothingPacked(pr);
    assert phi[..] == Zeros(Total(pr));
  }

  /** Step 8: -u1 + tB + gC = 0, one constraint for every entry of u1. */
  method AddU1(p: Param, pr: Preparer, u1: seq<Poly>, inst: LabradorInstance)
    requires Fits(pr) && Target(inst, pr) && |u1| >= p.kappa1
    requires |p.matB| == pr.tLen * p.kappa1 && |p.matC| == pr.gLen * p.kappa1
    modifies inst`equalityConstraints
    ensures Target(inst, pr) && Appended(inst.equalityConstraints, old(inst.equalityConstraints), U1Family(p, pr, u1),
                                         p.kappa1)
  {
    hide Packed, Transpose, Column, PolyNeg, Zeros, NoParts, Fits;
    var bT, cT := Transpose(p.matB, pr.tLen, p.kappa1), Transpose(p.matC, pr.gLen, p.kappa1);
    var neg := VecNeg(u1);
    ghost var was := inst.equalityConstraints;
    for i := 0 to p.kappa1
      invariant Target(inst, pr) && Appended(inst.equalityConstraints, was, U1Family(p, pr, u1), i)
    {
      TransposedRow(p.matB, pr.tLen, p.kappa1, i);
      TransposedRow(p.matC, pr.gLen, p.kappa1, i);
      var phi := NewPhi(pr);
      ghost var p0 := NoParts(pr);
      CopyLikeT(pr, phi, bT[i * pr.tLen..i * pr.tLen + pr.tLen], p0);
      ghost var p1 := p0.(t := bT[i * pr.tLen..i * pr.tLen + pr.tLen]);
      CopyLikeG(pr, phi, cT[i * pr.gLen..i * pr.gLen + pr.gLen], p1);
      U1Built(p, pr, u1, i);
      NonNegative(pr.rPrime, pr.rPrime);
      var c := Equality(pr.rPrime, pr.nPrime, Zeros(pr.rPrime * pr.rPrime), phi[..], neg[i]);
      assert c == U1Family(p, pr, u1)(i);
      OneAppended(inst.equalityConstraints, was, U1Family(p, pr, u1), i, c);
      var ok := inst.AddEqualityConstraint(c);
    }
  }

  /** What the copies have put together. */
  lemma U1Built(p: Param, pr: Preparer, u1: seq<Poly>, i: nat)
    requires Fits(pr) && i < |u1|
    ensures Shaped(pr, NoParts(pr))
    ensures U1Constraint(p, pr, u1, i) == Equality(pr.rPrime, pr.nPrime, Zeros(pr.rPrime * pr.rPrime),
      Packed(pr, NoParts(pr).(t := Column(p.matB, p.kappa1, i, pr.tLen)).(g := Column(p.matC, p.kappa1, i, pr.gLen))),
        VecNeg(u1)[i])
  {}

  /** Step 9: -u2 + hD = 0. */
  method AddU2(p: Param, pr: Preparer, u2: seq<Poly>, inst: LabradorInstance)
    requires Fits(pr) && Target(inst, pr) && |u2| >= p.kappa2 && |p.matD| == pr.hLen * p.kappa2
    modifies inst`equalityConstraints
    ensures Target(inst, pr) && Appended(inst.equalityConstraints, old(inst.equalityConstraints), U2Family(p, pr, u2),
                                         p.kappa2)
  {
    hide Packed, Transpose, Column, PolyNeg, Zeros, NoParts, Fits;
    var dT := Transpose(p.matD, pr.hLen, p.kappa2);
    var neg := VecNeg(u2);
    ghost var was := inst.equalityConstraints;
    for i := 0 to p.kappa2
      invariant Target(inst, pr) && Appended(inst.equalityConstraints, was, U2Family(p, pr, u2), i)
    {
      TransposedRow(p.matD, pr.hLen, p.kappa2, i);
      var phi := NewPhi(pr);
      CopyLikeH(pr, phi, dT[i * pr.hLen..i * pr.hLen + pr.hLen], NoParts(pr));
      U2Built(p, pr, u2, i);
      NonNegative(pr.rPrime, pr.rPrime);
      var c := Equality(pr.rPrime, pr.nPrime, Zeros(pr.rPrime * pr.rPrime), phi[..], neg[i]);
      assert c == U2Family(p, pr, u2)(i);
      OneAppended(inst.equalityConstraints, was, U2Family(p, pr, u2), i, c);
      var ok := inst.AddEqualityConstraint(c);
    }
  }

  lemma U2Built(p: Param, pr: Preparer, u2: seq<Poly>, i: nat)
    requires Fits(pr) && i < |u2|
    ensures Shaped(pr, NoParts(pr))
    ensures U2Constraint(p, pr, u2, i) == Equality(pr.rPrime, pr.nPrime, Zeros(pr.rPrime * pr.rPrime),
      Packed(pr, NoParts(pr).(h := Column(p.matD, p.kappa2, i, pr.hLen))), VecNeg(u2)[i])
  {}

  /** The challenges, negated, in column i of the rows. */
  method BuildNegChallenges(c: seq<Poly>, r: nat, kappa: nat, i: nat) returns (temp: array<Poly>)
    requires |c| == r && i < kappa
    ensures fresh(temp) && temp[..] == NegChallenges(c, r, kappa, i)
  {
    hide PolyNeg, Grid, Cell;
    NonNegative(r, kappa);
    CellIs(kappa, r, 0);
    temp := new Poly[r * kappa](x => ZERO);
    forall x: nat, m: nat | x < r && m < kappa ensures RectAt(temp[..], r, kappa, x, m) == ZERO {
      CellRange(r, kappa, x, m);
    }
    for j := 0 to r
      invariant temp.Length == Cell(kappa, r, 0)
      invariant forall x: nat, m: nat :: x < r && m < kappa ==>
        RectAt(temp[..], r, kappa, x, m) == if x < j && m == i then PolyNeg(c[x]) else ZERO
    {
      CellRange(r, kappa, j, i);
      CellIs(kappa, j, i);
      ghost var was := temp[..];
      temp[j * kappa + i] := PolyNeg(c[j]);
      RectWritten(was, temp[..], r, kappa, j, i, PolyNeg(c[j]));
    }
    forall x: nat, m: nat | x < r && m < kappa
      ensures RectAt(temp[..], r, kappa, x, m) == NegChallengeEntry(c, i)(x, m)
    {
      assert NegChallengeEntry(c, i)(x, m) == Pick(m == i, PolyNeg(PolyAt(c, x)), ZERO);
    }
    RectIsGrid(temp[..], r, kappa, NegChallengeEntry(c, i));
  }

  /** Step 10: zA - sum_j c_j t_j = 0. */
  method AddA(p: Param, pr: Preparer, c: seq<Poly>, base0: nat, inst: LabradorInstance)
    requires Fits(pr) && Target(inst, pr) && p.Bases() && pr.tLen == p.TLen() && pr.prevN == p.n
    requires |c| == p.r && |p.matA| == p.n * p.kappa
    modifies inst`equalityConstraints
    ensures Target(inst, pr) && Appended(inst.equalityConstraints, old(inst.equalityConstraints),
                                         AFamily(p, pr, c, base0), p.kappa)
  {
    hide Packed, Transpose, Column, PolyNeg, Zeros, NoParts, Fits, Digits, DigitWeights, VecScale, NegChallenges;
    var aT := Transpose(p.matA, p.n, p.kappa);
    SomeDigits(p.base1);
    ghost var was := inst.equalityConstraints;
    for i := 0 to p.kappa
      invariant Target(inst, pr) && Appended(inst.equalityConstraints, was, AFamily(p, pr, c, base0), i)
    {
      TransposedRow(p.matA, p.n, p.kappa, i);
      var phi := NewPhi(pr);
      var col := aT[i * p.n..i * p.n + p.n];
      ghost var p0 := NoParts(pr);
      CopyLikeZ0(pr, phi, col, p0);
      CopyLikeZ1(pr, phi, col, p0.(z0 := col));
      ScaleZ1(pr, phi, base0, p0.(z0 := col).(z1 := col));
      var temp := BuildNegChallenges(c, p.r, p.kappa, i);
      var tMul := BuildDigitWeights(temp[..], p.base1, Digits(p.base1));
      CopyLikeT(pr, phi, tMul[..], p0.(z0 := col).(z1 := VecScale(base0, col)));
      ABuilt(p, pr, c, base0, i);
      NonNegative(pr.rPrime, pr.rPrime);
      var cons := Equality(pr.rPrime, pr.nPrime, Zeros(pr.rPrime * pr.rPrime), phi[..], ZERO);
      assert cons == AFamily(p, pr, c, base0)(i);
      OneAppended(inst.equalityConstraints, was, AFamily(p, pr, c, base0), i, cons);
      var ok := inst.AddEqualityConstraint(cons);
    }
  }

  lemma ABuilt(p: Param, pr: Preparer, c: seq<Poly>, base0: nat, i: nat)
    requires Fits(pr) && p.Bases() && pr.tLen == p.TLen() && pr.prevN == p.n
    ensures Shaped(pr, NoParts(pr))
    ensures var col := Column(p.matA, p.kappa, i, p.n);
      AConstraint(p, pr, c, base0, i) == Equality(pr.rPrime, pr.nPrime, Zeros(pr.rPrime * pr.rPrime),
        Packed(pr, NoParts(pr).(z0 := col).(z1 := VecScale(base0, col))
          .(t := DigitWeights(NegChallenges(c, p.r, p.kappa, i), p.base1, Digits(p.base1)))), ZERO)
  {}

  /** The challenges' outer product, off the diagonal counted twice: doubled, then the diagonal halved again. */
  method BuildOuter(c: seq<Poly>, r: nat) returns (cc: array<Poly>)
    ensures fresh(cc) && cc.Length == r * r && cc[..] == HalveDiagonal(VecScale(2, Matmul(c, r, 1, c, r)), r)
  {
    hide Matmul, VecScale, HalveDiagonal;
    var product := Matmul(c, r, 1, c, r);
    NonNegative(r, r);
    cc := new Poly[r * r](i requires 0 <= i < |product| => product[i]);
    assert cc[..] == product;
    ScaleInPlace(cc, 0, r * r, 2);
    WholeScaled(product, 2);
    HalveDiagonalInPlace(cc, r);
  }

  /** Step 11: c^t Phi z - c^t H c = 0. The outer product is kept for step 13. */
  method AddPhi(p: Param, pr: Preparer, phi: seq<Poly>, c: seq<Poly>, cc: seq<Poly>, base0: nat, inst: LabradorInstance)
    requires Fits(pr) && Target(inst, pr) && p.Bases() && pr.prevN == p.n && pr.hLen == p.HLen()
    requires |cc| == p.r * p.r && cc == HalveDiagonal(VecScale(2, Matmul(c, p.r, 1, c, p.r)), p.r)
    modifies inst`equalityConstraints
    ensures Target(inst, pr) && inst.equalityConstraints == old(inst.equalityConstraints) + [PhiConstraint(p, pr, phi,
        c, base0)]
  {
    hide Packed, Matmul, Zeros, NoParts, Fits, Digits, DigitWeights, VecScale, VecNeg, HalveDiagonal, SymmPart, Off;
    SomeDigits(p.base3);
    var buffer := NewPhi(pr);
    ghost var p0 := NoParts(pr);
    var cPhi := Matmul(c, 1, p.r, phi, p.n);
    CopyLikeZ0(pr, buffer, cPhi, p0);
    CopyLikeZ1(pr, buffer, VecScale(base0, cPhi), p0.(z0 := cPhi));
    var temp := ExtractSymmPart(cc, p.r);
    var hMul := BuildDigitWeights(VecNeg(temp[..]), p.base3, Digits(p.base3));
    PhiBuilt(p, pr, phi, c, base0);
    CopyLikeH(pr, buffer, hMul[..], p0.(z0 := cPhi).(z1 := VecScale(base0, cPhi)));
    NonNegative(pr.rPrime, pr.rPrime);
    var ok := inst.AddEqualityConstraint(Equality(pr.rPrime, pr.nPrime, Zeros(pr.rPrime * pr.rPrime), buffer[..],
                                                  ZERO));
  }

  lemma PhiBuilt(p: Param, pr: Preparer, phi: seq<Poly>, c: seq<Poly>, base0: nat)
    requires Fits(pr) && p.Bases() && pr.prevN == p.n && pr.hLen == p.HLen()
    ensures var cPhi := Matmul(c, 1, p.r, phi, p.n);
      var mul := DigitWeights(VecNeg(OuterSymm(c, p.r)), p.base3, Digits(p.base3));
      && |mul| == pr.hLen && |cPhi| == p.n && Shaped(pr, NoParts(pr))
      && PhiConstraint(p, pr, phi, c, base0) == Equality(pr.rPrime, pr.nPrime, Zeros(pr.rPrime * pr.rPrime),
           Packed(pr, NoParts(pr).(z0 := cPhi).(z1 := VecScale(base0, cPhi)).(h := mul)), ZERO)
  {
    hide DigitWeights, Matmul, OuterSymm, Packed, Zeros, Digits;
  }

  /** Step 12: <a,G> + tr H + b = 0. */
  method AddTrace(p: Param, pr: Preparer, fc: Equality, inst: LabradorInstance)
    requires Fits(pr) && Target(inst, pr) && p.Bases() && pr.gLen == p.GLen() && pr.hLen == p.HLen()
    requires |fc.a| == p.r * p.r
    modifies inst`equalityConstraints
    ensures Target(inst, pr) && inst.equalityConstraints == old(inst.equalityConstraints) + [TraceConstraint(p, pr, fc)]
  {
    hide Packed, Zeros, NoParts, Fits, Digits, DigitWeights, HalveDiagonal, SymmPart, Transpose, VecAdd, SymmIdentity,
      Off;
    SomeDigits(p.base2);
    SomeDigits(p.base3);
    var sum := VecAdd(fc.a, Transpose(fc.a, p.r, p.r));
    var m := new Poly[p.r * p.r](i requires 0 <= i < |sum| => sum[i]);
    assert m[..] == sum;
    HalveDiagonalInPlace(m, p.r);
    var aSymm := ExtractSymmPart(m[..], p.r);
    var gMul := BuildDigitWeights(aSymm[..], p.base2, Digits(p.base2));
    var buffer := NewPhi(pr);
    ghost var p0 := NoParts(pr);
    TraceBuilt(p, pr, fc);
    CopyLikeG(pr, buffer, gMul[..], p0);
    var symmI := BuildSymmIdentity(p.r);
    var hMul := BuildDigitWeights(symmI[..], p.base3, Digits(p.base3));
    CopyLikeH(pr, buffer, hMul[..], p0.(g := gMul[..]));
    NonNegative(pr.rPrime, pr.rPrime);
    var ok := inst.AddEqualityConstraint(Equality(pr.rPrime, pr.nPrime, Zeros(pr.rPrime * pr.rPrime), buffer[..],
                                                  fc.b));
  }

  lemma TraceBuilt(p: Param, pr: Preparer, fc: Equality)
    requires Fits(pr) && p.Bases() && pr.gLen == p.GLen() && pr.hLen == p.HLen()
    ensures var g := DigitWeights(FoldedSymm(fc.a, p.r), p.base2, Digits(p.base2));
      var h := DigitWeights(SymmIdentity(p.r), p.base3, Digits(p.base3));
      && |g| == pr.gLen && |h| == pr.hLen && Shaped(pr, NoParts(pr))
      && TraceConstraint(p, pr, fc) == Equality(pr.rPrime, pr.nPrime, Zeros(pr.rPrime * pr.rPrime),
           Packed(pr, NoParts(pr).(g := g).(h := h)), fc.b)
  {
    hide DigitWeights, FoldedSymm, SymmIdentity, Packed, Zeros, Digits;
  }

  /** Step 13: <z,z> - c^t G c = 0. */
  method AddZ(p: Param, pr: Preparer, ghost c: seq<Poly>, cc: seq<Poly>, base0: nat, inst: LabradorInstance)
    requires Fits(pr) && Target(inst, pr) && p.Bases() && pr.gLen == p.GLen()
    requires |cc| == p.r * p.r && cc == HalveDiagonal(VecScale(2, Matmul(c, p.r, 1, c, p.r)), p.r)
    modifies inst`equalityConstraints
    ensures Target(inst, pr) && inst.equalityConstraints == old(inst.equalityConstraints) + [ZConstraint(p, pr, c,
        base0)]
  {
    hide Packed, Matmul, Zeros, NoParts, Fits, Digits, DigitWeights, VecScale, VecNeg, HalveDiagonal, SymmPart,
      SquareBlocks, Off;
    SomeDigits(p.base2);
    var a := FillSquareBlocks(pr, base0);
    var temp := ExtractSymmPart(cc, p.r);
    var gMul := BuildDigitWeights(VecNeg(temp[..]), p.base2, Digits(p.base2));
    var buffer := NewPhi(pr);
    ZBuilt(p, pr, c, base0);
    CopyLikeG(pr, buffer, gMul[..], NoParts(pr));
    var ok := inst.AddEqualityConstraint(Equality(pr.rPrime, pr.nPrime, a[..], buffer[..], ZERO));
  }

  lemma ZBuilt(p: Param, pr: Preparer, c: seq<Poly>, base0: nat)
    requires Fits(pr) && p.Bases() && pr.gLen == p.GLen()
    ensures var g := DigitWeights(VecNeg(OuterSymm(c, p.r)), p.base2, Digits(p.base2));
      && |g| == pr.gLen && Shaped(pr, NoParts(pr))
      && ZConstraint(p, pr, c, base0) == Equality(pr.rPrime, pr.nPrime, SquareBlocks(pr, base0),
                                                  Packed(pr, NoParts(pr).(g := g)), ZERO)
  {
    hide DigitWeights, OuterSymm, Packed, Zeros, Digits, SquareBlocks;
  }
}

/** The next round's instance and witness. */
module RecursionPreparation {
  import opened Residues
  import opened Products
  import opened Arrays
  import opened Polynomials
  import opened Vectors
  import opened Packing
  import opened Constraints
  import opened DigitVectors
  import opened Layout
  import opened Parameters
  import opened BaseChecks
  import opened Recursion
  import opened LabradorInstances
  import opened SymmetricLoops
  import opened RecursionBuffers
  import opened CoefficientLoops
  import opened RecursionSteps
  import opened Protocol

  /** What prepare_recursion_instance is called with: checked messages and challenges of the right sizes. */
  ghost predicate RecursionInputs(p: Param, fc: Equality, t: Transcript) {
    && p.Valid() && fc.r == p.r && fc.n == p.n && |fc.a| == p.r * p.r
    && |t.msg.u1| >= p.kappa1 && |t.msg.u2| >= p.kappa2 && |t.challenges| == p.r
  }

  /** The constraints of steps 8 to 13 are added one after the other. */
  method PrepareRecursionInstance(bk: Backend, p: Param, fc: Equality, t: Transcript, base0: nat, mu: Positive,
                              nu: Positive)
    returns (inst: LabradorInstance?)
    requires RecursionInputs(p, fc, t)
    ensures inst == null <==> NextBase(bk, p, RecursionLayout(p, mu, nu).rPrime) < 2
    ensures inst != null ==> fresh(inst) && inst.Valid() && inst.constZeroConstraints == []
    ensures inst != null ==> inst.param == NextParam(bk, p, RecursionLayout(p, mu, nu))
    ensures inst != null ==> LeastSizes(p, inst.param.r, inst.param.n, mu, nu) && DerivedConstants(bk, p, inst.param)
    ensures inst != null ==>
      inst.equalityConstraints == RecursionConstraints(p, fc, t.msg.u1, t.msg.u2, t.challenges, base0, mu, nu)
  {
    hide RecursionConstraints, Param.TLen, Param.GLen, Param.HLen, Param.Valid, MakeParam, U1Family, U2Family,
      AFamily, Appended, Fits, HalveDiagonal, NextBeta, LeastSizes, DerivedConstants;
    ParamParts(p);
    PrepareFits(p.n, p.TLen(), p.GLen(), p.HLen(), mu, nu);
    var pr := RecursionLayout(p, mu, nu);
    var base := NextBase(bk, p, pr.rPrime);
    if base < 2 { return null; }
    NextParamIs(bk, p, mu, nu);
    inst := new LabradorInstance(NextParam(bk, p, pr));
    ghost var none := inst.equalityConstraints;
    AddU1(p, pr, t.msg.u1, inst);
    ghost var first := inst.equalityConstraints;
    AddU2(p, pr, t.msg.u2, inst);
    ghost var second := inst.equalityConstraints;
    AddA(p, pr, t.challenges, base0, inst);
    ghost var third := inst.equalityConstraints;
    var cc := BuildOuter(t.challenges, p.r);
    AddPhi(p, pr, fc.phi, t.challenges, cc[..], base0, inst);
    AddTrace(p, pr, fc, inst);
    AddZ(p, pr, t.challenges, cc[..], base0, inst);
    AllAdded(p, pr, fc, t, base0, mu, nu, none, first, second, third);
  }

  /** The parameters of the next round. */
  function NextParam(bk: Backend, p: Param, pr: Preparer): Param
    requires NextBase(bk, p, pr.rPrime) >= 2
  {
    var base := NextBase(bk, p, pr.rPrime);
    MakeParam(bk, pr.rPrime, pr.nPrime, p.seed + [ONE_MARK], bk.rank, bk.rank, bk.rank, base, base, base, NextBeta(p))
  }

  /** The next round's sizes: the least width that holds the parts in nu and mu rows, and no more rows of it than z
      in two digits and t, g and h need. */
  ghost predicate LeastSizes(p: Param, rows: nat, width: nat, mu: nat, nu: nat)
    requires p.Bases()
  {
    && LeastWidth(width, p.n, p.TLen() + p.GLen() + p.HLen(), mu, nu)
    && exists lt: nat, lg: nat, lh: nat ::
         && LeastRows(lt, width, p.TLen()) && LeastRows(lg, width, p.GLen()) && LeastRows(lh, width, p.HLen())
         && rows == 2 * nu + lt + lg + lh
  }

  ghost predicate SampledFrom(bk: Backend, v: seq<Poly>, seed: Bytes, size: nat) {
    |v| == size && forall i :: 0 <= i < size ==> v[i] == bk.sampleMatrix(seed, size, i)
  }

  /** What else the next round's parameters are: one base for all digits, chosen for the new number of rows and the
      grown norm, one rank, and four matrices from four different seeds that extend the old seed by a digit. */
  ghost predicate DerivedConstants(bk: Backend, p: Param, q: Param) {
    && q.beta == (((p.r * p.n) * 64) as real) * p.beta
    && q.base1 == q.base2 == q.base3 == bk.base0(q.r, q.beta) && q.Bases()
    && q.kappa == q.kappa1 == q.kappa2 == bk.rank && q.jlOut == 256 && q.rounds == 3
    && q.seed == p.seed + [49]
    && SampledFrom(bk, q.matA, q.seed + [48], q.n * q.kappa)
    && SampledFrom(bk, q.matB, q.seed + [49], q.TLen() * q.kappa1)
    && SampledFrom(bk, q.matC, q.seed + [50], q.GLen() * q.kappa1)
    && SampledFrom(bk, q.matD, q.seed + [51], q.HLen() * q.kappa2)
  }

  lemma NextParamIs(bk: Backend, p: Param, mu: Positive, nu: Positive)
    requires p.Valid() && NextBase(bk, p, RecursionLayout(p, mu, nu).rPrime) >= 2
    ensures var q := NextParam(bk, p, RecursionLayout(p, mu, nu));
      LeastSizes(p, q.r, q.n, mu, nu) && DerivedConstants(bk, p, q)
  {
    hide LeastSizes, Param.TLen, Param.GLen, Param.HLen, DerivedConstants, MakeParam, NextBeta;
    LayoutLeast(p, mu, nu);
    SampledMatrices(bk, p, RecursionLayout(p, mu, nu));
  }

  lemma LayoutLeast(p: Param, mu: Positive, nu: Positive)
    requires p.Valid()
    ensures LeastSizes(p, RecursionLayout(p, mu, nu).rPrime, RecursionLayout(p, mu, nu).nPrime, mu, nu)
  {
    hide LeastWidth, LeastRows, CeilDiv, Param.TLen, Param.GLen, Param.HLen;
    PrepareLeast(p.n, p.TLen(), p.GLen(), p.HLen(), mu, nu);
  }

  lemma SampledMatrices(bk: Backend, p: Param, pr: Preparer)
    requires NextBase(bk, p, pr.rPrime) >= 2
    ensures DerivedConstants(bk, p, NextParam(bk, p, pr))
  {
    hide Off, Digits;
  }

  lemma LeastUnique(p: Param, rows: nat, width: nat, rows': nat, width': nat, mu: nat, nu: nat)
    requires p.Bases() && LeastSizes(p, rows, width, mu, nu) && LeastSizes(p, rows', width', mu, nu)
    ensures rows == rows' && width == width'
  {
    hide RowsHold, Param.TLen, Param.GLen, Param.HLen;
    assert width <= width' <==> RowsHold(nu, width', p.n) && RowsHold(mu, width', p.TLen() + p.GLen() + p.HLen());
    assert width' <= width <==> RowsHold(nu, width, p.n) && RowsHold(mu, width, p.TLen() + p.GLen() + p.HLen());
    var lt: nat, lg: nat, lh: nat :|
      && LeastRows(lt, width, p.TLen()) && LeastRows(lg, width, p.GLen()) && LeastRows(lh, width, p.HLen())
      && rows == 2 * nu + lt + lg + lh;
    var lt': nat, lg': nat, lh': nat :|
      && LeastRows(lt', width, p.TLen()) && LeastRows(lg', width, p.GLen()) && LeastRows(lh', width, p.HLen())
      && rows' == 2 * nu + lt' + lg' + lh';
    LeastRowsUnique(lt, lt', width, p.TLen());
    LeastRowsUnique(lg, lg', width, p.GLen());
    LeastRowsUnique(lh, lh', width, p.HLen());
  }

  lemma LeastRowsUnique(k: nat, k': nat, width: nat, len: nat)
    requires LeastRows(k, width, len) && LeastRows(k', width, len)
    ensures k == k'
  {
    hide RowsHold;
    assert k <= k' <==> RowsHold(k', width, len);
    assert k' <= k <==> RowsHold(k, width, len);
  }

  lemma InstanceOf(bk: Backend, p: Param, fc: Equality, t: Transcript)
    requires p.Valid()
    ensures var pr, next := RecursionLayout(p, NextMu(bk, p), NextNu(bk, p)), NextInstance(bk, p, fc, t);
      && (next.Failed? <==> NextBase(bk, p, pr.rPrime) < 2)
      && (next.Done? ==> next.value.param == NextParam(bk, p, pr) && next.value.zeros == [])
  {
    hide RecursionConstraints, Param.TLen, Param.GLen, Param.HLen, MakeParam, NextBeta, Prepare, Param.Valid;
  }

  /** The next instance has the least sizes and the derived parameters; it fails exactly when the base chosen for
      these sizes is below two. */
  lemma NextInstanceIs(bk: Backend, p: Param, fc: Equality, t: Transcript, rows: nat, width: nat)
    requires p.Valid()
    requires var rest := p.TLen() + p.GLen() + p.HLen();
      LeastSizes(p, rows, width, bk.mu(p.n, rest), bk.nu(p.n, rest))
    ensures var next := NextInstance(bk, p, fc, t);
      && (next.Failed? <==> bk.base0(rows, (((p.r * p.n) * 64) as real) * p.beta) < 2)
      && (next.Done? ==>
           && next.value.param.r == rows && next.value.param.n == width
           && DerivedConstants(bk, p, next.value.param) && next.value.zeros == [])
  {
    hide LeastSizes, DerivedConstants, NextInstance, Param.TLen, Param.GLen, Param.HLen, Param.Valid, MakeParam,
      Prepare;
    ParamParts(p);
    var mu, nu := NextMu(bk, p), NextNu(bk, p);
    var pr := RecursionLayout(p, mu, nu);
    LayoutLeast(p, mu, nu);
    LeastUnique(p, rows, width, pr.rPrime, pr.nPrime, mu, nu);
    InstanceOf(bk, p, fc, t);
    BaseIs(bk, p, rows);
    if NextBase(bk, p, pr.rPrime) >= 2 {
      NextParamIs(bk, p, mu, nu);
      ParamSizes(bk, p, pr);
    }
  }

  lemma BaseIs(bk: Backend, p: Param, rows: nat)
    ensures NextBase(bk, p, rows) == bk.base0(rows, (((p.r * p.n) * 64) as real) * p.beta)
  {
    assert (p.r * p.n) * D == (p.r * p.n) * 64;
    assert NextBeta(p) == (((p.r * p.n) * 64) as real) * p.beta;
  }

  lemma ParamSizes(bk: Backend, p: Param, pr: Preparer)
    requires NextBase(bk, p, pr.rPrime) >= 2
    ensures NextParam(bk, p, pr).r == pr.rPrime && NextParam(bk, p, pr).n == pr.nPrime
  {
    hide NextBeta;
  }

  lemma ParamParts(p: Param)
    requires p.Valid()
    ensures p.Bases() && p.n >= 1 && p.r >= 1
    ensures |p.matA| == p.n * p.kappa && |p.matB| == p.TLen() * p.kappa1 && |p.matC| == p.GLen() * p.kappa1
    ensures |p.matD| == p.HLen() * p.kappa2
  {}

  lemma AllAdded(p: Param, pr: Preparer, fc: Equality, t: Transcript, base0: nat, mu: Positive, nu: Positive,
                 none: seq<Equality>, first: seq<Equality>, second: seq<Equality>, third: seq<Equality>)
    requires p.Valid() && pr == RecursionLayout(p, mu, nu) && Fits(pr) && none == []
    requires Appended(first, none, U1Family(p, pr, t.msg.u1), p.kappa1)
    requires Appended(second, first, U2Family(p, pr, t.msg.u2), p.kappa2)
    requires Appended(third, second, AFamily(p, pr, t.challenges, base0), p.kappa)
    ensures third + [PhiConstraint(p, pr, fc.phi, t.challenges, base0)] + [TraceConstraint(p, pr, fc)] + [ZConstraint(p,
        pr, t.challenges, base0)]
         == RecursionConstraints(p, fc, t.msg.u1, t.msg.u2, t.challenges, base0, mu, nu)
  {
    hide U1Constraint, U2Constraint, AConstraint, PhiConstraint, TraceConstraint, ZConstraint, Fits, Param.TLen,
      Param.GLen, Param.HLen;
    var all := RecursionConstraints(p, fc, t.msg.u1, t.msg.u2, t.challenges, base0, mu, nu);
    assert first == all[..p.kappa1];
    assert second == all[..p.kappa1 + p.kappa2];
    assert third == all[..p.kappa1 + p.kappa2 + p.kappa];
  }

  /** z is split into two digits and put back together; the parts are copied to their places. */
  method PrepareRecursionWitness(p: Param, pf: Proof, base0: nat, mu: Positive,
                              nu: Positive) returns (o: Outcome<seq<Poly>>)
    requires p.Valid() && ProofShape(p, pf)
    ensures o == NextWitness(p, pf, base0, mu, nu)
  {
    hide Packed, Fits, InttVec, DecomposeVec, RecomposeVec, Param.TLen, Param.GLen, Param.HLen, NoParts;
    if base0 < 2 { return Failed; }
    var z := InttVec(pf.zHat);
    var zTilde := DecomposeVec(z, base0, 2);
    var temp := RecomposeVec(zTilde, base0, 2, |z|);
    if temp != z { return Failed; }
    PrepareFits(p.n, p.TLen(), p.GLen(), p.HLen(), mu, nu);
    var pr := RecursionLayout(p, mu, nu);
    var s := NewPhi(pr);
    ghost var p0 := NoParts(pr);
    var n := |pf.zHat|;
    CopyLikeZ0(pr, s, zTilde[..n], p0);
    CopyLikeZ1(pr, s, zTilde[n..], p0.(z0 := zTilde[..n]));
    CopyLikeT(pr, s, pf.t, p0.(z0 := zTilde[..n]).(z1 := zTilde[n..]));
    CopyLikeG(pr, s, pf.g, p0.(z0 := zTilde[..n]).(z1 := zTilde[n..]).(t := pf.t));
    CopyLikeH(pr, s, pf.h, p0.(z0 := zTilde[..n]).(z1 := zTilde[n..]).(t := pf.t).(g := pf.g));
    assert p0.(z0 := zTilde[..n]).(z1 := zTilde[n..]).(t := pf.t).(g := pf.g).(h := pf.h) == NextParts(p, pf, base0);
    return Done(s[..]);
  }
}
