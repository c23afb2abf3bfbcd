/** For every base0 that wraps, an honest run that the verifier rejects: the bound on base0 is sharp. */
module WrapRuns {
  import opened Residues
  import opened Products
  import opened Sums
  import opened Arrays
  import opened Powers
  import opened PowersOfTwo
  import opened Transforms
  import opened BitReversal
  import opened BalancedDigits
  import opened Polynomials
  import opened Vectors
  import opened Constraints
  import opened DigitVectors
  import opened Layout
  import opened Parameters
  import opened BaseChecks
  import opened Recursion
  import opened LinearMeaning
  import opened RecursionTheorem
  import opened BaseProver
  import opened NormBounds
  import opened Protocol
  import opened Runs
  import opened RecursionWrap
  import opened ZeroRuns
  import BitReverseInPlace

  /** The polynomial x, by its coefficients. */
  function Constant(x: int): Poly {
    Tabulate(k => if k == 0 then x else 0)
  }

  lemma ConstantAt(x: int, k: nat)
    requires k < D
    ensures At(Constant(x), k) == M(if k == 0 then x else 0) && At(ConstPoly(x), k) == M(x)
  {}

  /** A constant has the same value everywhere. */
  lemma NttOfConstant(x: int)
    ensures Ntt(Constant(x)) == ConstPoly(x) && Intt(ConstPoly(x)) == Constant(x)
  {
    hide Ntt, Intt, Rev, Pow2, Sum, Constant, ConstPoly, Pow;
    forall k | 0 <= k < D ensures At(Ntt(Constant(x)), k) == At(ConstPoly(x), k) {
      NttAt(Constant(x), k);
      ConstantAt(x, k);
      ConstantSum(x, Rev(k, LOG_D));
    }
    PolyExt(Ntt(Constant(x)), ConstPoly(x));
    InttNtt(Constant(x));
  }

  lemma ConstantSum(x: int, k: int)
    ensures M(Fwd(PSI, LOG_D, Coeffs(Constant(x)), k)) == M(x)
  {
    hide Rev, Pow2, Sum, Constant;
    var f := Pointwise(Coeffs(Constant(x)), FwdKernel(PSI, k));
    SizeIsD();
    forall i | 0 <= i < Pow2(LOG_D) && i != 0 ensures f(i) == 0 {
      ConstantAt(x, i);
      ZeroFactor(Coeffs(Constant(x)), FwdKernel(PSI, k), i);
    }
    SumSingle(Pow2(LOG_D), 0, f);
    ConstantAt(x, 0);
    assert 0 * (2 * k + 1) == 0 && Pow(PSI, 0) == 1;
    assert f(0) == At(Constant(x), 0) * 1;
  }

  lemma VectorOfConstant(x: int)
    ensures NttVec([Constant(x)]) == [ConstPoly(x)] && InttVec([ConstPoly(x)]) == [Constant(x)]
  {
    hide Ntt, Intt, Constant, ConstPoly;
    NttOfConstant(x);
  }

  /** base0 in base base0 has the digits zero and one, which recompose. */
  lemma DigitsOfBase(b: nat)
    requires 0x1_0000 <= b < 0x1_0000_0000
    ensures DecomposeVec([Constant(b)], b, 2) == [ZERO, Constant(1)]
    ensures RecomposeVec([ZERO, Constant(1)], b, 2, 1) == [Constant(b)]
  {
    hide DecomposeVec, RecomposeVec, Constant, Slot, Rest;
    var v, d := [Constant(b)], DecomposeVec([Constant(b)], b, 2);
    var e := [ZERO, Constant(1)];
    assert |d| == 2 by { DigitsSize(v, b, 2); }
    forall i, k | 0 <= i < 2 && 0 <= k < D ensures Slot(d, i, k) == Slot(e, i, k) {
      DigitOfBase(b, i, k);
    }
    VecExt(d, e);
    var r := RecomposeVec(e, b, 2, 1);
    RecomposedSize(e, b, 2, 1);
    forall i, k | 0 <= i < 1 && 0 <= k < D ensures Slot(r, i, k) == Slot(v, i, k) {
      RecomposedBase(b, k);
    }
    VecExt(r, v);
  }

  lemma ConstantSlots(x: int, k: nat)
    requires k < D
    ensures Slot([Constant(x)], 0, k) == M(if k == 0 then x else 0)
    ensures Slot([ZERO, Constant(x)], 0, k) == 0 && Slot([ZERO, Constant(x)], 1, k) == M(if k == 0 then x else 0)
  {
    hide Constant;
    ConstantAt(x, k);
  }

  lemma DigitOfBase(b: nat, i: nat, k: nat)
    requires 0x1_0000 <= b < 0x1_0000_0000 && i < 2 && k < D
    ensures Slot(DecomposeVec([Constant(b)], b, 2), i, k) == Slot([ZERO, Constant(1)], i, k)
  {
    hide DecomposeVec, Constant, Slot, Rest;
    DecomposeSlot([Constant(b)], b, 2, i, 0, k);
    assert i * |[Constant(b)]| + 0 == i;
    ConstantSlots(b, k);
    ConstantSlots(1, k);
    TwoRests(if k == 0 then b else 0, b);
    BaseDigits(b);
  }

  lemma TwoRests(v: int, b: int)
    requires b >= 2
    ensures Rest(v, b, 0) == v && Rest(v, b, 1) == Carry(v, b)
  {
    assert Rest(v, b, 1) == Carry(Rest(v, b, 0), b);
  }

  lemma BaseDigits(b: nat)
    requires 0x1_0000 <= b < 0x1_0000_0000
    ensures Digit(b, b) == 0 && Carry(b, b) == 1 && Digit(1, b) == 1 && Digit(0, b) == 0 && Carry(0, b) == 0
    ensures M(b) == b && Centered(b, Q, b) == b && Centered(0, Q, b) == 0
  {
    SmallDigit(b, 0);
    SmallDigit(b, 1);
    SelfRemainder(b);
    DigitCarry(b, b);
    DigitCarry(0, b);
    hide Digit, Carry;
    UnitCarry(b, Carry(b, b), 1);
    UnitCarry(b, Carry(0, b), 0);
  }

  lemma SmallDigit(b: nat, x: nat)
    requires b >= 4 && x <= 1
    ensures Digit(x, b) == x
  {
    BitReverseInPlace.QuotientUnique(x, b, 0, x);
  }

  lemma SelfRemainder(b: nat)
    requires b >= 4
    ensures Digit(b, b) == 0
  {
    BitReverseInPlace.QuotientUnique(b, b, 1, 0);
  }

  lemma UnitCarry(b: nat, c: int, n: int)
    requires b > 0 && b * n == b * c
    ensures c == n
  {
    Distribute(b, n, c, n - c);
    if n > c {
      NonNegative(b, n - c - 1);
      Distribute(b, n - c, n - c - 1, 1);
    } else if n < c {
      NonNegative(b, c - n - 1);
      Distribute(b, n - c, n - c + 1, -1);
      Distribute(b, 0, n - c + 1, c - n - 1);
    }
  }

  lemma RecomposedBase(b: nat, k: nat)
    requires 0x1_0000 <= b < 0x1_0000_0000 && k < D
    ensures Slot(RecomposeVec([ZERO, Constant(1)], b, 2, 1), 0, k) == Slot([Constant(b)], 0, k)
  {
    hide RecomposeVec, Constant, Slot, Sum;
    var e := [ZERO, Constant(1)];
    RecomposeSlot(e, b, 2, 1, 0, k);
    TwoDigitSum(b, e, 1, 0, k);
    ConstantSlots(b, k);
    ConstantSlots(1, k);
    assert b * Slot(e, 1, k) == if k == 0 then b else 0;
  }

  /** A backend of constant functions with the given base0; challenges are one. */
  function UnitBackend(b: nat): Backend {
    Backend(x => [], (x, n, i) => 0, (x, n, i) => ConstPoly(1), (x, n, i) => ZERO, (x, n, r, i) => Constant(1),
            (x, n, j, l) => 0, (x, p, s) => 0, v => [], (i, v) => [], (p, m, l) => [], (p, v) => true, (p, v) => true,
            (r, beta) => b, (n, m) => 1, (n, m) => 1, 1)
  }

  /** One row of length one and no constraints; the witness is the constant base0. */
  function SmallInstance(b: nat): (inst: Instance)
    ensures inst.Valid() && inst.param.r == 1 && inst.param.n == 1 && inst.eqs == [] && inst.zeros == []
  {
    Instance(MakeParam(UnitBackend(b), 1, 1, [], 1, 1, 1, 2, 2, 2, 1.0), [], [])
  }

  lemma OneByOne(x: int)
    ensures Matmul([ConstPoly(1)], 1, 1, [ConstPoly(x)], 1) == [ConstPoly(x)]
  {
    hide Matmul, Slot, Sum, ConstPoly;
    var m := Matmul([ConstPoly(1)], 1, 1, [ConstPoly(x)], 1);
    MatmulSize([ConstPoly(1)], 1, 1, [ConstPoly(x)], 1);
    forall i, k | 0 <= i < 1 && 0 <= k < D ensures Slot(m, i, k) == Slot([ConstPoly(x)], i, k) {
      OneByOneSlot(x, k);
    }
    VecExt(m, [ConstPoly(x)]);
  }

  lemma OneByOneSlot(x: int, k: nat)
    requires k < D
    ensures Slot(Matmul([ConstPoly(1)], 1, 1, [ConstPoly(x)], 1), 0, k) == Slot([ConstPoly(x)], 0, k)
  {
    hide Matmul, Sum;
    MatmulSlot([ConstPoly(1)], 1, 1, [ConstPoly(x)], 1, 0, 0, k);
    var f := l => Slot([ConstPoly(1)], 0 * 1 + l, k) * Slot([ConstPoly(x)], l * 1 + 0, k);
    SumSingle(1, 0, f);
    assert f(0) == 1 * M(x);
  }

  /** The first round of that run answers with z = base0. */
  lemma FirstZ(b: nat)
    ensures var rd := HonestRound(UnitBackend(b), SmallInstance(b), [Constant(b)], []);
      rd.proof.zHat == [ConstPoly(b)]
  {
    hide ProverT, ProverG, ProverH, AllEqualities, Aggregate, OpeningU1, OpeningU2, SampleTq, SampleZq, Project, AddedB,
      Matmul, NttVec, MakeParam, Constant, ConstPoly;
    var bk, s := UnitBackend(b), [Constant(b)];
    var rd := HonestRound(bk, SmallInstance(b), s, []);
    UnitChallenge(b, rd.trs.seed4);
    VectorOfConstant(b);
    OneByOne(b);
  }

  lemma UnitChallenge(b: nat, seed: Bytes)
    ensures SampleChallenges(UnitBackend(b), 1, 1, seed) == [ConstPoly(1)]
  {
    hide NttVec, Constant, ConstPoly;
    var cs := Vec<Poly>(1, i => UnitBackend(b).sampleChallenge(seed, 1, 1, i));
    assert UnitBackend(b).sampleChallenge(seed, 1, 1, 0) == Constant(1);
    assert cs == [Constant(1)];
    VectorOfConstant(1);
  }

  lemma FirstParts(b: nat, p: Param, pf: Proof)
    requires 0x1_0000 <= b < 0x1_0000_0000 && p.Valid() && ProofShape(p, pf) && pf.zHat == [ConstPoly(b)] && p.n == 1
    ensures NextParts(p, pf, b).z1 == [Constant(1)]
    ensures forall mu: nat, nu: nat :: mu >= 1 && nu >= 1 ==> NextWitness(p, pf, b, mu, nu).Done?
  {
    hide DecomposeVec, RecomposeVec, InttVec, Constant, ConstPoly, Packed, Param.TLen, Param.GLen, Param.HLen;
    VectorOfConstant(b);
    DigitsOfBase(b);
    assert [ZERO, Constant(1)][1..] == [Constant(1)];
  }

  lemma DotOne(k: nat)
    requires k < D
    ensures Dot([ConstPoly(1)], [ConstPoly(1)], 1, k) == 1
  {
    hide Sum;
    var v := [ConstPoly(1)];
    SumSingle(1, 0, Pointwise(Slots(v, k), Slots(v, k)));
  }

  /** Its excess is what is lost of base0^2, at every coordinate. */
  lemma FirstExcess(b: nat, p: Param, pf: Proof, k: nat)
    requires 0x1_0000 <= b < 0x1_0000_0000 && p.Valid() && ProofShape(p, pf) && pf.zHat == [ConstPoly(b)] && p.n == 1
    requires k < D
    ensures Excess(p, pf, b, k) == WrapSquare(b) - b * b
  {
    hide NextParts, NttVec, Dot, WrapSquare, Constant, ConstPoly;
    FirstParts(b, p, pf);
    VectorOfConstant(1);
    DotOne(k);
  }

  ghost predicate UsesBase(bk: Backend, base0: nat) {
    forall r: nat, beta: real :: bk.base0(r, beta) == base0
  }

  lemma WrapAdvances(b: nat)
    requires 0x1_0000 <= b < 0x1_0000_0000
    ensures var bk, inst, s := UnitBackend(b), SmallInstance(b), [Constant(b)];
      var next := Advance(bk, inst, HonestRound(bk, inst, s, []));
      next.Done? && EqualBases(next.value.inst.param)
  {
    hide ProverRound, RecursionConstraints, NextWitness, Param.TLen, Param.GLen, Param.HLen, NextBeta, SmallInstance,
      Constant, ConstPoly;
    var bk, inst, s := UnitBackend(b), SmallInstance(b), [Constant(b)];
    FirstZ(b);
    FirstParts(b, inst.param, HonestRound(bk, inst, s, []).proof);
  }

  /** The run meets all other conditions of completeness. */
  lemma WrapFits(b: nat)
    requires 0x1_0000 <= b < 0x1_0000_0000
    ensures UsesBase(UnitBackend(b), b) && TwoRoundsFit(UnitBackend(b), SmallInstance(b), [Constant(b)], [])
  {
    hide HonestRound, Advance, SmallInstance, EqualBases, SmallBases, SwappedBasesFit, Constant, InttVec;
    var bk, inst, s := UnitBackend(b), SmallInstance(b), [Constant(b)];
    WrapAdvances(b);
    BasesFit(Advance(bk, inst, HonestRound(bk, inst, s, [])).value.inst.param);
  }

  /** Its excess is not hidden: the challenge that weighs it is one. */
  lemma WrapSeen(b: nat)
    requires 0x1_0000 <= b < 0x1_0000_0000
    requires TwoRoundsFit(UnitBackend(b), SmallInstance(b), [Constant(b)], [])
    ensures !ExcessHidden(UnitBackend(b), SmallInstance(b), [Constant(b)], [])
  {
    hide HonestRound, Advance, SmallInstance, Constant, Excess, WrapSquare, LastRoundFits, Instance.Valid, Witnessed;
    var bk, inst, s := UnitBackend(b), SmallInstance(b), [Constant(b)];
    var rd := HonestRound(bk, inst, s, []);
    var next := Advance(bk, inst, rd).value;
    var rd2 := HonestRound(bk, next.inst, next.s, rd.trs.seed4);
    FirstZ(b);
    InstanceParam(inst);
    FirstExcess(b, inst.param, rd.proof, 0);
    WrapLoses(b);
    EqsNotEmpty(bk, inst, s);
    UnitAlpha(b, next.inst, next.s, rd.trs.seed4, |next.inst.eqs| - 1);
    assert 1 * Excess(inst.param, rd.proof, b, 0) == Excess(inst.param, rd.proof, b, 0);
  }

  /** And so the next witness violates the next instance's constraints. */
  lemma NextUnwitnessed(b: nat)
    requires 0x1_0000 <= b < 0x1_0000_0000
    requires TwoRoundsFit(UnitBackend(b), SmallInstance(b), [Constant(b)], [])
    ensures var next := Advance(UnitBackend(b), SmallInstance(b),
                                HonestRound(UnitBackend(b), SmallInstance(b), [Constant(b)], [])).value;
      !Witnessed(next.inst, next.s)
  {
    hide HonestRound, Advance, SmallInstance, Constant, Excess, WrapSquare, LastRoundFits, Instance.Valid, Witnessed,
      Satisfies, NttVec, PartVerify;
    var bk, inst, s := UnitBackend(b), SmallInstance(b), [Constant(b)];
    var rd := HonestRound(bk, inst, s, []);
    FirstZ(b);
    InstanceParam(inst);
    HonestStep(bk, inst, s, []);
    AdvanceWitnessedIff(bk, inst, s, []);
    FirstExcess(b, inst.param, rd.proof, 0);
    WrapLoses(b);
  }

  lemma InstanceParam(inst: Instance)
    requires inst.Valid()
    ensures inst.param.Valid()
  {}

  lemma EqsNotEmpty(bk: Backend, inst: Instance, s: seq<Poly>)
    requires TwoRoundsFit(bk, inst, s, [])
    ensures |Advance(bk, inst, HonestRound(bk, inst, s, [])).value.inst.eqs| >= 1
  {
    hide HonestRound, Advance, LastRoundFits, Instance.Valid, Witnessed, NttVec, Satisfies, PartVerify, EvalAt, Excess;
    HonestStep(bk, inst, s, []);
    NextConstraints(bk, inst, s, []);
  }

  lemma UnitAlpha(b: nat, inst: Instance, s: seq<Poly>, state: Bytes, z: nat)
    requires inst.Valid() && z < |inst.eqs|
    ensures Slot(HonestRound(UnitBackend(b), inst, s, state).trs.alpha, z, 0) == 1
  {
    hide ProverRound, Instance.Valid, FinalConstraint, SampleChallenges, SampleZq, ConstPoly;
    ValidParam(inst);
    SameTranscript(UnitBackend(b), inst, s, state);
    var t := HonestRound(UnitBackend(b), inst, s, state).trs;
    var seed3 := t.seed3;
    assert t.alpha == SampleTq(UnitBackend(b), seed3 + [ONE_MARK], |inst.eqs| + inst.param.rounds);
    assert t.alpha[z] == ConstPoly(1);
    ConstantAt(1, 0);
  }

  /** The bound on base0 is exact: honest runs of two rounds that meet all other conditions are accepted for every
      backend, instance and witness if and only if base0^2 fits into 32 bits. */
  lemma BaseBoundIsSharp(base0: nat)
    requires 2 <= base0 < 0x1_0000_0000
    ensures (forall bk: Backend, inst: Instance, s: seq<Poly>, state: Bytes ::
               UsesBase(bk, base0) && TwoRoundsFit(bk, inst, s, state) ==> RunAccepted(bk, inst, s, state))
       <==> base0 < 0x1_0000
  {
    hide TwoRoundsFit, RunAccepted, SmallInstance, Constant;
    if base0 < 0x1_0000 {
      forall bk: Backend, inst: Instance, s: seq<Poly>, state: Bytes
        | UsesBase(bk, base0) && TwoRoundsFit(bk, inst, s, state)
        ensures RunAccepted(bk, inst, s, state)
      {
        NoWrapAccepted(bk, inst, s, state, base0);
      }
    } else {
      WrapFits(base0);
      WrapRejected(base0);
    }
  }

  ghost predicate RunAccepted(bk: Backend, inst: Instance, s: seq<Poly>, state: Bytes)
    requires TwoRoundsFit(bk, inst, s, state)
  {
    var run := TwoRounds(bk, inst, s, state);
    Verify(bk, inst, MessagesOf(run.transcripts), run.proof, state, true)
  }

  /** An honest run that the verifier rejects, even when it does not look at the norms of the digits. */
  lemma WrapRejected(b: nat)
    requires 0x1_0000 <= b < 0x1_0000_0000
    ensures var bk, inst, s := UnitBackend(b), SmallInstance(b), [Constant(b)];
      && TwoRoundsFit(bk, inst, s, []) && Prove(bk, inst, s, [], 2) == Done(TwoRounds(bk, inst, s, []))
      && !RunAccepted(bk, inst, s, [])
      && var run := TwoRounds(bk, inst, s, []);
         !Verify(bk, inst, MessagesOf(run.transcripts), run.proof, [], false)
  {
    hide HonestRound, Advance, SmallInstance, Constant, TwoRoundsFit, TwoRounds, ExcessHidden, Verify, Prove;
    var bk, inst, s := UnitBackend(b), SmallInstance(b), [Constant(b)];
    WrapFits(b);
    WrapSeen(b);
    ProvedTwo(bk, inst, s, []);
    TwoRoundsAcceptedIff(bk, inst, s, [], true);
    TwoRoundsAcceptedIff(bk, inst, s, [], false);
  }

  lemma NoWrapAccepted(bk: Backend, inst: Instance, s: seq<Poly>, state: Bytes, base0: nat)
    requires 2 <= base0 < 0x1_0000 && UsesBase(bk, base0) && TwoRoundsFit(bk, inst, s, state)
    ensures RunAccepted(bk, inst, s, state)
  {
    hide HonestRound, Advance, Verify, TwoRounds, Excess;
    var rd := HonestRound(bk, inst, s, state);
    var next := Advance(bk, inst, rd).value;
    var rd2 := HonestRound(bk, next.inst, next.s, rd.trs.seed4);
    NothingLost(inst.param, rd.proof, base0, rd2.trs.alpha, |next.inst.eqs| - 1);
    TwoRoundsAcceptedIff(bk, inst, s, state, true);
  }

  lemma NothingLost(p: Param, pf: Proof, base0: nat, alpha: seq<Poly>, z: int)
    requires 2 <= base0 < 0x1_0000
    ensures Hidden(p, pf, base0, alpha, z)
  {
    hide NextParts, Dot, NttVec, WrapSquare, Slot;
    WrapFree(base0);
    forall k | 0 <= k < D ensures M(Slot(alpha, z, k) * Excess(p, pf, base0, k)) == 0 {
      ZeroTimes(WrapSquare(base0) - base0 * base0,
                Dot(NttVec(NextParts(p, pf, base0).z1), NttVec(NextParts(p, pf, base0).z1), p.n, k));
      ZeroTimes(Excess(p, pf, base0, k), Slot(alpha, z, k));
    }
  }
}
