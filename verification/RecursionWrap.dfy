/** What the 32-bit product base0 * base0 does to a run: the exact condition under which the next round can still be
    satisfied, and runs for every base0 that wraps in which it cannot. */
module RecursionWrap {
  import opened Residues
  import opened Products
  import opened Sums
  import opened Arrays
  import opened Polynomials
  import opened Vectors
  import opened Constraints
  import opened Layout
  import opened Parameters
  import opened BaseChecks
  import opened DigitVectors
  import opened Recursion
  import opened LinearMeaning
  import opened SquareMeaning
  import opened RecursionTheorem
  import opened BaseProver
  import opened BaseCompleteness
  import opened NormBounds
  import opened Protocol
  import opened Runs

  /** The inverse of 2^32. */
  const INV_2_32: int := 0x39703800b2c90000

  /** No multiple of 2^32 short of 2^64 is a multiple of q. */
  lemma WordMultiple(m: int)
    requires 0 < m < 0x1_0000_0000
    ensures M(0x1_0000_0000 * m) != 0
  {
    var j := (0x1_0000_0000 * m) / Q;
    assert INV_2_32 * 0x1_0000_0000 == Q * 4143972351 + 1;
    assert 0x1_0000_0000 * m != Q * j;
  }

  /** How much is lost when base0^2 wraps is never zero in the ring. */
  lemma WrapLoses(base0: nat)
    requires 0x1_0000 <= base0 < 0x1_0000_0000
    ensures M(WrapSquare(base0) - base0 * base0) != 0
  {
    var sq := base0 * base0;
    assert sq >= 0x1_0000_0000 by {
      NonNegative(base0 - 0x1_0000, base0 - 0x1_0000);
      assert (base0 - 0x1_0000) * (base0 - 0x1_0000) == sq - 0x2_0000 * base0 + 0x1_0000_0000;
    }
    assert sq < 0x1_0000_0000_0000_0000 by {
      NonNegative(base0, 0xffff_ffff - base0);
      assert base0 * (0xffff_ffff - base0) == 0xffff_ffff * base0 - sq;
    }
    var m := sq / 0x1_0000_0000;
    assert WrapSquare(base0) - sq == -(0x1_0000_0000 * m);
    WordMultiple(m);
  }

  /** What the constraint on z is off by at coordinate k: the lost part of base0^2 times <z1, z1>. */
  function Excess(p: Param, pf: Proof, base0: nat, k: int): int
    requires base0 >= 2
  {
    var z1 := NttVec(NextParts(p, pf, base0).z1);
    (WrapSquare(base0) - base0 * base0) * Dot(z1, z1, p.n, k)
  }

  ghost predicate Harmless(p: Param, pf: Proof, base0: nat)
    requires base0 >= 2
  {
    forall k :: 0 <= k < D ==> M(Excess(p, pf, base0, k)) == 0
  }

  /** Of the constraints that follow from a proof that checks, only the last can be violated, by the excess. */
  ghost predicate LastIsOff(cs: seq<Equality>, s: seq<Poly>, p: Param, pf: Proof, base0: nat)
    requires base0 >= 2
  {
    && |cs| >= 1
    && (forall i :: 0 <= i < |cs| - 1 ==> Satisfies(cs[i], s))
    && forall k :: 0 <= k < D ==> M(EvalAt(cs[|cs| - 1], s, k)) == M(Excess(p, pf, base0, k))
  }

  lemma ExcessMeaning(p: Param, pr: Preparer, c: seq<Poly>, pf: Proof, base0: nat, k: nat)
    requires base0 >= 2 && p.Bases() && k < D
    requires var w := NextParts(p, pf, base0);
      Fits(pr) && Shaped(pr, w) && pr.gLen == p.GLen() && pr.prevN == p.n && ProofOf(w, base0) == pf
    requires Vanishes(GapZ(p, c, pf.zHat, SymmHat(pf.g, p.base2, p.r)), 1)
    ensures M(EvalAt(ZConstraint(p, pr, c, base0), Witness(pr, NextParts(p, pf, base0)), k))
         == M(Excess(p, pf, base0, k))
  {
    hide EvalAt, M, Witness, ZHat, SymmHat, GapZ, ZConstraint, Fits, Shaped, Param.GLen, Dot, WrapSquare, NextParts;
    var w := NextParts(p, pf, base0);
    ZMeaning(p, pr, c, base0, w, k);
    var gap := GapZ(p, c, pf.zHat, SymmHat(pf.g, p.base2, p.r))(0, k);
    assert M(gap) == 0;
    DropZero(gap, Excess(p, pf, base0, k));
  }

  lemma DropZero(x: int, y: int)
    requires M(x) == 0
    ensures M(x + y) == M(y)
  {}

  /** The constraints built from a proof that checks. */
  lemma ConstraintsOfProof(p: Param, rd: Round, base0: nat, mu: nat, nu: nat)
    requires p.Valid() && ProofShape(p, rd.proof) && base0 >= 2 && mu >= 1 && nu >= 1
    requires NextWitness(p, rd.proof, base0, mu, nu).Done?
    requires |rd.final.a| == p.r * p.r && |rd.trs.msg.u1| == p.kappa1 && |rd.trs.msg.u2| == p.kappa2
    requires Algebraic(p, rd.final, rd.trs.msg.u1, rd.trs.msg.u2, rd.trs.challenges, rd.proof)
    ensures var t := rd.trs;
      LastIsOff(RecursionConstraints(p, rd.final, t.msg.u1, t.msg.u2, t.challenges, base0, mu, nu),
                NttVec(NextWitness(p, rd.proof, base0, mu, nu).value), p, rd.proof, base0)
  {
    hide AllSatisfied, Witness, Vanishes, GapU1, GapU2, GapA, GapPhi, GapTrace, WrappedGapZ, ZHat, THat, SymmHat, GapZ,
      Fits, U1Constraint, U2Constraint, AConstraint, PhiConstraint, TraceConstraint, ZConstraint, Param.TLen,
        Param.GLen,
      Param.HLen, Algebraic, NttVec, InttVec, RecomposeVec, Excess, EvalAt, Satisfies, Packed, NextParts, Shaped;
    var t, w := rd.trs, NextParts(p, rd.proof, base0);
    PrepareFits(p.n, p.TLen(), p.GLen(), p.HLen(), mu, nu);
    var pr := RecursionLayout(p, mu, nu);
    PartsShaped(p, rd.proof, base0, mu, nu);
    PartsOfProof(p, rd.proof, base0, mu, nu);
    ChecksMeaning(p, rd.final, t.msg.u1, t.msg.u2, t.challenges, rd.proof);
    CommitmentGroups(p, pr, t.msg.u1, t.msg.u2, t.challenges, base0, w);
    SingleConstraints(p, pr, rd.final, t.challenges, base0, w);
    var a, b, d := Vec(p.kappa1, i => U1Constraint(p, pr, t.msg.u1, i)),
                   Vec(p.kappa2, i => U2Constraint(p, pr, t.msg.u2, i)),
                   Vec(p.kappa, i => AConstraint(p, pr, t.challenges, base0, i));
    var x, y := PhiConstraint(p, pr, rd.final.phi, t.challenges, base0), TraceConstraint(p, pr, rd.final);
    var z := ZConstraint(p, pr, t.challenges, base0);
    forall k | 0 <= k < D ensures M(EvalAt(z, Witness(pr, w), k)) == M(Excess(p, rd.proof, base0, k)) {
      ExcessMeaning(p, pr, t.challenges, rd.proof, base0, k);
    }
    AllButLast(a, b, d, x, y, z, Witness(pr, w));
    WitnessIs(p, rd.proof, base0, mu, nu);
  }

  lemma PartsOfProof(p: Param, pf: Proof, base0: nat, mu: nat, nu: nat)
    requires p.Valid() && ProofShape(p, pf) && base0 >= 2 && mu >= 1 && nu >= 1
    requires NextWitness(p, pf, base0, mu, nu).Done?
    ensures ProofOf(NextParts(p, pf, base0), base0) == pf && |pf.zHat| == p.n
  {
    hide InttVec, DecomposeVec, RecomposeVec, ZHat, Packed, Param.TLen, Param.GLen, Param.HLen, Shaped, Fits;
    PartsStandForZ(pf, p, base0);
  }

  lemma WitnessIs(p: Param, pf: Proof, base0: nat, mu: nat, nu: nat)
    requires p.Valid() && ProofShape(p, pf) && base0 >= 2 && mu >= 1 && nu >= 1
    requires NextWitness(p, pf, base0, mu, nu).Done?
    ensures var pr := RecursionLayout(p, mu, nu);
      && Fits(pr) && Shaped(pr, NextParts(p, pf, base0))
      && NttVec(NextWitness(p, pf, base0, mu, nu).value) == Witness(pr, NextParts(p, pf, base0))
  {
    hide InttVec, DecomposeVec, RecomposeVec, Packed, Param.TLen, Param.GLen, Param.HLen, NttVec;
    PrepareFits(p.n, p.TLen(), p.GLen(), p.HLen(), mu, nu);
    PartsShaped(p, pf, base0, mu, nu);
  }

  lemma AllButLast(a: seq<Equality>, b: seq<Equality>, d: seq<Equality>, x: Equality, y: Equality, z: Equality,
                   s: seq<Poly>)
    requires AllSatisfied(a, s) && AllSatisfied(b, s) && AllSatisfied(d, s) && AllSatisfied([x], s) && AllSatisfied([y],
        s)
    ensures var cs := a + b + d + [x, y, z];
      cs[|cs| - 1] == z && forall i :: 0 <= i < |cs| - 1 ==> Satisfies(cs[i], s)
  {
    hide AllSatisfied, Satisfies;
    var front, cs := a + b + d + [x, y], a + b + d + [x, y, z];
    AllConcat(a + b + d, [x, y], s);
    AllConcat(a + b, d, s);
    AllConcat(a, b, s);
    assert [x, y] == [x] + [y];
    AllConcat([x], [y], s);
    assert cs == front + [z];
    EachOf(front, s);
  }

  lemma EachOf(cs: seq<Equality>, s: seq<Poly>)
    requires AllSatisfied(cs, s)
    ensures forall i :: 0 <= i < |cs| ==> Satisfies(cs[i], s)
  {}

  /** For every base0, the next witness is one of the next instance exactly when the excess vanishes. */
  lemma AdvanceWitnessedIff(bk: Backend, inst: Instance, s: seq<Poly>, state: Bytes)
    requires inst.Valid() && Satisfies(HonestRound(bk, inst, s, state).final, NttVec(s))
    requires Advance(bk, inst, HonestRound(bk, inst, s, state)).Done?
    ensures bk.base0(inst.param.r, inst.param.beta) >= 2
    ensures var rd := HonestRound(bk, inst, s, state);
      var next := Advance(bk, inst, rd).value;
      (Witnessed(next.inst, next.s) <==> Harmless(inst.param, rd.proof, bk.base0(inst.param.r, inst.param.beta)))
  {
    hide HonestRound, NttVec, Satisfies, EvalAt, Excess, Param.TLen, Param.GLen, Param.HLen;
    var p, rd := inst.param, HonestRound(bk, inst, s, state);
    var base0 := bk.base0(p.r, p.beta);
    NextConstraints(bk, inst, s, state);
    var next := Advance(bk, inst, rd).value;
    LastDecides(next.inst.eqs, NttVec(next.s), p, rd.proof, base0);
  }

  /** The next instance and its witness, as the recursion step builds them. */
  lemma NextConstraints(bk: Backend, inst: Instance, s: seq<Poly>, state: Bytes)
    requires inst.Valid() && Satisfies(HonestRound(bk, inst, s, state).final, NttVec(s))
    requires Advance(bk, inst, HonestRound(bk, inst, s, state)).Done?
    ensures bk.base0(inst.param.r, inst.param.beta) >= 2
    ensures var rd := HonestRound(bk, inst, s, state);
      var next := Advance(bk, inst, rd).value;
      && LastIsOff(next.inst.eqs, NttVec(next.s), inst.param, rd.proof, bk.base0(inst.param.r, inst.param.beta))
      && next.inst.zeros == [] && |next.s| == next.inst.param.r * next.inst.param.n
  {
    hide ProverRound, Algebraic, NttVec, Satisfies, RecursionConstraints, Packed, Param.TLen, Param.GLen, Param.HLen,
      Fits, Shaped, NextParts, InttVec, RecomposeVec, DecomposeVec, Prepare, NextBeta, LastIsOff;
    var p, rd := inst.param, HonestRound(bk, inst, s, state);
    var base0, mu, nu := bk.base0(p.r, p.beta), NextMu(bk, p), NextNu(bk, p);
    RoundChecks(bk, inst, s, state);
    FinalShape(bk, inst, s, state);
    ConstraintsOfProof(p, rd, base0, mu, nu);
  }

  lemma LastDecides(cs: seq<Equality>, s: seq<Poly>, p: Param, pf: Proof, base0: nat)
    requires base0 >= 2 && LastIsOff(cs, s, p, pf, base0)
    ensures (forall i :: 0 <= i < |cs| ==> Satisfies(cs[i], s)) <==> Harmless(p, pf, base0)
  {
    hide EvalAt, Excess;
    var last := cs[|cs| - 1];
    if forall i :: 0 <= i < |cs| ==> Satisfies(cs[i], s) { assert Satisfies(last, s); }
    if Harmless(p, pf, base0) {
      forall k | 0 <= k < D ensures M(EvalAt(last, s, k)) == 0 {
        assert M(EvalAt(cs[|cs| - 1], s, k)) == M(Excess(p, pf, base0, k));
      }
      assert Satisfies(last, s);
    }
  }

  /** An aggregate of constraints of which all but one are satisfied. */
  lemma OneOffender(cs: seq<Equality>, alpha: seq<Poly>, r: nat, n: nat, s: seq<Poly>, z: nat)
    requires z < |cs| && forall i :: 0 <= i < |cs| ==> cs[i].r == r && cs[i].n == n
    requires forall i :: 0 <= i < |cs| && i != z ==> Satisfies(cs[i], s)
    ensures Satisfies(Aggregate(cs, alpha, r, n), s)
       <==> forall k :: 0 <= k < D ==> M(Slot(alpha, z, k) * EvalAt(cs[z], s, k)) == 0
  {
    hide EvalAt, Aggregate, M;
    var c := Aggregate(cs, alpha, r, n);
    forall k | 0 <= k < D ensures M(EvalAt(c, s, k)) == M(Slot(alpha, z, k) * EvalAt(cs[z], s, k)) {
      OffenderAt(cs, alpha, r, n, s, z, k);
    }
  }

  lemma OffenderAt(cs: seq<Equality>, alpha: seq<Poly>, r: nat, n: nat, s: seq<Poly>, z: nat, k: nat)
    requires z < |cs| && k < D && forall i :: 0 <= i < |cs| ==> cs[i].r == r && cs[i].n == n
    requires forall i :: 0 <= i < |cs| && i != z ==> Satisfies(cs[i], s)
    ensures M(EvalAt(Aggregate(cs, alpha, r, n), s, k)) == M(Slot(alpha, z, k) * EvalAt(cs[z], s, k))
  {
    hide EvalAt, Aggregate, M, Sum, Slot;
    AggregateEval(cs, alpha, r, n, s, k);
    var f := EvalTerms(cs, alpha, s, k);
    var g := i => if i == z then f(z) else 0;
    forall i | 0 <= i < |cs| ensures M(f(i)) == M(g(i)) {
      if i != z { ZeroEvaluation(cs[i], Slot(alpha, i, k), s, k); }
    }
    SumCong(|cs|, f, g);
    SumSingle(|cs|, z, g);
    assert ConstraintAt(cs, z) == cs[z];
  }

  lemma ZeroEvaluation(c: Equality, x: int, s: seq<Poly>, k: nat)
    requires k < D && Satisfies(c, s)
    ensures M(x * EvalAt(c, s, k)) == M(0)
  {
    hide EvalAt;
    CongScale(EvalAt(c, s, k), 0, x);
    assert x * 0 == 0;
  }

  /** The challenge that weighs the last of the recursion's constraints hides the excess. */
  ghost predicate Hidden(p: Param, pf: Proof, base0: nat, alpha: seq<Poly>, z: int)
    requires base0 >= 2
  {
    forall k :: 0 <= k < D ==> M(Slot(alpha, z, k) * Excess(p, pf, base0, k)) == 0
  }

  /** The next round's aggregated constraint holds of its witness exactly when the excess is hidden. */
  lemma NextFinalIff(bk: Backend, inst: Instance, s: seq<Poly>, state: Bytes)
    requires inst.Valid() && Satisfies(HonestRound(bk, inst, s, state).final, NttVec(s))
    requires Advance(bk, inst, HonestRound(bk, inst, s, state)).Done?
    ensures bk.base0(inst.param.r, inst.param.beta) >= 2
    ensures var rd := HonestRound(bk, inst, s, state);
      var next := Advance(bk, inst, rd).value;
      var rd2 := HonestRound(bk, next.inst, next.s, rd.trs.seed4);
      (Satisfies(rd2.final, NttVec(next.s)) <==>
       Hidden(inst.param, rd.proof, bk.base0(inst.param.r, inst.param.beta), rd2.trs.alpha, |next.inst.eqs| - 1))
  {
    hide ProverRound, NttVec, Satisfies, EvalAt, Excess, Advance, LastIsOff, Hidden;
    var rd := HonestRound(bk, inst, s, state);
    NextConstraints(bk, inst, s, state);
    var next := Advance(bk, inst, rd).value;
    FinalOfLastOff(bk, next.inst, next.s, rd.trs.seed4, inst.param, rd.proof, bk.base0(inst.param.r, inst.param.beta));
  }

  lemma FinalOfLastOff(bk: Backend, inst: Instance, s: seq<Poly>, state: Bytes, p: Param, pf: Proof, base0: nat)
    requires inst.Valid() && base0 >= 2 && LastIsOff(inst.eqs, NttVec(s), p, pf, base0)
    ensures var rd := ProverRound(bk, inst, s, state);
      (Satisfies(rd.final, NttVec(s)) <==> Hidden(p, pf, base0, rd.trs.alpha, |inst.eqs| - 1))
  {
    hide ProverRound, NttVec, Satisfies, EvalAt, Excess, Aggregate, AddedConstraint, M, Slot;
    ValidParam(inst);
    var rd, v := ProverRound(bk, inst, s, state), NttVec(s);
    var t := rd.trs;
    SameTranscript(bk, inst, s, state);
    RoundHonest(bk, inst, s, state);
    var cs := AllEqualities(bk, inst, t.seed1, t.msg.jlI, t.psi, t.omega, t.msg.bAgg);
    var z := |inst.eqs| - 1;
    forall i | 0 <= i < |cs| && i != z ensures Satisfies(cs[i], v) {
      if i >= |inst.eqs| { AddedSatisfied(bk, inst, s, t, i - |inst.eqs|); }
    }
    EqualitiesShaped(bk, inst, t);
    OneOffender(cs, t.alpha, inst.param.r, inst.param.n, v, z);
    forall k | 0 <= k < D
      ensures M(Slot(t.alpha, z, k) * EvalAt(cs[z], v, k)) == M(Slot(t.alpha, z, k) * Excess(p, pf, base0, k))
    {
      CongScale(EvalAt(inst.eqs[z], v, k), Excess(p, pf, base0, k), Slot(t.alpha, z, k));
    }
  }

  lemma EqualitiesShaped(bk: Backend, inst: Instance, t: Transcript)
    requires inst.Valid()
    ensures var cs := AllEqualities(bk, inst, t.seed1, t.msg.jlI, t.psi, t.omega, t.msg.bAgg);
      forall i :: 0 <= i < |cs| ==> cs[i].r == inst.param.r && cs[i].n == inst.param.n
  {}

  /** All conditions of completeness on a run of two rounds but the one on base0. */
  ghost predicate TwoRoundsFit(bk: Backend, inst: Instance, s: seq<Poly>, state: Bytes) {
    && inst.Valid() && Witnessed(inst, s)
    && var rd := HonestRound(bk, inst, s, state);
       var next := Advance(bk, inst, rd);
       && bk.jlNormOk(inst.param, rd.trs.msg.p) && next.Done?
       && LastRoundFits(bk, next.value.inst, next.value.s, rd.trs.seed4)
  }

  ghost predicate LastRoundFits(bk: Backend, inst: Instance, s: seq<Poly>, state: Bytes)
    requires inst.Valid()
  {
    var rd := HonestRound(bk, inst, s, state);
    && bk.jlNormOk(inst.param, rd.trs.msg.p)
    && SmallBases(inst.param) && SwappedBasesFit(inst.param) && bk.zNormOk(inst.param, InttVec(rd.proof.zHat))
  }

  /** The two transcripts and the proof of such a run. */
  function TwoRounds(bk: Backend, inst: Instance, s: seq<Poly>, state: Bytes): Run
    requires TwoRoundsFit(bk, inst, s, state)
  {
    var rd := HonestRound(bk, inst, s, state);
    var next := Advance(bk, inst, rd).value;
    var rd2 := HonestRound(bk, next.inst, next.s, rd.trs.seed4);
    Run([rd.trs, rd2.trs], rd2.proof)
  }

  /** The excess of the run's first round is hidden by the second round's challenge. */
  ghost predicate ExcessHidden(bk: Backend, inst: Instance, s: seq<Poly>, state: Bytes)
    requires TwoRoundsFit(bk, inst, s, state)
  {
    var rd := HonestRound(bk, inst, s, state);
    var next := Advance(bk, inst, rd).value;
    var rd2 := HonestRound(bk, next.inst, next.s, rd.trs.seed4);
    && bk.base0(inst.param.r, inst.param.beta) >= 2
    && Hidden(inst.param, rd.proof, bk.base0(inst.param.r, inst.param.beta), rd2.trs.alpha, |next.inst.eqs| - 1)
  }

  lemma ProvedTwo(bk: Backend, inst: Instance, s: seq<Poly>, state: Bytes)
    requires TwoRoundsFit(bk, inst, s, state)
    ensures Prove(bk, inst, s, state, 2) == Done(TwoRounds(bk, inst, s, state))
  {
    hide HonestRound, Advance, Instance.Valid, Witnessed, LastRoundFits;
    var rd := HonestRound(bk, inst, s, state);
    var next := Advance(bk, inst, rd).value;
    var rd2 := HonestRound(bk, next.inst, next.s, rd.trs.seed4);
    assert [rd.trs] + [rd2.trs] == [rd.trs, rd2.trs];
  }

  /** For every base0: the verifier accepts an honest run of two rounds exactly when the excess is hidden, whether or
      not it looks at the norms of the digits. */
  lemma TwoRoundsAcceptedIff(bk: Backend, inst: Instance, s: seq<Poly>, state: Bytes, digits: bool)
    requires TwoRoundsFit(bk, inst, s, state)
    ensures var run := TwoRounds(bk, inst, s, state);
      (Verify(bk, inst, MessagesOf(run.transcripts), run.proof, state, digits) <==> ExcessHidden(bk, inst, s, state))
  {
    hide HonestRound, Advance, Instance.Valid, Witnessed, LastRoundFits, Verify, Hidden, PartVerify, Satisfies, NttVec,
      LastIsOff;
    var rd, run := HonestRound(bk, inst, s, state), TwoRounds(bk, inst, s, state);
    var next := Advance(bk, inst, rd).value;
    HonestStep(bk, inst, s, state);
    NextFinalIff(bk, inst, s, state);
    NextConstraints(bk, inst, s, state);
    LastRoundIff(bk, next.inst, next.s, rd.trs.seed4, digits);
    FirstRoundPasses(bk, inst, s, state, MessagesOf(run.transcripts), run.proof, digits);
    var rd2 := HonestRound(bk, next.inst, next.s, rd.trs.seed4);
    assert MessagesOf(run.transcripts)[1..] == [rd2.trs.msg];
  }

  lemma HonestStep(bk: Backend, inst: Instance, s: seq<Poly>, state: Bytes)
    requires inst.Valid() && Witnessed(inst, s) && bk.jlNormOk(inst.param, HonestRound(bk, inst, s, state).trs.msg.p)
    ensures PartVerify(bk, inst, HonestRound(bk, inst, s, state).trs)
    ensures Satisfies(HonestRound(bk, inst, s, state).final, NttVec(s))
  {
    hide ProverRound, PartVerify, Satisfies, NttVec, Witnessed, Instance.Valid;
    RoundAccepted(bk, inst, s, state);
  }

  /** The verifier's step over an honest first round. */
  lemma FirstRoundPasses(bk: Backend, inst: Instance, s: seq<Poly>, state: Bytes, msgs: seq<Messages>, pf: Proof,
                         digits: bool)
    requires inst.Valid() && |msgs| >= 2 && msgs[0] == HonestRound(bk, inst, s, state).trs.msg
    requires PartVerify(bk, inst, HonestRound(bk, inst, s, state).trs)
    requires Advance(bk, inst, HonestRound(bk, inst, s, state)).Done?
    ensures var rd := HonestRound(bk, inst, s, state);
      (Verify(bk, inst, msgs, pf, state, digits) <==>
       Verify(bk, Advance(bk, inst, rd).value.inst, msgs[1..], pf, rd.trs.seed4, digits))
  {
    hide ProverRound, PartVerify, FinalConstraint, DeriveTranscript, NextInstance, NextWitness, VerifyBaseProof;
    SameTranscript(bk, inst, s, state);
  }

  /** A last round without const-zero constraints is accepted exactly when its final constraint is satisfied. */
  lemma LastRoundIff(bk: Backend, inst: Instance, s: seq<Poly>, state: Bytes, digits: bool)
    requires inst.Valid() && inst.zeros == [] && |s| == inst.param.r * inst.param.n && LastRoundFits(bk, inst, s, state)
    ensures var rd := HonestRound(bk, inst, s, state);
      (Verify(bk, inst, [rd.trs.msg], rd.proof, state, digits) <==> Satisfies(rd.final, NttVec(s)))
  {
    hide ProverRound, PartVerify, FinalConstraint, DeriveTranscript, NextInstance, Algebraic, SmallDigits, Satisfies,
      NttVec, InttVec, Instance.Valid;
    ValidParam(inst);
    var rd := HonestRound(bk, inst, s, state);
    SameTranscript(bk, inst, s, state);
    MessagesAccepted(bk, inst, s, state);
    RoundDigitsSmall(bk, inst, s, state);
    ChecksIff(bk, inst, s, state);
  }

  lemma ChecksIff(bk: Backend, inst: Instance, s: seq<Poly>, state: Bytes)
    requires inst.Valid()
    ensures var rd := ProverRound(bk, inst, s, state);
      (Algebraic(inst.param, rd.final, rd.trs.msg.u1, rd.trs.msg.u2, rd.trs.challenges, rd.proof) <==>
       Satisfies(rd.final, NttVec(s)))
  {
    hide ProverT, ProverG, ProverH, ProverZ, Algebraic, OpeningU1, OpeningU2, SampleChallenges, SampleTq, SampleZq,
      Project, AddedB, NttVec, Satisfies;
    var rd := ProverRound(bk, inst, s, state);
    FinalShape(bk, inst, s, state);
    BaseProofChecks(inst.param, rd.final, rd.trs.challenges, s);
  }
}
