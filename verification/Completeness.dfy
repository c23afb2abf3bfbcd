/** The whole run: an honest proof is accepted. */
module Runs {
  import opened Residues
  import opened Sums
  import opened Transforms
  import opened Products
  import opened Powers
  import opened Projection
  import opened ConstZeroAggregation
  import opened LinearMeaning
  import opened RecursionTheorem
  import opened BaseCompleteness
  import opened Arrays
  import opened Polynomials
  import opened Vectors
  import opened Packing
  import opened Constraints
  import opened DigitVectors
  import opened Layout
  import opened Parameters
  import opened BaseChecks
  import opened Recursion
  import opened BaseProver
  import opened NormBounds
  import opened Protocol

  lemma RoundShape(bk: Backend, inst: Instance, s: seq<Poly>, state: Bytes)
    requires inst.param.Bases()
    ensures ProofShape(inst.param, ProverRound(bk, inst, s, state).proof)
  {
    hide Digits, NttVec, InttVec, Matmul, GramMatrix, Symmetrised, DecomposeVec, PackRows, FinalConstraint,
      OpeningU1, OpeningU2, AllEqualities, Aggregate;
    var rd := ProverRound(bk, inst, s, state);
    ProofShaped(inst.param, rd.final, rd.trs.challenges, s);
  }

  lemma NextInstanceValid(bk: Backend, p: Param, fc: Equality, t: Transcript)
    requires p.Valid()
    ensures NextInstance(bk, p, fc, t).Done? ==> NextInstance(bk, p, fc, t).value.Valid()
  {
    hide RecursionConstraints, Param.TLen, Param.GLen, Param.HLen, MakeParam;
    var mu, nu, base0 := NextMu(bk, p), NextNu(bk, p), bk.base0(p.r, p.beta);
    var pr := RecursionLayout(p, mu, nu);
    PrepareFits(p.n, p.TLen(), p.GLen(), p.HLen(), mu, nu);
    ConstraintsShaped(p, fc, t.msg.u1, t.msg.u2, t.challenges, base0, mu, nu);
  }

  lemma ConstraintsShaped(p: Param, fc: Equality, u1: seq<Poly>, u2: seq<Poly>, c: seq<Poly>, base0: nat, mu: nat,
                          nu: nat)
    requires p.Valid() && mu >= 1 && nu >= 1
    ensures forall i :: 0 <= i < |RecursionConstraints(p, fc, u1, u2, c, base0, mu, nu)| ==>
      FitsInto(RecursionConstraints(p, fc, u1, u2, c, base0, mu, nu)[i], RecursionLayout(p, mu, nu))
  {
    hide U1Constraint, U2Constraint, AConstraint, PhiConstraint, TraceConstraint, ZConstraint, FitsInto, Param.TLen,
      Param.GLen, Param.HLen;
    PrepareFits(p.n, p.TLen(), p.GLen(), p.HLen(), mu, nu);
  }

  datatype Run = Run(transcripts: seq<Transcript>, proof: Proof)

  function HonestRound(bk: Backend, inst: Instance, s: seq<Poly>, state: Bytes): (rd: Round)
    requires inst.Valid()
    ensures ProofShape(inst.param, rd.proof)
  {
    RoundShape(bk, inst, s, state);
    ProverRound(bk, inst, s, state)
  }

  datatype Problem = Problem(inst: Instance, s: seq<Poly>)

  /** The next instance with its witness. */
  function Advance(bk: Backend, inst: Instance, rd: Round): (o: Outcome<Problem>)
    requires inst.Valid() && ProofShape(inst.param, rd.proof)
    ensures o.Done? ==> o.value.inst.Valid()
  {
    var p := inst.param;
    NextInstanceValid(bk, p, rd.final, rd.trs);
    var w := NextWitness(p, rd.proof, bk.base0(p.r, p.beta), NextMu(bk, p), NextNu(bk, p));
    var next := NextInstance(bk, p, rd.final, rd.trs);
    if w.Failed? || next.Failed? then Failed else Done(Problem(next.value, w.value))
  }

  /** numRec rounds of the prover; all but the last are folded into the next round's instance. */
  function Prove(bk: Backend, inst: Instance, s: seq<Poly>, state: Bytes, numRec: nat): (o: Outcome<Run>)
    requires inst.Valid() && numRec >= 1
    decreases numRec
  {
    var rd := HonestRound(bk, inst, s, state);
    if numRec == 1 then Done(Run([rd.trs], rd.proof))
    else
      var next := Advance(bk, inst, rd);
      if next.Failed? then Failed
      else
        var rest := Prove(bk, next.value.inst, next.value.s, rd.trs.seed4, numRec - 1);
        if rest.Failed? then Failed else Done(Run([rd.trs] + rest.value.transcripts, rest.value.proof))
  }

  /** The verifier sees only the messages and the last proof. */
  ghost predicate Verify(bk: Backend, inst: Instance, msgs: seq<Messages>, proof: Proof, state: Bytes, digits: bool)
    requires inst.Valid()
    decreases |msgs|
  {
    |msgs| > 0 &&
    var p, t := inst.param, DeriveTranscript(bk, inst, msgs[0], state);
    var fc := FinalConstraint(bk, inst, t);
    PartVerify(bk, inst, t) &&
    if |msgs| == 1 then VerifyBaseProof(bk, p, fc, t, proof, digits)
    else
      NextInstanceValid(bk, p, fc, t);
      match NextInstance(bk, p, fc, t)
      case Failed => false
      case Done(inst') => Verify(bk, inst', msgs[1..], proof, t.seed4, digits)
  }

  function MessagesOf(ts: seq<Transcript>): (ms: seq<Messages>)
    ensures |ms| == |ts|
  {
    seq(|ts|, i requires 0 <= i < |ts| => ts[i].msg)
  }

  /** s is a witness of inst. */
  ghost predicate Witnessed(inst: Instance, s: seq<Poly>) {
    && ZerosWitnessed(inst, s)
    && (forall i :: 0 <= i < |inst.eqs| ==> Satisfies(inst.eqs[i], NttVec(s)))
  }

  /** s has the right size and satisfies the const-zero constraints. */
  ghost predicate ZerosWitnessed(inst: Instance, s: seq<Poly>) {
    && |s| == inst.param.r * inst.param.n
    && (forall i :: 0 <= i < |inst.zeros| ==> SatisfiesConstZero(inst.zeros[i], NttVec(s)))
  }

  /** The conditions that do not depend on the algebra, round by round: the projections are short,
      base0^2 does not wrap, and the last z is short. */
  ghost predicate RunFits(bk: Backend, inst: Instance, s: seq<Poly>, state: Bytes, numRec: nat)
    requires inst.Valid() && numRec >= 1
    decreases numRec
  {
    var p, rd := inst.param, HonestRound(bk, inst, s, state);
    bk.jlNormOk(p, rd.trs.msg.p) &&
    if numRec == 1 then SmallBases(p) && SwappedBasesFit(p) && bk.zNormOk(p, InttVec(rd.proof.zHat))
    else
      var next := Advance(bk, inst, rd);
      && bk.base0(p.r, p.beta) < 0x1_0000
      && (next.Done? ==> RunFits(bk, next.value.inst, next.value.s, rd.trs.seed4, numRec - 1))
  }

  /** The prover returns one transcript for each round. */
  lemma {:induction false} ProveLength(bk: Backend, inst: Instance, s: seq<Poly>, state: Bytes, numRec: nat)
    requires inst.Valid() && numRec >= 1
    ensures Prove(bk, inst, s, state, numRec).Done? ==> |Prove(bk, inst, s, state, numRec).value.transcripts| == numRec
    decreases numRec
  {
    hide HonestRound, Advance, Instance.Valid;
    if numRec > 1 {
      var rd := HonestRound(bk, inst, s, state);
      var next := Advance(bk, inst, rd);
      if next.Done? { ProveLength(bk, next.value.inst, next.value.s, rd.trs.seed4, numRec - 1); }
    }
  }

  /** Both sides derive the same challenges and the same final constraint: the number of alphas counted
      after aggregation by the prover is the number the verifier computes beforehand. */
  lemma SameTranscript(bk: Backend, inst: Instance, s: seq<Poly>, state: Bytes)
    requires inst.param.Bases()
    ensures var rd := ProverRound(bk, inst, s, state);
            DeriveTranscript(bk, inst, rd.trs.msg, state) == rd.trs && FinalConstraint(bk, inst, rd.trs) == rd.final
  {
    hide ProverT, ProverG, ProverH, ProverZ, AllEqualities, Aggregate, OpeningU1, OpeningU2, SampleChallenges,
      SampleTq, SampleZq, Project, AddedB;
  }

  /** The projection and the message polynomials are what the witness gives. */
  ghost predicate HonestMessages(bk: Backend, inst: Instance, s: seq<Poly>, t: Transcript) {
    && t.msg.p == Project(bk, inst.param, t.seed1, t.msg.jlI, s)
    && t.msg.bAgg == Vec<Poly>(inst.param.rounds, k => AddedB(bk, inst, t.seed1, t.msg.jlI, t.psi, t.omega, s, k))
  }

  lemma RoundHonest(bk: Backend, inst: Instance, s: seq<Poly>, state: Bytes)
    requires inst.param.Bases()
    ensures HonestMessages(bk, inst, s, ProverRound(bk, inst, s, state).trs)
  {
    hide ProverT, ProverG, ProverH, ProverZ, AllEqualities, Aggregate, OpeningU1, OpeningU2, SampleChallenges,
      SampleTq, SampleZq, Project, AddedB;
  }

  lemma ExpectedOfProjection(zs: seq<ConstZero>, psi: int -> Zq, rows: nat, omega: int -> Zq, p: int -> int,
                             q: int -> int)
    requires forall j :: 0 <= j < rows ==> p(j) == q(j)
    ensures ExpectedB0(zs, psi, rows, omega, p) == ExpectedB0(zs, psi, rows, omega, q)
  {
    hide Sum;
    SumExt(rows, WeightedBy(omega, p), WeightedBy(omega, q));
  }

  lemma HonestConstant(bk: Backend, inst: Instance, s: seq<Poly>, t: Transcript, k: nat)
    requires inst.Valid() && ZerosWitnessed(inst, s) && HonestMessages(bk, inst, s, t) && k < inst.param.rounds
    ensures ConstantTest(bk, inst, t, k)
  {
    hide NttVec, AggregatedB, ExpectedB0, ConstantTerm, SatisfiesConstZero, ProjectRow, Param.Valid;
    var p := inst.param;
    var psi, omega, jl := Slice(t.psi, |inst.zeros|, k), Slice(t.omega, p.jlOut, k),
                          JlMatrix(bk, p, t.seed1, t.msg.jlI);
    AggregationFaithful(inst.zeros, psi, jl, p.jlOut, omega, p.r, p.n, s);
    var claimed: int -> int := l => At(t.msg.p, l);
    forall j | 0 <= j < p.jlOut ensures claimed(j) == Projections(jl, s)(j) {}
    ExpectedOfProjection(inst.zeros, psi, p.jlOut, omega, claimed, Projections(jl, s));
    assert PolyAt(t.msg.bAgg, k) == AddedB(bk, inst, t.seed1, t.msg.jlI, t.psi, t.omega, s, k);
  }

  /** A constraint that aggregation adds is satisfied, whatever else the witness satisfies. */
  lemma AddedSatisfied(bk: Backend, inst: Instance, s: seq<Poly>, t: Transcript, k: nat)
    requires HonestMessages(bk, inst, s, t) && k < inst.param.rounds
    ensures Satisfies(AddedConstraint(bk, inst, t.seed1, t.msg.jlI, t.psi, t.omega, k, PolyAt(t.msg.bAgg, k)),
                      NttVec(s))
  {
    hide NttVec, Satisfies, AggregatedB, AggregatedWith, Project;
    var p := inst.param;
    var psi, omega, jl := Slice(t.psi, |inst.zeros|, k), Slice(t.omega, p.jlOut, k),
                          JlMatrix(bk, p, t.seed1, t.msg.jlI);
    assert PolyAt(t.msg.bAgg, k) == AddedB(bk, inst, t.seed1, t.msg.jlI, t.psi, t.omega, s, k);
    AggregatedHolds(inst.zeros, psi, jl, p.jlOut, omega, p.r, p.n, s);
  }

  lemma HonestEqualities(bk: Backend, inst: Instance, s: seq<Poly>, t: Transcript, i: nat)
    requires inst.Valid() && Witnessed(inst, s) && HonestMessages(bk, inst, s, t) && i < |inst.eqs| + inst.param.rounds
    ensures var c := AllEqualities(bk, inst, t.seed1, t.msg.jlI, t.psi, t.omega, t.msg.bAgg)[i];
            c.r == inst.param.r && c.n == inst.param.n && Satisfies(c, NttVec(s))
  {
    hide NttVec, Satisfies, AggregatedB, AggregatedWith, Param.Valid, Project;
    if i >= |inst.eqs| { AddedSatisfied(bk, inst, s, t, i - |inst.eqs|); }
  }

  /** The messages of an honest round pass their tests. */
  lemma MessagesAccepted(bk: Backend, inst: Instance, s: seq<Poly>, state: Bytes)
    requires inst.Valid() && ZerosWitnessed(inst, s)
    requires bk.jlNormOk(inst.param, ProverRound(bk, inst, s, state).trs.msg.p)
    ensures PartVerify(bk, inst, ProverRound(bk, inst, s, state).trs)
  {
    hide ConstantTest, ProverRound, ZerosWitnessed, Instance.Valid;
    ValidParam(inst);
    var t := ProverRound(bk, inst, s, state).trs;
    RoundHonest(bk, inst, s, state);
    forall k | 0 <= k < inst.param.rounds ensures ConstantTest(bk, inst, t, k) {
      HonestConstant(bk, inst, s, t, k);
    }
  }

  lemma ValidParam(inst: Instance)
    requires inst.Valid()
    ensures inst.param.Bases()
  {}

  /** An honest round passes the verifier's tests on its messages, and its witness satisfies the
      constraint that the round ends with. */
  lemma RoundAccepted(bk: Backend, inst: Instance, s: seq<Poly>, state: Bytes)
    requires inst.Valid() && Witnessed(inst, s)
    requires bk.jlNormOk(inst.param, ProverRound(bk, inst, s, state).trs.msg.p)
    ensures PartVerify(bk, inst, ProverRound(bk, inst, s, state).trs)
    ensures Satisfies(ProverRound(bk, inst, s, state).final, NttVec(s))
  {
    hide ConstantTest, Satisfies, NttVec, ProverT, ProverG, ProverH, ProverZ, Aggregate, OpeningU1, OpeningU2,
      SampleChallenges, SampleTq, SampleZq, Project, PartVerify;
    var p, rd := inst.param, ProverRound(bk, inst, s, state);
    var t := rd.trs;
    MessagesAccepted(bk, inst, s, state);
    RoundHonest(bk, inst, s, state);
    var cs := AllEqualities(bk, inst, t.seed1, t.msg.jlI, t.psi, t.omega, t.msg.bAgg);
    forall i | 0 <= i < |cs| ensures cs[i].r == p.r && cs[i].n == p.n && Satisfies(cs[i], NttVec(s)) {
      HonestEqualities(bk, inst, s, t, i);
    }
    AggregateSatisfied(cs, t.alpha, p.r, p.n, NttVec(s));
  }

  lemma TwoDigitSum(base: int, d: seq<Poly>, n: nat, x: nat, k: int)
    ensures Sum(2, Pointwise(BasePowers(base), DigitSlots(d, n, x, k))) == Slot(d, x, k) + base * Slot(d, n + x, k)
  {
    hide Sum, Slot;
    var f := Pointwise(BasePowers(base), DigitSlots(d, n, x, k));
    SumStep(2, f);
    SumStep(1, f);
    assert Pow(base, 1) == base * Pow(base, 0) && Pow(base, 0) == 1;
    assert f(0) == 1 * Slot(d, 0 * n + x, k) && f(1) == base * Slot(d, 1 * n + x, k);
  }

  lemma HalfSlots(d: seq<Poly>, n: nat, x: nat, k: int)
    requires |d| == 2 * n && x < n
    ensures Slot(NttVec(d[..n]), x, k) == Slot(NttVec(d), x, k)
    ensures Slot(NttVec(d[n..]), x, k) == Slot(NttVec(d), n + x, k)
  {
    hide Ntt;
  }

  /** When the two digits recompose to z, the parts of the next witness stand for z. */
  lemma PartsStandForZ(pf: Proof, p: Param, base0: nat)
    requires base0 >= 2
    requires RecomposeVec(DecomposeVec(InttVec(pf.zHat), base0, 2), base0, 2, |InttVec(pf.zHat)|) == InttVec(pf.zHat)
    ensures ZHat(NextParts(p, pf, base0).z0, NextParts(p, pf, base0).z1, base0) == pf.zHat
  {
    hide NttVec, InttVec, DecomposeVec, RecomposeVec, VecAdd, VecScale, Slot, Sum;
    var n, d, w := |pf.zHat|, DecomposeVec(InttVec(pf.zHat), base0, 2), NextParts(p, pf, base0);
    NttInttVec(pf.zHat);
    var z := ZHat(w.z0, w.z1, base0);
    forall x, k | 0 <= x < n && 0 <= k < D ensures Slot(z, x, k) == Slot(pf.zHat, x, k) {
      NttRecompose(d, base0, 2, n, x, k);
      TwoDigitSum(base0, NttVec(d), n, x, k);
      HalfSlots(d, n, x, k);
      VecAddSlot(NttVec(w.z0), VecScale(base0, NttVec(w.z1)), x, k);
      ScaleSlot(base0, NttVec(w.z1), x, k);
    }
    VecExt(z, pf.zHat);
  }

  /** The recursion's witness can be made exactly when base0 is a base and two digits of it lose nothing of z. */
  lemma NextWitnessIff(p: Param, pf: Proof, base0: nat, mu: nat, nu: nat)
    requires p.Valid() && ProofShape(p, pf) && mu >= 1 && nu >= 1
    ensures NextWitness(p, pf, base0, mu, nu).Done? <==>
      base0 >= 2 && forall x, k :: 0 <= x < p.n && 0 <= k < D ==> M(Lost(Slot(InttVec(pf.zHat), x, k), base0, 2)) == 0
  {
    hide DecomposeVec, RecomposeVec, InttVec, Packed, Lost, Param.TLen, Param.GLen, Param.HLen, Slot;
    if base0 >= 2 { RecomposesIff(InttVec(pf.zHat), base0, 2); }
  }

  /** An honest round's proof passes the algebraic checks. */
  lemma RoundChecks(bk: Backend, inst: Instance, s: seq<Poly>, state: Bytes)
    requires inst.Valid() && Satisfies(ProverRound(bk, inst, s, state).final, NttVec(s))
    ensures var rd := ProverRound(bk, inst, s, state);
            Algebraic(inst.param, rd.final, rd.trs.msg.u1, rd.trs.msg.u2, rd.trs.challenges, rd.proof)
  {
    hide ProverT, ProverG, ProverH, ProverZ, Algebraic, OpeningU1, OpeningU2, SampleChallenges, SampleTq, SampleZq,
      Project, AddedB, NttVec, Satisfies;
    var rd := ProverRound(bk, inst, s, state);
    FinalShape(bk, inst, s, state);
    BaseProofChecks(inst.param, rd.final, rd.trs.challenges, s);
  }

  lemma FinalShape(bk: Backend, inst: Instance, s: seq<Poly>, state: Bytes)
    requires inst.param.Bases()
    ensures var rd := ProverRound(bk, inst, s, state);
            && rd.final.r == inst.param.r && rd.final.n == inst.param.n && rd.final.Valid()
            && |rd.trs.msg.u1| == inst.param.kappa1 && |rd.trs.msg.u2| == inst.param.kappa2
  {
    hide ProverT, ProverG, ProverH, ProverZ, SampleChallenges, SampleTq, SampleZq, Project, AddedB, AllEqualities,
      NttVec, Combination;
    var rd := ProverRound(bk, inst, s, state);
    SameTranscript(bk, inst, s, state);
    assert rd.final == FinalConstraint(bk, inst, rd.trs);
  }

  lemma PartsShaped(p: Param, pf: Proof, base0: nat, mu: nat, nu: nat)
    requires p.Valid() && ProofShape(p, pf) && base0 >= 2 && mu >= 1 && nu >= 1
    ensures Shaped(RecursionLayout(p, mu, nu), NextParts(p, pf, base0))
  {
    hide InttVec, DecomposeVec, Param.TLen, Param.GLen, Param.HLen;
  }

  /** The next round's witness satisfies the next round's constraints. */
  lemma AdvanceSatisfied(p: Param, rd: Round, base0: nat, mu: nat, nu: nat)
    requires p.Valid() && ProofShape(p, rd.proof) && 2 <= base0 < 0x1_0000 && mu >= 1 && nu >= 1
    requires NextWitness(p, rd.proof, base0, mu, nu).Done?
    requires |rd.final.a| == p.r * p.r && |rd.trs.msg.u1| == p.kappa1 && |rd.trs.msg.u2| == p.kappa2
    requires Algebraic(p, rd.final, rd.trs.msg.u1, rd.trs.msg.u2, rd.trs.challenges, rd.proof)
    ensures var t := rd.trs;
      AllSatisfied(RecursionConstraints(p, rd.final, t.msg.u1, t.msg.u2, t.challenges, base0, mu, nu),
                   NttVec(NextWitness(p, rd.proof, base0, mu, nu).value))
  {
    hide Algebraic, NttVec, AllSatisfied, RecursionConstraints, Packed, Prepare, Fits, Shaped, InttVec, DecomposeVec,
      RecomposeVec, ZHat,
      Param.TLen, Param.GLen, Param.HLen;
    var w := NextParts(p, rd.proof, base0);
    PartsShaped(p, rd.proof, base0, mu, nu);
    PartsStandForZ(rd.proof, p, base0);
    assert ProofOf(w, base0) == rd.proof;
    RecursionPreservesMeaning(p, rd.final, rd.trs.msg.u1, rd.trs.msg.u2, rd.trs.challenges, base0, mu, nu, w);
  }

  /** The next round starts from a witness of its instance. */
  lemma AdvanceWitnessed(bk: Backend, inst: Instance, s: seq<Poly>, state: Bytes)
    requires inst.Valid() && bk.base0(inst.param.r, inst.param.beta) < 0x1_0000
    requires Satisfies(HonestRound(bk, inst, s, state).final, NttVec(s))
    requires Advance(bk, inst, HonestRound(bk, inst, s, state)).Done?
    ensures Witnessed(Advance(bk, inst, HonestRound(bk, inst, s, state)).value.inst,
                      Advance(bk, inst, HonestRound(bk, inst, s, state)).value.s)
  {
    hide ProverRound, Algebraic, NttVec, Satisfies, RecursionConstraints, Packed, Param.TLen, Param.GLen, Param.HLen,
      Fits, Shaped, NextParts, InttVec,
      RecomposeVec, DecomposeVec, Prepare, NextBeta;
    var p, rd := inst.param, HonestRound(bk, inst, s, state);
    var base0, mu, nu := bk.base0(p.r, p.beta), NextMu(bk, p), NextNu(bk, p);
    RoundChecks(bk, inst, s, state);
    FinalShape(bk, inst, s, state);
    AdvanceSatisfied(p, rd, base0, mu, nu);
  }

  lemma RoundDigitsSmall(bk: Backend, inst: Instance, s: seq<Poly>, state: Bytes)
    requires inst.param.Bases() && SmallBases(inst.param) && SwappedBasesFit(inst.param)
    ensures SmallDigits(inst.param, ProverRound(bk, inst, s, state).proof)
  {
    hide DecomposeVec, Below, Digits, InttVec, Matmul, SymmPart, GramMatrix, NttVec, Symmetrised, AllEqualities,
      Aggregate, AddedB, Project, SampleZq, SampleTq, SampleChallenges;
    SwappedBounds(inst.param);
  }

  /** The last round of an honest run is accepted in full. */
  lemma LastRoundAccepted(bk: Backend, inst: Instance, s: seq<Poly>, state: Bytes)
    requires inst.Valid() && Witnessed(inst, s) && RunFits(bk, inst, s, state, 1)
    ensures var rd := HonestRound(bk, inst, s, state);
            Verify(bk, inst, [rd.trs.msg], rd.proof, state, true)
  {
    hide ProverRound, Algebraic, SmallDigits, PartVerify, FinalConstraint, DeriveTranscript, NttVec, Satisfies,
      InttVec, Witnessed, Verify;
    var rd := HonestRound(bk, inst, s, state);
    SameTranscript(bk, inst, s, state);
    RoundAccepted(bk, inst, s, state);
    RoundChecks(bk, inst, s, state);
    RoundDigitsSmall(bk, inst, s, state);
    VerifyLast(bk, inst, rd.trs, rd.final, rd.proof, state);
  }

  lemma VerifyLast(bk: Backend, inst: Instance, t: Transcript, fc: Equality, pf: Proof, state: Bytes)
    requires inst.Valid() && DeriveTranscript(bk, inst, t.msg, state) == t && FinalConstraint(bk, inst, t) == fc
    requires PartVerify(bk, inst, t) && VerifyBaseProof(bk, inst.param, fc, t, pf, true)
    ensures Verify(bk, inst, [t.msg], pf, state, true)
  {
    hide PartVerify, FinalConstraint, DeriveTranscript, VerifyBaseProof, NextInstance;
  }

  lemma VerifyFold(bk: Backend, inst: Instance, t: Transcript, fc: Equality, msgs: seq<Messages>, pf: Proof,
                   state: Bytes)
    requires inst.Valid() && |msgs| >= 2 && msgs[0] == t.msg
    requires DeriveTranscript(bk, inst, t.msg, state) == t && FinalConstraint(bk, inst, t) == fc && PartVerify(bk, inst,
        t)
    requires NextInstance(bk, inst.param, fc, t).Done? && NextInstance(bk, inst.param, fc, t).value.Valid()
    requires Verify(bk, NextInstance(bk, inst.param, fc, t).value, msgs[1..], pf, t.seed4, true)
    ensures Verify(bk, inst, msgs, pf, state, true)
  {
    hide PartVerify, FinalConstraint, DeriveTranscript, VerifyBaseProof, NextInstance;
  }

  /** Completeness of the whole run: for every witness, every number of rounds and every backend,
      a run of the prover that does not fail is accepted by the verifier. */
  lemma {:induction false} Completeness(bk: Backend, inst: Instance, s: seq<Poly>, state: Bytes, numRec: nat)
    requires inst.Valid() && numRec >= 1 && Witnessed(inst, s)
    requires RunFits(bk, inst, s, state, numRec) && Prove(bk, inst, s, state, numRec).Done?
    ensures var run := Prove(bk, inst, s, state, numRec).value;
            Verify(bk, inst, MessagesOf(run.transcripts), run.proof, state, true)
    decreases numRec
  {
    hide ProverRound, PartVerify, FinalConstraint, DeriveTranscript, NttVec, Satisfies, InttVec, Instance.Valid,
      Witnessed, VerifyBaseProof, Advance;
    var rd, run := HonestRound(bk, inst, s, state), Prove(bk, inst, s, state, numRec).value;
    if numRec == 1 {
      LastRoundAccepted(bk, inst, s, state);
      assert MessagesOf([rd.trs]) == [rd.trs.msg];
    } else {
      var next := Advance(bk, inst, rd).value;
      RoundAccepted(bk, inst, s, state);
      AdvanceWitnessed(bk, inst, s, state);
      Completeness(bk, next.inst, next.s, rd.trs.seed4, numRec - 1);
      var rest := Prove(bk, next.inst, next.s, rd.trs.seed4, numRec - 1).value;
      ProveLength(bk, next.inst, next.s, rd.trs.seed4, numRec - 1);
      assert MessagesOf(run.transcripts)[1..] == MessagesOf(rest.transcripts);
      FoldRound(bk, inst, s, state, MessagesOf(run.transcripts), run.proof);
    }
  }

  /** A verifier that accepts the rest of a run accepts the run with an honest round before it. */
  lemma FoldRound(bk: Backend, inst: Instance, s: seq<Poly>, state: Bytes, msgs: seq<Messages>, proof: Proof)
    requires inst.Valid() && |msgs| >= 2 && msgs[0] == HonestRound(bk, inst, s, state).trs.msg
    requires PartVerify(bk, inst, HonestRound(bk, inst, s, state).trs)
    requires Advance(bk, inst, HonestRound(bk, inst, s, state)).Done?
    requires Verify(bk, Advance(bk, inst, HonestRound(bk, inst, s, state)).value.inst, msgs[1..], proof,
                    HonestRound(bk, inst, s, state).trs.seed4, true)
    ensures Verify(bk, inst, msgs, proof, state, true)
  {
    hide ProverRound, PartVerify, FinalConstraint, DeriveTranscript, NextInstance, NextWitness, Verify;
    var rd := HonestRound(bk, inst, s, state);
    SameTranscript(bk, inst, s, state);
    VerifyFold(bk, inst, rd.trs, rd.final, msgs, proof, state);
  }
}
