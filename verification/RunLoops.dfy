/** The loops of prover and verifier over the rounds. */
module RunLoops {
  import opened Residues
  import opened Products
  import opened Arrays
  import opened Polynomials
  import opened Vectors
  import opened Constraints
  import opened Layout
  import opened Parameters
  import opened BaseChecks
  import opened NormMerge
  import opened BaseProver
  import opened ConstZeroAggregation
  import opened Recursion
  import opened LabradorInstances
  import opened RecursionPreparation
  import opened Protocol
  import opened Oracles
  import opened BaseProverLoops
  import opened BaseVerifierLoops
  import opened Runs

  ghost function StateOf(inst: LabradorInstance): Instance
    reads inst
  {
    Instance(inst.param, inst.equalityConstraints, inst.constZeroConstraints)
  }

  /** The transcripts so far before the outcome of the remaining rounds. */
  ghost function Prepend(ts: seq<Transcript>, o: Outcome<Run>): Outcome<Run> {
    if o.Failed? then Failed else Done(Run(ts + o.value.transcripts, o.value.proof))
  }

  lemma ProveStep(bk: Backend, inst: Instance, s: seq<Poly>, state: Bytes, k: nat, ts: seq<Transcript>)
    requires inst.Valid() && k >= 2
    ensures var rd := HonestRound(bk, inst, s, state);
      var next := Advance(bk, inst, rd);
      Prepend(ts, Prove(bk, inst, s, state, k)) ==
        if next.Failed? then Failed
        else Prepend(ts + [rd.trs], Prove(bk, next.value.inst, next.value.s, rd.trs.seed4, k - 1))
  {
    hide HonestRound, Advance, Instance.Valid;
    var rd := HonestRound(bk, inst, s, state);
    var next := Advance(bk, inst, rd);
    if next.Done? {
      var rest := Prove(bk, next.value.inst, next.value.s, rd.trs.seed4, k - 1);
      if rest.Done? { assert ts + ([rd.trs] + rest.value.transcripts) == (ts + [rd.trs]) + rest.value.transcripts; }
    }
  }

  lemma ProveLast(bk: Backend, inst: Instance, s: seq<Poly>, state: Bytes, ts: seq<Transcript>)
    requires inst.Valid()
    ensures var rd := HonestRound(bk, inst, s, state);
      Prepend(ts, Prove(bk, inst, s, state, 1)) == Done(Run(ts + [rd.trs], rd.proof))
  {
    hide HonestRound, Instance.Valid;
  }

  lemma PrependNothing(o: Outcome<Run>)
    ensures Prepend([], o) == o
  {
    if o.Done? { assert [] + o.value.transcripts == o.value.transcripts; }
  }

  lemma InstanceValid(inst: LabradorInstance)
    requires inst.Valid() && inst.param.Valid()
    ensures StateOf(inst).Valid()
  {
    hide Param.Valid;
  }

  /** The sizes that the recursion step needs of an honest round. */
  lemma RoundFitsInputs(bk: Backend, inst: Instance, s: seq<Poly>, state: Bytes)
    requires inst.Valid()
    ensures var rd := ProverRound(bk, inst, s, state);
      RecursionInputs(inst.param, rd.final, rd.trs) && ProofShape(inst.param, rd.proof)
  {
    hide ProverRound, Param.TLen, Param.GLen, Param.HLen;
    FinalShape(bk, inst, s, state);
    RoundShape(bk, inst, s, state);
    ChallengeCount(bk, inst, s, state);
  }

  lemma ChallengeCount(bk: Backend, inst: Instance, s: seq<Poly>, state: Bytes)
    requires inst.param.Bases()
    ensures |ProverRound(bk, inst, s, state).trs.challenges| == inst.param.r
  {
    hide ProverT, ProverG, ProverH, ProverZ, AllEqualities, Aggregate, OpeningU1, OpeningU2, SampleTq, SampleZq,
      Project, AddedB;
  }

  /** What Advance computes, from its two halves. */
  lemma AdvanceIs(bk: Backend, inst: Instance, rd: Round)
    requires inst.Valid() && ProofShape(inst.param, rd.proof)
    ensures var p := inst.param;
      var pr := RecursionLayout(p, NextMu(bk, p), NextNu(bk, p));
      var w := NextWitness(p, rd.proof, bk.base0(p.r, p.beta), NextMu(bk, p), NextNu(bk, p));
      Advance(bk, inst, rd) ==
        if w.Failed? || NextBase(bk, p, pr.rPrime) < 2 then Failed
        else Done(Problem(Instance(NextParam(bk, p, pr),
          RecursionConstraints(p, rd.final, rd.trs.msg.u1, rd.trs.msg.u2, rd.trs.challenges, bk.base0(p.r, p.beta),
                               NextMu(bk, p), NextNu(bk, p)), []), w.value))
  {
    hide NextWitness, RecursionConstraints, MakeParam, Param.TLen, Param.GLen, Param.HLen, NextBeta;
  }

  class LabradorProver {
    const bk: Backend
    const labInst: LabradorInstance
    const s: seq<Poly>
    const oracle: Oracle
    const numRec: nat

    /** The oracle starts from the external seed, the parameters and the numbers of constraints. */
    constructor (bk: Backend, inst: LabradorInstance, s: seq<Poly>, seed: Bytes, numRec: nat)
      requires inst.Valid() && inst.param.Valid() && |s| == inst.param.r * inst.param.n && numRec >= 1
      ensures labInst == inst && this.bk == bk && this.s == s && this.numRec == numRec
      ensures fresh(oracle) && oracle.hash == bk.hash && oracle.state == InitialState(bk, seed, StateOf(inst))
    {
      hide Param.Valid;
      var o := new Oracle(bk.hash, seed + bk.encodeParam(inst.param, |inst.equalityConstraints|,
                                                         |inst.constZeroConstraints|));
      this.bk, this.labInst, this.s, this.oracle, this.numRec := bk, inst, s, o, numRec;
    }

    /** All rounds but the last are turned into the next round's instance and witness. */
    method Prove() returns (o: Outcome<Run>)
      requires labInst.Valid() && labInst.param.Valid() && |s| == labInst.param.r * labInst.param.n && numRec >= 1
      requires oracle.hash == bk.hash
      modifies oracle
      ensures StateOf(labInst).Valid() && o == Runs.Prove(bk, StateOf(labInst), s, old(oracle.state), numRec)
    {
      hide HonestRound, Advance, Runs.Prove, Prepend, Param.Valid, Instance.Valid, LabradorInstance.Valid;
      InstanceValid(labInst);
      ghost var all := Runs.Prove(bk, StateOf(labInst), s, oracle.state, numRec);
      PrependNothing(all);
      var inst := new LabradorInstance.Copy(labInst);
      var sI := s;
      var ts: seq<Transcript> := [];
      for i := 0 to numRec - 1
        invariant fresh(inst) && inst.Valid() && inst.param.Valid() && StateOf(inst).Valid()
        invariant |sI| == inst.param.r * inst.param.n
        invariant all == Prepend(ts, Runs.Prove(bk, StateOf(inst), sI, oracle.state, numRec - i))
      {
        ProveStep(bk, StateOf(inst), sI, oracle.state, numRec - i, ts);
        var next, sNext, t := FoldRound(inst, sI, ts, numRec - i);
        if next == null { return Failed; }
        inst, sI, ts := next, sNext, ts + [t];
      }
      ProveLast(bk, StateOf(inst), sI, oracle.state, ts);
      var proof, t := LastRound(inst, sI);
      o := Done(Run(ts + [t], proof));
    }

    /** The last round is not folded. */
    method LastRound(inst: LabradorInstance, sI: seq<Poly>) returns (proof: Proof, t: Transcript)
      requires inst.Valid() && inst.param.Valid() && StateOf(inst).Valid() && |sI| == inst.param.r * inst.param.n
      requires oracle.hash == bk.hash
      ensures var rd := HonestRound(bk, StateOf(inst), sI, oracle.state); proof == rd.proof && t == rd.trs
    {
      hide ProverRound, Param.Valid;
      HonestIs(bk, StateOf(inst), sI, oracle.state);
      var baseProver := new LabradorBaseProver(bk, inst, sI, oracle);
      proof, t := baseProver.BaseCaseProver();
    }

    /** One round and what follows from it: the next instance and witness; null when a base does not fit. */
    method FoldRound(inst: LabradorInstance, sI: seq<Poly>, ghost ts: seq<Transcript>, ghost k: nat)
      returns (next: LabradorInstance?, sNext: seq<Poly>, t: Transcript)
      requires inst.Valid() && inst.param.Valid() && StateOf(inst).Valid() && |sI| == inst.param.r * inst.param.n
      requires oracle.hash == bk.hash
      modifies oracle
      ensures t == HonestRound(bk, StateOf(inst), sI, old(oracle.state)).trs
      ensures next == null <==> Advance(bk, StateOf(inst),
                                        HonestRound(bk, StateOf(inst), sI, old(oracle.state))).Failed?
      ensures next != null ==> fresh(next) && next.Valid() && next.param.Valid() && StateOf(next).Valid()
      ensures next != null ==> |sNext| == next.param.r * next.param.n
      ensures next != null ==> oracle.state == t.seed4
      ensures next != null ==>
        Advance(bk, StateOf(inst), HonestRound(bk, StateOf(inst), sI,
                                               old(oracle.state))).value == Problem(StateOf(next), sNext)
    {
      hide ProverRound, Param.Valid, NextWitness, RecursionConstraints, NextParam, NextMu, NextNu, RecursionLayout,
        NextBase, Advance;
      ghost var start := StateOf(inst);
      var baseProver := new LabradorBaseProver(bk, inst, sI, oracle);
      var proof;
      proof, t := baseProver.BaseCaseProver();
      ghost var rd := HonestRound(bk, start, sI, oracle.state);
      RoundFitsInputs(bk, start, sI, oracle.state);
      AdvanceIs(bk, start, rd);
      ValidBases(inst.param);
      var p := inst.param;
      var base0, mu, nu := bk.base0(p.r, p.beta), NextMu(bk, p), NextNu(bk, p);
      sNext := [];
      var w := PrepareRecursionWitness(p, proof, base0, mu, nu);
      if w.Failed? { return null, [], t; }
      sNext := w.value;
      var finalConst := baseProver.labInst.equalityConstraints[0];
      next := PrepareRecursionInstance(bk, p, finalConst, t, base0, mu, nu);
      oracle.state := baseProver.oracle.state;
      if next != null { NextSizes(bk, start, rd, sNext); }
    }
  }

  lemma HonestIs(bk: Backend, inst: Instance, s: seq<Poly>, state: Bytes)
    requires inst.Valid()
    ensures HonestRound(bk, inst, s, state) == ProverRound(bk, inst, s, state)
  {
    hide ProverRound;
  }

  /** The next instance is valid and its witness has its size. */
  lemma NextSizes(bk: Backend, inst: Instance, rd: Round, s: seq<Poly>)
    requires inst.Valid() && ProofShape(inst.param, rd.proof) && Advance(bk, inst, rd).Done? && Advance(bk, inst,
        rd).value.s == s
    ensures var next := Advance(bk, inst, rd).value;
      next.inst.Valid() && next.inst.param.Valid() && |s| == next.inst.param.r * next.inst.param.n
  {
    hide RecursionConstraints, Param.TLen, Param.GLen, Param.HLen, NextBeta, Packed;
    var p := inst.param;
    PrepareFits(p.n, p.TLen(), p.GLen(), p.HLen(), NextMu(bk, p), NextNu(bk, p));
  }

  /** Messages and proof have the sizes of the rounds they belong to. */
  ghost predicate WellFormed(bk: Backend, inst: Instance, msgs: seq<Messages>, pf: Proof, state: Bytes)
    requires inst.Valid()
    decreases |msgs|
  {
    |msgs| > 0 && MessageSizes(inst.param, msgs[0]) &&
    if |msgs| == 1 then ProofShape(inst.param, pf)
    else
      var t := DeriveTranscript(bk, inst, msgs[0], state);
      var fc := FinalConstraint(bk, inst, t);
      NextInstanceValid(bk, inst.param, fc, t);
      match NextInstance(bk, inst.param, fc, t)
      case Failed => true
      case Done(next) => WellFormed(bk, next, msgs[1..], pf, t.seed4)
  }

  /** What NextInstance computes, in the terms of the loops. */
  lemma NextIs(bk: Backend, p: Param, fc: Equality, t: Transcript)
    requires p.Valid()
    ensures var pr := RecursionLayout(p, NextMu(bk, p), NextNu(bk, p));
      NextInstance(bk, p, fc, t) ==
        if NextBase(bk, p, pr.rPrime) < 2 then Failed
        else Done(Instance(NextParam(bk, p, pr),
          RecursionConstraints(p, fc, t.msg.u1, t.msg.u2, t.challenges, bk.base0(p.r, p.beta), NextMu(bk, p),
                               NextNu(bk, p)), []))
  {
    hide RecursionConstraints, MakeParam, Param.TLen, Param.GLen, Param.HLen, NextBeta;
  }

  lemma VerifyStep(bk: Backend, inst: Instance, msgs: seq<Messages>, pf: Proof, state: Bytes, digits: bool)
    requires inst.Valid() && |msgs| >= 2
    ensures var t := DeriveTranscript(bk, inst, msgs[0], state);
      var fc := FinalConstraint(bk, inst, t);
      var next := NextInstance(bk, inst.param, fc, t);
      && (next.Done? ==> next.value.Valid())
      && (Verify(bk, inst, msgs, pf, state, digits) <==>
            Protocol.PartVerify(bk, inst, t) && next.Done? && Verify(bk, next.value, msgs[1..], pf, t.seed4, digits))
      && (WellFormed(bk, inst, msgs, pf, state) ==>
            MessageSizes(inst.param, msgs[0]) && (next.Done? ==> WellFormed(bk, next.value, msgs[1..], pf, t.seed4)))
  {
    hide DeriveTranscript, FinalConstraint, NextInstance, Protocol.PartVerify, Protocol.VerifyBaseProof, MessageSizes;
    var t := DeriveTranscript(bk, inst, msgs[0], state);
    NextInstanceValid(bk, inst.param, FinalConstraint(bk, inst, t), t);
  }

  lemma VerifyLastStep(bk: Backend, inst: Instance, msgs: seq<Messages>, pf: Proof, state: Bytes, digits: bool)
    requires inst.Valid() && |msgs| == 1
    ensures var t := DeriveTranscript(bk, inst, msgs[0], state);
      var fc := FinalConstraint(bk, inst, t);
      && (Verify(bk, inst, msgs, pf, state, digits) <==>
            Protocol.PartVerify(bk, inst, t) && Protocol.VerifyBaseProof(bk, inst.param, fc, t, pf, digits))
      && (WellFormed(bk, inst, msgs, pf, state) ==> MessageSizes(inst.param, msgs[0]) && ProofShape(inst.param, pf))
  {
    hide DeriveTranscript, FinalConstraint, NextInstance, Protocol.PartVerify, Protocol.VerifyBaseProof, MessageSizes;
  }

  class LabradorVerifier {
    const bk: Backend
    const labInst: LabradorInstance
    const oracle: Oracle
    const proverMsgs: seq<Messages>
    const finalProof: Proof
    const threads: Threads

    constructor (bk: Backend, inst: LabradorInstance, msgs: seq<Messages>, pf: Proof, seed: Bytes, threads: Threads)
      requires inst.Valid() && inst.param.Valid()
      ensures labInst == inst && this.bk == bk && proverMsgs == msgs && finalProof == pf && this.threads == threads
      ensures fresh(oracle) && oracle.hash == bk.hash && oracle.state == InitialState(bk, seed, StateOf(inst))
    {
      hide Param.Valid;
      var o := new Oracle(bk.hash, seed + bk.encodeParam(inst.param, |inst.equalityConstraints|,
                                                         |inst.constZeroConstraints|));
      this.bk, this.labInst, this.oracle, this.proverMsgs, this.finalProof := bk, inst, o, msgs, pf;
      this.threads := threads;
    }

    /** Every round's messages are checked and turned into the next instance; the last round in full. With several
        workers the norm check of the last digits may let more through. */
    method Verify() returns (ok: bool)
      requires labInst.Valid() && labInst.param.Valid() && oracle.hash == bk.hash && |proverMsgs| >= 1
      requires StateOf(labInst).Valid() && WellFormed(bk, StateOf(labInst), proverMsgs, finalProof, oracle.state)
      requires threads.nofWorkers >= 1
      modifies oracle
      ensures Runs.Verify(bk, StateOf(labInst), proverMsgs, finalProof, old(oracle.state), true) ==> ok
      ensures ok ==> Runs.Verify(bk, StateOf(labInst), proverMsgs, finalProof, old(oracle.state), false)
      ensures threads.Single() ==>
        (ok <==> Runs.Verify(bk, StateOf(labInst), proverMsgs, finalProof, old(oracle.state), true))
    {
      hide Runs.Verify, WellFormed, Param.Valid, DeriveTranscript, FinalConstraint, NextInstance,
        Protocol.PartVerify, Protocol.VerifyBaseProof,
        MessageSizes;
      ghost var whole := Runs.Verify(bk, StateOf(labInst), proverMsgs, finalProof, oracle.state, true);
      ghost var rest := Runs.Verify(bk, StateOf(labInst), proverMsgs, finalProof, oracle.state, false);
      var inst := new LabradorInstance.Copy(labInst);
      var numRec := |proverMsgs|;
      assert proverMsgs[0..] == proverMsgs;
      for i := 0 to numRec - 1
        invariant fresh(inst) && inst.Valid() && inst.param.Valid() && StateOf(inst).Valid()
        invariant whole <==> Runs.Verify(bk, StateOf(inst), proverMsgs[i..], finalProof, oracle.state, true)
        invariant rest <==> Runs.Verify(bk, StateOf(inst), proverMsgs[i..], finalProof, oracle.state, false)
        invariant WellFormed(bk, StateOf(inst), proverMsgs[i..], finalProof, oracle.state)
      {
        VerifyStep(bk, StateOf(inst), proverMsgs[i..], finalProof, oracle.state, true);
        VerifyStep(bk, StateOf(inst), proverMsgs[i..], finalProof, oracle.state, false);
        assert proverMsgs[i..][1..] == proverMsgs[i + 1..] && proverMsgs[i..][0] == proverMsgs[i];
        var next := PassRound(inst, proverMsgs[i]);
        if next == null { return false; }
        inst := next;
      }
      VerifyLastStep(bk, StateOf(inst), proverMsgs[numRec - 1..], finalProof, oracle.state, true);
      VerifyLastStep(bk, StateOf(inst), proverMsgs[numRec - 1..], finalProof, oracle.state, false);
      assert proverMsgs[numRec - 1..][0] == proverMsgs[numRec - 1];
      var base := new LabradorBaseVerifier(bk, inst, proverMsgs[numRec - 1], oracle, threads);
      Counts(bk, StateOf(inst), proverMsgs[numRec - 1], oracle.state);
      ok := base.FullyVerify(finalProof);
    }

    /** The messages of one round that is recursed over; null when a test fails or a base does not fit. */
    method PassRound(inst: LabradorInstance, msg: Messages) returns (next: LabradorInstance?)
      requires inst.Valid() && inst.param.Valid() && StateOf(inst).Valid() && oracle.hash == bk.hash
      requires MessageSizes(inst.param, msg) && threads.nofWorkers >= 1
      modifies oracle
      ensures var t := DeriveTranscript(bk, StateOf(inst), msg, old(oracle.state));
        var o := NextInstance(bk, inst.param, FinalConstraint(bk, StateOf(inst), t), t);
        && (next == null <==> !(Protocol.PartVerify(bk, StateOf(inst), t) && o.Done?))
        && (next != null ==> o.value == StateOf(next) && oracle.state == t.seed4)
      ensures next != null ==> fresh(next) && next.Valid() && next.param.Valid() && StateOf(next).Valid()
    {
      hide Param.Valid, DeriveTranscript, FinalConstraint, NextInstance, Protocol.PartVerify, RecursionConstraints,
        NextParam, NextMu, NextNu,
        RecursionLayout, NextBase;
      ghost var start := StateOf(inst);
      var base := new LabradorBaseVerifier(bk, inst, msg, oracle, threads);
      Counts(bk, start, msg, oracle.state);
      var t := base.trs;
      var ok := base.PartVerify();
      if !ok { return null; }
      var p := inst.param;
      var finalConst := base.labInst.equalityConstraints[0];
      ValidBases(p);
      NextIs(bk, p, finalConst, t);
      NextInstanceValid(bk, p, finalConst, t);
      next := PrepareRecursionInstance(bk, p, finalConst, t, bk.base0(p.r, p.beta), NextMu(bk, p), NextNu(bk, p));
      oracle.state := base.oracle.state;
    }
  }

  lemma Counts(bk: Backend, inst: Instance, msg: Messages, state: Bytes)
    ensures var t := DeriveTranscript(bk, inst, msg, state);
      && t.msg == msg && |t.alpha| == |inst.eqs| + inst.param.rounds && |t.challenges| == inst.param.r
      && var fc := FinalConstraint(bk, inst, t); fc.r == inst.param.r && fc.n == inst.param.n && fc.Valid()
  {
    hide FinalConstraint, DeriveTranscript;
  }

  lemma HonestSizes(bk: Backend, inst: Instance, s: seq<Poly>, state: Bytes)
    requires inst.Valid()
    ensures var rd := HonestRound(bk, inst, s, state);
      MessageSizes(inst.param, rd.trs.msg) && ProofShape(inst.param, rd.proof)
  {
    hide ProverT, ProverG, ProverH, ProverZ, AllEqualities, Aggregate, SampleTq, SampleZq, SampleChallenges, AddedB,
      NttVec, ProofShape;
    RoundShape(bk, inst, s, state);
  }

  /** What a run of at least two rounds is made of. */
  lemma ProveParts(bk: Backend, inst: Instance, s: seq<Poly>, state: Bytes, k: nat)
    requires inst.Valid() && k >= 2 && Prove(bk, inst, s, state, k).Done?
    ensures var rd := HonestRound(bk, inst, s, state);
      var next := Advance(bk, inst, rd);
      && next.Done?
      && var rest := Prove(bk, next.value.inst, next.value.s, rd.trs.seed4, k - 1);
         && rest.Done? && Prove(bk, inst, s, state, k).value == Run([rd.trs] + rest.value.transcripts, rest.value.proof)
  {
    hide HonestRound, Advance, Instance.Valid;
  }

  lemma ProveOne(bk: Backend, inst: Instance, s: seq<Poly>, state: Bytes)
    requires inst.Valid()
    ensures var rd := HonestRound(bk, inst, s, state); Prove(bk, inst, s, state, 1) == Done(Run([rd.trs], rd.proof))
  {
    hide HonestRound, Instance.Valid;
  }

  /** One round on top of well-formed ones. */
  lemma WellFormedStep(bk: Backend, inst: Instance, s: seq<Poly>, state: Bytes, msgs: seq<Messages>, pf: Proof)
    requires inst.Valid() && |msgs| >= 2
    requires var rd := HonestRound(bk, inst, s, state);
      && msgs[0] == rd.trs.msg && Advance(bk, inst, rd).Done?
      && WellFormed(bk, Advance(bk, inst, rd).value.inst, msgs[1..], pf, rd.trs.seed4)
    ensures WellFormed(bk, inst, msgs, pf, state)
  {
    hide ProverRound, DeriveTranscript, FinalConstraint, MessageSizes, NextInstance, NextWitness;
    SameTranscript(bk, inst, s, state);
    HonestSizes(bk, inst, s, state);
  }

  /** The messages and the proof of an honest run have the sizes that the verifier needs. */
  lemma {:induction false} HonestWellFormed(bk: Backend, inst: Instance, s: seq<Poly>, state: Bytes, numRec: nat)
    requires inst.Valid() && numRec >= 1 && Prove(bk, inst, s, state, numRec).Done?
    ensures var run := Prove(bk, inst, s, state, numRec).value;
      |run.transcripts| == numRec && WellFormed(bk, inst, MessagesOf(run.transcripts), run.proof, state)
    decreases numRec
  {
    hide HonestRound, Advance, Instance.Valid, Prove, WellFormed, MessageSizes;
    var rd, run := HonestRound(bk, inst, s, state), Prove(bk, inst, s, state, numRec).value;
    if numRec == 1 {
      ProveOne(bk, inst, s, state);
      HonestSizes(bk, inst, s, state);
      LastWellFormed(bk, inst, MessagesOf(run.transcripts), run.proof, state);
    } else {
      ProveParts(bk, inst, s, state, numRec);
      var next := Advance(bk, inst, rd).value;
      HonestWellFormed(bk, next.inst, next.s, rd.trs.seed4, numRec - 1);
      var rest := Prove(bk, next.inst, next.s, rd.trs.seed4, numRec - 1).value;
      assert MessagesOf(run.transcripts)[1..] == MessagesOf(rest.transcripts);
      WellFormedStep(bk, inst, s, state, MessagesOf(run.transcripts), run.proof);
    }
  }

  lemma LastWellFormed(bk: Backend, inst: Instance, msgs: seq<Messages>, pf: Proof, state: Bytes)
    requires inst.Valid() && |msgs| == 1 && MessageSizes(inst.param, msgs[0]) && ProofShape(inst.param, pf)
    ensures WellFormed(bk, inst, msgs, pf, state)
  {
    hide MessageSizes, ProofShape, DeriveTranscript, FinalConstraint, NextInstance;
  }

  /** Prover and verifier run one after the other from the same seed: the prover fails exactly where the specified run
      does, and every honest run is accepted, whatever the workers of the norm check. */
  method ProveAndVerify(bk: Backend, inst: LabradorInstance, s: seq<Poly>, seed: Bytes, numRec: nat, threads: Threads)
    returns (proved: bool, accepted: bool)
    requires inst.Valid() && inst.param.Valid() && StateOf(inst).Valid() && numRec >= 1 && threads.nofWorkers >= 1
    requires Witnessed(StateOf(inst), s) && RunFits(bk, StateOf(inst), s, InitialState(bk, seed, StateOf(inst)), numRec)
    ensures proved <==> Runs.Prove(bk, StateOf(inst), s, InitialState(bk, seed, StateOf(inst)), numRec).Done?
    ensures proved <==> accepted
  {
    hide Instance.Valid, Param.Valid, RunFits, Runs.Prove, Runs.Verify, WellFormed;
    ghost var state := InitialState(bk, seed, StateOf(inst));
    WitnessSize(StateOf(inst), s);
    var prover := new LabradorProver(bk, inst, s, seed, numRec);
    var o := prover.Prove();
    if o.Failed? { return false, false; }
    HonestWellFormed(bk, StateOf(inst), s, state, numRec);
    Completeness(bk, StateOf(inst), s, state, numRec);
    var verifier := new LabradorVerifier(bk, inst, MessagesOf(o.value.transcripts), o.value.proof, seed, threads);
    accepted := verifier.Verify();
    proved := true;
  }

  lemma WitnessSize(inst: Instance, s: seq<Poly>)
    requires Witnessed(inst, s)
    ensures |s| == inst.param.r * inst.param.n
  {
    hide Satisfies, SatisfiesConstZero, NttVec;
  }
}
