/** The verifier's verdict on a run of any number of rounds, unrolled. */
module Acceptance {
  import opened Polynomials
  import opened Vectors
  import opened Parameters
  import opened BaseChecks
  import opened BaseProver
  import opened NormBounds
  import opened Protocol
  import opened Runs
  import opened HashChain

  /** The rounds before the i-th, without the first. */
  lemma EndStep(bk: Backend, inst: Instance, ms: seq<Messages>, state: Bytes, i: nat)
    requires 1 <= i <= |ms|
    ensures EndState(bk, state, ms[..i])
         == EndState(bk, DeriveTranscript(bk, inst, ms[0], state).seed4, ms[1..][..i - 1])
  {
    hide DeriveTranscript, Encodings, ChainState;
    SeedIs(bk, inst, ms[0], state, 4);
    assert Encodings(bk, ms[0])[..4] == Encodings(bk, ms[0]);
    assert ms[..i][1..] == ms[1..][..i - 1];
    ChainConcat(bk, state, Encodings(bk, ms[0]), RunEncodings(bk, ms[1..][..i - 1]));
  }

  /** The transcript of round i: its state comes from all messages of the rounds before. */
  function TranscriptAt(bk: Backend, insts: seq<Instance>, ms: seq<Messages>, state: Bytes, i: nat): Transcript
    requires i < |ms| == |insts|
  {
    DeriveTranscript(bk, insts[i], ms[i], EndState(bk, state, ms[..i]))
  }

  /** Round i passes its tests, and every round but the last hands on the instance that its checks become. */
  ghost predicate RoundPasses(bk: Backend, insts: seq<Instance>, ms: seq<Messages>, state: Bytes, i: nat)
    requires i < |ms| == |insts|
  {
    var t := TranscriptAt(bk, insts, ms, state, i);
    && insts[i].Valid() && PartVerify(bk, insts[i], t)
    && (i + 1 < |ms| ==> NextInstance(bk, insts[i].param, FinalConstraint(bk, insts[i], t), t) == Done(insts[i + 1]))
  }

  ghost predicate RoundsPass(bk: Backend, insts: seq<Instance>, ms: seq<Messages>, state: Bytes) {
    |insts| == |ms| && forall i: nat :: i < |ms| ==> RoundPasses(bk, insts, ms, state, i)
  }

  /** The digits are short for their bases, z is short, and the five algebraic checks hold of the last round. */
  ghost predicate LastPasses(bk: Backend, inst: Instance, t: Transcript, pf: Proof, digits: bool) {
    var p, fc := inst.param, FinalConstraint(bk, inst, t);
    && p.Bases() && bk.zNormOk(p, InttVec(pf.zHat))
    && (digits ==> Short(pf.t, p.base1) && Short(pf.h, p.base2) && Short(pf.g, p.base3))
    && CheckU1(p, t.msg.u1, pf) && CheckU2(p, t.msg.u2, pf)
    && CheckA(p, t.challenges, pf) && CheckZ(p, t.challenges, pf)
    && CheckPhi(p, fc, t.challenges, pf) && CheckTrace(p, fc, pf)
  }

  /** Every coefficient is at most half the base in magnitude, rounded up. */
  ghost predicate Short(v: seq<Poly>, base: nat) {
    forall i, k :: 0 <= i < |v| && 0 <= k < D ==> OfMagnitude(Slot(v, i, k), (base + 1) / 2)
  }

  lemma LastIs(bk: Backend, inst: Instance, t: Transcript, pf: Proof, digits: bool)
    requires inst.Valid()
    ensures inst.param.Bases()
    ensures VerifyBaseProof(bk, inst.param, FinalConstraint(bk, inst, t), t, pf, digits)
       <==> LastPasses(bk, inst, t, pf, digits)
  {
    hide FinalConstraint, CheckU1, CheckU2, CheckA, CheckZ, CheckPhi, CheckTrace, Below, OfMagnitude, InttVec,
      Instance.Valid, NormLimit, Slot;
    ValidParam(inst);
    BelowLimit(pf.t, inst.param.base1);
    BelowLimit(pf.h, inst.param.base2);
    BelowLimit(pf.g, inst.param.base3);
  }

  /** The instances that the verifier of an accepted run goes through. */
  ghost predicate Accepting(bk: Backend, insts: seq<Instance>, inst: Instance, ms: seq<Messages>, pf: Proof,
                            state: Bytes, digits: bool) {
    && |ms| >= 1 && RoundsPass(bk, insts, ms, state) && insts[0] == inst
    && LastPasses(bk, insts[|ms| - 1], TranscriptAt(bk, insts, ms, state, |ms| - 1), pf, digits)
  }

  lemma NoneBefore(bk: Backend, state: Bytes, ms: seq<Messages>)
    ensures EndState(bk, state, ms[..0]) == state
  {}

  /** The first round of a run and the run of the rest, from one round on. */
  lemma RestTranscript(bk: Backend, insts: seq<Instance>, ms: seq<Messages>, state: Bytes, i: nat)
    requires 1 <= i < |ms| == |insts|
    ensures TranscriptAt(bk, insts, ms, state, i)
         == TranscriptAt(bk, insts[1..], ms[1..], DeriveTranscript(bk, insts[0], ms[0], state).seed4, i - 1)
  {
    hide DeriveTranscript, EndState;
    EndStep(bk, insts[0], ms, state, i);
  }

  lemma RestPasses(bk: Backend, insts: seq<Instance>, ms: seq<Messages>, state: Bytes, i: nat)
    requires 1 <= i < |ms| == |insts|
    ensures RoundPasses(bk, insts, ms, state, i)
       <==> RoundPasses(bk, insts[1..], ms[1..], DeriveTranscript(bk, insts[0], ms[0], state).seed4, i - 1)
  {
    hide TranscriptAt, PartVerify, NextInstance, FinalConstraint, DeriveTranscript, Instance.Valid;
    RestTranscript(bk, insts, ms, state, i);
  }

  lemma FirstTranscript(bk: Backend, insts: seq<Instance>, ms: seq<Messages>, state: Bytes)
    requires 1 <= |ms| == |insts|
    ensures TranscriptAt(bk, insts, ms, state, 0) == DeriveTranscript(bk, insts[0], ms[0], state)
  {
    hide DeriveTranscript, EndState;
    NoneBefore(bk, state, ms);
  }

  /** The first round passes and the rest passes from the state it leaves. */
  lemma SplitRounds(bk: Backend, insts: seq<Instance>, ms: seq<Messages>, state: Bytes)
    requires 2 <= |ms| == |insts|
    ensures RoundsPass(bk, insts, ms, state)
       <==> RoundPasses(bk, insts, ms, state, 0)
            && RoundsPass(bk, insts[1..], ms[1..], DeriveTranscript(bk, insts[0], ms[0], state).seed4)
  {
    hide RoundPasses, DeriveTranscript;
    var rest := DeriveTranscript(bk, insts[0], ms[0], state).seed4;
    forall i: nat | 1 <= i < |ms|
      ensures RoundPasses(bk, insts, ms, state, i) <==> RoundPasses(bk, insts[1..], ms[1..], rest, i - 1)
    {
      RestPasses(bk, insts, ms, state, i);
    }
    if RoundsPass(bk, insts, ms, state) {
      forall i: nat | i < |ms| - 1 ensures RoundPasses(bk, insts[1..], ms[1..], rest, i) {
        assert RoundPasses(bk, insts, ms, state, i + 1);
      }
    }
  }

  /** The instances of an accepted run. */
  lemma {:induction false} Unrolled(bk: Backend, inst: Instance, ms: seq<Messages>, pf: Proof, state: Bytes,
                                    digits: bool) returns (insts: seq<Instance>)
    requires inst.Valid() && Verify(bk, inst, ms, pf, state, digits)
    ensures Accepting(bk, insts, inst, ms, pf, state, digits)
    decreases |ms|
  {
    hide DeriveTranscript, FinalConstraint, PartVerify, NextInstance, LastPasses, VerifyBaseProof, Instance.Valid,
      EndState, TranscriptAt;
    var t := DeriveTranscript(bk, inst, ms[0], state);
    if |ms| == 1 {
      insts := [inst];
      FirstTranscript(bk, insts, ms, state);
      LastIs(bk, inst, t, pf, digits);
    } else {
      NextValid(bk, inst, t);
      var next := NextInstance(bk, inst.param, FinalConstraint(bk, inst, t), t).value;
      var rest := Unrolled(bk, next, ms[1..], pf, t.seed4, digits);
      insts := [inst] + rest;
      assert insts[1..] == rest;
      FirstTranscript(bk, insts, ms, state);
      SplitRounds(bk, insts, ms, state);
      RestTranscript(bk, insts, ms, state, |ms| - 1);
    }
  }

  lemma NextValid(bk: Backend, inst: Instance, t: Transcript)
    requires inst.Valid()
    ensures inst.param.Valid()
    ensures var next := NextInstance(bk, inst.param, FinalConstraint(bk, inst, t), t);
      next.Done? ==> next.value.Valid()
  {
    hide FinalConstraint, NextInstance;
    NextInstanceValid(bk, inst.param, FinalConstraint(bk, inst, t), t);
  }

  lemma {:induction false} Rolled(bk: Backend, insts: seq<Instance>, inst: Instance, ms: seq<Messages>, pf: Proof,
                                  state: Bytes, digits: bool)
    requires inst.Valid() && Accepting(bk, insts, inst, ms, pf, state, digits)
    ensures Verify(bk, inst, ms, pf, state, digits)
    decreases |ms|
  {
    hide DeriveTranscript, FinalConstraint, PartVerify, NextInstance, LastPasses, VerifyBaseProof, Instance.Valid,
      EndState, TranscriptAt;
    var t := DeriveTranscript(bk, inst, ms[0], state);
    assert RoundPasses(bk, insts, ms, state, 0);
    FirstTranscript(bk, insts, ms, state);
    if |ms| == 1 {
      LastIs(bk, inst, t, pf, digits);
    } else {
      NextValid(bk, inst, t);
      SplitRounds(bk, insts, ms, state);
      RestTranscript(bk, insts, ms, state, |ms| - 1);
      Rolled(bk, insts[1..], insts[1], ms[1..], pf, t.seed4, digits);
    }
  }

  /** Acceptance unrolled: the verifier accepts exactly when there are instances, one for each round, each the
      recursion's successor of the one before, such that every round's messages pass under the state that all earlier
      messages leave, and the last proof passes in the last round. */
  lemma {:induction false} AcceptedIff(bk: Backend, inst: Instance, ms: seq<Messages>, pf: Proof, state: Bytes,
                                       digits: bool)
    requires inst.Valid() && |ms| >= 1
    ensures Verify(bk, inst, ms, pf, state, digits) <==>
      exists insts: seq<Instance> :: Accepting(bk, insts, inst, ms, pf, state, digits)
    decreases |ms|
  {
    hide DeriveTranscript, FinalConstraint, PartVerify, NextInstance, LastPasses, VerifyBaseProof, Instance.Valid,
      EndState, RoundsPass;
    if Verify(bk, inst, ms, pf, state, digits) {
      var insts := Unrolled(bk, inst, ms, pf, state, digits);
    }
    if insts: seq<Instance> :| Accepting(bk, insts, inst, ms, pf, state, digits) {
      Rolled(bk, insts, inst, ms, pf, state, digits);
    }
  }
}
