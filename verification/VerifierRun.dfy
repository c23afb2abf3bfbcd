/** The verifier's checks on a base proof, in the order in which it makes them. */
module BaseCheckLoops {
  import opened Residues
  import opened Products
  import opened Polynomials
  import opened Vectors
  import opened Packing
  import opened Constraints
  import opened DigitVectors
  import opened Parameters
  import opened BaseChecks
  import opened NormBounds
  import opened NormMerge
  import opened SymmetricLoops
  import opened BaseProverLoops
  import BitReverseInPlace

  /** Compares the first size entries. */
  method PolyVecEq(u: seq<Poly>, v: seq<Poly>, size: nat) returns (equal: bool)
    requires size <= |u| && size <= |v|
    ensures equal <==> u[..size] == v[..size]
  {
    for i := 0 to size
      invariant u[..i] == v[..i]
    {
      if u[i] != v[i] {
        assert u[..size][i] != v[..size][i];
        return false;
      }
      assert u[..i + 1] == u[..i] + [u[i]] && v[..i + 1] == v[..i] + [v[i]];
    }
    return true;
  }

  lemma FlatSlot(v: seq<Poly>, i: nat, k: nat)
    requires i < |v| && k < D
    ensures 0 <= i * D + k < |v| * D && Flattened(v)[i * D + k] == Slot(v, i, k)
  {
    BitReverseInPlace.QuotientUnique(i * D + k, D, i, k);
  }

  lemma FlatBelow(v: seq<Poly>, bound: nat)
    ensures EntriesBelow(Flattened(v), bound) <==> Below(v, bound)
  {
    hide Slot, AbsCentered;
    var flat := Flattened(v);
    if EntriesBelow(flat, bound) {
      forall i, k | 0 <= i < |v| && 0 <= k < D ensures AbsCentered(Slot(v, i, k)) < bound {
        FlatSlot(v, i, k);
      }
    } else {
      var x :| 0 <= x < |flat| && AbsCentered(flat[x]) >= bound;
      assert flat[x] == Slot(v, x / D, x % D);
    }
  }

  /** The infinity norm of the flat coefficients. */
  method CheckNorm(v: seq<Poly>, bound: nat, th: Threads) returns (ok: bool)
    requires |v| >= 1 && th.nofWorkers >= 1
    ensures Below(v, bound) ==> ok
    ensures th.Single() ==> (ok <==> Below(v, bound))
  {
    hide Below, EntriesBelow;
    FlatBelow(v, bound);
    ok := CheckInfinity(Flattened(v), bound, th);
  }

  /** t, g and h against the bounds that go with base1, base3 and base2. */
  method CheckDigits(p: Param, pf: Proof, th: Threads) returns (ok: bool)
    requires p.Valid() && ProofShape(p, pf) && th.nofWorkers >= 1
    ensures SmallDigits(p, pf) ==> ok
    ensures th.Single() ==> (ok <==> SmallDigits(p, pf))
  {
    hide Below, Digits;
    Sizes(p);
    var tSmall := CheckNorm(pf.t, (p.base1 + 1) / 2 + 1, th);
    var hSmall := CheckNorm(pf.h, (p.base2 + 1) / 2 + 1, th);
    var gSmall := CheckNorm(pf.g, (p.base3 + 1) / 2 + 1, th);
    ok := tSmall && hSmall && gSmall;
  }

  /** The openings of u1 and u2. */
  method CheckOpenings(p: Param, u1: seq<Poly>, u2: seq<Poly>, pf: Proof) returns (ok: bool)
    requires p.Valid() && ProofShape(p, pf) && |u1| == p.kappa1 && |u2| == p.kappa2
    ensures ok <==> CheckU1(p, u1, pf) && CheckU2(p, u2, pf)
  {
    hide OpeningU1, OpeningU2, Param.Valid;
    OpeningSizes(p, pf);
    var v1 := CommitBoth(p, pf.t, pf.g);
    var same1 := PolyVecEq(v1, u1, p.kappa1);
    assert v1[..p.kappa1] == v1 && u1[..p.kappa1] == u1;
    if !same1 { return false; }
    var v2 := CommitH(p, pf.h);
    var same2 := PolyVecEq(v2, u2, p.kappa2);
    assert v2[..p.kappa2] == v2 && u2[..p.kappa2] == u2;
    return same2;
  }

  lemma OpeningSizes(p: Param, pf: Proof)
    ensures |OpeningU1(p, pf.t, pf.g)| == p.kappa1 && |OpeningU2(p, pf.h)| == p.kappa2
  {}

  /** zA = sum_i c_i t_i */
  method CheckCommitments(p: Param, c: seq<Poly>, pf: Proof) returns (ok: bool)
    requires p.Valid() && ProofShape(p, pf)
    ensures ok <==> CheckA(p, c, pf)
  {
    hide Matmul, NttVec, RecomposeVec, Digits;
    Sizes(p);
    ExactDivision(1, p.n);
    var zA := AjtaiCommitment(p.matA, p.n, p.kappa, pf.zHat);
    var t := RecomposeVec(pf.t, p.base1, Digits(p.base1), p.r * p.kappa);
    var tHat := NttVec(t);
    var ct := Matmul(c, 1, p.r, tHat, p.kappa);
    ok := PolyVecEq(zA, ct, p.kappa);
    assert zA[..p.kappa] == zA && ct[..p.kappa] == ct;
  }

  /** The values of a symmetric matrix given by the digits of its packed triangle. */
  method SymmetricValues(d: seq<Poly>, base: nat, r: nat) returns (m: seq<Poly>)
    requires base >= 2
    ensures m == SymmHat(d, base, r)
  {
    hide RecomposeVec, NttVec, SymmMatrix, Digits, Off;
    OffTotal(r);
    var packed := RecomposeVec(d, base, Digits(base), (r * (r + 1)) / 2);
    var full := ReconstructSymmMatrix(packed, r);
    m := NttVec(full[..]);
  }

  /** The three equations about z, G and H. */
  method CheckProducts(p: Param, fc: Equality, c: seq<Poly>, pf: Proof) returns (ok: bool)
    requires p.Valid() && ProofShape(p, pf) && fc.Valid() && fc.r == p.r && fc.n == p.n
    ensures ok <==> CheckZ(p, c, pf) && CheckPhi(p, fc, c, pf) && CheckTrace(p, fc, pf)
  {
    hide Matmul, SymmHat, BaseChecks.Trace, VecAdd, Param.TLen, Param.GLen, Param.HLen;
    var gHat := SymmetricValues(pf.g, p.base2, p.r);
    var hHat := SymmetricValues(pf.h, p.base3, p.r);
    var ipZZ := Matmul(pf.zHat, 1, p.n, pf.zHat, 1);
    var cGc := Matmul(c, 1, p.r, Matmul(gHat, p.r, p.r, c, 1), 1);
    var cHc := Matmul(c, 1, p.r, Matmul(hHat, p.r, p.r, c, 1), 1);
    NonNegative(p.r, p.r);
    var ipAG := Matmul(fc.a, 1, p.r * p.r, gHat, 1);
    var cPhiZ := Matmul(c, 1, p.r, Matmul(fc.phi, p.r, p.n, pf.zHat, 1), 1);
    var traceH := ComputeMatrixTrace(hHat, p.r);
    OneEntry(ipZZ, cGc);
    OneEntry(cPhiZ, cHc);
    var okZ := PolyVecEq(ipZZ, cGc, 1);
    if !okZ { return false; }
    var okPhi := PolyVecEq(cPhiZ, cHc, 1);
    if !okPhi { return false; }
    var sum := VecAdd(VecAdd(ipAG, [traceH]), [fc.b]);
    OneEntry(sum, [ZERO]);
    ok := PolyVecEq(sum, [ZERO], 1);
  }

  lemma OneEntry(u: seq<Poly>, v: seq<Poly>)
    requires |u| == |v| == 1
    ensures u[..1] == u && v[..1] == v
  {}
}

/** One round of the verifier, as it mutates its instance and its oracle. */
module BaseVerifierLoops {
  import Sums
  import opened Residues
  import opened Products
  import opened Arrays
  import opened Polynomials
  import opened Vectors
  import opened Constraints
  import opened Parameters
  import opened BaseChecks
  import opened ConstZeroAggregation
  import opened NormBounds
  import opened NormMerge
  import opened LabradorInstances
  import opened AggregationLoops
  import opened Protocol
  import opened Oracles
  import opened BaseProverLoops
  import opened BaseCheckLoops

  /** The sizes of the messages that an honest prover sends. */
  predicate MessageSizes(p: Param, m: Messages) {
    |m.u1| == p.kappa1 && |m.u2| == p.kappa2 && |m.bAgg| == p.rounds && |m.p| == p.jlOut
  }

  class LabradorBaseVerifier {
    const bk: Backend
    const labInst: LabradorInstance
    const oracle: Oracle
    const threads: Threads
    var trs: Transcript

    ghost function State(): Instance
      reads labInst
    {
      Instance(labInst.param, labInst.equalityConstraints, labInst.constZeroConstraints)
    }

    ghost predicate Valid()
      reads this, labInst
    {
      labInst.Valid() && labInst.param.Valid() && oracle.hash == bk.hash && MessageSizes(labInst.param, trs.msg)
      && threads.nofWorkers >= 1
    }

    /** Copies instance and oracle and derives the transcript from the messages. */
    constructor (bk: Backend, inst: LabradorInstance, msg: Messages, oracle: Oracle, threads: Threads)
      requires inst.Valid() && inst.param.Valid() && oracle.hash == bk.hash && MessageSizes(inst.param, msg)
      requires threads.nofWorkers >= 1
      ensures Valid() && fresh(labInst) && fresh(this.oracle) && this.bk == bk && this.threads == threads
      ensures State() == Instance(inst.param, inst.equalityConstraints, inst.constZeroConstraints)
      ensures trs == DeriveTranscript(bk, State(), msg, oracle.state) && this.oracle.state == trs.seed4
    {
      var i := new LabradorInstance.Copy(inst);
      var o := new Oracle.Copy(oracle);
      var t := CreateTranscript(bk, i, msg, o);
      this.bk, this.labInst, this.oracle, this.threads, this.trs := bk, i, o, threads, t;
    }

    /** All seeds and challenges, in the prover's order; the number of alphas is counted ahead of the aggregation. */
    static method CreateTranscript(bk: Backend, inst: LabradorInstance, msg: Messages,
                              oracle: Oracle) returns (t: Transcript)
      requires oracle.hash == bk.hash
      modifies oracle
      ensures t == DeriveTranscript(bk, Instance(inst.param, inst.equalityConstraints, inst.constZeroConstraints), msg,
                                    old(oracle.state))
      ensures oracle.state == t.seed4
    {
      hide SampleZq, SampleTq, SampleChallenges;
      var p := inst.param;
      var seed1 := oracle.Generate(bk.encodeTq(msg.u1));
      var seed2 := oracle.Generate(bk.encodeJl(msg.jlI, msg.p));
      var psi := SampleZq(bk, seed2 + [ONE_MARK], p.rounds * |inst.constZeroConstraints|);
      var omega := SampleZq(bk, seed2 + [TWO_MARK], p.rounds * p.jlOut);
      var seed3 := oracle.Generate(bk.encodeTq(msg.bAgg));
      var k := |inst.equalityConstraints| + p.rounds;
      var alphaHat := SampleTq(bk, seed3 + [ONE_MARK], k);
      var seed4 := oracle.Generate(bk.encodeTq(msg.u2));
      t := Transcript(msg, seed1, seed2, seed3, seed4, psi, omega, alphaHat, SampleChallenges(bk, p.n, p.r, seed4));
    }

    /** Replaces the const-zero constraints, with the prover's polynomials as the constants. */
    method AggConstZeroConstraints()
      requires Valid()
      modifies labInst
      ensures Valid() && labInst.constZeroConstraints == []
      ensures labInst.equalityConstraints
           == AllEqualities(bk, old(State()), trs.seed1, trs.msg.jlI, trs.psi, trs.omega, trs.msg.bAgg)
    {
      hide AddedConstraint, AggregatedA, AggregatedPhi, AddedUpTo, Param.Valid;
      ghost var inst := State();
      var p, zeros := labInst.param, labInst.constZeroConstraints;
      var bAgg := trs.msg.bAgg;
      assert AddedUpTo(bk, inst, trs.seed1, trs.msg.jlI, trs.psi, trs.omega, bAgg, labInst.equalityConstraints, 0) by {
        NothingYet(bk, inst, trs.seed1, trs.msg.jlI, trs.psi, trs.omega, bAgg);
      }
      for k := 0 to p.rounds
        invariant Valid() && labInst.constZeroConstraints == zeros
        invariant AddedUpTo(bk, inst, trs.seed1, trs.msg.jlI, trs.psi, trs.omega, bAgg, labInst.equalityConstraints, k)
      {
        var psiK, omegaK := Slice(trs.psi, |zeros|, k), Slice(trs.omega, p.jlOut, k);
        var jl := JlMatrix(bk, p, trs.seed1, trs.msg.jlI);
        var a, phi := AggregateParts(zeros, psiK, jl, p.jlOut, omegaK, p.r, p.n);
        GivenIs(bk, inst, trs.seed1, trs.msg.jlI, trs.psi, trs.omega, k, a, phi, bAgg[k]);
        var c := Equality(p.r, p.n, a, phi, bAgg[k]);
        OneMoreAdded(bk, inst, trs.seed1, trs.msg.jlI, trs.psi, trs.omega, bAgg, bAgg, labInst.equalityConstraints, k,
                     c);
        var ok := labInst.AddEqualityConstraint(c);
      }
      AllAdded(bk, inst, trs.seed1, trs.msg.jlI, trs.psi, trs.omega, bAgg, labInst.equalityConstraints);
      labInst.constZeroConstraints := [];
    }

    /** The norm of the projection, and the constant coefficient of every message polynomial. */
    method CheckMessages() returns (ok: bool)
      requires Valid()
      ensures ok <==> Protocol.PartVerify(bk, State(), trs)
    {
      hide ConstantTest, Param.Valid, InttVec, ExpectedB0;
      var p, zeros, t := labInst.param, labInst.constZeroConstraints, trs;
      ghost var inst := State();
      if !bk.jlNormOk(p, t.msg.p) { return false; }
      var bAggUnhat := InttVec(t.msg.bAgg);
      for k := 0 to p.rounds
        invariant forall j :: 0 <= j < k ==> ConstantTest(bk, inst, t, j)
      {
        var psiK, omegaK := Slice(t.psi, |zeros|, k), Slice(t.omega, p.jlOut, k);
        var testB0 := SumExpected(zeros, psiK, p.jlOut, omegaK, Projected(t.msg.p));
        TestIs(bk, inst, t, k);
        if testB0 != bAggUnhat[k][0] { return false; }
      }
      return true;
    }

    /** The tests on the messages; when they pass the instance becomes the final constraint. */
    method PartVerify() returns (ok: bool)
      requires Valid() && |trs.alpha| == |labInst.equalityConstraints| + labInst.param.rounds
      modifies labInst
      ensures Valid() && (ok <==> Protocol.PartVerify(bk, old(State()), trs))
      ensures ok ==>
        labInst.equalityConstraints == [FinalConstraint(bk, old(State()), trs)] && labInst.constZeroConstraints == []
    {
      hide Protocol.PartVerify, AllEqualities, Aggregate, Param.Valid;
      ok := CheckMessages();
      if ok {
        AggConstZeroConstraints();
        labInst.AggEqualityConstraints(trs.alpha);
      }
    }

    /** Norms, then the algebraic checks against the final constraint. What the norm check of the digits lets through
        depends on the workers; everything else is exact. */
    method VerifyBaseProof(pf: Proof) returns (ok: bool)
      requires Valid() && ProofShape(labInst.param,
                                     pf) && |labInst.equalityConstraints| == 1 && |trs.challenges| == labInst.param.r
      ensures Protocol.VerifyBaseProof(bk, labInst.param, labInst.equalityConstraints[0], trs, pf, true) ==> ok
      ensures ok ==> Protocol.VerifyBaseProof(bk, labInst.param, labInst.equalityConstraints[0], trs, pf, false)
      ensures threads.Single() ==>
        (ok <==> Protocol.VerifyBaseProof(bk, labInst.param, labInst.equalityConstraints[0], trs, pf, true))
    {
      hide SmallDigits, InttVec, CheckU1, CheckU2, CheckA, CheckZ, CheckPhi, CheckTrace, Param.TLen, Param.GLen,
        Param.HLen;
      var p, fc := labInst.param, labInst.equalityConstraints[0];
      var small := CheckDigits(p, pf, threads);
      if !small { return false; }
      if !bk.zNormOk(p, InttVec(pf.zHat)) { return false; }
      var openings := CheckOpenings(p, trs.msg.u1, trs.msg.u2, pf);
      if !openings { return false; }
      var commitments := CheckCommitments(p, trs.challenges, pf);
      if !commitments { return false; }
      ok := CheckProducts(p, fc, trs.challenges, pf);
    }

    /** The last round's proof against the constraint that the messages give. */
    ghost predicate Final(inst: Instance, pf: Proof, digits: bool)
      requires inst.param.Bases()
      reads this
    {
      Protocol.VerifyBaseProof(bk, inst.param, FinalConstraint(bk, inst, trs), trs, pf, digits)
    }

    method FullyVerify(pf: Proof) returns (ok: bool)
      requires Valid() && ProofShape(labInst.param, pf)
      requires |trs.alpha| == |labInst.equalityConstraints| + labInst.param.rounds
      requires |trs.challenges| == labInst.param.r
      modifies labInst
      ensures Protocol.PartVerify(bk, old(State()), trs) && Final(old(State()), pf, true) ==> ok
      ensures ok ==> Protocol.PartVerify(bk, old(State()), trs) && Final(old(State()), pf, false)
      ensures threads.Single() ==> (ok <==> Protocol.PartVerify(bk, old(State()), trs) && Final(old(State()), pf, true))
    {
      hide Protocol.PartVerify, Protocol.VerifyBaseProof, FinalConstraint, MessageSizes;
      var part := PartVerify();
      if part { ok := VerifyBaseProof(pf); } else { ok := false; }
    }
  }

  /** The claimed projection as a function on all integers. */
  function Projected(p: seq<Zq>): int -> int {
    l => At(p, l)
  }

  lemma TestIs(bk: Backend, inst: Instance, t: Transcript, k: nat)
    requires k < |t.msg.bAgg|
    ensures ConstantTest(bk, inst, t, k) <==>
      InttVec(t.msg.bAgg)[k][0]
        == ExpectedB0(inst.zeros, Slice(t.psi, |inst.zeros|, k), inst.param.jlOut, Slice(t.omega, inst.param.jlOut, k),
                      Projected(t.msg.p))
  {
    hide Intt, ExpectedB0;
    SameExpected(inst.zeros, Slice(t.psi, |inst.zeros|, k), inst.param.jlOut, Slice(t.omega, inst.param.jlOut, k),
                 l => At(t.msg.p, l), Projected(t.msg.p));
  }

  lemma SameExpected(zs: seq<ConstZero>, psi: int -> Zq, rows: nat, omega: int -> Zq, p: int -> int, q: int -> int)
    requires forall l :: p(l) == q(l)
    ensures ExpectedB0(zs, psi, rows, omega, p) == ExpectedB0(zs, psi, rows, omega, q)
  {
    Sums.SumExt(rows, WeightedBy(omega, p), WeightedBy(omega, q));
  }

  lemma NothingYet(bk: Backend, inst: Instance, seed1: Bytes, jlI: nat, psi: seq<Zq>, omega: seq<Zq>, b: seq<Poly>)
    ensures AddedUpTo(bk, inst, seed1, jlI, psi, omega, b, inst.eqs, 0)
  {}

  lemma GivenIs(bk: Backend, inst: Instance, seed1: Bytes, jlI: nat, psi: seq<Zq>, omega: seq<Zq>, k: int,
                a: seq<Poly>, phi: seq<Poly>, b: Poly)
    requires a == AggregatedA(inst.zeros, Slice(psi, |inst.zeros|, k), inst.param.r)
    requires phi == AggregatedPhi(inst.zeros, Slice(psi, |inst.zeros|, k), JlMatrix(bk, inst.param, seed1, jlI),
                                  inst.param.jlOut,
                                  Slice(omega, inst.param.jlOut, k), inst.param.r, inst.param.n)
    ensures Equality(inst.param.r, inst.param.n, a, phi, b) == AddedConstraint(bk, inst, seed1, jlI, psi, omega, k, b)
  {
    hide AggregatedA, AggregatedPhi;
  }
}
