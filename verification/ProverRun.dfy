/** The random oracle: every answer is also the next state. */
module Oracles {
  import opened Parameters

  class Oracle {
    const hash: Bytes -> Bytes
    var state: Bytes

    constructor (hash: Bytes -> Bytes, seed: Bytes)
      ensures this.hash == hash && state == seed
    {
      this.hash, state := hash, seed;
    }

    constructor Copy(other: Oracle)
      ensures hash == other.hash && state == other.state
    {
      hash, state := other.hash, other.state;
    }

    /** Hashes state and message together; the digest is the answer and replaces the state. */
    method Generate(msg: Bytes) returns (digest: Bytes)
      modifies this
      ensures digest == hash(old(state) + msg) && state == digest
    {
      var buffer := state + msg;
      digest := hash(buffer);
      state := digest;
    }
  }
}

/** One round of the prover, as it mutates its instance and its oracle. */
module BaseProverLoops {
  import opened Residues
  import opened Products
  import opened Sums
  import opened Arrays
  import opened Transforms
  import opened Polynomials
  import opened Vectors
  import opened Packing
  import opened Constraints
  import opened DigitVectors
  import opened Parameters
  import opened BaseChecks
  import opened Recursion
  import opened ConstZeroAggregation
  import opened BaseProver
  import opened RunningSums
  import opened LabradorInstances
  import opened SymmetricLoops
  import opened RecursionSteps
  import opened AggregationLoops
  import opened Protocol
  import opened Oracles
  import BitReverseInPlace

  /** The rows of s committed to one by one. */
  method AjtaiCommitment(mat: seq<Poly>, inputLen: nat, outputLen: nat, s: seq<Poly>) returns (comm: seq<Poly>)
    requires inputLen >= 1 && |mat| == inputLen * outputLen && (|s| / inputLen) * inputLen == |s|
    ensures comm == Matmul(s, |s| / inputLen, inputLen, mat, outputLen)
  {
    var batch := |s| / inputLen;
    comm := Matmul(s, batch, inputLen, mat, outputLen);
  }

  lemma ExactDivision(r: nat, n: nat)
    requires n >= 1
    ensures r * n >= 0 && (r * n) / n == r
  {
    NonNegative(r, n);
    BitReverseInPlace.QuotientUnique(r * n, n, r, 0);
  }

  /** The inner product of two families as the product of a row and a column. */
  function RowTimesColumn(u: seq<Poly>, v: seq<Poly>, n: nat): (m: seq<Poly>)
    ensures |m| == 1
  {
    Matmul(u, 1, n, v, 1)
  }

  lemma RowColumnSlot(u: seq<Poly>, v: seq<Poly>, n: nat, k: nat)
    requires k < D
    ensures At(RowTimesColumn(u, v, n)[0], k) == M(Dot(v, u, n, k))
  {
    hide Sum, Matmul, Slot;
    MatmulSlot(u, 1, n, v, 1, 0, 0, k);
    var f, g := l => Slot(u, 0 * n + l, k) * Slot(v, l * 1 + 0, k), Pointwise(Slots(v, k), Slots(u, k));
    forall l | 0 <= l < n ensures f(l) == g(l) {}
    SumExt(n, f, g);
    assert Slot(RowTimesColumn(u, v, n), 0, k) == At(RowTimesColumn(u, v, n)[0], k) by {
      FirstEntry(RowTimesColumn(u, v, n), k);
    }
  }

  lemma FirstEntry(v: seq<Poly>, k: int)
    requires |v| >= 1
    ensures Slot(v, 0, k) == At(v[0], k)
  {}

  /** -(<G, a> + <S, phi>), with the sign as a multiplication by minus one. */
  function MinusBoth(aG: Poly, phiS: Poly): Poly {
    PolyScale(M(-1), PolyAdd(aG, phiS))
  }

  lemma BalancingComputed(a: seq<Poly>, phi: seq<Poly>, r: nat, n: nat, s: seq<Poly>)
    ensures r * r >= 0 && r * n >= 0
    ensures MinusBoth(RowTimesColumn(GramMatrix(s, r, n), a, r * r)[0], RowTimesColumn(s, phi, r * n)[0])
         == BalancingTerm(a, phi, r, n, s)
  {
    hide Dot, GramMatrix, RowTimesColumn;
    NonNegative(r, r);
    NonNegative(r, n);
    var x, y := RowTimesColumn(GramMatrix(s, r, n), a, r * r)[0], RowTimesColumn(s, phi, r * n)[0];
    var l, t := MinusBoth(x, y), BalancingTerm(a, phi, r, n, s);
    forall k | 0 <= k < D ensures At(l, k) == At(t, k) {
      RowColumnSlot(GramMatrix(s, r, n), a, r * r, k);
      RowColumnSlot(s, phi, r * n, k);
      MinusSum(At(x, k), At(y, k), Dot(a, GramMatrix(s, r, n), r * r, k), Dot(phi, s, r * n, k));
    }
    PolyExt(l, t);
  }

  lemma MinusSum(x: Zq, y: Zq, u: int, v: int)
    requires x == M(u) && y == M(v)
    ensures M(M(-1) * M(x + y)) == M(0 - M(u + v))
  {
    hide M;
    MTwice(u);
    MTwice(v);
    CongAdd(x, u, y, v);
    MMulLeft(-1, M(x + y));
    assert -1 * M(x + y) == 0 - M(u + v);
  }

  /** The constraints after count aggregation rounds. */
  ghost predicate AddedUpTo(bk: Backend, inst: Instance, seed1: Bytes, jlI: nat, psi: seq<Zq>, omega: seq<Zq>,
                            b: seq<Poly>,
                            eqs: seq<Equality>, count: nat) {
    && |eqs| == |inst.eqs| + count && eqs[..|inst.eqs|] == inst.eqs && |b| >= count
    && forall k :: 0 <= k < count ==> eqs[|inst.eqs| + k] == AddedConstraint(bk, inst, seed1, jlI, psi, omega, k, b[k])
  }

  lemma OneMoreAdded(bk: Backend, inst: Instance, seed1: Bytes, jlI: nat, psi: seq<Zq>, omega: seq<Zq>, b: seq<Poly>,
                     b': seq<Poly>,
                     eqs: seq<Equality>, count: nat, c: Equality)
    requires AddedUpTo(bk, inst, seed1, jlI, psi, omega, b, eqs, count) && b <= b' && |b'| > count
    requires c == AddedConstraint(bk, inst, seed1, jlI, psi, omega, count, b'[count])
    ensures AddedUpTo(bk, inst, seed1, jlI, psi, omega, b', eqs + [c], count + 1)
  {
    hide AddedConstraint;
  }

  lemma AllAdded(bk: Backend, inst: Instance, seed1: Bytes, jlI: nat, psi: seq<Zq>, omega: seq<Zq>, b: seq<Poly>,
                 eqs: seq<Equality>)
    requires AddedUpTo(bk, inst, seed1, jlI, psi, omega, b, eqs, inst.param.rounds)
    ensures eqs == AllEqualities(bk, inst, seed1, jlI, psi, omega, b)
  {
    hide AddedConstraint;
    var all := AllEqualities(bk, inst, seed1, jlI, psi, omega, b);
    forall i | 0 <= i < |eqs| ensures eqs[i] == all[i] {
      if i >= |inst.eqs| { assert eqs[|inst.eqs| + (i - |inst.eqs|)] == eqs[i]; }
    }
  }

  class LabradorBaseProver {
    const bk: Backend
    const labInst: LabradorInstance
    const s: seq<Poly>
    const oracle: Oracle

    ghost function State(): Instance
      reads labInst
    {
      Instance(labInst.param, labInst.equalityConstraints, labInst.constZeroConstraints)
    }

    ghost predicate Valid()
      reads labInst
    {
      labInst.Valid() && labInst.param.Valid() && |s| == labInst.param.r * labInst.param.n && oracle.hash == bk.hash
    }

    /** Copies instance and oracle, so that the caller's stay as they are. */
    constructor (bk: Backend, inst: LabradorInstance, s: seq<Poly>, oracle: Oracle)
      requires inst.Valid() && inst.param.Valid() && |s| == inst.param.r * inst.param.n && oracle.hash == bk.hash
      ensures Valid() && fresh(labInst) && fresh(this.oracle)
      ensures this.bk == bk && this.s == s && this.oracle.state == oracle.state
      ensures State() == Instance(inst.param, inst.equalityConstraints, inst.constZeroConstraints)
    {
      var i := new LabradorInstance.Copy(inst);
      var o := new Oracle.Copy(oracle);
      this.bk, this.labInst, this.s, this.oracle := bk, i, s, o;
    }

    /** Replaces the const-zero constraints by one equality constraint for every aggregation round. */
    method AggConstZeroConstraints(sHat: seq<Poly>, gHat: seq<Poly>, psi: seq<Zq>, omega: seq<Zq>, jlI: nat,
                                   seed1: Bytes)
      returns (msg3: seq<Poly>)
      requires Valid() && sHat == NttVec(s) && gHat == GramMatrix(sHat, labInst.param.r, labInst.param.n)
      modifies labInst
      ensures Valid() && labInst.constZeroConstraints == []
      ensures msg3 == Vec<Poly>(labInst.param.rounds, k => AddedB(bk, old(State()), seed1, jlI, psi, omega, s, k))
      ensures labInst.equalityConstraints == AllEqualities(bk, old(State()), seed1, jlI, psi, omega, msg3)
    {
      hide AddedConstraint, AddedB, AggregatedA, AggregatedPhi, NttVec, GramMatrix, BalancingTerm, MinusBoth,
        RowTimesColumn, AddedUpTo, Param.Valid;
      ghost var inst := State();
      var p, zeros := labInst.param, labInst.constZeroConstraints;
      msg3 := [];
      assert AddedUpTo(bk, inst, seed1, jlI, psi, omega, msg3, labInst.equalityConstraints,
                       0) by { NothingAdded(bk, inst, seed1, jlI, psi, omega); }
      for k := 0 to p.rounds
        invariant Valid() && labInst.constZeroConstraints == zeros && |msg3| == k
        invariant forall j :: 0 <= j < k ==> msg3[j] == AddedB(bk, inst, seed1, jlI, psi, omega, s, j)
        invariant AddedUpTo(bk, inst, seed1, jlI, psi, omega, msg3, labInst.equalityConstraints, k)
      {
        var psiK, omegaK := Slice(psi, |zeros|, k), Slice(omega, p.jlOut, k);
        var jl := JlMatrix(bk, p, seed1, jlI);
        var a, phi := AggregateParts(zeros, psiK, jl, p.jlOut, omegaK, p.r, p.n);
        NonNegative(p.r, p.r);
        NonNegative(p.r, p.n);
        var gA := RowTimesColumn(gHat, a, p.r * p.r);
        var phiS := RowTimesColumn(sHat, phi, p.r * p.n);
        var b := MinusBoth(gA[0], phiS[0]);
        BalancingComputed(a, phi, p.r, p.n, sHat);
        AddedIs(bk, inst, seed1, jlI, psi, omega, s, k, a, phi, b);
        var c := Equality(p.r, p.n, a, phi, b);
        OneMoreAdded(bk, inst, seed1, jlI, psi, omega, msg3, msg3 + [b], labInst.equalityConstraints, k, c);
        var ok := labInst.AddEqualityConstraint(c);
        msg3 := msg3 + [b];
      }
      AllAdded(bk, inst, seed1, jlI, psi, omega, msg3, labInst.equalityConstraints);
      labInst.constZeroConstraints := [];
    }

    /** The base prover: steps 2 to 22. The instance ends as the one final constraint. */
    method BaseCaseProver() returns (proof: Proof, trs: Transcript)
      requires Valid()
      modifies labInst, oracle
      ensures Valid()
      ensures var round := ProverRound(bk, old(State()), s, old(oracle.state));
        && proof == round.proof && trs == round.trs
        && labInst.equalityConstraints == [round.final] && labInst.constZeroConstraints == []
        && oracle.state == round.trs.seed4
    {
      hide AddedB, AllEqualities, Aggregate, NttVec, GramMatrix, Transpose, ProverT, ProverG, ProverH, OpeningU1,
        OpeningU2,
        SampleZq, SampleTq, SampleChallenges, Project, Param.Valid;
      var p := labInst.param;
      ValidBases(p);
      var sHat, sTransposed, gHat, t, g, u1 := CommitWitness();
      var seed1 := oracle.Generate(bk.encodeTq(u1));
      var jlI := bk.jlNonce(seed1, p, s);
      var proj := Project(bk, p, seed1, jlI, s);
      var seed2 := oracle.Generate(bk.encodeJl(jlI, proj));
      var psi := SampleZq(bk, seed2 + [ONE_MARK], p.rounds * |labInst.constZeroConstraints|);
      var omega := SampleZq(bk, seed2 + [TWO_MARK], p.rounds * p.jlOut);
      var msg3 := AggConstZeroConstraints(sHat, gHat, psi, omega, jlI, seed1);
      var seed3 := oracle.Generate(bk.encodeTq(msg3));
      var alphaHat := SampleTq(bk, seed3 + [ONE_MARK], |labInst.equalityConstraints|);
      labInst.AggEqualityConstraints(alphaHat);
      var h, u2 := CommitProducts(labInst.equalityConstraints[0].phi, sTransposed);
      var seed4 := oracle.Generate(bk.encodeTq(u2));
      var challenges := SampleChallenges(bk, p.n, p.r, seed4);
      var zHat := Matmul(challenges, 1, p.r, sHat, p.n);
      proof := Proof(zHat, t, g, h);
      trs := Transcript(Messages(u1, jlI, proj, msg3, u2), seed1, seed2, seed3, seed4, psi, omega, alphaHat,
                        challenges);
    }

    /** Steps 2 to 8: the witness in value form, its commitment and its Gram matrix, decomposed and committed to. */
    method CommitWitness() returns (sHat: seq<Poly>, sTransposed: seq<Poly>, gHat: seq<Poly>, t: seq<Poly>,
                         g: seq<Poly>, u1: seq<Poly>)
      requires Valid() && labInst.param.Bases()
      ensures sHat == NttVec(s) && sTransposed == Transpose(sHat, labInst.param.r, labInst.param.n)
      ensures gHat == GramMatrix(sHat, labInst.param.r, labInst.param.n)
      ensures t == ProverT(labInst.param, s) && g == ProverG(labInst.param, s) && u1 == OpeningU1(labInst.param, t, g)
    {
      hide NttVec, InttVec, DecomposeVec, Matmul, Transpose, SymmPart, Digits, OpeningU1, Off;
      var p := labInst.param;
      sHat := NttVec(s);
      Sizes(p);
      var tHat := AjtaiCommitment(p.matA, p.n, p.kappa, sHat);
      t := DecomposeVec(InttVec(tHat), p.base1, Digits(p.base1));
      sTransposed := Transpose(sHat, p.r, p.n);
      gHat := Matmul(sHat, p.r, p.n, sTransposed, p.r);
      var packed := ExtractSymmPart(gHat, p.r);
      PackedSize(gHat, p.r);
      g := DecomposeVec(InttVec(packed[..]), p.base2, Digits(p.base2));
      u1 := CommitBoth(p, t, g);
    }

    /** Steps 17 to 19: H = (Phi S^t + S Phi^t) / 2, packed, decomposed and committed to. */
    method CommitProducts(phi: seq<Poly>, sTransposed: seq<Poly>) returns (h: seq<Poly>, u2: seq<Poly>)
      requires Valid() && labInst.param.Bases() && sTransposed == Transpose(NttVec(s), labInst.param.r, labInst.param.n)
      ensures h == ProverH(labInst.param, phi, s) && u2 == OpeningU2(labInst.param, h)
    {
      hide NttVec, InttVec, DecomposeVec, Matmul, Transpose, VecAdd, VecScale, SymmPart, Digits, OpeningU2, Off;
      var p := labInst.param;
      Sizes(p);
      var hFull := InttVec(Matmul(phi, p.r, p.n, sTransposed, p.r));
      var hTransposed := Transpose(hFull, p.r, p.r);
      hFull := VecScale(HALF, VecAdd(hFull, hTransposed));
      var packed := ExtractSymmPart(hFull, p.r);
      PackedSize(hFull, p.r);
      h := DecomposeVec(packed[..], p.base3, Digits(p.base3));
      u2 := CommitH(p, h);
    }
  }

  lemma PackedSize(mat: seq<Poly>, n: nat)
    ensures |SymmPart(mat, n)| == Off(n, n)
  {}

  lemma ValidBases(p: Param)
    requires p.Valid()
    ensures p.Bases()
  {}

  lemma NothingAdded(bk: Backend, inst: Instance, seed1: Bytes, jlI: nat, psi: seq<Zq>, omega: seq<Zq>)
    ensures AddedUpTo(bk, inst, seed1, jlI, psi, omega, [], inst.eqs, 0)
  {}

  lemma AddedIs(bk: Backend, inst: Instance, seed1: Bytes, jlI: nat, psi: seq<Zq>, omega: seq<Zq>, s: seq<Poly>, k: int,
                a: seq<Poly>, phi: seq<Poly>, b: Poly)
    requires a == AggregatedA(inst.zeros, Slice(psi, |inst.zeros|, k), inst.param.r)
    requires phi == AggregatedPhi(inst.zeros, Slice(psi, |inst.zeros|, k), JlMatrix(bk, inst.param, seed1, jlI),
                                  inst.param.jlOut,
                                  Slice(omega, inst.param.jlOut, k), inst.param.r, inst.param.n)
    requires b == BalancingTerm(a, phi, inst.param.r, inst.param.n, NttVec(s))
    ensures b == AddedB(bk, inst, seed1, jlI, psi, omega, s, k)
    ensures Equality(inst.param.r, inst.param.n, a, phi, b) == AddedConstraint(bk, inst, seed1, jlI, psi, omega, k, b)
  {
    hide AggregatedA, AggregatedPhi, BalancingTerm, NttVec;
  }

  lemma Sizes(p: Param)
    requires p.Valid()
    ensures (p.r * p.n) / p.n == p.r && p.TLen() >= 1 && p.GLen() >= 1 && p.HLen() >= 1
    ensures |p.matA| == p.n * p.kappa
    ensures p.TLen() == Digits(p.base1) * (p.r * p.kappa) && p.GLen() == Digits(p.base2) * Off(p.r,
        p.r) && p.HLen() == Digits(p.base3) * Off(p.r, p.r)
  {
    hide Digits;
    ExactDivision(p.r, p.n);
    SomeDigits(p.base1);
    SomeDigits(p.base2);
    SomeDigits(p.base3);
    assert p.r * p.kappa >= 1;
    OffMonotone(p.r, 1, p.r);
    assert Off(p.r, 1) == p.r by { assert Off(p.r, 0) == 0; }
    Times(Digits(p.base1), p.r * p.kappa);
    Times(Digits(p.base2), Off(p.r, p.r));
    Times(Digits(p.base3), Off(p.r, p.r));
  }

  lemma Times(x: int, y: int)
    requires x >= 1 && y >= 1
    ensures x * y >= 1
  {}

  /** u1 = tB + gC */
  method CommitBoth(p: Param, t: seq<Poly>, g: seq<Poly>) returns (u1: seq<Poly>)
    requires p.Valid() && |t| == p.TLen() && |g| == p.GLen()
    ensures u1 == OpeningU1(p, t, g)
  {
    hide Matmul, NttVec, Param.TLen, Param.GLen, Param.HLen, Digits;
    Sizes(p);
    var tHat, gHat := NttVec(t), NttVec(g);
    var v1 := AjtaiCommitment(p.matB, |tHat|, p.kappa1, tHat);
    var v2 := AjtaiCommitment(p.matC, |gHat|, p.kappa1, gHat);
    u1 := VecAdd(v1, v2);
  }

  /** u2 = hD */
  method CommitH(p: Param, h: seq<Poly>) returns (u2: seq<Poly>)
    requires p.Valid() && |h| == p.HLen()
    ensures u2 == OpeningU2(p, h)
  {
    hide Matmul, NttVec, Param.TLen, Param.GLen, Param.HLen, Digits;
    Sizes(p);
    var hHat := NttVec(h);
    u2 := AjtaiCommitment(p.matD, |hHat|, p.kappa2, hHat);
  }
}
