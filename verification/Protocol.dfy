/** One round and the whole run of prover and verifier, as functions of their inputs. */
module Protocol {
  import opened Residues
  import opened Products
  import opened Sums
  import opened Arrays
  import opened Transforms
  import opened Polynomials
  import opened Vectors
  import opened Packing
  import opened Constraints
  import opened DigitVectors
  import opened Layout
  import opened Parameters
  import opened BaseChecks
  import opened Recursion
  import opened Projection
  import opened ConstZeroAggregation
  import opened BaseProver
  import opened NormBounds

  type Positive = x: int | x >= 1 witness 1

  /** What the protocol takes from outside: hashing, sampling from a seed, byte encodings, norms
      and parameter choice. Nothing is assumed of these beyond being functions. */
  datatype Backend = Backend(
    hash: Bytes -> Bytes,
    sampleZq: (Bytes, int, int) -> Zq,
    sampleTq: (Bytes, int, int) -> Poly,
    sampleMatrix: (Bytes, int, int) -> Poly,
    sampleChallenge: (Bytes, int, int, int) -> Poly,
    jlEntry: (Bytes, int, int, int) -> int,
    jlNonce: (Bytes, Param, seq<Poly>) -> nat,
    encodeTq: seq<Poly> -> Bytes,
    encodeJl: (nat, seq<Zq>) -> Bytes,
    encodeParam: (Param, nat, nat) -> Bytes,
    jlNormOk: (Param, seq<Zq>) -> bool,
    zNormOk: (Param, seq<Poly>) -> bool,
    base0: (nat, real) -> nat,
    mu: (nat, nat) -> Positive,
    nu: (nat, nat) -> Positive,
    rank: Positive)

  datatype Instance = Instance(param: Param, eqs: seq<Equality>, zeros: seq<ConstZero>) {
    predicate Valid() {
      && param.Valid()
      && (forall i :: 0 <= i < |eqs| ==> eqs[i].Valid() && eqs[i].r == param.r && eqs[i].n == param.n)
      && (forall i :: 0 <= i < |zeros| ==> zeros[i].Valid() && zeros[i].r == param.r && zeros[i].n == param.n)
    }
  }

  datatype Messages = Messages(u1: seq<Poly>, jlI: nat, p: seq<Zq>, bAgg: seq<Poly>, u2: seq<Poly>)

  datatype Transcript = Transcript(msg: Messages, seed1: Bytes, seed2: Bytes, seed3: Bytes, seed4: Bytes,
    psi: seq<Zq>, omega: seq<Zq>, alpha: seq<Poly>, challenges: seq<Poly>)

  // The ASCII digits that are appended to seeds.
  const ZERO_MARK: Byte := 48
  const ONE_MARK: Byte := 49
  const TWO_MARK: Byte := 50
  const THREE_MARK: Byte := 51

  /** The hash of state and message, which is also the new state. */
  function Absorb(bk: Backend, state: Bytes, msg: Bytes): Bytes {
    bk.hash(state + msg)
  }

  function InitialState(bk: Backend, seed: Bytes, inst: Instance): Bytes {
    seed + bk.encodeParam(inst.param, |inst.eqs|, |inst.zeros|)
  }

  function SampleZq(bk: Backend, seed: Bytes, size: nat): (v: seq<Zq>)
    ensures |v| == size
  {
    Vec<Zq>(size, i => bk.sampleZq(seed, size, i))
  }

  function SampleTq(bk: Backend, seed: Bytes, size: nat): (v: seq<Poly>)
    ensures |v| == size
  {
    Vec<Poly>(size, i => bk.sampleTq(seed, size, i))
  }

  /** r challenges in value form. */
  function SampleChallenges(bk: Backend, n: nat, r: nat, seed: Bytes): (v: seq<Poly>)
    ensures |v| == r
  {
    NttVec(Vec<Poly>(r, i => bk.sampleChallenge(seed, n, r, i)))
  }

  /** The seed of the projection; the nonce is cut down to a byte. */
  function JlSeed(seed1: Bytes, jlI: nat): Bytes {
    seed1 + [jlI % 256]
  }

  /** Entry (j, x) of the projection matrix for witnesses of the given length. */
  function JlMatrix(bk: Backend, p: Param, seed1: Bytes, jlI: nat): (int, int) -> int {
    (j, x) => bk.jlEntry(JlSeed(seed1, jlI), (p.r * p.n) * D, j, x)
  }

  function Project(bk: Backend, p: Param, seed1: Bytes, jlI: nat, s: seq<Poly>): (v: seq<Zq>)
    ensures |v| == p.jlOut
  {
    Vec<Zq>(p.jlOut, j => ProjectRow(Row(JlMatrix(bk, p, seed1, jlI), j), s))
  }

  /** Slice k of a sequence cut into slices of length len. */
  function Slice(v: seq<Zq>, len: nat, k: int): int -> Zq {
    l => At(v, k * len + l)
  }

  /** The k-th constraint that aggregation adds, with a given b. */
  function AddedConstraint(bk: Backend, inst: Instance, seed1: Bytes, jlI: nat, psi: seq<Zq>, omega: seq<Zq>, k: int,
                           b: Poly): (c: Equality)
    ensures c.r == inst.param.r && c.n == inst.param.n && c.Valid()
  {
    var p := inst.param;
    AggregatedWith(inst.zeros, Slice(psi, |inst.zeros|, k), JlMatrix(bk, p, seed1, jlI), p.jlOut,
                   Slice(omega, p.jlOut, k), p.r, p.n, b)
  }

  /** The b that the prover computes for it. */
  function AddedB(bk: Backend, inst: Instance, seed1: Bytes, jlI: nat, psi: seq<Zq>, omega: seq<Zq>, s: seq<Poly>,
                  k: int): Poly {
    var p := inst.param;
    AggregatedB(inst.zeros, Slice(psi, |inst.zeros|, k), JlMatrix(bk, p, seed1, jlI), p.jlOut, Slice(omega, p.jlOut, k),
                p.r, p.n, s)
  }

  /** The instance's equalities followed by the aggregated ones. */
  function AllEqualities(bk: Backend, inst: Instance, seed1: Bytes, jlI: nat, psi: seq<Zq>, omega: seq<Zq>,
                         bAgg: seq<Poly>): (cs: seq<Equality>)
    ensures |cs| == |inst.eqs| + inst.param.rounds
  {
    inst.eqs + Vec(inst.param.rounds, k => AddedConstraint(bk, inst, seed1, jlI, psi, omega, k, PolyAt(bAgg, k)))
  }

  /** The transcript that follows from the prover's messages; both sides derive the same one. */
  function DeriveTranscript(bk: Backend, inst: Instance, msg: Messages, state: Bytes): (t: Transcript)
    ensures t.msg == msg && |t.alpha| == |inst.eqs| + inst.param.rounds && |t.challenges| == inst.param.r
  {
    var p := inst.param;
    var seed1 := Absorb(bk, state, bk.encodeTq(msg.u1));
    var seed2 := Absorb(bk, seed1, bk.encodeJl(msg.jlI, msg.p));
    var psi := SampleZq(bk, seed2 + [ONE_MARK], p.rounds * |inst.zeros|);
    var omega := SampleZq(bk, seed2 + [TWO_MARK], p.rounds * p.jlOut);
    var seed3 := Absorb(bk, seed2, bk.encodeTq(msg.bAgg));
    var alpha := SampleTq(bk, seed3 + [ONE_MARK], |inst.eqs| + p.rounds);
    var seed4 := Absorb(bk, seed3, bk.encodeTq(msg.u2));
    Transcript(msg, seed1, seed2, seed3, seed4, psi, omega, alpha, SampleChallenges(bk, p.n, p.r, seed4))
  }

  /** The single constraint that a transcript aggregates an instance into. */
  function FinalConstraint(bk: Backend, inst: Instance, t: Transcript): (fc: Equality)
    ensures fc.r == inst.param.r && fc.n == inst.param.n && fc.Valid()
  {
    var cs := AllEqualities(bk, inst, t.seed1, t.msg.jlI, t.psi, t.omega, t.msg.bAgg);
    Aggregate(cs, t.alpha, inst.param.r, inst.param.n)
  }

  datatype Round = Round(proof: Proof, trs: Transcript, final: Equality)

  /** What the prover does in one round, in its order: the number of challenges alpha is counted
      after the const-zero constraints have been replaced. */
  function ProverRound(bk: Backend, inst: Instance, s: seq<Poly>, state: Bytes): Round
    requires inst.param.Bases()
  {
    var p := inst.param;
    var t, g := ProverT(p, s), ProverG(p, s);
    var u1 := OpeningU1(p, t, g);
    var seed1 := Absorb(bk, state, bk.encodeTq(u1));
    var jlI := bk.jlNonce(seed1, p, s);
    var proj := Project(bk, p, seed1, jlI, s);
    var seed2 := Absorb(bk, seed1, bk.encodeJl(jlI, proj));
    var psi := SampleZq(bk, seed2 + [ONE_MARK], p.rounds * |inst.zeros|);
    var omega := SampleZq(bk, seed2 + [TWO_MARK], p.rounds * p.jlOut);
    var bAgg := Vec<Poly>(p.rounds, k => AddedB(bk, inst, seed1, jlI, psi, omega, s, k));
    var cs := AllEqualities(bk, inst, seed1, jlI, psi, omega, bAgg);
    var seed3 := Absorb(bk, seed2, bk.encodeTq(bAgg));
    var alpha := SampleTq(bk, seed3 + [ONE_MARK], |cs|);
    var fc := Aggregate(cs, alpha, p.r, p.n);
    var h := ProverH(p, fc.phi, s);
    var u2 := OpeningU2(p, h);
    var seed4 := Absorb(bk, seed3, bk.encodeTq(u2));
    var c := SampleChallenges(bk, p.n, p.r, seed4);
    Round(Proof(ProverZ(p, c, s), t, g, h),
          Transcript(Messages(u1, jlI, proj, bAgg, u2), seed1, seed2, seed3, seed4, psi, omega, alpha, c),
          fc)
  }

  /** The verifier's test of the k-th message polynomial. */
  predicate ConstantTest(bk: Backend, inst: Instance, t: Transcript, k: int) {
    ConstantTerm(PolyAt(t.msg.bAgg, k))
      == ExpectedB0(inst.zeros, Slice(t.psi, |inst.zeros|, k), inst.param.jlOut, Slice(t.omega, inst.param.jlOut, k),
                    l => At(t.msg.p, l))
  }

  predicate PartVerify(bk: Backend, inst: Instance, t: Transcript) {
    bk.jlNormOk(inst.param, t.msg.p) && forall k :: 0 <= k < inst.param.rounds ==> ConstantTest(bk, inst, t, k)
  }

  /** The norm checks and the algebraic checks on the last round's proof, with or without the norms of the digits. */
  ghost predicate VerifyBaseProof(bk: Backend, p: Param, fc: Equality, t: Transcript, pf: Proof, digits: bool)
    requires p.Bases()
  {
    && (digits ==> SmallDigits(p, pf))
    && bk.zNormOk(p, InttVec(pf.zHat))
    && Algebraic(p, fc, t.msg.u1, t.msg.u2, t.challenges, pf)
  }

  datatype Outcome<T> = Done(value: T) | Failed

  /** The parameter constructor, which samples the commitment matrices. */
  function MakeParam(bk: Backend, r: nat, n: nat, seed: Bytes, kappa: nat, kappa1: nat, kappa2: nat,
                     base1: nat, base2: nat, base3: nat, beta: real): (p: Param)
    requires base1 >= 2 && base2 >= 2 && base3 >= 2
    ensures p.Bases() && p.r == r && p.n == n && p.rounds == 3
    ensures r >= 1 && n >= 1 && kappa >= 1 && kappa1 >= 1 && kappa2 >= 1 ==> p.Valid()
    ensures p.base1 == base1 && p.base2 == base2 && p.base3 == base3
  {
    var p := Param(r, n, seed, kappa, kappa1, kappa2, [], [], [], [], base1, base2, base3, beta, 256, 3);
    WithMatrices(p, SampleMatrix(bk, seed + [ZERO_MARK], n * kappa),
                 SampleMatrix(bk, seed + [ONE_MARK], p.TLen() * kappa1),
                 SampleMatrix(bk, seed + [TWO_MARK], p.GLen() * kappa1),
                   SampleMatrix(bk, seed + [THREE_MARK], p.HLen() * kappa2))
  }

  /** The parameters with their commitment matrices. */
  function WithMatrices(p: Param, a: seq<Poly>, b: seq<Poly>, c: seq<Poly>, d: seq<Poly>): (q: Param)
    requires p.Bases() && p.rounds >= 1 && |a| == p.n * p.kappa && |b| == p.TLen() * p.kappa1
    requires |c| == p.GLen() * p.kappa1 && |d| == p.HLen() * p.kappa2
    ensures q.Bases() && q.r == p.r && q.n == p.n && q.rounds == p.rounds
    ensures p.r >= 1 && p.n >= 1 && p.kappa >= 1 && p.kappa1 >= 1 && p.kappa2 >= 1 ==> q.Valid()
    ensures q.base1 == p.base1 && q.base2 == p.base2 && q.base3 == p.base3
  {
    var q := p.(matA := a, matB := b, matC := c, matD := d);
    assert q.TLen() == p.TLen() && q.GLen() == p.GLen() && q.HLen() == p.HLen();
    q
  }

  function SampleMatrix(bk: Backend, seed: Bytes, size: nat): (v: seq<Poly>)
    ensures |v| == size
  {
    Vec<Poly>(size, i => bk.sampleMatrix(seed, size, i))
  }

  function NextBeta(p: Param): real {
    (((p.r * p.n) * D) as real) * p.beta
  }

  function NextBase(bk: Backend, p: Param, rPrime: nat): nat {
    bk.base0(rPrime, NextBeta(p))
  }

  function NextMu(bk: Backend, p: Param): Positive
    requires p.Bases()
  {
    bk.mu(p.n, p.TLen() + p.GLen() + p.HLen())
  }

  function NextNu(bk: Backend, p: Param): Positive
    requires p.Bases()
  {
    bk.nu(p.n, p.TLen() + p.GLen() + p.HLen())
  }

  /** The next round's instance; a base that the decomposition rejects fails. */
  function NextInstance(bk: Backend, p: Param, fc: Equality, t: Transcript): Outcome<Instance>
    requires p.Valid()
  {
    var mu, nu, base0 := NextMu(bk, p), NextNu(bk, p), bk.base0(p.r, p.beta);
    var pr := RecursionLayout(p, mu, nu);
    var base := NextBase(bk, p, pr.rPrime);
    if base < 2 then Failed
    else
      var param := MakeParam(bk, pr.rPrime, pr.nPrime, p.seed + [ONE_MARK], bk.rank, bk.rank, bk.rank, base, base, base,
                             NextBeta(p));
      Done(Instance(param, RecursionConstraints(p, fc, t.msg.u1, t.msg.u2, t.challenges, base0, mu, nu), []))
  }

  /** The parts of the next witness: z in two digits, t, g and h as they are. */
  function NextParts(p: Param, pf: Proof, base0: nat): Parts
    requires base0 >= 2
  {
    var zTilde := DecomposeVec(InttVec(pf.zHat), base0, 2);
    Parts(zTilde[..|pf.zHat|], zTilde[|pf.zHat|..], pf.t, pf.g, pf.h)
  }

  /** The next round's witness; fails when two digits do not hold z. */
  function NextWitness(p: Param, pf: Proof, base0: nat, mu: nat, nu: nat): Outcome<seq<Poly>>
    requires p.Valid() && ProofShape(p, pf) && mu >= 1 && nu >= 1
  {
    if base0 < 2 then Failed
    else
      var z := InttVec(pf.zHat);
      if RecomposeVec(DecomposeVec(z, base0, 2), base0, 2, |z|) != z then Failed
      else
        PrepareFits(p.n, p.TLen(), p.GLen(), p.HLen(), mu, nu);
        Done(Packed(RecursionLayout(p, mu, nu), NextParts(p, pf, base0)))
  }
}
