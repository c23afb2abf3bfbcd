/** What the aggregated constraints and the tests on the messages mean for any witness, with every index written out. */
module MessageTests {
  import opened Residues
  import opened Sums
  import opened Arrays
  import opened Transforms
  import opened Polynomials
  import opened Vectors
  import opened Constraints
  import opened DigitVectors
  import opened Parameters
  import opened BaseChecks
  import opened Recursion
  import opened Projection
  import opened ConstZeroAggregation
  import opened NormBounds
  import opened Protocol
  import opened Runs
  import opened RecursionWrap

  /** psi of round k times the left-hand side of each const-zero constraint, without its b. */
  function WeightedZeros(inst: Instance, psi: seq<Zq>, k: int, s: seq<Poly>, c: int): int -> int {
    l => At(psi, k * |inst.zeros| + l)
         * BodyAt(ConstZeroAt(inst.zeros, l).a, ConstZeroAt(inst.zeros, l).phi, inst.param.r, inst.param.n, s, c)
  }

  /** Row j of the projection matrix: entries drawn from the first seed and the last byte of the nonce. */
  function JlRow(bk: Backend, p: Param, seed1: Bytes, jlI: nat, j: int): int -> int {
    x => bk.jlEntry(seed1 + [jlI % 256], (p.r * p.n) * D, j, x)
  }

  /** omega of round k times the inner product of the witness with each conjugated row of the projection. */
  function WeightedRows(bk: Backend, inst: Instance, seed1: Bytes, jlI: nat, omega: seq<Zq>, k: int, s: seq<Poly>,
                        c: int): int -> int {
    j => At(omega, k * inst.param.jlOut + j)
         * Dot(NttVec(ConjugateRow(JlRow(bk, inst.param, seed1, jlI, j), inst.param.r * inst.param.n)), s,
               inst.param.r * inst.param.n, c)
  }

  lemma RowSame(f: int -> int, g: int -> int, len: nat)
    requires forall x :: f(x) == g(x)
    ensures ConjugateRow(f, len) == ConjugateRow(g, len)
  {
    hide Conjugate;
    forall i | 0 <= i < len ensures Conjugate(f, i) == Conjugate(g, i) {
      ConjugateSame(f, g, i);
    }
  }

  lemma ConjugateSame(f: int -> int, g: int -> int, i: nat)
    requires forall x :: f(x) == g(x)
    ensures Conjugate(f, i) == Conjugate(g, i)
  {
    hide M, ConjugateTerms;
    forall c | 0 <= c < D ensures At(Conjugate(f, i), c) == At(Conjugate(g, i), c) {
      ConjugateAt(f, i, c);
      ConjugateAt(g, i, c);
      TermSame(f, g, i, c);
    }
    PolyExt(Conjugate(f, i), Conjugate(g, i));
  }

  lemma TermSame(f: int -> int, g: int -> int, i: nat, c: nat)
    requires forall x :: f(x) == g(x)
    ensures ConjugateTerms(f, i)(c) == ConjugateTerms(g, i)(c)
  {}

  lemma JlRowIs(bk: Backend, p: Param, seed1: Bytes, jlI: nat, j: int)
    ensures forall x :: Row(JlMatrix(bk, p, seed1, jlI), j)(x) == JlRow(bk, p, seed1, jlI, j)(x)
  {
    forall x ensures Row(JlMatrix(bk, p, seed1, jlI), j)(x) == JlRow(bk, p, seed1, jlI, j)(x) {
      assert JlMatrix(bk, p, seed1, jlI)(j, x) == bk.jlEntry(JlSeed(seed1, jlI), (p.r * p.n) * D, j, x);
    }
  }

  /** The k-th added constraint evaluates to its own rows of psi and omega times the const-zero constraints and the
      projection rows, plus the message polynomial; the instance's own equalities come first, unchanged. */
  lemma AddedMeaning(bk: Backend, inst: Instance, seed1: Bytes, jlI: nat, psi: seq<Zq>, omega: seq<Zq>,
                     bAgg: seq<Poly>, s: seq<Poly>, k: nat, c: nat)
    requires k < inst.param.rounds && c < D
    ensures var cs := AllEqualities(bk, inst, seed1, jlI, psi, omega, bAgg);
      && cs[..|inst.eqs|] == inst.eqs
      && M(EvalAt(cs[|inst.eqs| + k], s, c))
         == M(Sum(|inst.zeros|, WeightedZeros(inst, psi, k, s, c))
              + Sum(inst.param.jlOut, WeightedRows(bk, inst, seed1, jlI, omega, k, s, c)) + At(PolyAt(bAgg, k), c))
  {
    hide Sum, M, BodyAt, AggregatedA, AggregatedPhi, Dot, NttVec, ConjugateRow;
    var p := inst.param;
    var psiK, omegaK, jl := Slice(psi, |inst.zeros|, k), Slice(omega, p.jlOut, k), JlMatrix(bk, p, seed1, jlI);
    AggregatedBody(inst.zeros, psiK, jl, p.jlOut, omegaK, p.r, p.n, s, c);
    SumExt(|inst.zeros|, BodyTerms(inst.zeros, psiK, p.r, p.n, s, c), WeightedZeros(inst, psi, k, s, c));
    RowSums(bk, inst, seed1, jlI, omega, k, s, c);
    AddBoth(BodyAt(AggregatedA(inst.zeros, psiK, p.r), AggregatedPhi(inst.zeros, psiK, jl, p.jlOut, omegaK, p.r, p.n),
                   p.r, p.n, s, c),
            Sum(|inst.zeros|, WeightedZeros(inst, psi, k, s, c))
            + Sum(p.jlOut, WeightedRows(bk, inst, seed1, jlI, omega, k, s, c)),
            At(PolyAt(bAgg, k), c));
  }

  lemma AddBoth(x: int, y: int, b: int)
    requires M(x) == M(y)
    ensures M(x + b) == M(y + b)
  {}

  lemma RowSums(bk: Backend, inst: Instance, seed1: Bytes, jlI: nat, omega: seq<Zq>, k: int, s: seq<Poly>, c: int)
    ensures var p := inst.param;
      Sum(p.jlOut, RowTerms(JlMatrix(bk, p, seed1, jlI), Slice(omega, p.jlOut, k), p.r * p.n, s, c))
      == Sum(p.jlOut, WeightedRows(bk, inst, seed1, jlI, omega, k, s, c))
  {
    hide Sum, Dot, NttVec, ConjugateRow;
    var p := inst.param;
    var f, g := RowTerms(JlMatrix(bk, p, seed1, jlI), Slice(omega, p.jlOut, k), p.r * p.n, s, c),
                WeightedRows(bk, inst, seed1, jlI, omega, k, s, c);
    forall j | 0 <= j < p.jlOut ensures f(j) == g(j) {
      JlRowIs(bk, p, seed1, jlI, j);
      RowSame(Row(JlMatrix(bk, p, seed1, jlI), j), JlRow(bk, p, seed1, jlI, j), p.r * p.n);
    }
    SumExt(p.jlOut, f, g);
  }

  /** psi of round k times the constants of the const-zero constraints. */
  function WeightedOffsets(inst: Instance, psi: seq<Zq>, k: int): int -> int {
    l => At(psi, k * |inst.zeros| + l) * ConstZeroAt(inst.zeros, l).b
  }

  /** omega of round k times the projection that the prover claims. */
  function WeightedClaims(inst: Instance, omega: seq<Zq>, k: int, p: seq<Zq>): int -> int {
    j => At(omega, k * inst.param.jlOut + j) * At(p, j)
  }

  /** The constant coefficient that the test of the k-th message polynomial asks for. */
  lemma ExpectedMeaning(bk: Backend, inst: Instance, t: Transcript, k: int)
    ensures ConstantTest(bk, inst, t, k)
       <==> ConstantTerm(PolyAt(t.msg.bAgg, k))
            == M(Sum(|inst.zeros|, WeightedOffsets(inst, t.psi, k))
                 - Sum(inst.param.jlOut, WeightedClaims(inst, t.omega, k, t.msg.p)))
  {
    hide Sum, M, ConstantTerm;
    var p := inst.param;
    var psi, omega := Slice(t.psi, |inst.zeros|, k), Slice(t.omega, p.jlOut, k);
    var claimed: int -> int := l => At(t.msg.p, l);
    SumExt(|inst.zeros|, WeightedBy(psi, Offsets(inst.zeros)), WeightedOffsets(inst, t.psi, k));
    SumExt(p.jlOut, WeightedBy(omega, claimed), WeightedClaims(inst, t.omega, k, t.msg.p));
    assert ExpectedB0(inst.zeros, psi, p.jlOut, omega, claimed)
        == ExpectedB0(inst.zeros, psi, p.jlOut, omega, l => At(t.msg.p, l)) by {
      ExpectedOfProjection(inst.zeros, psi, p.jlOut, omega, claimed, l => At(t.msg.p, l));
    }
  }

  ghost predicate SameConstants(u: seq<Poly>, v: seq<Poly>, rounds: nat) {
    forall k: nat :: k < rounds ==> ConstantTerm(PolyAt(u, k)) == ConstantTerm(PolyAt(v, k))
  }

  /** Once messages have passed, other message polynomials and another u2 pass in their place exactly when every one of
      the rounds' constant coefficients stays the same. */
  lemma PassesInPlace(bk: Backend, inst: Instance, m: Messages, m': Messages, state: Bytes)
    requires m'.u1 == m.u1 && m'.jlI == m.jlI && m'.p == m.p
    requires PartVerify(bk, inst, DeriveTranscript(bk, inst, m, state))
    ensures PartVerify(bk, inst, DeriveTranscript(bk, inst, m', state))
       <==> SameConstants(m'.bAgg, m.bAgg, inst.param.rounds)
  {
    hide Sum, M, ConstantTerm, ConstantTest;
    var t, t' := DeriveTranscript(bk, inst, m, state), DeriveTranscript(bk, inst, m', state);
    forall k: nat | k < inst.param.rounds
      ensures ConstantTest(bk, inst, t, k) &&
        (ConstantTest(bk, inst, t', k) <==> ConstantTerm(PolyAt(m'.bAgg, k)) == ConstantTerm(PolyAt(m.bAgg, k)))
    {
      ExpectedMeaning(bk, inst, t, k);
      ExpectedMeaning(bk, inst, t', k);
    }
  }

  /** Replacing any one message polynomial by one with another constant coefficient gets the messages rejected. */
  lemma ReplacedRejected(bk: Backend, inst: Instance, m: Messages, state: Bytes, k: nat, b: Poly)
    requires PartVerify(bk, inst, DeriveTranscript(bk, inst, m, state))
    requires k < inst.param.rounds && k < |m.bAgg| && ConstantTerm(b) != ConstantTerm(m.bAgg[k])
    ensures !PartVerify(bk, inst, DeriveTranscript(bk, inst, m.(bAgg := m.bAgg[k := b]), state))
  {
    hide ConstantTerm, PartVerify, DeriveTranscript;
    var m' := m.(bAgg := m.bAgg[k := b]);
    PassesInPlace(bk, inst, m, m', state);
    assert PolyAt(m'.bAgg, k) == b;
  }

  /** psi of round k times what each const-zero constraint leaves at s. */
  function WeightedResiduals(inst: Instance, psi: seq<Zq>, k: int, s: seq<Poly>): int -> int {
    l => At(psi, k * |inst.zeros| + l)
         * (ConstantTerm(Body(ConstZeroAt(inst.zeros, l).a, ConstZeroAt(inst.zeros, l).phi, inst.param.r, inst.param.n,
                              NttVec(s)))
            + ConstZeroAt(inst.zeros, l).b)
  }

  ghost predicate ResidualsCancel(inst: Instance, psi: seq<Zq>, s: seq<Poly>) {
    forall k: nat :: k < inst.param.rounds ==> M(Sum(|inst.zeros|, WeightedResiduals(inst, psi, k, s))) == 0
  }

  lemma TestMeasures(bk: Backend, inst: Instance, s: seq<Poly>, t: Transcript, k: nat)
    requires |s| == inst.param.r * inst.param.n && HonestMessages(bk, inst, s, t) && k < inst.param.rounds
    ensures ConstantTest(bk, inst, t, k) <==> M(Sum(|inst.zeros|, WeightedResiduals(inst, t.psi, k, s))) == 0
  {
    hide Sum, NttVec, AggregatedB, ExpectedB0, ConstantTerm, ProjectRow, Body;
    var p := inst.param;
    var psi, omega, jl := Slice(t.psi, |inst.zeros|, k), Slice(t.omega, p.jlOut, k),
                          JlMatrix(bk, p, t.seed1, t.msg.jlI);
    ConstantMeasures(inst.zeros, psi, jl, p.jlOut, omega, p.r, p.n, s);
    var claimed: int -> int := l => At(t.msg.p, l);
    forall j | 0 <= j < p.jlOut ensures claimed(j) == Projections(jl, s)(j) {}
    ExpectedOfProjection(inst.zeros, psi, p.jlOut, omega, claimed, Projections(jl, s));
    assert PolyAt(t.msg.bAgg, k) == AddedB(bk, inst, t.seed1, t.msg.jlI, t.psi, t.omega, s, k);
    SumExt(|inst.zeros|, Residuals(inst.zeros, psi, p.r, p.n, s), WeightedResiduals(inst, t.psi, k, s));
    NoChange(ConstantTerm(PolyAt(t.msg.bAgg, k)), Sum(|inst.zeros|, WeightedResiduals(inst, t.psi, k, s)));
  }

  lemma NoChange(x: Zq, y: int)
    ensures M(x + y) == x <==> M(y) == 0
  {
    if M(x + y) == x {
      var j, i := (x + y) / Q, y / Q;
      assert x + y == Q * j + x && y == Q * i + M(y);
    }
  }

  /** Messages made from any s of the right size pass exactly when the projection is short and in every round the
      weighted residuals cancel: in particular whenever s satisfies the const-zero constraints. */
  lemma HonestPassIff(bk: Backend, inst: Instance, s: seq<Poly>, t: Transcript)
    requires |s| == inst.param.r * inst.param.n && HonestMessages(bk, inst, s, t)
    ensures PartVerify(bk, inst, t) <==> bk.jlNormOk(inst.param, t.msg.p) && ResidualsCancel(inst, t.psi, s)
  {
    hide ConstantTest, WeightedResiduals, Sum, M, HonestMessages;
    forall k: nat | k < inst.param.rounds
      ensures ConstantTest(bk, inst, t, k) <==> M(Sum(|inst.zeros|, WeightedResiduals(inst, t.psi, k, s))) == 0
    {
      TestMeasures(bk, inst, s, t, k);
    }
  }

  /** alpha times what the instance's own equalities leave at s. */
  function WeightedEqualities(inst: Instance, alpha: seq<Poly>, s: seq<Poly>, c: int): int -> int {
    i => Slot(alpha, i, c) * EvalAt(ConstraintAt(inst.eqs, i), NttVec(s), c)
  }

  ghost predicate EqualitiesCancel(inst: Instance, alpha: seq<Poly>, s: seq<Poly>) {
    forall c: nat :: c < D ==> M(Sum(|inst.eqs|, WeightedEqualities(inst, alpha, s, c))) == 0
  }

  /** The final constraint of an honestly made round evaluates to the alphas times the instance's own equalities: the
      added constraints contribute nothing, whatever s is. */
  lemma FinalEvaluates(bk: Backend, inst: Instance, s: seq<Poly>, t: Transcript, c: nat)
    requires inst.Valid() && HonestMessages(bk, inst, s, t) && c < D
    ensures M(EvalAt(FinalConstraint(bk, inst, t), NttVec(s), c))
         == M(Sum(|inst.eqs|, WeightedEqualities(inst, t.alpha, s, c)))
  {
    hide Sum, EvalAt, Aggregate, NttVec, AddedConstraint, Satisfies, HonestMessages, Instance.Valid, M, Slot;
    var cs := AllEqualities(bk, inst, t.seed1, t.msg.jlI, t.psi, t.omega, t.msg.bAgg);
    EqualitiesShaped(bk, inst, t);
    AggregateEval(cs, t.alpha, inst.param.r, inst.param.n, NttVec(s), c);
    var f, n, m := EvalTerms(cs, t.alpha, NttVec(s), c), |inst.eqs|, inst.param.rounds;
    SumSplit(n, m, f);
    SumExt(n, f, WeightedEqualities(inst, t.alpha, s, c));
    var rest, none := i => f(n + i), i => 0;
    forall k | 0 <= k < m ensures M(rest(k)) == M(none(k)) {
      AddedSatisfied(bk, inst, s, t, k);
      assert cs[n + k] == AddedConstraint(bk, inst, t.seed1, t.msg.jlI, t.psi, t.omega, k, PolyAt(t.msg.bAgg, k));
      ZeroEvaluation(cs[n + k], Slot(t.alpha, n + k, c), NttVec(s), c);
    }
    SumCong(m, rest, none);
    SumZero(m, none);
    DropLast(Sum(n, f), Sum(m, rest));
  }

  lemma DropLast(x: int, y: int)
    requires M(y) == M(0)
    ensures M(x + y) == M(x)
  {}

  /** What the verifier's verdict on the only round says of the prover's input, for every s of the right size: the norms
      and nothing but the two random combinations of what the constraints leave. */
  lemma RoundVerdict(bk: Backend, inst: Instance, s: seq<Poly>, state: Bytes, digits: bool)
    requires inst.Valid() && |s| == inst.param.r * inst.param.n
    ensures var rd := HonestRound(bk, inst, s, state);
      Verify(bk, inst, [rd.trs.msg], rd.proof, state, digits) <==>
        && bk.jlNormOk(inst.param, rd.trs.msg.p) && ResidualsCancel(inst, rd.trs.psi, s)
        && (digits ==> SmallDigits(inst.param, rd.proof)) && bk.zNormOk(inst.param, InttVec(rd.proof.zHat))
        && EqualitiesCancel(inst, rd.trs.alpha, s)
  {
    hide ProverRound, PartVerify, FinalConstraint, DeriveTranscript, NextInstance, Algebraic, SmallDigits, Satisfies,
      NttVec, InttVec, Instance.Valid, ResidualsCancel, EqualitiesCancel, HonestMessages;
    ValidParam(inst);
    var rd := HonestRound(bk, inst, s, state);
    SameTranscript(bk, inst, s, state);
    RoundHonest(bk, inst, s, state);
    HonestPassIff(bk, inst, s, rd.trs);
    ChecksIff(bk, inst, s, state);
    FinalIff(bk, inst, s, rd.trs);
  }

  lemma FinalIff(bk: Backend, inst: Instance, s: seq<Poly>, t: Transcript)
    requires inst.Valid() && HonestMessages(bk, inst, s, t)
    ensures Satisfies(FinalConstraint(bk, inst, t), NttVec(s)) <==> EqualitiesCancel(inst, t.alpha, s)
  {
    hide FinalConstraint, EvalAt, NttVec, Sum, M, Instance.Valid, HonestMessages, WeightedEqualities;
    forall c: nat | c < D
      ensures M(EvalAt(FinalConstraint(bk, inst, t), NttVec(s), c))
           == M(Sum(|inst.eqs|, WeightedEqualities(inst, t.alpha, s, c)))
    {
      FinalEvaluates(bk, inst, s, t, c);
    }
  }
}
