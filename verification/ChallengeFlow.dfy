/** Which messages every challenge depends on: exactly those sent before it is drawn. */
module ChallengeFlow {
  import opened Residues
  import opened Arrays
  import opened Polynomials
  import opened Vectors
  import opened Parameters
  import opened Constraints
  import opened Protocol

  const ONE_POLY: Poly := Tabulate(k => 1)

  /** A backend whose hash keeps all it is given, whose encodings tell given values from all others by one byte, and
      whose samples tell a given seed from all others. */
  function Telling(u: seq<Poly>, jlI: nat, p: seq<Zq>, seed: Bytes): Backend {
    Backend(x => x,
            (b, n, i) => if b == seed then 1 else 0,
            (b, n, i) => if b == seed then ONE_POLY else ZERO,
            (b, n, i) => ZERO,
            (b, n, r, i) => if b == seed then ONE_POLY else ZERO,
            (b, n, j, x) => if b == seed then 1 else 0,
            (b, q, s) => 0,
            v => if v == u then [1] else [0],
            (i, v) => if i == jlI && v == p then [1] else [0],
            (q, m, l) => [],
            (q, v) => true, (q, v) => true, (r, beta) => 2, (n, m) => 1, (n, m) => 1, 1)
  }

  function Mark(same: bool): Bytes {
    if same then [1] else [0]
  }

  /** The seeds under such a backend: the state and a byte for every message so far. */
  lemma ToldSeeds(u: seq<Poly>, jlI: nat, p: seq<Zq>, seed: Bytes, inst: Instance, m: Messages, state: Bytes)
    ensures var t := DeriveTranscript(Telling(u, jlI, p, seed), inst, m, state);
      && t.seed2 == state + Mark(m.u1 == u) + Mark(m.jlI == jlI && m.p == p)
      && t.seed3 == t.seed2 + Mark(m.bAgg == u) && t.seed4 == t.seed3 + Mark(m.u2 == u)
  {
    hide SampleZq, SampleTq, SampleChallenges;
  }

  lemma LastByte(a: Bytes, x: Byte, b: Bytes, y: Byte)
    requires a + [x] == b + [y]
    ensures a == b && x == y
  {
    assert |a + [x]| == |b + [y]|;
    assert a == (a + [x])[..|a|] && b == (b + [y])[..|b|];
    assert (a + [x])[|a|] == x && (b + [y])[|b|] == y;
  }

  lemma MarksTell(a: Bytes, x: bool, b: Bytes, y: bool)
    requires a + Mark(x) == b + Mark(y)
    ensures a == b && x == y
  {
    LastByte(a, Mark(x)[0], b, Mark(y)[0]);
  }

  /** Both derived transcripts draw the same psi, whatever hash, encodings and samplers do. */
  ghost predicate SamePsi(inst: Instance, m: Messages, m': Messages, state: Bytes) {
    forall bk: Backend :: DeriveTranscript(bk, inst, m, state).psi == DeriveTranscript(bk, inst, m', state).psi
  }

  ghost predicate SameOmega(inst: Instance, m: Messages, m': Messages, state: Bytes) {
    forall bk: Backend :: DeriveTranscript(bk, inst, m, state).omega == DeriveTranscript(bk, inst, m', state).omega
  }

  ghost predicate SameAlpha(inst: Instance, m: Messages, m': Messages, state: Bytes) {
    forall bk: Backend :: DeriveTranscript(bk, inst, m, state).alpha == DeriveTranscript(bk, inst, m', state).alpha
  }

  ghost predicate SameChallenges(inst: Instance, m: Messages, m': Messages, state: Bytes) {
    forall bk: Backend ::
      DeriveTranscript(bk, inst, m, state).challenges == DeriveTranscript(bk, inst, m', state).challenges
  }

  /** psi and omega depend on u1 and the projection message, and on nothing else. */
  lemma PsiDependsOn(inst: Instance, m: Messages, m': Messages, state: Bytes)
    requires inst.param.rounds * |inst.zeros| >= 1
    ensures SamePsi(inst, m, m', state) <==> m.u1 == m'.u1 && m.jlI == m'.jlI && m.p == m'.p
  {
    hide SampleTq, SampleChallenges;
    if SamePsi(inst, m, m', state) {
      var seed := state + Mark(true) + Mark(true) + [49];
      var bk := Telling(m.u1, m.jlI, m.p, seed);
      var t, t' := DeriveTranscript(bk, inst, m, state), DeriveTranscript(bk, inst, m', state);
      ToldSeeds(m.u1, m.jlI, m.p, seed, inst, m, state);
      ToldSeeds(m.u1, m.jlI, m.p, seed, inst, m', state);
      assert t.psi[0] == t'.psi[0];
      assert t.psi[0] == 1;
      assert t'.psi[0] == if t'.seed2 + [49] == seed then 1 else 0;
      LastByte(t'.seed2, 49, state + Mark(true) + Mark(true), 49);
      MarksTell(state + Mark(m'.u1 == m.u1), m'.jlI == m.jlI && m'.p == m.p, state + Mark(true), true);
      MarksTell(state, m'.u1 == m.u1, state, true);
    }
  }

  lemma OmegaDependsOn(inst: Instance, m: Messages, m': Messages, state: Bytes)
    requires inst.param.rounds * inst.param.jlOut >= 1
    ensures SameOmega(inst, m, m', state) <==> m.u1 == m'.u1 && m.jlI == m'.jlI && m.p == m'.p
  {
    hide SampleTq, SampleChallenges;
    if SameOmega(inst, m, m', state) {
      var seed := state + Mark(true) + Mark(true) + [50];
      var bk := Telling(m.u1, m.jlI, m.p, seed);
      var t, t' := DeriveTranscript(bk, inst, m, state), DeriveTranscript(bk, inst, m', state);
      ToldSeeds(m.u1, m.jlI, m.p, seed, inst, m, state);
      ToldSeeds(m.u1, m.jlI, m.p, seed, inst, m', state);
      assert t.omega[0] == t'.omega[0];
      assert t.omega[0] == 1;
      assert t'.omega[0] == if t'.seed2 + [50] == seed then 1 else 0;
      LastByte(t'.seed2, 50, state + Mark(true) + Mark(true), 50);
      MarksTell(state + Mark(m'.u1 == m.u1), m'.jlI == m.jlI && m'.p == m.p, state + Mark(true), true);
      MarksTell(state, m'.u1 == m.u1, state, true);
    }
  }

  lemma OneIsNotZero()
    ensures ONE_POLY != ZERO && NttVec([ONE_POLY])[0] != NttVec([ZERO])[0]
  {
    assert At(ONE_POLY, 0) == 1 && At(ZERO, 0) == 0;
    InttNtt(ONE_POLY);
    InttNtt(ZERO);
  }

  /** Backends that tell the messages' u, for u1, bAgg or u2, under which the third seeds agree. */
  lemma ThirdSeedTells(inst: Instance, m: Messages, m': Messages, state: Bytes, u: seq<Poly>, seed: Bytes)
    requires DeriveTranscript(Telling(u, m.jlI, m.p, seed), inst, m, state).seed3
          == DeriveTranscript(Telling(u, m.jlI, m.p, seed), inst, m', state).seed3
    ensures (m.u1 == u <==> m'.u1 == u) && (m.bAgg == u <==> m'.bAgg == u) && m.jlI == m'.jlI && m.p == m'.p
  {
    hide DeriveTranscript, Telling;
    ToldSeeds(u, m.jlI, m.p, seed, inst, m, state);
    ToldSeeds(u, m.jlI, m.p, seed, inst, m', state);
    MarksTell(state + Mark(m.u1 == u) + Mark(true), m.bAgg == u,
              state + Mark(m'.u1 == u) + Mark(m'.jlI == m.jlI && m'.p == m.p), m'.bAgg == u);
    MarksTell(state + Mark(m.u1 == u), true, state + Mark(m'.u1 == u), m'.jlI == m.jlI && m'.p == m.p);
    MarksTell(state, m.u1 == u, state, m'.u1 == u);
  }

  /** Under a backend that tells the first transcript's seed, the same alphas mean the same third seed. */
  lemma AlphaTells(inst: Instance, m: Messages, m': Messages, state: Bytes, u: seq<Poly>)
    requires |inst.eqs| + inst.param.rounds >= 1 && SameAlpha(inst, m, m', state)
    ensures (m.u1 == u <==> m'.u1 == u) && (m.bAgg == u <==> m'.bAgg == u) && m.jlI == m'.jlI && m.p == m'.p
  {
    hide SampleZq, SampleChallenges, Tabulate;
    var seed := state + Mark(m.u1 == u) + Mark(true) + Mark(m.bAgg == u) + [49];
    var bk := Telling(u, m.jlI, m.p, seed);
    var t, t' := DeriveTranscript(bk, inst, m, state), DeriveTranscript(bk, inst, m', state);
    ToldSeeds(u, m.jlI, m.p, seed, inst, m, state);
    assert t.alpha[0] == t'.alpha[0];
    assert t.alpha[0] == ONE_POLY;
    assert t'.alpha[0] == if t'.seed3 + [49] == seed then ONE_POLY else ZERO;
    OneIsNotZero();
    LastByte(t'.seed3, 49, t.seed3, 49);
    ThirdSeedTells(inst, m, m', state, u, seed);
  }

  /** alpha depends on u1, the projection message and the message polynomials, and not on u2. */
  lemma AlphaDependsOn(inst: Instance, m: Messages, m': Messages, state: Bytes)
    requires |inst.eqs| + inst.param.rounds >= 1
    ensures SameAlpha(inst, m, m', state)
       <==> m.u1 == m'.u1 && m.jlI == m'.jlI && m.p == m'.p && m.bAgg == m'.bAgg
  {
    hide SampleZq, SampleTq, SampleChallenges;
    if SameAlpha(inst, m, m', state) {
      AlphaTells(inst, m, m', state, m.u1);
      AlphaTells(inst, m, m', state, m.bAgg);
    }
  }

  lemma ChallengesTell(inst: Instance, m: Messages, m': Messages, state: Bytes, u: seq<Poly>)
    requires inst.param.r >= 1 && SameChallenges(inst, m, m', state)
    ensures (m.u1 == u <==> m'.u1 == u) && (m.bAgg == u <==> m'.bAgg == u) && (m.u2 == u <==> m'.u2 == u)
    ensures m.jlI == m'.jlI && m.p == m'.p
  {
    hide SampleZq, SampleTq, Tabulate, Ntt;
    var seed := state + Mark(m.u1 == u) + Mark(true) + Mark(m.bAgg == u) + Mark(m.u2 == u);
    var bk := Telling(u, m.jlI, m.p, seed);
    var t, t' := DeriveTranscript(bk, inst, m, state), DeriveTranscript(bk, inst, m', state);
    ToldSeeds(u, m.jlI, m.p, seed, inst, m, state);
    ToldSeeds(u, m.jlI, m.p, seed, inst, m', state);
    assert t.challenges[0] == t'.challenges[0];
    assert t.challenges[0] == Ntt(ONE_POLY);
    assert t'.challenges[0] == Ntt(if t'.seed4 == seed then ONE_POLY else ZERO);
    OneIsNotZero();
    MarksTell(t.seed3, m.u2 == u, t'.seed3, m'.u2 == u);
    ThirdSeedTells(inst, m, m', state, u, seed);
  }

  /** The challenges depend on all of the messages. */
  lemma ChallengesDependOn(inst: Instance, m: Messages, m': Messages, state: Bytes)
    requires inst.param.r >= 1
    ensures SameChallenges(inst, m, m', state) <==> m == m'
  {
    hide SampleZq, SampleTq, SampleChallenges;
    if SameChallenges(inst, m, m', state) {
      ChallengesTell(inst, m, m', state, m.u1);
      ChallengesTell(inst, m, m', state, m.bAgg);
      ChallengesTell(inst, m, m', state, m.u2);
    }
  }

  lemma EntryIs(bk: Backend, p: Param, seed1: Bytes, jlI: nat, j: int, x: int)
    ensures JlMatrix(bk, p, seed1, jlI)(j, x) == bk.jlEntry(seed1 + [jlI % 256], (p.r * p.n) * D, j, x)
  {
    assert JlMatrix(bk, p, seed1, jlI)(j, x) == bk.jlEntry(JlSeed(seed1, jlI), (p.r * p.n) * D, j, x);
  }

  lemma ToldEntry(p: Param, seed1: Bytes, jlI: nat, seed: Bytes)
    ensures JlMatrix(Telling([], 0, [], seed), p, seed1, jlI)(0, 0) == if seed1 + [jlI % 256] == seed then 1 else 0
  {
    EntryIs(Telling([], 0, [], seed), p, seed1, jlI, 0, 0);
  }

  /** Both seeds and nonces give the same projection matrix, whatever the sampler does. */
  ghost predicate SameProjection(p: Param, seed1: Bytes, jlI: nat, seed1': Bytes, jlI': nat) {
    forall bk: Backend, j, x :: JlMatrix(bk, p, seed1, jlI)(j, x) == JlMatrix(bk, p, seed1', jlI')(j, x)
  }

  /** The projection depends on the seed that u1 leaves and on the last byte of the nonce. */
  lemma ProjectionDependsOn(p: Param, seed1: Bytes, jlI: nat, seed1': Bytes, jlI': nat)
    ensures SameProjection(p, seed1, jlI, seed1', jlI') <==> seed1 == seed1' && jlI % 256 == jlI' % 256
  {
    hide Telling;
    if SameProjection(p, seed1, jlI, seed1', jlI') {
      var seed := seed1 + [jlI % 256];
      ToldEntry(p, seed1, jlI, seed);
      ToldEntry(p, seed1', jlI', seed);
      assert JlMatrix(Telling([], 0, [], seed), p, seed1, jlI)(0, 0)
          == JlMatrix(Telling([], 0, [], seed), p, seed1', jlI')(0, 0);
      LastByte(seed1', jlI' % 256, seed1, jlI % 256);
    }
    if seed1 == seed1' && jlI % 256 == jlI' % 256 {
      forall bk: Backend, j, x ensures JlMatrix(bk, p, seed1, jlI)(j, x) == JlMatrix(bk, p, seed1', jlI')(j, x) {
        EntryIs(bk, p, seed1, jlI, j, x);
        EntryIs(bk, p, seed1', jlI', j, x);
      }
    }
  }

  ghost predicate SameStart(seed: Bytes, inst: Instance, seed': Bytes, inst': Instance) {
    forall bk: Backend :: InitialState(bk, seed, inst) == InitialState(bk, seed', inst')
  }

  /** A backend whose parameter encoding tells one instance's sizes from all others. */
  function Knowing(p: Param, eqs: nat, zeros: nat): Backend {
    Telling([], 0, [], []).(encodeParam := (q, m, l) => if q == p && m == eqs && l == zeros then [1] else [0])
  }

  /** The oracle starts from the seed, the parameters and the numbers of constraints of either kind. */
  lemma StartDependsOn(seed: Bytes, inst: Instance, seed': Bytes, inst': Instance)
    ensures SameStart(seed, inst, seed', inst')
       <==> seed == seed' && inst.param == inst'.param && |inst.eqs| == |inst'.eqs| && |inst.zeros| == |inst'.zeros|
  {
    if SameStart(seed, inst, seed', inst') {
      var bk := Knowing(inst.param, |inst.eqs|, |inst.zeros|);
      var same := inst'.param == inst.param && |inst'.eqs| == |inst.eqs| && |inst'.zeros| == |inst.zeros|;
      assert InitialState(bk, seed, inst) == seed + Mark(true);
      assert InitialState(bk, seed', inst') == seed' + Mark(same);
      MarksTell(seed, true, seed', same);
    }
  }
}
