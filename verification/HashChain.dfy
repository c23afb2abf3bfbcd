/** What the transcript's hash chain binds. */
module HashChain {
  import opened Polynomials
  import opened Parameters
  import opened Protocol

  /** The byte strings that one round's messages become, in the order in which they are absorbed. */
  function Encodings(bk: Backend, m: Messages): (e: seq<Bytes>)
    ensures |e| == 4
  {
    [bk.encodeTq(m.u1), bk.encodeJl(m.jlI, m.p), bk.encodeTq(m.bAgg), bk.encodeTq(m.u2)]
  }

  /** The state after a list of byte strings: each is hashed behind the state that the ones before it left. */
  function ChainState(bk: Backend, state: Bytes, es: seq<Bytes>): Bytes
    decreases |es|
  {
    if |es| == 0 then state else ChainState(bk, bk.hash(state + es[0]), es[1..])
  }

  /** Everything that is hashed on the way. */
  function ChainInputs(bk: Backend, state: Bytes, es: seq<Bytes>): (inputs: seq<Bytes>)
    ensures |inputs| == |es|
    decreases |es|
  {
    if |es| == 0 then [] else [state + es[0]] + ChainInputs(bk, bk.hash(state + es[0]), es[1..])
  }

  /** In some step the two chains hash different byte strings to the same digest. */
  ghost predicate Collide(bk: Backend, xs: seq<Bytes>, ys: seq<Bytes>)
    requires |xs| == |ys|
  {
    exists i :: 0 <= i < |xs| && xs[i] != ys[i] && bk.hash(xs[i]) == bk.hash(ys[i])
  }

  ghost predicate DigestsOf(bk: Backend, len: nat) {
    forall x :: |bk.hash(x)| == len
  }

  lemma Behind(a: Bytes, x: Bytes, b: Bytes, y: Bytes)
    requires |a| == |b| && a + x == b + y
    ensures a == b && x == y
  {
    assert a == (a + x)[..|a|] && x == (a + x)[|a|..];
    assert b == (b + y)[..|b|] && y == (b + y)[|b|..];
  }

  /** Chains from states of one length end in the same state only if they absorb the same or collide on the way. */
  lemma {:induction false} ChainBinds(bk: Backend, len: nat, a: Bytes, es: seq<Bytes>, b: Bytes, fs: seq<Bytes>)
    requires DigestsOf(bk, len) && |a| == |b| && |es| == |fs|
    requires ChainState(bk, a, es) == ChainState(bk, b, fs)
    ensures (a == b && es == fs) || Collide(bk, ChainInputs(bk, a, es), ChainInputs(bk, b, fs))
    decreases |es|
  {
    if |es| > 0 {
      var x, y := a + es[0], b + fs[0];
      var xs, ys := ChainInputs(bk, a, es), ChainInputs(bk, b, fs);
      assert xs[0] == x && ys[0] == y;
      ChainBinds(bk, len, bk.hash(x), es[1..], bk.hash(y), fs[1..]);
      if bk.hash(x) == bk.hash(y) && es[1..] == fs[1..] {
        if x == y {
          Behind(a, es[0], b, fs[0]);
          assert es == [es[0]] + es[1..] && fs == [fs[0]] + fs[1..];
        }
      } else {
        CollideLater(bk, x, ChainInputs(bk, bk.hash(x), es[1..]), y, ChainInputs(bk, bk.hash(y), fs[1..]));
      }
    }
  }

  lemma CollideLater(bk: Backend, x: Bytes, xs: seq<Bytes>, y: Bytes, ys: seq<Bytes>)
    requires |xs| == |ys| && Collide(bk, xs, ys)
    ensures Collide(bk, [x] + xs, [y] + ys)
  {
    var i :| 0 <= i < |xs| && xs[i] != ys[i] && bk.hash(xs[i]) == bk.hash(ys[i]);
    assert ([x] + xs)[i + 1] == xs[i] && ([y] + ys)[i + 1] == ys[i];
  }

  /** The four seeds of a round, by number. */
  function Seed(t: Transcript, j: nat): Bytes {
    if j == 1 then t.seed1 else if j == 2 then t.seed2 else if j == 3 then t.seed3 else t.seed4
  }

  lemma {:induction false} ChainConcat(bk: Backend, state: Bytes, es: seq<Bytes>, fs: seq<Bytes>)
    ensures ChainState(bk, state, es + fs) == ChainState(bk, ChainState(bk, state, es), fs)
    decreases |es|
  {
    if |es| == 0 {
      assert es + fs == fs;
    } else {
      assert (es + fs)[1..] == es[1..] + fs;
      ChainConcat(bk, bk.hash(state + es[0]), es[1..], fs);
    }
  }

  lemma OneMore(bk: Backend, state: Bytes, es: seq<Bytes>, e: Bytes)
    ensures ChainState(bk, state, es + [e]) == bk.hash(ChainState(bk, state, es) + e)
  {
    ChainConcat(bk, state, es, [e]);
  }

  /** The j-th seed is the state after the first j messages. */
  lemma {:induction false} SeedIs(bk: Backend, inst: Instance, m: Messages, state: Bytes, j: nat)
    requires 1 <= j <= 4
    ensures Seed(DeriveTranscript(bk, inst, m, state), j) == ChainState(bk, state, Encodings(bk, m)[..j])
  {
    hide SampleZq, SampleTq, SampleChallenges, ChainState;
    var e := Encodings(bk, m);
    assert e[..j] == e[..j - 1] + [e[j - 1]];
    OneMore(bk, state, e[..j - 1], e[j - 1]);
    if j > 1 { SeedIs(bk, inst, m, state, j - 1); } else { NothingAbsorbed(bk, state); }
  }

  lemma NothingAbsorbed(bk: Backend, state: Bytes)
    ensures ChainState(bk, state, []) == state
  {}

  /** Every sample is drawn from the state after the messages before it, with its own mark, count and index. */
  lemma SamplesAre(bk: Backend, inst: Instance, m: Messages, state: Bytes)
    ensures var t, e, p := DeriveTranscript(bk, inst, m, state), Encodings(bk, m), inst.param;
      var s2, s3, s4 := ChainState(bk, state, e[..2]), ChainState(bk, state, e[..3]), ChainState(bk, state, e);
      && |t.psi| == p.rounds * |inst.zeros| && |t.omega| == p.rounds * p.jlOut
      && |t.alpha| == |inst.eqs| + p.rounds && |t.challenges| == p.r
      && (forall i :: 0 <= i < |t.psi| ==> t.psi[i] == bk.sampleZq(s2 + [49], |t.psi|, i))
      && (forall i :: 0 <= i < |t.omega| ==> t.omega[i] == bk.sampleZq(s2 + [50], |t.omega|, i))
      && (forall i :: 0 <= i < |t.alpha| ==> t.alpha[i] == bk.sampleTq(s3 + [49], |t.alpha|, i))
      && (forall i :: 0 <= i < p.r ==> t.challenges[i] == Ntt(bk.sampleChallenge(s4, p.n, p.r, i)))
  {
    hide ChainState, Encodings, Ntt;
    SeedIs(bk, inst, m, state, 2);
    SeedIs(bk, inst, m, state, 3);
    SeedIs(bk, inst, m, state, 4);
    assert Encodings(bk, m)[..4] == Encodings(bk, m);
  }

  /** Binding: messages that lead to the same j-th seed have the same first j encodings, or the two chains collide. */
  lemma SeedBinds(bk: Backend, len: nat, inst: Instance, m: Messages, m': Messages, state: Bytes, j: nat)
    requires DigestsOf(bk, len) && 1 <= j <= 4
    requires Seed(DeriveTranscript(bk, inst, m, state), j) == Seed(DeriveTranscript(bk, inst, m', state), j)
    ensures Encodings(bk, m)[..j] == Encodings(bk, m')[..j]
         || Collide(bk, ChainInputs(bk, state, Encodings(bk, m)[..j]), ChainInputs(bk, state, Encodings(bk, m')[..j]))
  {
    hide DeriveTranscript, Encodings, Seed;
    SeedIs(bk, inst, m, state, j);
    SeedIs(bk, inst, m', state, j);
    ChainBinds(bk, len, state, Encodings(bk, m)[..j], state, Encodings(bk, m')[..j]);
  }

  /** The byte strings of all rounds. */
  function RunEncodings(bk: Backend, ms: seq<Messages>): (e: seq<Bytes>)
    ensures |e| == 4 * |ms|
  {
    if |ms| == 0 then [] else Encodings(bk, ms[0]) + RunEncodings(bk, ms[1..])
  }

  /** The state in which a run's messages leave the oracle. */
  function EndState(bk: Backend, state: Bytes, ms: seq<Messages>): Bytes {
    ChainState(bk, state, RunEncodings(bk, ms))
  }

  /** Binding over a whole run: two runs of the same number of rounds that end in the same state have sent the same
      encodings in every round, or their chains collide. */
  lemma RunBinds(bk: Backend, len: nat, ms: seq<Messages>, ms': seq<Messages>, state: Bytes)
    requires DigestsOf(bk, len) && |ms| == |ms'| && EndState(bk, state, ms) == EndState(bk, state, ms')
    ensures RunEncodings(bk, ms) == RunEncodings(bk, ms')
         || Collide(bk, ChainInputs(bk, state, RunEncodings(bk, ms)), ChainInputs(bk, state, RunEncodings(bk, ms')))
  {
    hide Encodings, RunEncodings;
    ChainBinds(bk, len, state, RunEncodings(bk, ms), state, RunEncodings(bk, ms'));
  }
}
