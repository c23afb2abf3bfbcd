/** What an accepted folding proof says, whoever made it. */
module FriSoundness {
  import opened Residues
  import opened Products
  import opened Arrays
  import opened Powers
  import opened PowersOfTwo
  import opened Roots
  import BitReverseInPlace
  import opened FriFolding
  import opened FriRuns
  import opened FriProver
  import opened FriVerifier

  /** Every leaf in the proof is the entry of its round's codeword at the index it carries. */
  ghost predicate LeavesOf(proof: FriProof, rounds: seq<seq<Zq>>) {
    forall i: nat, r: nat :: i < |proof.slots| && r < |proof.slots[i]| && r < |rounds| ==>
      && proof.slots[i][r].index < |rounds[r]|
      && proof.slots[i][r].leaf == rounds[r][proof.slots[i][r].index]
  }

  /** A query's two slots of a round are there, their paths check, and they open the query's entry and the entry half
      the round's domain away. */
  ghost predicate PairOpened(env: Environment, proof: FriProof, l: nat, q: nat, query: nat, r: nat)
    requires r < l
  {
    && 2 * q + 1 < |proof.slots| && r < |proof.slots[2 * q]| && r < |proof.slots[2 * q + 1]|
    && var leaf, sym, half := proof.slots[2 * q][r], proof.slots[2 * q + 1][r], Pow2(l - r - 1);
       && env.check(leaf) && env.check(sym) && leaf.index == query % (2 * half)
       && sym.index == if leaf.index < half then leaf.index + half else leaf.index - half
  }

  ghost predicate AllOpened(env: Environment, proof: FriProof, l: nat, nofRounds: nat, queries: seq<nat>)
    requires nofRounds <= l
  {
    forall q: nat, r: nat :: q < |queries| && r < nofRounds ==> PairOpened(env, proof, l, q, queries[q], r)
  }

  /** What the proof's transcript and the codewords behind its leaves amount to. */
  function Claimed(env: Environment, proof: FriProof, rounds: seq<seq<Zq>>): Committed
    requires |proof.slots| >= 1
  {
    var roots := RootsOf(proof.slots[0]);
    Committed(rounds, proof.final, roots, AlphasOf(env, roots))
  }

  /** Queries of one round: accepted exactly when the pair is opened and the fold that the verifier computes from the
      codewords is the one that it looks up. */
  lemma RoundExactly(env: Environment, proof: FriProof, c: Committed, u: Zq, l: nat, q: nat, query: nat, r: nat)
    requires Sized(c.rounds, c.final, l) && |c.alphas| == |c.rounds| && r < |c.rounds| <= l && |c.final| >= 1
    requires proof.final == c.final && LeavesOf(proof, c.rounds)
    requires r + 1 < |c.rounds| ==> PairOpened(env, proof, l, q, query, r + 1)
    ensures RoundAccepts(env, proof, c.alphas, u, l, |c.rounds|, q, query, r)
       <==> PairOpened(env, proof, l, q, query, r) && VerifierFold(c, u, l, r, query) == LookedUp(c, l, r, query)
  {
    hide Pow, FoldValue, Sym, Pow2;
    SizedAt(c.rounds, c.final, l, r);
    SymIndex(query, Pow2(l - r - 1));
    if r + 1 < |c.rounds| {
      SizedAt(c.rounds, c.final, l, r + 1);
      assert l - (r + 1) == l - r - 1;
    }
  }

  lemma RoundOpens(env: Environment, proof: FriProof, alphas: seq<Zq>, u: Zq, l: nat, nofRounds: nat, q: nat,
                   query: nat, r: nat)
    requires r < nofRounds <= l && |alphas| == nofRounds && |proof.final| >= 1
    requires RoundAccepts(env, proof, alphas, u, l, nofRounds, q, query, r)
    ensures PairOpened(env, proof, l, q, query, r)
  {
    hide Pow, FoldValue, Sym;
    SymIndex(query, Pow2(l - r - 1));
  }

  /** The codewords have the sizes of the rounds of a domain of 2^l entries. */
  ghost predicate RoundSizes(rounds: seq<seq<Zq>>, l: nat) {
    |rounds| <= l && forall r :: 0 <= r < |rounds| ==> |rounds[r]| == Pow2(l - r)
  }

  lemma QueriesExactly(env: Environment, proof: FriProof, c: Committed, u: Zq, l: nat, queries: seq<nat>)
    requires Sized(c.rounds, c.final, l) && |c.alphas| == |c.rounds| && |c.final| >= 1
    requires proof.final == c.final && LeavesOf(proof, c.rounds)
    ensures |c.rounds| <= l
    ensures QueriesAccepted(env, proof, c.alphas, u, l, |c.rounds|, queries)
       <==> AllOpened(env, proof, l, |c.rounds|, queries) && FoldsFound(c, u, l, queries)
  {
    hide RoundAccepts, PairOpened, VerifierFold, LookedUp, Pow2, LeavesOf;
    if QueriesAccepted(env, proof, c.alphas, u, l, |c.rounds|, queries) {
      forall q: nat, r: nat | q < |queries| && r < |c.rounds| ensures PairOpened(env, proof, l, q, queries[q], r) {
        RoundOpens(env, proof, c.alphas, u, l, |c.rounds|, q, queries[q], r);
      }
    }
    if AllOpened(env, proof, l, |c.rounds|, queries) {
      forall q: nat, r: nat | q < |queries| && r < |c.rounds|
        ensures RoundAccepts(env, proof, c.alphas, u, l, |c.rounds|, q, queries[q], r)
           <==> VerifierFold(c, u, l, r, queries[q]) == LookedUp(c, l, r, queries[q])
      {
        RoundExactly(env, proof, c, u, l, q, queries[q], r);
      }
    }
  }

  /** Acceptance of any proof whose leaves are entries of codewords: the sizes and the nonce are right, every query
      opens its entry and the one half a domain away in every round, and every fold of the opened entries is found. */
  lemma AcceptsExactly(env: Environment, proof: FriProof, rounds: seq<seq<Zq>>, finalSize: nat, config: FriConfig,
                       u: Zq)
    requires |proof.slots| >= 1 && |rounds| == |proof.slots[0]| && finalSize >= 1
    requires LeavesOf(proof, rounds) && RoundSizes(rounds, |rounds| + FloorLog2(finalSize))
    ensures var c, l := Claimed(env, proof, rounds), |rounds| + FloorLog2(finalSize);
      var queries := Queries(env, config, c.roots, proof.nonce, finalSize, Pow2(l));
      Accepts(env, proof, finalSize, config, u) <==>
        && |proof.final| == finalSize && (config.powBits == 0 || env.solved(c.roots, config.powBits, proof.nonce))
        && AllOpened(env, proof, l, |rounds|, queries) && FoldsFound(c, u, l, queries)
  {
    hide QueriesAccepted, FloorLog2, Pow2, LeavesOf, AllOpened, FoldsFound, Queries;
    var c, l := Claimed(env, proof, rounds), |rounds| + FloorLog2(finalSize);
    if |proof.final| == finalSize {
      FinalHolds(rounds, proof.final, finalSize, l);
      QueriesExactly(env, proof, c, u, l, Queries(env, config, c.roots, proof.nonce, finalSize, Pow2(l)));
    }
  }

  lemma FinalHolds(rounds: seq<seq<Zq>>, final: seq<Zq>, finalSize: nat, l: nat)
    requires |final| == finalSize >= 1 && l == |rounds| + FloorLog2(finalSize) && RoundSizes(rounds, l)
    ensures Sized(rounds, final, l)
  {
    hide Pow2;
    assert Pow2(FloorLog2(finalSize)) <= finalSize;
    assert l - |rounds| == FloorLog2(finalSize);
  }

  /** Whatever its leaves are, a proof in which a slot opens another index than its query's, or than the one half a
      domain away, is rejected. */
  lemma WrongPairRejected(env: Environment, proof: FriProof, finalSize: nat, config: FriConfig, u: Zq, q: nat, r: nat)
    requires |proof.slots| >= 1 && finalSize >= 1 && q < config.nofQueries && r < |proof.slots[0]|
    requires var roots, l := RootsOf(proof.slots[0]), |proof.slots[0]| + FloorLog2(finalSize);
      var query := Queries(env, config, roots, proof.nonce, finalSize, Pow2(l))[q];
      !PairOpened(env, proof, l, q, query, r)
    ensures !Accepts(env, proof, finalSize, config, u)
  {
    hide FloorLog2, Pow2, RoundAccepts, PairOpened;
    if Accepts(env, proof, finalSize, config, u) {
      var roots, l := RootsOf(proof.slots[0]), |proof.slots[0]| + FloorLog2(finalSize);
      var queries := Queries(env, config, roots, proof.nonce, finalSize, Pow2(l));
      assert RoundAccepts(env, proof, AlphasOf(env, roots), u, l, |roots|, q, queries[q], r);
      RoundOpens(env, proof, AlphasOf(env, roots), u, l, |roots|, q, queries[q], r);
    }
  }

  /** The upper half of the first domain: between them, these queries look at every pair of every round. */
  ghost predicate Covers(queries: seq<nat>, l: nat)
    requires l >= 1
  {
    forall e: nat :: Pow2(l - 1) <= e < Pow2(l) ==> e in queries
  }

  lemma QueryOfPair(l: nat, r: nat, i: nat)
    requires r < l && i < Pow2(l - r - 1)
    ensures Pow2(l - 1) <= Pow2(l - 1) + i < Pow2(l)
    ensures (Pow2(l - 1) + i) % Pow2(l - r) == if r == 0 then Pow2(l - 1) + i else i
    ensures (Pow2(l - 1) + i) % Pow2(l - r - 1) == i
  {
    hide Pow2;
    Halving(l);
    Halving(l - r);
    Pow2Add(r, l - r - 1);
    Smaller(r, Pow2(l - r - 1));
    BitReverseInPlace.QuotientUnique(Pow2(l - 1) + i, Pow2(l - r - 1), Pow2(r), i);
    if r == 0 {
      BitReverseInPlace.QuotientUnique(Pow2(l - 1) + i, Pow2(l), 0, Pow2(l - 1) + i);
    } else {
      Pow2Add(r - 1, l - r);
      BitReverseInPlace.QuotientUnique(Pow2(l - 1) + i, Pow2(l - r), Pow2(r - 1), i);
    }
  }

  lemma Smaller(r: nat, x: nat)
    ensures x <= Pow2(r) * x
  {
    assert Pow2(r) >= 1;
    NonNegative(Pow2(r) - 1, x);
    Distribute(x, Pow2(r), Pow2(r) - 1, 1);
  }

  /** What is found for the query that reaches a pair is the fold of that pair. */
  lemma FoundIsFolded(c: Committed, u: Zq, l: nat, r: nat, i: nat)
    requires Sized(c.rounds, c.final, l) && |c.alphas| == |c.rounds| && r < |c.rounds| && i < Pow2(l - r - 1)
    requires IsRoot(u, l) && |c.final| == Pow2(l - |c.rounds|)
    requires VerifierFold(c, u, l, r, Pow2(l - 1) + i) == LookedUp(c, l, r, Pow2(l - 1) + i)
    ensures FoldedAt(c.rounds, c.final, c.alphas, u, l, r, i)
  {
    hide Pow, FoldValue, Sym, IsRoot, Pow2;
    SizedAt(c.rounds, c.final, l, r);
    var half, query := Pow2(l - r - 1), Pow2(l - 1) + i;
    QueryOfPair(l, r, i);
    SymIndex(query, half);
    Halving(l - r);
    if r == 0 {
      TwiddleSign(u, l, r, i);
      FoldSwapped(c.rounds[r][i], c.rounds[r][i + half], c.alphas[r], RoundTwiddle(u, r, i + half),
                  RoundTwiddle(u, r, i));
      assert (i + half) * Pow2(r) == Pow2(r) * (i + half);
    } else {
      assert i * Pow2(r) == Pow2(r) * i;
    }
  }

  /** Soundness under full querying: when the accepted queries cover the upper half of the first domain, every codeword
      behind the proof is the fold of the one before, with the challenge drawn after the roots up to it, and the final
      polynomial's values are the last fold. */
  lemma CoveredIsFolded(env: Environment, proof: FriProof, rounds: seq<seq<Zq>>, finalSize: nat, config: FriConfig,
                        u: Zq)
    requires |proof.slots| >= 1 && |rounds| == |proof.slots[0]| >= 1 && finalSize >= 1
    requires LeavesOf(proof, rounds) && RoundSizes(rounds, |rounds| + FloorLog2(finalSize))
    requires finalSize == Pow2(FloorLog2(finalSize)) && IsRoot(u, |rounds| + FloorLog2(finalSize))
    requires Accepts(env, proof, finalSize, config, u)
    requires var roots, l := RootsOf(proof.slots[0]), |rounds| + FloorLog2(finalSize);
      Covers(Queries(env, config, roots, proof.nonce, finalSize, Pow2(l)), l)
    ensures var c := Claimed(env, proof, rounds);
      Chain(rounds, proof.final, c.alphas, u, |rounds| + FloorLog2(finalSize))
  {
    hide FloorLog2, Pow2, VerifierFold, LookedUp, Accepts, AllOpened, LeavesOf, IsRoot, FoldedAt, Queries, AlphasOf;
    var c, l := Claimed(env, proof, rounds), |rounds| + FloorLog2(finalSize);
    AcceptsExactly(env, proof, rounds, finalSize, config, u);
    var queries := Queries(env, config, c.roots, proof.nonce, finalSize, Pow2(l));
    forall r: nat, i: nat | r < |rounds| && i < Pow2(l - r - 1)
      ensures FoldedAt(rounds, proof.final, c.alphas, u, l, r, i)
    {
      QueryOfPair(l, r, i);
      assert Pow2(l - 1) + i in queries;
      FoundIsFolded(c, u, l, r, i);
    }
  }

  /** An environment that tells one history of roots, and one way of drawing queries, from all others. */
  function Telling(roots: seq<int>, nonce: nat, min: nat, max: nat): Environment {
    Environment(v => 0, (v, i) => MerkleProof(0, 0, 0, []), p => true,
                h => if h == roots then 1 else 0,
                (h, bits) => NotMined, (h, bits, n) => true,
                (h, n, a, b, i) => if h == roots && n == nonce && a == min && b == max then 1 else 0)
  }

  /** Whatever the transcript does, both lists of roots give the same challenge in round r. */
  ghost predicate SameChallenge(roots: seq<int>, roots': seq<int>, r: nat)
    requires r < |roots| && r < |roots'|
  {
    forall env: Environment :: AlphasOf(env, roots)[r] == AlphasOf(env, roots')[r]
  }

  /** The challenge of a round depends on the roots up to and including the round's own. */
  lemma ChallengeDependsOn(roots: seq<int>, roots': seq<int>, r: nat)
    requires r < |roots| && r < |roots'|
    ensures SameChallenge(roots, roots', r) <==> roots[..r + 1] == roots'[..r + 1]
  {
    if SameChallenge(roots, roots', r) {
      var env := Telling(roots[..r + 1], 0, 0, 0);
      assert AlphasOf(env, roots)[r] == AlphasOf(env, roots')[r];
    }
  }

  ghost predicate SameQueries(config: FriConfig, roots: seq<int>, nonce: nat, min: nat, max: nat, roots': seq<int>,
                              nonce': nat, min': nat, max': nat) {
    forall env: Environment ::
      Queries(env, config, roots, nonce, min, max) == Queries(env, config, roots', nonce', min', max')
  }

  /** The queries depend on all roots, on the range, and with proof of work on the nonce. */
  lemma QueriesDependOn(config: FriConfig, roots: seq<int>, nonce: nat, min: nat, max: nat, roots': seq<int>,
                        nonce': nat, min': nat, max': nat)
    requires config.nofQueries >= 1
    ensures SameQueries(config, roots, nonce, min, max, roots', nonce', min', max')
       <==> roots == roots' && min == min' && max == max' && (config.powBits != 0 ==> nonce == nonce')
  {
    if SameQueries(config, roots, nonce, min, max, roots', nonce', min', max') {
      var env := Telling(roots, if config.powBits == 0 then 0 else nonce, min, max);
      assert Queries(env, config, roots, nonce, min, max)[0] == Queries(env, config, roots', nonce', min', max')[0];
    }
  }
}
