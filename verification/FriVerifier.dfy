/** The verifier of folding proofs, and when it accepts an honest proof. */
module FriVerifier {
  import opened Residues
  import opened Products
  import opened Arrays
  import opened Powers
  import opened PowersOfTwo
  import opened Roots
  import opened NttDomains
  import opened Sums
  import opened FourierTransform
  import BitReverseInPlace
  import opened FriFolding
  import opened FriRuns
  import opened FriProver

  /** What the checks of one query look at in round r. */
  ghost predicate RoundAccepts(env: Environment, proof: FriProof, alphas: seq<Zq>, u: Zq, l: nat, nofRounds: nat,
                              q: nat, query: nat, r: nat)
    requires r < nofRounds <= l && |alphas| == nofRounds && |proof.final| >= 1
  {
    && 2 * q + 1 < |proof.slots| && r < |proof.slots[2 * q]| && r < |proof.slots[2 * q + 1]|
    && var leaf, sym := proof.slots[2 * q][r], proof.slots[2 * q + 1][r];
       var size := Pow2(l - r);
       && env.check(leaf) && env.check(sym)
       && leaf.index == query % size && sym.index == Sym(query, size)
       && var folded := FoldValue(leaf.leaf, sym.leaf, alphas[r], M(Pow(u, (query % size) * Pow2(r))));
          if r == nofRounds - 1 then proof.final[query % |proof.final|] == folded
          else r + 1 < |proof.slots[2 * q]| && proof.slots[2 * q][r + 1].leaf == folded
  }

  ghost predicate QueriesAccepted(env: Environment, proof: FriProof, alphas: seq<Zq>, u: Zq, l: nat, nofRounds: nat,
                              queries: seq<nat>)
    requires nofRounds <= l && |alphas| == nofRounds && |proof.final| >= 1
  {
    forall q: nat, r: nat :: q < |queries| && r < nofRounds ==> RoundAccepts(env, proof, alphas, u, l, nofRounds, q,
        queries[q], r)
  }

  /** Every query has its two rows, of the same number of slots. */
  ghost predicate Rectangular(proof: FriProof, nofQueries: nat) {
    && |proof.slots| >= 2 * nofQueries
    && forall i :: 0 <= i < |proof.slots| ==> |proof.slots[i]| == |proof.slots[0]|
  }

  datatype Verdict = Valid | Invalid | OutOfRange

  /** The checks of a query's round reach for a slot that is not there: one of its own, or the one of the next round
      after its own leaves have been found right. */
  ghost predicate SlotMissing(env: Environment, proof: FriProof, l: nat, nofRounds: nat, q: nat, query: nat, r: nat)
    requires r < nofRounds <= l
  {
    || 2 * q + 1 >= |proof.slots| || r >= |proof.slots[2 * q]| || r >= |proof.slots[2 * q + 1]|
    || var leaf, sym := proof.slots[2 * q][r], proof.slots[2 * q + 1][r];
       && r + 1 < nofRounds && r + 1 >= |proof.slots[2 * q]| && env.check(leaf) && env.check(sym)
       && leaf.index == query % Pow2(l - r) && sym.index == Sym(query, Pow2(l - r))
  }

  ghost predicate AcceptedBefore(env: Environment, proof: FriProof, alphas: seq<Zq>, u: Zq, l: nat, nofRounds: nat,
                                 queries: seq<nat>, q: nat, r: nat)
    requires nofRounds <= l && |alphas| == nofRounds && |proof.final| >= 1 && q < |queries|
  {
    && (forall j: nat, i: nat :: j < q && i < nofRounds ==>
          RoundAccepts(env, proof, alphas, u, l, nofRounds, j, queries[j], i))
    && (forall i: nat :: i < r && i < nofRounds ==>
          RoundAccepts(env, proof, alphas, u, l, nofRounds, q, queries[q], i))
  }

  /** The first check that is not passed is one that misses a slot. */
  ghost predicate Throws(env: Environment, proof: FriProof, alphas: seq<Zq>, u: Zq, l: nat, nofRounds: nat,
                         queries: seq<nat>)
    requires nofRounds <= l && |alphas| == nofRounds && |proof.final| >= 1
  {
    exists q: nat, r: nat ::
      && q < |queries| && r < nofRounds && SlotMissing(env, proof, l, nofRounds, q, queries[q], r)
      && AcceptedBefore(env, proof, alphas, u, l, nofRounds, queries, q, r)
  }

  /** In a proof with its two rows for every query, as long as the first one says, no slot is missing. */
  lemma RectangularHasSlots(env: Environment, proof: FriProof, l: nat, nofRounds: nat, q: nat, query: nat, r: nat)
    requires |proof.slots| >= 1 && nofRounds == |proof.slots[0]| && r < nofRounds <= l && Rectangular(proof, q + 1)
    ensures !SlotMissing(env, proof, l, nofRounds, q, query, r)
  {}

  /** The first check that fails decides whether the verifier throws. */
  lemma FirstFailure(env: Environment, proof: FriProof, alphas: seq<Zq>, u: Zq, l: nat, nofRounds: nat,
                     queries: seq<nat>, q: nat, r: nat)
    requires nofRounds <= l && |alphas| == nofRounds && |proof.final| >= 1 && q < |queries| && r < nofRounds
    requires AcceptedBefore(env, proof, alphas, u, l, nofRounds, queries, q, r)
    requires !RoundAccepts(env, proof, alphas, u, l, nofRounds, q, queries[q], r)
    ensures Throws(env, proof, alphas, u, l, nofRounds, queries) <==> SlotMissing(env, proof, l, nofRounds, q,
        queries[q],
        r)
  {
    hide RoundAccepts, SlotMissing;
    if q': nat, r': nat :|
      && q' < |queries| && r' < nofRounds && SlotMissing(env, proof, l, nofRounds, q', queries[q'], r')
      && AcceptedBefore(env, proof, alphas, u, l, nofRounds, queries, q', r')
    {
      MissingFails(env, proof, alphas, u, l, nofRounds, q', queries[q'], r');
      assert q' == q && r' == r;
    }
  }

  lemma MissingFails(env: Environment, proof: FriProof, alphas: seq<Zq>, u: Zq, l: nat, nofRounds: nat, q: nat,
                     query: nat, r: nat)
    requires r < nofRounds <= l && |alphas| == nofRounds && |proof.final| >= 1
    requires SlotMissing(env, proof, l, nofRounds, q, query, r)
    ensures !RoundAccepts(env, proof, alphas, u, l, nofRounds, q, query, r)
  {
    hide Pow, Pow2, FoldValue;
  }

  lemma AcceptedNoThrow(env: Environment, proof: FriProof, alphas: seq<Zq>, u: Zq, l: nat, nofRounds: nat,
                        queries: seq<nat>)
    requires nofRounds <= l && |alphas| == nofRounds && |proof.final| >= 1
    requires QueriesAccepted(env, proof, alphas, u, l, nofRounds, queries)
    ensures !Throws(env, proof, alphas, u, l, nofRounds, queries)
  {
    hide RoundAccepts, SlotMissing;
    if q: nat, r: nat :|
      && q < |queries| && r < nofRounds && SlotMissing(env, proof, l, nofRounds, q, queries[q], r)
      && AcceptedBefore(env, proof, alphas, u, l, nofRounds, queries, q, r)
    {
      MissingFails(env, proof, alphas, u, l, nofRounds, q, queries[q], r);
    }
  }

  /** The Merkle, index and collinearity checks of one query in one round. */
  method CheckRound(env: Environment, proof: FriProof, alphas: seq<Zq>, u: Zq, l: nat, nofRounds: nat, q: nat,
                    query: nat, r: nat)
    returns (outcome: Verdict)
    requires r < nofRounds <= l && |alphas| == nofRounds && |proof.final| >= 1
    ensures outcome.Valid? <==> RoundAccepts(env, proof, alphas, u, l, nofRounds, q, query, r)
    ensures outcome.OutOfRange? <==> SlotMissing(env, proof, l, nofRounds, q, query, r)
  {
    hide FoldValue, Pow, Pow2;
    if 2 * q + 1 >= |proof.slots| || r >= |proof.slots[2 * q]| || r >= |proof.slots[2 * q + 1]| {
      return Verdict.OutOfRange;
    }
    var leaf, sym := proof.slots[2 * q][r], proof.slots[2 * q + 1][r];
    if !env.check(leaf) || !env.check(sym) { return Invalid; }
    var size := Pow2(l - r);
    if leaf.index != query % size { return Invalid; }
    if sym.index != Sym(query, size) { return Invalid; }
    var folded := FoldValue(leaf.leaf, sym.leaf, alphas[r], M(Pow(u, (query % size) * Pow2(r))));
    if r == nofRounds - 1 {
      if proof.final[query % |proof.final|] != folded { return Invalid; }
    } else {
      if r + 1 >= |proof.slots[2 * q]| { return Verdict.OutOfRange; }
      if proof.slots[2 * q][r + 1].leaf != folded { return Invalid; }
    }
    return Valid;
  }

  method VerifyQueries(env: Environment, proof: FriProof, alphas: seq<Zq>, u: Zq, l: nat, nofRounds: nat,
                       queries: seq<nat>)
    returns (outcome: Verdict)
    requires nofRounds <= l && |alphas| == nofRounds && |proof.final| >= 1
    ensures outcome.Valid? <==> QueriesAccepted(env, proof, alphas, u, l, nofRounds, queries)
    ensures outcome.OutOfRange? <==> Throws(env, proof, alphas, u, l, nofRounds, queries)
  {
    hide RoundAccepts, SlotMissing, Throws;
    for q := 0 to |queries|
      invariant forall j: nat, r: nat :: j < q && r < nofRounds ==>
        RoundAccepts(env, proof, alphas, u, l, nofRounds, j, queries[j], r)
    {
      for r := 0 to nofRounds
        invariant AcceptedBefore(env, proof, alphas, u, l, nofRounds, queries, q, r)
      {
        var o := CheckRound(env, proof, alphas, u, l, nofRounds, q, queries[q], r);
        if !o.Valid? {
          FirstFailure(env, proof, alphas, u, l, nofRounds, queries, q, r);
          return o;
        }
      }
    }
    AcceptedNoThrow(env, proof, alphas, u, l, nofRounds, queries);
    return Valid;
  }

  /** The roots that the proof carries, read from its first row. */
  function RootsOf(row: seq<MerkleProof>): (roots: seq<int>)
    ensures |roots| == |row| && forall r :: 0 <= r < |row| ==> roots[r] == row[r].root
  {
    seq(|row|, r requires 0 <= r < |row| => row[r].root)
  }

  function AlphasOf(env: Environment, roots: seq<int>): (alphas: seq<Zq>)
    ensures |alphas| == |roots| && forall r :: 0 <= r < |roots| ==> alphas[r] == env.challenge(roots[..r + 1])
  {
    seq(|roots|, r requires 0 <= r < |roots| => env.challenge(roots[..r + 1]))
  }

  /** With proof of work the nonce in the proof must pass. */
  predicate NoncePasses(env: Environment, config: FriConfig, roots: seq<int>, nonce: nat) {
    config.powBits != 0 ==> env.solved(roots, config.powBits, nonce)
  }

  /** What the verifier checks of a whole proof. */
  ghost predicate Accepts(env: Environment, proof: FriProof, finalSize: nat, config: FriConfig, u: Zq)
    requires |proof.slots| >= 1 && finalSize >= 1
  {
    && |proof.final| == finalSize
    && var roots := RootsOf(proof.slots[0]);
       var l := |roots| + FloorLog2(finalSize);
       && NoncePasses(env, config, roots, proof.nonce)
       && QueriesAccepted(env, proof, AlphasOf(env, roots), u, l, |roots|,
                          Queries(env, config, roots, proof.nonce, finalSize, Pow2(l)))
  }

  /** What the verifier leaves in the caller's flag: it clears the flag when the size is wrong and sets it when all
      checks pass, and returns with the flag as it found it when the nonce or a query fails. */
  ghost predicate Reported(env: Environment, proof: FriProof, finalSize: nat, config: FriConfig, u: Zq, valid0: bool)
    requires |proof.slots| >= 1 && finalSize >= 1
  {
    |proof.final| == finalSize && (Accepts(env, proof, finalSize, config, u) || valid0)
  }

  /** The verifier throws exactly when size and nonce are right and the first check not passed misses a slot. */
  ghost predicate Thrown(env: Environment, proof: FriProof, finalSize: nat, config: FriConfig, u: Zq)
    requires |proof.slots| >= 1 && finalSize >= 1
  {
    && |proof.final| == finalSize
    && var roots := RootsOf(proof.slots[0]);
       var l := |roots| + FloorLog2(finalSize);
       && NoncePasses(env, config, roots, proof.nonce)
       && Throws(env, proof, AlphasOf(env, roots), u, l, |roots|,
                 Queries(env, config, roots, proof.nonce, finalSize, Pow2(l)))
  }

  /** Complete proofs are never thrown on. */
  lemma RectangularNotThrown(env: Environment, proof: FriProof, finalSize: nat, config: FriConfig, u: Zq)
    requires |proof.slots| >= 1 && finalSize >= 1 && Rectangular(proof, config.nofQueries)
    ensures !Thrown(env, proof, finalSize, config, u)
  {
    hide FloorLog2, Pow2, SlotMissing, AcceptedBefore;
    if Thrown(env, proof, finalSize, config, u) {
      var roots := RootsOf(proof.slots[0]);
      var l := |roots| + FloorLog2(finalSize);
      var queries := Queries(env, config, roots, proof.nonce, finalSize, Pow2(l));
      var q: nat, r: nat :|
        && q < |queries| && r < |roots| && SlotMissing(env, proof, l, |roots|, q, queries[q], r)
        && AcceptedBefore(env, proof, AlphasOf(env, roots), u, l, |roots|, queries, q, r);
      RectangularHasSlots(env, proof, l, |roots|, q, queries[q], r);
    }
  }

  /** The verifier: the size of the final polynomial, the challenges from the roots, the nonce, then the queries.
      valid0 is the caller's flag on entry; a missing slot is an exception. */
  method Verify(env: Environment, proof: FriProof, finalSize: nat, config: FriConfig, u: Zq, valid0: bool)
    returns (thrown: bool, valid: bool)
    requires |proof.slots| >= 1 && finalSize >= 1
    ensures valid <==> Reported(env, proof, finalSize, config, u, valid0)
    ensures |proof.final| != finalSize ==> !valid && !thrown
    ensures Accepts(env, proof, finalSize, config, u) ==> valid && !thrown
    ensures |proof.final| == finalSize && !Accepts(env, proof, finalSize, config, u) ==> valid == valid0
    ensures thrown <==> Thrown(env, proof, finalSize, config, u)
  {
    hide FloorLog2, Pow2, QueriesAccepted, Throws;
    valid := valid0;
    if |proof.final| != finalSize { return false, false; }
    var nofRounds := |proof.slots[0]|;
    var l := nofRounds + FloorLog2(finalSize);
    var roots := RootsOf(proof.slots[0]);
    var alphas: seq<Zq> := [];
    for r := 0 to nofRounds
      invariant |alphas| == r && forall j :: 0 <= j < r ==> alphas[j] == env.challenge(roots[..j + 1])
    {
      alphas := alphas + [env.challenge(roots[..r + 1])];
    }
    assert alphas == AlphasOf(env, roots);
    if config.powBits != 0 && !env.solved(roots, config.powBits, proof.nonce) { return false, valid; }
    var queries := Queries(env, config, roots, proof.nonce, finalSize, Pow2(l));
    var outcome := VerifyQueries(env, proof, alphas, u, l, nofRounds, queries);
    if !outcome.Valid? { return outcome.OutOfRange?, valid; }
    return false, true;
  }

  /** A right-sized proof that no challenge, nonce or query can save: it opens the wrong leaf. */
  function WrongLeaf(env: Environment, finalSize: nat, config: FriConfig): (proof: FriProof)
    requires finalSize >= 1 && config.nofQueries >= 1
    ensures |proof.final| == finalSize && |proof.slots| == 2 * config.nofQueries && Rectangular(proof,
        config.nofQueries)
  {
    var size := Pow2(1 + FloorLog2(finalSize));
    var query := Queries(env, config, [0], 0, finalSize, size)[0];
    var slot := MerkleProof(0, 0, query % size + 1, []);
    FriProof(seq(2 * config.nofQueries, i => [slot]), Vec<Zq>(finalSize, i => 0), 0)
  }

  lemma WrongLeafRejected(env: Environment, finalSize: nat, config: FriConfig, u: Zq)
    requires finalSize >= 1 && config.nofQueries >= 1
    ensures !Accepts(env, WrongLeaf(env, finalSize, config), finalSize, config, u)
  {
    hide FloorLog2, Pow2, FoldValue, Pow;
    var proof := WrongLeaf(env, finalSize, config);
    var roots, l := RootsOf(proof.slots[0]), 1 + FloorLog2(finalSize);
    assert roots == [0];
    var queries := Queries(env, config, roots, 0, finalSize, Pow2(l));
    assert l - 0 == l && proof.slots[2 * 0][0].index == queries[0] % Pow2(l) + 1;
    assert !RoundAccepts(env, proof, AlphasOf(env, roots), u, l, 1, 0, queries[0], 0);
  }

  /** The flag is the verdict on every proof if and only if the caller cleared it before the call. */
  lemma FlagIsVerdict(env: Environment, finalSize: nat, config: FriConfig, u: Zq, valid0: bool)
    requires finalSize >= 1 && config.nofQueries >= 1
    ensures (forall proof: FriProof :: |proof.slots| >= 1 ==>
               (Reported(env, proof, finalSize, config, u, valid0) <==> Accepts(env, proof, finalSize, config, u)))
       <==> !valid0
  {
    hide QueriesAccepted, FloorLog2, Pow2, WrongLeaf;
    if valid0 {
      WrongLeafRejected(env, finalSize, config, u);
      assert Reported(env, WrongLeaf(env, finalSize, config), finalSize, config, u, valid0);
    }
  }

  /** The entry of a query and its partner, on either side of the middle. */
  lemma SymIndex(query: nat, half: nat)
    requires half >= 1
    ensures var e := query % (2 * half); Sym(query, 2 * half) == if e < half then e + half else e - half
    ensures query % half == if query % (2 * half) < half then query % (2 * half) else query % (2 * half) - half
  {
    var n := 2 * half;
    var k, e := query / n, query % n;
    assert query == k * n + e;
    Associate(k, 2, half);
    if e < half {
      BitReverseInPlace.QuotientUnique(query + half, n, k, e + half);
      BitReverseInPlace.QuotientUnique(query, half, k * 2, e);
    } else {
      Distribute(n, k + 1, k, 1);
      BitReverseInPlace.QuotientUnique(query + half, n, k + 1, e - half);
      Distribute(half, k * 2 + 1, k * 2, 1);
      BitReverseInPlace.QuotientUnique(query, half, k * 2 + 1, e - half);
    }
  }

  lemma HalfTurn(v: int, l: nat)
    requires IsRoot(v, l) && l >= 1
    ensures M(Pow(v, Pow2(l - 1))) == M(-1)
  {}

  /** Half a domain further on the twiddle changes its sign. */
  lemma TwiddleSign(v: int, l: nat, r: nat, i: nat)
    requires IsRoot(v, l) && r < l
    ensures M(RoundTwiddle(v, r, i + Pow2(l - r - 1)) + RoundTwiddle(v, r, i)) == 0
  {
    hide Pow, Pow2, M;
    var h := Pow2(l - r - 1);
    HalfTurn(v, l);
    MZero();
    Distribute(Pow2(r), i + h, i, h);
    Pow2Add(r, l - r - 1);
    NonNegative(Pow2(r), i);
    var e := Pow2(r) * i;
    PowAdd(v, e, Pow2(l - 1));
    CongScale(Pow(v, Pow2(l - 1)), -1, Pow(v, e));
    MTwice(Pow(v, e + Pow2(l - 1)));
    MTwice(Pow(v, e));
    CongAdd(RoundTwiddle(v, r, i + h), -Pow(v, e), RoundTwiddle(v, r, i), Pow(v, e));
  }

  /** What the verifier computes in round r from a query's entry and its partner, u being its inverse root. */
  function VerifierFold(c: Committed, u: Zq, l: nat, r: nat, query: nat): Zq
    requires Sized(c.rounds, c.final, l) && |c.alphas| == |c.rounds| && r < |c.rounds|
  {
    SizedAt(c.rounds, c.final, l, r);
    FoldValue(c.rounds[r][query % Pow2(l - r)], c.rounds[r][Sym(query, Pow2(l - r))], c.alphas[r],
              M(Pow(u, (query % Pow2(l - r)) * Pow2(r))))
  }

  /** What the verifier compares it with: the next codeword's entry, or the final polynomial's modulo its size. */
  function LookedUp(c: Committed, l: nat, r: nat, query: nat): Zq
    requires Sized(c.rounds, c.final, l) && r < |c.rounds|
  {
    SizedAt(c.rounds, c.final, l, r);
    if r + 1 < |c.rounds| then c.rounds[r + 1][query % Pow2(l - r - 1)] else c.final[query % |c.final|]
  }

  /** The entry that the prover's fold left for a query in round r. */
  function FoldedEntry(c: Committed, l: nat, r: nat, query: nat): Zq
    requires Sized(c.rounds, c.final, l) && r < |c.rounds|
  {
    SizedAt(c.rounds, c.final, l, r);
    Next(c.rounds, c.final, r)[query % Pow2(l - r - 1)]
  }

  /** The verifier's twiddle may stand for the prover's: the two powers agree as far as the entries and the challenge
      can tell. */
  ghost predicate TwiddleFits(c: Committed, u: Zq, v: int, l: nat, r: nat, query: nat)
    requires Sized(c.rounds, c.final, l) && |c.alphas| == |c.rounds| && r < |c.rounds|
  {
    SizedAt(c.rounds, c.final, l, r);
    var e := (query % Pow2(l - r)) * Pow2(r);
    M(c.alphas[r] * ((c.rounds[r][query % Pow2(l - r)] as int - c.rounds[r][Sym(query, Pow2(l - r))])
                     * (Pow(u, e) - Pow(v, e)))) == 0
  }

  /** The verifier's arithmetic with the prover's root gives the folded entry, whichever half the query falls in. */
  lemma FoldChecked(c: Committed, v: int, u: Zq, l: nat, r: nat, query: nat)
    requires Chain(c.rounds, c.final, c.alphas, v, l) && r < |c.rounds| && IsRoot(v, l) && M(u) == M(v)
    ensures VerifierFold(c, u, l, r, query) == FoldedEntry(c, l, r, query)
  {
    hide Pow, FoldValue, Sym, IsRoot;
    SizedAt(c.rounds, c.final, l, r);
    var size, half := Pow2(l - r), Pow2(l - r - 1);
    var e, i := query % size, query % half;
    SymIndex(query, half);
    assert e * Pow2(r) == Pow2(r) * e;
    PowCong(u, v, e * Pow2(r));
    assert FoldedAt(c.rounds, c.final, c.alphas, v, l, r, i);
    if e >= half {
      TwiddleSign(v, l, r, i);
      FoldSwapped(c.rounds[r][i], c.rounds[r][i + half], c.alphas[r], RoundTwiddle(v, r, e), RoundTwiddle(v, r, i));
    }
  }

  /** Two twiddles give the same fold exactly when the challenge times the difference does not see them apart. */
  lemma FoldGap(a: Zq, b: Zq, alpha: Zq, x: int, y: int)
    ensures FoldValue(a, b, alpha, M(x)) == FoldValue(a, b, alpha, M(y))
       <==> M(alpha * ((a as int - b) * (x - y))) == 0
  {
    var even, d := EvenPart(a, b), M(M(a - b) * HALF);
    CombinedIs(a, b, alpha, x);
    CombinedIs(a, b, alpha, y);
    var s, t := alpha * (((a as int - b) * HALF) * x), alpha * (((a as int - b) * HALF) * y);
    assert FoldValue(a, b, alpha, M(x)) == FoldValue(a, b, alpha, M(y)) <==> M(s - t) == 0 by {
      CongZero(even + s, even + t);
    }
    HalfOut(a as int - b, alpha, x, y);
    HalfIsUnit(alpha * ((a as int - b) * (x - y)));
  }

  lemma CombinedIs(a: Zq, b: Zq, alpha: Zq, x: int)
    ensures FoldValue(a, b, alpha, M(x)) == M(EvenPart(a, b) + alpha * (((a as int - b) * HALF) * x))
  {
    hide M;
    var d := (a as int - b) * HALF;
    MMulLeft(a as int - b, HALF);
    MTwice(d);
    MTwice(x);
    CongMul(M(d), d, M(x), x);
    MTwice(d * x);
    CongScale(M(d * x), d * x, alpha);
    MTwice(alpha * M(d * x));
    CongAdd(EvenPart(a, b), EvenPart(a, b), M(alpha * M(d * x)), alpha * (d * x));
  }

  lemma HalfOut(d: int, alpha: int, x: int, y: int)
    ensures alpha * ((d * HALF) * x) - alpha * ((d * HALF) * y) == HALF * (alpha * (d * (x - y)))
  {
    assert (d * HALF) * x == HALF * (d * x) && (d * HALF) * y == HALF * (d * y);
    Distribute(d, x, x - y, y);
    Associate(alpha, HALF, d * x);
    Associate(alpha, HALF, d * y);
    ScaledDifference(alpha, d * x, d * y);
  }

  lemma ScaledDifference(alpha: int, x: int, y: int)
    ensures alpha * (HALF * x) - alpha * (HALF * y) == HALF * (alpha * (x - y))
  {
    assert alpha * (HALF * x) == HALF * (alpha * x) && alpha * (HALF * y) == HALF * (alpha * y);
    assert alpha * (x - y) == alpha * x - alpha * y;
  }

  lemma HalfIsUnit(x: int)
    ensures M(HALF * x) == 0 <==> M(x) == 0
  {
    HalfTwice(x);
    MMulLeft(HALF * x, 2);
    MMulLeft(x, HALF);
    assert HALF * (2 * x) == (HALF * x) * 2 && x * HALF == HALF * x;
  }

  /** With a root of its own the verifier still computes the folded entry exactly when the twiddle fits. */
  lemma FoldCheckedIff(c: Committed, v: int, u: Zq, l: nat, r: nat, query: nat)
    requires Chain(c.rounds, c.final, c.alphas, v, l) && r < |c.rounds| && IsRoot(v, l)
    ensures VerifierFold(c, u, l, r, query) == FoldedEntry(c, l, r, query) <==> TwiddleFits(c, u, v, l, r, query)
  {
    hide Pow, FoldValue, Sym, IsRoot;
    SizedAt(c.rounds, c.final, l, r);
    FoldChecked(c, v, M(v), l, r, query);
    InRange(c, l, query, r);
    var size := Pow2(l - r);
    var e := (query % size) * Pow2(r);
    PowCong(M(v), v, e);
    FoldGap(c.rounds[r][query % size], c.rounds[r][Sym(query, size)], c.alphas[r], Pow(u, e), Pow(v, e));
  }

  lemma TreeOpens(env: Environment, values: seq<Zq>, i: nat)
    requires TreesWork(env) && i < |values|
    ensures env.open(values, i).root == env.commit(values) && env.open(values, i).leaf == values[i]
    ensures env.open(values, i).index == i && env.check(env.open(values, i))
  {}

  lemma OpenedAt(env: Environment, c: Committed, l: nat, query: nat, row: seq<MerkleProof>,
                 symRow: seq<MerkleProof>, r: nat)
    requires TreesWork(env) && Opened(env, c, l, query, row, symRow) && r < |c.rounds| <= l
    requires query % Pow2(l - r) < |c.rounds[r]| && Sym(query, Pow2(l - r)) < |c.rounds[r]|
    ensures |row| == |symRow| == |c.rounds| && env.check(row[r]) && env.check(symRow[r])
    ensures row[r].index == query % Pow2(l - r) && row[r].leaf == c.rounds[r][query % Pow2(l - r)]
    ensures symRow[r].index == Sym(query, Pow2(l - r)) && symRow[r].leaf == c.rounds[r][Sym(query, Pow2(l - r))]
    ensures row[r].root == env.commit(c.rounds[r])
  {
    hide TreesWork, Sym, Pow2;
    TreeOpens(env, c.rounds[r], query % Pow2(l - r));
    TreeOpens(env, c.rounds[r], Sym(query, Pow2(l - r)));
  }

  /** The checks of an honest proof's round come down to the fold being found. */
  lemma HonestRound(env: Environment, c: Committed, proof: FriProof, u: Zq, l: nat, q: nat, query: nat, r: nat)
    requires TreesWork(env) && Sized(c.rounds, c.final, l) && |c.alphas| == |c.rounds|
    requires r < |c.rounds| && proof.final == c.final
    requires 2 * q + 1 < |proof.slots| && Opened(env, c, l, query, proof.slots[2 * q], proof.slots[2 * q + 1])
    ensures |c.rounds| <= l && |proof.final| >= 1
    ensures RoundAccepts(env, proof, c.alphas, u, l, |c.rounds|, q, query, r)
       <==> VerifierFold(c, u, l, r, query) == LookedUp(c, l, r, query)
  {
    hide Pow, FoldValue, Sym, Pow2, Opened, TreesWork;
    InRange(c, l, query, r);
    OpenedAt(env, c, l, query, proof.slots[2 * q], proof.slots[2 * q + 1], r);
    if r + 1 < |c.rounds| {
      InRange(c, l, query, r + 1);
      OpenedAt(env, c, l, query, proof.slots[2 * q], proof.slots[2 * q + 1], r + 1);
      assert l - (r + 1) == l - r - 1;
    }
  }

  /** Every fold that the verifier computes for the queries is the one it finds. */
  ghost predicate FoldsFound(c: Committed, u: Zq, l: nat, queries: seq<nat>) {
    && Sized(c.rounds, c.final, l) && |c.alphas| == |c.rounds|
    && forall q: nat, r: nat :: q < |queries| && r < |c.rounds| ==>
         VerifierFold(c, u, l, r, queries[q]) == LookedUp(c, l, r, queries[q])
  }

  /** The verifier's twiddles may stand for the prover's on every query. */
  ghost predicate TwiddlesFit(c: Committed, u: Zq, v: int, l: nat, queries: seq<nat>) {
    && Sized(c.rounds, c.final, l) && |c.alphas| == |c.rounds|
    && forall q: nat, r: nat :: q < |queries| && r < |c.rounds| ==> TwiddleFits(c, u, v, l, r, queries[q])
  }

  /** Looking a query up modulo the final size and modulo 2^d finds the same value. */
  ghost predicate LookupsAgree(final: seq<Zq>, queries: seq<nat>, d: nat)
    requires |final| >= Pow2(d)
  {
    forall q: nat :: q < |queries| ==> final[queries[q] % |final|] == final[queries[q] % Pow2(d)]
  }

  /** Whatever roots the two sides use, an honest proof is accepted exactly when every fold is found. */
  lemma HonestAccepted(env: Environment, input: seq<Zq>, c: Committed, proof: FriProof, v: int, u: Zq,
                       nofRounds: nat, finalSize: nat, config: FriConfig)
    requires TreesWork(env) && MiningWorks(env) && |proof.slots| >= 1
    requires HonestProof(env, input, c, proof, v, nofRounds, finalSize, config)
    ensures var l := nofRounds + FloorLog2(finalSize);
      (Accepts(env, proof, finalSize, config, u) <==>
       FoldsFound(c, u, l, Queries(env, config, c.roots, proof.nonce, finalSize, Pow2(l))))
  {
    hide Chain, Sized, FloorLog2, Pow2, RoundAccepts, VerifierFold, LookedUp, Opened, TreesWork, MiningWorks;
    var l := nofRounds + FloorLog2(finalSize);
    var queries := Queries(env, config, c.roots, proof.nonce, finalSize, Pow2(l));
    ChainSizes(c.rounds, c.final, c.alphas, v, l);
    HonestTranscript(env, c, proof, l, queries);
    NonceFound(env, c.roots, config, proof.nonce);
    forall q: nat, r: nat | q < |queries| && r < nofRounds
      ensures RoundAccepts(env, proof, c.alphas, u, l, nofRounds, q, queries[q], r)
         <==> VerifierFold(c, u, l, r, queries[q]) == LookedUp(c, l, r, queries[q])
    {
      assert Opened(env, c, l, queries[q], proof.slots[2 * q], proof.slots[2 * q + 1]);
      HonestRound(env, c, proof, u, l, q, queries[q], r);
    }
    AllRounds(env, proof, c, u, l, queries);
  }

  lemma NonceFound(env: Environment, roots: seq<int>, config: FriConfig, nonce: nat)
    requires MiningWorks(env) && (config.powBits != 0 ==> env.solve(roots, config.powBits) == Ok(nonce))
    ensures NoncePasses(env, config, roots, nonce)
  {}

  lemma AllRounds(env: Environment, proof: FriProof, c: Committed, u: Zq, l: nat, queries: seq<nat>)
    requires Sized(c.rounds, c.final, l) && |c.alphas| == |c.rounds| <= l && |proof.final| >= 1
    requires forall q: nat, r: nat :: q < |queries| && r < |c.rounds| ==>
      (RoundAccepts(env, proof, c.alphas, u, l, |c.rounds|, q, queries[q], r) <==>
       VerifierFold(c, u, l, r, queries[q]) == LookedUp(c, l, r, queries[q]))
    ensures QueriesAccepted(env, proof, c.alphas, u, l, |c.rounds|, queries) <==> FoldsFound(c, u, l, queries)
  {
    hide RoundAccepts, Pow2, VerifierFold, LookedUp, Sized;
  }

  /** With the prover's root an honest proof is accepted exactly when the last lookup of every query, taken modulo the
      size of the final polynomial, finds what the fold left at the query modulo the last domain's size. */
  lemma SameRootAccepted(env: Environment, input: seq<Zq>, c: Committed, proof: FriProof, v: int, u: Zq,
                         nofRounds: nat, finalSize: nat, config: FriConfig)
    requires TreesWork(env) && MiningWorks(env) && |proof.slots| >= 1
    requires HonestProof(env, input, c, proof, v, nofRounds, finalSize, config)
    requires IsRoot(v, nofRounds + FloorLog2(finalSize)) && M(u) == M(v)
    ensures Accepts(env, proof, finalSize, config, u) <==>
      LookupsAgree(c.final, Queries(env, config, c.roots, proof.nonce, finalSize,
                                    Pow2(nofRounds + FloorLog2(finalSize))),
                   FloorLog2(finalSize))
  {
    hide *;
    var d, l := FloorLog2(finalSize), nofRounds + FloorLog2(finalSize);
    HonestParts(env, input, c, proof, v, nofRounds, finalSize, config);
    HonestAccepted(env, input, c, proof, v, u, nofRounds, finalSize, config);
    var queries := Queries(env, config, c.roots, proof.nonce, finalSize, Pow2(l));
    forall q: nat, r: nat | q < |queries| && r < |c.rounds|
      ensures VerifierFold(c, u, l, r, queries[q]) == LookedUp(c, l, r, queries[q])
         <==> (r < nofRounds - 1 || c.final[queries[q] % |c.final|] == c.final[queries[q] % Pow2(d)])
    {
      FoldChecked(c, v, u, l, r, queries[q]);
      EntryFound(c, l, r, d, queries[q]);
    }
    LastRounds(c, u, l, queries, d);
  }

  /** Before the last round the folded entry is looked up; in the last one the lookup is modulo the final size. */
  lemma EntryFound(c: Committed, l: nat, r: nat, d: nat, query: nat)
    requires Sized(c.rounds, c.final, l) && r < |c.rounds| && l == |c.rounds| + d && |c.final| >= Pow2(d)
    ensures r + 1 < |c.rounds| ==> FoldedEntry(c, l, r, query) == LookedUp(c, l, r, query)
    ensures r + 1 == |c.rounds| ==> FoldedEntry(c, l, r, query) == c.final[query % Pow2(d)]
    ensures r + 1 == |c.rounds| ==> LookedUp(c, l, r, query) == c.final[query % |c.final|]
  {
    hide Pow2;
  }

  lemma LastRounds(c: Committed, u: Zq, l: nat, queries: seq<nat>, d: nat)
    requires Sized(c.rounds, c.final, l) && |c.alphas| == |c.rounds| >= 1 && |c.final| >= Pow2(d)
    requires forall q: nat, r: nat :: q < |queries| && r < |c.rounds| ==>
      (VerifierFold(c, u, l, r, queries[q]) == LookedUp(c, l, r, queries[q]) <==>
       (r < |c.rounds| - 1 || c.final[queries[q] % |c.final|] == c.final[queries[q] % Pow2(d)]))
    ensures FoldsFound(c, u, l, queries) <==> LookupsAgree(c.final, queries, d)
  {
    hide VerifierFold, LookedUp, Pow2, Sized;
    if FoldsFound(c, u, l, queries) {
      forall q: nat | q < |queries| ensures c.final[queries[q] % |c.final|] == c.final[queries[q] % Pow2(d)] {
        var last := |c.rounds| - 1;
        assert VerifierFold(c, u, l, last, queries[q]) == LookedUp(c, l, last, queries[q]);
      }
    }
  }

  /** With a final polynomial of a power of two entries an honest proof is accepted exactly when the verifier's
      twiddles fit; with the prover's own root they always do, whatever the queries. */
  lemma PowerOfTwoAccepted(env: Environment, input: seq<Zq>, c: Committed, proof: FriProof, v: int, u: Zq,
                           nofRounds: nat, finalSize: nat, config: FriConfig)
    requires TreesWork(env) && MiningWorks(env) && |proof.slots| >= 1
    requires HonestProof(env, input, c, proof, v, nofRounds, finalSize, config)
    requires IsRoot(v, nofRounds + FloorLog2(finalSize)) && finalSize == Pow2(FloorLog2(finalSize))
    ensures var l := nofRounds + FloorLog2(finalSize);
      (Accepts(env, proof, finalSize, config, u) <==>
       TwiddlesFit(c, u, v, l, Queries(env, config, c.roots, proof.nonce, finalSize, Pow2(l))))
    ensures M(u) == M(v) ==> Accepts(env, proof, finalSize, config, u)
  {
    hide *;
    var d, l := FloorLog2(finalSize), nofRounds + FloorLog2(finalSize);
    HonestParts(env, input, c, proof, v, nofRounds, finalSize, config);
    HonestAccepted(env, input, c, proof, v, u, nofRounds, finalSize, config);
    var queries := Queries(env, config, c.roots, proof.nonce, finalSize, Pow2(l));
    forall q: nat, r: nat | q < |queries| && r < |c.rounds|
      ensures VerifierFold(c, u, l, r, queries[q]) == LookedUp(c, l, r, queries[q])
         <==> TwiddleFits(c, u, v, l, r, queries[q])
    {
      FoldCheckedIff(c, v, u, l, r, queries[q]);
      EntryFound(c, l, r, d, queries[q]);
    }
    FoundIffFit(c, u, v, l, queries);
    if M(u) == M(v) {
      SameRootAccepted(env, input, c, proof, v, u, nofRounds, finalSize, config);
      AgreeAtPower(c.final, queries, d);
    }
  }

  lemma FoundIffFit(c: Committed, u: Zq, v: int, l: nat, queries: seq<nat>)
    requires Sized(c.rounds, c.final, l) && |c.alphas| == |c.rounds|
    requires forall q: nat, r: nat :: q < |queries| && r < |c.rounds| ==>
      (VerifierFold(c, u, l, r, queries[q]) == LookedUp(c, l, r, queries[q]) <==> TwiddleFits(c, u, v, l, r,
          queries[q]))
    ensures FoldsFound(c, u, l, queries) <==> TwiddlesFit(c, u, v, l, queries)
  {
    hide VerifierFold, LookedUp, Sized, TwiddleFits;
  }

  lemma AgreeAtPower(final: seq<Zq>, queries: seq<nat>, d: nat)
    requires |final| == Pow2(d)
    ensures LookupsAgree(final, queries, d)
  {}

  /** With another root the verifier rejects honest proofs: that of X, as soon as a query is drawn whose power tells
      the two roots apart under the first challenge. */
  lemma OtherRootRejected(env: Environment, input: seq<Zq>, c: Committed, proof: FriProof, w: int, v: int, u: Zq,
                          nofRounds: nat, finalSize: nat, config: FriConfig, q: nat)
    requires TreesWork(env) && MiningWorks(env) && |proof.slots| >= 1 && q < config.nofQueries
    requires HonestProof(env, input, c, proof, v, nofRounds, finalSize, config)
    requires IsRoot(w, nofRounds + FloorLog2(finalSize)) && M(w * v) == 1 && finalSize == Pow2(FloorLog2(finalSize))
    requires Codeword(input, Pow2(nofRounds + FloorLog2(finalSize)), w, Monomial(1))
    requires |c.alphas| >= 1
    requires var l := nofRounds + FloorLog2(finalSize);
      var e := Queries(env, config, c.roots, proof.nonce, finalSize, Pow2(l))[q] % Pow2(l);
      M(c.alphas[0] * (Pow(u, e) - Pow(v, e))) != 0
    ensures !Accepts(env, proof, finalSize, config, u)
  {
    hide *;
    var l := nofRounds + FloorLog2(finalSize);
    var queries := Queries(env, config, c.roots, proof.nonce, finalSize, Pow2(l));
    HonestParts(env, input, c, proof, v, nofRounds, finalSize, config);
    RootInverse(w, v, l);
    PowerOfTwoAccepted(env, input, c, proof, v, u, nofRounds, finalSize, config);
    if TwiddlesFit(c, u, v, l, queries) {
      FitsAt(c, u, v, l, queries, q, 0);
      TwiddlesTold(c, u, v, w, l, queries[q]);
    }
  }

  lemma FitsAt(c: Committed, u: Zq, v: int, l: nat, queries: seq<nat>, q: nat, r: nat)
    requires Sized(c.rounds, c.final, l) && |c.alphas| == |c.rounds|
    requires TwiddlesFit(c, u, v, l, queries) && q < |queries| && r < |c.rounds|
    ensures TwiddleFits(c, u, v, l, r, queries[q])
  {}

  /** The two entries of X differ by twice a power of the root, so that a fitting twiddle agrees under the challenge. */
  lemma TwiddlesTold(c: Committed, u: Zq, v: int, w: int, l: nat, query: nat)
    requires Sized(c.rounds, c.final, l) && |c.alphas| == |c.rounds| >= 1 && IsRoot(w, l) && M(w * v) == 1
    requires Codeword(c.rounds[0], Pow2(l), w, Monomial(1)) && TwiddleFits(c, u, v, l, 0, query)
    ensures M(c.alphas[0] * (Pow(u, query % Pow2(l)) - Pow(v, query % Pow2(l)))) == 0
  {
    hide M, Pow, Dft, IsRoot, Monomial, Sym;
    SizedAt(c.rounds, c.final, l, 0);
    assert Pow2(0) == 1 && l - 0 == l;
    var e, s := query % Pow2(l), Sym(query, Pow2(l));
    SymIndex(query, Pow2(l - 1));
    ValuesOfX(w, Pow2(l), Monomial(1), e);
    ValuesOfX(w, Pow2(l), Monomial(1), s);
    OppositePower(w, l, e, s);
    var a, b: Zq := c.rounds[0][e], c.rounds[0][s];
    assert e * Pow2(0) == e;
    var d := Pow(u, e) - Pow(v, e);
    MTwice(Pow(w, e));
    MTwice(Pow(w, s));
    CongSub(a, Pow(w, e), b, -Pow(w, e));
    CongMul(a as int - b, 2 * Pow(w, e), d, d);
    CongScale((a as int - b) * d, (2 * Pow(w, e)) * d, c.alphas[0]);
    MZero();
    PowerCancels(w, v, e, c.alphas[0], d);
  }

  lemma OppositePower(w: int, l: nat, e: nat, s: nat)
    requires l >= 1 && IsRoot(w, l) && e < Pow2(l) && s == if e < Pow2(l - 1) then e + Pow2(l - 1) else e - Pow2(l - 1)
    ensures M(Pow(w, s)) == M(-Pow(w, e))
  {
    hide Pow;
    var h, t := Pow2(l - 1), if e < Pow2(l - 1) then e else s;
    PowAdd(w, t, h);
    CongScale(Pow(w, h), -1, Pow(w, t));
    CongScale(Pow(w, t + h), -Pow(w, t), -1);
  }

  lemma MZero()
    ensures M(0) == 0
  {}

  lemma PowerCancels(w: int, v: int, e: nat, alpha: int, d: int)
    requires M(w * v) == 1 && M(alpha * ((2 * Pow(w, e)) * d)) == 0
    ensures M(alpha * d) == 0
  {
    hide Pow;
    PowBase(w, v, e);
    PowCong(w * v, 1, e);
    PowOne(e);
    var x, y := Pow(w, e), Pow(v, e);
    CongScale(alpha * ((2 * x) * d), 0, HALF * y);
    Rearranged(alpha, x, y, d);
    CongScale(x * y, 1, alpha * d);
    CongScale((alpha * d) * (x * y), alpha * d, HALF * 2);
    HalfTwice(alpha * d);
    assert HALF * (2 * (alpha * d)) == HALF * 2 * (alpha * d);
  }

  lemma Rearranged(alpha: int, x: int, y: int, d: int)
    ensures (HALF * y) * (alpha * ((2 * x) * d)) == (HALF * 2) * ((alpha * d) * (x * y))
  {
    assert (2 * x) * d == 2 * (x * d);
    var z := x * d;
    assert alpha * (2 * z) == 2 * (alpha * z);
    assert (HALF * y) * (2 * (alpha * z)) == (HALF * 2) * (y * (alpha * z));
    assert y * (alpha * z) == (alpha * d) * (x * y) by {
      Associate(alpha, x, d);
      assert alpha * z == (alpha * d) * x;
      Associate(alpha * d, x, y);
    }
  }

  /** The verifier draws the prover's challenges from the roots in the proof. */
  lemma HonestTranscript(env: Environment, c: Committed, proof: FriProof, l: nat, queries: seq<nat>)
    requires TreesWork(env) && Drawn(env, c) && Sized(c.rounds, c.final, l)
    requires Answered(env, c, l, queries, proof.slots) && |proof.slots| >= 1
    ensures RootsOf(proof.slots[0]) == c.roots && AlphasOf(env, c.roots) == c.alphas
  {
    hide TreesWork, Sized, Pow2, Sym, Filled;
    assert Opened(env, c, l, queries[0], proof.slots[2 * 0], proof.slots[2 * 0 + 1]);
    forall r: nat | r < |c.rounds| ensures proof.slots[0][r].root == c.roots[r] {
      InRange(c, l, queries[0], r);
      OpenedAt(env, c, l, queries[0], proof.slots[0], proof.slots[1], r);
    }
  }

  lemma InRange(c: Committed, l: nat, query: nat, r: nat)
    requires Sized(c.rounds, c.final, l) && r < |c.rounds|
    ensures r < l && query % Pow2(l - r) < |c.rounds[r]| && Sym(query, Pow2(l - r)) < |c.rounds[r]|
    ensures |c.rounds| <= l && |c.final| >= 1
  {
    SizedAt(c.rounds, c.final, l, r);
  }

  lemma FinalSizes(c: Committed, v: int, l: nat)
    requires Chain(c.rounds, c.final, c.alphas, v, l)
    ensures |c.rounds| == |c.alphas| <= l && |c.final| >= Pow2(l - |c.rounds|)
  {}

  /** X^e */
  function Monomial(e: nat): int -> int {
    j => if j == e then 1 else 0
  }

  lemma {:induction false} FoldedMonomial(alphas: seq<Zq>, k: nat, r: nat, j: nat)
    requires r <= k
    ensures PolyAt(Monomial(Pow2(k)), alphas, r)(j) == Monomial(Pow2(k - r))(j)
  {
    hide PolyAt;
    PolyStep(Monomial(Pow2(k)), alphas, r);
    if r > 0 {
      FoldedMonomial(alphas, k, r - 1, 2 * j);
      FoldedMonomial(alphas, k, r - 1, 2 * j + 1);
      Halving(k - r + 1);
      FoldAt(PolyAt(Monomial(Pow2(k)), alphas, r - 1), if r <= |alphas| then alphas[r - 1] else 0, j);
    }
  }

  lemma FoldAt(p: int -> int, alpha: int, j: int)
    ensures FoldPoly(p, alpha)(j) == p(2 * j) + alpha * p(2 * j + 1)
    ensures p(2 * j + 1) == 0 ==> FoldPoly(p, alpha)(j) == p(2 * j)
  {
    assert Strided(p, 2, 0)(j) == p(j * 2 + 0) && Strided(p, 2, 1)(j) == p(j * 2 + 1);
    assert j * 2 == 2 * j;
    TimesZero(alpha);
  }

  lemma TimesZero(x: int)
    ensures x * 0 == 0
  {}

  lemma PolyStep(p: int -> int, alphas: seq<Zq>, r: nat)
    ensures r == 0 ==> PolyAt(p, alphas, r) == p
    ensures r > 0 ==>
      PolyAt(p, alphas, r) == FoldPoly(PolyAt(p, alphas, r - 1), if r <= |alphas| then alphas[r - 1] else 0)
  {}

  /** The values of X. */
  lemma ValuesOfX(w: int, n: nat, p: int -> int, i: nat)
    requires n >= 2 && forall j: nat :: p(j) == Monomial(1)(j)
    ensures Dft(w, n, p, i) == Pow(w, i)
  {
    hide Pow, Sum;
    var f := Pointwise(p, DftKernel(w, i));
    forall j: nat | j < n && j != 1 ensures f(j) == 0 { ZeroTimes(Pow(w, j * i)); }
    SumSingle(n, 1, f);
    assert p(1) == 1 && 1 * i == i;
  }

  lemma ZeroTimes(x: int)
    ensures 0 * x == 0
  {}

  /** With any other size the code rejects honest proofs: those of X^(2^rounds), when the query equal to the size
      is drawn, which is the smallest that the transcript may draw. */
  lemma OtherSizesRejected(env: Environment, input: seq<Zq>, c: Committed, proof: FriProof, w: int, v: int, u: Zq,
                           nofRounds: nat, finalSize: nat, config: FriConfig)
    requires TreesWork(env) && MiningWorks(env) && HonestProof(env, input, c, proof, v, nofRounds, finalSize, config)
    requires IsRoot(w, nofRounds + FloorLog2(finalSize)) && M(w * v) == 1 && M(u) == M(v) && |proof.slots| >= 1
    requires finalSize != Pow2(FloorLog2(finalSize))
    requires Codeword(input, Pow2(nofRounds + FloorLog2(finalSize)), w, Monomial(Pow2(nofRounds)))
    requires finalSize in Queries(env, config, c.roots, proof.nonce, finalSize, Pow2(nofRounds + FloorLog2(finalSize)))
    ensures !Accepts(env, proof, finalSize, config, u)
  {
    hide *;
    HonestParts(env, input, c, proof, v, nofRounds, finalSize, config);
    var d := FloorLog2(finalSize);
    RootInverse(w, v, nofRounds + d);
    SameRootAccepted(env, input, c, proof, v, u, nofRounds, finalSize, config);
    FinalDiffers(c, d, nofRounds, w, v, finalSize - Pow2(d));
    LookupDiffers(c.final, Queries(env, config, c.roots, proof.nonce, finalSize, Pow2(nofRounds + d)), d);
  }

  lemma HonestParts(env: Environment, input: seq<Zq>, c: Committed, proof: FriProof, v: int, nofRounds: nat,
                    finalSize: nat, config: FriConfig)
    requires HonestProof(env, input, c, proof, v, nofRounds, finalSize, config)
    ensures |c.rounds| == nofRounds >= 1 && c.rounds[0] == input && |c.final| == finalSize >= Pow2(FloorLog2(finalSize))
    ensures |c.alphas| == |c.rounds| && Sized(c.rounds, c.final, nofRounds + FloorLog2(finalSize))
    ensures Chain(c.rounds, c.final, c.alphas, v, nofRounds + FloorLog2(finalSize))
    ensures |proof.slots| == 2 * config.nofQueries
  {
    hide Chain, Sized, Drawn, FloorLog2;
    ChainSizes(c.rounds, c.final, c.alphas, v, nofRounds + FloorLog2(finalSize));
  }

  lemma LookupDiffers(final: seq<Zq>, queries: seq<nat>, d: nat)
    requires Pow2(d) < |final| < 2 * Pow2(d) && |final| in queries && final[0] != final[|final| - Pow2(d)]
    ensures !LookupsAgree(final, queries, d)
  {
    hide Pow2;
    var q :| 0 <= q < |queries| && queries[q] == |final|;
    BitReverseInPlace.QuotientUnique(|final|, |final|, 1, 0);
    BitReverseInPlace.QuotientUnique(|final|, Pow2(d), 1, |final| - Pow2(d));
    assert final[queries[q] % |final|] != final[queries[q] % Pow2(d)];
  }

  /** The final values of X^(2^rounds) are the powers of a root of order 2^d: the first differs from all others. */
  lemma FinalDiffers(c: Committed, d: nat, nofRounds: nat, w: int, v: int, t: nat)
    requires Chain(c.rounds, c.final, c.alphas, v, nofRounds + d) && |c.rounds| == nofRounds >= 1
    requires IsRoot(w, nofRounds + d) && M(w * v) == 1 && 0 < t < Pow2(d)
    requires Codeword(c.rounds[0], Pow2(nofRounds + d), w, Monomial(Pow2(nofRounds)))
    ensures t < |c.final| && c.final[0] != c.final[t]
  {
    hide IsRoot, Chain, PolyAt, Codeword, Pow, Monomial, LengthAtMost;
    MonomialLength(Pow2(nofRounds));
    FinalLowDegree(c.rounds, c.final, c.alphas, v, nofRounds + d, w, Monomial(Pow2(nofRounds)), Pow2(nofRounds) + 1);
    assert |c.final| >= Pow2(d) by { FinalSizes(c, v, nofRounds + d); }
    FinalOfMonomial(c, d, nofRounds, w);
    RoundRootIs(w, nofRounds + d, nofRounds);
    OrderExact(RoundRoot(w, nofRounds), d, t);
    PowStep(RoundRoot(w, nofRounds), 0);
  }

  lemma MonomialLength(e: nat)
    ensures LengthAtMost(Monomial(e), e + 1)
  {}

  lemma FinalOfMonomial(c: Committed, d: nat, nofRounds: nat, w: int)
    requires Codeword(c.final, Pow2(d), RoundRoot(w, nofRounds),
                      PolyAt(Monomial(Pow2(nofRounds)), c.alphas, nofRounds)) && d >= 1
    ensures forall i: nat :: i < Pow2(d) ==> c.final[i] == M(Pow(RoundRoot(w, nofRounds), i))
  {
    hide PolyAt, Dft, Monomial, Pow;
    var p := PolyAt(Monomial(Pow2(nofRounds)), c.alphas, nofRounds);
    forall j: nat ensures p(j) == Monomial(1)(j) {
      FoldedMonomial(c.alphas, nofRounds, nofRounds, j);
      assert Pow2(0) == 1;
    }
    forall i: nat | i < Pow2(d) ensures c.final[i] == M(Pow(RoundRoot(w, nofRounds), i)) {
      ValuesOfX(RoundRoot(w, nofRounds), Pow2(d), p, i);
    }
  }
}
