/** A run of the folding: the rounds' codewords and what they are the values of. */
module FriRuns {
  import opened Residues
  import opened Products
  import opened Powers
  import opened PowersOfTwo
  import opened Roots
  import opened FourierTransform
  import opened FriFolding
  import BitReverseInPlace

  /** The largest l with 2^l <= n. */
  function FloorLog2(n: nat): (l: nat)
    ensures n >= 1 ==> Pow2(l) <= n < 2 * Pow2(l)
  {
    if n <= 1 then 0 else 1 + FloorLog2(n / 2)
  }

  /** The codeword after round r: the next one committed to, or the final polynomial's values. */
  function Next(rounds: seq<seq<Zq>>, final: seq<Zq>, r: nat): seq<Zq> {
    if r + 1 < |rounds| then rounds[r + 1] else final
  }

  /** The codewords have the sizes of their rounds. */
  ghost predicate Sized(rounds: seq<seq<Zq>>, final: seq<Zq>, l: nat) {
    && |rounds| <= l && |final| >= Pow2(l - |rounds|)
    && forall r :: 0 <= r < |rounds| ==> |rounds[r]| == Pow2(l - r)
  }

  lemma SizedAt(rounds: seq<seq<Zq>>, final: seq<Zq>, l: nat, r: nat)
    requires Sized(rounds, final, l) && r < |rounds|
    ensures |rounds[r]| == Pow2(l - r) == 2 * Pow2(l - r - 1) && |Next(rounds, final, r)| >= Pow2(l - r - 1)
    ensures r + 1 < |rounds| ==> |Next(rounds, final, r)| == Pow2(l - r - 1)
  {}

  /** The twiddle of entry i in round r, v being the inverse of the root of the first domain. */
  function RoundTwiddle(v: int, r: nat, i: int): Zq {
    M(Pow(v, Pow2(r) * i))
  }

  ghost predicate FoldedAt(rounds: seq<seq<Zq>>, final: seq<Zq>, alphas: seq<Zq>, v: int, l: nat, r: nat, i: nat)
    requires Sized(rounds, final, l) && |alphas| == |rounds| && r < |rounds| && i < Pow2(l - r - 1)
  {
    SizedAt(rounds, final, l, r);
    Next(rounds, final, r)[i] == FoldValue(rounds[r][i], rounds[r][i + Pow2(l - r - 1)], alphas[r],
                                           RoundTwiddle(v, r, i))
  }

  /** Every codeword is the fold of the one before. */
  ghost predicate Chain(rounds: seq<seq<Zq>>, final: seq<Zq>, alphas: seq<Zq>, v: int, l: nat) {
    && Sized(rounds, final, l) && |alphas| == |rounds|
    && forall r: nat, i: nat :: r < |rounds| && i < Pow2(l - r - 1) ==> FoldedAt(rounds, final, alphas, v, l, r, i)
  }

  /** The polynomial after r folds. */
  function PolyAt(p: int -> int, alphas: seq<Zq>, r: nat): int -> int {
    if r == 0 then p else FoldPoly(PolyAt(p, alphas, r - 1), if r <= |alphas| then alphas[r - 1] else 0)
  }

  /** The length bound after r folds. */
  function LengthAt(len: nat, r: nat): nat {
    if r == 0 then len else (LengthAt(len, r - 1) + 1) / 2
  }

  /** The root of round r. */
  function RoundRoot(w: int, r: nat): int {
    if r == 0 then w else RoundRoot(w, r - 1) * RoundRoot(w, r - 1)
  }

  lemma {:induction false} LengthHolds(p: int -> int, alphas: seq<Zq>, len: nat, r: nat)
    requires LengthAtMost(p, len)
    ensures LengthAtMost(PolyAt(p, alphas, r), LengthAt(len, r))
  {
    hide FoldPoly, LengthAtMost;
    if r > 0 {
      LengthHolds(p, alphas, len, r - 1);
      FoldLength(PolyAt(p, alphas, r - 1), if r <= |alphas| then alphas[r - 1] else 0, LengthAt(len, r - 1));
    }
  }

  /** Halving r times and rounding up each time is dividing by 2^r and rounding up. */
  lemma {:induction false} LengthBound(len: nat, r: nat)
    ensures LengthAt(len, r) == (len + Pow2(r) - 1) / Pow2(r)
  {
    if r > 0 {
      LengthBound(len, r - 1);
      CeilingTwice(len, Pow2(r - 1));
    }
  }

  lemma CeilingTwice(len: nat, n: nat)
    requires n >= 1
    ensures ((len + n - 1) / n + 1) / 2 == (len + 2 * n - 1) / (2 * n)
  {
    var a, b := len + n - 1, (len + n - 1) / n;
    assert a == n * b + a % n;
    var c, s := (b + 1) / 2, (b + 1) % 2;
    assert len + 2 * n - 1 == 2 * n * c + (n * s + a % n) by {
      assert b + 1 == 2 * c + s;
      Distribute(n, b + 1, b, 1);
      Distribute(n, 2 * c + s, 2 * c, s);
      Associate(n, 2, c);
    }
    assert 0 <= n * s + a % n < 2 * n;
    BitReverseInPlace.QuotientUnique(len + 2 * n - 1, 2 * n, c, n * s + a % n);
  }

  lemma {:induction false} RoundRootIs(w: int, l: nat, r: nat)
    requires IsRoot(w, l) && r <= l
    ensures IsRoot(RoundRoot(w, r), l - r) && RoundRoot(w, r) == Pow(w, Pow2(r))
  {
    hide IsRoot, Pow;
    if r > 0 {
      RoundRootIs(w, l, r - 1);
      RootSquare(RoundRoot(w, r - 1), l - r + 1);
      PowAdd(w, Pow2(r - 1), Pow2(r - 1));
    } else {
      PowStep(w, 1);
      PowStep(w, 0);
    }
  }

  /** The round's twiddle undoes the power of the round's root. */
  lemma TwiddleInverse(w: int, v: int, l: nat, r: nat, i: nat)
    requires IsRoot(w, l) && r <= l && M(w * v) == 1
    ensures M(Pow(RoundRoot(w, r), i) * RoundTwiddle(v, r, i)) == 1
  {
    hide Pow, IsRoot;
    RoundRootIs(w, l, r);
    var e := Pow2(r) * i;
    NonNegative(Pow2(r), i);
    PowMul(w, Pow2(r), i);
    PowBase(w, v, e);
    PowCong(w * v, 1, e);
    PowOne(e);
    MTwice(Pow(v, e));
    CongScale(M(Pow(v, e)), Pow(v, e), Pow(w, e));
  }

  /** The first n entries of a codeword are the values of p at the powers of w. */
  ghost predicate Codeword(values: seq<Zq>, n: nat, w: int, p: int -> int) {
    && n <= |values|
    && forall i: nat :: i < n ==> values[i] == M(Dft(w, n, p, i))
  }

  lemma NextCodeword(rounds: seq<seq<Zq>>, final: seq<Zq>, alphas: seq<Zq>, v: int, l: nat, r: nat, w: int,
                     p: int -> int)
    requires Chain(rounds, final, alphas, v, l) && r < |rounds|
    requires IsRoot(w, l) && M(w * v) == 1
    requires Codeword(rounds[r], Pow2(l - r), RoundRoot(w, r), p)
    ensures Codeword(Next(rounds, final, r), Pow2(l - r - 1), RoundRoot(w, r + 1), FoldPoly(p, alphas[r]))
  {
    hide Dft, FoldValue, IsRoot, FoldPoly, RoundTwiddle;
    SizedAt(rounds, final, l, r);
    RoundRootIs(w, l, r);
    var u, next := RoundRoot(w, r), Next(rounds, final, r);
    forall i: nat | i < Pow2(l - r - 1) ensures next[i] == M(Dft(u * u, Pow2(l - r - 1), FoldPoly(p, alphas[r]), i)) {
      assert FoldedAt(rounds, final, alphas, v, l, r, i);
      TwiddleInverse(w, v, l, r, i);
      FoldCommutes(u, l - r, p, alphas[r], rounds[r][i], rounds[r][i + Pow2(l - r - 1)], RoundTwiddle(v, r, i), i);
    }
  }

  /** Every committed codeword holds the values of the folded polynomial. */
  lemma {:induction false} RoundCodeword(rounds: seq<seq<Zq>>, final: seq<Zq>, alphas: seq<Zq>, v: int, l: nat,
                              w: int, p: int -> int, r: nat)
    requires Chain(rounds, final, alphas, v, l) && IsRoot(w, l) && M(w * v) == 1
    requires r < |rounds| && Codeword(rounds[0], Pow2(l), w, p)
    ensures Codeword(rounds[r], Pow2(l - r), RoundRoot(w, r), PolyAt(p, alphas, r))
  {
    hide Chain, Codeword, FoldPoly, IsRoot;
    if r > 0 {
      RoundCodeword(rounds, final, alphas, v, l, w, p, r - 1);
      assert |alphas| == |rounds| by { ChainSizes(rounds, final, alphas, v, l); }
      NextCodeword(rounds, final, alphas, v, l, r - 1, w, PolyAt(p, alphas, r - 1));
    }
  }

  lemma ChainSizes(rounds: seq<seq<Zq>>, final: seq<Zq>, alphas: seq<Zq>, v: int, l: nat)
    requires Chain(rounds, final, alphas, v, l)
    ensures |alphas| == |rounds| <= l && Sized(rounds, final, l)
  {}

  /** Low degree is kept: when the input comes from a polynomial of len coefficients, the final values
      come from one of len / 2^rounds coefficients, rounded up. */
  lemma FinalLowDegree(rounds: seq<seq<Zq>>, final: seq<Zq>, alphas: seq<Zq>, v: int, l: nat, w: int, p: int -> int,
                       len: nat)
    requires Chain(rounds, final, alphas, v, l) && IsRoot(w, l) && M(w * v) == 1
    requires |rounds| >= 1 && Codeword(rounds[0], Pow2(l), w, p) && LengthAtMost(p, len)
    ensures |rounds| <= l
    ensures Codeword(final, Pow2(l - |rounds|), RoundRoot(w, |rounds|), PolyAt(p, alphas, |rounds|))
    ensures LengthAtMost(PolyAt(p, alphas, |rounds|), (len + Pow2(|rounds|) - 1) / Pow2(|rounds|))
  {
    hide Chain, Codeword, FoldPoly, IsRoot, LengthAtMost;
    ChainSizes(rounds, final, alphas, v, l);
    var k := |rounds|;
    RoundCodeword(rounds, final, alphas, v, l, w, p, k - 1);
    NextCodeword(rounds, final, alphas, v, l, k - 1, w, PolyAt(p, alphas, k - 1));
    LengthHolds(p, alphas, len, k);
    LengthBound(len, k);
  }
}

/** The CPU prover: the commit and fold phase and the query phase. */
module FriProver {
  import opened Residues
  import opened Products
  import opened Arrays
  import opened Powers
  import opened PowersOfTwo
  import opened Roots
  import opened Twiddles
  import opened FriFolding
  import opened FriRuns

  /** An opened leaf of a committed codeword. */
  datatype MerkleProof = MerkleProof(root: int, leaf: Zq, index: nat, path: seq<int>)

  /** Merkle trees and the transcript: arbitrary functions. */
  datatype Environment = Environment(
    commit: seq<Zq> -> int,
    open: (seq<Zq>, nat) -> MerkleProof,
    check: MerkleProof -> bool,
    challenge: seq<int> -> Zq,
    solve: (seq<int>, nat) -> Result<nat>,
    solved: (seq<int>, nat, nat) -> bool,
    sample: (seq<int>, nat, nat, nat, int) -> nat)

  datatype FriConfig = FriConfig(nofQueries: nat, powBits: nat)

  /** The queries between min and max that are drawn after the roots and, with proof of work, after the nonce. */
  function Queries(env: Environment, config: FriConfig, roots: seq<int>, nonce: nat, min: nat, max: nat)
    : (queries: seq<nat>)
    ensures |queries| == config.nofQueries
  {
    var used := if config.powBits == 0 then 0 else nonce;
    Vec<nat>(config.nofQueries, i => env.sample(roots, used, min, max, i))
  }

  /** Opened leaves are those of the committed codeword, and their paths check. */
  ghost predicate TreesWork(env: Environment) {
    forall values: seq<Zq>, i: nat :: i < |values| ==>
      var o := env.open(values, i);
      o.root == env.commit(values) && o.leaf == values[i] && o.index == i && env.check(o)
  }

  /** A nonce that the solver finds passes the check. */
  ghost predicate MiningWorks(env: Environment) {
    forall roots: seq<int>, bits: nat ::
      env.solve(roots, bits).Ok? ==> env.solved(roots, bits, env.solve(roots, bits).value)
  }

  datatype Result<T> = Ok(value: T) | InvalidArgument | NotMined | OutOfRange

  /** What the commit and fold phase leaves behind. */
  datatype Committed = Committed(rounds: seq<seq<Zq>>, final: seq<Zq>, roots: seq<int>, alphas: seq<Zq>)

  /** Roots are the commitments of the codewords, and every challenge is drawn after its root. */
  ghost predicate Drawn(env: Environment, c: Committed) {
    && |c.rounds| == |c.roots| == |c.alphas|
    && forall r :: 0 <= r < |c.rounds| ==>
         c.roots[r] == env.commit(c.rounds[r]) && c.alphas[r] == env.challenge(c.roots[..r + 1])
  }

  lemma OneMoreDrawn(env: Environment, c: Committed, values: seq<Zq>)
    requires Drawn(env, c)
    ensures var roots := c.roots + [env.commit(values)];
      Drawn(env, Committed(c.rounds + [values], c.final, roots, c.alphas + [env.challenge(roots)]))
  {
    var roots := c.roots + [env.commit(values)];
    assert roots[..|c.rounds| + 1] == roots;
    var next := Committed(c.rounds + [values], c.final, roots, c.alphas + [env.challenge(roots)]);
    forall r | 0 <= r < |next.rounds|
      ensures next.roots[r] == env.commit(next.rounds[r]) && next.alphas[r] == env.challenge(next.roots[..r + 1])
    {
      if r < |c.rounds| { assert roots[..r + 1] == c.roots[..r + 1]; }
    }
  }

  /** The index of the twiddle in the domain's table: counted from the end, so that it is an inverse power. */
  lemma FoldTwiddle(tw: seq<Zq>, root: int, logMax: nat, inv: int, l: nat, r: nat, i: nat)
    requires Table(tw, root, logMax) && M(root * inv) == 1 && r < l <= logMax && i < Pow2(l - r - 1)
    ensures 0 <= Pow2(logMax) - Pow2(logMax - (l - r)) * i < |tw|
    ensures tw[Pow2(logMax) - Pow2(logMax - (l - r)) * i] == RoundTwiddle(SizeRoot(inv, logMax, l), r, i)
  {
    hide Pow, IsRoot;
    var a, b, h := logMax - l, logMax - (l - r), Pow2(l - r - 1);
    Pow2Add(b, l - r);
    Halving(l - r);
    NonNegative(Pow2(b), i);
    NonNegative(Pow2(b), 2 * h - i);
    Distribute(Pow2(b), 2 * h, 2 * h - i, i);
    TwiddlePower(tw, root, logMax, true, inv, Pow2(b) * i);
    Pow2Add(a, r);
    Associate(Pow2(a), Pow2(r), i);
    NonNegative(Pow2(r), i);
    PowMul(inv, Pow2(a), Pow2(r) * i);
    Canonical(tw[Pow2(logMax) - Pow2(b) * i]);
  }

  lemma Halving(l: nat)
    ensures l > 0 ==> Pow2(l) == 2 * Pow2(l - 1)
  {}

  /** Step i of the table, counted from its end. */
  function EndIndex(tw: seq<Zq>, stride: nat, i: nat): int {
    |tw| - 1 - stride * i
  }

  function FromEnd(tw: seq<Zq>, stride: nat, i: nat): Zq
    requires EndIndex(tw, stride, i) >= 0
  {
    NonNegative(stride, i);
    tw[EndIndex(tw, stride, i)]
  }

  /** The table reaches every entry of a half domain. */
  ghost predicate Reaches(tw: seq<Zq>, stride: nat, half: nat) {
    forall i: nat :: i < half ==> EndIndex(tw, stride, i) >= 0
  }

  /** next starts with the fold of values by the table's twiddles. */
  ghost predicate TableFold(values: seq<Zq>, next: seq<Zq>, tw: seq<Zq>, stride: nat, half: nat, alpha: Zq)
    requires Reaches(tw, stride, half) && |values| == 2 * half && |next| >= half
  {
    forall i: nat :: i < half ==> next[i] == FoldValue(values[i], values[i + half], alpha, FromEnd(tw, stride, i))
  }

  /** next starts with the fold of values in round r. */
  ghost predicate RoundFold(values: seq<Zq>, next: seq<Zq>, v: int, r: nat, half: nat, alpha: Zq)
    requires |values| == 2 * half && |next| >= half
  {
    forall i: nat :: i < half ==> next[i] == FoldValue(values[i], values[i + half], alpha, RoundTwiddle(v, r, i))
  }

  /** The even and odd parts of a codeword. */
  method Parts(evals: array<Zq>, tw: seq<Zq>, stride: nat, half: nat) returns (peven: array<Zq>, podd: array<Zq>)
    requires evals.Length == 2 * half && Reaches(tw, stride, half)
    ensures fresh(peven) && fresh(podd) && peven.Length == podd.Length == half
    ensures forall i: nat :: i < half ==> peven[i] == EvenPart(evals[i], evals[i + half])
    ensures forall i: nat :: i < half ==> podd[i] == OddPart(evals[i], evals[i + half], FromEnd(tw, stride, i))
  {
    hide M, EvenPart, OddPart, FromEnd, EndIndex;
    peven, podd := new Zq[half](i => 0), new Zq[half](i => 0);
    for i := 0 to half
      invariant forall j: nat :: j < i ==> peven[j] == EvenPart(evals[j], evals[j + half])
      invariant forall j: nat :: j < i ==> podd[j] == OddPart(evals[j], evals[j + half], FromEnd(tw, stride, j))
    {
      peven[i] := EvenPart(evals[i], evals[i + half]);
      podd[i] := OddPart(evals[i], evals[i + half], FromEnd(tw, stride, i));
    }
  }

  lemma PartsCombine(values: seq<Zq>, peven: seq<Zq>, podd: seq<Zq>, next: seq<Zq>, tw: seq<Zq>, stride: nat,
                     half: nat, alpha: Zq)
    requires Reaches(tw, stride, half) && |values| == 2 * half && |next| >= half && |peven| == |podd| == half
    requires forall i: nat :: i < half ==> peven[i] == EvenPart(values[i], values[i + half])
    requires forall i: nat :: i < half ==> podd[i] == OddPart(values[i], values[i + half], FromEnd(tw, stride, i))
    requires forall i: nat :: i < half ==> next[i] == Combined(peven[i], podd[i], alpha)
    ensures TableFold(values, next, tw, stride, half, alpha)
  {
    hide EvenPart, OddPart, Combined, FromEnd;
  }

  /** One fold: the even and odd parts of the codeword, then their combination, written to next. */
  method FoldRound(evals: array<Zq>, next: array<Zq>, tw: seq<Zq>, stride: nat, half: nat, alpha: Zq)
    requires evals.Length == 2 * half && next.Length >= half && evals != next
    requires Reaches(tw, stride, half)
    modifies next
    ensures TableFold(evals[..], next[..], tw, stride, half, alpha)
    ensures forall i :: half <= i < next.Length ==> next[i] == old(next[i])
  {
    hide *;
    var peven, podd := Parts(evals, tw, stride, half);
    for i := 0 to half
      invariant forall j: nat :: j < i ==> next[j] == Combined(peven[j], podd[j], alpha)
      invariant forall j :: i <= j < next.Length ==> next[j] == old(next[j])
      modifies next
    {
      next[i] := Combined(peven[i], podd[i], alpha);
    }
    PartsCombine(evals[..], peven[..], podd[..], next[..], tw, stride, half, alpha);
  }

  lemma OneMoreFold(rounds: seq<seq<Zq>>, values: seq<Zq>, next: seq<Zq>, alphas: seq<Zq>, alpha: Zq, v: int, l: nat)
    requires Chain(rounds, values, alphas, v, l) && |rounds| < l && |values| == Pow2(l - |rounds|)
    requires |values| == 2 * Pow2(l - |rounds| - 1) && |next| >= Pow2(l - |rounds| - 1)
    requires RoundFold(values, next, v, |rounds|, Pow2(l - |rounds| - 1), alpha)
    ensures Chain(rounds + [values], next, alphas + [alpha], v, l)
  {
    hide FoldValue, RoundTwiddle, Pow2;
    var k, rs, al := |rounds|, rounds + [values], alphas + [alpha];
    forall r | 0 <= r < |rs| ensures |rs[r]| == Pow2(l - r) {}
    assert Sized(rs, next, l);
    forall r: nat, i: nat | r < |rs| && i < Pow2(l - r - 1) ensures FoldedAt(rs, next, al, v, l, r, i) {
      SizedAt(rs, next, l, r);
      if r < k {
        assert FoldedAt(rounds, values, alphas, v, l, r, i);
        assert Next(rs, next, r) == Next(rounds, values, r);
      }
    }
  }

  lemma Monotone(l: nat, m: nat)
    requires Pow2(l) <= Pow2(m)
    ensures l <= m
    decreases l
  {
    if l > m {
      if l == m + 1 {} else { StrictlyBelow(m, l); }
    }
  }

  lemma StrictlyBelow(m: nat, l: nat)
    requires m < l
    ensures Pow2(m) < Pow2(l)
  {
    if l > m + 1 { StrictlyBelow(m, l - 1); }
  }

  lemma TableReaches(tw: seq<Zq>, root: int, logMax: nat, inv: int, l: nat, r: nat)
    requires Table(tw, root, logMax) && M(root * inv) == 1 && r < l <= logMax
    ensures Reaches(tw, Pow2(logMax - (l - r)), Pow2(l - r - 1))
  {
    hide Pow2, RoundTwiddle, SizeRoot, IsRoot;
    var stride := Pow2(logMax - (l - r));
    forall i: nat | i < Pow2(l - r - 1) ensures EndIndex(tw, stride, i) >= 0 {
      FoldTwiddle(tw, root, logMax, inv, l, r, i);
    }
  }

  /** The table's twiddles are those of the round. */
  lemma RoundOfTable(tw: seq<Zq>, root: int, logMax: nat, inv: int, l: nat, r: nat, values: seq<Zq>, next: seq<Zq>,
                     alpha: Zq)
    requires Table(tw, root, logMax) && M(root * inv) == 1 && r < l <= logMax
    requires Reaches(tw, Pow2(logMax - (l - r)), Pow2(l - r - 1))
    requires |values| == 2 * Pow2(l - r - 1) && |next| >= Pow2(l - r - 1)
    requires TableFold(values, next, tw, Pow2(logMax - (l - r)), Pow2(l - r - 1), alpha)
    ensures RoundFold(values, next, SizeRoot(inv, logMax, l), r, Pow2(l - r - 1), alpha)
  {
    hide Pow2, RoundTwiddle, SizeRoot, IsRoot, FoldValue;
    var half, v := Pow2(l - r - 1), SizeRoot(inv, logMax, l);
    forall i: nat | i < half ensures next[i] == FoldValue(values[i], values[i + half], alpha, RoundTwiddle(v, r, i)) {
      FoldTwiddle(tw, root, logMax, inv, l, r, i);
    }
  }

  /** Commits to every codeword, draws its challenge and folds it; the last fold fills the final polynomial. */
  method CommitFold(env: Environment, input: seq<Zq>, tw: seq<Zq>, logMax: nat, nofRounds: nat, finalSize: nat,
                    ghost root: int, ghost inv: int)
    returns (result: Result<Committed>)
    requires Table(tw, root, logMax) && M(root * inv) == 1 && nofRounds >= 1 && finalSize >= 1
    requires |input| == Pow2(nofRounds + FloorLog2(finalSize))
    ensures result.Ok? || result.InvalidArgument?
    ensures result.InvalidArgument? <==> nofRounds + FloorLog2(finalSize) > logMax
    ensures result.Ok? ==>
      Drawn(env, result.value) && |result.value.rounds| == nofRounds && |result.value.final| == finalSize
    ensures result.Ok? ==> result.value.rounds[0] == input
    ensures result.Ok? ==>
      var l := nofRounds + FloorLog2(finalSize);
      Chain(result.value.rounds, result.value.final, result.value.alphas, SizeRoot(inv, logMax, l), l)
  {
    hide Chain, Drawn, RoundTwiddle, SizeRoot, TableFold, RoundFold, Reaches, Table, FloorLog2, IsRoot;
    var l := nofRounds + FloorLog2(finalSize);
    if Pow2(l) > Pow2(logMax) {
      if l <= logMax { SmallerPower(l, logMax); }
      return InvalidArgument;
    }
    Monotone(l, logMax);
    ghost var v := SizeRoot(inv, logMax, l);
    var evals := new Zq[Pow2(l)](i requires 0 <= i < |input| => input[i]);
    var finalPoly := new Zq[finalSize];
    var rounds, roots, alphas := [], [], [];
    assert evals[..] == input;
    NothingFolded(env, evals[..], v, l);
    for r := 0 to nofRounds
      invariant |rounds| == |roots| == |alphas| == r
      invariant r < nofRounds ==> evals.Length == Pow2(l - r)
      invariant r < nofRounds ==> fresh(evals) && evals != finalPoly
      invariant fresh(finalPoly) && finalPoly.Length == finalSize
      invariant r == 0 ==> evals[..] == input
      invariant r > 0 ==> rounds[0] == input
      invariant Drawn(env, Committed(rounds, [], roots, alphas))
      invariant Chain(rounds, if r < nofRounds then evals[..] else finalPoly[..], alphas, v, l)
    {
      ghost var was := evals[..];
      OneMoreDrawn(env, Committed(rounds, [], roots, alphas), evals[..]);
      roots := roots + [env.commit(evals[..])];
      var alpha := env.challenge(roots);
      Halving(l - r);
      if r + 1 == nofRounds { FinalFits(l, r, nofRounds, finalSize); }
      var half := Pow2(l - r - 1);
      TableReaches(tw, root, logMax, inv, l, r);
      var next := finalPoly;
      if r + 1 < nofRounds { next := new Zq[half]; }
      FoldRound(evals, next, tw, Pow2(logMax - (l - r)), half, alpha);
      RoundOfTable(tw, root, logMax, inv, l, r, was, next[..], alpha);
      OneMoreFold(rounds, was, next[..], alphas, alpha, v, l);
      rounds, alphas := rounds + [evals[..]], alphas + [alpha];
      evals := next;
    }
    result := Ok(Committed(rounds, finalPoly[..], roots, alphas));
    SameDrawn(env, Committed(rounds, [], roots, alphas), result.value);
  }

  lemma NothingFolded(env: Environment, values: seq<Zq>, v: int, l: nat)
    requires |values| == Pow2(l)
    ensures Chain([], values, [], v, l) && Drawn(env, Committed([], [], [], []))
  {}

  lemma SameDrawn(env: Environment, c: Committed, d: Committed)
    requires Drawn(env, c) && c.rounds == d.rounds && c.roots == d.roots && c.alphas == d.alphas
    ensures Drawn(env, d)
  {}

  lemma SmallerPower(l: nat, m: nat)
    requires l <= m
    ensures Pow2(l) <= Pow2(m)
  {
    if l < m { StrictlyBelow(l, m); }
  }

  lemma FinalFits(l: nat, r: nat, nofRounds: nat, finalSize: nat)
    requires finalSize >= 1 && l == nofRounds + FloorLog2(finalSize) && r + 1 == nofRounds
    ensures Pow2(l - r - 1) <= finalSize
  {}

  datatype FriProof = FriProof(slots: seq<seq<MerkleProof>>, final: seq<Zq>, nonce: nat)

  const EMPTY: MerkleProof := MerkleProof(0, 0, 0, [])

  /** Resizing keeps the rows already there as they are, whatever their length, and appends empty ones. */
  function Resized(given: seq<seq<MerkleProof>>, rows: nat, nofRounds: nat): (slots: seq<seq<MerkleProof>>)
    ensures |slots| == rows
    ensures forall i :: 0 <= i < rows ==> |slots[i]| == if i < |given| then |given[i]| else nofRounds
  {
    seq(rows, i requires i >= 0 => if i < |given| then given[i] else seq(nofRounds, j => EMPTY))
  }

  /** The rows that a proof object keeps have at least n entries. */
  ghost predicate RowsReach(given: seq<seq<MerkleProof>>, rows: nat, n: nat) {
    forall i :: 0 <= i < rows && i < |given| ==> |given[i]| >= n
  }

  /** The rows that a proof object keeps have n entries. */
  ghost predicate RowsFit(given: seq<seq<MerkleProof>>, rows: nat, n: nat) {
    forall i :: 0 <= i < rows && i < |given| ==> |given[i]| == n
  }

  /** The partner of an entry half a domain away. */
  function Sym(query: nat, size: nat): nat
    requires size >= 1
  {
    (query + size / 2) % size
  }

  /** The first n entries of a query's two rows open the query's entry and its partner. */
  ghost predicate Filled(env: Environment, c: Committed, l: nat, query: nat, n: nat, row: seq<MerkleProof>,
                         symRow: seq<MerkleProof>) {
    && n <= |c.rounds| <= l && n <= |row| && n <= |symRow|
    && forall r :: 0 <= r < n ==>
         && row[r] == env.open(c.rounds[r], query % Pow2(l - r))
         && symRow[r] == env.open(c.rounds[r], Sym(query, Pow2(l - r)))
  }

  lemma NothingFilled(env: Environment, c: Committed, l: nat, query: nat, row: seq<MerkleProof>,
                      symRow: seq<MerkleProof>)
    requires |c.rounds| <= l
    ensures Filled(env, c, l, query, 0, row, symRow)
  {}

  lemma OneMoreFilled(env: Environment, c: Committed, l: nat, query: nat, r: nat, row: seq<MerkleProof>,
                      symRow: seq<MerkleProof>)
    requires Filled(env, c, l, query, r, row, symRow)
    requires r < |c.rounds| <= l && r < |row| && r < |symRow|
    ensures Filled(env, c, l, query, r + 1, row[r := env.open(c.rounds[r], query % Pow2(l - r))],
                   symRow[r := env.open(c.rounds[r], Sym(query, Pow2(l - r)))])
  {
    hide Pow2, Sym;
  }

  /** Opens a query's entry and its partner in every round, into rows that may be too short for it. */
  method FillRows(env: Environment, c: Committed, l: nat, query: nat, given: seq<MerkleProof>,
                  givenSym: seq<MerkleProof>)
    returns (result: Result<(seq<MerkleProof>, seq<MerkleProof>)>)
    requires |c.rounds| <= l
    ensures result.Ok? || result.OutOfRange?
    ensures result.Ok? <==> |given| >= |c.rounds| && |givenSym| >= |c.rounds|
    ensures result.Ok? ==>
      && |result.value.0| == |given| && |result.value.1| == |givenSym|
      && Filled(env, c, l, query, |c.rounds|, result.value.0, result.value.1)
      && result.value.0[|c.rounds|..] == given[|c.rounds|..] && result.value.1[|c.rounds|..] == givenSym[|c.rounds|..]
  {
    hide Pow2, Sym, Filled;
    var row, symRow := given, givenSym;
    NothingFilled(env, c, l, query, row, symRow);
    for r := 0 to |c.rounds|
      invariant |row| == |given| && |symRow| == |givenSym| && r <= |row| && r <= |symRow|
      invariant Filled(env, c, l, query, r, row, symRow)
      invariant row[r..] == given[r..] && symRow[r..] == givenSym[r..]
    {
      if r >= |row| || r >= |symRow| { return OutOfRange; }
      OneMoreFilled(env, c, l, query, r, row, symRow);
      row := row[r := env.open(c.rounds[r], query % Pow2(l - r))];
      symRow := symRow[r := env.open(c.rounds[r], Sym(query, Pow2(l - r)))];
      assert row[r + 1..] == given[r..][1..] && symRow[r + 1..] == givenSym[r..][1..];
    }
    return Ok((row, symRow));
  }

  /** A query's two rows open its entry and its partner, in every round and no further. */
  ghost predicate Opened(env: Environment, c: Committed, l: nat, query: nat, row: seq<MerkleProof>,
                         symRow: seq<MerkleProof>) {
    && Filled(env, c, l, query, |c.rounds|, row, symRow)
    && |row| == |symRow| == |c.rounds|
  }

  ghost predicate Answered(env: Environment, c: Committed, l: nat, queries: seq<nat>, slots: seq<seq<MerkleProof>>) {
    && |slots| == 2 * |queries|
    && forall q :: 0 <= q < |queries| ==> Opened(env, c, l, queries[q], slots[2 * q], slots[2 * q + 1])
  }

  /** Rows of the given lengths whose first entries answer the queries. */
  ghost predicate PartlyAnswered(env: Environment, c: Committed, l: nat, queries: seq<nat>, n: nat,
                                 given: seq<seq<MerkleProof>>, slots: seq<seq<MerkleProof>>) {
    && |slots| == |given| == 2 * |queries| && n <= |queries|
    && (forall i :: 0 <= i < |slots| ==> |slots[i]| == |given[i]|)
    && (forall i :: 0 <= i < 2 * n ==> |given[i]| >= |c.rounds| && slots[i][|c.rounds|..] == given[i][|c.rounds|..])
    && (forall q :: 0 <= q < n ==> Filled(env, c, l, queries[q], |c.rounds|, slots[2 * q], slots[2 * q + 1]))
    && (forall i :: 2 * n <= i < |slots| ==> slots[i] == given[i])
  }

  lemma OneMoreAnswered(env: Environment, c: Committed, l: nat, queries: seq<nat>, n: nat,
                        given: seq<seq<MerkleProof>>, slots: seq<seq<MerkleProof>>, row: seq<MerkleProof>,
                        symRow: seq<MerkleProof>)
    requires PartlyAnswered(env, c, l, queries, n, given, slots) && n < |queries|
    requires |row| == |given[2 * n]| >= |c.rounds| && |symRow| == |given[2 * n + 1]| >= |c.rounds|
    requires row[|c.rounds|..] == given[2 * n][|c.rounds|..] && symRow[|c.rounds|..] == given[2 * n + 1][|c.rounds|..]
    requires Filled(env, c, l, queries[n], |c.rounds|, row, symRow)
    ensures PartlyAnswered(env, c, l, queries, n + 1, given, slots[2 * n := row][2 * n + 1 := symRow])
  {
    hide Filled;
    var next := slots[2 * n := row][2 * n + 1 := symRow];
    forall q | 0 <= q < n + 1 ensures Filled(env, c, l, queries[q], |c.rounds|, next[2 * q], next[2 * q + 1]) {
      if q < n { assert next[2 * q] == slots[2 * q] && next[2 * q + 1] == slots[2 * q + 1]; }
    }
  }

  /** Answers every query in the rows of the proof object. */
  method QueryPhase(env: Environment, c: Committed, l: nat, queries: seq<nat>, given: seq<seq<MerkleProof>>)
    returns (result: Result<seq<seq<MerkleProof>>>)
    requires |c.rounds| <= l && |given| == 2 * |queries|
    ensures result.Ok? || result.OutOfRange?
    ensures result.Ok? <==> RowsReach(given, |given|, |c.rounds|)
    ensures result.Ok? ==> PartlyAnswered(env, c, l, queries, |queries|, given, result.value)
  {
    hide Filled;
    var slots := given;
    for q := 0 to |queries|
      invariant PartlyAnswered(env, c, l, queries, q, given, slots)
    {
      var rows := FillRows(env, c, l, queries[q], slots[2 * q], slots[2 * q + 1]);
      if rows.OutOfRange? { return OutOfRange; }
      OneMoreAnswered(env, c, l, queries, q, given, slots, rows.value.0, rows.value.1);
      slots := slots[2 * q := rows.value.0][2 * q + 1 := rows.value.1];
    }
    return Ok(slots);
  }

  /** Rows of the run's own length are answered without a remainder, and no others. */
  lemma AnsweredIff(env: Environment, c: Committed, l: nat, queries: seq<nat>, given: seq<seq<MerkleProof>>,
                    slots: seq<seq<MerkleProof>>)
    requires PartlyAnswered(env, c, l, queries, |queries|, given, slots)
    ensures Answered(env, c, l, queries, slots) <==> RowsFit(given, |given|, |c.rounds|)
  {
    hide Filled;
    if Answered(env, c, l, queries, slots) {
      forall i | 0 <= i < |given| ensures |given[i]| == |c.rounds| {
        assert Opened(env, c, l, queries[i / 2], slots[2 * (i / 2)], slots[2 * (i / 2) + 1]);
      }
    }
  }

  /** What the commit and fold phase leaves behind for an input. */
  ghost predicate CommittedTo(env: Environment, input: seq<Zq>, c: Committed, v: int, nofRounds: nat, finalSize: nat) {
    && |c.rounds| == nofRounds >= 1 && c.rounds[0] == input && |c.final| == finalSize >= 1
    && Drawn(env, c) && Chain(c.rounds, c.final, c.alphas, v, nofRounds + FloorLog2(finalSize))
  }

  /** What an honest proof is, with the codewords behind it. */
  ghost predicate HonestProof(env: Environment, input: seq<Zq>, c: Committed, proof: FriProof, v: int,
                              nofRounds: nat, finalSize: nat, config: FriConfig) {
    var l := nofRounds + FloorLog2(finalSize);
    && CommittedTo(env, input, c, v, nofRounds, finalSize) && proof.final == c.final
    && (config.powBits != 0 ==> env.solve(c.roots, config.powBits) == Ok(proof.nonce))
    && Answered(env, c, l, Queries(env, config, c.roots, proof.nonce, finalSize, Pow2(l)), proof.slots)
  }

  /** The prover: commit and fold, find a nonce, then answer the queries that the transcript draws. It writes into a
      proof object whose rows are resized but not replaced: the result is an honest proof exactly when the rows
      that the object already has are as long as this run. */
  method GetProof(env: Environment, input: seq<Zq>, tw: seq<Zq>, logMax: nat, nofRounds: nat, finalSize: nat,
                  config: FriConfig, given: FriProof, ghost root: int, ghost inv: int)
    returns (result: Result<(Committed, FriProof)>)
    requires Table(tw, root, logMax) && M(root * inv) == 1 && nofRounds >= 1 && finalSize >= 1
    requires |input| == Pow2(nofRounds + FloorLog2(finalSize))
    ensures result.InvalidArgument? <==> nofRounds + FloorLog2(finalSize) > logMax
    ensures result.NotMined? ==> config.powBits != 0 && exists c: Committed ::
      && CommittedTo(env, input, c, SizeRoot(inv, logMax, nofRounds + FloorLog2(finalSize)), nofRounds, finalSize)
      && !env.solve(c.roots, config.powBits).Ok?
    ensures result.OutOfRange? ==> !RowsReach(given.slots, 2 * config.nofQueries, nofRounds)
    ensures result.Ok? ==>
      var c, proof, l := result.value.0, result.value.1, nofRounds + FloorLog2(finalSize);
      && RowsReach(given.slots, 2 * config.nofQueries, nofRounds)
      && CommittedTo(env, input, c, SizeRoot(inv, logMax, l), nofRounds, finalSize) && proof.final == c.final
      && PartlyAnswered(env, c, l, Queries(env, config, c.roots, proof.nonce, finalSize, Pow2(l)), config.nofQueries,
                        Resized(given.slots, 2 * config.nofQueries, nofRounds), proof.slots)
    ensures result.Ok? ==>
      var v := SizeRoot(inv, logMax, nofRounds + FloorLog2(finalSize));
      (HonestProof(env, input, result.value.0, result.value.1, v, nofRounds, finalSize, config) <==>
       RowsFit(given.slots, 2 * config.nofQueries, nofRounds))
  {
    hide Table, Chain, Drawn, Answered, PartlyAnswered, FloorLog2, Pow2, SizeRoot;
    var l := nofRounds + FloorLog2(finalSize);
    var slots, nonce := Resized(given.slots, 2 * config.nofQueries, nofRounds), given.nonce;
    var committed := CommitFold(env, input, tw, logMax, nofRounds, finalSize, root, inv);
    if committed.InvalidArgument? { return InvalidArgument; }
    var c := committed.value;
    if config.powBits != 0 {
      var mined := env.solve(c.roots, config.powBits);
      if !mined.Ok? { return NotMined; }
      nonce := mined.value;
    }
    var queries := Queries(env, config, c.roots, nonce, finalSize, Pow2(l));
    var answered := QueryPhase(env, c, l, queries, slots);
    if answered.OutOfRange? { return OutOfRange; }
    AnsweredIff(env, c, l, queries, slots, answered.value);
    result := Ok((c, FriProof(answered.value, c.final, nonce)));
  }
}
