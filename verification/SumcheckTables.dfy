/** Multilinear tables: folding, round functions, and how the rounds telescope. */
module MultilinearTables {
  import opened Residues
  import opened Products
  import opened Arrays
  import opened Sums
  import opened PowersOfTwo

  /** Entry i of polynomial p. */
  type Table = (int, int) -> int

  type Combine = seq<Zq> -> Zq

  /** All tables with their lowest variable set to alpha. */
  function Folded(t: Table, alpha: int): Table {
    (p, i) => t(p, 2 * i) + alpha * (t(p, 2 * i + 1) - t(p, 2 * i))
  }

  /** The tables after r rounds; alphas counts from one. */
  function TableAt(t: Table, alphas: int -> int, r: nat): Table {
    if r == 0 then t else Folded(TableAt(t, alphas, r - 1), alphas(r))
  }

  /** The values of all m polynomials at i. */
  function Point(t: Table, m: nat, i: int): (v: seq<Zq>)
    ensures |v| == m
  {
    Vec<Zq>(m, p => M(t(p, i)))
  }

  /** The values at x on the lines through the i-th pairs of entries. */
  function OnLine(t: Table, m: nat, i: int, x: int): (v: seq<Zq>)
    ensures |v| == m
  {
    Vec<Zq>(m, p => M(t(p, 2 * i) + x * (t(p, 2 * i + 1) - t(p, 2 * i))))
  }

  function RoundTerms(c: Combine, t: Table, m: nat, x: int): int -> int {
    i => c(OnLine(t, m, i, x))
  }

  function PointTerms(c: Combine, t: Table, m: nat): int -> int {
    i => c(Point(t, m, i))
  }

  /** The true round function of tables of 2*half entries. */
  function RoundValue(c: Combine, t: Table, m: nat, half: nat, x: int): Zq {
    M(Sum(half, RoundTerms(c, t, m, x)))
  }

  /** The combination summed over all entries. */
  function CubeSum(c: Combine, t: Table, m: nat, size: nat): Zq {
    M(Sum(size, PointTerms(c, t, m)))
  }

  lemma LineEnds(t: Table, m: nat, i: int)
    ensures OnLine(t, m, i, 0) == Point(t, m, 2 * i) && OnLine(t, m, i, 1) == Point(t, m, 2 * i + 1)
  {}

  /** A line evaluated at alpha is an entry of the folded tables. */
  lemma LineIsFolded(t: Table, m: nat, i: int, alpha: int)
    ensures OnLine(t, m, i, alpha) == Point(Folded(t, alpha), m, i)
  {}

  /** The round function at zero and one adds up to the sum over all entries. */
  lemma EndsSum(c: Combine, t: Table, m: nat, half: nat)
    ensures M(RoundValue(c, t, m, half, 0) + RoundValue(c, t, m, half, 1)) == CubeSum(c, t, m, 2 * half)
  {
    hide Sum, Point, OnLine;
    var f, f0, f1 := PointTerms(c, t, m), RoundTerms(c, t, m, 0), RoundTerms(c, t, m, 1);
    SumEvenOdd(half, f);
    forall i | 0 <= i < half ensures f0(i) == f(2 * i) && f1(i) == f(2 * i + 1) {
      LineEnds(t, m, i);
    }
    SumExt(half, f0, i => f(2 * i));
    SumExt(half, f1, i => f(2 * i + 1));
  }

  /** The round function at alpha is the sum over the entries of the folded tables. */
  lemma FoldedSum(c: Combine, t: Table, m: nat, half: nat, alpha: int)
    ensures RoundValue(c, t, m, half, alpha) == CubeSum(c, Folded(t, alpha), m, half)
  {
    hide Sum, Point, OnLine;
    var f, g := RoundTerms(c, t, m, alpha), PointTerms(c, Folded(t, alpha), m);
    forall i | 0 <= i < half ensures f(i) == g(i) {
      LineIsFolded(t, m, i, alpha);
    }
    SumExt(half, f, g);
  }

  /** The true round function of round r of a run over 2^l entries. */
  function TrueRound(c: Combine, t: Table, alphas: int -> int, m: nat, l: nat, r: nat, x: int): Zq
    requires r < l
  {
    RoundValue(c, TableAt(t, alphas, r), m, Pow2(l - r - 1), x)
  }

  /** Telescoping: the first round starts from the claimed sum, every later round from the value of
      the round before it at the challenge. */
  lemma Telescopes(c: Combine, t: Table, alphas: int -> int, m: nat, l: nat, r: nat)
    requires r < l
    ensures M(TrueRound(c, t, alphas, m, l, r, 0) + TrueRound(c, t, alphas, m, l, r, 1))
         == if r == 0 then CubeSum(c, t, m, Pow2(l)) else TrueRound(c, t, alphas, m, l, r - 1, alphas(r))
  {
    hide *;
    RoundEnds(c, t, alphas, m, l, r);
    if r > 0 { RoundAtChallenge(c, t, alphas, m, l, r); } else { TableStep(t, alphas, 0); }
  }

  lemma RoundEnds(c: Combine, t: Table, alphas: int -> int, m: nat, l: nat, r: nat)
    requires r < l
    ensures M(TrueRound(c, t, alphas, m, l, r, 0) + TrueRound(c, t, alphas, m, l, r, 1))
         == CubeSum(c, TableAt(t, alphas, r), m, Pow2(l - r))
  {
    hide RoundValue, CubeSum, TableAt, Pow2, M;
    EndsSum(c, TableAt(t, alphas, r), m, Pow2(l - r - 1));
    Halves(l - r - 1);
  }

  lemma RoundAtChallenge(c: Combine, t: Table, alphas: int -> int, m: nat, l: nat, r: nat)
    requires 0 < r < l
    ensures TrueRound(c, t, alphas, m, l, r - 1, alphas(r)) == CubeSum(c, TableAt(t, alphas, r), m, Pow2(l - r))
  {
    hide RoundValue, CubeSum, Folded, TableAt, Pow2, M;
    TableStep(t, alphas, r);
    FoldedSum(c, TableAt(t, alphas, r - 1), m, Pow2(l - r), alphas(r));
  }

  lemma Halves(l: nat)
    ensures Pow2(l + 1) == 2 * Pow2(l)
  {}

  lemma TableStep(t: Table, alphas: int -> int, r: nat)
    ensures TableAt(t, alphas, 0) == t
    ensures r > 0 ==> TableAt(t, alphas, r) == Folded(TableAt(t, alphas, r - 1), alphas(r))
  {}

  /** The weight of entry b in the multilinear extension at the point xs: low bits first. */
  function Weight(b: int, xs: int -> int, from: nat, l: nat): int
    decreases l
  {
    if l == 0 then 1
    else (if b % 2 == 1 then xs(from) else 1 - xs(from)) * Weight(b / 2, xs, from + 1, l - 1)
  }

  /** The multilinear extension of polynomial p over 2^l entries. */
  function Extension(t: Table, p: int, xs: int -> int, from: nat, l: nat): int {
    Sum(Pow2(l), b => t(p, b) * Weight(b, xs, from, l))
  }

  /** Setting the lowest variable first does not change the extension. */
  lemma ExtensionStep(t: Table, p: int, xs: int -> int, from: nat, l: nat)
    requires l >= 1
    ensures Extension(t, p, xs, from, l) == Extension(Folded(t, xs(from)), p, xs, from + 1, l - 1)
  {
    hide Sum, Weight, Folded;
    var n := Pow2(l - 1);
    var f, g := b => t(p, b) * Weight(b, xs, from, l), b => Folded(t, xs(from))(p, b) * Weight(b, xs, from + 1, l - 1);
    SumEvenOdd(n, f);
    var f0, f1 := b => f(2 * b), b => f(2 * b + 1);
    SumAdd(n, f0, f1);
    forall b | 0 <= b < n ensures f0(b) + f1(b) == g(b) {
      PairOfTerms(t, p, xs, from, l, b);
    }
    SumExt(n, b => f0(b) + f1(b), g);
  }

  lemma WeightBits(xs: int -> int, from: nat, l: nat, b: int)
    requires l >= 1
    ensures Weight(2 * b, xs, from, l) == (1 - xs(from)) * Weight(b, xs, from + 1, l - 1)
    ensures Weight(2 * b + 1, xs, from, l) == xs(from) * Weight(b, xs, from + 1, l - 1)
  {
    assert (2 * b) % 2 == 0 && (2 * b) / 2 == b && (2 * b + 1) % 2 == 1 && (2 * b + 1) / 2 == b;
  }

  lemma PairOfTerms(t: Table, p: int, xs: int -> int, from: nat, l: nat, b: int)
    requires l >= 1
    ensures t(p, 2 * b) * Weight(2 * b, xs, from, l) + t(p, 2 * b + 1) * Weight(2 * b + 1, xs, from, l)
         == Folded(t, xs(from))(p, b) * Weight(b, xs, from + 1, l - 1)
  {
    hide Weight;
    WeightBits(xs, from, l, b);
    WeightPair(t(p, 2 * b), t(p, 2 * b + 1), xs(from), Weight(b, xs, from + 1, l - 1));
  }

  lemma WeightPair(a: int, b: int, x: int, w: int)
    ensures a * ((1 - x) * w) + b * (x * w) == (a + x * (b - a)) * w
  {
    Distribute(w, 1, 1 - x, x);
    Distribute(a, w, (1 - x) * w, x * w);
    Distribute(x, b, b - a, a);
    Associate(b, x, w);
    Associate(a, x, w);
    Total(a, x * (b - a), w);
    assert x * (b - a) == x * b - x * a && (x * b - x * a) * w == (x * b) * w - (x * a) * w;
  }

  lemma Total(a: int, b: int, w: int)
    ensures (a + b) * w == a * w + b * w
  {}

  /** The point from position from on, counted from one. */
  function Challenges(xs: int -> int, from: int): int -> int {
    j => xs(from + j - 1)
  }

  /** After all variables are set the table holds the extension at the point. */
  lemma {:induction false} FoldedIsExtension(t: Table, p: int, xs: int -> int, from: nat, r: nat)
    ensures TableAt(t, Challenges(xs, from), r)(p, 0) == Extension(t, p, xs, from, r)
    decreases r
  {
    hide Extension, TableAt, Folded;
    if r == 0 {
      ExtensionOfOne(t, p, xs, from);
      TableStep(t, Challenges(xs, from), 0);
    } else {
      ExtensionStep(t, p, xs, from, r);
      FoldedIsExtension(Folded(t, xs(from)), p, xs, from + 1, r - 1);
      FoldFirst(t, xs, from, r - 1, p, 0);
    }
  }

  lemma ExtensionOfOne(t: Table, p: int, xs: int -> int, from: nat)
    ensures Extension(t, p, xs, from, 0) == t(p, 0)
  {
    SumStep(1, b => t(p, b) * Weight(b, xs, from, 0));
  }

  /** Folding by the first challenge and then by the others is folding by all of them. */
  lemma {:induction false} FoldFirst(t: Table, xs: int -> int, from: nat, r: nat, p: int, i: int)
    ensures TableAt(t, Challenges(xs, from), r + 1)(p, i)
         == TableAt(Folded(t, xs(from)), Challenges(xs, from + 1), r)(p, i)
    decreases r
  {
    hide TableAt;
    var a, b, u := Challenges(xs, from), Challenges(xs, from + 1), Folded(t, xs(from));
    TableStep(t, a, r + 1);
    TableStep(t, a, 1);
    TableStep(u, b, r);
    assert a(r + 1) == xs(from + r) && a(1) == xs(from);
    if r > 0 {
      assert b(r) == xs(from + r);
      FoldFirst(t, xs, from, r - 1, p, 2 * i);
      FoldFirst(t, xs, from, r - 1, p, 2 * i + 1);
    } else {
      TableStep(t, a, 0);
    }
  }

  /** The last round is the combination of the multilinear extensions at all the challenges. */
  lemma LastRound(c: Combine, t: Table, xs: int -> int, m: nat, l: nat, x: int)
    requires l >= 1 && xs(l - 1) == x
    ensures TrueRound(c, t, Challenges(xs, 0), m, l, l - 1, x) == M(c(Vec<Zq>(m, p => M(Extension(t, p, xs, 0, l)))))
  {
    hide TableAt, Extension, Folded, OnLine, Sum;
    var a := Challenges(xs, 0);
    var u, f := TableAt(t, a, l - 1), RoundTerms(c, TableAt(t, a, l - 1), m, x);
    SumStep(1, f);
    SumStep(0, f);
    assert Pow2(0) == 1;
    LineIsFolded(u, m, 0, x);
    TableStep(t, a, l);
    assert a(l) == x;
    var v, w := Point(TableAt(t, a, l), m, 0), Vec<Zq>(m, p => M(Extension(t, p, xs, 0, l)));
    forall p | 0 <= p < m ensures v[p] == w[p] {
      FoldedIsExtension(t, p, xs, 0, l);
    }
    assert v == w;
  }
}

/** Sums split over workers, in any order of the elements. */
module WorkerSums {
  import opened Residues
  import opened Products
  import opened Sums

  /** The terms that worker w has added so far, perWorker consecutive elements belonging to each. */
  function DoneTerms(f: int -> int, done: set<int>, w: int, perWorker: int): int -> int
    requires perWorker >= 1
  {
    i => if i in done && i / perWorker == w then f(i) else 0
  }

  lemma SumChange(n: nat, k: int, f: int -> int, g: int -> int)
    requires 0 <= k < n && forall i :: 0 <= i < n && i != k ==> f(i) == g(i)
    ensures Sum(n, g) == Sum(n, f) + (g(k) - f(k))
  {
    hide Sum;
    var d := i => g(i) - f(i);
    SumAdd(n, f, d);
    SumExt(n, g, i => f(i) + d(i));
    SumSingle(n, k, d);
  }

  /** One more element adds its term to its own worker's sum and to no other. */
  lemma AddDone(n: nat, f: int -> int, done: set<int>, w: int, perWorker: int, e: int)
    requires 0 <= e < n && e !in done && perWorker >= 1
    ensures Sum(n, DoneTerms(f, done + {e}, w, perWorker))
         == Sum(n, DoneTerms(f, done, w, perWorker)) + (if e / perWorker == w then f(e) else 0)
  {
    hide Sum;
    var a, b := DoneTerms(f, done, w, perWorker), DoneTerms(f, done + {e}, w, perWorker);
    forall i | 0 <= i < n && i != e ensures a(i) == b(i) {}
    SumChange(n, e, a, b);
    assert a(e) == 0;
  }

  lemma NoneDone(n: nat, f: int -> int, w: int, perWorker: int)
    requires perWorker >= 1
    ensures Sum(n, DoneTerms(f, {}, w, perWorker)) == 0
  {
    hide Sum;
    SumZero(n, DoneTerms(f, {}, w, perWorker));
  }

  function WorkerSum(n: nat, f: int -> int, done: set<int>, perWorker: int): int -> int
    requires perWorker >= 1
  {
    w => Sum(n, DoneTerms(f, done, w, perWorker))
  }

  /** The workers' sums together are the whole sum: the ceiling split covers every element once. */
  lemma WorkersTotal(n: nat, f: int -> int, done: set<int>, workers: nat, perWorker: int)
    requires perWorker >= 1 && n <= workers * perWorker && forall i :: 0 <= i < n ==> i in done
    ensures Sum(workers, WorkerSum(n, f, done, perWorker)) == Sum(n, f)
  {
    hide Sum;
    var g := (w: int, i: int) => if i / perWorker == w then f(i) else 0;
    var a := w => Sum(n, i => g(w, i));
    forall w | 0 <= w < workers ensures WorkerSum(n, f, done, perWorker)(w) == a(w) {
      SumExt(n, DoneTerms(f, done, w, perWorker), i => g(w, i));
    }
    SumExt(workers, WorkerSum(n, f, done, perWorker), a);
    SumSwap(workers, n, g);
    var b := i => Sum(workers, w => g(w, i));
    forall i | 0 <= i < n ensures b(i) == f(i) {
      OwnerInRange(i, n, workers, perWorker);
      SumSingle(workers, i / perWorker, w => g(w, i));
    }
    SumExt(n, b, f);
  }

  lemma OwnerInRange(i: int, n: nat, workers: nat, perWorker: int)
    requires perWorker >= 1 && 0 <= i < n <= workers * perWorker
    ensures 0 <= i / perWorker < workers
  {
    var q := i / perWorker;
    assert i == q * perWorker + i % perWorker;
    if q < 0 { NonNegative(-1 - q, perWorker); }
    if q >= workers { NonNegative(q - workers, perWorker); Distribute(perWorker, q, q - workers, workers); }
  }

  /** Workers and elements per worker as the prover splits them. */
  lemma CeilingSplit(total: nat, maxWorkers: nat, workers: nat, perWorker: nat)
    requires total >= 1 && maxWorkers >= 1
    requires workers == (if maxWorkers < total then maxWorkers else total)
    requires perWorker == (total + workers - 1) / workers
    ensures workers >= 1 && perWorker >= 1 && total <= workers * perWorker
  {
    var x := total + workers - 1;
    assert x == perWorker * workers + x % workers;
  }
}
