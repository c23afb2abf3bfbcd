/** The rounds of the prover: fold and accumulate every element, in an order the scheduler chooses. */
module SumcheckRounds {
  import opened Residues
  import opened Products
  import opened Arrays
  import opened Sums
  import opened PowersOfTwo
  import opened MultilinearTables
  import opened WorkerSums
  import opened SumcheckProver

  /** The first width entries of every worker's round polynomial hold the terms of its own finished elements. */
  ghost predicate Tally(wp: array2<Zq>, width: nat, workers: nat, c: Combine, t: Table, m: nat, total: nat,
                        done: set<int>, perWorker: nat)
    requires workers <= wp.Length0 && perWorker >= 1 && width <= wp.Length1
    reads wp
  {
    forall w: nat, k: nat :: w < workers && k < width ==>
      wp[w, k] == M(WorkerSum(total, RoundTerms(c, t, m, k), done, perWorker)(w))
  }

  lemma TallyStep(sum: int, next: int, x: Zq, old_: Zq)
    requires old_ == M(sum) && next == sum + x
    ensures M(old_ + x) == M(next)
  {}

  /** The first width entries are clear for the workers from first on. */
  ghost predicate Clear(wp: array2<Zq>, width: nat, first: nat)
    requires width <= wp.Length1
    reads wp
  {
    forall w: nat, k: nat :: first <= w < wp.Length0 && k < width ==> wp[w, k] == 0
  }

  /** One element is added to the tally of the worker that owns it. */
  method AddElement(wp: array2<Zq>, ghost width: nat, workers: nat, c: Combine, ghost t: Table, m: nat, total: nat,
                    ghost done: set<int>, perWorker: nat, e: nat, lo: seq<Zq>, hi: seq<Zq>)
    requires width <= wp.Length1 && workers <= wp.Length0 && perWorker >= 1 && e < total <= workers * perWorker
    requires e !in done
    requires Tally(wp, width, workers, c, t, m, total, done, perWorker) && Clear(wp, width, workers)
    requires |lo| == |hi| == m
    requires forall p :: 0 <= p < m ==> lo[p] == M(t(p, 2 * e)) && hi[p] == M(t(p, 2 * e + 1))
    modifies wp
    ensures Tally(wp, width, workers, c, t, m, total, done + {e}, perWorker) && Clear(wp, width, workers)
  {
    hide Sum, M, LinePoint, OnLine, DoneTerms;
    OwnerInRange(e, total, workers, perWorker);
    var owner := e / perWorker;
    Accumulate(wp, owner, lo, hi, c);
    forall w: nat, k: nat | w < workers && k < width
      ensures wp[w, k] == M(WorkerSum(total, RoundTerms(c, t, m, k), done + {e}, perWorker)(w))
    {
      var f := RoundTerms(c, t, m, k);
      AddDone(total, f, done, w, perWorker, e);
      LineIsPoint(t, m, e, lo, hi, k);
      if w == owner {
        TallyStep(Sum(total, DoneTerms(f, done, w, perWorker)), Sum(total, DoneTerms(f, done + {e}, w, perWorker)),
                  f(e),
                  old(wp[w, k]));
      }
    }
  }

  lemma NothingTallied(wp: array2<Zq>, width: nat, workers: nat, c: Combine, t: Table, m: nat, total: nat,
                       perWorker: nat)
    requires workers <= wp.Length0 && perWorker >= 1 && width <= wp.Length1 && Clear(wp, width, 0)
    ensures Tally(wp, width, workers, c, t, m, total, {}, perWorker) && Clear(wp, width, workers)
  {
    hide Sum, DoneTerms;
    forall w: nat, k: nat | w < workers && k < width
      ensures wp[w, k] == M(WorkerSum(total, RoundTerms(c, t, m, k), {}, perWorker)(w))
    {
      NoneDone(total, RoundTerms(c, t, m, k), w, perWorker);
    }
  }

  /** The first round reads the input tables and folds nothing. */
  method RoundZero(tables: seq<seq<Zq>>, m: nat, n: nat, wp: array2<Zq>, ghost width: nat, workers: nat, c: Combine,
                   total: nat,
                   perWorker: nat)
    requires |tables| == m && forall p :: 0 <= p < m ==> |tables[p]| == n
    requires workers <= wp.Length0 && perWorker >= 1 && total <= workers * perWorker && 2 * total == n
    requires width <= wp.Length1 && Clear(wp, width, 0)
    modifies wp
    ensures Tally(wp, width, workers, c, InputTable(tables), m, total, Range(total), perWorker)
    ensures Clear(wp, width, workers)
  {
    hide Tally, Clear;
    ghost var t := InputTable(tables);
    ghost var done := {};
    var todo := Range(total);
    NothingTallied(wp, width, workers, c, t, m, total, perWorker);
    while todo != {}
      invariant done + todo == Range(total) && done * todo == {}
      invariant Tally(wp, width, workers, c, t, m, total, done, perWorker)
      invariant Clear(wp, width, workers)
      decreases todo
    {
      var e: int :| e in todo;
      var lo, hi := Column(tables, 2 * e), Column(tables, 2 * e + 1);
      InputColumns(tables, n, e);
      AddElement(wp, width, workers, c, t, m, total, done, perWorker, e, lo, hi);
      done, todo := done + {e}, todo - {e};
    }
    assert done == Range(total);
  }

  /** The elements of a round. */
  function Range(total: nat): (r: set<int>)
    ensures forall e :: e in r <==> 0 <= e < total
  {
    if total == 0 then {} else Range(total - 1) + {total - 1}
  }

  /** Entry i of every table. */
  function Column(tables: seq<seq<Zq>>, i: nat): (v: seq<Zq>)
    requires forall p :: 0 <= p < |tables| ==> i < |tables[p]|
    ensures |v| == |tables| && forall p :: 0 <= p < |tables| ==> v[p] == tables[p][i]
  {
    seq(|tables|, p requires 0 <= p < |tables| => tables[p][i])
  }

  lemma InputColumns(tables: seq<seq<Zq>>, n: nat, e: nat)
    requires 2 * e + 1 < n && forall p :: 0 <= p < |tables| ==> |tables[p]| == n
    ensures forall p :: 0 <= p < |tables| ==>
      Column(tables, 2 * e)[p] == M(InputTable(tables)(p, 2 * e)) && Column(tables,
          2 * e + 1)[p] == M(InputTable(tables)(p, 2 * e + 1))
  {
    forall p | 0 <= p < |tables|
      ensures Column(tables, 2 * e)[p] == M(InputTable(tables)(p, 2 * e)) && Column(tables,
          2 * e + 1)[p] == M(InputTable(tables)(p, 2 * e + 1))
    {
      assert InputTable(tables)(p, 2 * e) == tables[p][2 * e] && InputTable(tables)(p,
          2 * e + 1) == tables[p][2 * e + 1];
    }
  }

  /** The two folded entries of element e of every polynomial. */
  method ReadPair(values: array<Zq>, m: nat, n: nat, dst: nat, e: nat, ghost t: Table)
    returns (lo: seq<Zq>, hi: seq<Zq>)
    requires values.Length == Cell(n, m, 0) && dst + 2 * e + 1 < n
    requires Written(values[..], m, n, dst, e, t, m)
    ensures |lo| == |hi| == m
    ensures forall p :: 0 <= p < m ==> lo[p] == M(t(p, 2 * e)) && hi[p] == M(t(p, 2 * e + 1))
  {
    hide Cell, Entry, M;
    lo, hi := [], [];
    for p := 0 to m
      invariant |lo| == |hi| == p
      invariant forall q :: 0 <= q < p ==> lo[q] == M(t(q, 2 * e)) && hi[q] == M(t(q, 2 * e + 1))
    {
      var a := Read(values, m, n, p, dst + 2 * e);
      var b := Read(values, m, n, p, dst + 2 * e + 1);
      lo, hi := lo + [a], hi + [b];
    }
  }

  /** Every finished element has been written. */
  ghost predicate AllWritten(values: seq<Zq>, m: nat, n: nat, dst: nat, total: nat, t: Table, done: set<int>)
    requires |values| == Cell(n, m, 0) && dst + 2 * total <= n
  {
    forall e: nat :: e < total && e in done ==> Written(values, m, n, dst, e, t, m)
  }

  lemma OneMoreWritten(was: seq<Zq>, values: seq<Zq>, m: nat, n: nat, dst: nat, total: nat, t: Table, done: set<int>,
                       e: nat)
    requires |was| == |values| == Cell(n, m, 0) && dst + 2 * total <= n && e < total
    requires AllWritten(was, m, n, dst, total, t, done)
    requires Written(values, m, n, dst, e, t, m) && OnlyElement(values, was, m, n, dst, e, m)
    ensures AllWritten(values, m, n, dst, total, t, done + {e})
  {
    hide Cell, Entry, M, Written;
    forall d: nat | d < total && d in done && d != e ensures Written(values, m, n, dst, d, t, m) {
      OtherKept(was, values, m, n, dst, t, d, e);
    }
  }

  lemma OtherKept(was: seq<Zq>, values: seq<Zq>, m: nat, n: nat, dst: nat, t: Table, d: nat, e: nat)
    requires |was| == |values| == Cell(n, m, 0) && dst + 2 * d + 1 < n && dst + 2 * e + 1 < n && d != e
    requires Written(was, m, n, dst, d, t, m) && OnlyElement(values, was, m, n, dst, e, m)
    ensures Written(values, m, n, dst, d, t, m)
  {
    hide Cell, Entry, M;
  }

  lemma PairEntries(values: seq<Zq>, m: nat, n: nat, dst: nat, e: nat, t: Table, p: nat)
    requires |values| == Cell(n, m, 0) && dst + 2 * e + 1 < n && p < m && Written(values, m, n, dst, e, t, m)
    ensures Entry(values, m, n, p, dst + (2 * e)) == M(t(p, 2 * e)) && Entry(values, m, n, p,
        dst + (2 * e + 1)) == M(t(p, 2 * e + 1))
  {
    hide Cell, Entry, M;
    assert dst + 2 * e + 1 == dst + (2 * e + 1);
  }

  /** When every element is done the whole folded window is there. */
  lemma WindowDone(values: seq<Zq>, m: nat, n: nat, dst: nat, total: nat, t: Table)
    requires |values| == Cell(n, m, 0) && dst + 2 * total <= n
    requires AllWritten(values, m, n, dst, total, t, Range(total))
    ensures Holds(values, m, n, dst, 2 * total, t)
  {
    hide Cell, Entry, M;
    forall p: nat, i: nat | p < m && i < 2 * total ensures Entry(values, m, n, p, dst + i) == M(t(p, i)) {
      var e := i / 2;
      assert e in Range(total) && Written(values, m, n, dst, e, t, m);
      PairEntries(values, m, n, dst, e, t, p);
      assert i == 2 * e || i == 2 * e + 1;
    }
  }

  /** The second round folds the input tables into the buffer. */
  method RoundOne(tables: seq<seq<Zq>>, values: array<Zq>, m: nat, n: nat, alpha: Zq, wp: array2<Zq>, ghost width: nat,
                  workers: nat, c: Combine, total: nat, perWorker: nat)
    requires |tables| == m && forall p :: 0 <= p < m ==> |tables[p]| == n
    requires values.Length == Cell(n, m, 0)
    requires workers <= wp.Length0 && perWorker >= 1 && total <= workers * perWorker && 4 * total == n
    requires width <= wp.Length1 && Clear(wp, width, 0)
    modifies values, wp
    ensures Tally(wp, width, workers, c, Folded(InputTable(tables), alpha), m, total, Range(total), perWorker)
    ensures Holds(values[..], m, n, 0, 2 * total, Folded(InputTable(tables), alpha))
    ensures Clear(wp, width, workers)
  {
    hide Tally, Clear, Cell, Written, OnlyElement, Holds, AllWritten, Folded;
    ghost var t := Folded(InputTable(tables), alpha);
    ghost var done := {};
    var todo := Range(total);
    NothingTallied(wp, width, workers, c, t, m, total, perWorker);
    NothingWritten(values[..], m, n, 0, total, t);
    while todo != {}
      invariant done + todo == Range(total) && done * todo == {}
      invariant AllWritten(values[..], m, n, 0, total, t, done)
      invariant Tally(wp, width, workers, c, t, m, total, done, perWorker)
      invariant Clear(wp, width, workers)
      decreases todo
    {
      var e: int :| e in todo;
      ghost var was := values[..];
      FoldInput(tables, values, m, n, e, alpha);
      OneMoreWritten(was, values[..], m, n, 0, total, t, done, e);
      var lo, hi := ReadPair(values, m, n, 0, e, t);
      AddElement(wp, width, workers, c, t, m, total, done, perWorker, e, lo, hi);
      done, todo := done + {e}, todo - {e};
    }
    assert done == Range(total);
    WindowDone(values[..], m, n, 0, total, t);
  }

  lemma NothingWritten(values: seq<Zq>, m: nat, n: nat, dst: nat, total: nat, t: Table)
    requires |values| == Cell(n, m, 0) && dst + 2 * total <= n
    ensures AllWritten(values, m, n, dst, total, t, {})
  {}

  /** Later rounds fold the window into the place behind it. */
  method RoundLater(values: array<Zq>, m: nat, n: nat, base: nat, cur: nat, alpha: Zq, ghost prev: Table,
                    wp: array2<Zq>, ghost width: nat, workers: nat, c: Combine, total: nat, perWorker: nat)
    requires values.Length == Cell(n, m, 0) && base + 2 * cur <= n && 4 * total == cur
    requires Holds(values[..], m, n, base, cur, prev)
    requires workers <= wp.Length0 && perWorker >= 1 && total <= workers * perWorker
    requires width <= wp.Length1 && Clear(wp, width, 0)
    modifies values, wp
    ensures Tally(wp, width, workers, c, Folded(prev, alpha), m, total, Range(total), perWorker)
    ensures Holds(values[..], m, n, base + cur, 2 * total, Folded(prev, alpha))
    ensures Clear(wp, width, workers)
  {
    hide Tally, Clear, Cell, Written, OnlyElement, Holds, AllWritten, Folded;
    ghost var t := Folded(prev, alpha);
    ghost var done := {};
    var todo := Range(total);
    NothingTallied(wp, width, workers, c, t, m, total, perWorker);
    NothingWritten(values[..], m, n, base + cur, total, t);
    while todo != {}
      invariant done + todo == Range(total) && done * todo == {}
      invariant Holds(values[..], m, n, base, cur, prev)
      invariant AllWritten(values[..], m, n, base + cur, total, t, done)
      invariant Tally(wp, width, workers, c, t, m, total, done, perWorker)
      invariant Clear(wp, width, workers)
      decreases todo
    {
      var e: int :| e in todo;
      ghost var was := values[..];
      FoldWindow(values, m, n, base, cur, e, alpha, prev);
      WindowStays(was, values[..], m, n, base, cur, e, prev);
      OneMoreWritten(was, values[..], m, n, base + cur, total, t, done, e);
      var lo, hi := ReadPair(values, m, n, base + cur, e, t);
      AddElement(wp, width, workers, c, t, m, total, done, perWorker, e, lo, hi);
      done, todo := done + {e}, todo - {e};
    }
    assert done == Range(total);
    WindowDone(values[..], m, n, base + cur, total, t);
  }

  /** The reads of a round are not disturbed by its writes. */
  lemma WindowStays(was: seq<Zq>, values: seq<Zq>, m: nat, n: nat, base: nat, cur: nat, e: nat, t: Table)
    requires |was| == |values| == Cell(n, m, 0) && base + 2 * cur <= n && 4 * e + 3 < cur
    requires Holds(was, m, n, base, cur, t) && OnlyElement(values, was, m, n, base + cur, e, m)
    ensures Holds(values, m, n, base, cur, t)
  {
    hide Cell, Entry, M;
  }

  /** A round polynomial: what was stored plus the true round function, at 0, 1, ... */
  ghost predicate IsRound(rp: seq<Zq>, stored: seq<Zq>, c: Combine, t: Table, m: nat, total: nat) {
    && |rp| == |stored|
    && forall k: nat :: k < |rp| ==> rp[k] == M(stored[k] as int + RoundValue(c, t, m, total, k))
  }

  lemma TermAdded(s: Zq, f: int -> int, w: nat, x: Zq, r: Zq)
    requires x == M(f(w)) && r == M(s + Sum(w, f))
    ensures M(r + x) == M(s + Sum(w + 1, f))
  {
    hide M;
    SumStep(w + 1, f);
    MTwice(f(w));
    MTwice(s + Sum(w, f));
    CongAdd(r, s + Sum(w, f), x, f(w));
  }

  /** What worker w owes to coefficient k when the round is over. */
  ghost function Share(c: Combine, t: Table, m: nat, total: nat, perWorker: nat, k: nat): int -> int
    requires perWorker >= 1
  {
    WorkerSum(total, RoundTerms(c, t, m, k), Range(total), perWorker)
  }

  lemma Shares(wp: array2<Zq>, width: nat, workers: nat, c: Combine, t: Table, m: nat, total: nat, perWorker: nat)
    requires workers <= wp.Length0 && perWorker >= 1 && width <= wp.Length1
    requires Tally(wp, width, workers, c, t, m, total, Range(total), perWorker)
    ensures forall w: nat, k: nat :: w < workers && k < width ==> wp[w, k] == M(Share(c, t, m, total, perWorker, k)(w))
  {}

  /** The workers' polynomials are added onto the stored round polynomial and cleared, as far as it reaches. */
  method Collect(wp: array2<Zq>, stored: seq<Zq>, workers: nat, ghost c: Combine, ghost t: Table, ghost m: nat,
                 ghost total: nat, ghost perWorker: nat)
    returns (rp: seq<Zq>)
    requires workers <= wp.Length0 && perWorker >= 1 && total <= workers * perWorker && |stored| <= wp.Length1
    requires Tally(wp, |stored|, workers, c, t, m, total, Range(total), perWorker) && Clear(wp, |stored|, workers)
    modifies wp
    ensures IsRound(rp, stored, c, t, m, total)
    ensures Clear(wp, |stored|, 0)
  {
    hide Tally, Share, Sum, M, RoundValue;
    var width := |stored|;
    Shares(wp, width, workers, c, t, m, total, perWorker);
    rp := stored;
    forall k: nat | k < width ensures rp[k] == M(stored[k] as int + Sum(0, Share(c, t, m, total, perWorker, k))) {
      Nothing(stored[k], Share(c, t, m, total, perWorker, k));
    }
    for w := 0 to workers
      invariant |rp| == width
      invariant forall k: nat :: k < width ==>
        rp[k] == M(stored[k] as int + Sum(w, Share(c, t, m, total, perWorker, k)))
      invariant forall v: nat, k: nat :: w <= v < workers && k < width ==>
        wp[v, k] == M(Share(c, t, m, total, perWorker, k)(v))
      invariant forall v: nat, k: nat :: (v < w || workers <= v) && v < wp.Length0 && k < width ==> wp[v, k] == 0
    {
      for k := 0 to width
        invariant |rp| == width
        invariant forall j: nat :: j < k ==>
          rp[j] == M(stored[j] as int + Sum(w + 1, Share(c, t, m, total, perWorker, j)))
        invariant forall j: nat :: k <= j < width ==>
          rp[j] == M(stored[j] as int + Sum(w, Share(c, t, m, total, perWorker, j)))
        invariant forall v: nat, j: nat :: (w < v || (w == v && k <= j)) && v < workers && j < width ==>
          wp[v, j] == M(Share(c, t, m, total, perWorker, j)(v))
        invariant forall v: nat, j: nat ::
          (v < w || workers <= v || (w == v && j < k)) && v < wp.Length0 && j < width ==> wp[v, j] == 0
      {
        TermAdded(stored[k], Share(c, t, m, total, perWorker, k), w, wp[w, k], rp[k]);
        rp := rp[k := M(rp[k] + wp[w, k])];
        wp[w, k] := 0;
      }
    }
    forall k: nat | k < width ensures rp[k] == M(stored[k] as int + RoundValue(c, t, m, total, k)) {
      SharesTotal(stored[k], c, t, m, total, workers, perWorker, k);
    }
  }

  lemma Nothing(s: Zq, f: int -> int)
    ensures s == M(s as int + Sum(0, f))
  {}

  lemma SharesTotal(s: Zq, c: Combine, t: Table, m: nat, total: nat, workers: nat, perWorker: nat, k: nat)
    requires perWorker >= 1 && total <= workers * perWorker
    ensures M(s as int + Sum(workers, Share(c, t, m, total, perWorker, k)))
         == M(s as int + RoundValue(c, t, m, total, k))
  {
    hide Sum, WorkerSum, RoundTerms, M;
    WorkersTotal(total, RoundTerms(c, t, m, k), Range(total), workers, perWorker);
    TotalCong(s, c, t, m, total, Sum(workers, Share(c, t, m, total, perWorker, k)), k);
  }

  lemma TotalCong(s: int, c: Combine, t: Table, m: nat, total: nat, x: int, k: nat)
    requires M(x) == RoundValue(c, t, m, total, k)
    ensures M(s + x) == M(s + RoundValue(c, t, m, total, k))
  {}
}

/** The whole run of the prover. */
module SumcheckRun {
  import opened Residues
  import opened Products
  import opened Arrays
  import opened PowersOfTwo
  import opened MultilinearTables
  import opened WorkerSums
  import opened SumcheckProver
  import opened SumcheckRounds

  datatype Result<T> = Ok(value: T) | InvalidArgument

  /** The round polynomials and the challenge vector. */
  datatype Proof = Proof(rounds: seq<seq<Zq>>, challenges: seq<Zq>)

  function At(challenges: seq<Zq>): int -> int {
    j => if 0 <= j < |challenges| then challenges[j] else 0
  }

  lemma {:induction false} TableSame(t: Table, a: int -> int, b: int -> int, r: nat)
    requires forall j :: 1 <= j <= r ==> a(j) == b(j)
    ensures TableAt(t, a, r) == TableAt(t, b, r)
  {
    if r > 0 { TableSame(t, a, b, r - 1); }
  }

  /** The output object's round polynomials after it is resized: those already there stay as they are. */
  function Stored(given: seq<seq<Zq>>, l: nat, degree: nat): (stored: seq<seq<Zq>>)
    ensures |stored| == l
    ensures forall r :: 0 <= r < l ==> stored[r] == if r < |given| then given[r] else Zeros(degree + 1)
  {
    seq(l, r requires r >= 0 => if r < |given| then given[r] else Zeros(degree + 1))
  }

  function Zeros(n: nat): (z: seq<Zq>)
    ensures |z| == n && forall k :: 0 <= k < n ==> z[k] == 0
  {
    Vec<Zq>(n, k => 0)
  }

  /** No round polynomial is longer than the one before: the workers' polynomials have the first one's size. */
  ghost predicate Collectable(stored: seq<seq<Zq>>) {
    forall r :: 0 <= r < |stored| - 1 ==> |stored[r + 1]| <= |stored[r]|
  }

  /** The round polynomials so far are what was stored plus the true ones for the challenges so far. */
  ghost predicate Rounds(p: Proof, stored: seq<seq<Zq>>, c: Combine, t: Table, m: nat, l: nat) {
    && |p.rounds| == |p.challenges| <= l == |stored|
    && forall r: nat :: r < |p.rounds| ==>
         IsRound(p.rounds[r], stored[r], c, TableAt(t, At(p.challenges), r), m, Pow2(l - r - 1))
  }

  lemma OneMoreRound(p: Proof, stored: seq<seq<Zq>>, c: Combine, t: Table, m: nat, l: nat, rp: seq<Zq>, alpha: Zq)
    requires Rounds(p, stored, c, t, m, l) && |p.rounds| < l
    requires var r := |p.rounds|;
      IsRound(rp, stored[r], c, TableAt(t, At(p.challenges + [alpha]), r), m, Pow2(l - r - 1))
    ensures Rounds(Proof(p.rounds + [rp], p.challenges + [alpha]), stored, c, t, m, l)
  {
    hide TableAt, IsRound;
    forall r: nat | r < |p.rounds|
      ensures IsRound(p.rounds[r], stored[r], c, TableAt(t, At(p.challenges + [alpha]), r), m, Pow2(l - r - 1))
    {
      TableSame(t, At(p.challenges), At(p.challenges + [alpha]), r);
    }
  }

  /** The tables that the next round folds. */
  ghost function PrevTable(t: Table, challenges: seq<Zq>): Table {
    TableAt(t, At(challenges), if |challenges| > 0 then |challenges| - 1 else 0)
  }

  /** The tables of the next round. */
  lemma NextTable(t: Table, challenges: seq<Zq>, alpha: Zq)
    ensures |challenges| == 0 ==> TableAt(t, At(challenges + [alpha]), 0) == t
    ensures |challenges| == 1 ==> PrevTable(t, challenges) == t
    ensures |challenges| >= 1 ==>
      TableAt(t, At(challenges + [alpha]), |challenges|) == Folded(PrevTable(t, challenges), alpha)
  {
    hide TableAt, Folded;
    var r, a := |challenges|, At(challenges + [alpha]);
    TableStep(t, a, r);
    TableStep(t, At(challenges), 0);
    if r >= 1 {
      assert a(r) == alpha;
      TableSame(t, At(challenges), a, r - 1);
    }
  }

  /** The number of elements of round r, from the size of the window it reads. */
  lemma Sizes(l: nat, r: nat, cur: nat)
    requires r < l && cur == if r == 0 then Pow2(l) else Pow2(l - r + 1)
    ensures (if r == 0 then cur / 2 else cur / 4) == Pow2(l - r - 1) >= 1
    ensures cur == (if r == 0 then 2 else 4) * Pow2(l - r - 1)
    ensures r > 0 ==> cur / 2 == Pow2(l - r)
    ensures r == 0 ==> cur == Pow2(l - r)
    ensures r == 1 ==> cur == Pow2(l)
  {}

  /** Where the next round's window is. */
  lemma NextWindow(l: nat, r: nat, n: nat, base: nat, cur: nat)
    requires r < l && n == Pow2(l) && cur == if r == 0 then n else Pow2(l - r + 1)
    requires if r <= 1 then base == 0 else base + 2 * cur == n
    ensures (if r > 0 then cur / 2 else cur) == Pow2(l - r)
    ensures r > 1 ==> base + cur + 2 * (cur / 2) == n
    ensures r == 1 ==> base + 2 * (cur / 2) == n
  {}

  /** One round of the run: total elements shared out to the workers. */
  method Round(r: nat, tables: seq<seq<Zq>>, values: array<Zq>, m: nat, n: nat, base: nat, cur: nat, alpha: Zq,
               ghost prev: Table, wp: array2<Zq>, stored: seq<Zq>, c: Combine, maxWorkers: nat, total: nat)
    returns (rp: seq<Zq>)
    requires |tables| == m && forall p :: 0 <= p < m ==> |tables[p]| == n
    requires values.Length == Cell(n, m, 0) && wp.Length0 == maxWorkers && maxWorkers >= 1 && total >= 1
    requires r == 0 ==> 2 * total == n
    requires r == 1 ==> 4 * total == n && prev == InputTable(tables)
    requires r >= 2 ==> 4 * total == cur && base + 2 * cur <= n && Holds(values[..], m, n, base, cur, prev)
    requires |stored| <= wp.Length1 && Clear(wp, |stored|, 0)
    modifies values, wp
    ensures IsRound(rp, stored, c, if r == 0 then InputTable(tables) else Folded(prev, alpha), m, total)
    ensures r == 1 ==> Holds(values[..], m, n, 0, 2 * total, Folded(prev, alpha))
    ensures r >= 2 ==> Holds(values[..], m, n, base + cur, 2 * total, Folded(prev, alpha))
    ensures Clear(wp, |stored|, 0)
  {
    hide Tally, Clear, Holds, Cell, IsRound, Folded;
    ghost var width := |stored|;
    var workers := if maxWorkers < total then maxWorkers else total;
    var perWorker := (total + workers - 1) / workers;
    CeilingSplit(total, maxWorkers, workers, perWorker);
    if r == 0 {
      RoundZero(tables, m, n, wp, width, workers, c, total, perWorker);
      rp := Collect(wp, stored, workers, c, InputTable(tables), m, total, perWorker);
    } else if r == 1 {
      RoundOne(tables, values, m, n, alpha, wp, width, workers, c, total, perWorker);
      rp := Collect(wp, stored, workers, c, Folded(prev, alpha), m, total, perWorker);
    } else {
      RoundLater(values, m, n, base, cur, alpha, prev, wp, width, workers, c, total, perWorker);
      rp := Collect(wp, stored, workers, c, Folded(prev, alpha), m, total, perWorker);
    }
  }

  /** The challenge of round j comes from the round polynomials before it; the first is zero. */
  predicate Challenged(p: Proof, transcript: seq<seq<Zq>> -> Zq) {
    && |p.rounds| == |p.challenges|
    && forall j :: 0 <= j < |p.rounds| ==> p.challenges[j] == if j == 0 then 0 else transcript(p.rounds[..j])
  }

  lemma OneMoreChallenge(p: Proof, transcript: seq<seq<Zq>> -> Zq, rp: seq<Zq>, alpha: Zq)
    requires Challenged(p, transcript) && alpha == if |p.rounds| == 0 then 0 else transcript(p.rounds)
    ensures Challenged(Proof(p.rounds + [rp], p.challenges + [alpha]), transcript)
  {
    forall j | 0 <= j <= |p.rounds| ensures (p.rounds + [rp])[..j] == p.rounds[..j] {}
    assert p.rounds[..|p.rounds|] == p.rounds;
  }

  /** Whatever the transcript does, proofs with these round polynomials have the same challenge in round j. */
  ghost predicate SameChallenge(rounds: seq<seq<Zq>>, rounds': seq<seq<Zq>>, j: nat)
    requires j < |rounds| && j < |rounds'|
  {
    forall transcript: seq<seq<Zq>> -> Zq, c: seq<Zq>, c': seq<Zq> ::
      Challenged(Proof(rounds, c), transcript) && Challenged(Proof(rounds', c'), transcript) ==> c[j] == c'[j]
  }

  function DrawnFrom(rounds: seq<seq<Zq>>, transcript: seq<seq<Zq>> -> Zq): (c: seq<Zq>)
    ensures Challenged(Proof(rounds, c), transcript)
  {
    seq(|rounds|, j requires 0 <= j < |rounds| => if j == 0 then 0 else transcript(rounds[..j]))
  }

  /** The challenge of a round depends on every round polynomial before it, and on no other. */
  lemma ChallengeDependsOn(rounds: seq<seq<Zq>>, rounds': seq<seq<Zq>>, j: nat)
    requires 1 <= j < |rounds| && j < |rounds'|
    ensures SameChallenge(rounds, rounds', j) <==> rounds[..j] == rounds'[..j]
  {
    if SameChallenge(rounds, rounds', j) {
      var transcript: seq<seq<Zq>> -> Zq := h => if h == rounds[..j] then 1 else 0;
      var c, c' := DrawnFrom(rounds, transcript), DrawnFrom(rounds', transcript);
      assert c[j] == c'[j];
    }
  }

  /** Every entry k of round r is what the output object held there plus the true round function at k, for the
      challenges that the transcript draws from these sums. */
  method GetProof(tables: seq<seq<Zq>>, l: nat, c: Combine, degree: int, transcript: seq<seq<Zq>> -> Zq,
                  maxWorkers: nat,
                  useExtensionField: bool, given: seq<seq<Zq>>) returns (result: Result<Proof>)
    requires l >= 1 && maxWorkers >= 1 && forall p :: 0 <= p < |tables| ==> |tables[p]| == Pow2(l)
    requires degree >= 0 ==> Collectable(Stored(given, l, degree))
    ensures result.InvalidArgument? <==> useExtensionField || degree < 0
    ensures result.Ok? ==> |result.value.rounds| == l && Challenged(result.value, transcript)
    ensures result.Ok? ==> Rounds(result.value, Stored(given, l, degree), c, InputTable(tables), |tables|, l)
  {
    hide Challenged, Rounds, Holds, Folded, TableAt, IsRound, Pow2, Clear, Stored, Collectable, At, InputTable;
    if useExtensionField { return InvalidArgument; }
    if degree < 0 { return InvalidArgument; }
    var m, n := |tables|, Pow2(l);
    NonNegative(m, n);
    var values := new Zq[m * n](i => 0);
    var stored := Stored(given, l, degree);
    var wp := new Zq[maxWorkers, |stored[0]|]((w, k) => 0);
    AllClear(wp);
    var rounds: seq<seq<Zq>>, challenges: seq<Zq> := [], [];
    var cur: nat, base: nat := n, 0;
    ghost var t := InputTable(tables);
    NoRounds(stored, c, t, m, l, transcript);
    for r := 0 to l
      invariant |rounds| == |challenges| == r && Challenged(Proof(rounds, challenges), transcript)
      invariant Rounds(Proof(rounds, challenges), stored, c, t, m, l)
      invariant cur == if r == 0 then n else Pow2(l - r + 1)
      invariant if r <= 1 then base == 0 else base + 2 * cur == n
      invariant r == 2 ==> base == 0
      invariant r >= 2 ==> Holds(values[..], m, n, base, cur, TableAt(t, At(challenges), r - 1))
      invariant r < l ==> |stored[r]| <= wp.Length1 && Clear(wp, |stored[r]|, 0)
    {
      Sizes(l, r, cur);
      NextWindow(l, r, n, base, cur);
      var total := if r == 0 then cur / 2 else cur / 4;
      var alpha := if r > 0 then transcript(rounds) else 0;
      ghost var prev := PrevTable(t, challenges);
      NextTable(t, challenges, alpha);
      var rp := Round(r, tables, values, m, n, base, cur, alpha, prev, wp, stored[r], c, maxWorkers, total);
      OneMoreRound(Proof(rounds, challenges), stored, c, t, m, l, rp, alpha);
      OneMoreChallenge(Proof(rounds, challenges), transcript, rp, alpha);
      rounds, challenges := rounds + [rp], challenges + [alpha];
      if r > 1 { base := base + cur; }
      cur := if r > 0 then cur / 2 else cur;
      if r + 1 < l { LessClear(wp, stored, r); }
    }
    result := Ok(Proof(rounds, challenges));
  }

  lemma AllClear(wp: array2<Zq>)
    requires forall w: nat, k: nat :: w < wp.Length0 && k < wp.Length1 ==> wp[w, k] == 0
    ensures Clear(wp, wp.Length1, 0)
  {}

  lemma LessClear(wp: array2<Zq>, stored: seq<seq<Zq>>, r: nat)
    requires Collectable(stored) && r + 1 < |stored| && |stored[r]| <= wp.Length1 && Clear(wp, |stored[r]|, 0)
    ensures |stored[r + 1]| <= wp.Length1 && Clear(wp, |stored[r + 1]|, 0)
  {}

  lemma NoRounds(stored: seq<seq<Zq>>, c: Combine, t: Table, m: nat, l: nat, transcript: seq<seq<Zq>> -> Zq)
    requires |stored| == l
    ensures Rounds(Proof([], []), stored, c, t, m, l) && Challenged(Proof([], []), transcript)
  {}

  /** The round polynomials are the true ones, of the combine function's degree. */
  ghost predicate TrueRounds(p: Proof, c: Combine, t: Table, m: nat, l: nat, degree: nat) {
    Rounds(p, Stored([], l, degree), c, t, m, l)
  }

  /** The output object adds nothing: its first l rounds are zero and have the right length. */
  ghost predicate AddsNothing(given: seq<seq<Zq>>, l: nat, degree: nat) {
    forall r :: 0 <= r < l && r < |given| ==> given[r] == Zeros(degree + 1)
  }

  /** The proof is the true one if and only if the output object added nothing to it. */
  lemma TrueExactly(p: Proof, given: seq<seq<Zq>>, c: Combine, t: Table, m: nat, l: nat, degree: nat)
    requires Rounds(p, Stored(given, l, degree), c, t, m, l) && |p.rounds| == l
    ensures TrueRounds(p, c, t, m, l, degree) <==> AddsNothing(given, l, degree)
  {
    hide TableAt, RoundValue, Pow2;
    var stored, zeros := Stored(given, l, degree), Stored([], l, degree);
    forall r: nat | r < l
      ensures IsRound(p.rounds[r], zeros[r], c, TableAt(t, At(p.challenges), r), m, Pow2(l - r - 1))
         <==> stored[r] == Zeros(degree + 1)
    {
      assert IsRound(p.rounds[r], stored[r], c, TableAt(t, At(p.challenges), r), m, Pow2(l - r - 1));
      ZeroExactly(p.rounds[r], stored[r], degree + 1, c, TableAt(t, At(p.challenges), r), m, Pow2(l - r - 1));
    }
    EachRound(p, given, c, t, m, l, degree);
  }

  lemma EachRound(p: Proof, given: seq<seq<Zq>>, c: Combine, t: Table, m: nat, l: nat, degree: nat)
    requires |p.rounds| == |p.challenges| == l
    requires forall r: nat :: r < l ==>
      (IsRound(p.rounds[r], Stored([], l, degree)[r], c, TableAt(t, At(p.challenges), r), m, Pow2(l - r - 1)) <==>
       Stored(given, l, degree)[r] == Zeros(degree + 1))
    ensures TrueRounds(p, c, t, m, l, degree) <==> AddsNothing(given, l, degree)
  {
    hide TableAt, IsRound, Pow2, Zeros;
    if AddsNothing(given, l, degree) {
      forall r: nat | r < l ensures Stored(given, l, degree)[r] == Zeros(degree + 1) {}
    } else {
      var r :| 0 <= r < l && r < |given| && given[r] != Zeros(degree + 1);
      assert Stored(given, l, degree)[r] == given[r];
    }
  }

  lemma ZeroExactly(rp: seq<Zq>, stored: seq<Zq>, size: nat, c: Combine, t: Table, m: nat, total: nat)
    requires IsRound(rp, stored, c, t, m, total)
    ensures IsRound(rp, Zeros(size), c, t, m, total) <==> stored == Zeros(size)
  {
    hide RoundValue;
    if |stored| == size {
      forall k: nat | k < size
        ensures M(stored[k] as int + RoundValue(c, t, m, total, k)) == M(0 + RoundValue(c, t, m, total, k))
           <==> stored[k] == 0
      {
        AddedResidue(stored[k], RoundValue(c, t, m, total, k));
      }
    }
  }

  lemma AddedResidue(s: Zq, v: Zq)
    ensures M(s as int + v) == M(0 + v) <==> s == 0
  {}

  /** The first round of the second proof is twice that of the first. */
  ghost predicate FirstDoubled(first: Proof, second: Proof, degree: nat) {
    && |first.rounds| > 0 && |second.rounds| > 0 && |first.rounds[0]| == |second.rounds[0]| == degree + 1
    && forall k :: 0 <= k <= degree ==> second.rounds[0][k] == Twice(first.rounds[0][k])
  }

  function Twice(x: Zq): Zq {
    M(2 * (x as int))
  }

  /** The sum that a verifier reads off the first round polynomial. */
  function Claimed(p: Proof): Zq {
    if |p.rounds| > 0 && |p.rounds[0]| > 1 then M(p.rounds[0][0] as int + p.rounds[0][1]) else 0
  }

  /** Two runs into one output object: the second stores twice the first round, so that it claims twice the sum, and
      its proof is the true one only if all that the first one stored was zero. */
  method SecondRun(tables: seq<seq<Zq>>, l: nat, c: Combine, degree: nat, transcript: seq<seq<Zq>> -> Zq,
                   maxWorkers: nat)
    returns (first: Proof, second: Proof)
    requires l >= 1 && maxWorkers >= 1 && forall p :: 0 <= p < |tables| ==> |tables[p]| == Pow2(l)
    ensures TrueRounds(first, c, InputTable(tables), |tables|, l, degree)
    ensures TrueRounds(second, c, InputTable(tables), |tables|, l, degree) <==> AddsNothing(first.rounds, l, degree)
    ensures FirstDoubled(first, second, degree)
    ensures degree >= 1 ==> Claimed(second) == M(2 * CubeSum(c, InputTable(tables), |tables|, Pow2(l)))
  {
    hide Rounds, TrueRounds, FirstDoubled, Claimed, Challenged, Pow2, CubeSum;
    ghost var t, m := InputTable(tables), |tables|;
    var result := GetProof(tables, l, c, degree, transcript, maxWorkers, false, []);
    first := result.value;
    SameLengths(first, [], c, t, m, l, degree);
    assert TrueRounds(first, c, t, m, l, degree) by { SoTrue(first, c, t, m, l, degree); }
    result := GetProof(tables, l, c, degree, transcript, maxWorkers, false, first.rounds);
    second := result.value;
    TrueExactly(second, first.rounds, c, t, m, l, degree);
    FirstRounds(first, second, c, t, m, l, degree);
  }

  /** A proof's rounds have the lengths of the stored ones, so that another run can collect into them. */
  lemma SameLengths(p: Proof, given: seq<seq<Zq>>, c: Combine, t: Table, m: nat, l: nat, degree: nat)
    requires Rounds(p, Stored(given, l, degree), c, t, m, l) && |p.rounds| == l
    requires Collectable(Stored(given, l, degree))
    ensures Collectable(Stored(p.rounds, l, degree))
  {
    hide TableAt, RoundValue, Pow2;
    forall r: nat | r < l ensures |Stored(p.rounds, l, degree)[r]| == |Stored(given, l, degree)[r]| {
      assert IsRound(p.rounds[r], Stored(given, l, degree)[r], c, TableAt(t, At(p.challenges), r), m, Pow2(l - r - 1));
    }
  }

  lemma FirstRounds(first: Proof, second: Proof, c: Combine, t: Table, m: nat, l: nat, degree: nat)
    requires l >= 1 && |first.rounds| == |second.rounds| == l && TrueRounds(first, c, t, m, l, degree)
    requires Rounds(second, Stored(first.rounds, l, degree), c, t, m, l)
    ensures FirstDoubled(first, second, degree)
    ensures degree >= 1 ==> Claimed(second) == M(2 * CubeSum(c, t, m, Pow2(l)))
  {
    hide RoundValue, Pow2, CubeSum, TableAt, TrueRounds, Twice, M;
    TableStep(t, At(first.challenges), 0);
    TableStep(t, At(second.challenges), 0);
    TrueAt(first, c, t, m, l, degree, 0);
    assert IsRound(second.rounds[0], first.rounds[0], c, TableAt(t, At(second.challenges), 0), m, Pow2(l - 0 - 1));
    forall k: nat | k <= degree ensures second.rounds[0][k] == Twice(first.rounds[0][k]) {
      AddedTwice(first.rounds[0][k]);
    }
    if degree >= 1 {
      RunTelescopes(first, c, t, m, l, degree, 0);
      Doubled(first.rounds[0][0], first.rounds[0][1]);
    }
  }

  lemma SoTrue(p: Proof, c: Combine, t: Table, m: nat, l: nat, degree: nat)
    requires Rounds(p, Stored([], l, degree), c, t, m, l)
    ensures TrueRounds(p, c, t, m, l, degree)
  {
    hide Rounds;
  }

  lemma AddedTwice(x: Zq)
    ensures M(x as int + x) == Twice(x)
  {}

  lemma Doubled(a: Zq, b: Zq)
    ensures M(Twice(a) as int + Twice(b)) == M(2 * M(a as int + b))
  {
    hide M;
    var x, y: int := a, b;
    MTwice(2 * x);
    MTwice(2 * y);
    CongAdd(Twice(a), 2 * x, Twice(b), 2 * y);
    MTwice(x + y);
    CongScale(M(x + y), x + y, 2);
  }

  lemma TrueAt(p: Proof, c: Combine, t: Table, m: nat, l: nat, degree: nat, r: nat)
    requires TrueRounds(p, c, t, m, l, degree) && r < |p.rounds|
    ensures |p.rounds| == |p.challenges| <= l && |p.rounds[r]| == degree + 1
    ensures forall k: nat :: k <= degree ==>
      p.rounds[r][k] == RoundValue(c, TableAt(t, At(p.challenges), r), m, Pow2(l - r - 1), k)
  {
    hide RoundValue, TableAt, Pow2;
    var zeros := Stored([], l, degree)[r];
    assert IsRound(p.rounds[r], zeros, c, TableAt(t, At(p.challenges), r), m, Pow2(l - r - 1));
    forall k: nat | k <= degree
      ensures p.rounds[r][k] == RoundValue(c, TableAt(t, At(p.challenges), r), m, Pow2(l - r - 1), k)
    {
      assert zeros[k] == 0;
    }
  }

  /** A whole run telescopes: each round polynomial at zero and one adds up to the round before it at the
      challenge, the first to the sum over the hypercube, and the last is the combination of the multilinear
      extensions at the challenges. */
  lemma RunTelescopes(p: Proof, c: Combine, t: Table, m: nat, l: nat, degree: nat, r: nat)
    requires TrueRounds(p, c, t, m, l, degree) && |p.rounds| == l && r < l && degree >= 1
    ensures |p.rounds[r]| == degree + 1
    ensures M(p.rounds[r][0] as int + p.rounds[r][1] as int)
         == if r == 0 then CubeSum(c, t, m, Pow2(l)) else TrueRound(c, t, At(p.challenges), m, l, r - 1,
                                                                    p.challenges[r])
    ensures r == l - 1 ==> forall k: nat :: k <= degree ==>
      p.rounds[r][k] == M(c(Vec<Zq>(m, q => M(Extension(t, q, FinalPoint(p.challenges, k), 0, l)))))
  {
    hide RoundValue, CubeSum, TableAt, Pow2, M, Extension, TrueRounds;
    TrueAt(p, c, t, m, l, degree, r);
    Telescopes(c, t, At(p.challenges), m, l, r);
    if r == l - 1 {
      forall k: nat | k <= degree
        ensures p.rounds[r][k] == M(c(Vec<Zq>(m, q => M(Extension(t, q, FinalPoint(p.challenges, k), 0, l)))))
      {
        LastRound(c, t, FinalPoint(p.challenges, k), m, l, k);
        TableSame(t, At(p.challenges), Challenges(FinalPoint(p.challenges, k), 0), l - 1);
      }
    }
  }

  /** The challenges after the first, and then x. */
  function FinalPoint(challenges: seq<Zq>, x: int): int -> int {
    j => if 0 <= j && j + 1 < |challenges| then challenges[j + 1] else x
  }
}
