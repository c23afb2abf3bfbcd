/** The CPU prover: tables folded through a sliding window of one buffer, elements shared out to workers. */
module SumcheckProver {
  import opened Residues
  import opened Products
  import opened Arrays
  import opened Sums
  import opened PowersOfTwo
  import opened MultilinearTables
  import opened WorkerSums

  /** Entry i of polynomial p in the buffer. */
  ghost function Entry(values: seq<Zq>, m: nat, n: nat, p: nat, i: nat): Zq
    requires |values| == Cell(n, m, 0) && p < m && i < n
  {
    CellRange(m, n, p, i);
    values[Cell(n, p, i)]
  }

  /** Entries base to base + size of every polynomial are those of t. */
  ghost predicate Holds(values: seq<Zq>, m: nat, n: nat, base: nat, size: nat, t: Table)
    requires |values| == Cell(n, m, 0) && base + size <= n
  {
    forall p: nat, i: nat :: p < m && i < size ==> Entry(values, m, n, p, base + i) == M(t(p, i))
  }

  lemma EntryWritten(was: seq<Zq>, values: seq<Zq>, m: nat, n: nat, p: nat, i: nat, x: Zq)
    requires |was| == Cell(n, m, 0) && p < m && i < n && Cell(n, p, i) < |was| && values == was[Cell(n, p, i) := x]
    ensures forall q: nat, j: nat :: q < m && j < n ==>
      Entry(values, m, n, q, j) == if q == p && j == i then x else Entry(was, m, n, q, j)
  {
    hide Cell;
    forall q: nat, j: nat | q < m && j < n
      ensures Entry(values, m, n, q, j) == if q == p && j == i then x else Entry(was, m, n, q, j)
    {
      CellRange(m, n, q, j);
      if Cell(n, q, j) == Cell(n, p, i) { CellUnique(n, q, j, p, i); }
    }
  }

  method Read(values: array<Zq>, m: nat, n: nat, p: nat, i: nat) returns (x: Zq)
    requires values.Length == Cell(n, m, 0) && p < m && i < n
    ensures x == Entry(values[..], m, n, p, i)
  {
    CellRange(m, n, p, i);
    x := values[Cell(n, p, i)];
  }

  method Write(values: array<Zq>, m: nat, n: nat, p: nat, i: nat, x: Zq)
    requires values.Length == Cell(n, m, 0) && p < m && i < n
    modifies values
    ensures forall q: nat, j: nat :: q < m && j < n ==>
      Entry(values[..], m, n, q, j) == if q == p && j == i then x else Entry(old(values[..]), m, n, q, j)
  {
    hide Cell;
    CellRange(m, n, p, i);
    values[Cell(n, p, i)] := x;
    EntryWritten(old(values[..]), values[..], m, n, p, i, x);
  }

  /** a + alpha * (b - a) with a reduction after every operation. */
  function FoldPair(a: Zq, b: Zq, alpha: Zq): Zq {
    M(a + M(alpha * M(b - a)))
  }

  lemma FoldPairCong(a: Zq, b: Zq, alpha: Zq, x: int, y: int)
    requires a == M(x) && b == M(y)
    ensures FoldPair(a, b, alpha) == M(x + alpha * (y - x))
  {
    hide M;
    MTwice(x);
    MTwice(y);
    CongSub(b, y, a, x);
    MTwice(b - a);
    CongScale(M(b - a), y - x, alpha);
    MTwice(alpha * M(b - a));
    CongAdd(a, x, M(alpha * M(b - a)), alpha * (y - x));
  }

  lemma FoldsTo(a: Zq, b: Zq, alpha: Zq, t: Table, p: int, i: int)
    requires a == M(t(p, 2 * i)) && b == M(t(p, 2 * i + 1))
    ensures FoldPair(a, b, alpha) == M(Folded(t, alpha)(p, i))
  {
    hide M, FoldPair;
    FoldPairCong(a, b, alpha, t(p, 2 * i), t(p, 2 * i + 1));
  }

  /** The two folded entries of element e at dst: lo and hi per polynomial. */
  ghost predicate Written(values: seq<Zq>, m: nat, n: nat, dst: nat, e: nat, t: Table, count: nat)
    requires |values| == Cell(n, m, 0) && dst + 2 * e + 1 < n && count <= m
  {
    forall p: nat :: p < count ==>
      (&& Entry(values, m, n, p, dst + 2 * e) == M(t(p, 2 * e))
       && Entry(values, m, n, p, dst + 2 * e + 1) == M(t(p, 2 * e + 1)))
  }

  /** Nothing but the two entries of element e has changed, and those only below polynomial count. */
  ghost predicate OnlyElement(values: seq<Zq>, was: seq<Zq>, m: nat, n: nat, dst: nat, e: nat, count: nat)
    requires |values| == |was| == Cell(n, m, 0)
  {
    forall p: nat, i: nat :: p < m && i < n && (p >= count || (i != dst + 2 * e && i != dst + 2 * e + 1)) ==>
      Entry(values, m, n, p, i) == Entry(was, m, n, p, i)
  }

  ghost function InputTable(tables: seq<seq<Zq>>): Table {
    (p, i) => if 0 <= p < |tables| && 0 <= i < |tables[p]| then tables[p][i] else 0
  }

  lemma InputEntries(tables: seq<seq<Zq>>, p: nat, i: nat)
    requires p < |tables| && i + 3 < |tables[p]|
    ensures M(InputTable(tables)(p, i)) == tables[p][i] && M(InputTable(tables)(p, i + 1)) == tables[p][i + 1]
    ensures M(InputTable(tables)(p, i + 2)) == tables[p][i + 2] && M(InputTable(tables)(p, i + 3)) == tables[p][i + 3]
  {}

  /** One element of the first fold reads the input tables. */
  method FoldInput(tables: seq<seq<Zq>>, values: array<Zq>, m: nat, n: nat, e: nat, alpha: Zq)
    requires |tables| == m && forall p :: 0 <= p < m ==> |tables[p]| == n
    requires values.Length == Cell(n, m, 0) && 4 * e + 3 < n
    modifies values
    ensures Written(values[..], m, n, 0, e, Folded(InputTable(tables), alpha), m)
    ensures OnlyElement(values[..], old(values[..]), m, n, 0, e, m)
  {
    hide Cell, FoldPair, Entry, M;
    for p := 0 to m
      invariant Written(values[..], m, n, 0, e, Folded(InputTable(tables), alpha), p)
      invariant OnlyElement(values[..], old(values[..]), m, n, 0, e, p)
    {
      var x := tables[p];
      InputEntries(tables, p, 4 * e);
      FoldsTo(x[4 * e], x[4 * e + 1], alpha, InputTable(tables), p, 2 * e);
      FoldsTo(x[4 * e + 2], x[4 * e + 3], alpha, InputTable(tables), p, 2 * e + 1);
      Write(values, m, n, p, 2 * e, FoldPair(x[4 * e], x[4 * e + 1], alpha));
      Write(values, m, n, p, 2 * e + 1, FoldPair(x[4 * e + 2], x[4 * e + 3], alpha));
    }
  }

  /** One element of a later fold reads the window and writes behind it: the two never overlap. */
  method FoldWindow(values: array<Zq>, m: nat, n: nat, base: nat, cur: nat, e: nat, alpha: Zq, ghost t: Table)
    requires values.Length == Cell(n, m, 0) && base + 2 * cur <= n && 4 * e + 3 < cur
    requires Holds(values[..], m, n, base, cur, t)
    modifies values
    ensures Written(values[..], m, n, base + cur, e, Folded(t, alpha), m)
    ensures OnlyElement(values[..], old(values[..]), m, n, base + cur, e, m)
  {
    hide Cell, Entry, M, Folded, Holds;
    for p := 0 to m
      invariant Written(values[..], m, n, base + cur, e, Folded(t, alpha), p)
      invariant OnlyElement(values[..], old(values[..]), m, n, base + cur, e, p)
    {
      WindowKept(old(values[..]), values[..], m, n, base, cur, e, t, p);
      FoldCell(values, m, n, base, cur, e, alpha, p, t);
    }
  }

  /** Writing behind the window leaves the window as it is. */
  lemma WindowKept(was: seq<Zq>, values: seq<Zq>, m: nat, n: nat, base: nat, cur: nat, e: nat, t: Table, p: nat)
    requires |was| == |values| == Cell(n, m, 0) && base + 2 * cur <= n && 4 * e + 3 < cur && p < m
    requires Holds(was, m, n, base, cur, t) && OnlyElement(values, was, m, n, base + cur, e, p)
    ensures Holds(values, m, n, base, cur, t)
  {
    hide Cell, Entry, M;
  }

  /** The fold of one polynomial at one element. */
  method FoldCell(values: array<Zq>, m: nat, n: nat, base: nat, cur: nat, e: nat, alpha: Zq, p: nat, ghost t: Table)
    requires values.Length == Cell(n, m, 0) && base + 2 * cur <= n && 4 * e + 3 < cur && p < m
    requires Holds(values[..], m, n, base, cur, t)
    modifies values
    ensures Entry(values[..], m, n, p, base + cur + 2 * e) == M(Folded(t, alpha)(p, 2 * e))
    ensures Entry(values[..], m, n, p, base + cur + 2 * e + 1) == M(Folded(t, alpha)(p, 2 * e + 1))
    ensures forall q: nat, i: nat ::
      q < m && i < n && (q != p || (i != base + cur + 2 * e && i != base + cur + 2 * e + 1)) ==>
      Entry(values[..], m, n, q, i) == Entry(old(values[..]), m, n, q, i)
  {
    hide Cell, FoldPair, Entry, M, Folded;
    WindowEntries(values[..], m, n, base, cur, t, p, 4 * e);
    var a := Read(values, m, n, p, base + 4 * e);
    var b := Read(values, m, n, p, base + 4 * e + 1);
    var c := Read(values, m, n, p, base + 4 * e + 2);
    var d := Read(values, m, n, p, base + 4 * e + 3);
    assert 2 * (2 * e) == 4 * e && 2 * (2 * e + 1) == 4 * e + 2;
    FoldsTo(a, b, alpha, t, p, 2 * e);
    FoldsTo(c, d, alpha, t, p, 2 * e + 1);
    Write(values, m, n, p, base + cur + 2 * e, FoldPair(a, b, alpha));
    Write(values, m, n, p, base + cur + 2 * e + 1, FoldPair(c, d, alpha));
  }

  lemma WindowEntries(values: seq<Zq>, m: nat, n: nat, base: nat, cur: nat, t: Table, p: nat, i: nat)
    requires |values| == Cell(n, m, 0) && base + cur <= n && i + 3 < cur && p < m
    requires Holds(values, m, n, base, cur, t)
    ensures Entry(values, m, n, p, base + i) == M(t(p, i)) && Entry(values, m, n, p, base + i + 1) == M(t(p, i + 1))
    ensures Entry(values, m, n, p, base + i + 2) == M(t(p, i + 2)) && Entry(values, m, n, p,
        base + i + 3) == M(t(p, i + 3))
  {
    hide Cell, Entry, M;
    assert base + (i + 1) == base + i + 1 && base + (i + 2) == base + i + 2 && base + (i + 3) == base + i + 3;
  }

  function Between(a: int, b: int, x: int): int {
    a + x * (b - a)
  }

  /** The inputs of the combine function at x, between lo and hi. */
  function LinePoint(lo: seq<Zq>, hi: seq<Zq>, x: int): (v: seq<Zq>)
    requires |lo| == |hi|
    ensures |v| == |lo|
    ensures forall p :: 0 <= p < |lo| ==> v[p] == M(Between(lo[p], hi[p], x))
  {
    seq(|lo|, p requires 0 <= p < |lo| => M(Between(lo[p], hi[p], x)))
  }

  /** From one evaluation point to the next: subtract the left end, add the right end. */
  function Stepped(v: int, a: int, b: int): Zq {
    M(M(v - a) + b)
  }

  lemma NextPoint(a: int, b: int, x: int, v: int)
    requires M(v) == M(Between(a, b, x))
    ensures Stepped(v, a, b) == M(Between(a, b, x + 1))
  {
    hide M;
    CongSub(v, a + x * (b - a), a, a);
    MTwice(v - a);
    CongAdd(M(v - a), x * (b - a), b, b);
    Distribute(b - a, x + 1, x, 1);
  }

  lemma LineEnd(a: Zq, b: Zq)
    ensures M(Between(a, b, 0)) == a && M(Between(a, b, 1)) == b
  {}

  /** The inputs step from one evaluation point to the next. */
  method NextInputs(inputs: seq<Zq>, lo: seq<Zq>, hi: seq<Zq>, k: nat) returns (v: seq<Zq>)
    requires |inputs| == |lo| == |hi| && (k > 0 ==> inputs == LinePoint(lo, hi, k - 1))
    ensures v == LinePoint(lo, hi, k)
  {
    hide M, Between, Stepped;
    v := inputs;
    for p := 0 to |lo|
      invariant |v| == |lo|
      invariant forall q :: 0 <= q < p ==> v[q] == M(Between(lo[q], hi[q], k))
      invariant forall q :: p <= q < |lo| ==> v[q] == inputs[q]
    {
      LineEnd(lo[p], hi[p]);
      if k == 0 {
        v := v[p := lo[p]];
      } else if k == 1 {
        v := v[p := hi[p]];
      } else {
        Canonical(v[p]);
        NextPoint(lo[p], hi[p], k - 1, v[p]);
        v := v[p := Stepped(v[p], lo[p], hi[p])];
      }
    }
  }

  /** One element's contribution to its worker's round polynomial. */
  method Accumulate(wp: array2<Zq>, w: nat, lo: seq<Zq>, hi: seq<Zq>, c: Combine)
    requires w < wp.Length0 && |lo| == |hi|
    modifies wp
    ensures forall k: nat :: k < wp.Length1 ==> wp[w, k] == M(old(wp[w, k]) + c(LinePoint(lo, hi, k)))
    ensures forall v: nat, k: nat :: v < wp.Length0 && v != w && k < wp.Length1 ==> wp[v, k] == old(wp[v, k])
  {
    hide M, LinePoint;
    var inputs := lo;
    for k := 0 to wp.Length1
      invariant |inputs| == |lo| && (k > 0 ==> inputs == LinePoint(lo, hi, k - 1))
      invariant forall j: nat :: j < k ==> wp[w, j] == M(old(wp[w, j]) + c(LinePoint(lo, hi, j)))
      invariant forall j: nat :: k <= j < wp.Length1 ==> wp[w, j] == old(wp[w, j])
      invariant forall v: nat, j: nat :: v < wp.Length0 && v != w && j < wp.Length1 ==> wp[v, j] == old(wp[v, j])
    {
      inputs := NextInputs(inputs, lo, hi, k);
      wp[w, k] := M(wp[w, k] + c(inputs));
    }
  }

  lemma BetweenCong(a: int, b: int, u: int, v: int, x: int)
    requires M(a) == M(u) && M(b) == M(v)
    ensures M(Between(a, b, x)) == M(Between(u, v, x))
  {
    hide M;
    CongSub(b, v, a, u);
    CongScale(b - a, v - u, x);
    CongAdd(a, u, x * (b - a), x * (v - u));
  }

  lemma LineIsPoint(t: Table, m: nat, i: int, lo: seq<Zq>, hi: seq<Zq>, x: int)
    requires |lo| == |hi| == m
    requires forall p :: 0 <= p < m ==> lo[p] == M(t(p, 2 * i)) && hi[p] == M(t(p, 2 * i + 1))
    ensures LinePoint(lo, hi, x) == OnLine(t, m, i, x)
  {
    hide M;
    forall p | 0 <= p < m ensures M(Between(lo[p], hi[p], x)) == M(t(p, 2 * i) + x * (t(p, 2 * i + 1) - t(p, 2 * i))) {
      MTwice(t(p, 2 * i));
      MTwice(t(p, 2 * i + 1));
      BetweenCong(lo[p], hi[p], t(p, 2 * i), t(p, 2 * i + 1), x);
    }
  }
}
