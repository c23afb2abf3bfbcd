/** The parallel transform: per layer, tasks on disjoint lines of memory, in any order. */
module LayerTasks {
  import opened Residues
  import opened Products
  import opened PowersOfTwo
  import opened BitReverseInPlace
  import opened Views
  import opened LayerLayout

  /** Elements per task of a layer. */
  function LogLine(ls: Layers, layer: nat): nat {
    match layer
    case 0 => ls.s0
    case 1 => ls.s1
    case _ => ls.s2
  }

  function NofBlocks(ls: Layers, layer: nat): nat {
    if layer < 2 then Pow2(ls.s2) else Pow2(ls.s0 + ls.s1)
  }

  function NofSubs(ls: Layers, layer: nat): nat {
    match layer
    case 0 => Pow2(ls.s1)
    case 1 => Pow2(ls.s0)
    case _ => 1
  }

  /** Which task a memory place belongs to, and its number within it. */
  function BlockOf(ls: Layers, layer: nat, m: nat): nat {
    if layer < 2 then X2(ls, m) else Times(ls.A(), X1(ls, m)) + X0(ls, m)
  }

  /** x * y, by adding up. */
  function Times(x: nat, y: nat): nat {
    if x == 0 then 0 else Times(x - 1, y) + y
  }

  lemma {:induction false} TimesIs(x: nat, y: nat)
    ensures Times(x, y) == x * y
  {
    if x > 0 { TimesIs(x - 1, y); }
  }

  function SubOf(ls: Layers, layer: nat, m: nat): nat {
    match layer
    case 0 => X1(ls, m)
    case 1 => X0(ls, m)
    case _ => 0
  }

  function ElementOf(ls: Layers, layer: nat, m: nat): nat {
    match layer
    case 0 => X0(ls, m)
    case 1 => X1(ls, m)
    case _ => X2(ls, m)
  }

  /** Every place belongs to one task, at the address that is computed for it. */
  lemma PlaceOfTask(ls: Layers, layer: nat, m: nat)
    requires layer < 3 && m < ls.Size()
    ensures BlockOf(ls, layer, m) < NofBlocks(ls, layer) && SubOf(ls, layer, m) < NofSubs(ls, layer)
    ensures ElementOf(ls, layer, m) < Pow2(LogLine(ls, layer))
    ensures IdxInMem(ls, layer, BlockOf(ls, layer, m), SubOf(ls, layer, m), ElementOf(ls, layer, m)) == m
  {
    hide Pow2, IdxInMem, Mem, X0, X1, X2, Times;
    CoordinatesMem(ls, m);
    IdxIsMem(ls, X0(ls, m), X1(ls, m), X2(ls, m));
    if layer == 2 {
      TimesIs(ls.A(), X1(ls, m));
      Pow2Add(ls.s0, ls.s1);
      FlatRange(X1(ls, m), X0(ls, m), ls.B(), ls.A());
    }
  }

  /** And every address that a task computes belongs to that task. */
  lemma TaskOfPlace(ls: Layers, layer: nat, block: nat, sub: nat, e: nat)
    requires layer < 3 && block < NofBlocks(ls, layer) && sub < NofSubs(ls, layer) && e < Pow2(LogLine(ls, layer))
    ensures var m := IdxInMem(ls, layer, block, sub, e);
            m < ls.Size() && BlockOf(ls, layer, m) == block && SubOf(ls, layer, m) == sub && ElementOf(ls, layer,
                m) == e
  {
    hide Pow2, IdxInMem, Mem, X0, X1, X2, Times;
    if layer == 0 {
      OnLine(ls, e, sub, block);
    } else if layer == 1 {
      OnLine(ls, sub, e, block);
    } else {
      Pow2Add(ls.s0, ls.s1);
      var x1 := block / ls.A();
      QuotientBelow(block, ls.B(), ls.A());
      OnLine(ls, block % ls.A(), x1, e);
      TimesIs(ls.A(), x1);
    }
  }

  lemma OnLine(ls: Layers, x0: nat, x1: nat, x2: nat)
    requires x0 < ls.A() && x1 < ls.B() && x2 < ls.C()
    ensures Mem(ls, x0, x1, x2) < ls.Size()
    ensures IdxInMem(ls, 0, x2, x1, x0) == Mem(ls, x0, x1, x2)
    ensures IdxInMem(ls, 1, x2, x0, x1) == Mem(ls, x0, x1, x2)
    ensures IdxInMem(ls, 2, x0 + ls.A() * x1, 0, x2) == Mem(ls, x0, x1, x2)
    ensures X0(ls, Mem(ls, x0, x1, x2)) == x0 && X1(ls, Mem(ls, x0, x1, x2)) == x1 && X2(ls, Mem(ls, x0, x1, x2)) == x2
  {
    hide Pow2, IdxInMem, Mem, X0, X1, X2;
    IdxIsMem(ls, x0, x1, x2);
    MemRange(ls, x0, x1, x2);
    MemCoordinates(ls, x0, x1, x2);
  }

  datatype Task = Task(row: nat, block: nat, sub: nat)

  predicate ValidTask(ls: Layers, layer: nat, rows: nat, q: Task) {
    q.row < rows && q.block < NofBlocks(ls, layer) && q.sub < NofSubs(ls, layer)
  }

  /** The place of memory index m in row r of a batch. */
  function PlaceIn(ls: Layers, row: nat, m: nat): nat {
    Times(row, ls.Size()) + m
  }

  /** The memory places of a task's elements. */
  function TaskPlaces(ls: Layers, layer: nat, q: Task): (ix: seq<nat>)
    ensures |ix| == Pow2(LogLine(ls, layer))
  {
    seq(Pow2(LogLine(ls, layer)), e requires 0 <= e => PlaceIn(ls, q.row, IdxInMem(ls, layer, q.block, q.sub, e)))
  }

  function TaskAt(ls: Layers, layer: nat, row: nat, m: nat): Task {
    Task(row, BlockOf(ls, layer, m), SubOf(ls, layer, m))
  }

  lemma PlaceInjective(ls: Layers, r: nat, m: nat, r': nat, m': nat)
    requires m < ls.Size() && m' < ls.Size() && PlaceIn(ls, r, m) == PlaceIn(ls, r', m')
    ensures r == r' && m == m'
  {
    hide Pow2, Times;
    TimesIs(r, ls.Size());
    TimesIs(r', ls.Size());
    QuotientUnique(PlaceIn(ls, r, m), ls.Size(), r, m);
    QuotientUnique(PlaceIn(ls, r', m'), ls.Size(), r', m');
  }

  lemma PlaceBelow(ls: Layers, rows: nat, r: nat, m: nat)
    requires r < rows && m < ls.Size()
    ensures PlaceIn(ls, r, m) < PlaceIn(ls, rows, 0)
  {
    hide Pow2, Times;
    TimesIs(r, ls.Size());
    TimesIs(rows, ls.Size());
    FlatRange(r, m, rows, ls.Size());
  }

  /** Entry m of a row. */
  ghost function EntryIn(ls: Layers, rows: nat, mem: seq<Zq>, row: nat, m: nat): Zq
    requires |mem| == PlaceIn(ls, rows, 0) && row < rows && m < ls.Size()
  {
    PlaceBelow(ls, rows, row, m);
    mem[PlaceIn(ls, row, m)]
  }

  lemma TaskPlacesValid(ls: Layers, layer: nat, rows: nat, q: Task)
    requires layer < 3 && ValidTask(ls, layer, rows, q)
    ensures Places(TaskPlaces(ls, layer, q), PlaceIn(ls, rows, 0))
  {
    hide Pow2, IdxInMem, BlockOf, SubOf, ElementOf, PlaceIn, LogLine;
    var ix := TaskPlaces(ls, layer, q);
    forall e | 0 <= e < |ix| ensures ix[e] < PlaceIn(ls, rows, 0) {
      TaskOfPlace(ls, layer, q.block, q.sub, e);
      PlaceBelow(ls, rows, q.row, IdxInMem(ls, layer, q.block, q.sub, e));
    }
    forall e, f | 0 <= e < f < |ix| ensures ix[e] != ix[f] {
      TaskOfPlace(ls, layer, q.block, q.sub, e);
      TaskOfPlace(ls, layer, q.block, q.sub, f);
      if ix[e] == ix[f] {
        PlaceInjective(ls, q.row, IdxInMem(ls, layer, q.block, q.sub, e), q.row,
                       IdxInMem(ls, layer, q.block, q.sub, f));
      }
    }
  }

  /** A place is among a task's places exactly when it belongs to that task. */
  lemma PlaceBelongs(ls: Layers, layer: nat, rows: nat, q: Task, row: nat, m: nat)
    requires layer < 3 && ValidTask(ls, layer, rows, q) && m < ls.Size()
    ensures PlaceIn(ls, row, m) in TaskPlaces(ls, layer, q) <==> TaskAt(ls, layer, row, m) == q
    ensures TaskAt(ls, layer, row, m) == q ==>
      ElementOf(ls, layer, m) < |TaskPlaces(ls, layer, q)| && TaskPlaces(ls, layer,
          q)[ElementOf(ls, layer, m)] == PlaceIn(ls, row, m)
  {
    hide Pow2, IdxInMem, BlockOf, SubOf, ElementOf, PlaceIn, LogLine;
    var ix := TaskPlaces(ls, layer, q);
    PlaceOfTask(ls, layer, m);
    if PlaceIn(ls, row, m) in ix {
      var e :| 0 <= e < |ix| && ix[e] == PlaceIn(ls, row, m);
      TaskOfPlace(ls, layer, q.block, q.sub, e);
      PlaceInjective(ls, q.row, IdxInMem(ls, layer, q.block, q.sub, e), row, m);
    }
    if TaskAt(ls, layer, row, m) == q {
      assert ix[ElementOf(ls, layer, m)] == PlaceIn(ls, row, m);
    }
  }
}

module LayerPass {
  import opened Residues
  import opened Products
  import opened Powers
  import opened PowersOfTwo
  import opened Roots
  import opened FourierTransform
  import opened Views
  import opened Twiddles
  import opened DitInPlace
  import opened LayerLayout
  import opened LayerTasks

  /** The domain and direction that a run works with. */
  datatype Domain = Domain(tw: seq<Zq>, maxSize: nat, inverse: bool, ghost root: int, ghost w: int, ghost logMax: nat) {
    ghost predicate Valid() {
      Table(tw, root, logMax) && DirectionRoot(root, inverse, w) && maxSize == Pow2(logMax)
    }
  }

  /** HALF^l, the inverse of 2^l. */
  function InvLogSize(l: nat): Zq {
    M(Pow(HALF, l))
  }

  /** The last layer that has any work is not followed by a turn. */
  predicate LastLayer(ls: Layers, layer: nat) {
    layer == 2 || LogLine(ls, layer + 1) == 0
  }

  /** The product i*j of the turn after a layer, and the transform length it turns for. */
  function TurnProduct(ls: Layers, layer: nat, q: Task, e: nat): nat {
    if layer == 0 then Times(q.sub, e) else Times(q.block, Shl(e, ls.s0) + q.sub)
  }

  function TurnLog(ls: Layers, layer: nat): nat {
    if layer == 0 then ls.s0 + ls.s1 else ls.s0 + ls.s1 + ls.s2
  }

  function TurnExponent(dm: Domain, ls: Layers, layer: nat, q: Task, e: nat): nat {
    Times(Shr(dm.maxSize, TurnLog(ls, layer)), TurnProduct(ls, layer, q, e))
  }

  lemma TurnInTable(dm: Domain, ls: Layers, layer: nat, rows: nat, q: Task, e: nat)
    requires dm.Valid() && ls.s0 + ls.s1 + ls.s2 <= dm.logMax && layer < 2
    requires ValidTask(ls, layer, rows, q) && e < Pow2(LogLine(ls, layer))
    ensures TurnExponent(dm, ls, layer, q, e) < |dm.tw|
    ensures TurnExponent(dm, ls, layer, q, e) == Pow2(dm.logMax - TurnLog(ls, layer)) * TurnProduct(ls, layer, q, e)
  {
    hide Pow2, IsRoot, Pow, Times, Shl, Shr;
    var n, rest := Pow2(TurnLog(ls, layer)), Pow2(dm.logMax - TurnLog(ls, layer));
    TimesIs(Shr(dm.maxSize, TurnLog(ls, layer)), TurnProduct(ls, layer, q, e));
    ShrIs(dm.maxSize, TurnLog(ls, layer));
    Pow2Add(TurnLog(ls, layer), dm.logMax - TurnLog(ls, layer));
    ExactQuotient(n, rest);
    assert TurnProduct(ls, layer, q, e) < n by {
      if layer == 0 {
        TimesIs(q.sub, e);
        Pow2Add(ls.s0, ls.s1);
        ProductBelow(q.sub, e, Pow2(ls.s1), Pow2(ls.s0));
      } else {
        Pow2Add(ls.s0, ls.s1);
        Pow2Add(ls.s0 + ls.s1, ls.s2);
        ShlIs(e, ls.s0);
        TimesIs(q.block, Shl(e, ls.s0) + q.sub);
        FlatRange(e, q.sub, Pow2(ls.s1), Pow2(ls.s0));
        ProductBelow(q.block, Shl(e, ls.s0) + q.sub, Pow2(ls.s2), Pow2(ls.s0 + ls.s1));
      }
    }
    StepBelow(TurnProduct(ls, layer, q, e), n, rest);
  }

  lemma ProductBelow(x: nat, y: nat, a: nat, b: nat)
    requires x < a && y < b
    ensures 0 <= x * y < b * a
  {
    NonNegative(x, y);
    NonNegative(a - 1 - x, y);
    NonNegative(a, b - 1 - y);
    Distribute(y, a, a - 1 - x, x + 1);
    Distribute(y, x + 1, x, 1);
    Distribute(a, b, b - 1 - y, y + 1);
    Distribute(a, y + 1, y, 1);
  }

  /** What a task leaves for its k-th element when its elements were v. */
  ghost function TaskValue(dm: Domain, ls: Layers, layer: nat, logn: nat, q: Task, v: seq<Zq>, k: nat): Zq
    requires dm.Valid() && layer < 3 && LogLine(ls, layer) <= dm.logMax
  {
    var d := M(Dft(SizeRoot(dm.w, dm.logMax, LogLine(ls, layer)), Pow2(LogLine(ls, layer)), Entries(v), k));
    if LastLayer(ls, layer) then (if dm.inverse then M(d * InvLogSize(logn)) else d)
    else
      var e := TurnExponent(dm, ls, layer, q, k);
      if e < |dm.tw| then M(d * Twiddle(dm.tw, dm.inverse, e)) else 0
  }

  /** Multiplication of every element by the same factor. */
  method ScaleAll(a: array<Zq>, ix: seq<nat>, f: Zq)
    requires Places(ix, a.Length)
    modifies a
    ensures SameOutside(a[..], old(a[..]), ix)
    ensures forall k :: 0 <= k < |ix| ==> View(a[..], ix)[k] == M(View(old(a[..]), ix)[k] * f)
  {
    hide M, View;
    ghost var was := View(a[..], ix);
    for i := 0 to |ix|
      invariant SameOutside(a[..], old(a[..]), ix)
      invariant forall k :: 0 <= k < |ix| ==> View(a[..], ix)[k] == if k < i then M(was[k] * f) else was[k]
    {
      ViewAt(a[..], ix, i);
      WriteOne(a, ix, i, M(a[ix[i]] * f));
    }
  }

  /** The turn after a layer: each element times its twiddle. */
  method RefactorOutput(a: array<Zq>, ix: seq<nat>, dm: Domain, ls: Layers, layer: nat, q: Task, ghost rows: nat)
    requires dm.Valid() && ls.s0 + ls.s1 + ls.s2 <= dm.logMax && layer < 2 && ValidTask(ls, layer, rows, q)
    requires Places(ix, a.Length) && |ix| == Pow2(LogLine(ls, layer))
    modifies a
    ensures SameOutside(a[..], old(a[..]), ix)
    ensures forall k :: 0 <= k < |ix| ==>
      (&& TurnExponent(dm, ls, layer, q, k) < |dm.tw|
       && View(a[..], ix)[k] == M(View(old(a[..]), ix)[k] * Twiddle(dm.tw, dm.inverse,
                                                                    TurnExponent(dm, ls, layer, q, k))))
  {
    hide M, View, TurnExponent, Pow2, Twiddle, Table, DirectionRoot;
    ghost var was := View(a[..], ix);
    for e := 0 to |ix|
      invariant SameOutside(a[..], old(a[..]), ix)
      invariant forall k :: 0 <= k < e ==>
        (&& TurnExponent(dm, ls, layer, q, k) < |dm.tw|
         && View(a[..], ix)[k] == M(was[k] * Twiddle(dm.tw, dm.inverse, TurnExponent(dm, ls, layer, q, k))))
      invariant forall k :: e <= k < |ix| ==> View(a[..], ix)[k] == was[k]
    {
      ViewAt(a[..], ix, e);
      TurnInTable(dm, ls, layer, rows, q, e);
      WriteOne(a, ix, e, M(a[ix[e]] * Twiddle(dm.tw, dm.inverse, TurnExponent(dm, ls, layer, q, e))));
    }
  }

  /** One task: transform its line, then scale after the last layer or turn for the next. */
  method RunTask(a: array<Zq>, dm: Domain, ls: Layers, layer: nat, logn: nat, rows: nat, q: Task)
    requires dm.Valid() && ls.s0 + ls.s1 + ls.s2 <= dm.logMax && layer < 3 && ValidTask(ls, layer, rows, q)
    requires a.Length == PlaceIn(ls, rows, 0)
    modifies a
    ensures Places(TaskPlaces(ls, layer, q), a.Length)
    ensures SameOutside(a[..], old(a[..]), TaskPlaces(ls, layer, q))
    ensures forall k :: 0 <= k < |TaskPlaces(ls, layer, q)| ==>
      View(a[..], TaskPlaces(ls, layer, q))[k] == TaskValue(dm, ls, layer, logn, q,
                                                            View(old(a[..]), TaskPlaces(ls, layer, q)), k)
  {
    hide M, View, TurnExponent, Pow2, Twiddle, Table, DirectionRoot, Dft, SizeRoot, Entries, SameOutside, Places,
      TaskPlaces, PlaceIn, InvLogSize;
    var ix := TaskPlaces(ls, layer, q);
    TaskPlacesValid(ls, layer, rows, q);
    TransformInPlace(a, ix, dm.tw, dm.inverse, LogLine(ls, layer), dm.maxSize, dm.root, dm.w, dm.logMax);
    ghost var mid := a[..];
    if LastLayer(ls, layer) {
      if dm.inverse {
        ScaleAll(a, ix, InvLogSize(logn));
        SameTransitive(a[..], mid, old(a[..]), ix);
      }
    } else {
      RefactorOutput(a, ix, dm, ls, layer, q, rows);
      SameTransitive(a[..], mid, old(a[..]), ix);
    }
  }

  /** What a layer leaves at memory index m of a row when the memory was was. */
  ghost function LayerValue(dm: Domain, ls: Layers, layer: nat, logn: nat, rows: nat, was: seq<Zq>, row: nat,
                            m: nat): Zq
    requires dm.Valid() && layer < 3 && ls.s0 + ls.s1 + ls.s2 <= dm.logMax && row < rows && m < ls.Size()
    requires |was| == PlaceIn(ls, rows, 0)
  {
    PlaceOfTask(ls, layer, m);
    var q := TaskAt(ls, layer, row, m);
    TaskPlacesValid(ls, layer, rows, q);
    TaskValue(dm, ls, layer, logn, q, View(was, TaskPlaces(ls, layer, q)), ElementOf(ls, layer, m))
  }

  /** Lines of the tasks done are transformed, all others are as they were. */
  ghost predicate LayerState(dm: Domain, ls: Layers, layer: nat, logn: nat, rows: nat, was: seq<Zq>, mem: seq<Zq>,
                             done: seq<Task>)
    requires dm.Valid() && layer < 3 && ls.s0 + ls.s1 + ls.s2 <= dm.logMax && |was| == |mem| == PlaceIn(ls, rows, 0)
  {
    forall row, m :: 0 <= row < rows && 0 <= m < ls.Size() ==>
      (PlaceBelow(ls, rows, row, m);
       mem[PlaceIn(ls, row, m)]
         == if TaskAt(ls, layer, row, m) in done then LayerValue(dm, ls, layer, logn, rows, was, row,
                                                                 m) else was[PlaceIn(ls, row, m)])
  }

  /** An order in which every task of a layer runs exactly once. */
  ghost predicate Schedule(order: seq<Task>, ls: Layers, layer: nat, rows: nat) {
    && (forall i :: 0 <= i < |order| ==> ValidTask(ls, layer, rows, order[i]))
    && (forall i, j :: 0 <= i < j < |order| ==> order[i] != order[j])
    && (forall q :: ValidTask(ls, layer, rows, q) ==> q in order)
  }

  /** A line that no task has touched yet still has its old elements. */
  lemma UntouchedLine(dm: Domain, ls: Layers, layer: nat, logn: nat, rows: nat, was: seq<Zq>, mem: seq<Zq>,
                      done: seq<Task>, q: Task)
    requires dm.Valid() && layer < 3 && ls.s0 + ls.s1 + ls.s2 <= dm.logMax && |was| == |mem| == PlaceIn(ls, rows, 0)
    requires LayerState(dm, ls, layer, logn, rows, was, mem, done) && ValidTask(ls, layer, rows, q) && q !in done
    ensures Places(TaskPlaces(ls, layer, q), PlaceIn(ls, rows, 0))
    ensures View(mem, TaskPlaces(ls, layer, q)) == View(was, TaskPlaces(ls, layer, q))
  {
    hide Pow2, IdxInMem, BlockOf, SubOf, ElementOf, PlaceIn, LogLine, Table, DirectionRoot, LayerValue;
    var ix := TaskPlaces(ls, layer, q);
    TaskPlacesValid(ls, layer, rows, q);
    forall e | 0 <= e < |ix| ensures mem[ix[e]] == was[ix[e]] {
      TaskOfPlace(ls, layer, q.block, q.sub, e);
      assert TaskAt(ls, layer, q.row, IdxInMem(ls, layer, q.block, q.sub, e)) == q;
    }
  }

  /** Running one more task advances the state. */
  lemma LayerStep(dm: Domain, ls: Layers, layer: nat, logn: nat, rows: nat, was: seq<Zq>, mem: seq<Zq>,
                  mem': seq<Zq>, done: seq<Task>, q: Task)
    requires dm.Valid() && layer < 3 && ls.s0 + ls.s1 + ls.s2 <= dm.logMax
    requires |was| == |mem| == |mem'| == PlaceIn(ls, rows, 0)
    requires LayerState(dm, ls, layer, logn, rows, was, mem, done) && ValidTask(ls, layer, rows, q) && q !in done
    requires Places(TaskPlaces(ls, layer, q), PlaceIn(ls, rows, 0)) && SameOutside(mem', mem, TaskPlaces(ls, layer, q))
    requires forall k :: 0 <= k < |TaskPlaces(ls, layer, q)| ==>
      View(mem', TaskPlaces(ls, layer, q))[k]
        == TaskValue(dm, ls, layer, logn, q, View(mem, TaskPlaces(ls, layer, q)), k)
    ensures LayerState(dm, ls, layer, logn, rows, was, mem', done + [q])
  {
    hide Pow2, IdxInMem, BlockOf, SubOf, ElementOf, PlaceIn, LogLine, Table, DirectionRoot, TaskValue, TaskPlaces, View;
    UntouchedLine(dm, ls, layer, logn, rows, was, mem, done, q);
    var ix := TaskPlaces(ls, layer, q);
    forall row, m | 0 <= row < rows && 0 <= m < ls.Size()
      ensures PlaceIn(ls, row, m) < PlaceIn(ls, rows, 0) && mem'[PlaceIn(ls, row, m)]
           == if TaskAt(ls, layer, row, m) in done + [q] then LayerValue(dm, ls, layer, logn, rows, was, row,
               m) else was[PlaceIn(ls, row, m)]
    {
      PlaceBelow(ls, rows, row, m);
      PlaceBelongs(ls, layer, rows, q, row, m);
      if TaskAt(ls, layer, row, m) == q {
        ViewAt(mem', ix, ElementOf(ls, layer, m));
      }
    }
  }

  /** One layer, its tasks in any order. */
  method RunLayer(a: array<Zq>, dm: Domain, ls: Layers, layer: nat, logn: nat, rows: nat, order: seq<Task>)
    requires dm.Valid() && ls.s0 + ls.s1 + ls.s2 <= dm.logMax && layer < 3 && a.Length == PlaceIn(ls, rows, 0)
    requires Schedule(order, ls, layer, rows)
    modifies a
    ensures LayerState(dm, ls, layer, logn, rows, old(a[..]), a[..], order)
  {
    hide Pow2, Table, DirectionRoot, TaskValue, TaskPlaces, View, LayerState, PlaceIn, SameOutside, Places;
    ghost var was := a[..];
    LayerStart(dm, ls, layer, logn, rows, was);
    for i := 0 to |order|
      invariant LayerState(dm, ls, layer, logn, rows, was, a[..], order[..i])
    {
      ghost var mem := a[..];
      RunTask(a, dm, ls, layer, logn, rows, order[i]);
      LayerStep(dm, ls, layer, logn, rows, was, mem, a[..], order[..i], order[i]);
      assert order[..i] + [order[i]] == order[..i + 1];
    }
    assert order[..|order|] == order;
  }

  lemma LayerStart(dm: Domain, ls: Layers, layer: nat, logn: nat, rows: nat, was: seq<Zq>)
    requires dm.Valid() && layer < 3 && ls.s0 + ls.s1 + ls.s2 <= dm.logMax && |was| == PlaceIn(ls, rows, 0)
    ensures LayerState(dm, ls, layer, logn, rows, was, was, [])
  {
    hide LayerValue, PlaceIn, Table, DirectionRoot;
  }
}
