/** The layers one after the other, and the final reordering, on all rows of a batch. */
module LayerMeaning {
  import opened Residues
  import opened Products
  import opened Sums
  import opened Powers
  import opened PowersOfTwo
  import opened Roots
  import opened FourierTransform
  import opened Views
  import opened Twiddles
  import opened DitInPlace
  import opened LayerLayout
  import opened LayeredTransform
  import opened LayerTasks
  import opened LayerPass

  /** One row of the memory by coordinates. */
  ghost function RowCube(ls: Layers, rows: nat, mem: seq<Zq>, row: nat): Cube
    requires |mem| == PlaceIn(ls, rows, 0) && row < rows
  {
    (x0: int, x1: int, x2: int) =>
      if 0 <= x0 < ls.A() && 0 <= x1 < ls.B() && 0 <= x2 < ls.C() then CubeEntry(ls, rows, mem, row, x0, x1, x2) else 0
  }

  ghost function CubeEntry(ls: Layers, rows: nat, mem: seq<Zq>, row: nat, x0: nat, x1: nat, x2: nat): Zq
    requires |mem| == PlaceIn(ls, rows, 0) && row < rows && x0 < ls.A() && x1 < ls.B() && x2 < ls.C()
  {
    MemRange(ls, x0, x1, x2);
    EntryIn(ls, rows, mem, row, Mem(ls, x0, x1, x2))
  }

  /** What a layer does by coordinates, w being the root for the whole length. */
  ghost function LayerCube(w: int, ls: Layers, layer: nat, x: Cube): Cube {
    match layer
    case 0 => First(w, ls, x)
    case 1 => Second(w, ls, x)
    case _ => Third(w, ls, x)
  }

  /** The factor that the last layer of an inverse transform multiplies with. */
  ghost function LayerScale(dm: Domain, ls: Layers, layer: nat, logn: nat): int {
    if LastLayer(ls, layer) && dm.inverse then Pow(HALF, logn) else 1
  }

  ghost function LogSize(ls: Layers): nat {
    ls.s0 + ls.s1 + ls.s2
  }

  ghost function LineOf(ls: Layers, layer: nat, x: Cube, x0: int, x1: int, x2: int): int -> int {
    match layer
    case 0 => Line0(x, x1, x2)
    case 1 => Line1(x, x0, x2)
    case _ => Line2(x, x0, x1)
  }

  ghost function Along(layer: nat, x0: int, x1: int, x2: int): int {
    match layer
    case 0 => x0
    case 1 => x1
    case _ => x2
  }

  /** The task of a place, by coordinates. */
  ghost function TaskOf(ls: Layers, layer: nat, row: nat, x0: nat, x1: nat, x2: nat): Task {
    match layer
    case 0 => Task(row, x2, x1)
    case 1 => Task(row, x2, x0)
    case _ => Task(row, x0 + Times(ls.A(), x1), 0)
  }

  lemma TaskByCoordinates(ls: Layers, layer: nat, row: nat, x0: nat, x1: nat, x2: nat)
    requires layer < 3 && x0 < ls.A() && x1 < ls.B() && x2 < ls.C()
    ensures Mem(ls, x0, x1, x2) < ls.Size()
    ensures TaskAt(ls, layer, row, Mem(ls, x0, x1, x2)) == TaskOf(ls, layer, row, x0, x1, x2)
    ensures ElementOf(ls, layer, Mem(ls, x0, x1, x2)) == Along(layer, x0, x1, x2)
  {
    hide Pow2, Mem, X0, X1, X2;
    MemRange(ls, x0, x1, x2);
    MemCoordinates(ls, x0, x1, x2);
  }

  /** A task's elements are the line through the place. */
  lemma LineView(ls: Layers, layer: nat, rows: nat, mem: seq<Zq>, row: nat, x0: nat, x1: nat, x2: nat, e: nat)
    requires layer < 3 && row < rows && x0 < ls.A() && x1 < ls.B() && x2 < ls.C() && e < Pow2(LogLine(ls, layer))
    requires |mem| == PlaceIn(ls, rows, 0)
    ensures ValidTask(ls, layer, rows, TaskOf(ls, layer, row, x0, x1, x2))
    ensures Places(TaskPlaces(ls, layer, TaskOf(ls, layer, row, x0, x1, x2)), |mem|)
    ensures Entries(View(mem, TaskPlaces(ls, layer, TaskOf(ls, layer, row, x0, x1, x2))))(e)
         == LineOf(ls, layer, RowCube(ls, rows, mem, row), x0, x1, x2)(e)
  {
    hide Pow2, Mem, IdxInMem, Places, View, PlaceIn, TaskPlaces;
    var q := TaskOf(ls, layer, row, x0, x1, x2);
    LineTask(ls, layer, rows, row, x0, x1, x2);
    TaskPlacesValid(ls, layer, rows, q);
    ViewAt(mem, TaskPlaces(ls, layer, q), e);
    LinePlace(ls, layer, row, x0, x1, x2, e);
  }

  lemma LineTask(ls: Layers, layer: nat, rows: nat, row: nat, x0: nat, x1: nat, x2: nat)
    requires layer < 3 && row < rows && x0 < ls.A() && x1 < ls.B() && x2 < ls.C()
    ensures ValidTask(ls, layer, rows, TaskOf(ls, layer, row, x0, x1, x2))
  {
    hide Pow2, Times;
    if layer == 2 {
      TimesIs(ls.A(), x1);
      Pow2Add(ls.s0, ls.s1);
      FlatRange(x1, x0, ls.B(), ls.A());
    }
  }

  lemma LinePlace(ls: Layers, layer: nat, row: nat, x0: nat, x1: nat, x2: nat, e: nat)
    requires layer < 3 && x0 < ls.A() && x1 < ls.B() && x2 < ls.C() && e < Pow2(LogLine(ls, layer))
    ensures TaskPlaces(ls, layer, TaskOf(ls, layer, row, x0, x1, x2))[e]
         == PlaceIn(ls, row, if layer == 0 then Mem(ls, e, x1, x2) else if layer == 1 then Mem(ls, x0, e,
             x2) else Mem(ls, x0, x1, e))
  {
    hide Pow2, Mem, IdxInMem, PlaceIn, Times;
    TimesIs(ls.A(), x1);
    if layer == 0 {
      IdxIsMem(ls, e, x1, x2);
    } else if layer == 1 {
      IdxIsMem(ls, x0, e, x2);
    } else {
      IdxIsMem(ls, x0, x1, e);
    }
  }

  /** The root of a layer's lines. */
  ghost function LineRoot(w: int, ls: Layers, layer: nat): int {
    match layer
    case 0 => Pow(w, ls.B() * ls.C())
    case 1 => Pow(Pow(w, ls.C()), ls.A())
    case _ => Pow(w, ls.A() * ls.B())
  }

  lemma LineRootIs(w: int, logMax: nat, ls: Layers, layer: nat)
    requires layer < 3 && LogSize(ls) <= logMax
    ensures LineRoot(SizeRoot(w, logMax, LogSize(ls)), ls, layer) == SizeRoot(w, logMax, LogLine(ls, layer))
  {
    hide Pow, Pow2;
    var rest := logMax - LogSize(ls);
    if layer == 0 {
      Pow2Add(ls.s1, ls.s2);
      Pow2Add(rest, ls.s1 + ls.s2);
      PowMul(w, Pow2(rest), ls.B() * ls.C());
    } else if layer == 1 {
      PowMul(SizeRoot(w, logMax, LogSize(ls)), ls.C(), ls.A());
      Pow2Add(ls.s2, ls.s0);
      Pow2Add(rest, ls.s2 + ls.s0);
      PowMul(w, Pow2(rest), ls.C() * ls.A());
    } else {
      Pow2Add(ls.s0, ls.s1);
      Pow2Add(rest, ls.s0 + ls.s1);
      PowMul(w, Pow2(rest), ls.A() * ls.B());
    }
  }

  /** The turn of a layer at a place. */
  ghost function LayerTurn(w: int, ls: Layers, layer: nat, x0: int, x1: int, x2: int): int {
    match layer
    case 0 => Pow(Pow(w, ls.C()), x1 * x0)
    case 1 => Pow(w, x2 * (x0 + x1 * ls.A()))
    case _ => 1
  }

  lemma LayerCubeIs(w: int, ls: Layers, layer: nat, x: Cube, x0: int, x1: int, x2: int)
    requires layer < 3
    ensures LayerCube(w, ls, layer, x)(x0, x1, x2)
         == Dft(LineRoot(w, ls, layer), Pow2(LogLine(ls, layer)), LineOf(ls, layer, x, x0, x1, x2),
                Along(layer, x0, x1, x2))
            * LayerTurn(w, ls, layer, x0, x1, x2)
  {
    hide Dft, Pow, Pow2;
    if layer == 0 {
      assert LineOf(ls, layer, x, x0, x1, x2) == Line0(x, x1, x2);
      assert First(w, ls, x)(x0, x1, x2)
          == Dft(Pow(w, ls.B() * ls.C()), ls.A(), Line0(x, x1, x2), x0) * Pow(Pow(w, ls.C()), x1 * x0);
    } else if layer == 1 {
      assert LineOf(ls, layer, x, x0, x1, x2) == Line1(x, x0, x2);
      assert Second(w, ls, x)(x0, x1, x2)
          == Dft(Pow(Pow(w, ls.C()), ls.A()), ls.B(), Line1(x, x0, x2), x1) * Pow(w, x2 * (x0 + x1 * ls.A()));
    } else {
      assert LineOf(ls, layer, x, x0, x1, x2) == Line2(x, x0, x1);
      assert Third(w, ls, x)(x0, x1, x2) == Dft(Pow(w, ls.A() * ls.B()), ls.C(), Line2(x, x0, x1), x2);
    }
  }

  /** The last layer turns by one: its turn has a zero in the exponent. */
  lemma LastTurn(w: int, ls: Layers, layer: nat, x0: nat, x1: nat, x2: nat)
    requires layer < 3 && LastLayer(ls, layer) && x1 < ls.B() && x2 < ls.C()
    ensures LayerTurn(w, ls, layer, x0, x1, x2) == 1
  {
    hide Pow;
    PowZero(Pow(w, ls.C()));
    PowZero(w);
    if layer == 0 {
      assert x1 == 0 && x1 * x0 == 0;
    } else if layer == 1 {
      assert x2 == 0 && x2 * (x0 + x1 * ls.A()) == 0;
    }
  }

  /** The twiddle that the code reads is the turn. */
  lemma TurnTwiddle(dm: Domain, ls: Layers, layer: nat, rows: nat, row: nat, x0: nat, x1: nat, x2: nat)
    requires dm.Valid() && LogSize(ls) <= dm.logMax && layer < 2 && row < rows
    requires x0 < ls.A() && x1 < ls.B() && x2 < ls.C()
    ensures var q, e := TaskOf(ls, layer, row, x0, x1, x2), Along(layer, x0, x1, x2);
            && TurnExponent(dm, ls, layer, q, e) < |dm.tw|
            && M(Twiddle(dm.tw, dm.inverse, TurnExponent(dm, ls, layer, q, e)))
               == M(LayerTurn(SizeRoot(dm.w, dm.logMax, LogSize(ls)), ls, layer, x0, x1, x2))
  {
    hide Pow, Pow2, TurnExponent, Table, DirectionRoot, Twiddle;
    var q, e := TaskOf(ls, layer, row, x0, x1, x2), Along(layer, x0, x1, x2);
    LineTask(ls, layer, rows, row, x0, x1, x2);
    TurnInTable(dm, ls, layer, rows, q, e);
    TwiddlePower(dm.tw, dm.root, dm.logMax, dm.inverse, dm.w, TurnExponent(dm, ls, layer, q, e));
    ProductIs(ls, layer, row, x0, x1, x2);
    TurnPower(dm.w, dm.logMax, ls, layer, x0, x1, x2, TurnProduct(ls, layer, q, e));
  }

  lemma ProductIs(ls: Layers, layer: nat, row: nat, x0: nat, x1: nat, x2: nat)
    requires layer < 2
    ensures TurnProduct(ls, layer, TaskOf(ls, layer, row, x0, x1, x2), Along(layer, x0, x1, x2))
         == if layer == 0 then x1 * x0 else x2 * (x0 + x1 * ls.A())
  {
    hide Pow2, Times, Shl;
    TimesIs(x1, x0);
    ShlIs(x1, ls.s0);
    TimesIs(x2, Shl(x1, ls.s0) + x0);
  }

  lemma TurnPower(w: int, logMax: nat, ls: Layers, layer: nat, x0: nat, x1: nat, x2: nat, product: nat)
    requires LogSize(ls) <= logMax && layer < 2
    requires product == if layer == 0 then x1 * x0 else x2 * (x0 + x1 * ls.A())
    ensures LayerTurn(SizeRoot(w, logMax, LogSize(ls)), ls, layer, x0, x1, x2)
         == Pow(w, Pow2(logMax - TurnLog(ls, layer)) * product)
  {
    hide Pow, Pow2;
    var rest := logMax - LogSize(ls);
    if layer == 0 {
      Pow2Add(rest, ls.s2);
      PowMul(w, Pow2(rest), ls.C());
      PowMul(w, Pow2(rest) * ls.C(), product);
    } else {
      PowMul(w, Pow2(rest), product);
    }
  }

  /** One layer at one place: the transform along the line, turned for the next layer or scaled. */
  lemma LayerValueMeans(dm: Domain, ls: Layers, layer: nat, logn: nat, rows: nat, was: seq<Zq>, row: nat, x0: nat,
                        x1: nat, x2: nat)
    requires dm.Valid() && layer < 3 && LogSize(ls) <= dm.logMax && row < rows && |was| == PlaceIn(ls, rows, 0)
    requires x0 < ls.A() && x1 < ls.B() && x2 < ls.C()
    ensures Mem(ls, x0, x1, x2) < ls.Size()
    ensures M(LayerValue(dm, ls, layer, logn, rows, was, row, Mem(ls, x0, x1, x2)))
         == M(LayerCube(SizeRoot(dm.w, dm.logMax, LogSize(ls)), ls, layer, RowCube(ls, rows, was, row))(x0, x1,
             x2) * LayerScale(dm, ls, layer, logn))
  {
    hide Pow, Pow2, TurnExponent, Table, DirectionRoot, Twiddle, Dft, Mem, TaskAt, ElementOf, View, TaskPlaces,
      Entries, LayerCube, LineRoot, LineOf, RowCube, LayerTurn,
      LastLayer, PlaceIn, Places;
    var wn, q, k := SizeRoot(dm.w, dm.logMax, LogSize(ls)), TaskOf(ls, layer, row, x0, x1, x2),
                    Along(layer, x0, x1, x2);
    TaskByCoordinates(ls, layer, row, x0, x1, x2);
    LineTask(ls, layer, rows, row, x0, x1, x2);
    TaskPlacesValid(ls, layer, rows, q);
    var n, line, v := Pow2(LogLine(ls, layer)), LineOf(ls, layer, RowCube(ls, rows, was, row), x0, x1, x2),
                      View(was, TaskPlaces(ls, layer, q));
    LineDft(dm, ls, layer, rows, was, row, x0, x1, x2);
    LayerCubeIs(wn, ls, layer, RowCube(ls, rows, was, row), x0, x1, x2);
    var d, t := Dft(LineRoot(wn, ls, layer), n, line, k), LayerTurn(wn, ls, layer, x0, x1, x2);
    var e := Dft(SizeRoot(dm.w, dm.logMax, LogLine(ls, layer)), n, Entries(v), k);
    if LastLayer(ls, layer) {
      LastTurn(wn, ls, layer, x0, x1, x2);
      LastCombination(e, d, t, Pow(HALF, logn), dm.inverse);
    } else {
      NotThird(ls, layer);
      TurnTwiddle(dm, ls, layer, rows, row, x0, x1, x2);
      TurnCombination(e, d, Twiddle(dm.tw, dm.inverse, TurnExponent(dm, ls, layer, q, k)), t);
    }
  }

  lemma NotThird(ls: Layers, layer: nat)
    requires layer < 3 && !LastLayer(ls, layer)
    ensures layer < 2
  {}

  lemma LastCombination(e: int, d: int, t: int, s: int, inverse: bool)
    requires M(e) == M(d) && t == 1
    ensures M(if inverse then M(M(e) * M(s)) else M(e)) == M((d * t) * (if inverse then s else 1))
  {
    hide M;
    MTwice(e);
    MTwice(s);
    CongMul(M(e), d, M(s), s);
    MTwice(M(e) * M(s));
    assert d * t == d && d * 1 == d;
  }

  lemma TurnCombination(e: int, d: int, tw: int, t: int)
    requires M(e) == M(d) && M(tw) == M(t)
    ensures M(M(M(e) * tw)) == M((d * t) * 1)
  {
    hide M;
    MTwice(e);
    CongMul(M(e), d, tw, t);
    MTwice(M(e) * tw);
  }

  lemma LineDft(dm: Domain, ls: Layers, layer: nat, rows: nat, was: seq<Zq>, row: nat, x0: nat, x1: nat, x2: nat)
    requires dm.Valid() && layer < 3 && LogSize(ls) <= dm.logMax && row < rows && |was| == PlaceIn(ls, rows, 0)
    requires x0 < ls.A() && x1 < ls.B() && x2 < ls.C()
    ensures Places(TaskPlaces(ls, layer, TaskOf(ls, layer, row, x0, x1, x2)), |was|)
    ensures M(Dft(SizeRoot(dm.w, dm.logMax, LogLine(ls, layer)), Pow2(LogLine(ls, layer)),
                  Entries(View(was, TaskPlaces(ls, layer, TaskOf(ls, layer, row, x0, x1, x2)))),
                    Along(layer, x0, x1, x2)))
         == M(Dft(LineRoot(SizeRoot(dm.w, dm.logMax, LogSize(ls)), ls, layer), Pow2(LogLine(ls, layer)),
                  LineOf(ls, layer, RowCube(ls, rows, was, row), x0, x1, x2), Along(layer, x0, x1, x2)))
  {
    hide Pow, Pow2, Table, DirectionRoot, Dft, View, TaskPlaces, Entries, LineRoot, LineOf, RowCube, PlaceIn, Places,
      TaskOf, SizeRoot;
    LineRootIs(dm.w, dm.logMax, ls, layer);
    LineTask(ls, layer, rows, row, x0, x1, x2);
    var q, n := TaskOf(ls, layer, row, x0, x1, x2), Pow2(LogLine(ls, layer));
    TaskPlacesValid(ls, layer, rows, q);
    var x, y := Entries(View(was, TaskPlaces(ls, layer, q))),
                LineOf(ls, layer, RowCube(ls, rows, was, row), x0, x1, x2);
    forall e | 0 <= e < n ensures x(e) == y(e) {
      LineView(ls, layer, rows, was, row, x0, x1, x2, e);
    }
    DftCong(SizeRoot(dm.w, dm.logMax, LogLine(ls, layer)), n, x, y, Along(layer, x0, x1, x2));
  }
}

module ParallelRun {
  import opened Residues
  import opened Products
  import opened Sums
  import opened Powers
  import opened PowersOfTwo
  import opened Roots
  import opened BitReverseInPlace
  import opened FourierTransform
  import opened Views
  import opened Twiddles
  import opened DitInPlace
  import opened LayerLayout
  import opened LayeredTransform
  import opened LayerTasks
  import opened LayerPass
  import opened LayerMeaning

  /** The memory holds c times the cubes. */
  ghost predicate HoldsCubes(ls: Layers, rows: nat, mem: seq<Zq>, cubes: int -> Cube, c: int)
    requires |mem| == PlaceIn(ls, rows, 0)
  {
    forall row: nat, x0: nat, x1: nat, x2: nat :: row < rows && x0 < ls.A() && x1 < ls.B() && x2 < ls.C() ==>
      M(CubeEntry(ls, rows, mem, row, x0, x1, x2)) == M(cubes(row)(x0, x1, x2) * c)
  }

  ghost function Rows(ls: Layers, rows: nat, mem: seq<Zq>): int -> Cube
    requires |mem| == PlaceIn(ls, rows, 0)
  {
    row => if 0 <= row < rows then RowCube(ls, rows, mem, row) else (x0, x1, x2) => 0
  }

  ghost function LayerCubes(w: int, ls: Layers, layer: nat, cubes: int -> Cube): int -> Cube {
    row => LayerCube(w, ls, layer, cubes(row))
  }

  /** Running a whole layer applies it to the cube of every row. */
  lemma LayerDone(dm: Domain, ls: Layers, layer: nat, logn: nat, rows: nat, was: seq<Zq>, mem: seq<Zq>,
                  order: seq<Task>)
    requires dm.Valid() && layer < 3 && LogSize(ls) <= dm.logMax && |was| == |mem| == PlaceIn(ls, rows, 0)
    requires LayerState(dm, ls, layer, logn, rows, was, mem, order) && Schedule(order, ls, layer, rows)
    ensures HoldsCubes(ls, rows, mem, LayerCubes(SizeRoot(dm.w, dm.logMax, LogSize(ls)), ls, layer,
                                                 Rows(ls, rows, was)), LayerScale(dm, ls, layer, logn))
  {
    hide Pow2, Table, DirectionRoot, LayerValue, LayerCube, RowCube, Mem, PlaceIn, LayerScale, SizeRoot, M;
    var w := SizeRoot(dm.w, dm.logMax, LogSize(ls));
    var cubes := LayerCubes(w, ls, layer, Rows(ls, rows, was));
    forall row: nat, x0: nat, x1: nat, x2: nat | row < rows && x0 < ls.A() && x1 < ls.B() && x2 < ls.C()
      ensures M(CubeEntry(ls, rows, mem, row, x0, x1, x2))
           == M(cubes(row)(x0, x1, x2) * LayerScale(dm, ls, layer, logn))
    {
      LayerValueMeans(dm, ls, layer, logn, rows, was, row, x0, x1, x2);
      PlaceOfTask(ls, layer, Mem(ls, x0, x1, x2));
      assert ValidTask(ls, layer, rows, TaskAt(ls, layer, row, Mem(ls, x0, x1, x2)));
      assert cubes(row) == LayerCube(w, ls, layer, RowCube(ls, rows, was, row));
    }
  }

  ghost predicate InCube(ls: Layers, x0: int, x1: int, x2: int) {
    0 <= x0 < ls.A() && 0 <= x1 < ls.B() && 0 <= x2 < ls.C()
  }

  /** Equal modulo q at every place. */
  ghost predicate Congruent(ls: Layers, x: Cube, y: Cube) {
    forall x0, x1, x2 :: InCube(ls, x0, x1, x2) ==> M(x(x0, x1, x2)) == M(y(x0, x1, x2))
  }

  lemma LayerCong(w: int, ls: Layers, layer: nat, x: Cube, y: Cube)
    requires layer < 3 && Congruent(ls, x, y)
    ensures Congruent(ls, LayerCube(w, ls, layer, x), LayerCube(w, ls, layer, y))
  {
    hide Pow2, Pow, Dft, LayerCube, LayerTurn, LineRoot, M;
    forall x0, x1, x2 | InCube(ls, x0, x1, x2)
      ensures M(LayerCube(w, ls, layer, x)(x0, x1, x2)) == M(LayerCube(w, ls, layer, y)(x0, x1, x2))
    {
      LayerCongAt(w, ls, layer, x, y, x0, x1, x2);
    }
  }

  lemma LayerCongAt(w: int, ls: Layers, layer: nat, x: Cube, y: Cube, x0: int, x1: int, x2: int)
    requires layer < 3 && Congruent(ls, x, y) && InCube(ls, x0, x1, x2)
    ensures M(LayerCube(w, ls, layer, x)(x0, x1, x2)) == M(LayerCube(w, ls, layer, y)(x0, x1, x2))
  {
    hide Pow2, Pow, Dft, LayerCube, LayerTurn, LineRoot, M;
    var f, g, n, k := LineOf(ls, layer, x, x0, x1, x2), LineOf(ls, layer, y, x0, x1, x2), Pow2(LogLine(ls, layer)),
                      Along(layer, x0, x1, x2);
    forall e | 0 <= e < n ensures M(f(e)) == M(g(e)) {
      if layer == 0 {
        assert InCube(ls, e, x1, x2);
      } else if layer == 1 {
        assert InCube(ls, x0, e, x2);
      } else {
        assert InCube(ls, x0, x1, e);
      }
    }
    DftCong(LineRoot(w, ls, layer), n, f, g, k);
    LayerCubeIs(w, ls, layer, x, x0, x1, x2);
    LayerCubeIs(w, ls, layer, y, x0, x1, x2);
    var t := LayerTurn(w, ls, layer, x0, x1, x2);
    CongMul(Dft(LineRoot(w, ls, layer), n, f, k), Dft(LineRoot(w, ls, layer), n, g, k), t, t);
  }

  lemma DftOfOne(w: int, x: int -> int)
    ensures Dft(w, 1, x, 0) == x(0)
  {
    hide Sum, Pow;
    SumStep(1, Pointwise(x, DftKernel(w, 0)));
    SumStep(0, Pointwise(x, DftKernel(w, 0)));
    PowZero(w);
    assert Pow(w, 0 * 0) == 1;
  }

  /** A layer whose lines have one element changes nothing when its turn is one. */
  lemma SkippedLayer(w: int, ls: Layers, layer: nat, x: Cube)
    requires 0 < layer < 3 && LogLine(ls, layer) == 0 && LastLayer(ls, layer)
    ensures Congruent(ls, LayerCube(w, ls, layer, x), x)
  {
    hide Pow, Dft, LayerCube, LayerTurn, LineRoot;
    forall x0, x1, x2 | InCube(ls, x0, x1, x2) ensures M(LayerCube(w, ls, layer, x)(x0, x1, x2)) == M(x(x0, x1, x2)) {
      LayerCubeIs(w, ls, layer, x, x0, x1, x2);
      LastTurn(w, ls, layer, x0, x1, x2);
      DftOfOne(LineRoot(w, ls, layer), LineOf(ls, layer, x, x0, x1, x2));
      assert Along(layer, x0, x1, x2) == 0;
    }
  }

  /** All three layers by coordinates. */
  ghost function AllLayers(w: int, ls: Layers, x: Cube): Cube {
    LayerCube(w, ls, 2, LayerCube(w, ls, 1, LayerCube(w, ls, 0, x)))
  }

  lemma CongTransitive(ls: Layers, x: Cube, y: Cube, z: Cube)
    requires Congruent(ls, x, y) && Congruent(ls, y, z)
    ensures Congruent(ls, x, z)
  {
    hide M;
  }

  lemma CongSymmetric(ls: Layers, x: Cube, y: Cube)
    requires Congruent(ls, x, y)
    ensures Congruent(ls, y, x)
  {
    hide M;
  }

  /** A row as a flat vector. */
  ghost function FlatRow(ls: Layers, rows: nat, mem: seq<Zq>, row: nat): int -> int
    requires |mem| == PlaceIn(ls, rows, 0) && row < rows
  {
    m => if 0 <= m < ls.Size() then EntryIn(ls, rows, mem, row, m) else 0
  }

  lemma RowIsCube(ls: Layers, rows: nat, mem: seq<Zq>, row: nat)
    requires |mem| == PlaceIn(ls, rows, 0) && row < rows
    ensures Congruent(ls, RowCube(ls, rows, mem, row), CubeOf(ls, FlatRow(ls, rows, mem, row)))
  {
    hide Pow2, PlaceIn;
    forall x0, x1, x2 | InCube(ls, x0, x1, x2)
      ensures RowCube(ls, rows, mem, row)(x0, x1, x2) == CubeOf(ls, FlatRow(ls, rows, mem, row))(x0, x1, x2)
    {
      MemRange(ls, x0, x1, x2);
      MemIs(ls, x0, x1, x2);
    }
  }

  /** What the layers leave at a place is the transform of the row at the place's frequency. */
  lemma AllLayersMeaning(w: int, ls: Layers, rows: nat, mem: seq<Zq>, row: nat, k0: nat, k1: nat, k2: nat)
    requires |mem| == PlaceIn(ls, rows, 0) && row < rows && InCube(ls, k0, k1, k2) && M(Pow(w, ls.Size())) == 1
    ensures M(AllLayers(w, ls, RowCube(ls, rows, mem, row))(k0, k1, k2))
         == M(Dft(w, ls.Size(), FlatRow(ls, rows, mem, row), k0 + k1 * ls.A() + k2 * (ls.A() * ls.B())))
  {
    hide Pow2, Pow, Dft, First, Second, Third, PlaceIn, RowCube, CubeOf, FlatRow, M;
    var x, y := RowCube(ls, rows, mem, row), CubeOf(ls, FlatRow(ls, rows, mem, row));
    RowIsCube(ls, rows, mem, row);
    LayerCong(w, ls, 0, x, y);
    LayerCong(w, ls, 1, LayerCube(w, ls, 0, x), LayerCube(w, ls, 0, y));
    LayerCong(w, ls, 2, LayerCube(w, ls, 1, LayerCube(w, ls, 0, x)), LayerCube(w, ls, 1, LayerCube(w, ls, 0, y)));
    ThreeLayers(w, ls, FlatRow(ls, rows, mem, row), k0, k1, k2);
  }

  ghost function Scaled(x: Cube, c: int): Cube {
    (x0, x1, x2) => x(x0, x1, x2) * c
  }

  /** The first layers of a run. */
  ghost function Partial(w: int, ls: Layers, count: nat, x: Cube): Cube {
    if count == 0 then x else LayerCube(w, ls, count - 1, Partial(w, ls, count - 1, x))
  }

  /** Layers that have any work; the table never leaves out a middle layer. */
  function NofLayers(ls: Layers): nat {
    if ls.s2 != 0 then 3 else if ls.s1 != 0 then 2 else 1
  }

  predicate WellFormed(ls: Layers) {
    ls.s1 == 0 ==> ls.s2 == 0
  }

  /** The factor collected after the first layers. */
  ghost function ScaleAfter(dm: Domain, ls: Layers, count: nat, logn: nat): int {
    if count == 0 then 1 else LayerScale(dm, ls, count - 1, logn)
  }

  /** Every row of mem is what the first layers make of the row in was. */
  ghost predicate RowsAfter(dm: Domain, ls: Layers, rows: nat, count: nat, logn: nat, was: seq<Zq>, mem: seq<Zq>)
    requires |was| == |mem| == PlaceIn(ls, rows, 0) && LogSize(ls) <= dm.logMax
  {
    forall row: nat :: row < rows ==>
      Congruent(ls, RowCube(ls, rows, mem, row),
                Scaled(Partial(SizeRoot(dm.w, dm.logMax, LogSize(ls)), ls, count, RowCube(ls, rows, was, row)),
                       ScaleAfter(dm, ls, count, logn)))
  }

  lemma RowsStart(dm: Domain, ls: Layers, rows: nat, logn: nat, was: seq<Zq>)
    requires |was| == PlaceIn(ls, rows, 0) && LogSize(ls) <= dm.logMax
    ensures RowsAfter(dm, ls, rows, 0, logn, was, was)
  {
    hide PlaceIn, RowCube;
    forall row: nat | row < rows
      ensures Congruent(ls, RowCube(ls, rows, was, row), Scaled(RowCube(ls, rows, was, row), 1)) {}
  }

  lemma ScaledByOne(ls: Layers, x: Cube)
    ensures Congruent(ls, Scaled(x, 1), x)
  {}

  lemma NotLastBefore(dm: Domain, ls: Layers, layer: nat, logn: nat)
    requires WellFormed(ls) && layer < NofLayers(ls)
    ensures ScaleAfter(dm, ls, layer, logn) == 1
  {}

  lemma HeldRow(ls: Layers, rows: nat, mem: seq<Zq>, cubes: int -> Cube, c: int, row: nat)
    requires |mem| == PlaceIn(ls, rows, 0) && HoldsCubes(ls, rows, mem, cubes, c) && row < rows
    ensures Congruent(ls, RowCube(ls, rows, mem, row), Scaled(cubes(row), c))
  {
    hide PlaceIn, CubeEntry, Pow2, M;
    forall x0, x1, x2 | InCube(ls, x0, x1, x2)
      ensures M(RowCube(ls, rows, mem, row)(x0, x1, x2)) == M(Scaled(cubes(row), c)(x0, x1, x2))
    {
      assert M(CubeEntry(ls, rows, mem, row, x0, x1, x2)) == M(cubes(row)(x0, x1, x2) * c);
    }
  }

  lemma ScaleCong(ls: Layers, x: Cube, y: Cube, c: int)
    requires Congruent(ls, x, y)
    ensures Congruent(ls, Scaled(x, c), Scaled(y, c))
  {
    hide Pow2;
    forall x0, x1, x2 | InCube(ls, x0, x1, x2) ensures M(Scaled(x, c)(x0, x1, x2)) == M(Scaled(y, c)(x0, x1, x2)) {
      CongMul(x(x0, x1, x2), y(x0, x1, x2), c, c);
    }
  }

  lemma RowsNext(dm: Domain, ls: Layers, rows: nat, layer: nat, logn: nat, was: seq<Zq>, mem: seq<Zq>, mem': seq<Zq>,
                 order: seq<Task>)
    requires dm.Valid() && LogSize(ls) <= dm.logMax && |was| == |mem| == |mem'| == PlaceIn(ls, rows, 0)
    requires WellFormed(ls) && layer < NofLayers(ls) && RowsAfter(dm, ls, rows, layer, logn, was, mem)
    requires LayerState(dm, ls, layer, logn, rows, mem, mem', order) && Schedule(order, ls, layer, rows)
    ensures RowsAfter(dm, ls, rows, layer + 1, logn, was, mem')
  {
    hide Pow2, Table, DirectionRoot, LayerState, Schedule, RowCube, PlaceIn, LayerCube, Congruent, Scaled,
      LayerScale, SizeRoot, HoldsCubes;
    var w := SizeRoot(dm.w, dm.logMax, LogSize(ls));
    LayerDone(dm, ls, layer, logn, rows, mem, mem', order);
    NotLastBefore(dm, ls, layer, logn);
    var cubes := LayerCubes(w, ls, layer, Rows(ls, rows, mem));
    forall row: nat | row < rows
      ensures Congruent(ls, RowCube(ls, rows, mem', row),
                        Scaled(Partial(w, ls, layer + 1, RowCube(ls, rows, was, row)), LayerScale(dm, ls, layer, logn)))
    {
      HeldRow(ls, rows, mem', cubes, LayerScale(dm, ls, layer, logn), row);
      var x, y, c := RowCube(ls, rows, mem, row), Partial(w, ls, layer, RowCube(ls, rows, was, row)),
                     LayerScale(dm, ls, layer, logn);
      assert cubes(row) == LayerCube(w, ls, layer, x);
      ScaledByOne(ls, y);
      CongTransitive(ls, x, Scaled(y, 1), y);
      LayerCong(w, ls, layer, x, y);
      ScaleCong(ls, LayerCube(w, ls, layer, x), LayerCube(w, ls, layer, y), c);
      CongTransitive(ls, RowCube(ls, rows, mem', row), Scaled(LayerCube(w, ls, layer, x), c),
                     Scaled(LayerCube(w, ls, layer, y), c));
    }
  }

  /** The layers one after the other; each waits for the tasks of the one before. */
  method RunLayers(a: array<Zq>, dm: Domain, ls: Layers, logn: nat, rows: nat, orders: seq<seq<Task>>)
    requires dm.Valid() && LogSize(ls) <= dm.logMax && WellFormed(ls) && a.Length == PlaceIn(ls, rows, 0)
    requires |orders| == NofLayers(ls) && forall layer :: 0 <= layer < |orders| ==>
      Schedule(orders[layer], ls, layer, rows)
    modifies a
    ensures RowsAfter(dm, ls, rows, NofLayers(ls), logn, old(a[..]), a[..])
  {
    hide Pow2, Table, DirectionRoot, LayerState, Schedule, RowsAfter, PlaceIn;
    RowsStart(dm, ls, rows, logn, a[..]);
    for layer := 0 to NofLayers(ls)
      invariant RowsAfter(dm, ls, rows, layer, logn, old(a[..]), a[..])
    {
      ghost var mem := a[..];
      RunLayer(a, dm, ls, layer, logn, rows, orders[layer]);
      RowsNext(dm, ls, rows, layer, logn, old(a[..]), mem, a[..], orders[layer]);
    }
  }

  /** The factor of the whole run. */
  ghost function RunScale(dm: Domain, logn: nat): int {
    if dm.inverse then Pow(HALF, logn) else 1
  }

  lemma FullScale(dm: Domain, ls: Layers, logn: nat)
    requires WellFormed(ls)
    ensures ScaleAfter(dm, ls, NofLayers(ls), logn) == RunScale(dm, logn)
  {
    hide Pow;
  }

  lemma SkippedLayers(w: int, ls: Layers, x: Cube)
    requires WellFormed(ls)
    ensures Congruent(ls, Partial(w, ls, NofLayers(ls), x), AllLayers(w, ls, x))
  {
    hide LayerCube, Congruent;
    var y, z := Partial(w, ls, 1, x), Partial(w, ls, 2, x);
    assert Partial(w, ls, 0, x) == x;
    assert y == LayerCube(w, ls, 0, x);
    assert z == LayerCube(w, ls, 1, y);
    if ls.s2 == 0 {
      SkippedLayer(w, ls, 2, z);
      CongSymmetric(ls, LayerCube(w, ls, 2, z), z);
      if ls.s1 == 0 {
        SkippedLayer(w, ls, 1, y);
        CongSymmetric(ls, z, y);
        CongTransitive(ls, y, z, LayerCube(w, ls, 2, z));
      }
    } else {
      assert Partial(w, ls, 3, x) == LayerCube(w, ls, 2, z);
      SameCube(ls, LayerCube(w, ls, 2, z));
    }
  }

  lemma SameCube(ls: Layers, x: Cube)
    ensures Congruent(ls, x, x)
  {}
}

/** The reordering after the last layer: the digits of the index in reverse order. */
module DigitReorder {
  import opened Residues
  import opened Products
  import opened PowersOfTwo
  import opened BitReverseInPlace
  import opened LayerLayout
  import opened LayerTasks

  function NewIdx(ls: Layers, i: nat): nat {
    if ls.s2 != 0 then Shr(i, ls.s1 + ls.s2) + Shl(Low(Shr(i, ls.s2), ls.s1), ls.s0) + Shl(Low(i, ls.s2), ls.s0 + ls.s1)
    else Shr(i, ls.s1) + Shl(Low(i, ls.s1), ls.s0)
  }

  /** The frequency of coordinates. */
  function Frequency(ls: Layers, k0: nat, k1: nat, k2: nat): nat {
    k0 + Shl(k1, ls.s0) + Shl(k2, ls.s0 + ls.s1)
  }

  lemma NewIdxIsFrequency(ls: Layers, k0: nat, k1: nat, k2: nat)
    requires k1 < ls.B() && k2 < ls.C()
    ensures NewIdx(ls, Mem(ls, k0, k1, k2)) == Frequency(ls, k0, k1, k2)
  {
    hide Pow2, X0, X1, X2;
    MemCoordinates(ls, k0, k1, k2);
    HighDigits(ls, k0, k1, k2);
    ByCoordinates(ls, Mem(ls, k0, k1, k2));
    if ls.s2 == 0 { NoThirdDigit(ls, k0, k1, k2); }
  }

  lemma ByCoordinates(ls: Layers, m: nat)
    ensures Low(Shr(m, ls.s2), ls.s1) == X1(ls, m) && Low(m, ls.s2) == X2(ls, m)
  {}

  lemma HighDigits(ls: Layers, k0: nat, k1: nat, k2: nat)
    requires k1 < ls.B() && k2 < ls.C()
    ensures Shr(Mem(ls, k0, k1, k2), ls.s1 + ls.s2) == k0
  {
    hide Pow2, Mem, Shr;
    MemIs(ls, k0, k1, k2);
    ShrIs(Mem(ls, k0, k1, k2), ls.s1 + ls.s2);
    Pow2Add(ls.s1, ls.s2);
    FlatRange(k1, k2, ls.B(), ls.C());
    Distribute(ls.C(), k0 * ls.B() + k1, k0 * ls.B(), k1);
    Associate(k0, ls.B(), ls.C());
    QuotientUnique(Mem(ls, k0, k1, k2), ls.B() * ls.C(), k0, k1 * ls.C() + k2);
  }

  lemma NoThirdDigit(ls: Layers, k0: nat, k1: nat, k2: nat)
    requires ls.s2 == 0 && k1 < ls.B() && k2 < ls.C()
    ensures Shr(Mem(ls, k0, k1, k2), ls.s1) == k0 && Low(Mem(ls, k0, k1, k2), ls.s1) == k1 && k2 == 0
    ensures Shl(k2, ls.s0 + ls.s1) == 0
  {
    assert ls.C() == 1;
    hide Pow2, Mem, Shr, Shl, Low;
    MemIs(ls, k0, k1, k2);
    ShrIs(Mem(ls, k0, k1, k2), ls.s1);
    LowIs(Mem(ls, k0, k1, k2), ls.s1);
    ShlIs(k2, ls.s0 + ls.s1);
    NonNegative(k0, ls.B());
    QuotientUnique(Mem(ls, k0, k1, k2), ls.B(), k0, k1);
    assert 0 * Pow2(ls.s0 + ls.s1) == 0;
  }

  lemma FrequencyIs(ls: Layers, k0: nat, k1: nat, k2: nat)
    ensures Frequency(ls, k0, k1, k2) == k2 * (ls.A() * ls.B()) + (k1 * ls.A() + k0)
    ensures ls.Size() == ls.C() * (ls.A() * ls.B())
  {
    hide Pow2, Shl;
    ShlIs(k1, ls.s0);
    ShlIs(k2, ls.s0 + ls.s1);
    Pow2Add(ls.s0, ls.s1);
    Pow2Add(ls.s0 + ls.s1, ls.s2);
  }

  lemma Digits(a: nat, b: nat, k0: nat, k1: nat, k2: nat)
    requires k0 < a && k1 < b
    ensures k1 * a + k0 < a * b
    ensures (k2 * (a * b) + (k1 * a + k0)) / (a * b) == k2
    ensures (k2 * (a * b) + (k1 * a + k0)) % (a * b) == k1 * a + k0
    ensures (k1 * a + k0) / a == k1 && (k1 * a + k0) % a == k0
  {
    FlatRange(k1, k0, b, a);
    QuotientUnique(k2 * (a * b) + (k1 * a + k0), a * b, k2, k1 * a + k0);
    QuotientUnique(k1 * a + k0, a, k1, k0);
  }

  /** Coordinates are read back from the frequency. */
  lemma FrequencyUnique(ls: Layers, k0: nat, k1: nat, k2: nat, j0: nat, j1: nat, j2: nat)
    requires k0 < ls.A() && k1 < ls.B() && j0 < ls.A() && j1 < ls.B()
    requires Frequency(ls, k0, k1, k2) == Frequency(ls, j0, j1, j2)
    ensures k0 == j0 && k1 == j1 && k2 == j2
  {
    hide *;
    FrequencyIs(ls, k0, k1, k2);
    FrequencyIs(ls, j0, j1, j2);
    Digits(ls.A(), ls.B(), k0, k1, k2);
    Digits(ls.A(), ls.B(), j0, j1, j2);
  }

  /** Every frequency has coordinates. */
  lemma FrequencyOf(ls: Layers, k: nat) returns (k0: nat, k1: nat, k2: nat)
    requires k < ls.Size()
    ensures k0 < ls.A() && k1 < ls.B() && k2 < ls.C() && Frequency(ls, k0, k1, k2) == k
  {
    hide Pow2, Frequency;
    FrequencyIs(ls, 0, 0, 0);
    k0, k1, k2 := Decode(ls.A(), ls.B(), ls.C(), k);
    FrequencyIs(ls, k0, k1, k2);
  }

  lemma Decode(a: nat, b: nat, c: nat, k: nat) returns (k0: nat, k1: nat, k2: nat)
    requires a >= 1 && b >= 1 && k < c * (a * b)
    ensures k0 < a && k1 < b && k2 < c && k == k2 * (a * b) + (k1 * a + k0)
  {
    FlatRange(b - 1, a - 1, b, a);
    var n := a * b;
    k2 := Quotient(k, c, n);
    var r := k - k2 * n;
    k1 := Quotient(r, b, a);
    k0 := r - k1 * a;
  }

  lemma Quotient(k: nat, c: nat, n: nat) returns (q: nat)
    requires n >= 1 && k < c * n
    ensures q < c && q * n <= k < q * n + n
  {
    QuotientBelow(k, c, n);
    QuotientNat(k, n, k / n);
    q := k / n;
  }

  lemma NewIdxRange(ls: Layers, m: nat)
    requires m < ls.Size()
    ensures NewIdx(ls, m) < ls.Size()
  {
    hide Pow2, NewIdx, Mem, X0, X1, X2, Frequency;
    CoordinatesMem(ls, m);
    var k0, k1, k2 := X0(ls, m), X1(ls, m), X2(ls, m);
    NewIdxIsFrequency(ls, k0, k1, k2);
    FrequencyIs(ls, k0, k1, k2);
    FlatRange(k1, k0, ls.B(), ls.A());
    FlatRange(k2, k1 * ls.A() + k0, ls.C(), ls.A() * ls.B());
  }

  lemma NewIdxInjective(ls: Layers, m: nat, m': nat)
    requires m < ls.Size() && m' < ls.Size() && NewIdx(ls, m) == NewIdx(ls, m')
    ensures m == m'
  {
    hide Pow2, NewIdx, Mem, X0, X1, X2;
    CoordinatesMem(ls, m);
    CoordinatesMem(ls, m');
    NewIdxIsFrequency(ls, X0(ls, m), X1(ls, m), X2(ls, m));
    NewIdxIsFrequency(ls, X0(ls, m'), X1(ls, m'), X2(ls, m'));
    FrequencyUnique(ls, X0(ls, m), X1(ls, m), X2(ls, m), X0(ls, m'), X1(ls, m'), X2(ls, m'));
  }

  /** The other rows are the same. */
  ghost predicate OtherRows(ls: Layers, rows: nat, mem: seq<Zq>, was: seq<Zq>, row: nat)
    requires |mem| == |was| == PlaceIn(ls, rows, 0)
  {
    forall r: nat, m: nat :: r < rows && r != row && m < ls.Size() ==> EntryIn(ls, rows, mem, r, m) == EntryIn(ls, rows,
        was, r, m)
  }

  /** One row, through a temporary buffer. */
  method ReorderRow(a: array<Zq>, ls: Layers, rows: nat, row: nat)
    requires a.Length == PlaceIn(ls, rows, 0) && row < rows
    modifies a
    ensures forall m: nat :: m < ls.Size() ==>
      NewIdx(ls, m) < ls.Size() && EntryIn(ls, rows, a[..], row, NewIdx(ls, m)) == EntryIn(ls, rows, old(a[..]), row, m)
    ensures OtherRows(ls, rows, a[..], old(a[..]), row)
  {
    hide Pow2, NewIdx, PlaceIn;
    var size := ls.Size();
    forall m: nat | m < size ensures NewIdx(ls, m) < size { NewIdxRange(ls, m); }
    var temp := new Zq[size](_ => 0);
    for i := 0 to size
      invariant a[..] == old(a[..])
      invariant forall m: nat :: m < i ==> temp[NewIdx(ls, m)] == EntryIn(ls, rows, a[..], row, m)
    {
      forall m: nat | m < i ensures NewIdx(ls, m) != NewIdx(ls, i) {
        if NewIdx(ls, m) == NewIdx(ls, i) { NewIdxInjective(ls, m, i); }
      }
      PlaceBelow(ls, rows, row, i);
      temp[NewIdx(ls, i)] := a[PlaceIn(ls, row, i)];
    }
    CopyBack(a, ls, rows, row, temp);
  }

  method CopyBack(a: array<Zq>, ls: Layers, rows: nat, row: nat, temp: array<Zq>)
    requires a.Length == PlaceIn(ls, rows, 0) && row < rows && temp.Length == ls.Size() && temp != a
    modifies a
    ensures forall m: nat :: m < ls.Size() ==> EntryIn(ls, rows, a[..], row, m) == temp[m]
    ensures OtherRows(ls, rows, a[..], old(a[..]), row)
  {
    hide Pow2, PlaceIn;
    for i := 0 to ls.Size()
      invariant forall m: nat :: m < i ==> EntryIn(ls, rows, a[..], row, m) == temp[m]
      invariant OtherRows(ls, rows, a[..], old(a[..]), row)
    {
      ghost var was := a[..];
      PlaceBelow(ls, rows, row, i);
      a[PlaceIn(ls, row, i)] := temp[i];
      EntryWritten(ls, rows, was, a[..], row, i, temp[i]);
    }
  }

  lemma EntryWritten(ls: Layers, rows: nat, was: seq<Zq>, mem: seq<Zq>, row: nat, i: nat, x: Zq)
    requires |was| == |mem| == PlaceIn(ls, rows, 0) && row < rows && i < ls.Size() && PlaceIn(ls, row, i) < |was|
    requires mem == was[PlaceIn(ls, row, i) := x]
    ensures forall r: nat, m: nat :: r < rows && m < ls.Size() ==>
      EntryIn(ls, rows, mem, r, m) == if r == row && m == i then x else EntryIn(ls, rows, was, r, m)
  {
    hide Pow2, PlaceIn;
    forall r: nat, m: nat | r < rows && m < ls.Size()
      ensures EntryIn(ls, rows, mem, r, m) == if r == row && m == i then x else EntryIn(ls, rows, was, r, m)
    {
      PlaceBelow(ls, rows, r, m);
      if PlaceIn(ls, r, m) == PlaceIn(ls, row, i) { PlaceInjective(ls, r, m, row, i); }
    }
  }

  /** The rows below the given one are reordered, the others are as they were. */
  ghost predicate RowsReordered(ls: Layers, rows: nat, mem: seq<Zq>, was: seq<Zq>, count: nat)
    requires |mem| == |was| == PlaceIn(ls, rows, 0)
  {
    && (forall r: nat, m: nat :: r < rows && r < count && m < ls.Size() ==>
          NewIdx(ls, m) < ls.Size() && EntryIn(ls, rows, mem, r, NewIdx(ls, m)) == EntryIn(ls, rows, was, r, m))
    && (forall r: nat, m: nat :: r < rows && count <= r && m < ls.Size() ==> EntryIn(ls, rows, mem, r, m) == EntryIn(ls,
        rows, was, r, m))
  }

  /** The whole batch. */
  method Reorder(a: array<Zq>, ls: Layers, rows: nat)
    requires a.Length == PlaceIn(ls, rows, 0)
    modifies a
    ensures RowsReordered(ls, rows, a[..], old(a[..]), rows)
  {
    hide Pow2, PlaceIn, NewIdx, EntryIn;
    for row := 0 to rows
      invariant RowsReordered(ls, rows, a[..], old(a[..]), row)
    {
      ReorderRow(a, ls, rows, row);
    }
  }
}

module ParallelNtt {
  import DitInPlace
  import opened Residues
  import opened Products
  import opened Powers
  import opened PowersOfTwo
  import opened Roots
  import opened FourierTransform
  import opened Twiddles
  import opened LayerLayout
  import opened LayeredTransform
  import opened LayerTasks
  import opened LayerPass
  import opened LayerMeaning
  import opened ParallelRun
  import opened DigitReorder

  /** The log sizes of the layers for transforms up to length 2^26. */
  const LAYERS: seq<Layers> := [
    Layers(0, 0, 0), Layers(1, 0, 0), Layers(2, 0, 0), Layers(3, 0, 0), Layers(4, 0, 0), Layers(5, 0, 0),
      Layers(3, 3, 0),
    Layers(4, 3, 0), Layers(4, 4, 0), Layers(5, 4, 0), Layers(5, 5, 0), Layers(4, 4, 3), Layers(4, 4, 4),
      Layers(5, 4, 4),
    Layers(5, 5, 4), Layers(5, 5, 5), Layers(5, 5, 6), Layers(5, 5, 7), Layers(5, 5, 8), Layers(5, 5, 9),
      Layers(5, 5, 10),
    Layers(5, 5, 11), Layers(5, 5, 12), Layers(5, 5, 13), Layers(5, 5, 14), Layers(5, 5, 15), Layers(5, 5, 16)]

  lemma LayersFit(logn: nat)
    requires logn <= 26
    ensures LogSize(LAYERS[logn]) == logn && WellFormed(LAYERS[logn])
  {}

  /** With one layer the frequencies already are in order. */
  lemma OneLayerInOrder(ls: Layers, rows: nat, mem: seq<Zq>)
    requires |mem| == PlaceIn(ls, rows, 0) && ls.s1 == 0 && ls.s2 == 0
    ensures RowsReordered(ls, rows, mem, mem, rows)
  {
    hide PlaceIn;
    forall m: nat ensures NewIdx(ls, m) == m {
      ShlIs(0, ls.s0);
      assert Low(m, 0) == 0 && Shr(m, 0) == m && 0 * Pow2(ls.s0) == 0;
    }
  }

  /** An entry after the layers and the reordering is the transform of its row. */
  lemma EntryMeans(dm: Domain, ls: Layers, logn: nat, rows: nat, was: seq<Zq>, mid: seq<Zq>, mem: seq<Zq>, row: nat,
                   k: nat)
    requires dm.Valid() && LogSize(ls) == logn <= dm.logMax && WellFormed(ls)
    requires |was| == |mid| == |mem| == PlaceIn(ls, rows, 0)
    requires RowsAfter(dm, ls, rows, NofLayers(ls), logn, was, mid) && RowsReordered(ls, rows, mem, mid, rows)
    requires row < rows && k < ls.Size()
    ensures M(EntryIn(ls, rows, mem, row, k))
         == M(Dft(SizeRoot(dm.w, dm.logMax, logn), ls.Size(), FlatRow(ls, rows, was, row), k) * RunScale(dm, logn))
  {
    hide Pow, Pow2, PlaceIn, Dft, SizeRoot, Table, DirectionRoot, FlatRow, RunScale, EntryIn, RowCube, Congruent,
      Partial, AllLayers, Scaled, NewIdx, Frequency, Mem, M;
    var k0, k1, k2 := FrequencyOf(ls, k);
    MemRange(ls, k0, k1, k2);
    NewIdxIsFrequency(ls, k0, k1, k2);
    var w, x, c := SizeRoot(dm.w, dm.logMax, logn), RowCube(ls, rows, was, row), RunScale(dm, logn);
    FullScale(dm, ls, logn);
    SkippedLayers(w, ls, x);
    ScaleCong(ls, Partial(w, ls, NofLayers(ls), x), AllLayers(w, ls, x), c);
    CongTransitive(ls, RowCube(ls, rows, mid, row), Scaled(Partial(w, ls, NofLayers(ls), x), c),
                   Scaled(AllLayers(w, ls, x), c));
    FullPeriod(dm, ls, logn);
    AllLayersMeaning(w, ls, rows, was, row, k0, k1, k2);
    FrequencyIs(ls, k0, k1, k2);
    AtPlace(ls, rows, mid, row, AllLayers(w, ls, x), c, k0, k1, k2);
    var d := Dft(w, ls.Size(), FlatRow(ls, rows, was, row), k);
    CongMul(AllLayers(w, ls, x)(k0, k1, k2), d, c, c);
  }

  lemma AtPlace(ls: Layers, rows: nat, mid: seq<Zq>, row: nat, z: Cube, c: int, k0: nat, k1: nat, k2: nat)
    requires |mid| == PlaceIn(ls, rows, 0) && row < rows && InCube(ls, k0, k1, k2)
    requires Congruent(ls, RowCube(ls, rows, mid, row), Scaled(z, c))
    ensures Mem(ls, k0, k1, k2) < ls.Size()
    ensures M(EntryIn(ls, rows, mid, row, Mem(ls, k0, k1, k2))) == M(z(k0, k1, k2) * c)
  {
    hide Pow2, PlaceIn, EntryIn, Mem, M;
    MemRange(ls, k0, k1, k2);
    assert RowCube(ls, rows, mid, row)(k0, k1, k2) == CubeEntry(ls, rows, mid, row, k0, k1, k2);
  }

  lemma FullPeriod(dm: Domain, ls: Layers, logn: nat)
    requires dm.Valid() && LogSize(ls) == logn <= dm.logMax
    ensures M(Pow(SizeRoot(dm.w, dm.logMax, logn), ls.Size())) == 1
  {
    hide Pow, SizeRoot, IsRoot;
    DitInPlace.SizeRootDirection(dm.tw, dm.root, dm.inverse, dm.w, dm.logMax, logn);
    RootFull(SizeRoot(dm.w, dm.logMax, logn), logn);
  }

  /** The parallel transform of every row of a batch: sums over all inputs, in natural order,
      for any order of the tasks within each layer. */
  method Transform(a: array<Zq>, dm: Domain, logn: nat, rows: nat, orders: seq<seq<Task>>)
    requires dm.Valid() && logn <= 26 && logn <= dm.logMax && a.Length == PlaceIn(LAYERS[logn], rows, 0)
    requires |orders| == NofLayers(LAYERS[logn])
    requires forall layer :: 0 <= layer < |orders| ==> Schedule(orders[layer], LAYERS[logn], layer, rows)
    modifies a
    ensures forall row: nat, k: nat :: row < rows && k < LAYERS[logn].Size() ==>
      M(EntryIn(LAYERS[logn], rows, a[..], row, k))
        == M(Dft(SizeRoot(dm.w, dm.logMax, logn), LAYERS[logn].Size(), FlatRow(LAYERS[logn], rows, old(a[..]), row), k)
             * RunScale(dm, logn))
  {
    hide Pow2, PlaceIn, Schedule, RowsAfter, RowsReordered, Dft, SizeRoot, Table, DirectionRoot, FlatRow, RunScale,
      EntryIn;
    LayersFit(logn);
    var ls := LAYERS[logn];
    RunLayers(a, dm, ls, logn, rows, orders);
    ghost var mid := a[..];
    if NofLayers(ls) > 1 {
      Reorder(a, ls, rows);
    } else {
      OneLayerInOrder(ls, rows, a[..]);
    }
    forall row: nat, k: nat | row < rows && k < ls.Size()
      ensures M(EntryIn(ls, rows, a[..], row, k))
           == M(Dft(SizeRoot(dm.w, dm.logMax, logn), ls.Size(), FlatRow(ls, rows, old(a[..]), row), k) * RunScale(dm,
               logn))
    {
      EntryMeans(dm, ls, logn, rows, old(a[..]), mid, a[..], row, k);
    }
  }
}
