/** A whole run of the CPU transform: copy, coset, transform and reordering, on all rows of a batch. */
module NttStages {
  import opened Residues
  import opened Products
  import opened Powers
  import opened PowersOfTwo
  import opened BitReversal
  import opened FourierTransform
  import opened Views
  import opened BitReverseInPlace
  import opened Twiddles
  import opened DitInPlace
  import opened LayerLayout
  import opened LayerTasks
  import opened LayerPass
  import opened LayerMeaning
  import opened ParallelRun

  /** The places of one row. */
  function RowIx(ls: Layers, row: nat): (ix: seq<nat>)
    ensures |ix| == ls.Size()
  {
    seq(ls.Size(), m requires 0 <= m => PlaceIn(ls, row, m))
  }

  lemma RowPlaces(ls: Layers, rows: nat, row: nat)
    requires row < rows
    ensures Places(RowIx(ls, row), PlaceIn(ls, rows, 0))
  {
    hide Pow2, PlaceIn;
    var ix := RowIx(ls, row);
    forall m | 0 <= m < |ix| ensures ix[m] < PlaceIn(ls, rows, 0) { PlaceBelow(ls, rows, row, m); }
    forall m, n | 0 <= m < n < |ix| ensures ix[m] != ix[n] {
      if ix[m] == ix[n] { PlaceInjective(ls, row, m, row, n); }
    }
  }

  /** One row of the memory. */
  ghost function RowOf(ls: Layers, rows: nat, mem: seq<Zq>, row: nat): (v: seq<Zq>)
    requires |mem| == PlaceIn(ls, rows, 0) && row < rows
    ensures |v| == ls.Size()
  {
    RowPlaces(ls, rows, row);
    View(mem, RowIx(ls, row))
  }

  /** Work on one row leaves the others alone. */
  lemma OtherRow(ls: Layers, rows: nat, mem: seq<Zq>, was: seq<Zq>, row: nat, r: nat)
    requires |mem| == |was| == PlaceIn(ls, rows, 0) && row < rows && r < rows && r != row
    requires SameOutside(mem, was, RowIx(ls, row))
    ensures RowOf(ls, rows, mem, r) == RowOf(ls, rows, was, r)
  {
    hide Pow2, PlaceIn;
    RowPlaces(ls, rows, r);
    var ix := RowIx(ls, row);
    forall m | 0 <= m < ls.Size() ensures RowOf(ls, rows, mem, r)[m] == RowOf(ls, rows, was, r)[m] {
      var p := PlaceIn(ls, r, m);
      assert RowIx(ls, r)[m] == p;
      if p in ix {
        var e :| 0 <= e < |ix| && ix[e] == p;
        PlaceInjective(ls, row, e, r, m);
      }
    }
  }

  /** Rows below count are related to what they were, the others are the same. */
  ghost predicate RowsDone(ls: Layers, rows: nat, mem: seq<Zq>, was: seq<Zq>, count: nat,
                           rel: (seq<Zq>, seq<Zq>) -> bool)
    requires |mem| == |was| == PlaceIn(ls, rows, 0)
  {
    && (forall r: nat :: r < rows && r < count ==> rel(RowOf(ls, rows, mem, r), RowOf(ls, rows, was, r)))
    && (forall r: nat :: r < rows && count <= r ==> RowOf(ls, rows, mem, r) == RowOf(ls, rows, was, r))
  }

  lemma RowStep(ls: Layers, rows: nat, mem': seq<Zq>, mem: seq<Zq>, was: seq<Zq>, row: nat,
                rel: (seq<Zq>, seq<Zq>) -> bool)
    requires |mem'| == |mem| == |was| == PlaceIn(ls, rows, 0) && row < rows
    requires RowsDone(ls, rows, mem, was, row, rel) && SameOutside(mem', mem, RowIx(ls, row))
    requires rel(RowOf(ls, rows, mem', row), RowOf(ls, rows, mem, row))
    ensures RowsDone(ls, rows, mem', was, row + 1, rel)
  {
    hide Pow2, PlaceIn, SameOutside, RowOf;
    forall r: nat | r < rows && r != row ensures RowOf(ls, rows, mem', r) == RowOf(ls, rows, mem, r) {
      OtherRow(ls, rows, mem', mem, row, r);
    }
  }

  // ---- What each stage does to a row. ----

  ghost function Reversal(l: nat): (seq<Zq>, seq<Zq>) -> bool {
    (v, x) => |v| == |x| == Pow2(l) && forall m :: 0 <= m < |v| ==> v[m] == x[Rev(m, l)]
  }

  ghost function CosetProduct(tw: seq<Zq>, inverse: bool, stride: nat): (seq<Zq>, seq<Zq>) -> bool {
    (v, x) => |v| == |x| && forall m :: 0 <= m < |v| ==>
      stride * m >= 0 && stride * m < |tw| && v[m] == M(x[m] * Twiddle(tw, inverse, stride * m))
  }

  ghost function TransformOf(w: int, n: nat, c: int): (seq<Zq>, seq<Zq>) -> bool {
    (v, x) => |v| == |x| == n && forall k :: 0 <= k < n ==> M(v[k]) == M(Dft(w, n, Entries(x), k) * c)
  }

  /** Swap every row into bit-reversed order. */
  method ReverseRows(a: array<Zq>, ls: Layers, rows: nat)
    requires a.Length == PlaceIn(ls, rows, 0)
    modifies a
    ensures RowsDone(ls, rows, a[..], old(a[..]), rows, Reversal(LogSize(ls)))
  {
    hide Pow2, PlaceIn, SameOutside, Rev, View, Places;
    for row := 0 to rows
      invariant RowsDone(ls, rows, a[..], old(a[..]), row, Reversal(LogSize(ls)))
    {
      ghost var mem := a[..];
      RowPlaces(ls, rows, row);
      ReorderByBitReverse(a, RowIx(ls, row), ls.s0 + ls.s1 + ls.s2);
      RowStep(ls, rows, a[..], mem, old(a[..]), row, Reversal(LogSize(ls)));
    }
  }

  /** Multiply every row by the coset powers. */
  method CosetMul(a: array<Zq>, ls: Layers, rows: nat, dm: Domain, stride: nat)
    requires a.Length == PlaceIn(ls, rows, 0) && dm.Valid() && stride * ls.Size() <= dm.maxSize
    modifies a
    ensures RowsDone(ls, rows, a[..], old(a[..]), rows, CosetProduct(dm.tw, dm.inverse, stride))
  {
    hide Pow2, PlaceIn, SameOutside, View, Places, Table, DirectionRoot, CosetProduct;
    for row := 0 to rows
      invariant RowsDone(ls, rows, a[..], old(a[..]), row, CosetProduct(dm.tw, dm.inverse, stride))
    {
      ghost var mem := a[..];
      RowPlaces(ls, rows, row);
      CosetRow(a, RowIx(ls, row), dm, stride);
      RowStep(ls, rows, a[..], mem, old(a[..]), row, CosetProduct(dm.tw, dm.inverse, stride));
    }
  }

  method CosetRow(a: array<Zq>, ix: seq<nat>, dm: Domain, stride: nat)
    requires Places(ix, a.Length) && dm.Valid() && stride * |ix| <= dm.maxSize
    modifies a
    ensures SameOutside(a[..], old(a[..]), ix)
    ensures CosetProduct(dm.tw, dm.inverse, stride)(View(a[..], ix), View(old(a[..]), ix))
  {
    hide Pow2, M, View, Table, DirectionRoot, Twiddle;
    ghost var was := View(a[..], ix);
    TableSize(dm);
    for i := 0 to |ix|
      invariant SameOutside(a[..], old(a[..]), ix)
      invariant forall k :: 0 <= k < i ==>
        stride * k >= 0 && stride * k < |dm.tw| && View(a[..],
                                                        ix)[k] == M(was[k] * Twiddle(dm.tw, dm.inverse, stride * k))
      invariant forall k :: i <= k < |ix| ==> View(a[..], ix)[k] == was[k]
    {
      CosetStep(stride, i, |ix|);
      ViewAt(a[..], ix, i);
      WriteOne(a, ix, i, M(a[ix[i]] * Twiddle(dm.tw, dm.inverse, stride * i)));
    }
  }

  lemma TableSize(dm: Domain)
    requires dm.Valid()
    ensures |dm.tw| == dm.maxSize + 1
  {}

  lemma CosetStep(stride: nat, i: nat, n: nat)
    requires i < n
    ensures 0 <= stride * i <= stride * n
  {
    NonNegative(stride, i);
    NonNegative(stride, n - i);
    Distribute(stride, n, n - i, i);
  }

  /** The transform of every row by one kernel each. */
  method TransformRows(a: array<Zq>, ls: Layers, rows: nat, dm: Domain)
    requires a.Length == PlaceIn(ls, rows, 0) && dm.Valid() && LogSize(ls) <= dm.logMax
    modifies a
    ensures RowsDone(ls, rows, a[..], old(a[..]), rows,
                     TransformOf(SizeRoot(dm.w, dm.logMax, LogSize(ls)), ls.Size(), RunScale(dm, LogSize(ls))))
  {
    hide Pow2, PlaceIn, SameOutside, View, Places, Table, DirectionRoot, TransformOf, SizeRoot, RunScale;
    for row := 0 to rows
      invariant RowsDone(ls, rows, a[..], old(a[..]), row,
                         TransformOf(SizeRoot(dm.w, dm.logMax, LogSize(ls)), ls.Size(), RunScale(dm, LogSize(ls))))
    {
      ghost var mem := a[..];
      RowPlaces(ls, rows, row);
      TransformRow(a, RowIx(ls, row), dm, ls.s0 + ls.s1 + ls.s2);
      RowStep(ls, rows, a[..], mem, old(a[..]), row,
              TransformOf(SizeRoot(dm.w, dm.logMax, LogSize(ls)), ls.Size(), RunScale(dm, LogSize(ls))));
    }
  }

  method TransformRow(a: array<Zq>, ix: seq<nat>, dm: Domain, logn: nat)
    requires Places(ix, a.Length) && |ix| == Pow2(logn) && dm.Valid() && logn <= dm.logMax
    modifies a
    ensures SameOutside(a[..], old(a[..]), ix)
    ensures TransformOf(SizeRoot(dm.w, dm.logMax, logn), Pow2(logn), RunScale(dm, logn))(View(a[..], ix),
        View(old(a[..]), ix))
  {
    hide Pow2, M, View, Table, DirectionRoot, Dft, SizeRoot, SameOutside, Entries, InvLogSize, Pow;
    TransformInPlace(a, ix, dm.tw, dm.inverse, logn, dm.maxSize, dm.root, dm.w, dm.logMax);
    ghost var mid := a[..];
    if dm.inverse {
      ScaleAll(a, ix, InvLogSize(logn));
      SameTransitive(a[..], mid, old(a[..]), ix);
    }
    ghost var x := View(old(a[..]), ix);
    forall k | 0 <= k < |ix|
      ensures M(View(a[..], ix)[k]) == M(Dft(SizeRoot(dm.w, dm.logMax, logn), Pow2(logn), Entries(x), k) * RunScale(dm,
          logn))
    {
      ScaledDft(Dft(SizeRoot(dm.w, dm.logMax, logn), Pow2(logn), Entries(x), k), logn);
    }
  }

  lemma ScaledDft(d: int, logn: nat)
    ensures M(M(d)) == M(d * 1)
    ensures M(M(M(d) * InvLogSize(logn))) == M(d * Pow(HALF, logn))
  {
    hide Pow;
    CongMul(M(d), d, InvLogSize(logn), Pow(HALF, logn));
  }
}

module NegacyclicRun {
  import opened NttDomains
  import opened Residues
  import opened Products
  import opened Sums
  import opened Powers
  import opened PowersOfTwo
  import opened BitReversal
  import opened Roots
  import opened Transforms
  import opened FourierTransform
  import opened Views
  import opened BitReverseInPlace
  import opened Twiddles
  import opened DitInPlace
  import opened LayerLayout
  import opened LayerTasks
  import opened LayerPass
  import opened LayerMeaning
  import opened ParallelRun
  import opened DigitReorder
  import opened ParallelNtt
  import opened NttStages

  /** Input to output, straight or in bit-reversed order. */
  method CopyAndReorder(input: seq<Zq>, a: array<Zq>, ls: Layers, rows: nat, bitRev: bool)
    requires |input| == a.Length == PlaceIn(ls, rows, 0)
    modifies a
    ensures forall r: nat :: r < rows ==>
      if bitRev then Reversal(LogSize(ls))(RowOf(ls, rows, a[..], r), RowOf(ls, rows, input, r))
      else RowOf(ls, rows, a[..], r) == RowOf(ls, rows, input, r)
  {
    hide Pow2, PlaceIn, RowOf, Rev;
    if bitRev {
      for row := 0 to rows
        invariant forall r: nat :: r < row ==>
          Reversal(LogSize(ls))(RowOf(ls, rows, a[..], r), RowOf(ls, rows, input, r))
      {
        ghost var mem := a[..];
        CopyRowReversed(input, a, ls, rows, row);
        forall r: nat | r < row ensures RowOf(ls, rows, a[..], r) == RowOf(ls, rows, mem, r) {
          OtherRow(ls, rows, a[..], mem, row, r);
        }
      }
    } else {
      for i := 0 to |input|
        invariant a[..i] == input[..i]
      {
        a[i] := input[i];
      }
      assert a[..] == a[..|input|] == input;
    }
  }

  /** The source's copy: nothing to do in place without reordering, and a temporary buffer in place with it. */
  method CopyAndReorderIfNeeded(input: array<Zq>, output: array<Zq>, ls: Layers, rows: nat, bitRev: bool)
    requires input.Length == output.Length == PlaceIn(ls, rows, 0)
    modifies output
    ensures forall r: nat :: r < rows ==>
      if bitRev then Reversal(LogSize(ls))(RowOf(ls, rows, output[..], r), RowOf(ls, rows, old(input[..]), r))
      else RowOf(ls, rows, output[..], r) == RowOf(ls, rows, old(input[..]), r)
  {
    hide *;
    if input != output {
      CopyAndReorder(input[..], output, ls, rows, bitRev);
      return;
    }
    if !bitRev { return; }
    var temp := new Zq[input.Length];
    CopyAndReorder(input[..], temp, ls, rows, bitRev);
    label Reordered:
    for i := 0 to temp.Length
      invariant output[..i] == temp[..i]
      invariant temp[..] == old@Reordered(temp[..])
    {
      output[i] := temp[i];
    }
    assert output[..] == output[..temp.Length] == temp[..];
  }

  method CopyRowReversed(input: seq<Zq>, a: array<Zq>, ls: Layers, rows: nat, row: nat)
    requires |input| == a.Length == PlaceIn(ls, rows, 0) && row < rows
    modifies a
    ensures SameOutside(a[..], old(a[..]), RowIx(ls, row))
    ensures Reversal(LogSize(ls))(RowOf(ls, rows, a[..], row), RowOf(ls, rows, input, row))
  {
    hide Pow2, PlaceIn, View, SameOutside, Rev;
    var ix := RowIx(ls, row);
    RowPlaces(ls, rows, row);
    SameItself(a[..], ix);
    for i := 0 to ls.Size()
      invariant SameOutside(a[..], old(a[..]), ix)
      invariant forall m :: 0 <= m < i ==> View(a[..], ix)[m] == View(input, ix)[Rev(m, LogSize(ls))]
    {
      var rev := BitReverse(i, ls.s0 + ls.s1 + ls.s2);
      ViewAt(input, ix, rev);
      ghost var mem := a[..];
      WriteOne(a, ix, i, input[PlaceIn(ls, row, rev)]);
      SameTransitive(a[..], mem, old(a[..]), ix);
    }
  }

  lemma SameItself(mem: seq<Zq>, ix: seq<nat>)
    ensures SameOutside(mem, mem, ix)
  {}

  /** The step through the table that turns the transform into the negacyclic one. */
  function PsiStride(logMax: nat, l: nat): nat
    requires l < logMax
  {
    Pow2(logMax - l - 1)
  }

  ghost function Psi(w: int, logMax: nat, l: nat): int
    requires l < logMax
  {
    Pow(w, PsiStride(logMax, l))
  }

  lemma PsiSquared(w: int, logMax: nat, l: nat)
    requires l < logMax
    ensures SizeRoot(w, logMax, l) == Psi(w, logMax, l) * Psi(w, logMax, l)
    ensures PsiStride(logMax, l) * Pow2(l) <= Pow2(logMax)
  {
    hide Pow;
    PowAdd(w, Pow2(logMax - l - 1), Pow2(logMax - l - 1));
    Pow2Add(logMax - l - 1, l);
  }

  /** The coset factor at place m is the m-th power of psi. */
  lemma CosetPower(dm: Domain, l: nat, m: nat)
    requires dm.Valid() && l < dm.logMax && PsiStride(dm.logMax, l) * m >= 0 && PsiStride(dm.logMax, l) * m < |dm.tw|
    ensures M(Twiddle(dm.tw, dm.inverse, PsiStride(dm.logMax, l) * m)) == M(Pow(Psi(dm.w, dm.logMax, l), m))
  {
    hide Pow, Table, DirectionRoot, Twiddle, Pow2;
    TwiddlePower(dm.tw, dm.root, dm.logMax, dm.inverse, dm.w, PsiStride(dm.logMax, l) * m);
    PowMul(dm.w, PsiStride(dm.logMax, l), m);
  }

  /** Coset, transform and reordering together are the negacyclic transform. */
  lemma ForwardMeans(dm: Domain, l: nat, x: seq<Zq>, c: seq<Zq>, t: seq<Zq>, y: seq<Zq>, k: nat)
    requires dm.Valid() && l < dm.logMax && |x| == |y| == Pow2(l) && k < Pow2(l)
    requires CosetProduct(dm.tw, dm.inverse, PsiStride(dm.logMax, l))(c, x)
    requires TransformOf(SizeRoot(dm.w, dm.logMax, l), Pow2(l), 1)(t, c)
    requires Reversal(l)(y, t)
    ensures M(y[k]) == M(Fwd(Psi(dm.w, dm.logMax, l), l, Entries(x), Rev(k, l)))
  {
    hide Pow, Pow2, Table, DirectionRoot, Twiddle, Dft, SizeRoot, Psi, Fwd, M, Rev, PsiStride;
    var psi, r := Psi(dm.w, dm.logMax, l), Rev(k, l);
    PsiSquared(dm.w, dm.logMax, l);
    var f, g := Entries(c), j => Pow(psi, j) * Entries(x)(j);
    forall j | 0 <= j < Pow2(l) ensures M(f(j)) == M(g(j)) {
      CosetEntry(dm, l, x, c, j);
    }
    DftCong(psi * psi, Pow2(l), f, g, r);
    FwdTwisted(psi, l, Entries(x), r);
    DftIsSum(psi * psi, Pow2(l), g, r);
    SumExt(Pow2(l), j => (Pow(psi, j) * Entries(x)(j)) * Pow(psi * psi, j * r), j => g(j) * Pow(psi * psi, j * r));
    assert M(t[r]) == M(Dft(SizeRoot(dm.w, dm.logMax, l), Pow2(l), f, r) * 1);
    assert y[k] == t[r];
  }

  lemma CosetEntry(dm: Domain, l: nat, x: seq<Zq>, c: seq<Zq>, j: nat)
    requires dm.Valid() && l < dm.logMax && j < |x|
    requires CosetProduct(dm.tw, dm.inverse, PsiStride(dm.logMax, l))(c, x)
    ensures M(Entries(c)(j)) == M(Pow(Psi(dm.w, dm.logMax, l), j) * Entries(x)(j))
  {
    hide Pow, Pow2, Table, DirectionRoot, Twiddle, Psi, M, PsiStride;
    CosetPower(dm, l, j);
    CosetTerm(c[j], x[j], Twiddle(dm.tw, dm.inverse, PsiStride(dm.logMax, l) * j), Pow(Psi(dm.w, dm.logMax, l), j));
  }

  lemma CosetTerm(c: Zq, x: int, tw: int, p: int)
    requires c == M(x * tw) && M(tw) == M(p)
    ensures M(c) == M(p * x)
  {
    hide M;
    CongScale(tw, p, x);
    MTwice(x * tw);
    assert x * p == p * x;
  }

  lemma DftIsSum(w: int, n: nat, g: int -> int, k: int)
    ensures Dft(w, n, g, k) == Sum(n, j => g(j) * Pow(w, j * k))
  {
    hide Sum, Pow;
    SumExt(n, Pointwise(g, DftKernel(w, k)), j => g(j) * Pow(w, j * k));
  }

  /** Reordering, inverse transform with its scale and inverse coset together undo it. */
  lemma InverseMeans(dm: Domain, l: nat, x: seq<Zq>, c: seq<Zq>, t: seq<Zq>, y: seq<Zq>, i: nat)
    requires dm.Valid() && l < dm.logMax && |x| == |y| == Pow2(l) && i < Pow2(l)
    requires Reversal(l)(c, x)
    requires TransformOf(SizeRoot(dm.w, dm.logMax, l), Pow2(l), Pow(HALF, l))(t, c)
    requires CosetProduct(dm.tw, dm.inverse, PsiStride(dm.logMax, l))(y, t)
    ensures M(y[i]) == M(Inv(Psi(dm.w, dm.logMax, l), l, k => Entries(x)(Rev(k, l)), i))
  {
    hide Pow, Pow2, Table, DirectionRoot, Twiddle, Dft, SizeRoot, Psi, M, Rev, PsiStride, Sum;
    var v := Psi(dm.w, dm.logMax, l);
    PsiSquared(dm.w, dm.logMax, l);
    CosetPower(dm, l, i);
    DftIsSum(v * v, Pow2(l), Entries(c), i);
    var z := k => Entries(x)(Rev(k, l));
    var f, g := j => Entries(c)(j) * Pow(v * v, j * i), Pointwise(z, InvKernel(v, i));
    forall k | 0 <= k < Pow2(l) ensures f(k) == g(k) {
      assert k * i == i * k;
    }
    SumExt(Pow2(l), f, g);
    InverseCombination(Sum(Pow2(l), g), Pow(HALF, l), t[i], Twiddle(dm.tw, dm.inverse, PsiStride(dm.logMax, l) * i),
                       Pow(v, i), y[i]);
  }

  lemma InverseCombination(s: int, h: int, t: int, tw: int, p: int, y: Zq)
    requires M(t) == M(s * h) && M(tw) == M(p) && y == M(t * tw)
    ensures M(y) == M(h * (p * s))
  {
    CongMul(t, s * h, tw, p);
    Rotate(h, p, s);
    assert (s * h) * p == p * (s * h);
  }

  /** The parallel result row by row. */
  lemma ParallelRow(ls: Layers, rows: nat, mem: seq<Zq>, was: seq<Zq>, row: nat, w: int, c: int)
    requires |mem| == |was| == PlaceIn(ls, rows, 0) && row < rows
    requires forall k: nat :: k < ls.Size() ==>
      M(EntryIn(ls, rows, mem, row, k)) == M(Dft(w, ls.Size(), FlatRow(ls, rows, was, row), k) * c)
    ensures TransformOf(w, ls.Size(), c)(RowOf(ls, rows, mem, row), RowOf(ls, rows, was, row))
  {
    hide Pow2, PlaceIn, Dft, M;
    var v, x := RowOf(ls, rows, mem, row), RowOf(ls, rows, was, row);
    RowPlaces(ls, rows, row);
    var f, g := FlatRow(ls, rows, was, row), Entries(x);
    forall m | 0 <= m < ls.Size() ensures f(m) == g(m) {
      ViewAt(was, RowIx(ls, row), m);
      PlaceBelow(ls, rows, row, m);
    }
    forall k | 0 <= k < ls.Size() ensures M(v[k]) == M(Dft(w, ls.Size(), g, k) * c) {
      ViewAt(mem, RowIx(ls, row), k);
      DftCong(w, ls.Size(), f, g, k);
      CongMul(Dft(w, ls.Size(), f, k), Dft(w, ls.Size(), g, k), c, c);
    }
  }

  /** The largest l with 2^l <= n. */
  function FloorLog(n: nat): (l: nat)
    requires n >= 1
    ensures Pow2(l) <= n < 2 * Pow2(l)
  {
    if n == 1 then 0 else FloorLog(n / 2) + 1
  }

  /** Small batches run one kernel per row, large ones the layers in parallel. */
  predicate IsParallel(logn: nat, rows: nat)
    requires rows >= 1
  {
    logn + FloorLog(rows) > 16
  }

  /** An order of the tasks for every layer that runs. */
  ghost predicate Schedules(orders: seq<seq<Task>>, ls: Layers, rows: nat) {
    |orders| == NofLayers(ls) && forall layer :: 0 <= layer < |orders| ==> Schedule(orders[layer], ls, layer, rows)
  }

  /** The middle of a run. */
  method TransformBatch(a: array<Zq>, dm: Domain, logn: nat, rows: nat, orders: seq<seq<Task>>)
    requires dm.Valid() && logn <= 26 && logn <= dm.logMax && rows >= 1 && a.Length == PlaceIn(LAYERS[logn], rows, 0)
    requires IsParallel(logn, rows) ==> Schedules(orders, LAYERS[logn], rows)
    modifies a
    ensures forall r: nat :: r < rows ==>
      TransformOf(SizeRoot(dm.w, dm.logMax, logn), LAYERS[logn].Size(), RunScale(dm, logn))
        (RowOf(LAYERS[logn], rows, a[..], r), RowOf(LAYERS[logn], rows, old(a[..]), r))
  {
    hide Pow2, PlaceIn, Schedule, Dft, SizeRoot, Table, DirectionRoot, FlatRow, RunScale, EntryIn, FloorLog, RowOf,
      TransformOf;
    LayersFit(logn);
    var ls := LAYERS[logn];
    if IsParallel(logn, rows) {
      Transform(a, dm, logn, rows, orders);
      forall r: nat | r < rows
        ensures TransformOf(SizeRoot(dm.w, dm.logMax, logn), ls.Size(), RunScale(dm, logn))
          (RowOf(ls, rows, a[..], r), RowOf(ls, rows, old(a[..]), r))
      {
        ParallelRow(ls, rows, a[..], old(a[..]), r, SizeRoot(dm.w, dm.logMax, logn), RunScale(dm, logn));
      }
    } else {
      TransformRows(a, ls, rows, dm);
    }
  }

  /** What a run leaves in a row: the negacyclic transform in bit-reversed order, or back from there. */
  ghost predicate RowTransformed(dm: Domain, l: nat, x: seq<Zq>, y: seq<Zq>)
    requires l < dm.logMax && |x| == |y| == Pow2(l)
  {
    forall k :: 0 <= k < Pow2(l) ==>
      M(y[k]) == if dm.inverse then M(Inv(Psi(dm.w, dm.logMax, l), l, k => Entries(x)(Rev(k, l)), k))
                 else M(Fwd(Psi(dm.w, dm.logMax, l), l, Entries(x), Rev(k, l)))
  }

  /** The coset generator is found in the domain's map, and its index there is the step through the table. */
  lemma StrideFound(dm: Domain, l: nat, cosetGen: Zq, cosetIndex: map<Zq, nat>)
    requires l < dm.logMax && Indexed(cosetIndex, dm.root, dm.logMax)
    requires cosetGen == M(Pow(dm.root, PsiStride(dm.logMax, l)))
    ensures cosetGen in cosetIndex && cosetIndex[cosetGen] == PsiStride(dm.logMax, l)
  {
    hide Pow;
    PsiSquared(dm.root, dm.logMax, l);
    Distribute(PsiStride(dm.logMax, l), Pow2(l), Pow2(l) - 1, 1);
    NonNegative(PsiStride(dm.logMax, l), Pow2(l) - 1);
  }

  /** The whole run in either direction, for every length, batch and order of tasks; the input may be the output. */
  method Run(input: array<Zq>, output: array<Zq>, dm: Domain, logn: nat, rows: nat, cosetGen: Zq,
             cosetIndex: map<Zq, nat>, orders: seq<seq<Task>>)
    requires dm.Valid() && logn <= 26 && logn < dm.logMax && rows >= 1
    requires Indexed(cosetIndex, dm.root, dm.logMax) && cosetGen == M(Pow(dm.root, PsiStride(dm.logMax, logn)))
    requires input.Length == output.Length == PlaceIn(LAYERS[logn], rows, 0)
    requires IsParallel(logn, rows) ==> Schedules(orders, LAYERS[logn], rows)
    modifies output
    ensures LogSize(LAYERS[logn]) == logn
    ensures forall r: nat :: r < rows ==>
      RowTransformed(dm, logn, RowOf(LAYERS[logn], rows, old(input[..]), r), RowOf(LAYERS[logn], rows, output[..], r))
  {
    hide Pow2, PlaceIn, Schedule, SizeRoot, Table, DirectionRoot, FloorLog, RowOf, TransformOf, CosetProduct,
      Reversal, PsiStride, RowTransformed, Indexed, Pow;
    LayersFit(logn);
    var ls := LAYERS[logn];
    PsiSquared(dm.w, dm.logMax, logn);
    StrideFound(dm, logn, cosetGen, cosetIndex);
    var stride := cosetIndex[cosetGen];
    ghost var x := input[..];
    CopyAndReorderIfNeeded(input, output, ls, rows, dm.inverse);
    if !dm.inverse { CosetMul(output, ls, rows, dm, stride); }
    ghost var before := output[..];
    TransformBatch(output, dm, logn, rows, orders);
    ghost var after := output[..];
    if dm.inverse { CosetMul(output, ls, rows, dm, stride); }
    if !dm.inverse { ReverseRows(output, ls, rows); }
    forall r: nat | r < rows ensures RowTransformed(dm, logn, RowOf(ls, rows, x, r), RowOf(ls, rows, output[..], r)) {
      RowMeans(dm, logn, RowOf(ls, rows, x, r), RowOf(ls, rows, before, r), RowOf(ls, rows, after, r),
               RowOf(ls, rows, output[..], r));
    }
  }

  lemma RowMeans(dm: Domain, l: nat, x: seq<Zq>, c: seq<Zq>, t: seq<Zq>, y: seq<Zq>)
    requires dm.Valid() && l < dm.logMax && |x| == |y| == Pow2(l)
    requires TransformOf(SizeRoot(dm.w, dm.logMax, l), Pow2(l), RunScale(dm, l))(t, c)
    requires dm.inverse ==> Reversal(l)(c, x) && CosetProduct(dm.tw, dm.inverse, PsiStride(dm.logMax, l))(y, t)
    requires !dm.inverse ==> CosetProduct(dm.tw, dm.inverse, PsiStride(dm.logMax, l))(c, x) && Reversal(l)(y, t)
    ensures RowTransformed(dm, l, x, y)
  {
    hide Pow2, SizeRoot, Table, DirectionRoot, TransformOf, CosetProduct, Reversal, PsiStride, Fwd, Inv, Rev, M, Psi,
      Pow;
    forall k | 0 <= k < Pow2(l)
      ensures M(y[k]) == if dm.inverse then M(Inv(Psi(dm.w, dm.logMax, l), l, k => Entries(x)(Rev(k, l)), k))
                         else M(Fwd(Psi(dm.w, dm.logMax, l), l, Entries(x), Rev(k, l)))
    {
      if dm.inverse { InverseMeans(dm, l, x, c, t, y, k); } else { ForwardMeans(dm, l, x, c, t, y, k); }
    }
  }
}

/** The transforms of polynomials, through the shared domain. */
module PolynomialNtt {
  import Sums
  import opened Views
  import opened Vectors
  import opened LayerLayout
  import opened LayerTasks
  import opened ParallelNtt
  import opened NttStages
  import opened Residues
  import opened Powers
  import opened PowersOfTwo
  import opened BitReversal
  import opened Roots
  import opened Transforms
  import opened Polynomials
  import opened Twiddles
  import opened DitInPlace
  import opened LayerPass
  import opened LayerMeaning
  import opened NegacyclicRun
  import opened NttDomains

  /** The domain as initialised with psi. */
  ghost predicate PsiDomain(dm: Domain) {
    && dm.Valid() && dm.logMax == LOG_D + 1 && dm.root == PSI
    && M(dm.w) == M(if dm.inverse then PSI_INV else PSI)
  }

  lemma PsiIs(dm: Domain)
    requires PsiDomain(dm)
    ensures Psi(dm.w, dm.logMax, LOG_D) == dm.w
  {
    assert Pow(dm.w, 1) == dm.w * Pow(dm.w, 0);
  }

  lemma RootsAlike(v: int, u: int, l: nat, x: int -> int, k: nat)
    requires M(v) == M(u)
    ensures M(Fwd(v, l, x, k)) == M(Fwd(u, l, x, k)) && M(Inv(v, l, x, k)) == M(Inv(u, l, x, k))
  {
    hide Sums.Sum, Pow, Pow2;
    var n := Pow2(l);
    var f, g := Sums.Pointwise(x, FwdKernel(v, k)), Sums.Pointwise(x, FwdKernel(u, k));
    forall i | 0 <= i < n ensures M(f(i)) == M(g(i)) {
      PowCong(v, u, i * (2 * k + 1));
      CongScale(Pow(v, i * (2 * k + 1)), Pow(u, i * (2 * k + 1)), x(i));
    }
    Sums.SumCong(n, f, g);
    CongMul(v, u, v, u);
    var a, b := Sums.Pointwise(x, InvKernel(v, k)), Sums.Pointwise(x, InvKernel(u, k));
    forall i | 0 <= i < n ensures M(a(i)) == M(b(i)) {
      PowCong(v * v, u * u, k * i);
      CongScale(Pow(v * v, k * i), Pow(u * u, k * i), x(i));
    }
    Sums.SumCong(n, a, b);
    PowCong(v, u, k);
    CongMul(Pow(v, k), Pow(u, k), Sums.Sum(n, a), Sums.Sum(n, b));
    CongScale(Pow(v, k) * Sums.Sum(n, a), Pow(u, k) * Sums.Sum(n, b), Pow(HALF, l));
  }

  /** A forward run leaves the values of each polynomial, an inverse run its coefficients. */
  lemma RunIsNtt(dm: Domain, x: Poly, y: Poly)
    requires PsiDomain(dm) && Pow2(LOG_D) == D && RowTransformed(dm, LOG_D, x, y)
    ensures y == if dm.inverse then Intt(x) else Ntt(x)
  {
    hide Fwd, Inv, Pow, Pow2, Rev, Ntt, Intt, Psi, Tabulate;
    PsiIs(dm);
    var z := if dm.inverse then Intt(x) else Ntt(x);
    forall k | 0 <= k < D ensures At(y, k) == At(z, k) {
      PlaceIsNtt(dm, x, y, k);
    }
    PolyExt(y, z);
  }

  lemma PlaceIsNtt(dm: Domain, x: Poly, y: Poly, k: nat)
    requires PsiDomain(dm) && Pow2(LOG_D) == D && RowTransformed(dm, LOG_D, x, y) && k < D && Psi(dm.w, dm.logMax,
        LOG_D) == dm.w
    ensures At(y, k) == At(if dm.inverse then Intt(x) else Ntt(x), k)
  {
    hide Fwd, Inv, Pow, Pow2, Rev, Ntt, Intt, Psi;
    assert M(y[k]) == y[k];
    if dm.inverse {
      var f, g := k => Entries(x)(Rev(k, LOG_D)), Reordered(x);
      forall j | 0 <= j < D ensures f(j) == g(j) {
        RevRange(j);
        var p := Rev(j, LOG_D);
        assert 0 <= p < |x| && At(x, p) == x[p] && Entries(x)(p) == x[p];
        assert g(j) == At(x, p);
      }
      assert M(y[k]) == M(Inv(dm.w, LOG_D, f, k));
      InvCong(dm.w, LOG_D, f, g, k);
      RootsAlike(dm.w, PSI_INV, LOG_D, g, k);
      InttAt(x, k);
    } else {
      assert M(y[k]) == M(Fwd(dm.w, LOG_D, Entries(x), Rev(k, LOG_D)));
      FwdCong(dm.w, LOG_D, Entries(x), Coeffs(x), Rev(k, LOG_D));
      RootsAlike(dm.w, PSI, LOG_D, Coeffs(x), Rev(k, LOG_D));
      NttAt(x, k);
    }
  }

  /** All coefficients in one stretch of memory. */
  function Flatten(v: seq<Poly>): (f: seq<Zq>)
    ensures |f| == |v| * D
    ensures forall i, k :: 0 <= i < |v| && 0 <= k < D ==> f[i * D + k] == v[i][k]
  {
    if |v| == 0 then [] else Flatten(v[..|v| - 1]) + v[|v| - 1]
  }

  function Unflatten(f: seq<Zq>, n: nat): (v: seq<Poly>)
    requires |f| == n * D
    ensures |v| == n && forall i, k :: 0 <= i < n && 0 <= k < D ==> v[i][k] == f[i * D + k]
  {
    if n == 0 then [] else Unflatten(f[..(n - 1) * D], n - 1) + [f[(n - 1) * D..]]
  }

  lemma RowsOfPolys(rows: nat)
    ensures LAYERS[LOG_D].Size() == D && PlaceIn(LAYERS[LOG_D], rows, 0) == rows * D
    ensures forall row: nat, k: nat :: PlaceIn(LAYERS[LOG_D], row, k) == row * D + k
  {
    SizeIsD();
    forall row: nat, k: nat ensures PlaceIn(LAYERS[LOG_D], row, k) == row * D + k { TimesIs(row, D); }
    TimesIs(rows, D);
  }

  lemma RowAt(mem: seq<Zq>, rows: nat, row: nat, k: nat)
    requires |mem| == PlaceIn(LAYERS[LOG_D], rows, 0) && row < rows && k < D && LAYERS[LOG_D].Size() == D
    ensures row * D + k < |mem|
    ensures RowOf(LAYERS[LOG_D], rows, mem, row)[k] == mem[row * D + k]
  {
    hide Pow2;
    RowsOfPolys(rows);
    RowPlaces(LAYERS[LOG_D], rows, row);
    ViewAt(mem, RowIx(LAYERS[LOG_D], row), k);
  }

  /** The transform of a vector of polynomials on flat memory: it initialises the shared domain with psi, which does
      nothing when that was done before, and finds psi in the domain's map. The input may be the output. */
  method NegacyclicNtt(input: array<Zq>, size: nat, inverse: bool, shared: CpuNttDomain, orders: seq<seq<Task>>,
                       output: array<Zq>)
    requires size >= 1 && input.Length == output.Length == size * D
    requires shared.Ready(PSI, LOG_D + 1) || (shared.twiddles == [] && shared.maxLogSize == 0)
    requires IsParallel(LOG_D, size) ==> Schedules(orders, LAYERS[LOG_D], size)
    modifies output, shared
    ensures shared.Ready(PSI, LOG_D + 1)
    ensures var v := Unflatten(old(input[..]), size);
      Unflatten(output[..], size) == if inverse then InttVec(v) else NttVec(v)
  {
    hide Pow2, PlaceIn, Ntt, Intt, RowTransformed, RowOf, Schedules, FloorLog, PsiDomain, PsiStride;
    RowsOfPolys(size);
    ghost var was := input[..];
    ghost var v := Unflatten(was, size);
    InitPsi(shared);
    var dm := Domain(shared.twiddles, shared.maxSize, inverse, PSI, if inverse then PSI_INV else PSI, LOG_D + 1);
    DomainReady(dm);
    Run(input, output, dm, LOG_D, size, PSI, shared.cosetIndex, orders);
    ghost var r := Unflatten(output[..], size);
    ghost var expected := if inverse then InttVec(v) else NttVec(v);
    forall i | 0 <= i < size ensures r[i] == expected[i] {
      RowIsPoly(was, v, i);
      RowIsPoly(output[..], r, i);
      SizeIsD();
      RunIsNtt(dm, v[i], r[i]);
    }
  }

  /** Initialising the domain with psi. */
  method InitPsi(shared: CpuNttDomain)
    requires shared.Ready(PSI, LOG_D + 1) || (shared.twiddles == [] && shared.maxLogSize == 0)
    modifies shared
    ensures shared.Ready(PSI, LOG_D + 1)
  {
    hide Pow, Pow2, Indexed, IsRoot;
    PsiIsRoot();
    RootOrder(PSI, LOG_D + 1);
    ghost var before := shared.maxLogSize;
    var ok := shared.Init(PSI);
    if shared.maxLogSize != before { OneOrder(PSI, LOG_D + 1, shared.maxLogSize - before); }
  }

  /** The run's view of a domain that is ready for psi. */
  lemma DomainReady(dm: Domain)
    requires dm.logMax == LOG_D + 1 && dm.root == PSI && dm.w == if dm.inverse then PSI_INV else PSI
    requires Table(dm.tw, PSI, LOG_D + 1) && dm.maxSize == Pow2(LOG_D + 1)
    ensures PsiDomain(dm) && dm.Valid() && LOG_D < dm.logMax
    ensures PSI == M(Pow(dm.root, PsiStride(dm.logMax, LOG_D)))
  {
    hide Table, Pow;
    PsiIsRoot();
    PowStep(PSI, 1);
    PowStep(PSI, 0);
  }

  lemma RowIsPoly(mem: seq<Zq>, v: seq<Poly>, i: nat)
    requires i < |v| && |mem| == PlaceIn(LAYERS[LOG_D], |v|, 0) == |v| * D
    requires forall i, k :: 0 <= i < |v| && 0 <= k < D ==> mem[i * D + k] == v[i][k]
    ensures RowOf(LAYERS[LOG_D], |v|, mem, i) == v[i]
  {
    hide Pow2, PlaceIn, RowOf;
    RowsOfPolys(|v|);
    forall k | 0 <= k < D ensures RowOf(LAYERS[LOG_D], |v|, mem, i)[k] == v[i][k] {
      RowAt(mem, |v|, i, k);
    }
  }
}
