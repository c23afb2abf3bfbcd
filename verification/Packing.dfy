/** Symmetric matrices packed as their upper triangles, row after row. */
module Packing {
  import opened Residues
  import opened Products
  import opened Sums
  import opened Arrays
  import opened Polynomials
  import opened Vectors

  /** Where row i of the packed triangle of an n x n matrix starts. */
  function Off(n: int, i: int): int {
    if i <= 0 then 0 else Off(n, i - 1) + (n - (i - 1))
  }

  /** The packed place of the entry (i, j), on either side of the diagonal. */
  function Place(n: int, i: int, j: int): int {
    if i <= j then Off(n, i) + (j - i) else Off(n, j) + (i - j)
  }

  function PackedLen(n: nat): nat {
    (n * (n + 1)) / 2
  }

  lemma OffClosed(n: int, i: nat)
    ensures 2 * Off(n, i) == i * (2 * n - i + 1)
  {
    if i > 0 {
      OffClosed(n, i - 1);
      assert i * (2 * n - i + 1) == (i - 1) * (2 * n - (i - 1) + 1) + 2 * (n - i + 1);
    }
  }

  lemma OffTotal(n: nat)
    ensures Off(n, n) == PackedLen(n)
  {
    hide Off;
    OffClosed(n, n);
  }

  lemma OffMonotone(n: int, i: nat, j: nat)
    requires i <= j <= n
    ensures 0 <= Off(n, i) <= Off(n, j)
    decreases j
  {
    if i < j { OffMonotone(n, i, j - 1); } else if i > 0 { OffMonotone(n, i - 1, i - 1); }
  }

  lemma PlaceRange(n: nat, i: nat, d: nat, rows: nat)
    requires i < rows <= n && d < n - i
    ensures 0 <= Off(n, i) + d < Off(n, rows)
  {
    OffMonotone(n, i, i);
    OffMonotone(n, i + 1, rows);
  }

  /** The first rows of the packed triangle of f. */
  function PackRows(n: nat, f: (int, int) -> Poly, rows: nat): (v: seq<Poly>)
    requires rows <= n
    ensures |v| == Off(n, rows)
  {
    if rows == 0 then []
    else PackRows(n, f, rows - 1) + Vec(n - (rows - 1), d => f(rows - 1, rows - 1 + d))
  }

  function Pack(n: nat, f: (int, int) -> Poly): (v: seq<Poly>)
    ensures |v| == Off(n, n)
  {
    PackRows(n, f, n)
  }

  function Entry(mat: seq<Poly>, n: nat): (int, int) -> Poly {
    (i, j) => PolyAt(mat, i * n + j)
  }

  /** The packed upper triangle of a row-major matrix. */
  function SymmPart(mat: seq<Poly>, n: nat): seq<Poly> {
    Pack(n, Entry(mat, n))
  }

  function Unpacked(v: seq<Poly>, n: nat): (int, int) -> Poly {
    (i, j) => PolyAt(v, Place(n, i, j))
  }

  /** The symmetric matrix with the given packed triangle. */
  function SymmMatrix(v: seq<Poly>, n: nat): seq<Poly> {
    Grid(n, n, Unpacked(v, n))
  }

  lemma {:induction false} PackAt(n: nat, f: (int, int) -> Poly, rows: nat, i: nat, d: nat)
    requires i < rows <= n && d < n - i
    ensures 0 <= Off(n, i) + d < Off(n, rows)
    ensures PackRows(n, f, rows)[Off(n, i) + d] == f(i, i + d)
  {
    PlaceRange(n, i, d, rows);
    if i < rows - 1 {
      PackAt(n, f, rows - 1, i, d);
    }
  }

  /** Unpacking reads back what packing stored, on both sides of the diagonal. */
  lemma UnpackPack(n: nat, f: (int, int) -> Poly, i: nat, j: nat)
    requires i < n && j < n
    ensures Unpacked(Pack(n, f), n)(i, j) == if i <= j then f(i, j) else f(j, i)
  {
    hide PackRows, Off;
    if i <= j { PackAt(n, f, n, i, j - i); } else { PackAt(n, f, n, j, i - j); }
  }

  /** Unpack after pack is the identity on symmetric matrices. */
  lemma SymmRoundTrip(mat: seq<Poly>, n: nat)
    requires |mat| == n * n
    requires forall i, j :: 0 <= i < n && 0 <= j < n ==> Entry(mat, n)(i, j) == Entry(mat, n)(j, i)
    ensures SymmMatrix(SymmPart(mat, n), n) == mat
  {
    hide Pack, Grid, Unpacked, Entry;
    var g := Unpacked(SymmPart(mat, n), n);
    forall i, j | 0 <= i < n && 0 <= j < n ensures g(i, j) == Entry(mat, n)(i, j) {
      UnpackPack(n, Entry(mat, n), i, j);
    }
    GridOfEntries(n, n, g, mat);
  }

  /** A row-major matrix is determined by its entries. */
  lemma GridOfEntries(rows: nat, cols: nat, g: (int, int) -> Poly, mat: seq<Poly>)
    requires |mat| == rows * cols
    requires forall i, j :: 0 <= i < rows && 0 <= j < cols ==> g(i, j) == Entry(mat, cols)(i, j)
    ensures Grid(rows, cols, g) == mat
  {
    hide Grid;
    forall x | 0 <= x < rows * cols ensures Grid(rows, cols, g)[x] == mat[x] {
      var i, j := Split(x, rows, cols);
      GridAt(rows, cols, g, i, j);
    }
  }

  lemma Split(x: nat, rows: nat, cols: nat) returns (i: nat, j: nat)
    requires x < rows * cols
    ensures i < rows && j < cols && x == i * cols + j
  {
    if x < (rows - 1) * cols {
      i, j := Split(x, rows - 1, cols);
    } else {
      Distribute(cols, rows, rows - 1, 1);
      i, j := rows - 1, x - (rows - 1) * cols;
    }
  }

  /** The sum of g along row i of the packed triangle. */
  function RowSums(n: nat, g: int -> int): int -> int {
    i => if i <= n then Sum(n - i, d => g(Off(n, i) + d)) else 0
  }

  /** A sum over the packed triangle is a sum over its rows. */
  lemma {:induction false} SumPacked(n: nat, rows: nat, g: int -> int)
    requires rows <= n
    ensures Off(n, rows) >= 0
    ensures Sum(Off(n, rows), g) == Sum(rows, RowSums(n, g))
  {
    hide Sum;
    OffMonotone(n, 0, rows);
    SumStep(rows, RowSums(n, g));
    SumStep(0, g);
    if rows > 0 {
      OffMonotone(n, 0, rows - 1);
      SumPacked(n, rows - 1, g);
      SumSplit(Off(n, rows - 1), n - (rows - 1), g);
      SumExt(n - (rows - 1), i => g(Off(n, rows - 1) + i), d => g(Off(n, rows - 1) + d));
    }
  }

  /** Row i of the triangle of f: the diagonal once, the other entries with their mirror images. */
  function TriangleTerm(f: (int, int) -> int, i: int): int -> int {
    d => if d == 0 then f(i, i) else f(i, i + d) + f(i + d, i)
  }

  function TriangleRow(n: nat, f: (int, int) -> int): int -> int {
    i => if i < n then Sum(n - i, TriangleTerm(f, i)) else 0
  }

  function RowOf(f: (int, int) -> int, i: int): int -> int {
    j => f(i, j)
  }

  function ColumnOf(f: (int, int) -> int, j: int): int -> int {
    i => f(i, j)
  }

  function FullRow(n: nat, f: (int, int) -> int): int -> int {
    i => Sum(n, RowOf(f, i))
  }

  /** A sum over a square is a sum over its upper triangle with mirrored entries added. */
  lemma {:induction false} Triangle(n: nat, f: (int, int) -> int)
    ensures Sum(n, FullRow(n, f)) == Sum(n, TriangleRow(n, f))
  {
    hide Sum, FullRow, TriangleRow;
    SumStep(0, FullRow(n, f));
    SumStep(0, TriangleRow(n, f));
    if n > 0 {
      Triangle(n - 1, f);
      FullStep(n - 1, f);
      TriangleStep(n - 1, f);
    }
  }

  lemma FullStep(m: nat, f: (int, int) -> int)
    ensures Sum(m + 1, FullRow(m + 1, f))
         == Sum(m, FullRow(m, f)) + Sum(m, ColumnOf(f, m)) + Sum(m, RowOf(f, m)) + f(m, m)
  {
    hide Sum;
    var g, h, col := FullRow(m + 1, f), FullRow(m, f), ColumnOf(f, m);
    SumStep(m + 1, g);
    SumStep(m + 1, RowOf(f, m));
    forall i | 0 <= i < m ensures g(i) == h(i) + col(i) {
      SumStep(m + 1, RowOf(f, i));
    }
    SumExt(m, g, i => h(i) + col(i));
    SumAdd(m, h, col);
  }

  lemma TriangleStep(m: nat, f: (int, int) -> int)
    ensures Sum(m + 1, TriangleRow(m + 1, f))
         == Sum(m, TriangleRow(m, f)) + Sum(m, ColumnOf(f, m)) + Sum(m, RowOf(f, m)) + f(m, m)
  {
    hide Sum, TriangleRow;
    var g, h, col, row := TriangleRow(m + 1, f), TriangleRow(m, f), ColumnOf(f, m), RowOf(f, m);
    var both := i => col(i) + row(i);
    SumStep(m + 1, g);
    TriangleLast(m, f);
    forall i | 0 <= i < m ensures g(i) == h(i) + both(i) {
      TriangleEntry(m, f, i);
    }
    SumExt(m, g, i => h(i) + both(i));
    SumAdd(m, h, both);
    SumAdd(m, col, row);
  }

  lemma TriangleLast(m: nat, f: (int, int) -> int)
    ensures TriangleRow(m + 1, f)(m) == f(m, m)
  {
    hide Sum;
    SumStep(1, TriangleTerm(f, m));
    SumStep(0, TriangleTerm(f, m));
  }

  lemma TriangleEntry(m: nat, f: (int, int) -> int, i: nat)
    requires i < m
    ensures TriangleRow(m + 1, f)(i) == TriangleRow(m, f)(i) + (f(i, m) + f(m, i))
  {
    hide Sum;
    SumStep(m + 1 - i, TriangleTerm(f, i));
    assert i + (m - i) == m;
  }

  function ProductOf(m: (int, int) -> int, g: (int, int) -> int): (int, int) -> int {
    (i, j) => m(i, j) * g(i, j)
  }

  /** m packed for use against a symmetric matrix: off the diagonal both mirror images count. */
  function Folded(m: (int, int) -> int, i: int, j: int): int {
    if i == j then m(i, i) else m(i, j) + m(j, i)
  }

  /** The inner product of m with a symmetric g equals that of the packed vectors. */
  lemma SymmetricDot(n: nat, m: (int, int) -> int, g: (int, int) -> int, mp: int -> int, gp: int -> int)
    requires forall i, j :: 0 <= i < n && 0 <= j < n ==> g(i, j) == g(j, i)
    requires forall i, j :: 0 <= i <= j < n ==> M(mp(Place(n, i, j))) == M(Folded(m, i, j))
    requires forall i, j :: 0 <= i <= j < n ==> M(gp(Place(n, i, j))) == M(g(i, j))
    ensures Off(n, n) >= 0
    ensures M(Sum(Off(n, n), Pointwise(mp, gp))) == M(Sum(n, FullRow(n, ProductOf(m, g))))
  {
    hide Sum, Off, FullRow, TriangleRow, RowSums;
    var f, t := ProductOf(m, g), Pointwise(mp, gp);
    SumPacked(n, n, t);
    Triangle(n, f);
    forall i | 0 <= i < n ensures M(RowSums(n, t)(i)) == M(TriangleRow(n, f)(i)) {
      SymmetricRow(n, m, g, mp, gp, i);
    }
    SumCong(n, RowSums(n, t), TriangleRow(n, f));
  }

  lemma PlaceUpper(n: int, i: int, d: nat)
    ensures Place(n, i, i + d) == Off(n, i) + d
  {}

  lemma SymmetricRow(n: nat, m: (int, int) -> int, g: (int, int) -> int, mp: int -> int, gp: int -> int, i: nat)
    requires i < n
    requires forall i, j :: 0 <= i < n && 0 <= j < n ==> g(i, j) == g(j, i)
    requires forall i, j :: 0 <= i <= j < n ==> M(mp(Place(n, i, j))) == M(Folded(m, i, j))
    requires forall i, j :: 0 <= i <= j < n ==> M(gp(Place(n, i, j))) == M(g(i, j))
    ensures M(RowSums(n, Pointwise(mp, gp))(i)) == M(TriangleRow(n, ProductOf(m, g))(i))
  {
    hide Sum, Off, Place, Folded, ProductOf, TriangleTerm, M;
    var t, b := Pointwise(mp, gp), TriangleTerm(ProductOf(m, g), i);
    var a := d => t(Off(n, i) + d);
    forall d | 0 <= d < n - i ensures M(a(d)) == M(b(d)) {
      PlaceUpper(n, i, d);
      SymmetricTerm(m, g, i, d, mp(Place(n, i, i + d)), gp(Place(n, i, i + d)));
    }
    SumCong(n - i, a, b);
  }

  lemma SymmetricTerm(m: (int, int) -> int, g: (int, int) -> int, i: int, d: nat, x: int, y: int)
    requires g(i, i + d) == g(i + d, i)
    requires M(x) == M(Folded(m, i, i + d)) && M(y) == M(g(i, i + d))
    ensures M(x * y) == M(TriangleTerm(ProductOf(m, g), i)(d))
  {
    if d == 0 {
      CongMul(x, m(i, i), y, g(i, i));
    } else {
      FoldedTerm(x, y, m(i, i + d), m(i + d, i), g(i, i + d));
    }
  }

  lemma FoldedTerm(x: int, y: int, u: int, v: int, w: int)
    requires M(x) == M(u + v) && M(y) == M(w)
    ensures M(x * y) == M(u * w + v * w)
  {
    CongMul(x, u + v, y, w);
    Distribute(w, u + v, u, v);
  }
}
