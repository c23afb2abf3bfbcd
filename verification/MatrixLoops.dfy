/** Copies between buffers. */
module Buffers {
  import opened Arrays

  /** Writes src into dst from off on. */
  method CopyInto<T>(dst: array<T>, off: nat, src: seq<T>)
    requires off + |src| <= dst.Length
    modifies dst
    ensures dst[..] == CopyAt(old(dst[..]), off, src)
  {
    for i := 0 to |src|
      invariant dst[..] == CopyAt(old(dst[..]), off, src[..i])
    {
      dst[off + i] := src[i];
      assert src[..i + 1] == src[..i] + [src[i]];
    }
    assert src[..|src|] == src;
  }
}

/** Entries of row-major matrix buffers. */
module MatrixBuffers {
  import opened Products
  import opened Arrays
  import opened Polynomials
  import opened Vectors
  import opened Packing

  /** Entry (i, j). */
  ghost function RectAt(mat: seq<Poly>, rows: nat, cols: nat, i: nat, j: nat): Poly
    requires |mat| == Cell(cols, rows, 0) && i < rows && j < cols
  {
    CellRange(rows, cols, i, j);
    mat[Cell(cols, i, j)]
  }

  lemma RectWritten(was: seq<Poly>, now: seq<Poly>, rows: nat, cols: nat, i: nat, j: nat, x: Poly)
    requires |was| == Cell(cols, rows, 0) && i < rows && j < cols && Cell(cols, i,
        j) < |was| && now == was[Cell(cols, i, j) := x]
    ensures forall k: nat, l: nat :: k < rows && l < cols ==>
      RectAt(now, rows, cols, k, l) == if k == i && l == j then x else RectAt(was, rows, cols, k, l)
  {
    hide Cell;
    forall k: nat, l: nat | k < rows && l < cols
      ensures RectAt(now, rows, cols, k, l) == if k == i && l == j then x else RectAt(was, rows, cols, k, l)
    {
      CellRange(rows, cols, k, l);
      if Cell(cols, k, l) == Cell(cols, i, j) { CellUnique(cols, k, l, i, j); }
    }
  }

  lemma CellIs(cols: nat, i: nat, j: nat)
    ensures Cell(cols, i, j) == i * cols + j && i * cols >= 0
  {}

  /** A buffer with the entries of f is the matrix of f. */
  lemma RectIsGrid(mat: seq<Poly>, rows: nat, cols: nat, f: (int, int) -> Poly)
    requires |mat| == Cell(cols, rows, 0)
    requires forall i: nat, j: nat :: i < rows && j < cols ==> RectAt(mat, rows, cols, i, j) == f(i, j)
    ensures mat == Grid(rows, cols, f)
  {
    hide Grid, Cell;
    CellIs(cols, rows, 0);
    forall i, j | 0 <= i < rows && 0 <= j < cols ensures f(i, j) == Entry(mat, cols)(i, j) {
      CellRange(rows, cols, i, j);
      CellIs(cols, i, j);
      assert RectAt(mat, rows, cols, i, j) == f(i, j) && Entry(mat, cols)(i, j) == PolyAt(mat, i * cols + j);
    }
    GridOfEntries(rows, cols, f, mat);
  }
}

/** The loops that pack and unpack symmetric matrices and sum a diagonal. */
module SymmetricLoops {
  import opened Residues
  import opened Products
  import opened Sums
  import opened Arrays
  import opened Polynomials
  import opened Vectors
  import opened Packing
  import opened BaseChecks
  import opened Buffers
  import opened MatrixBuffers

  lemma RowFits(n: nat, i: nat)
    requires i < n
    ensures i * n + i + (n - i) <= n * n && 0 <= i * n
    ensures Off(n, i) >= 0 && Off(n, i + 1) == Off(n, i) + (n - i) <= Off(n, n)
  {
    RowMajor(i, n - 1, n, n);
    OffMonotone(n, 0, i);
    OffMonotone(n, i + 1, n);
  }

  /** Copies row after row, from the diagonal on, with a moving offset. */
  method ExtractSymmPart(mat: seq<Poly>, n: nat) returns (v: array<Poly>)
    requires |mat| == n * n
    ensures fresh(v) && v[..] == SymmPart(mat, n)
  {
    hide Off, PackRows;
    OffTotal(n);
    v := new Poly[(n * (n + 1)) / 2](i => ZERO);
    var offset: nat := 0;
    assert PackRows(n, Entry(mat, n), 0) == [] && Off(n, 0) == 0 by { FirstRow(n, Entry(mat, n)); }
    for i := 0 to n
      invariant offset == Off(n, i) <= v.Length == Off(n, n)
      invariant v[..offset] == PackRows(n, Entry(mat, n), i)
    {
      RowFits(n, i);
      ghost var was := v[..];
      CopyInto(v, offset, mat[i * n + i..i * n + i + (n - i)]);
      RowPacked(mat, n, i, was, v[..]);
      offset := offset + (n - i);
    }
  }

  lemma FirstRow(n: nat, f: (int, int) -> Poly)
    ensures PackRows(n, f, 0) == [] && Off(n, 0) == 0
  {}

  lemma RowIs(mat: seq<Poly>, n: nat, i: nat)
    requires |mat| == n * n && i < n && 0 <= i * n && i * n + i + (n - i) <= n * n
    ensures mat[i * n + i..i * n + i + (n - i)] == Vec(n - i, d => Entry(mat, n)(i, i + d))
  {
    var start := i * n + i;
    var row, vec := mat[start..start + (n - i)], Vec(n - i, d => Entry(mat, n)(i, i + d));
    forall d | 0 <= d < n - i ensures row[d] == vec[d] {
      assert row[d] == mat[start + d] && Entry(mat, n)(i, i + d) == PolyAt(mat, i * n + (i + d));
    }
  }

  lemma RowPacked(mat: seq<Poly>, n: nat, i: nat, was: seq<Poly>, now: seq<Poly>)
    requires |mat| == n * n && i < n && |was| == Off(n, n)
    requires 0 <= Off(n, i) && Off(n, i + 1) == Off(n, i) + (n - i) <= Off(n, n)
    requires 0 <= i * n && i * n + i + (n - i) <= n * n
    requires was[..Off(n, i)] == PackRows(n, Entry(mat, n), i)
    requires now == CopyAt(was, Off(n, i), mat[i * n + i..i * n + i + (n - i)])
    ensures now[..Off(n, i + 1)] == PackRows(n, Entry(mat, n), i + 1)
  {
    hide Off;
    var row := mat[i * n + i..i * n + i + (n - i)];
    RowIs(mat, n, i);
    assert now[..Off(n, i + 1)] == was[..Off(n, i)] + row;
  }

  /** Entry (i, j) of a square buffer. */
  ghost function At2(mat: seq<Poly>, n: nat, i: nat, j: nat): Poly
    requires |mat| == Cell(n, n, 0) && i < n && j < n
  {
    RectAt(mat, n, n, i, j)
  }

  /** The rows above i hold the packed entries on and right of the diagonal. */
  ghost predicate UpperDone(mat: seq<Poly>, v: seq<Poly>, n: nat, i: nat)
    requires |mat| == Cell(n, n, 0)
  {
    forall k: nat, j: nat :: k < i && k <= j < n ==> At2(mat, n, k, j) == PolyAt(v, Place(n, k, j))
  }

  lemma RowUnpacked(v: seq<Poly>, n: nat, i: nat, was: seq<Poly>, now: seq<Poly>)
    requires i < n && |was| == Cell(n, n, 0) && |v| == Off(n, n) && UpperDone(was, v, n, i)
    requires 0 <= Off(n, i) && Off(n, i) + (n - i) <= |v| && Cell(n, i, i) + (n - i) <= |was|
    requires now == CopyAt(was, Cell(n, i, i), v[Off(n, i)..Off(n, i) + (n - i)])
    ensures UpperDone(now, v, n, i + 1)
  {
    hide Off;
    forall k: nat, j: nat | k < i + 1 && k <= j < n ensures At2(now, n, k, j) == PolyAt(v, Place(n, k, j)) {
      CellRange(n, n, k, j);
      if k < i {
        CellRange(i, n, k, j);
        assert At2(was, n, k, j) == PolyAt(v, Place(n, k, j));
      }
    }
  }

  /** Below the diagonal, column i holds the mirror image of row i up to column j. */
  ghost predicate Mirrored(mat: seq<Poly>, v: seq<Poly>, n: nat, i: nat, j: nat)
    requires |mat| == Cell(n, n, 0) && i < n && j <= n
  {
    forall l: nat :: i < l < j ==> At2(mat, n, l, i) == PolyAt(v, Place(n, l, i))
  }

  ghost predicate ColumnsDone(mat: seq<Poly>, v: seq<Poly>, n: nat, i: nat)
    requires |mat| == Cell(n, n, 0) && i <= n
  {
    forall k: nat :: k < i ==> Mirrored(mat, v, n, k, n)
  }

  lemma OneMirrored(was: seq<Poly>, now: seq<Poly>, v: seq<Poly>, n: nat, i: nat, j: nat)
    requires i < j < n && |was| == Cell(n, n, 0) && Cell(n, j, i) < |was| && Cell(n, i, j) < |was|
    requires now == was[Cell(n, j, i) := was[Cell(n, i, j)]]
    requires UpperDone(was, v, n, n) && ColumnsDone(was, v, n, i) && Mirrored(was, v, n, i, j)
    ensures UpperDone(now, v, n, n) && ColumnsDone(now, v, n, i) && Mirrored(now, v, n, i, j + 1)
  {
    hide Off, Cell;
    forall k: nat, l: nat | k < n && l < n && !(k == j && l == i) ensures At2(now, n, k, l) == At2(was, n, k, l) {
      CellRange(n, n, k, l);
      if Cell(n, k, l) == Cell(n, j, i) { CellUnique(n, k, l, j, i); }
    }
    assert At2(now, n, j, i) == At2(was, n, i, j);
    assert Place(n, j, i) == Place(n, i, j);
    forall k: nat | k < i ensures Mirrored(now, v, n, k, n) {
      assert Mirrored(was, v, n, k, n);
    }
  }

  /** Rows are copied back from the diagonal on, then mirrored below it. */
  method ReconstructSymmMatrix(v: seq<Poly>, n: nat) returns (mat: array<Poly>)
    requires |v| == PackedLen(n)
    ensures fresh(mat) && mat[..] == SymmMatrix(v, n)
  {
    hide Off, Cell, UpperDone, Mirrored, ColumnsDone, Grid, Place;
    OffTotal(n);
    CellIs(n, n, 0);
    mat := new Poly[n * n](i => ZERO);
    var offset := 0;
    NothingUnpacked(mat[..], v, n);
    for i := 0 to n
      invariant offset == Off(n, i) && mat.Length == Cell(n, n, 0)
      invariant UpperDone(mat[..], v, n, i)
    {
      RowFits(n, i);
      CellIs(n, i, i);
      ghost var was := mat[..];
      CopyInto(mat, i * n + i, v[offset..offset + (n - i)]);
      RowUnpacked(v, n, i, was, mat[..]);
      offset := offset + (n - i);
    }
    NothingMirrored(mat[..], v, n);
    for i := 0 to n
      invariant mat.Length == Cell(n, n, 0)
      invariant UpperDone(mat[..], v, n, n) && ColumnsDone(mat[..], v, n, i)
    {
      ColumnStart(mat[..], v, n, i);
      for j := i + 1 to n
        invariant mat.Length == Cell(n, n, 0)
        invariant UpperDone(mat[..], v, n, n) && ColumnsDone(mat[..], v, n, i) && Mirrored(mat[..], v, n, i, j)
      {
        CellRange(n, n, i, j);
        CellRange(n, n, j, i);
        CellIs(n, i, j);
        CellIs(n, j, i);
        ghost var was := mat[..];
        mat[j * n + i] := mat[i * n + j];
        OneMirrored(was, mat[..], v, n, i, j);
      }
      ColumnEnd(mat[..], v, n, i);
    }
    Reconstructed(mat[..], v, n);
  }

  lemma NothingUnpacked(mat: seq<Poly>, v: seq<Poly>, n: nat)
    requires |mat| == Cell(n, n, 0)
    ensures UpperDone(mat, v, n, 0) && Off(n, 0) == 0
  {}

  lemma NothingMirrored(mat: seq<Poly>, v: seq<Poly>, n: nat)
    requires |mat| == Cell(n, n, 0)
    ensures ColumnsDone(mat, v, n, 0)
  {}

  lemma ColumnStart(mat: seq<Poly>, v: seq<Poly>, n: nat, i: nat)
    requires |mat| == Cell(n, n, 0) && i < n
    ensures Mirrored(mat, v, n, i, i + 1)
  {}

  lemma ColumnEnd(mat: seq<Poly>, v: seq<Poly>, n: nat, i: nat)
    requires |mat| == Cell(n, n, 0) && i < n && ColumnsDone(mat, v, n, i) && Mirrored(mat, v, n, i, n)
    ensures ColumnsDone(mat, v, n, i + 1)
  {}

  lemma Reconstructed(mat: seq<Poly>, v: seq<Poly>, n: nat)
    requires |mat| == Cell(n, n, 0) && UpperDone(mat, v, n, n) && ColumnsDone(mat, v, n, n)
    ensures mat == SymmMatrix(v, n)
  {
    hide Off, Grid, Place;
    forall i: nat, j: nat | i < n && j < n ensures RectAt(mat, n, n, i, j) == Unpacked(v, n)(i, j) {
      assert Unpacked(v, n)(i, j) == PolyAt(v, Place(n, i, j));
      if i > j { assert Mirrored(mat, v, n, j, n); }
      assert At2(mat, n, i, j) == PolyAt(v, Place(n, i, j));
    }
    RectIsGrid(mat, n, n, Unpacked(v, n));
  }

  /** All coefficients of all polynomials, one after the other. */
  function Flattened(m: seq<Poly>): (f: seq<Zq>)
    ensures |f| == |m| * D
    ensures forall x :: 0 <= x < |f| ==> f[x] == Slot(m, x / D, x % D)
  {
    seq(|m| * D, x => Slot(m, x / D, x % D))
  }

  /** Entries offset, offset + stride, ... of a flat vector. */
  function Sliced(flat: seq<Zq>, offset: int, stride: int): int -> int {
    i => if 0 <= offset + i * stride < |flat| then flat[offset + i * stride] else 0
  }

  lemma DiagonalEntry(m: seq<Poly>, n: nat, i: nat, k: nat)
    requires |m| == n * n && i < n && k < D
    ensures Sliced(Flattened(m), k, (n + 1) * D)(i) == Slot(m, i * n + i, k)
  {
    hide Slot;
    RowMajor(i, i, n, n);
    var x := k + i * ((n + 1) * D);
    assert i * ((n + 1) * D) == (i * n + i) * D by { Associate(i, n + 1, D); Distribute(i, n + 1, n, 1); }
    assert x / D == i * n + i && x % D == k;
    Distribute(D, n * n, i * n + i, n * n - (i * n + i));
  }

  /** Coefficient by coefficient, the diagonal is sliced out of the flat matrix and summed. */
  method ComputeMatrixTrace(m: seq<Poly>, n: nat) returns (trace: Poly)
    requires |m| == n * n
    ensures trace == BaseChecks.Trace(m, n)
  {
    hide Sum, Slot;
    var flat := Flattened(m);
    var stride := (n + 1) * D;
    var out := new Zq[D](i => 0);
    for coeff := 0 to D
      invariant forall k :: 0 <= k < coeff ==> out[k] == M(Sum(n, i => Slot(m, i * n + i, k)))
    {
      var diagonal := Sliced(flat, coeff, stride);
      forall i | 0 <= i < n ensures diagonal(i) == (i => Slot(m, i * n + i, coeff))(i) {
        DiagonalEntry(m, n, i, coeff);
      }
      SumExt(n, diagonal, i => Slot(m, i * n + i, coeff));
      out[coeff] := M(Sum(n, diagonal));
    }
    trace := out[..];
    PolyExt(trace, BaseChecks.Trace(m, n));
  }
}
