/** Vectors and row-major matrices of polynomials, with the backend's vector operations. */
module Vectors {
  import opened Residues
  import opened Products
  import opened Sums
  import opened Arrays
  import opened Polynomials

  /** The i-th polynomial, zero outside the range. */
  function PolyAt(v: seq<Poly>, i: int): Poly {
    if 0 <= i < |v| then v[i] else ZERO
  }

  /** Coordinate k of the i-th polynomial. */
  function Slot(v: seq<Poly>, i: int, k: int): Zq {
    At(PolyAt(v, i), k)
  }

  function PolyAdd(a: Poly, b: Poly): Poly {
    Tabulate(k => At(a, k) + At(b, k))
  }

  function PolyScale(c: int, a: Poly): Poly {
    Tabulate(k => c * At(a, k))
  }

  function PolyNeg(a: Poly): Poly {
    Tabulate(k => 0 - At(a, k))
  }

  function VecAdd(u: seq<Poly>, v: seq<Poly>): (r: seq<Poly>)
    ensures |r| == |u|
  {
    Vec(|u|, i => PolyAdd(PolyAt(u, i), PolyAt(v, i)))
  }

  function VecScale(c: int, v: seq<Poly>): (r: seq<Poly>)
    ensures |r| == |v|
  {
    Vec(|v|, i => PolyScale(c, PolyAt(v, i)))
  }

  function VecNeg(v: seq<Poly>): (r: seq<Poly>)
    ensures |r| == |v|
  {
    Vec(|v|, i => PolyNeg(PolyAt(v, i)))
  }

  function Zeros(n: nat): (r: seq<Poly>)
    ensures |r| == n
  {
    Vec(n, i => ZERO)
  }

  function NttVec(v: seq<Poly>): (r: seq<Poly>)
    ensures |r| == |v|
  {
    Vec(|v|, i => Ntt(PolyAt(v, i)))
  }

  function InttVec(v: seq<Poly>): (r: seq<Poly>)
    ensures |r| == |v|
  {
    Vec(|v|, i => Intt(PolyAt(v, i)))
  }

  function PolyTerms(u: int -> Poly, v: int -> Poly, k: int): int -> int {
    l => At(u(l), k) * At(v(l), k)
  }

  /** The inner product of two families of polynomials, coordinate by coordinate. */
  function PolyDot(n: nat, u: int -> Poly, v: int -> Poly): Poly {
    Tabulate(k => Sum(n, PolyTerms(u, v, k)))
  }

  /** The product of an ra x ca matrix and a ca x cb matrix. */
  function Matmul(a: seq<Poly>, ra: nat, ca: nat, b: seq<Poly>, cb: nat): (m: seq<Poly>)
    ensures |m| == ra * cb
  {
    Grid(ra, cb, (i, j) => PolyDot(ca, l => PolyAt(a, i * ca + l), l => PolyAt(b, l * cb + j)))
  }

  function Transpose(a: seq<Poly>, rows: nat, cols: nat): (m: seq<Poly>)
    ensures |m| == cols * rows
  {
    Grid(cols, rows, (i, j) => PolyAt(a, j * cols + i))
  }

  lemma VecExt(u: seq<Poly>, v: seq<Poly>)
    requires |u| == |v|
    requires forall i, k :: 0 <= i < |u| && 0 <= k < D ==> Slot(u, i, k) == Slot(v, i, k)
    ensures u == v
  {
    forall i | 0 <= i < |u| ensures u[i] == v[i] {
      forall k | 0 <= k < D ensures At(u[i], k) == At(v[i], k) {
        assert Slot(u, i, k) == Slot(v, i, k);
      }
      PolyExt(u[i], v[i]);
    }
  }

  lemma VecAddSlot(u: seq<Poly>, v: seq<Poly>, i: nat, k: nat)
    requires i < |u| && k < D
    ensures Slot(VecAdd(u, v), i, k) == M(Slot(u, i, k) + Slot(v, i, k))
  {}

  lemma ScaleSlot(s: int, v: seq<Poly>, x: nat, k: nat)
    requires x < |v| && k < D
    ensures Slot(VecScale(s, v), x, k) == M(s * Slot(v, x, k))
  {}

  lemma NegSlot(v: seq<Poly>, x: nat, k: nat)
    requires x < |v| && k < D
    ensures Slot(VecNeg(v), x, k) == M(0 - Slot(v, x, k))
  {}

  lemma MatmulSlot(a: seq<Poly>, ra: nat, ca: nat, b: seq<Poly>, cb: nat, i: nat, j: nat, k: nat)
    requires i < ra && j < cb && k < D
    ensures Slot(Matmul(a, ra, ca, b, cb), i * cb + j, k)
         == M(Sum(ca, l => Slot(a, i * ca + l, k) * Slot(b, l * cb + j, k)))
  {
    hide Sum, Grid;
    var f := (i, j) => PolyDot(ca, l => PolyAt(a, i * ca + l), l => PolyAt(b, l * cb + j));
    GridAt(ra, cb, f, i, j);
    var u, v := l => PolyAt(a, i * ca + l), l => PolyAt(b, l * cb + j);
    assert f(i, j) == PolyDot(ca, u, v);
    SumExt(ca, PolyTerms(u, v, k), l => Slot(a, i * ca + l, k) * Slot(b, l * cb + j, k));
  }

  lemma TransposeSlot(a: seq<Poly>, rows: nat, cols: nat, i: nat, j: nat, k: int)
    requires i < cols && j < rows
    ensures Slot(Transpose(a, rows, cols), i * rows + j, k) == Slot(a, j * cols + i, k)
  {
    hide Grid;
    GridAt(cols, rows, (i, j) => PolyAt(a, j * cols + i), i, j);
  }
}
