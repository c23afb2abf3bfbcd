/** What the prover computes in one round once the constraints are aggregated. */
module BaseProver {
  import opened Residues
  import opened Products
  import opened Sums
  import opened Arrays
  import opened Transforms
  import opened Polynomials
  import opened Vectors
  import opened Packing
  import opened Constraints
  import opened DigitVectors
  import opened Parameters
  import opened BaseChecks

  /** T = S A, back in coefficients and decomposed. */
  function ProverT(p: Param, s: seq<Poly>): seq<Poly>
    requires p.Bases()
  {
    DecomposeVec(InttVec(Matmul(NttVec(s), p.r, p.n, p.matA, p.kappa)), p.base1, Digits(p.base1))
  }

  /** G = S S^t, packed, back in coefficients and decomposed. */
  function ProverG(p: Param, s: seq<Poly>): seq<Poly>
    requires p.Bases()
  {
    DecomposeVec(InttVec(SymmPart(GramMatrix(NttVec(s), p.r, p.n), p.r)), p.base2, Digits(p.base2))
  }

  /** Phi S^t */
  function PhiTimesS(p: Param, phi: seq<Poly>, s: seq<Poly>): (m: seq<Poly>)
    ensures |m| == p.r * p.r
  {
    Matmul(phi, p.r, p.n, Transpose(NttVec(s), p.r, p.n), p.r)
  }

  /** Half of m plus its transpose. */
  function Symmetrised(m: seq<Poly>, r: nat): (v: seq<Poly>)
    ensures |v| == |m|
  {
    VecScale(HALF, VecAdd(m, Transpose(m, r, r)))
  }

  /** H = (Phi S^t + S Phi^t) / 2 in coefficients, packed and decomposed. */
  function ProverH(p: Param, phi: seq<Poly>, s: seq<Poly>): seq<Poly>
    requires p.Bases()
  {
    DecomposeVec(SymmPart(Symmetrised(InttVec(PhiTimesS(p, phi, s)), p.r), p.r), p.base3, Digits(p.base3))
  }

  /** z = c S */
  function ProverZ(p: Param, c: seq<Poly>, s: seq<Poly>): (z: seq<Poly>)
    ensures |z| == p.n
  {
    Matmul(c, 1, p.r, NttVec(s), p.n)
  }

  function BaseProof(p: Param, fc: Equality, c: seq<Poly>, s: seq<Poly>): Proof
    requires p.Bases()
  {
    Proof(ProverZ(p, c, s), ProverT(p, s), ProverG(p, s), ProverH(p, fc.phi, s))
  }

  lemma ProofShaped(p: Param, fc: Equality, c: seq<Poly>, s: seq<Poly>)
    requires p.Bases()
    ensures ProofShape(p, BaseProof(p, fc, c, s))
  {
    hide Digits, NttVec, InttVec, Matmul, GramMatrix, Symmetrised, DecomposeVec, PackRows;
  }

  lemma NttInttVec(v: seq<Poly>)
    ensures NttVec(InttVec(v)) == v
  {
    hide Ntt, Intt;
    forall i | 0 <= i < |v| ensures NttVec(InttVec(v))[i] == v[i] {
      NttIntt(v[i]);
    }
  }

  /** The verifier recovers T. */
  lemma RecoversT(p: Param, s: seq<Poly>)
    requires p.Bases()
    ensures THat(p, ProverT(p, s)) == Matmul(NttVec(s), p.r, p.n, p.matA, p.kappa)
  {
    hide Digits, NttVec, InttVec, Matmul, DecomposeVec, RecomposeVec;
    var m := Matmul(NttVec(s), p.r, p.n, p.matA, p.kappa);
    VectorRoundTrip(InttVec(m), p.base1);
    NttInttVec(m);
  }
}

module BaseCompleteness {
  import opened Residues
  import opened Products
  import opened Sums
  import opened Arrays
  import opened Transforms
  import opened Polynomials
  import opened Vectors
  import opened Packing
  import opened Constraints
  import opened DigitVectors
  import opened Parameters
  import opened BaseChecks
  import opened Recursion
  import opened QuadraticMeaning
  import opened SquareMeaning
  import opened RecursionTheorem
  import opened BaseProver

  lemma GramSymmetric(s: seq<Poly>, r: nat, n: nat, i: nat, j: nat, k: nat)
    requires i < r && j < r && k < D
    ensures Slot(GramMatrix(s, r, n), i * r + j, k) == Slot(GramMatrix(s, r, n), j * r + i, k)
  {
    hide Sum, Slot, GramMatrix;
    GramSlot(s, r, n, i, j, k);
    GramSlot(s, r, n, j, i, k);
    SumExt(n, l => Slot(s, i * n + l, k) * Slot(s, j * n + l, k), l => Slot(s, j * n + l, k) * Slot(s, i * n + l, k));
  }

  /** Packing a matrix of values, going to coefficients and back and unpacking gives its upper entries. */
  lemma PackedValues(m: seq<Poly>, r: nat, i: nat, j: nat, k: nat)
    requires |m| == r * r && i <= j < r && k < D
    ensures Slot(MatrixHat(InttVec(SymmPart(m, r)), r), i * r + j, k) == Slot(m, i * r + j, k)
    ensures Slot(MatrixHat(InttVec(SymmPart(m, r)), r), j * r + i, k) == Slot(m, i * r + j, k)
  {
    hide Slot, MatrixHat, SymmPart, Off, InttVec, NttVec, Place;
    var v := InttVec(SymmPart(m, r));
    assert |v| == Off(r, r) by { PackedSize(m, r); }
    MatrixHatSlot(v, r, i, j, k);
    MatrixHatSlot(v, r, j, i, k);
    PlaceSymmetric(r, i, j);
    NttInttVec(SymmPart(m, r));
    SymmSlot(m, r, i, j, k);
  }

  lemma PackedSize(m: seq<Poly>, r: nat)
    ensures |SymmPart(m, r)| == Off(r, r)
  {}

  /** Square matrices are equal when their entries are. */
  lemma MatrixExt(u: seq<Poly>, v: seq<Poly>, r: nat)
    requires |u| == |v| == r * r
    requires forall i, j, k :: 0 <= i < r && 0 <= j < r && 0 <= k < D ==>
      EntryAt(u, r, k)(i, j) == EntryAt(v, r, k)(i, j)
    ensures u == v
  {
    hide Slot;
    forall x, k | 0 <= x < |u| && 0 <= k < D ensures Slot(u, x, k) == Slot(v, x, k) {
      var i, j := Split(x, r, r);
      assert EntryAt(u, r, k)(i, j) == EntryAt(v, r, k)(i, j);
    }
    VecExt(u, v);
  }

  lemma SymmHatIs(d: seq<Poly>, v: seq<Poly>, base: nat, r: nat)
    requires base >= 2 && |v| == Off(r, r) && d == DecomposeVec(v, base, Digits(base))
    ensures SymmHat(d, base, r) == MatrixHat(v, r)
  {
    hide Digits, DecomposeVec, RecomposeVec, SymmMatrix, NttVec, Off;
    VectorRoundTrip(v, base);
  }

  lemma HatSize(v: seq<Poly>, r: nat)
    ensures |MatrixHat(v, r)| == r * r
  {
    hide Grid, Ntt;
  }

  /** The verifier recovers G. */
  lemma RecoversG(p: Param, s: seq<Poly>)
    requires p.Bases()
    ensures SymmHat(ProverG(p, s), p.base2, p.r) == GramMatrix(NttVec(s), p.r, p.n)
  {
    hide Digits, NttVec, InttVec, GramMatrix, DecomposeVec, SymmHat, SymmPart, MatrixHat, Slot, Off;
    var r, m := p.r, GramMatrix(NttVec(s), p.r, p.n);
    var v := InttVec(SymmPart(m, r));
    PackedSize(m, r);
    SymmHatIs(ProverG(p, s), v, p.base2, r);
    GramSize(NttVec(s), r, p.n);
    HatSize(v, r);
    forall i, j, k | 0 <= i < r && 0 <= j < r && 0 <= k < D
      ensures EntryAt(MatrixHat(v, r), r, k)(i, j) == EntryAt(m, r, k)(i, j)
    {
      GramSymmetric(NttVec(s), r, p.n, i, j, k);
      if i <= j { PackedValues(m, r, i, j, k); } else { PackedValues(m, r, j, i, k); }
    }
    MatrixExt(MatrixHat(v, r), m, r);
  }

  lemma GramSize(s: seq<Poly>, r: nat, n: nat)
    ensures |GramMatrix(s, r, n)| == r * r
  {}

  /** The transform of s*(a + b). */
  lemma NttScaledSum(s: int, a: Poly, b: Poly, c: Poly, k: nat)
    requires k < D && c == PolyScale(s, PolyAdd(a, b))
    ensures At(Ntt(c), k) == M(s * (At(Ntt(a), k) + At(Ntt(b), k)))
  {
    hide Ntt, Sum, Tabulate;
    var w: int -> int := j => s;
    var f := TwoPolys(a, b);
    assert f(0) == Pick(0 == 0, a, b) && f(1) == Pick(1 == 0, a, b);
    assert w(0) == s && w(1) == s && f(0) == a && f(1) == b;
    forall i | 0 <= i < D ensures At(c, i) == M(Sum(2, j => w(j) * At(f(j), i))) {
      SumOfPair(j => w(j) * At(f(j), i), s, At(a, i), At(b, i));
      CongScale(At(PolyAdd(a, b), i), At(a, i) + At(b, i), s);
    }
    NttSum(2, w, f, c);
    SumOfPair(j => w(j) * At(Ntt(f(j)), k), s, At(Ntt(a), k), At(Ntt(b), k));
  }

  function TwoPolys(a: Poly, b: Poly): int -> Poly {
    j => Pick(j == 0, a, b)
  }

  lemma SumOfPair(f: int -> int, s: int, x: int, y: int)
    requires f(0) == s * x && f(1) == s * y
    ensures Sum(2, f) == s * (x + y)
  {
    hide Sum;
    SumStep(2, f);
    SumStep(1, f);
  }

  lemma SymmetrisedAt(m: seq<Poly>, r: nat, i: nat, j: nat)
    requires |m| == r * r && i < r && j < r
    ensures PolyAt(Symmetrised(m, r), i * r + j) == PolyScale(HALF, PolyAdd(PolyAt(m, i * r + j), PolyAt(m, j * r + i)))
  {
    hide Grid, PolyScale, PolyAdd;
    RowMajor(i, j, r, r);
    GridAt(r, r, (i, j) => PolyAt(m, j * r + i), i, j);
  }

  /** Values of half of m plus its transpose, taken in coefficients. */
  lemma SymmetrisedValues(f: seq<Poly>, r: nat, i: nat, j: nat, k: nat)
    requires |f| == r * r && i < r && j < r && k < D
    ensures Slot(NttVec(Symmetrised(InttVec(f), r)), i * r + j, k)
         == M(HALF * (Slot(f, i * r + j, k) + Slot(f, j * r + i, k)))
  {
    hide Ntt, Intt, Symmetrised, PolyScale, PolyAdd;
    RowMajor(i, j, r, r);
    RowMajor(j, i, r, r);
    SymmetrisedAt(InttVec(f), r, i, j);
    var a, b := Intt(PolyAt(f, i * r + j)), Intt(PolyAt(f, j * r + i));
    NttScaledSum(HALF, a, b, PolyScale(HALF, PolyAdd(a, b)), k);
    NttIntt(PolyAt(f, i * r + j));
    NttIntt(PolyAt(f, j * r + i));
  }

  /** The entry above the diagonal at the mirrored place. */
  lemma UpperEntry(m: seq<Poly>, r: nat, i: nat, j: nat, k: int)
    requires |m| == r * r && i <= j < r
    ensures Slot(MatrixHat(SymmPart(m, r), r), i * r + j, k) == Slot(NttVec(m), i * r + j, k)
    ensures Slot(MatrixHat(SymmPart(m, r), r), j * r + i, k) == Slot(NttVec(m), i * r + j, k)
  {
    hide MatrixHat, Off, Place, Ntt, PackRows;
    var v := SymmPart(m, r);
    MatrixHatSlot(v, r, i, j, k);
    MatrixHatSlot(v, r, j, i, k);
    PlaceSymmetric(r, i, j);
    RowMajor(i, j, r, r);
    UpperPlace(r, i, j);
    SymmPoly(m, r, i, j);
  }

  lemma UpperPlace(r: nat, i: nat, j: nat)
    requires i <= j < r
    ensures 0 <= Place(r, i, j) < Off(r, r)
  {
    hide Off;
    PlaceRange(r, i, j - i, r);
  }

  lemma SymmPoly(m: seq<Poly>, r: nat, i: nat, j: nat)
    requires i <= j < r
    ensures PolyAt(SymmPart(m, r), Place(r, i, j)) == PolyAt(m, i * r + j)
  {
    hide PackRows, Off;
    PackAt(r, Entry(m, r), r, i, j - i);
  }

  /** The verifier recovers H = (F + F^t) / 2 for F = Phi S^t. */
  lemma RecoversH(p: Param, phi: seq<Poly>, s: seq<Poly>, i: nat, j: nat, k: nat)
    requires p.Bases() && i < p.r && j < p.r && k < D
    ensures Slot(SymmHat(ProverH(p, phi, s), p.base3, p.r), i * p.r + j, k)
         == M(HALF * (Slot(PhiTimesS(p, phi, s), i * p.r + j, k) + Slot(PhiTimesS(p, phi, s), j * p.r + i, k)))
  {
    hide Digits, NttVec, InttVec, PhiTimesS, DecomposeVec, SymmHat, SymmPart, MatrixHat, Slot, Off, Symmetrised;
    var r, f := p.r, PhiTimesS(p, phi, s);
    var m := Symmetrised(InttVec(f), r);
    PackedSize(m, r);
    SymmHatIs(ProverH(p, phi, s), SymmPart(m, r), p.base3, r);
    if i <= j {
      UpperEntry(m, r, i, j, k);
      SymmetrisedValues(f, r, i, j, k);
    } else {
      UpperEntry(m, r, j, i, k);
      SymmetrisedValues(f, r, j, i, k);
    }
  }

  // ---- The four identities. ----

  function RowDots(m: seq<Poly>, n: nat, v: seq<Poly>, k: int): int -> int {
    i => Sum(n, l => Slot(m, i * n + l, k) * Slot(v, l, k))
  }

  /** <c m, v> = sum_i c_i <m_i, v> */
  lemma RowTimes(c: seq<Poly>, r: nat, m: seq<Poly>, n: nat, v: seq<Poly>, k: nat)
    requires k < D
    ensures M(Dot(Matmul(c, 1, r, m, n), v, n, k)) == M(Sum(r, Pointwise(Slots(c, k), RowDots(m, n, v, k))))
  {
    hide Sum, Slot, Matmul, Dot;
    PhiAssociates(c, r, m, n, v, k);
    NestedMatmul(c, r, m, n, v, k);
    SumExt(r, i => Slot(c, i, k) * Sum(n, l => Slot(m, i * n + l, k) * Slot(v, l, k)),
           Pointwise(Slots(c, k), RowDots(m, n, v, k)));
  }

  /** zA = sum_i c_i t_i */
  lemma AHolds(p: Param, c: seq<Poly>, s: seq<Poly>)
    requires p.Bases()
    ensures Vanishes(GapA(p, c, ProverZ(p, c, s), THat(p, ProverT(p, s))), p.kappa)
  {
    hide NttVec, ProverT, THat, Matmul, Dot, Column, M;
    RecoversT(p, s);
    forall i, k | 0 <= i < p.kappa && 0 <= k < D
      ensures M(GapA(p, c, ProverZ(p, c, s), THat(p, ProverT(p, s)))(i, k)) == 0
    {
      ARow(p, c, NttVec(s), i, k);
    }
  }

  lemma ARow(p: Param, c: seq<Poly>, sHat: seq<Poly>, i: nat, k: nat)
    requires i < p.kappa && k < D
    ensures M(Dot(Column(p.matA, p.kappa, i, p.n), Matmul(c, 1, p.r, sHat, p.n), p.n, k)
            - Dot(c, Column(Matmul(sHat, p.r, p.n, p.matA, p.kappa), p.kappa, i, p.r), p.r, k)) == 0
  {
    hide Sum, Slot, Matmul, Column, Dot;
    var r, n, a, z, t := p.r, p.n, Column(p.matA, p.kappa, i, p.n), Matmul(c, 1, p.r, sHat, p.n),
                         Matmul(sHat, p.r, p.n, p.matA, p.kappa);
    DotCommutes(a, z, n, k);
    RowTimes(c, r, sHat, n, a, k);
    var f, g := Pointwise(Slots(c, k), RowDots(sHat, n, a, k)),
                Pointwise(Slots(c, k), Slots(Column(t, p.kappa, i, r), k));
    forall j | 0 <= j < r ensures M(f(j)) == M(g(j)) {
      ColumnOfProduct(p, sHat, i, j, k);
      CongScale(RowDots(sHat, n, a, k)(j), Slot(Column(t, p.kappa, i, r), j, k), Slot(c, j, k));
    }
    SumCong(r, f, g);
    assert Dot(c, Column(t, p.kappa, i, r), r, k) == Sum(r, g) by { DotIs(c, Column(t, p.kappa, i, r), r, k); }
  }

  lemma DotIs(u: seq<Poly>, v: seq<Poly>, n: nat, k: int)
    ensures Dot(u, v, n, k) == Sum(n, Pointwise(Slots(u, k), Slots(v, k)))
  {}

  lemma ColumnOfProduct(p: Param, sHat: seq<Poly>, i: nat, j: nat, k: nat)
    requires i < p.kappa && j < p.r && k < D
    ensures M(RowDots(sHat, p.n, Column(p.matA, p.kappa, i, p.n), k)(j))
         == Slot(Column(Matmul(sHat, p.r, p.n, p.matA, p.kappa), p.kappa, i, p.r), j, k)
  {
    hide Sum, Slot, Matmul, Column;
    var n, a, t := p.n, Column(p.matA, p.kappa, i, p.n), Matmul(sHat, p.r, p.n, p.matA, p.kappa);
    MatmulSlot(sHat, p.r, n, p.matA, p.kappa, j, i, k);
    var f, g := l => Slot(sHat, j * n + l, k) * Slot(a, l, k),
                l => Slot(sHat, j * n + l, k) * Slot(p.matA, l * p.kappa + i, k);
    forall l | 0 <= l < n ensures f(l) == g(l) {
      ColumnAt(p.matA, p.kappa, i, n, l, k);
    }
    SumExt(n, f, g);
    ColumnAt(t, p.kappa, i, p.r, j, k);
  }

  lemma ColumnAt(v: seq<Poly>, cb: nat, i: int, len: nat, j: nat, k: int)
    requires j < len
    ensures Slot(Column(v, cb, i, len), j, k) == Slot(v, j * cb + i, k)
  {}

  /** Row i of a matrix with n columns. */
  function RowSeq(m: seq<Poly>, n: nat, i: int): (v: seq<Poly>)
    ensures |v| == n
  {
    Vec(n, l => PolyAt(m, i * n + l))
  }

  lemma RowSeqAt(m: seq<Poly>, n: nat, i: int, l: nat, k: int)
    requires l < n
    ensures Slot(RowSeq(m, n, i), l, k) == Slot(m, i * n + l, k)
  {}

  lemma RowDotIs(m: seq<Poly>, n: nat, i: nat, v: seq<Poly>, k: int)
    ensures RowDots(m, n, v, k)(i) == Dot(v, RowSeq(m, n, i), n, k)
  {
    hide Sum, Slot, RowSeq;
    var f, g := l => Slot(m, i * n + l, k) * Slot(v, l, k), Pointwise(Slots(v, k), Slots(RowSeq(m, n, i), k));
    forall l | 0 <= l < n ensures f(l) == g(l) {
      RowSeqAt(m, n, i, l, k);
    }
    SumExt(n, f, g);
  }

  /** m S^t */
  function CrossProduct(m: seq<Poly>, s: seq<Poly>, r: nat, n: nat): seq<Poly> {
    Matmul(m, r, n, Transpose(s, r, n), r)
  }

  lemma CrossSlot(m: seq<Poly>, s: seq<Poly>, r: nat, n: nat, i: nat, j: nat, k: nat)
    requires i < r && j < r && k < D
    ensures Slot(CrossProduct(m, s, r, n), i * r + j, k) == M(RowDots(s, n, RowSeq(m, n, i), k)(j))
  {
    hide Sum, Slot, Matmul, Transpose, RowSeq;
    MatmulSlot(m, r, n, Transpose(s, r, n), r, i, j, k);
    var f, g := l => Slot(m, i * n + l, k) * Slot(Transpose(s, r, n), l * r + j, k),
                l => Slot(s, j * n + l, k) * Slot(RowSeq(m, n, i), l, k);
    forall l | 0 <= l < n ensures f(l) == g(l) {
      TransposeSlot(s, r, n, l, j, k);
      RowSeqAt(m, n, i, l, k);
    }
    SumExt(n, f, g);
  }

  /** <m_i, c S> = sum_j c_j (m S^t)_ij */
  lemma CrossRow(c: seq<Poly>, m: seq<Poly>, s: seq<Poly>, r: nat, n: nat, i: nat, k: nat)
    requires i < r && k < D
    ensures M(RowDots(m, n, Matmul(c, 1, r, s, n), k)(i))
         == M(Sum(r, Pointwise(Slots(c, k), RowOf(EntryAt(CrossProduct(m, s, r, n), r, k), i))))
  {
    hide Sum, Slot, Matmul, RowSeq, Dot, CrossProduct, RowDots;
    RowDotIs(m, n, i, Matmul(c, 1, r, s, n), k);
    RowTimes(c, r, s, n, RowSeq(m, n, i), k);
    var f, g := Pointwise(Slots(c, k), RowDots(s, n, RowSeq(m, n, i), k)),
                Pointwise(Slots(c, k), RowOf(EntryAt(CrossProduct(m, s, r, n), r, k), i));
    forall j | 0 <= j < r ensures M(f(j)) == M(g(j)) {
      CrossSlot(m, s, r, n, i, j, k);
      CongScale(RowDots(s, n, RowSeq(m, n, i), k)(j), Slot(CrossProduct(m, s, r, n), i * r + j, k), Slot(c, j, k));
    }
    SumCong(r, f, g);
  }

  /** <c m, c S> = c^t (m S^t) c */
  lemma BothSides(c: seq<Poly>, m: seq<Poly>, s: seq<Poly>, r: nat, n: nat, k: nat)
    requires k < D
    ensures M(Dot(Matmul(c, 1, r, m, n), Matmul(c, 1, r, s, n), n, k))
         == M(QuadraticAt(c, CrossProduct(m, s, r, n), r, k))
  {
    hide Sum, Slot, Matmul, Dot, CrossProduct, RowDots;
    var z, x := Matmul(c, 1, r, s, n), CrossProduct(m, s, r, n);
    RowTimes(c, r, m, n, z, k);
    var f, g := Pointwise(Slots(c, k), RowDots(m, n, z, k)), FullRow(r, ProductOf(Outer(c, k), EntryAt(x, r, k)));
    forall i | 0 <= i < r ensures M(f(i)) == M(g(i)) {
      CrossRow(c, m, s, r, n, i, k);
      QuadraticRow(c, x, r, i, k);
      CongScale(RowDots(m, n, z, k)(i), Sum(r, Pointwise(Slots(c, k), RowOf(EntryAt(x, r, k), i))), Slot(c, i, k));
    }
    SumCong(r, f, g);
  }

  lemma QuadraticRow(c: seq<Poly>, x: seq<Poly>, r: nat, i: nat, k: int)
    ensures FullRow(r, ProductOf(Outer(c, k), EntryAt(x, r, k)))(i)
         == Slot(c, i, k) * Sum(r, Pointwise(Slots(c, k), RowOf(EntryAt(x, r, k), i)))
  {
    hide Sum, Slot;
    var t := Pointwise(Slots(c, k), RowOf(EntryAt(x, r, k), i));
    var f, g := RowOf(ProductOf(Outer(c, k), EntryAt(x, r, k)), i), j => Slot(c, i, k) * t(j);
    forall j | 0 <= j < r ensures f(j) == g(j) {
      Associate(Slot(c, i, k), Slot(c, j, k), Slot(x, i * r + j, k));
    }
    SumExt(r, f, g);
    SumScale(r, Slot(c, i, k), t);
  }

  function Mirror(f: (int, int) -> int): (int, int) -> int {
    (i, j) => f(j, i)
  }

  lemma FullMirror(n: nat, f: (int, int) -> int)
    ensures Sum(n, FullRow(n, Mirror(f))) == Sum(n, FullRow(n, f))
  {
    hide Sum;
    SumSwap(n, n, f);
    var a, b := j => Sum(n, i => f(i, j)), i => Sum(n, j => f(i, j));
    forall i | 0 <= i < n ensures FullRow(n, Mirror(f))(i) == a(i) && FullRow(n, f)(i) == b(i) {
      SumExt(n, RowOf(Mirror(f), i), j => f(j, i));
      SumExt(n, RowOf(f, i), j => f(i, j));
    }
    SumExt(n, FullRow(n, Mirror(f)), a);
    SumExt(n, FullRow(n, f), b);
  }

  function Mixed(s: int, f: (int, int) -> int, g: (int, int) -> int): (int, int) -> int {
    (i, j) => s * f(i, j) + s * g(i, j)
  }

  lemma FullMixed(n: nat, s: int, f: (int, int) -> int, g: (int, int) -> int)
    ensures Sum(n, FullRow(n, Mixed(s, f, g))) == s * Sum(n, FullRow(n, f)) + s * Sum(n, FullRow(n, g))
  {
    hide Sum;
    forall i | 0 <= i < n ensures FullRow(n, Mixed(s, f, g))(i) == s * FullRow(n, f)(i) + s * FullRow(n, g)(i) {
      SumWeighted(n, s, s, RowOf(f, i), RowOf(g, i), RowOf(Mixed(s, f, g), i));
    }
    SumWeighted(n, s, s, FullRow(n, f), FullRow(n, g), FullRow(n, Mixed(s, f, g)));
  }

  /** Against a symmetric matrix, f may be replaced by half of f plus its mirror image. */
  lemma SymmetricHalf(n: nat, x: (int, int) -> int, f: (int, int) -> int, h: (int, int) -> int)
    requires forall i, j :: x(i, j) == x(j, i)
    requires forall i, j :: 0 <= i < n && 0 <= j < n ==> M(h(i, j)) == M(HALF * (f(i, j) + f(j, i)))
    ensures M(Sum(n, FullRow(n, ProductOf(x, h)))) == M(Sum(n, FullRow(n, ProductOf(x, f))))
  {
    hide Sum, FullRow, M;
    var u := ProductOf(x, f);
    var xh, mixed := ProductOf(x, h), Mixed(HALF, u, Mirror(u));
    forall i, j | 0 <= i < n && 0 <= j < n ensures M(xh(i, j)) == M(mixed(i, j)) {
      HalfTerm(x(i, j), f(i, j), f(j, i), h(i, j));
      assert Mirror(u)(i, j) == x(j, i) * f(j, i);
    }
    FullCong(n, xh, mixed);
    FullMixed(n, HALF, u, Mirror(u));
    FullMirror(n, u);
    var a := Sum(n, FullRow(n, u));
    Distribute(HALF, 2 * a, a, a);
    HalfTwice(a);
  }

  lemma HalfTerm(x: int, y: int, z: int, h: int)
    requires M(h) == M(HALF * (y + z))
    ensures M(x * h) == M(HALF * (x * y) + HALF * (x * z))
  {
    CongScale(h, HALF * (y + z), x);
    assert x * (HALF * (y + z)) == HALF * (x * y) + HALF * (x * z) by {
      Rotate(x, HALF, y + z);
      Distribute(x, y + z, y, z);
    }
  }

  /** <z,z> = c^t G c */
  lemma ZHolds(p: Param, c: seq<Poly>, s: seq<Poly>)
    requires p.Bases()
    ensures Vanishes(GapZ(p, c, ProverZ(p, c, s), SymmHat(ProverG(p, s), p.base2, p.r)), 1)
  {
    hide NttVec, SymmHat, Matmul, Dot, M, QuadraticAt, ProverG;
    RecoversG(p, s);
    forall i, k | 0 <= i < 1 && 0 <= k < D
      ensures M(GapZ(p, c, ProverZ(p, c, s), SymmHat(ProverG(p, s), p.base2, p.r))(i, k)) == 0
    {
      BothSides(c, NttVec(s), NttVec(s), p.r, p.n, k);
      CongZero(Dot(ProverZ(p, c, s), ProverZ(p, c, s), p.n, k),
               QuadraticAt(c, GramMatrix(NttVec(s), p.r, p.n), p.r, k));
    }
  }

  /** c^t Phi z = c^t H c */
  lemma PhiHolds(p: Param, phi: seq<Poly>, c: seq<Poly>, s: seq<Poly>)
    requires p.Bases()
    ensures Vanishes(GapPhi(p, phi, c, ProverZ(p, c, s), SymmHat(ProverH(p, phi, s), p.base3, p.r)), 1)
  {
    hide NttVec, SymmHat, Matmul, Dot, M, ProverH, Slot, PhiTimesS, Sum, FullRow;
    var hHat, f, z := SymmHat(ProverH(p, phi, s), p.base3, p.r), PhiTimesS(p, phi, s), ProverZ(p, c, s);
    forall i, k | 0 <= i < 1 && 0 <= k < D ensures M(GapPhi(p, phi, c, z, hHat)(i, k)) == 0 {
      forall i, j | 0 <= i < p.r && 0 <= j < p.r
        ensures M(EntryAt(hHat, p.r, k)(i, j)) == M(HALF * (EntryAt(f, p.r, k)(i, j) + EntryAt(f, p.r, k)(j, i)))
      {
        RecoversH(p, phi, s, i, j, k);
        MTwice(HALF * (EntryAt(f, p.r, k)(i, j) + EntryAt(f, p.r, k)(j, i)));
      }
      SymmetricHalf(p.r, Outer(c, k), EntryAt(f, p.r, k), EntryAt(hHat, p.r, k));
      BothSides(c, phi, NttVec(s), p.r, p.n, k);
      PhiIsCross(p, phi, s);
      CongZero(Dot(Matmul(c, 1, p.r, phi, p.n), z, p.n, k), QuadraticAt(c, hHat, p.r, k));
    }
  }

  lemma PhiIsCross(p: Param, phi: seq<Poly>, s: seq<Poly>)
    ensures PhiTimesS(p, phi, s) == CrossProduct(phi, NttVec(s), p.r, p.n)
  {}

  /** tr H = sum_i <phi_i, s_i> */
  lemma TraceIsPhi(p: Param, phi: seq<Poly>, s: seq<Poly>, k: nat)
    requires p.Bases() && k < D
    ensures M(Sum(p.r, DiagonalAt(SymmHat(ProverH(p, phi, s), p.base3, p.r), p.r, k)))
         == M(Dot(phi, NttVec(s), p.r * p.n, k))
  {
    hide NttVec, SymmHat, ProverH, Slot, PhiTimesS, Sum, RowDots, RowSeq;
    var r, n, sHat := p.r, p.n, NttVec(s);
    var hHat, f := SymmHat(ProverH(p, phi, s), p.base3, r), Pointwise(Slots(phi, k), Slots(sHat, k));
    SumFlatten(r, n, f);
    var rows := i => Sum(n, l => f(i * n + l));
    forall i | 0 <= i < r ensures M(DiagonalAt(hHat, r, k)(i)) == M(rows(i)) {
      RecoversH(p, phi, s, i, i, k);
      HalfTwice(Slot(PhiTimesS(p, phi, s), i * r + i, k));
      PhiIsCross(p, phi, s);
      CrossSlot(phi, sHat, r, n, i, i, k);
      DiagonalDot(phi, sHat, n, i, k, f);
    }
    SumCong(r, DiagonalAt(hHat, r, k), rows);
  }

  lemma DiagonalDot(m: seq<Poly>, s: seq<Poly>, n: nat, i: nat, k: int, f: int -> int)
    requires f == Pointwise(Slots(m, k), Slots(s, k))
    ensures RowDots(s, n, RowSeq(m, n, i), k)(i) == Sum(n, l => f(i * n + l))
  {
    hide Sum, Slot, RowSeq;
    var g, h := l => Slot(s, i * n + l, k) * Slot(RowSeq(m, n, i), l, k), l => f(i * n + l);
    forall l | 0 <= l < n ensures g(l) == h(l) {
      RowSeqAt(m, n, i, l, k);
    }
    SumExt(n, g, h);
  }

  /** The last check measures exactly how the witness evaluates the aggregated constraint. */
  lemma TraceMeasures(p: Param, fc: Equality, s: seq<Poly>, k: nat)
    requires p.Bases() && k < D && fc.r == p.r && fc.n == p.n
    ensures M(GapTrace(p, fc, SymmHat(ProverG(p, s), p.base2, p.r), SymmHat(ProverH(p, fc.phi, s), p.base3, p.r))(0, k))
         == M(EvalAt(fc, NttVec(s), k))
  {
    hide NttVec, SymmHat, ProverG, ProverH, Dot, Sum, GramMatrix;
    RecoversG(p, s);
    TraceIsPhi(p, fc.phi, s, k);
    var g := GramMatrix(NttVec(s), p.r, p.n);
    var t, e := Sum(p.r, DiagonalAt(SymmHat(ProverH(p, fc.phi, s), p.base3, p.r), p.r, k)),
                Dot(fc.phi, NttVec(s), p.r * p.n, k);
    CongAdd(t, e, Dot(fc.a, g, p.r * p.r, k) + At(fc.b, k), Dot(fc.a, g, p.r * p.r, k) + At(fc.b, k));
  }

  lemma TraceHolds(p: Param, fc: Equality, s: seq<Poly>)
    requires p.Bases() && fc.r == p.r && fc.n == p.n
    ensures Vanishes(GapTrace(p, fc, SymmHat(ProverG(p, s), p.base2, p.r),
                              SymmHat(ProverH(p, fc.phi, s), p.base3, p.r)), 1)
       <==> Satisfies(fc, NttVec(s))
  {
    hide NttVec, SymmHat, ProverG, ProverH, GapTrace, EvalAt, M;
    var gap := GapTrace(p, fc, SymmHat(ProverG(p, s), p.base2, p.r), SymmHat(ProverH(p, fc.phi, s), p.base3, p.r));
    forall i, k | 0 <= i < 1 && 0 <= k < D ensures M(gap(i, k)) == M(EvalAt([fc][i], NttVec(s), k)) {
      TraceMeasures(p, fc, s, k);
    }
    FamilyMeaning([fc], NttVec(s), gap);
    OneConstraint(fc, NttVec(s));
  }

  lemma OneConstraint(fc: Equality, s: seq<Poly>)
    ensures AllSatisfied([fc], s) <==> Satisfies(fc, s)
  {
    hide Satisfies;
    assert [fc][0] == fc;
  }

  /** Whatever the challenges, the prover's proof passes every algebraic check of the verifier
      exactly when the witness satisfies the aggregated constraint. */
  lemma BaseProofChecks(p: Param, fc: Equality, c: seq<Poly>, s: seq<Poly>)
    requires p.Valid() && fc.r == p.r && fc.n == p.n
    ensures Algebraic(p, fc, OpeningU1(p, ProverT(p, s), ProverG(p, s)), OpeningU2(p, ProverH(p, fc.phi, s)), c,
                      BaseProof(p, fc, c, s))
       <==> Satisfies(fc, NttVec(s))
  {
    hide ProverT, ProverG, ProverH, ProverZ, GapA, GapZ, GapPhi, GapTrace, SymmHat, THat, Satisfies, Vanishes,
      CheckA, CheckZ, CheckPhi, CheckTrace,
      OpeningU1, OpeningU2, NttVec, Param.TLen, Param.GLen, Param.HLen;
    var pf := BaseProof(p, fc, c, s);
    CheckAGap(p, c, pf);
    CheckZGap(p, c, pf);
    CheckPhiGap(p, fc, c, pf);
    CheckTraceGap(p, fc, pf);
    AHolds(p, c, s);
    ZHolds(p, c, s);
    PhiHolds(p, fc.phi, c, s);
    TraceHolds(p, fc, s);
  }
}
