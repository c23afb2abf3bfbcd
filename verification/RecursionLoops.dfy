/** The buffers that the next round's constraints and witness are written into. */
module RecursionBuffers {
  import opened Residues
  import opened Products
  import opened Arrays
  import opened Polynomials
  import opened Vectors
  import opened Packing
  import opened DigitVectors
  import opened Layout
  import opened Recursion
  import opened Buffers

  lemma CopyOver(a: seq<Poly>, x: seq<Poly>, b: seq<Poly>, y: seq<Poly>, w: nat)
    requires |x| == |y| <= w
    ensures CopyAt(a + Pad(x, w) + b, |a|, y) == a + Pad(y, w) + b
  {
    var l, r := CopyAt(a + Pad(x, w) + b, |a|, y), a + Pad(y, w) + b;
    assert |l| == |r|;
    forall i | 0 <= i < |l| ensures l[i] == r[i] {}
  }

  /** Writing a part at its place replaces that part and no other. */
  lemma PartWritten(pr: Preparer, p: Parts, y: seq<Poly>)
    requires Fits(pr) && Shaped(pr, p)
    ensures Z1Begin(pr) + pr.prevN <= Total(pr) && TBegin(pr) + pr.tLen <= Total(pr)
    ensures GBegin(pr) + pr.gLen <= Total(pr) && HBegin(pr) + pr.hLen <= Total(pr)
    ensures |y| == pr.prevN ==> CopyAt(Packed(pr, p), 0, y) == Packed(pr, p.(z0 := y))
    ensures |y| == pr.prevN ==> CopyAt(Packed(pr, p), Z1Begin(pr), y) == Packed(pr, p.(z1 := y))
    ensures |y| == pr.tLen ==> CopyAt(Packed(pr, p), TBegin(pr), y) == Packed(pr, p.(t := y))
    ensures |y| == pr.gLen ==> CopyAt(Packed(pr, p), GBegin(pr), y) == Packed(pr, p.(g := y))
    ensures |y| == pr.hLen ==> CopyAt(Packed(pr, p), HBegin(pr), y) == Packed(pr, p.(h := y))
  {
    hide CopyAt, Packed, Pad;
    Regions(pr);
    PackedConcat(pr, p);
    if |y| == pr.prevN { FirstWritten(pr, p, y); SecondWritten(pr, p, y); }
    if |y| == pr.tLen { ThirdWritten(pr, p, y); }
    if |y| == pr.gLen { FourthWritten(pr, p, y); }
    if |y| == pr.hLen { FifthWritten(pr, p, y); }
  }

  lemma FirstWritten(pr: Preparer, p: Parts, y: seq<Poly>)
    requires Fits(pr) && Shaped(pr, p) && |y| == pr.prevN
    ensures |y| <= Total(pr) && CopyAt(Packed(pr, p), 0, y) == Packed(pr, p.(z0 := y))
  {
    hide CopyAt, Packed, Pad;
    Regions(pr);
    PackedConcat(pr, p);
    PackedConcat(pr, p.(z0 := y));
    var w, m := pr.nu * pr.nPrime, pr.nPrime;
    var none: seq<Poly> := [];
    var rest := Pad(p.z1, w) + Pad(p.t, pr.lt * m) + Pad(p.g, pr.lg * m) + Pad(p.h, pr.lh * m);
    CopyOver(none, p.z0, rest, y, w);
    assert none + Pad(p.z0, w) + rest == Packed(pr, p);
    assert none + Pad(y, w) + rest == Packed(pr, p.(z0 := y));
  }

  lemma SecondWritten(pr: Preparer, p: Parts, y: seq<Poly>)
    requires Fits(pr) && Shaped(pr, p) && |y| == pr.prevN
    ensures Z1Begin(pr) + |y| <= Total(pr) && CopyAt(Packed(pr, p), Z1Begin(pr), y) == Packed(pr, p.(z1 := y))
  {
    hide CopyAt, Packed, Pad;
    Regions(pr);
    PackedConcat(pr, p);
    PackedConcat(pr, p.(z1 := y));
    var w, m := pr.nu * pr.nPrime, pr.nPrime;
    var rest := Pad(p.t, pr.lt * m) + Pad(p.g, pr.lg * m) + Pad(p.h, pr.lh * m);
    CopyOver(Pad(p.z0, w), p.z1, rest, y, w);
    assert Pad(p.z0, w) + Pad(p.z1, w) + rest == Packed(pr, p);
    assert Pad(p.z0, w) + Pad(y, w) + rest == Packed(pr, p.(z1 := y));
  }

  lemma ThirdWritten(pr: Preparer, p: Parts, y: seq<Poly>)
    requires Fits(pr) && Shaped(pr, p) && |y| == pr.tLen
    ensures TBegin(pr) + |y| <= Total(pr) && CopyAt(Packed(pr, p), TBegin(pr), y) == Packed(pr, p.(t := y))
  {
    hide CopyAt, Packed, Pad;
    Regions(pr);
    PackedConcat(pr, p);
    PackedConcat(pr, p.(t := y));
    var w, m := pr.nu * pr.nPrime, pr.nPrime;
    var head, rest := Pad(p.z0, w) + Pad(p.z1, w), Pad(p.g, pr.lg * m) + Pad(p.h, pr.lh * m);
    CopyOver(head, p.t, rest, y, pr.lt * m);
    assert head + Pad(p.t, pr.lt * m) + rest == Packed(pr, p);
    assert head + Pad(y, pr.lt * m) + rest == Packed(pr, p.(t := y));
  }

  lemma FourthWritten(pr: Preparer, p: Parts, y: seq<Poly>)
    requires Fits(pr) && Shaped(pr, p) && |y| == pr.gLen
    ensures GBegin(pr) + |y| <= Total(pr) && CopyAt(Packed(pr, p), GBegin(pr), y) == Packed(pr, p.(g := y))
  {
    hide CopyAt, Packed, Pad;
    Regions(pr);
    PackedConcat(pr, p);
    PackedConcat(pr, p.(g := y));
    var w, m := pr.nu * pr.nPrime, pr.nPrime;
    var head, rest := Pad(p.z0, w) + Pad(p.z1, w) + Pad(p.t, pr.lt * m), Pad(p.h, pr.lh * m);
    CopyOver(head, p.g, rest, y, pr.lg * m);
  }

  lemma FifthWritten(pr: Preparer, p: Parts, y: seq<Poly>)
    requires Fits(pr) && Shaped(pr, p) && |y| == pr.hLen
    ensures HBegin(pr) + |y| <= Total(pr) && CopyAt(Packed(pr, p), HBegin(pr), y) == Packed(pr, p.(h := y))
  {
    hide CopyAt, Packed, Pad;
    Regions(pr);
    PackedConcat(pr, p);
    PackedConcat(pr, p.(h := y));
    var w, m := pr.nu * pr.nPrime, pr.nPrime;
    var head := Pad(p.z0, w) + Pad(p.z1, w) + Pad(p.t, pr.lt * m) + Pad(p.g, pr.lg * m);
    var none: seq<Poly> := [];
    CopyOver(head, p.h, none, y, pr.lh * m);
    assert head + Pad(p.h, pr.lh * m) + none == Packed(pr, p);
    assert head + Pad(y, pr.lh * m) + none == Packed(pr, p.(h := y));
  }

  function NoParts(pr: Preparer): (p: Parts)
    ensures Shaped(pr, p)
  {
    Parts(Zeros(pr.prevN), Zeros(pr.prevN), Zeros(pr.tLen), Zeros(pr.gLen), Zeros(pr.hLen))
  }

  lemma PadZeros(n: nat, w: nat)
    requires n <= w
    ensures Pad(Zeros(n), w) == Zeros(w)
  {}

  lemma ZerosConcat(n: nat, m: nat)
    ensures Zeros(n) + Zeros(m) == Zeros(n + m)
  {}

  /** A zero buffer packs zero parts. */
  lemma NothingPacked(pr: Preparer)
    requires Fits(pr)
    ensures Packed(pr, NoParts(pr)) == Zeros(Total(pr))
  {
    hide Pad, Zeros, Packed;
    Regions(pr);
    PackedConcat(pr, NoParts(pr));
    var w, m := pr.nu * pr.nPrime, pr.nPrime;
    PadZeros(pr.prevN, w);
    PadZeros(pr.tLen, pr.lt * m);
    PadZeros(pr.gLen, pr.lg * m);
    PadZeros(pr.hLen, pr.lh * m);
    ZerosConcat(w, w);
    ZerosConcat(w + w, pr.lt * m);
    ZerosConcat(w + w + pr.lt * m, pr.lg * m);
    ZerosConcat(w + w + pr.lt * m + pr.lg * m, pr.lh * m);
  }

  method CopyLikeZ0(pr: Preparer, dst: array<Poly>, src: seq<Poly>, ghost p: Parts)
    requires Fits(pr) && Shaped(pr, p) && dst[..] == Packed(pr, p) && |src| == pr.prevN
    modifies dst
    ensures dst[..] == Packed(pr, p.(z0 := src))
  {
    hide CopyAt, Packed;
    PartWritten(pr, p, src);
    CopyInto(dst, 0, src);
  }

  method CopyLikeZ1(pr: Preparer, dst: array<Poly>, src: seq<Poly>, ghost p: Parts)
    requires Fits(pr) && Shaped(pr, p) && dst[..] == Packed(pr, p) && |src| == pr.prevN
    modifies dst
    ensures dst[..] == Packed(pr, p.(z1 := src))
  {
    hide CopyAt, Packed;
    PartWritten(pr, p, src);
    CopyInto(dst, pr.nu * pr.nPrime, src);
  }

  method CopyLikeT(pr: Preparer, dst: array<Poly>, src: seq<Poly>, ghost p: Parts)
    requires Fits(pr) && Shaped(pr, p) && dst[..] == Packed(pr, p) && |src| == pr.tLen
    modifies dst
    ensures dst[..] == Packed(pr, p.(t := src))
  {
    hide CopyAt, Packed;
    PartWritten(pr, p, src);
    CopyInto(dst, (2 * pr.nu) * pr.nPrime, src);
  }

  method CopyLikeG(pr: Preparer, dst: array<Poly>, src: seq<Poly>, ghost p: Parts)
    requires Fits(pr) && Shaped(pr, p) && dst[..] == Packed(pr, p) && |src| == pr.gLen
    modifies dst
    ensures dst[..] == Packed(pr, p.(g := src))
  {
    hide CopyAt, Packed;
    PartWritten(pr, p, src);
    CopyInto(dst, (2 * pr.nu + pr.lt) * pr.nPrime, src);
  }

  method CopyLikeH(pr: Preparer, dst: array<Poly>, src: seq<Poly>, ghost p: Parts)
    requires Fits(pr) && Shaped(pr, p) && dst[..] == Packed(pr, p) && |src| == pr.hLen
    modifies dst
    ensures dst[..] == Packed(pr, p.(h := src))
  {
    hide CopyAt, Packed;
    PartWritten(pr, p, src);
    CopyInto(dst, (2 * pr.nu + pr.lt + pr.lg) * pr.nPrime, src);
  }

  /** A stretch of a buffer times a scalar, in place. */
  method ScaleInPlace(dst: array<Poly>, off: nat, len: nat, c: int)
    requires off + len <= dst.Length
    modifies dst
    ensures dst[..] == CopyAt(old(dst[..]), off, VecScale(c, old(dst[off..off + len])))
  {
    hide PolyScale;
    ghost var was, part := dst[..], dst[off..off + len];
    for i := 0 to len
      invariant forall x :: off <= x < off + i ==> dst[x] == PolyScale(c, was[x])
      invariant forall x :: 0 <= x < dst.Length && (x < off || off + i <= x) ==> dst[x] == was[x]
    {
      dst[off + i] := PolyScale(c, dst[off + i]);
    }
    var scaled := VecScale(c, part);
    forall x | off <= x < off + len ensures dst[x] == scaled[x - off] {
      assert PolyAt(part, x - off) == part[x - off] == was[x];
    }
    ScaledPart(was, dst[..], off, scaled);
  }

  lemma ScaledPart(was: seq<Poly>, now: seq<Poly>, off: nat, part: seq<Poly>)
    requires |was| == |now| && off + |part| <= |was|
    requires forall x :: off <= x < off + |part| ==> now[x] == part[x - off]
    requires forall x :: 0 <= x < |was| && (x < off || off + |part| <= x) ==> now[x] == was[x]
    ensures now == CopyAt(was, off, part)
  {
    var copy := CopyAt(was, off, part);
    forall x | 0 <= x < |now| ensures now[x] == copy[x] {}
  }

  /** The part z1 of a packed buffer times a scalar. */
  method ScaleZ1(pr: Preparer, dst: array<Poly>, c: int, ghost p: Parts)
    requires Fits(pr) && Shaped(pr, p) && dst[..] == Packed(pr, p)
    modifies dst
    ensures dst[..] == Packed(pr, p.(z1 := VecScale(c, p.z1)))
  {
    hide CopyAt, Packed, VecScale;
    PartWritten(pr, p, VecScale(c, p.z1));
    PartZ1(pr, p);
    ScaleInPlace(dst, pr.nu * pr.nPrime, pr.prevN, c);
  }

  lemma PartZ1(pr: Preparer, p: Parts)
    requires Fits(pr) && Shaped(pr, p)
    ensures Z1Begin(pr) + pr.prevN <= Total(pr) && Packed(pr, p)[Z1Begin(pr)..Z1Begin(pr) + pr.prevN] == p.z1
  {
    hide Packed;
    Regions(pr);
    PackedConcat(pr, p);
    var w := pr.nu * pr.nPrime;
    assert Pad(p.z0, w) + Pad(p.z1, w) == (Pad(p.z0, w) + p.z1) + Zeros(w - pr.prevN);
  }

  /** [w | base w | base^2 w | ...]: the running power is kept in the buffer temp. */
  method BuildDigitWeights(w: seq<Poly>, base: nat, l: nat) returns (mul: array<Poly>)
    requires l >= 1
    ensures fresh(mul) && mul[..] == DigitWeights(w, base, l)
  {
    hide Scaled, CopyAt, VecScale, DigitWeights;
    NonNegative(l, |w|);
    mul := new Poly[l * |w|](i => ZERO);
    var temp := new Poly[|w|](i requires 0 <= i < |w| => w[i]);
    assert temp[..] == w == Scaled(w, base, 0) by { ScaledStep(w, base, 0); }
    FirstWeights(mul[..], w, base);
    BlockFits(|w|, l, 0);
    CopyInto(mul, 0, temp[..]);
    for j := 1 to l
      invariant mul.Length == l * |w| && temp.Length == |w| && fresh(mul) && fresh(temp) && mul != temp
      invariant temp[..] == Scaled(w, base, j - 1)
      invariant 0 <= j * |w| <= mul.Length && mul[..j * |w|] == DigitWeights(w, base, j)
    {
      ScaledStep(w, base, j);
      WholeScaled(Scaled(w, base, j - 1), base);
      ScaleInPlace(temp, 0, |w|, base);
      BlockFits(|w|, l, j);
      ghost var was := mul[..];
      CopyInto(mul, j * |w|, temp[..]);
      NextWeights(was, w, base, j);
    }
    assert mul[..l * |w|] == mul[..];
  }

  lemma BlockFits(n: nat, l: nat, j: nat)
    requires j < l
    ensures 0 <= j * n && j * n + n == (j + 1) * n <= l * n
  {
    NonNegative(j, n);
    NonNegative(l - j - 1, n);
    Distribute(n, l, j + 1, l - j - 1);
    Distribute(n, j + 1, j, 1);
  }

  lemma ScaledStep(w: seq<Poly>, base: int, j: nat)
    ensures j == 0 ==> Scaled(w, base, j) == w
    ensures j > 0 ==> Scaled(w, base, j) == VecScale(base, Scaled(w, base, j - 1))
  {}

  lemma WholeScaled(v: seq<Poly>, c: int)
    ensures v[0..0 + |v|] == v && CopyAt(v, 0, VecScale(c, v)) == VecScale(c, v)
  {}

  lemma FirstWeights(mul: seq<Poly>, w: seq<Poly>, base: int)
    requires |mul| >= |w|
    ensures CopyAt(mul, 0, w)[..1 * |w|] == DigitWeights(w, base, 1)
  {
    assert DigitWeights(w, base, 0) == [] && Scaled(w, base, 0) == w;
    assert CopyAt(mul, 0, w)[..|w|] == w;
  }

  lemma NextWeights(was: seq<Poly>, w: seq<Poly>, base: int, j: nat)
    requires 0 <= j * |w| && j * |w| + |w| <= |was| && was[..j * |w|] == DigitWeights(w, base, j)
    ensures (j + 1) * |w| == j * |w| + |w|
    ensures CopyAt(was, j * |w|, Scaled(w, base, j))[..(j + 1) * |w|] == DigitWeights(w, base, j + 1)
  {
    hide Scaled;
    Distribute(|w|, j + 1, j, 1);
    var x := CopyAt(was, j * |w|, Scaled(w, base, j));
    assert x[..j * |w| + |w|] == was[..j * |w|] + Scaled(w, base, j);
  }
}

/** The loops that build the coefficients of the next round's constraints. */
module CoefficientLoops {
  import opened Residues
  import opened Products
  import opened Arrays
  import opened Polynomials
  import opened Vectors
  import opened Packing
  import opened Layout
  import opened Recursion
  import opened MatrixBuffers
  import opened SymmetricLoops

  lemma ConstPolyZero()
    ensures ConstPoly(0) == ZERO
  {
    PolyExt(ConstPoly(0), ZERO);
  }

  /** One more row of a packed triangle. */
  lemma PackStep(n: nat, f: (int, int) -> Poly, i: nat, row: seq<Poly>)
    requires i < n && |row| == n - i && forall d :: 0 <= d < n - i ==> row[d] == f(i, i + d)
    ensures PackRows(n, f, i + 1) == PackRows(n, f, i) + row
  {
    var vec := Vec(n - i, d => f(i, i + d));
    forall d | 0 <= d < n - i ensures vec[d] == row[d] {}
    assert vec == row;
  }

  /** A row of the packed identity: a one and then zeros. */
  lemma IdentityRow(r: nat, i: nat)
    requires i < r
    ensures PackRows(r, IdentityEntry, i + 1) == PackRows(r, IdentityEntry, i) + ([ConstPoly(1)] + Zeros(r - i - 1))
  {
    hide ConstPoly, PackRows;
    var row := [ConstPoly(1)] + Zeros(r - i - 1);
    forall d | 0 <= d < r - i ensures row[d] == IdentityEntry(i, i + d) {
      assert IdentityEntry(i, i + d) == Pick(d == 0, ConstPoly(1), ZERO);
    }
    PackStep(r, IdentityEntry, i, row);
  }

  /** Walks over the packed diagonal: the step from one diagonal place to the next shrinks by one every time. */
  method BuildSymmIdentity(r: nat) returns (v: array<Poly>)
    ensures fresh(v) && v[..] == SymmIdentity(r)
  {
    hide Off, PackRows, ConstPoly;
    OffTotal(r);
    var total := (r * (r + 1)) / 2;
    v := new Poly[total](i => ZERO);
    var i: nat, skip: int := 0, r;
    ghost var row := 0;
    FirstRow(r, IdentityEntry);
    while i < total
      invariant row <= r && i == Off(r, row) <= total == v.Length == Off(r, r) && skip == r - row
      invariant v[..i] == PackRows(r, IdentityEntry, row)
      invariant forall x :: i <= x < total ==> v[x] == ZERO
      decreases r - row
    {
      if row == r { assert false; }
      RowFits(r, row);
      IdentityRow(r, row);
      ghost var was := v[..i];
      v[i] := ConstPoly(1);
      assert v[..i + skip] == was + ([ConstPoly(1)] + Zeros(skip - 1));
      i := i + skip;
      skip := skip - 1;
      row := row + 1;
    }
    if row < r { BelowLast(r, row); }
    assert v[..] == v[..i];
  }

  lemma BelowLast(r: nat, row: nat)
    requires row < r
    ensures Off(r, row) < Off(r, r)
  {
    OffMonotone(r, row + 1, r);
    assert Off(r, row + 1) == Off(r, row) + (r - row);
  }

  /** The diagonal of a matrix is halved in place. */
  method HalveDiagonalInPlace(m: array<Poly>, r: nat)
    requires m.Length == r * r
    modifies m
    ensures m[..] == HalveDiagonal(old(m[..]), r)
  {
    hide Cell, PolyScale, Grid;
    CellIs(r, r, 0);
    ghost var was := m[..];
    for j := 0 to r
      invariant m.Length == Cell(r, r, 0)
      invariant forall i: nat, l: nat :: i < r && l < r ==>
        At2(m[..], r, i, l) == if i == l && i < j then PolyScale(HALF, At2(was, r, i, l)) else At2(was, r, i, l)
    {
      CellRange(r, r, j, j);
      CellIs(r, j, j);
      ghost var before := m[..];
      assert At2(before, r, j, j) == before[Cell(r, j, j)];
      m[j * r + j] := PolyScale(HALF, m[j * r + j]);
      OneWritten(before, m[..], r, j, j, PolyScale(HALF, At2(was, r, j, j)));
    }
    Halved(was, m[..], r);
  }

  lemma OneWritten(was: seq<Poly>, now: seq<Poly>, n: nat, i: nat, j: nat, x: Poly)
    requires |was| == Cell(n, n, 0) && i < n && j < n && Cell(n, i, j) < |was| && now == was[Cell(n, i, j) := x]
    ensures forall k: nat, l: nat :: k < n && l < n ==>
      At2(now, n, k, l) == if k == i && l == j then x else At2(was, n, k, l)
  {
    RectWritten(was, now, n, n, i, j, x);
  }

  lemma Halved(was: seq<Poly>, now: seq<Poly>, r: nat)
    requires |was| == |now| == Cell(r, r, 0)
    requires forall i: nat, l: nat :: i < r && l < r ==>
      At2(now, r, i, l) == if i == l then PolyScale(HALF, At2(was, r, i, l)) else At2(was, r, i, l)
    ensures now == HalveDiagonal(was, r)
  {
    hide PolyScale, Grid, Cell;
    CellIs(r, r, 0);
    forall i: nat, j: nat | i < r && j < r ensures RectAt(now, r, r, i, j) == HalvedEntry(was, r)(i, j) {
      CellRange(r, r, i, j);
      CellIs(r, i, j);
      assert At2(now, r, i, j) == if i == j then PolyScale(HALF, At2(was, r, i, j)) else At2(was, r, i, j);
    }
    RectIsGrid(now, r, r, HalvedEntry(was, r));
  }

  /** Entry (i, j) of the square blocks after count steps. */
  function BlocksSoFar(nu: nat, base0: nat, count: nat, i: int, j: int): Poly {
    if 0 <= i < count || nu <= i < nu + count then ConstPoly(BlockCoefficient(nu, base0, i, j)) else ZERO
  }

  ghost predicate BlocksHold(a: seq<Poly>, n: nat, nu: nat, base0: nat, count: nat)
    requires |a| == Cell(n, n, 0)
  {
    forall i: nat, j: nat :: i < n && j < n ==> At2(a, n, i, j) == BlocksSoFar(nu, base0, count, i, j)
  }

  /** The blocks for <z0 + base0 z1, z0 + base0 z1>, four entries at a time; base0 * base0 is taken in 32 bits. */
  method FillSquareBlocks(pr: Preparer, base0: nat) returns (a: array<Poly>)
    requires Fits(pr)
    ensures fresh(a) && a[..] == SquareBlocks(pr, base0)
  {
    hide Cell, ConstPoly, Grid, WrapSquare;
    var n, nu := pr.rPrime, pr.nu;
    CellIs(n, n, 0);
    a := new Poly[n * n](i => ZERO);
    var one, b0, b0Sq := ConstPoly(1), ConstPoly(base0), ConstPoly(WrapSquare(base0));
    NoBlocks(a[..], n, nu, base0);
    for i := 0 to nu
      invariant a.Length == Cell(n, n, 0) && fresh(a) && BlocksHold(a[..], n, nu, base0, i)
    {
      FillFour(a, n, nu, i, one, b0, b0Sq);
      NextBlock(n, nu, base0, i);
    }
    BlocksDone(a[..], pr, base0);
  }

  lemma NoBlocks(a: seq<Poly>, n: nat, nu: nat, base0: nat)
    requires |a| == Cell(n, n, 0) && forall x :: 0 <= x < |a| ==> a[x] == ZERO
    ensures BlocksHold(a, n, nu, base0, 0)
  {
    hide Cell;
    forall i: nat, j: nat | i < n && j < n ensures At2(a, n, i, j) == BlocksSoFar(nu, base0, 0, i, j) {
      CellRange(n, n, i, j);
    }
  }

  /** Entry (k, l) after the step that writes the entries for i. */
  function FourEntries(nu: nat, i: nat, one: Poly, b0: Poly, b0Sq: Poly, k: nat, l: nat, was: Poly): Poly {
    if k == i && l == i then one else if k == i + nu && l == i + nu then b0Sq
    else if (k == i + nu && l == i) || (k == i && l == i + nu) then b0 else was
  }

  /** The four entries of one step. */
  method FillFour(a: array<Poly>, n: nat, nu: nat, i: nat, one: Poly, b0: Poly, b0Sq: Poly)
    requires a.Length == Cell(n, n, 0) && i < nu && 2 * nu <= n
    modifies a
    ensures forall k: nat, l: nat :: k < n && l < n ==>
      At2(a[..], n, k, l) == FourEntries(nu, i, one, b0, b0Sq, k, l, At2(old(a[..]), n, k, l))
  {
    hide Cell;
    Put(a, n, i, i, one);
    Put(a, n, i + nu, i + nu, b0Sq);
    Put(a, n, i + nu, i, b0);
    Put(a, n, i, i + nu, b0);
  }

  method Put(a: array<Poly>, n: nat, i: nat, j: nat, x: Poly)
    requires a.Length == Cell(n, n, 0) && i < n && j < n
    modifies a
    ensures forall k: nat, l: nat :: k < n && l < n ==>
      At2(a[..], n, k, l) == if k == i && l == j then x else At2(old(a[..]), n, k, l)
  {
    hide Cell;
    CellRange(n, n, i, j);
    CellIs(n, i, j);
    a[i * n + j] := x;
    OneWritten(old(a[..]), a[..], n, i, j, x);
  }

  /** What the four entries do to the blocks. */
  lemma NextBlock(n: nat, nu: nat, base0: nat, i: nat)
    requires i < nu && 2 * nu <= n
    ensures forall k: nat, l: nat :: k < n && l < n ==>
      BlocksSoFar(nu, base0, i + 1, k, l)
        == FourEntries(nu, i, ConstPoly(1), ConstPoly(base0), ConstPoly(WrapSquare(base0)), k, l,
                       BlocksSoFar(nu, base0, i, k, l))
  {
    forall k: nat, l: nat | k < n && l < n
      ensures BlocksSoFar(nu, base0, i + 1, k, l)
        == FourEntries(nu, i, ConstPoly(1), ConstPoly(base0), ConstPoly(WrapSquare(base0)), k, l,
                       BlocksSoFar(nu, base0, i, k, l))
    {
      NextEntry(nu, base0, i, k, l);
    }
  }

  lemma NextEntry(nu: nat, base0: nat, i: nat, k: nat, l: nat)
    requires i < nu
    ensures BlocksSoFar(nu, base0, i + 1, k, l)
         == FourEntries(nu, i, ConstPoly(1), ConstPoly(base0), ConstPoly(WrapSquare(base0)), k, l,
                        BlocksSoFar(nu, base0, i, k, l))
  {
    hide ConstPoly, WrapSquare;
    ConstPolyZero();
    if k == i {
      assert BlockCoefficient(nu, base0, k, l) == if l == i then 1 else if l == i + nu then base0 else 0;
    } else if k == i + nu {
      assert BlockCoefficient(nu, base0, k,
                              l) == if l == i + nu then WrapSquare(base0) else if l == i then base0 else 0;
    }
  }

  lemma AllBlocks(nu: nat, base0: nat, i: nat, j: nat)
    ensures BlocksSoFar(nu, base0, nu, i, j) == ConstPoly(BlockCoefficient(nu, base0, i, j))
  {
    hide ConstPoly, WrapSquare;
    ConstPolyZero();
  }

  lemma BlocksDone(a: seq<Poly>, pr: Preparer, base0: nat)
    requires Fits(pr) && |a| == Cell(pr.rPrime, pr.rPrime, 0) && BlocksHold(a, pr.rPrime, pr.nu, base0, pr.nu)
    ensures a == SquareBlocks(pr, base0)
  {
    hide ConstPoly, Grid, BlockCoefficient, BlocksSoFar, Cell;
    var n := pr.rPrime;
    forall i: nat, j: nat | i < n && j < n ensures RectAt(a, n, n, i, j) == BlockEntry(pr.nu, base0)(i, j) {
      AllBlocks(pr.nu, base0, i, j);
      assert At2(a, n, i, j) == BlocksSoFar(pr.nu, base0, pr.nu, i, j);
    }
    RectIsGrid(a, n, n, BlockEntry(pr.nu, base0));
  }
}
