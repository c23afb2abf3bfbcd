/** Where the five parts of a base proof go in the witness of the next round. */
module Layout {
  import opened Residues
  import opened Products
  import opened Sums
  import opened Arrays
  import opened Polynomials
  import opened Vectors
  import opened Packing
  import opened Constraints

  function CeilDiv(x: nat, y: nat): nat
    requires y > 0
  {
    (x + y - 1) / y
  }

  lemma CeilDivCovers(x: nat, y: nat)
    requires y > 0
    ensures x <= CeilDiv(x, y) * y < x + y
  {
    var c := CeilDiv(x, y);
    assert x + y - 1 == y * c + (x + y - 1) % y;
  }

  /** The shape of the next witness: rows of length nPrime, in five groups. */
  datatype Preparer = Preparer(
    prevN: nat, mu: nat, nu: nat, tLen: nat, gLen: nat, hLen: nat,
    nPrime: nat, lt: nat, lg: nat, lh: nat, rPrime: nat)

  function Prepare(prevN: nat, tLen: nat, gLen: nat, hLen: nat, mu: nat, nu: nat): Preparer
    requires prevN >= 1 && mu >= 1 && nu >= 1
  {
    var nPrime := Max(CeilDiv(prevN, nu), CeilDiv(tLen + gLen + hLen, mu));
    PrimePositive(prevN, nu);
    var lt, lg, lh := CeilDiv(tLen, nPrime), CeilDiv(gLen, nPrime), CeilDiv(hLen, nPrime);
    Preparer(prevN, mu, nu, tLen, gLen, hLen, nPrime, lt, lg, lh, 2 * nu + lt + lg + lh)
  }

  function Max(a: nat, b: nat): nat {
    if a < b then b else a
  }

  lemma PrimePositive(x: nat, y: nat)
    requires x >= 1 && y >= 1
    ensures CeilDiv(x, y) >= 1
  {
    CeilDivCovers(x, y);
  }

  /** What Prepare establishes and the copies rely on: every part fits its group of rows. */
  predicate Fits(pr: Preparer) {
    && pr.nPrime >= 1 && pr.nu >= 1 && pr.rPrime == 2 * pr.nu + pr.lt + pr.lg + pr.lh
    && pr.prevN <= pr.nu * pr.nPrime
    && pr.tLen <= pr.lt * pr.nPrime
    && pr.gLen <= pr.lg * pr.nPrime
    && pr.hLen <= pr.lh * pr.nPrime
  }

  lemma PrepareFits(prevN: nat, tLen: nat, gLen: nat, hLen: nat, mu: nat, nu: nat)
    requires prevN >= 1 && mu >= 1 && nu >= 1
    ensures Fits(Prepare(prevN, tLen, gLen, hLen, mu, nu))
  {
    var pr := Prepare(prevN, tLen, gLen, hLen, mu, nu);
    PrimePositive(prevN, nu);
    CeilDivCovers(prevN, nu);
    NonNegative(nu, pr.nPrime - CeilDiv(prevN, nu));
    Distribute(nu, pr.nPrime, pr.nPrime - CeilDiv(prevN, nu), CeilDiv(prevN, nu));
    CeilDivCovers(tLen, pr.nPrime);
    CeilDivCovers(gLen, pr.nPrime);
    CeilDivCovers(hLen, pr.nPrime);
  }

  /** Rows of the given width hold len entries. */
  predicate RowsHold(rows: nat, width: nat, len: nat) {
    len <= rows * width
  }

  /** So many rows of the given width hold len entries, and no fewer do. */
  ghost predicate LeastRows(rows: nat, width: nat, len: nat) {
    forall k: nat :: rows <= k <==> RowsHold(k, width, len)
  }

  /** n' is the least width for which nu rows hold z, and mu rows all of t, g and h. */
  ghost predicate LeastWidth(width: nat, prevN: nat, rest: nat, mu: nat, nu: nat) {
    forall w: nat :: width <= w <==> RowsHold(nu, w, prevN) && RowsHold(mu, w, rest)
  }

  lemma CeilDivLeast(x: nat, y: nat, k: nat)
    requires y > 0
    ensures CeilDiv(x, y) <= k <==> x <= k * y
  {
    CeilDivCovers(x, y);
    var c := CeilDiv(x, y);
    if c <= k {
      NonNegative(k - c, y);
      Distribute(y, k, k - c, c);
    } else {
      NonNegative(c - k - 1, y);
      Distribute(y, c, c - k - 1, k + 1);
      Distribute(y, k + 1, k, 1);
    }
  }

  /** The width and the row counts are the smallest that hold the parts. */
  lemma PrepareLeast(prevN: nat, tLen: nat, gLen: nat, hLen: nat, mu: nat, nu: nat)
    requires prevN >= 1 && mu >= 1 && nu >= 1
    ensures var pr := Prepare(prevN, tLen, gLen, hLen, mu, nu);
      && LeastWidth(pr.nPrime, prevN, tLen + gLen + hLen, mu, nu)
      && LeastRows(pr.lt, pr.nPrime, tLen) && LeastRows(pr.lg, pr.nPrime, gLen) && LeastRows(pr.lh, pr.nPrime, hLen)
      && pr.rPrime == 2 * nu + pr.lt + pr.lg + pr.lh
  {
    hide CeilDiv;
    PrimePositive(prevN, nu);
    var pr := Prepare(prevN, tLen, gLen, hLen, mu, nu);
    forall w: nat ensures pr.nPrime <= w <==> RowsHold(nu, w, prevN) && RowsHold(mu, w, tLen + gLen + hLen) {
      CeilDivLeast(prevN, nu, w);
      CeilDivLeast(tLen + gLen + hLen, mu, w);
    }
    RowsLeast(tLen, pr.nPrime);
    RowsLeast(gLen, pr.nPrime);
    RowsLeast(hLen, pr.nPrime);
  }

  lemma RowsLeast(len: nat, width: nat)
    requires width >= 1
    ensures LeastRows(CeilDiv(len, width), width, len)
  {
    hide CeilDiv;
    forall k: nat ensures CeilDiv(len, width) <= k <==> RowsHold(k, width, len) {
      CeilDivLeast(len, width, k);
    }
  }

  function Z1Begin(pr: Preparer): nat { pr.nu * pr.nPrime }
  function TBegin(pr: Preparer): nat { (2 * pr.nu) * pr.nPrime }
  function GBegin(pr: Preparer): nat { (2 * pr.nu + pr.lt) * pr.nPrime }
  function HBegin(pr: Preparer): nat { (2 * pr.nu + pr.lt + pr.lg) * pr.nPrime }
  function Total(pr: Preparer): nat { pr.rPrime * pr.nPrime }

  /** The five regions lie one after the other inside the whole, so they do not overlap. */
  lemma Regions(pr: Preparer)
    requires Fits(pr)
    ensures pr.prevN <= Z1Begin(pr) && Z1Begin(pr) + pr.prevN <= TBegin(pr)
    ensures TBegin(pr) == Z1Begin(pr) + Z1Begin(pr)
    ensures GBegin(pr) == TBegin(pr) + pr.lt * pr.nPrime
    ensures HBegin(pr) == GBegin(pr) + pr.lg * pr.nPrime
    ensures Total(pr) == HBegin(pr) + pr.lh * pr.nPrime
    ensures TBegin(pr) + pr.tLen <= GBegin(pr) && GBegin(pr) + pr.gLen <= HBegin(pr)
    ensures HBegin(pr) + pr.hLen <= Total(pr)
  {
    var m := pr.nPrime;
    Distribute(m, 2 * pr.nu, pr.nu, pr.nu);
    Distribute(m, 2 * pr.nu + pr.lt, 2 * pr.nu, pr.lt);
    Distribute(m, 2 * pr.nu + pr.lt + pr.lg, 2 * pr.nu + pr.lt, pr.lg);
    Distribute(m, pr.rPrime, 2 * pr.nu + pr.lt + pr.lg, pr.lh);
  }

  /** v followed by zeros up to length w. */
  function Pad(v: seq<Poly>, w: nat): (r: seq<Poly>)
    requires |v| <= w
    ensures |r| == w
  {
    v + Zeros(w - |v|)
  }

  datatype Parts = Parts(z0: seq<Poly>, z1: seq<Poly>, t: seq<Poly>, g: seq<Poly>, h: seq<Poly>)

  predicate Shaped(pr: Preparer, p: Parts) {
    && |p.z0| == |p.z1| == pr.prevN
    && |p.t| == pr.tLen && |p.g| == pr.gLen && |p.h| == pr.hLen
  }

  /** The parts in their places, zeros elsewhere. */
  function Packed(pr: Preparer, p: Parts): (s: seq<Poly>)
    requires Fits(pr) && Shaped(pr, p)
    ensures |s| == Total(pr)
  {
    Regions(pr);
    CopyAt(CopyAt(CopyAt(CopyAt(CopyAt(Zeros(Total(pr)),
      0, p.z0), Z1Begin(pr), p.z1), TBegin(pr), p.t), GBegin(pr), p.g), HBegin(pr), p.h)
  }

  lemma CopyIntoZeros(head: seq<Poly>, n: nat, v: seq<Poly>, w: nat)
    requires |v| <= w <= n
    ensures CopyAt(head + Zeros(n), |head|, v) == (head + Pad(v, w)) + Zeros(n - w)
  {
    var l, r := CopyAt(head + Zeros(n), |head|, v), (head + Pad(v, w)) + Zeros(n - w);
    assert |l| == |r|;
    forall i | 0 <= i < |l| ensures l[i] == r[i] {}
  }

  /** The packed witness is the concatenation of the padded parts. */
  lemma PackedConcat(pr: Preparer, p: Parts)
    requires Fits(pr) && Shaped(pr, p)
    ensures Packed(pr, p) == Pad(p.z0, pr.nu * pr.nPrime) + Pad(p.z1, pr.nu * pr.nPrime)
                           + Pad(p.t, pr.lt * pr.nPrime) + Pad(p.g, pr.lg * pr.nPrime) + Pad(p.h, pr.lh * pr.nPrime)
  {
    hide CopyAt, Pad;
    Regions(pr);
    var m, n := pr.nPrime, Total(pr);
    var w, wt, wg, wh := pr.nu * m, pr.lt * m, pr.lg * m, pr.lh * m;
    var h0: seq<Poly> := [];
    assert h0 + Zeros(n) == Zeros(n);
    CopyIntoZeros(h0, n, p.z0, w);
    var h1 := h0 + Pad(p.z0, w);
    CopyIntoZeros(h1, n - w, p.z1, w);
    var h2 := h1 + Pad(p.z1, w);
    CopyIntoZeros(h2, n - 2 * w, p.t, wt);
    var h3 := h2 + Pad(p.t, wt);
    CopyIntoZeros(h3, n - 2 * w - wt, p.g, wg);
    var h4 := h3 + Pad(p.g, wg);
    CopyIntoZeros(h4, n - 2 * w - wt - wg, p.h, wh);
    assert h4 + Pad(p.h, wh) + Zeros(0) == h4 + Pad(p.h, wh);
    assert h1 == Pad(p.z0, w);
  }

  lemma DotConcat(a: seq<Poly>, b: seq<Poly>, c: seq<Poly>, d: seq<Poly>, k: int)
    requires |a| == |c| && |b| == |d|
    ensures Dot(a + b, c + d, |a| + |b|, k) == Dot(a, c, |a|, k) + Dot(b, d, |b|, k)
  {
    hide Sum;
    var f := Pointwise(Slots(a + b, k), Slots(c + d, k));
    SumSplit(|a|, |b|, f);
    SumExt(|a|, f, Pointwise(Slots(a, k), Slots(c, k)));
    SumExt(|b|, i => f(|a| + i), Pointwise(Slots(b, k), Slots(d, k)));
  }

  lemma DotPad(u: seq<Poly>, v: seq<Poly>, w: nat, k: int)
    requires |u| == |v| <= w
    ensures Dot(Pad(u, w), Pad(v, w), w, k) == Dot(u, v, |u|, k)
  {
    hide Sum;
    var z := Zeros(w - |u|);
    DotConcat(u, z, v, z, k);
    SumZero(|z|, Pointwise(Slots(z, k), Slots(z, k)));
  }

  function PartsDot(pr: Preparer, p: Parts, s: Parts, k: int): int {
    Dot(p.z0, s.z0, pr.prevN, k) + Dot(p.z1, s.z1, pr.prevN, k) + Dot(p.t, s.t, pr.tLen, k)
      + Dot(p.g, s.g, pr.gLen, k) + Dot(p.h, s.h, pr.hLen, k)
  }

  /** The inner product of two packed vectors is the sum of the five regional ones. */
  lemma PackedDot(pr: Preparer, p: Parts, s: Parts, k: int)
    requires Fits(pr) && Shaped(pr, p) && Shaped(pr, s)
    ensures Dot(Packed(pr, p), Packed(pr, s), Total(pr), k) == PartsDot(pr, p, s, k)
  {
    hide Dot, Packed, Pad;
    Regions(pr);
    PackedConcat(pr, p);
    PackedConcat(pr, s);
    var m := pr.nPrime;
    var w, wt, wg, wh := pr.nu * m, pr.lt * m, pr.lg * m, pr.lh * m;
    var p1, s1 := Pad(p.z0, w), Pad(s.z0, w);
    var p2, s2 := p1 + Pad(p.z1, w), s1 + Pad(s.z1, w);
    var p3, s3 := p2 + Pad(p.t, wt), s2 + Pad(s.t, wt);
    var p4, s4 := p3 + Pad(p.g, wg), s3 + Pad(s.g, wg);
    DotConcat(p4, Pad(p.h, wh), s4, Pad(s.h, wh), k);
    DotConcat(p3, Pad(p.g, wg), s3, Pad(s.g, wg), k);
    DotConcat(p2, Pad(p.t, wt), s2, Pad(s.t, wt), k);
    DotConcat(p1, Pad(p.z1, w), s1, Pad(s.z1, w), k);
    DotPad(p.z0, s.z0, w, k);
    DotPad(p.z1, s.z1, w, k);
    DotPad(p.t, s.t, wt, k);
    DotPad(p.g, s.g, wg, k);
    DotPad(p.h, s.h, wh, k);
  }
}
