/** The transform kernels as they run in place on an array, through a table of memory places. */
module Views {
  import opened Residues

  /** All places of a table lie in an array of the given length and no two are the same. */
  ghost predicate Places(ix: seq<nat>, length: nat) {
    && (forall p :: 0 <= p < |ix| ==> ix[p] < length)
    && (forall p, q :: 0 <= p < q < |ix| ==> ix[p] != ix[q])
  }

  /** What the places of a table hold. */
  ghost function View(mem: seq<Zq>, ix: seq<nat>): (v: seq<Zq>)
    requires Places(ix, |mem|)
    ensures |v| == |ix|
  {
    seq(|ix|, p requires 0 <= p < |ix| => mem[ix[p]])
  }

  /** The memory outside the table is the same. */
  ghost predicate SameOutside(mem: seq<Zq>, was: seq<Zq>, ix: seq<nat>) {
    |mem| == |was| && forall m :: 0 <= m < |mem| && m !in ix ==> mem[m] == was[m]
  }

  lemma ViewAt(mem: seq<Zq>, ix: seq<nat>, p: nat)
    requires Places(ix, |mem|) && p < |ix|
    ensures View(mem, ix)[p] == mem[ix[p]]
  {}

  lemma SameTransitive(a: seq<Zq>, b: seq<Zq>, c: seq<Zq>, ix: seq<nat>)
    requires SameOutside(a, b, ix) && SameOutside(b, c, ix)
    ensures SameOutside(a, c, ix)
  {}

  /** Entries of a sequence as a function on all integers. */
  ghost function Entries(v: seq<Zq>): int -> int {
    i => if 0 <= i < |v| then v[i] else 0
  }

  /** Two places written at once. */
  method WritePair(a: array<Zq>, ix: seq<nat>, p: nat, q: nat, x: Zq, y: Zq)
    requires Places(ix, a.Length) && p < |ix| && q < |ix| && p != q
    modifies a
    ensures View(a[..], ix) == View(old(a[..]), ix)[p := x][q := y]
    ensures SameOutside(a[..], old(a[..]), ix)
  {
    a[ix[p]] := x;
    a[ix[q]] := y;
    ghost var v, w := View(a[..], ix), View(old(a[..]), ix)[p := x][q := y];
    forall k | 0 <= k < |ix| ensures v[k] == w[k] {
      assert k != p ==> ix[k] != ix[p];
      assert k != q ==> ix[k] != ix[q];
    }
  }

  method WriteOne(a: array<Zq>, ix: seq<nat>, p: nat, x: Zq)
    requires Places(ix, a.Length) && p < |ix|
    modifies a
    ensures View(a[..], ix) == View(old(a[..]), ix)[p := x]
    ensures SameOutside(a[..], old(a[..]), ix)
  {
    a[ix[p]] := x;
    ghost var v, w := View(a[..], ix), View(old(a[..]), ix)[p := x];
    forall k | 0 <= k < |ix| ensures v[k] == w[k] {
      assert k != p ==> ix[k] != ix[p];
    }
  }
}

module BitReverseInPlace {
  import opened Residues
  import opened Products
  import opened PowersOfTwo
  import opened BitReversal
  import opened Views

  lemma NextBit(i: nat, j: nat)
    ensures (i / Pow2(j)) / 2 == i / Pow2(j + 1)
  {
    var n, a := Pow2(j), i / Pow2(j);
    var r, b := i - a * n, a - (a / 2) * 2;
    assert i == (a / 2) * (2 * n) + (b * n + r) by { Distribute(n, a, (a / 2) * 2, b); Associate(a / 2, 2, n); }
    assert 0 <= b * n + r < 2 * n by { if b == 0 {} else { assert b == 1; } }
    QuotientUnique(i, 2 * n, a / 2, b * n + r);
  }

  lemma QuotientUnique(x: int, d: int, c: int, r: int)
    requires d > 0 && x == c * d + r && 0 <= r < d
    ensures x / d == c && x % d == r
  {
    var e := c - x / d;
    assert e * d == x % d - r;
    if e >= 1 { NonNegative(e - 1, d); } else if e <= -1 { NonNegative(-1 - e, d); }
  }

  /** Each set bit j of i sets bit logn-1-j of the result. */
  method BitReverse(i: nat, logn: nat) returns (rev: nat)
    ensures rev == Rev(i, logn)
  {
    rev := 0;
    assert Pow2(0) == 1;
    for j := 0 to logn
      invariant rev + Rev(i / Pow2(j), logn - j) == Rev(i, logn)
    {
      NextBit(i, j);
      if (i / Pow2(j)) % 2 == 1 {
        rev := rev + Pow2(logn - 1 - j);
      }
    }
  }

  lemma RevRange(p: nat, l: nat)
    requires p < Pow2(l)
    ensures Rev(p, l) < Pow2(l) && Rev(Rev(p, l), l) == p
  {
    RevInvolution(p, l);
  }

  /** After the pairs below i have been swapped. */
  ghost function SwappedTo(was: seq<Zq>, l: nat, i: nat, p: nat): Zq
    requires |was| == Pow2(l) && p < Pow2(l)
  {
    if p < i || Rev(p, l) < i then was[Rev(p, l)] else was[p]
  }

  /** Swapping each index with its reversal once reorders the whole table. */
  method ReorderByBitReverse(a: array<Zq>, ix: seq<nat>, l: nat)
    requires Places(ix, a.Length) && |ix| == Pow2(l)
    modifies a
    ensures SameOutside(a[..], old(a[..]), ix)
    ensures forall p :: 0 <= p < |ix| ==> View(a[..], ix)[p] == View(old(a[..]), ix)[Rev(p, l)]
  {
    ghost var was := View(old(a[..]), ix);
    for i := 0 to |ix|
      invariant SameOutside(a[..], old(a[..]), ix)
      invariant forall p :: 0 <= p < |ix| ==> View(a[..], ix)[p] == SwappedTo(was, l, i, p)
    {
      var rev := BitReverse(i, l);
      RevRange(i, l);
      ghost var v := View(a[..], ix);
      assert v[i] == SwappedTo(was, l, i, i) && v[rev] == SwappedTo(was, l, i, rev);
      if i < rev {
        WritePair(a, ix, i, rev, a[ix[rev]], a[ix[i]]);
        SwapStep(was, l, i, v, View(a[..], ix));
      } else {
        SkipStep(was, l, i, v);
      }
    }
    forall p | 0 <= p < |ix| ensures View(a[..], ix)[p] == was[Rev(p, l)] {
      RevRange(p, l);
    }
  }

  lemma SwapStep(was: seq<Zq>, l: nat, i: nat, v: seq<Zq>, w: seq<Zq>)
    requires |was| == |v| == |w| == Pow2(l) && i < Pow2(l) && i < Rev(i, l)
    requires forall p :: 0 <= p < Pow2(l) ==> v[p] == SwappedTo(was, l, i, p)
    requires w == v[i := v[Rev(i, l)]][Rev(i, l) := v[i]]
    ensures forall p :: 0 <= p < Pow2(l) ==> w[p] == SwappedTo(was, l, i + 1, p)
  {
    hide Rev;
    RevRange(i, l);
    forall p | 0 <= p < Pow2(l) ensures w[p] == SwappedTo(was, l, i + 1, p) {
      RevRange(p, l);
    }
  }

  lemma SkipStep(was: seq<Zq>, l: nat, i: nat, v: seq<Zq>)
    requires |was| == |v| == Pow2(l) && i < Pow2(l) && Rev(i, l) <= i
    requires forall p :: 0 <= p < Pow2(l) ==> v[p] == SwappedTo(was, l, i, p)
    ensures forall p :: 0 <= p < Pow2(l) ==> v[p] == SwappedTo(was, l, i + 1, p)
  {
    hide Rev;
    forall p | 0 <= p < Pow2(l) ensures v[p] == SwappedTo(was, l, i + 1, p) {
      RevRange(p, l);
    }
  }
}

/** The table of powers of a root that every kernel reads. */
module Twiddles {
  import opened Residues
  import opened Products
  import opened Powers
  import opened PowersOfTwo
  import opened Roots

  /** tw holds 1, root, root^2, ..., up to and including the full period 2^logMax. */
  ghost predicate Table(tw: seq<Zq>, root: int, logMax: nat) {
    && IsRoot(root, logMax) && |tw| == Pow2(logMax) + 1
    && forall i :: 0 <= i < |tw| ==> tw[i] == M(Pow(root, i))
  }

  /** The e-th power in the given direction; backwards it is read from the end of the table. */
  function Twiddle(tw: seq<Zq>, inverse: bool, e: nat): Zq
    requires e < |tw|
  {
    if inverse then tw[|tw| - 1 - e] else tw[e]
  }

  /** The root that the direction works with. */
  ghost predicate DirectionRoot(root: int, inverse: bool, w: int) {
    if inverse then M(root * w) == 1 else M(w) == M(root)
  }

  lemma TwiddlePower(tw: seq<Zq>, root: int, logMax: nat, inverse: bool, w: int, e: nat)
    requires Table(tw, root, logMax) && DirectionRoot(root, inverse, w) && e < |tw|
    ensures M(Twiddle(tw, inverse, e)) == M(Pow(w, e))
  {
    hide Pow;
    if inverse {
      var n := Pow2(logMax);
      RootFull(root, logMax);
      PowAdd(root, n - e, e);
      PowBase(root, w, e);
      PowCong(root * w, 1, e);
      PowOne(e);
      InverseEnd(Pow(root, n - e), Pow(root, e), Pow(w, e));
    } else {
      PowCong(w, root, e);
    }
  }

  /** From x y = 1 and y z = 1 follows x = z. */
  lemma InverseEnd(x: int, y: int, z: int)
    requires M(x * y) == 1 && M(y * z) == 1
    ensures M(x) == M(z)
  {
    CongMul(x * y, 1, z, z);
    CongScale(y * z, 1, x);
    Associate(x, y, z);
  }

  lemma DirectionIsRoot(root: int, inverse: bool, w: int, l: nat)
    requires IsRoot(root, l) && DirectionRoot(root, inverse, w)
    ensures IsRoot(w, l)
  {
    hide Pow;
    if inverse {
      RootInverse(root, w, l);
    } else if l > 0 {
      PowCong(w, root, Pow2(l - 1));
    }
  }

  /** The root for transforms of length 2^l. */
  function SizeRoot(w: int, logMax: nat, l: nat): int
    requires l <= logMax
  {
    Pow(w, Pow2(logMax - l))
  }

  lemma SizeRootIsRoot(w: int, logMax: nat, l: nat)
    requires l <= logMax && IsRoot(w, logMax)
    ensures IsRoot(SizeRoot(w, logMax, l), l)
  {
    hide Pow;
    if l == 0 {
      RootFull(w, logMax);
    } else {
      PowMul(w, Pow2(logMax - l), Pow2(l - 1));
      Pow2Add(logMax - l, l - 1);
    }
  }
}

/** The straight-line kernel of length eight on a table of places. */
module EightInPlace {
  import opened Residues
  import opened Products
  import opened Powers
  import opened PowersOfTwo
  import opened Roots
  import opened FourierTransform
  import opened Views
  import opened BitReverseInPlace
  import opened Twiddles
  import opened Winograd8

  /** The three constants, from the table of powers. */
  method EightConstants(tw: seq<Zq>, inverse: bool, maxSize: nat, ghost root: int, ghost w: int, ghost logMax: nat)
    returns (t0: Zq, t1: Zq, t2: Zq)
    requires Table(tw, root, logMax) && DirectionRoot(root, inverse, w) && 3 <= logMax && maxSize == Pow2(logMax)
    ensures Constants(SizeRoot(w, logMax, 3), t0, t1, t2)
  {
    hide M, Pow, Pow2, IsRoot, DirectionRoot;
    Eighth(logMax);
    TwiddlePower(tw, root, logMax, inverse, w, maxSize / 8);
    var basic := Twiddle(tw, inverse, maxSize / 8);
    t0 := M(basic * basic);
    t1 := M(M(basic + M(t0 * basic)) * HALF);
    t2 := M(M(basic - M(t0 * basic)) * HALF);
    ConstantsHold(SizeRoot(w, logMax, 3), basic, t0, t1, t2);
  }

  lemma Eighth(logMax: nat)
    requires 3 <= logMax
    ensures Pow2(logMax) / 8 == Pow2(logMax - 3) && Pow2(3) == 8 && Pow2(logMax) >= 8
  {
    assert Pow2(logMax) == 2 * Pow2(logMax - 1);
    assert Pow2(logMax - 1) == 2 * Pow2(logMax - 2);
    assert Pow2(logMax - 2) == 2 * Pow2(logMax - 3);
  }

  lemma ConstantsHold(w: int, b: Zq, t0: Zq, t1: Zq, t2: Zq)
    requires M(b) == M(w) && t0 == M(b * b)
    requires t1 == M(M(b + M(t0 * b)) * HALF) && t2 == M(M(b - M(t0 * b)) * HALF)
    ensures Constants(w, t0, t1, t2)
  {
    hide M;
    CongMul(b, w, b, w);
    MTwice(b * b);
    CongMul(t0, w * w, b, w);
    var cube: Zq := M(t0 * b);
    MTwice(t0 * b);
    HalfSums(b, cube, t1, t2);
  }

  lemma HalfSums(b: Zq, c: Zq, t1: Zq, t2: Zq)
    requires t1 == M(M(b + c) * HALF) && t2 == M(M(b - c) * HALF)
    ensures M(t1 + t2) == M(b) && M(t1 - t2) == M(c)
  {
    hide M;
    MMulLeft(b + c, HALF);
    MMulLeft(b - c, HALF);
    MTwice((b + c) * HALF);
    MTwice((b - c) * HALF);
    CongAdd(t1, (b + c) * HALF, t2, (b - c) * HALF);
    CongSub(t1, (b + c) * HALF, t2, (b - c) * HALF);
    assert (b + c) * HALF + (b - c) * HALF == HALF * (2 * b);
    assert (b + c) * HALF - (b - c) * HALF == HALF * (2 * c);
    HalfTwice(b);
    HalfTwice(c);
  }

  method Ntt8InPlace(a: array<Zq>, ix: seq<nat>, tw: seq<Zq>, inverse: bool, maxSize: nat, ghost root: int,
                     ghost w: int, ghost logMax: nat)
    requires Places(ix, a.Length) && |ix| == 8 && 3 <= logMax && maxSize == Pow2(logMax)
    requires Table(tw, root, logMax) && DirectionRoot(root, inverse, w)
    modifies a
    ensures SameOutside(a[..], old(a[..]), ix)
    ensures forall k :: 0 <= k < 8 ==>
      View(a[..], ix)[k] == M(Dft(SizeRoot(w, logMax, 3), 8, Entries(View(old(a[..]), ix)), k))
  {
    hide M, Pow, Pow2, IsRoot, Table, DirectionRoot, SizeRoot, Constants, Kernel, Dft, View;
    var t0, t1, t2 := EightConstants(tw, inverse, maxSize, root, w, logMax);
    var x := Read(a, ix);
    var y := Ntt8(x, t0, t1, t2);
    Store(a, ix, y);
    FourthPower(tw, root, inverse, w, logMax);
    forall k | 0 <= k < 8 ensures y[k] == M(Dft(SizeRoot(w, logMax, 3), 8, Entries(x), k)) {
      KernelEntry(x, y[k], SizeRoot(w, logMax, 3), t0, t1, t2, k);
    }
  }

  lemma FourthPower(tw: seq<Zq>, root: int, inverse: bool, w: int, logMax: nat)
    requires Table(tw, root, logMax) && DirectionRoot(root, inverse, w) && 3 <= logMax
    ensures M(Pow(SizeRoot(w, logMax, 3), 4)) == M(-1)
  {
    hide Pow, SizeRoot;
    DirectionIsRoot(root, inverse, w, logMax);
    SizeRootIsRoot(w, logMax, 3);
    assert Pow2(2) == 4;
  }

  lemma KernelEntry(x: seq<Zq>, y: Zq, w: int, t0: int, t1: int, t2: int, k: nat)
    requires |x| == 8 && k < 8 && M(Pow(w, 4)) == M(-1) && Constants(w, t0, t1, t2)
    requires M(y) == M(Kernel(i => if 0 <= i < 8 then x[i] else 0, t0, t1, t2, k))
    ensures y == M(Dft(w, 8, Entries(x), k))
  {
    hide Kernel, Constants, Pow, Dft;
    var f: int -> int := i => if 0 <= i < 8 then x[i] else 0;
    KernelIsDft(f, w, t0, t1, t2, k);
    DftCong(w, 8, f, Entries(x), k);
  }

  method Read(a: array<Zq>, ix: seq<nat>) returns (x: seq<Zq>)
    requires Places(ix, a.Length)
    ensures x == View(a[..], ix)
  {
    x := [];
    for i := 0 to |ix|
      invariant |x| == i && forall k :: 0 <= k < i ==> x[k] == View(a[..], ix)[k]
    {
      x := x + [a[ix[i]]];
    }
  }

  method Store(a: array<Zq>, ix: seq<nat>, y: seq<Zq>)
    requires Places(ix, a.Length) && |y| == |ix|
    modifies a
    ensures SameOutside(a[..], old(a[..]), ix)
    ensures forall k :: 0 <= k < |ix| ==> View(a[..], ix)[k] == y[k]
  {
    for i := 0 to |ix|
      invariant SameOutside(a[..], old(a[..]), ix)
      invariant forall k :: 0 <= k < i ==> View(a[..], ix)[k] == y[k]
    {
      WriteOne(a, ix, i, y[i]);
    }
  }
}

module DitInPlace {
  import opened Residues
  import opened Products
  import opened Powers
  import opened PowersOfTwo
  import opened Roots
  import opened BitReversal
  import opened FourierTransform
  import opened Dit
  import opened Views
  import opened BitReverseInPlace
  import opened Twiddles
  import opened EightInPlace

  /** Places lo to hi hold stage t of the transform of y. */
  ghost predicate StageOn(v: seq<Zq>, w: int, l: nat, y: int -> int, t: nat, lo: nat, hi: nat)
    requires t <= l && hi <= |v|
  {
    forall p :: lo <= p < hi ==> v[p] == M(StageValue(w, l, y, t, p))
  }

  lemma StageJoin(v: seq<Zq>, w: int, l: nat, y: int -> int, t: nat, lo: nat, mid: nat, hi: nat)
    requires t <= l && lo <= mid <= hi <= |v|
    requires StageOn(v, w, l, y, t, lo, mid) && StageOn(v, w, l, y, t, mid, hi)
    ensures StageOn(v, w, l, y, t, lo, hi)
  {
    hide StageValue;
  }

  lemma PlaceOf(b: nat, h: nat, j: nat)
    requires j < h
    ensures (b * (2 * h) + j) / h * h == b * (2 * h) && (b * (2 * h) + j) % h == j
    ensures (b * (2 * h) + h + j) / h * h == b * (2 * h) + h && (b * (2 * h) + h + j) % h == j
    ensures (b * (2 * h) + j) / (2 * h) * (2 * h) == b * (2 * h) && (b * (2 * h) + j) % (2 * h) == j
    ensures (b * (2 * h) + h + j) / (2 * h) * (2 * h) == b * (2 * h) && (b * (2 * h) + h + j) % (2 * h) == h + j
  {
    Associate(b, 2, h);
    QuotientUnique(b * (2 * h) + j, h, b * 2, j);
    Distribute(h, b * 2 + 1, b * 2, 1);
    QuotientUnique(b * (2 * h) + h + j, h, b * 2 + 1, j);
    QuotientUnique(b * (2 * h) + j, 2 * h, b, j);
    QuotientUnique(b * (2 * h) + h + j, 2 * h, b, h + j);
  }

  /** A butterfly takes its two places from stage t to stage t+1. */
  lemma ButterflyStages(w: int, l: nat, y: int -> int, t: nat, b: nat, j: nat, u: int, v: int, r: int)
    requires t < l && IsRoot(w, l) && j < Pow2(t)
    requires M(u) == M(StageValue(w, l, y, t, b * (2 * Pow2(t)) + j))
    requires M(v) == M(StageValue(w, l, y, t, b * (2 * Pow2(t)) + Pow2(t) + j))
    requires M(r) == M(Pow(StageRoot(w, l, t + 1), j))
    ensures M(u + v * r) == M(StageValue(w, l, y, t + 1, b * (2 * Pow2(t)) + j))
    ensures M(u - v * r) == M(StageValue(w, l, y, t + 1, b * (2 * Pow2(t)) + Pow2(t) + j))
  {
    hide BlockValue, StageRoot, IsRoot, Pow;
    PlaceOf(b, Pow2(t), j);
    Butterfly(w, l, y, t, b * (2 * Pow2(t)), j, u, v, r);
  }

  /** j steps through the table are the j-th power of the stage's root. */
  lemma StageTwiddle(tw: seq<Zq>, root: int, logMax: nat, inverse: bool, w: int, l: nat, t: nat, j: nat)
    requires Table(tw, root, logMax) && DirectionRoot(root, inverse, w) && t < l <= logMax && j < Pow2(t)
    ensures j * (Pow2(l - t - 1) * Pow2(logMax - l)) < |tw|
    ensures M(Twiddle(tw, inverse, j * (Pow2(l - t - 1) * Pow2(logMax - l))))
         == M(Pow(StageRoot(SizeRoot(w, logMax, l), l, t + 1), j))
  {
    hide Pow;
    var a, c := Pow2(l - t - 1), Pow2(logMax - l);
    Pow2Add(t, l - t - 1);
    Pow2Add(l - 1, logMax - l);
    StepRange(j, Pow2(t), a * c);
    Associate(Pow2(t), a, c);
    TwiddlePower(tw, root, logMax, inverse, w, j * (a * c));
    PowMul(w, c, a);
    PowMul(w, c * a, j);
    assert j * (a * c) == (c * a) * j;
  }

  lemma StepRange(j: nat, h: nat, s: nat)
    requires j < h && s >= 1
    ensures 0 <= j * s < h * s
  {
    NonNegative(j, s);
    NonNegative(h - j - 1, s);
    Distribute(s, h, h - j - 1, j + 1);
    Distribute(s, j + 1, j, 1);
  }

  /** The first j butterflies of the block at i are done; v is otherwise as it was. */
  ghost predicate BlockState(v: seq<Zq>, was: seq<Zq>, w: int, l: nat, y: int -> int, t: nat, i: nat, h: nat, j: nat)
    requires t < l && i + 2 * h <= |v| == |was| && j <= h
  {
    && v[..i] == was[..i] && v[i + 2 * h..] == was[i + 2 * h..]
    && StageOn(v, w, l, y, t + 1, i, i + j) && StageOn(v, w, l, y, t + 1, i + h, i + h + j)
    && StageOn(v, w, l, y, t, i + j, i + h) && StageOn(v, w, l, y, t, i + h + j, i + 2 * h)
  }

  lemma StageAt(v: seq<Zq>, w: int, l: nat, y: int -> int, t: nat, lo: nat, hi: nat, p: nat)
    requires t <= l && hi <= |v| && StageOn(v, w, l, y, t, lo, hi) && lo <= p < hi
    ensures v[p] == M(StageValue(w, l, y, t, p))
  {}

  lemma StageKept(v: seq<Zq>, v': seq<Zq>, w: int, l: nat, y: int -> int, t: nat, lo: nat, hi: nat, lo': nat, hi': nat)
    requires t <= l && hi <= |v| == |v'| && StageOn(v, w, l, y, t, lo, hi) && lo <= lo' <= hi' <= hi
    requires v'[lo'..hi'] == v[lo'..hi']
    ensures StageOn(v', w, l, y, t, lo', hi')
  {
    hide StageValue, M;
    forall p | lo' <= p < hi' ensures v'[p] == M(StageValue(w, l, y, t, p)) {
      assert v'[p] == v'[lo'..hi'][p - lo'];
    }
  }

  lemma StageNext(v: seq<Zq>, v': seq<Zq>, w: int, l: nat, y: int -> int, t: nat, lo: nat, hi: nat)
    requires t <= l && lo <= hi < |v| == |v'| && StageOn(v, w, l, y, t, lo, hi) && v'[lo..hi] == v[lo..hi]
    requires v'[hi] == M(StageValue(w, l, y, t, hi))
    ensures StageOn(v', w, l, y, t, lo, hi + 1)
  {
    hide StageValue, M;
    StageKept(v, v', w, l, y, t, lo, hi, lo, hi);
  }

  /** The j-th butterfly advances the state. */
  lemma BlockStep(v: seq<Zq>, v': seq<Zq>, was: seq<Zq>, w: int, l: nat, y: int -> int, t: nat, i: nat, h: nat,
                  j: nat, x: Zq, z: Zq)
    requires t < l && i + 2 * h <= |v| == |was| && j < h && BlockState(v, was, w, l, y, t, i, h, j)
    requires v' == v[i + j := x][i + j + h := z]
    requires x == M(StageValue(w, l, y, t + 1, i + j)) && z == M(StageValue(w, l, y, t + 1, i + h + j))
    ensures BlockState(v', was, w, l, y, t, i, h, j + 1)
  {
    hide StageOn, StageValue, M;
    StageNext(v, v', w, l, y, t + 1, i, i + j);
    StageNext(v, v', w, l, y, t + 1, i + h, i + h + j);
    StageKept(v, v', w, l, y, t, i + j, i + h, i + j + 1, i + h);
    StageKept(v, v', w, l, y, t, i + h + j, i + 2 * h, i + h + j + 1, i + 2 * h);
  }

  /** The butterflies of one block. */
  method BlockPass(a: array<Zq>, ix: seq<nat>, tw: seq<Zq>, inverse: bool, halfLen: nat, i: nat, step: nat,
                   ghost root: int, ghost w: int, ghost logMax: nat, ghost l: nat, ghost t: nat, ghost b: nat,
                     ghost y: int -> int)
    requires Places(ix, a.Length) && |ix| == Pow2(l) && t < l <= logMax && halfLen == Pow2(t) && i == b * (2 * Pow2(t))
    requires i + 2 * halfLen <= |ix| && step == Pow2(l - t - 1) * Pow2(logMax - l)
    requires Table(tw, root, logMax) && DirectionRoot(root, inverse, w)
    requires StageOn(View(a[..], ix), SizeRoot(w, logMax, l), l, y, t, i, i + 2 * halfLen)
    modifies a
    ensures SameOutside(a[..], old(a[..]), ix)
    ensures BlockState(View(a[..], ix), View(old(a[..]), ix), SizeRoot(w, logMax, l), l, y, t, i, halfLen, halfLen)
  {
    hide IsRoot, StageOn, BlockState, StageValue, StageRoot, SizeRoot, Table, DirectionRoot, Pow, Pow2, View, M;
    ghost var wl, was := SizeRoot(w, logMax, l), View(a[..], ix);
    BlockStart(was, wl, l, y, t, i, halfLen);
    for j := 0 to halfLen
      invariant SameOutside(a[..], old(a[..]), ix)
      invariant BlockState(View(a[..], ix), was, wl, l, y, t, i, halfLen, j)
    {
      ghost var v := View(a[..], ix);
      BlockAt(v, was, wl, l, y, t, i, halfLen, j);
      ViewAt(a[..], ix, i + j);
      ViewAt(a[..], ix, i + j + halfLen);
      var x, z := OneButterfly(a[ix[i + j]], a[ix[i + j + halfLen]], tw, inverse, j, step, root, w, logMax, l, t, b, y);
      WritePair(a, ix, i + j, i + j + halfLen, x, z);
      BlockStep(v, View(a[..], ix), was, wl, l, y, t, i, halfLen, j, x, z);
    }
  }

  lemma BlockAt(v: seq<Zq>, was: seq<Zq>, w: int, l: nat, y: int -> int, t: nat, i: nat, h: nat, j: nat)
    requires t < l && i + 2 * h <= |v| == |was| && j < h && BlockState(v, was, w, l, y, t, i, h, j)
    ensures v[i + j] == M(StageValue(w, l, y, t, i + j)) && v[i + j + h] == M(StageValue(w, l, y, t, i + h + j))
  {
    hide StageOn, StageValue, M;
    StageAt(v, w, l, y, t, i + j, i + h, i + j);
    StageAt(v, w, l, y, t, i + h + j, i + 2 * h, i + h + j);
  }

  lemma BlockStart(v: seq<Zq>, w: int, l: nat, y: int -> int, t: nat, i: nat, h: nat)
    requires t < l && i + 2 * h <= |v| && StageOn(v, w, l, y, t, i, i + 2 * h)
    ensures BlockState(v, v, w, l, y, t, i, h, 0)
  {
    hide StageValue, M;
  }

  /** The two new values of one butterfly; the first one of a block needs no twiddle. */
  method OneButterfly(u: Zq, v0: Zq, tw: seq<Zq>, inverse: bool, j: nat, step: nat,
                      ghost root: int, ghost w: int, ghost logMax: nat, ghost l: nat, ghost t: nat, ghost b: nat,
                        ghost y: int -> int)
    returns (x: Zq, z: Zq)
    requires t < l <= logMax && j < Pow2(t) && step == Pow2(l - t - 1) * Pow2(logMax - l)
    requires Table(tw, root, logMax) && DirectionRoot(root, inverse, w)
    requires u == M(StageValue(SizeRoot(w, logMax, l), l, y, t, b * (2 * Pow2(t)) + j))
    requires v0 == M(StageValue(SizeRoot(w, logMax, l), l, y, t, b * (2 * Pow2(t)) + Pow2(t) + j))
    ensures x == M(StageValue(SizeRoot(w, logMax, l), l, y, t + 1, b * (2 * Pow2(t)) + j))
    ensures z == M(StageValue(SizeRoot(w, logMax, l), l, y, t + 1, b * (2 * Pow2(t)) + Pow2(t) + j))
  {
    hide IsRoot, StageValue, StageRoot, SizeRoot, Table, DirectionRoot, Pow, Pow2, M;
    ghost var wl := SizeRoot(w, logMax, l);
    SizeRootDirection(tw, root, inverse, w, logMax, l);
    var v: Zq := v0;
    ghost var r: Zq := 1;
    PowZero(StageRoot(wl, l, t + 1));
    if j != 0 {
      StageTwiddle(tw, root, logMax, inverse, w, l, t, j);
      r := Twiddle(tw, inverse, j * step);
      v := M(v * Twiddle(tw, inverse, j * step));
    }
    Reduced(v0, r, v, j);
    Canonical(u);
    Canonical(v0);
    ButterflyStages(wl, l, y, t, b, j, u, v0, r);
    Absorbed(u, v0, r, v);
    x, z := M(u + v), M(u - v);
  }

  lemma PowZero(x: int)
    ensures Pow(x, 0) == 1
  {}

  lemma Reduced(vm: int, r: int, v: Zq, j: nat)
    requires if j == 0 then r == 1 && v == vm else v == M(vm * r)
    ensures M(v) == M(vm * r)
    ensures M(M(vm)) == M(vm)
  {}

  lemma Absorbed(u: int, v: int, r: int, p: int)
    requires M(p) == M(v * r)
    ensures M(u + p) == M(u + v * r) && M(u - p) == M(u - v * r)
  {
    CongAdd(u, u, p, v * r);
    CongSub(u, u, p, v * r);
  }

  lemma SizeRootDirection(tw: seq<Zq>, root: int, inverse: bool, w: int, logMax: nat, l: nat)
    requires l <= logMax && Table(tw, root, logMax) && DirectionRoot(root, inverse, w)
    ensures IsRoot(SizeRoot(w, logMax, l), l)
  {
    hide SizeRoot, IsRoot;
    DirectionIsRoot(root, inverse, w, logMax);
    SizeRootIsRoot(w, logMax, l);
  }

  /** The blocks below i are at stage t+1, the others at stage t. */
  ghost predicate PassState(v: seq<Zq>, w: int, l: nat, y: int -> int, t: nat, i: nat)
    requires t < l && i <= |v|
  {
    StageOn(v, w, l, y, t + 1, 0, i) && StageOn(v, w, l, y, t, i, |v|)
  }

  lemma PassStep(v: seq<Zq>, v': seq<Zq>, w: int, l: nat, y: int -> int, t: nat, i: nat, h: nat)
    requires t < l && i + 2 * h <= |v| == |v'| && PassState(v, w, l, y, t, i) && BlockState(v', v, w, l, y, t, i, h, h)
    ensures PassState(v', w, l, y, t, i + 2 * h)
  {
    hide StageOn, StageValue, M;
    assert v'[0..i] == v[0..i] && v'[i + 2 * h..|v|] == v[i + 2 * h..|v|];
    StageKept(v, v', w, l, y, t + 1, 0, i, 0, i);
    StageJoin(v', w, l, y, t + 1, i, i + h, i + 2 * h);
    StageJoin(v', w, l, y, t + 1, 0, i, i + 2 * h);
    StageKept(v, v', w, l, y, t, i, |v|, i + 2 * h, |v|);
  }

  lemma BlockFits(l: nat, t: nat, b: nat)
    requires t < l && b * (2 * Pow2(t)) < Pow2(l)
    ensures b * (2 * Pow2(t)) + 2 * Pow2(t) <= Pow2(l)
    ensures b * (2 * Pow2(t)) + 2 * Pow2(t) == (b + 1) * (2 * Pow2(t))
  {
    hide Pow2;
    Pow2Step(t);
    Pow2Add(t + 1, l - t - 1);
    BlockBelow(b, Pow2(l - t - 1), Pow2(t + 1));
  }

  lemma BlockBelow(b: nat, c: nat, s: nat)
    requires b * s < s * c
    ensures b * s + s == (b + 1) * s <= s * c
  {
    Distribute(s, b + 1, b, 1);
    if b >= c {
      NonNegative(b - c, s);
      Distribute(s, b, b - c, c);
    } else {
      NonNegative(c - (b + 1), s);
      Distribute(s, c, c - (b + 1), b + 1);
    }
  }

  /** One pass over all blocks of length len. */
  method StagePass(a: array<Zq>, ix: seq<nat>, tw: seq<Zq>, inverse: bool, len: nat, step: nat,
                   ghost root: int, ghost w: int, ghost logMax: nat, ghost l: nat, ghost t: nat, ghost y: int -> int)
    requires Places(ix, a.Length) && |ix| == Pow2(l) && t < l <= logMax && len == 2 * Pow2(t)
    requires step == Pow2(l - t - 1) * Pow2(logMax - l)
    requires Table(tw, root, logMax) && DirectionRoot(root, inverse, w)
    requires StageOn(View(a[..], ix), SizeRoot(w, logMax, l), l, y, t, 0, |ix|)
    modifies a
    ensures SameOutside(a[..], old(a[..]), ix)
    ensures StageOn(View(a[..], ix), SizeRoot(w, logMax, l), l, y, t + 1, 0, |ix|)
  {
    hide IsRoot, StageOn, BlockState, StageValue, SizeRoot, Table, DirectionRoot, Pow, Pow2, View, M;
    ghost var wl := SizeRoot(w, logMax, l);
    var i := 0;
    ghost var b := 0;
    StageNone(View(a[..], ix), wl, l, y, t + 1);
    while i < |ix|
      invariant i == b * (2 * Pow2(t)) <= |ix|
      invariant SameOutside(a[..], old(a[..]), ix)
      invariant PassState(View(a[..], ix), wl, l, y, t, i)
    {
      BlockFits(l, t, b);
      ghost var v := View(a[..], ix);
      StageKept(v, v, wl, l, y, t, i, |ix|, i, i + len);
      BlockPass(a, ix, tw, inverse, len / 2, i, step, root, w, logMax, l, t, b, y);
      PassStep(v, View(a[..], ix), wl, l, y, t, i, len / 2);
      i := i + len;
      b := b + 1;
    }
  }

  lemma StageNone(v: seq<Zq>, w: int, l: nat, y: int -> int, t: nat)
    requires t <= l
    ensures StageOn(v, w, l, y, t, 0, 0)
  {
    hide StageValue;
  }

  lemma StepSize(l: nat, t: nat, logMax: nat)
    requires t < l <= logMax
    ensures Pow2(l) / (2 * Pow2(t)) == Pow2(l - t - 1)
    ensures Pow2(logMax) / Pow2(l) == Pow2(logMax - l)
  {
    hide Pow2;
    Pow2Step(t);
    Pow2Add(t + 1, l - t - 1);
    ExactQuotient(Pow2(t + 1), Pow2(l - t - 1));
    Pow2Add(l, logMax - l);
    ExactQuotient(Pow2(l), Pow2(logMax - l));
  }

  lemma ExactQuotient(d: int, c: int)
    requires d > 0
    ensures (d * c) / d == c
  {
    QuotientUnique(d * c, d, c, 0);
  }

  lemma FirstStageOn(v: seq<Zq>, w: int, l: nat)
    ensures StageOn(v, w, l, Entries(v), 0, 0, |v|)
  {
    hide StageValue;
    forall p | 0 <= p < |v| ensures v[p] == M(StageValue(w, l, Entries(v), 0, p)) {
      FirstStage(w, l, Entries(v), p);
      Canonical(v[p]);
    }
  }

  lemma LastStageOn(v: seq<Zq>, was: seq<Zq>, x: seq<Zq>, w: int, l: nat)
    requires |v| == |was| == |x| == Pow2(l) && StageOn(v, w, l, Entries(was), l, 0, |v|)
    requires forall p :: 0 <= p < |x| ==> was[p] == x[Rev(p, l)]
    ensures forall p :: 0 <= p < |v| ==> v[p] == M(Dft(w, Pow2(l), Entries(x), p))
  {
    hide StageValue, Rev, Dft;
    forall p | 0 <= p < |v| ensures v[p] == M(Dft(w, Pow2(l), Entries(x), p)) {
      LastStage(w, l, Entries(was), Entries(x), p);
    }
  }

  /** Butterflies over blocks of length 2, 4, ..., 2^l: the transform of what was reordered into the table. */
  method DitNtt(a: array<Zq>, ix: seq<nat>, tw: seq<Zq>, inverse: bool, l: nat, maxSize: nat,
                ghost root: int, ghost w: int, ghost logMax: nat)
    requires Places(ix, a.Length) && |ix| == Pow2(l) && l <= logMax && maxSize == Pow2(logMax)
    requires Table(tw, root, logMax) && DirectionRoot(root, inverse, w)
    modifies a
    ensures SameOutside(a[..], old(a[..]), ix)
    ensures StageOn(View(a[..], ix), SizeRoot(w, logMax, l), l, Entries(View(old(a[..]), ix)), l, 0, |ix|)
  {
    hide IsRoot, StageOn, StageValue, SizeRoot, Table, DirectionRoot, Pow, View, M;
    ghost var wl, y := SizeRoot(w, logMax, l), Entries(View(a[..], ix));
    FirstStageOn(View(a[..], ix), wl, l);
    var len := 2;
    ghost var t := 0;
    assert Pow2(0) == 1;
    while len <= |ix|
      invariant t <= l && len == 2 * Pow2(t)
      invariant SameOutside(a[..], old(a[..]), ix)
      invariant StageOn(View(a[..], ix), wl, l, y, t, 0, |ix|)
      decreases l - t
    {
      StageLeft(l, t);
      StepSize(l, t, logMax);
      StagePass(a, ix, tw, inverse, len, (|ix| / len) * (maxSize / |ix|), root, w, logMax, l, t, y);
      len := len * 2;
      t := t + 1;
    }
    StagesDone(l, t);
  }

  lemma StageLeft(l: nat, t: nat)
    requires t <= l && 2 * Pow2(t) <= Pow2(l)
    ensures t < l
  {}

  lemma StagesDone(l: nat, t: nat)
    requires t <= l && 2 * Pow2(t) > Pow2(l)
    ensures t == l
  {
    if t < l { Pow2Monotone(t + 1, l); }
  }

  lemma Pow2Monotone(a: nat, b: nat)
    requires a <= b
    ensures Pow2(a) <= Pow2(b)
  {
    if a < b { Pow2Monotone(a, b - 1); }
  }

  /** The kernel of a sub-transform: straight-line for length eight, otherwise reordering followed by
      the butterflies. Either way the plain transform, on the table and nowhere else. */
  method TransformInPlace(a: array<Zq>, ix: seq<nat>, tw: seq<Zq>, inverse: bool, l: nat, maxSize: nat,
                          ghost root: int, ghost w: int, ghost logMax: nat)
    requires Places(ix, a.Length) && |ix| == Pow2(l) && l <= logMax && maxSize == Pow2(logMax)
    requires Table(tw, root, logMax) && DirectionRoot(root, inverse, w)
    modifies a
    ensures SameOutside(a[..], old(a[..]), ix)
    ensures forall k :: 0 <= k < |ix| ==>
      View(a[..], ix)[k] == M(Dft(SizeRoot(w, logMax, l), Pow2(l), Entries(View(old(a[..]), ix)), k))
  {
    hide IsRoot, StageOn, StageValue, SizeRoot, Table, DirectionRoot, Pow, Pow2, View, M, Dft, Rev, SameOutside,
      Entries;
    if l == 3 {
      Eighth(logMax);
      Ntt8InPlace(a, ix, tw, inverse, maxSize, root, w, logMax);
    } else {
      ghost var x := View(a[..], ix);
      ReorderByBitReverse(a, ix, l);
      ghost var mid, y := a[..], View(a[..], ix);
      DitNtt(a, ix, tw, inverse, l, maxSize, root, w, logMax);
      SameTransitive(a[..], mid, old(a[..]), ix);
      LastStageOn(View(a[..], ix), y, x, SizeRoot(w, logMax, l), l);
    }
  }
}
