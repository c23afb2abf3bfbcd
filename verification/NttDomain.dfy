/** The domain of roots that all transforms share. */
module NttDomains {
  import opened Residues
  import opened Products
  import opened Powers
  import opened PowersOfTwo
  import opened Roots
  import opened RingRoots
  import opened Twiddles

  /** A root of order 2^k is not one before its last squaring. */
  lemma NotYetOne(root: int, k: nat, j: nat)
    requires IsRoot(root, k) && 1 <= j < k
    ensures M(Pow(root, Pow2(j))) != 1
  {
    hide Pow, Pow2;
    PowMul(root, Pow2(j), Pow2(k - 1 - j));
    Pow2Add(j, k - 1 - j);
    PowOne(Pow2(k - 1 - j));
    if M(Pow(root, Pow2(j))) == 1 {
      PowCong(Pow(root, Pow2(j)), 1, Pow2(k - 1 - j));
    }
  }

  lemma SquaredPower(root: int, j: nat, x: Zq)
    requires M(x) == M(Pow(root, Pow2(j)))
    ensures M(x * x) == M(Pow(root, Pow2(j + 1)))
  {
    hide Pow;
    PowAdd(root, Pow2(j), Pow2(j));
    CongMul(x, Pow(root, Pow2(j)), x, Pow(root, Pow2(j)));
  }

  /** An exponent below the order that gives one is zero. */
  lemma OrderExact(root: int, k: nat, e: nat)
    requires IsRoot(root, k) && 0 < e < Pow2(k)
    ensures M(Pow(root, e)) != 1
    decreases k
  {
    hide Pow;
    if e % 2 == 0 {
      PowSquare(root, e / 2);
      RootSquare(root, k);
      OrderExact(root * root, k - 1, e / 2);
    } else {
      OddExponent(root, k, e);
    }
  }

  lemma OddExponent(root: int, k: nat, e: nat)
    requires k >= 1 && IsRoot(root, k) && e % 2 == 1
    ensures M(Pow(root, e)) != 1
  {
    hide Pow;
    var h := Pow2(k - 1);
    HalfPower(root, k, e);
    PowMul(root, e, h);
    PowOne(h);
    assert h * e == e * h;
    if M(Pow(root, e)) == 1 {
      PowCong(Pow(root, e), 1, h);
    }
  }

  /** The powers from 1 to the order are all different. */
  lemma PowersDistinct(root: int, k: nat, i: nat, j: nat)
    requires IsRoot(root, k) && 1 <= i < j <= Pow2(k)
    ensures M(Pow(root, i)) != M(Pow(root, j))
  {
    hide Pow, IsRoot;
    if M(Pow(root, i)) == M(Pow(root, j)) {
      var n := Pow2(k);
      PowAdd(root, i, n - i);
      PowAdd(root, j, n - i);
      RootFull(root, k);
      PowAdd(root, n, j - i);
      CongMul(Pow(root, i), Pow(root, j), Pow(root, n - i), Pow(root, n - i));
      CongMul(Pow(root, n), 1, Pow(root, j - i), Pow(root, j - i));
      OrderExact(root, k, j - i);
      assert false;
    }
  }

  /** Squaring j times gives one. */
  ghost predicate OneAfter(root: int, j: nat) {
    M(Pow(root, Pow2(j))) == 1
  }

  /** One is reached for the first time after k squarings, k being at least one. */
  ghost predicate FirstOne(root: int, k: nat) {
    k >= 1 && OneAfter(root, k) && forall j :: 1 <= j < k ==> !OneAfter(root, j)
  }

  /** The root is accepted: one is reached within the squarings that the loop makes. */
  ghost predicate ReachesOne(root: int) {
    exists k :: 1 <= k <= OMEGAS_COUNT && OneAfter(root, k)
  }

  /** The map gives the exponents from 1 to n of the root's powers. */
  ghost predicate IndexedTo(cosetIndex: map<Zq, nat>, root: int, n: nat) {
    forall i :: 1 <= i <= n ==> M(Pow(root, i)) in cosetIndex && cosetIndex[M(Pow(root, i))] == i
  }

  /** The map gives the exponent of every power of the root. */
  ghost predicate Indexed(cosetIndex: map<Zq, nat>, root: int, logMax: nat) {
    IndexedTo(cosetIndex, root, Pow2(logMax))
  }

  /** The powers from 1 to n are all different. */
  ghost predicate Distinct(root: int, n: nat) {
    forall i, j :: 1 <= i < j <= n ==> M(Pow(root, i)) != M(Pow(root, j))
  }

  lemma OneMoreIndexed(cosetIndex: map<Zq, nat>, root: int, n: nat, i: nat)
    requires Distinct(root, n) && 1 <= i <= n && IndexedTo(cosetIndex, root, i - 1)
    ensures IndexedTo(cosetIndex[M(Pow(root, i)) := i], root, i)
  {
    hide M, Pow;
  }

  /** All twiddles that a transform of size 2^l reads from the table are one. */
  ghost predicate OnesFor(tw: seq<Zq>, logMax: nat, l: nat) {
    l <= logMax && forall i :: 0 <= i < |tw| && i % Pow2(logMax - l) == 0 ==> tw[i] == 1
  }

  class CpuNttDomain {
    var maxSize: nat
    var maxLogSize: nat
    var twiddles: seq<Zq>
    var cosetIndex: map<Zq, nat>

    constructor ()
      ensures maxSize == 0 && maxLogSize == 0 && twiddles == [] && cosetIndex == map[]
    {
      maxSize, maxLogSize, twiddles, cosetIndex := 0, 0, [], map[];
    }

    /** The domain of a root of order 2^k. */
    ghost predicate Ready(root: int, k: nat)
      reads this
    {
      maxLogSize == k && maxSize == Pow2(k) && Table(twiddles, root, k) && Indexed(cosetIndex, root, k)
    }

    /** The domain is set up once: later calls change nothing. The squarings made are added to the stored log size
        whether or not one is reached, so that an earlier failed call shows in it. */
    method Init(root: Zq) returns (ok: bool)
      modifies this
      ensures old(twiddles) != [] ==> ok && unchanged(this)
      ensures old(twiddles) == [] ==> (ok <==> ReachesOne(root)) && maxSize == Pow2(maxLogSize)
      ensures !ok ==> maxLogSize == old(maxLogSize) + OMEGAS_COUNT && twiddles == [] && cosetIndex == old(cosetIndex)
      ensures old(twiddles) == [] && ok ==>
        && old(maxLogSize) < maxLogSize && FirstOne(root, maxLogSize - old(maxLogSize))
        && |twiddles| == maxSize + 1 && forall i :: 0 <= i <= maxSize ==> twiddles[i] == M(Pow(root, i))
      ensures old(twiddles) == [] && ok ==>
        (Table(twiddles, root, maxLogSize) <==> old(maxLogSize) == 0 && IsRoot(root, maxLogSize))
      ensures old(twiddles) == [] && ok && IsRoot(root, maxLogSize) ==> Indexed(cosetIndex, root, maxLogSize)
    {
      hide Pow, Pow2, IsRoot, OneAfter, FirstOne, ReachesOne;
      if twiddles != [] { return true; }
      var omega := CountSquarings(root);
      maxSize := Pow2(maxLogSize);
      if omega != 1 { return false; }
      FillTable(root);
      TableIff(twiddles, root, old(maxLogSize), maxLogSize);
      if IsRoot(root, maxLogSize) {
        forall i, j | 1 <= i < j <= maxSize ensures M(Pow(root, i)) != M(Pow(root, j)) {
          PowersDistinct(root, maxLogSize, i, j);
        }
      }
      return true;
    }

    /** Squares until one is reached, counting in the stored log size. */
    method CountSquarings(root: Zq) returns (omega: Zq)
      modifies this`maxLogSize
      ensures omega == 1 <==> ReachesOne(root)
      ensures omega == 1 ==> old(maxLogSize) < maxLogSize && FirstOne(root, maxLogSize - old(maxLogSize))
      ensures omega != 1 ==> maxLogSize == old(maxLogSize) + OMEGAS_COUNT
    {
      hide Pow, Pow2;
      omega := root;
      var i := 0;
      FirstPower(root);
      while i < OMEGAS_COUNT
        invariant 0 <= i <= OMEGAS_COUNT && maxLogSize == old(maxLogSize) + i
        invariant omega == M(Pow(root, Pow2(i)))
        invariant forall j :: 1 <= j <= i ==> !OneAfter(root, j)
      {
        SquaredPower(root, i, omega);
        omega := M(omega * omega);
        maxLogSize := maxLogSize + 1;
        i := i + 1;
        if omega == 1 {
          assert OneAfter(root, i);
          return;
        }
      }
      assert OneAfter(root, OMEGAS_COUNT) <==> omega == 1;
    }

    /** Powers of the root up to the full size, and their indices. */
    method FillTable(root: Zq)
      modifies this`twiddles, this`cosetIndex
      ensures |twiddles| == maxSize + 1 && forall i :: 0 <= i <= maxSize ==> twiddles[i] == M(Pow(root, i))
      ensures Distinct(root, maxSize) ==> IndexedTo(cosetIndex, root, maxSize)
    {
      hide M, Pow, Distinct, IndexedTo;
      var temp: seq<Zq> := [1];
      OneIsOne();
      NothingIndexed(cosetIndex, root);
      for i := 1 to maxSize + 1
        invariant |temp| == i && twiddles == old(twiddles) && maxSize == old(maxSize)
        invariant forall j :: 0 <= j < i ==> temp[j] == M(Pow(root, j))
        invariant Distinct(root, maxSize) ==> IndexedTo(cosetIndex, root, i - 1)
      {
        NextPower(root, i, temp[i - 1]);
        if Distinct(root, maxSize) { OneMoreIndexed(cosetIndex, root, maxSize, i); }
        temp := temp + [M(temp[i - 1] * root)];
        cosetIndex := cosetIndex[temp[i] := i];
      }
      twiddles := temp;
    }

    /** Releasing brings the domain back to where it started. */
    method Release()
      modifies this
      ensures maxSize == 0 && maxLogSize == 0 && twiddles == [] && cosetIndex == map[]
    {
      twiddles, maxSize, maxLogSize, cosetIndex := [], 0, 0, map[];
    }

    /** After one call with an element that is no root of unity, a call with a proper root succeeds and leaves a table
        that is not the root's: every transform up to 2^OMEGAS_COUNT then multiplies by ones only. Releasing the
        domain in between repairs it. */
    static method FailedThenInit(wrong: Zq, root: Zq, k: nat, release: bool) returns (d: CpuNttDomain)
      requires !ReachesOne(wrong) && 1 <= k <= OMEGAS_COUNT && IsRoot(root, k)
      ensures fresh(d) && d.twiddles != []
      ensures release ==> d.Ready(root, k)
      ensures !release ==> d.maxLogSize == OMEGAS_COUNT + k && !Table(d.twiddles, root, d.maxLogSize)
      ensures !release ==> forall l: nat :: l <= OMEGAS_COUNT ==> OnesFor(d.twiddles, d.maxLogSize, l)
    {
      hide Pow, Pow2, IsRoot, OneAfter, FirstOne, ReachesOne, Table, OnesFor, Indexed;
      d := new CpuNttDomain();
      var ok := d.Init(wrong);
      if release { d.Release(); }
      label Second:
      ok := d.Init(root);
      RootOrder(root, k);
      if ok {
        OneOrder(root, k, d.maxLogSize - old@Second(d.maxLogSize));
        if !release {
          forall l: nat | l <= OMEGAS_COUNT ensures OnesFor(d.twiddles, d.maxLogSize, l) {
            OnesOnly(d.twiddles, root, k, l);
          }
        }
      }
    }
  }

  /** The table is the root's exactly when the count started at zero and the root is a proper one of that order. */
  lemma TableIff(tw: seq<Zq>, root: Zq, before: nat, after: nat)
    requires before < after && FirstOne(root, after - before)
    requires |tw| == Pow2(after) + 1 && forall i :: 0 <= i <= Pow2(after) ==> tw[i] == M(Pow(root, i))
    ensures Table(tw, root, after) <==> before == 0 && IsRoot(root, after)
  {
    hide Pow, Pow2;
    if before > 0 { LargerOrder(root, after - before, after); }
  }

  /** A root of order 2^k reaches one after k squarings and not before. */
  lemma RootOrder(root: Zq, k: nat)
    requires 1 <= k <= OMEGAS_COUNT && IsRoot(root, k)
    ensures FirstOne(root, k) && ReachesOne(root)
  {
    hide Pow, Pow2, IsRoot;
    RootFull(root, k);
    forall j | 1 <= j < k ensures !OneAfter(root, j) { NotYetOne(root, k, j); }
    assert OneAfter(root, k);
  }

  lemma OneOrder(root: Zq, k: nat, l: nat)
    requires FirstOne(root, k) && FirstOne(root, l)
    ensures k == l
  {}

  lemma OnesOnly(tw: seq<Zq>, root: int, k: nat, l: nat)
    requires l <= OMEGAS_COUNT && IsRoot(root, k)
    requires forall i :: 0 <= i < |tw| ==> tw[i] == M(Pow(root, i))
    ensures OnesFor(tw, OMEGAS_COUNT + k, l)
  {
    hide Pow, Pow2, IsRoot;
    var s := OMEGAS_COUNT - l;
    assert k + s == OMEGAS_COUNT + k - l;
    Pow2Add(k, s);
    forall i | 0 <= i < |tw| && i % Pow2(k + s) == 0 ensures tw[i] == 1 {
      FullTurns(root, k, Pow2(s), i / Pow2(k + s), i);
    }
  }

  lemma FullTurns(root: int, k: nat, s: nat, n: nat, i: nat)
    requires IsRoot(root, k) && i == (Pow2(k) * s) * n
    ensures M(Pow(root, i)) == 1
  {
    hide Pow, Pow2, IsRoot;
    Associate(Pow2(k), s, n);
    NonNegative(s, n);
    RootFull(root, k);
    PowMul(root, Pow2(k), s * n);
    PowCong(Pow(root, Pow2(k)), 1, s * n);
    PowOne(s * n);
  }

  /** Zero is such an element: its powers never reach one. */
  lemma ZeroNeverOne()
    ensures !ReachesOne(0)
  {
    hide Pow2;
    forall k | 1 <= k <= OMEGAS_COUNT ensures !OneAfter(0, k) {
      assert Pow(0, Pow2(k)) == 0 * Pow(0, Pow2(k) - 1);
    }
  }

  lemma NothingIndexed(cosetIndex: map<Zq, nat>, root: int)
    ensures IndexedTo(cosetIndex, root, 0)
  {}

  lemma FirstPower(root: Zq)
    ensures M(Pow(root, Pow2(0))) == root
  {
    assert Pow(root, 1) == root * Pow(root, 0);
  }

  lemma OneIsOne()
    ensures forall x :: M(Pow(x, 0)) == 1
  {}

  lemma NextPower(root: Zq, i: nat, x: Zq)
    requires i >= 1 && x == M(Pow(root, i - 1))
    ensures M(x * root) == M(Pow(root, i))
  {
    CongMul(x, Pow(root, i - 1), root, root);
    assert Pow(root, i) == root * Pow(root, i - 1);
  }

  /** An element that reaches one after k squarings is no root of a larger order. */
  lemma LargerOrder(root: int, k: nat, l: nat)
    requires OneAfter(root, k) && k < l
    ensures !IsRoot(root, l)
  {
    hide Pow;
    PowMul(root, Pow2(k), Pow2(l - 1 - k));
    Pow2Add(k, l - 1 - k);
    PowCong(Pow(root, Pow2(k)), 1, Pow2(l - 1 - k));
    PowOne(Pow2(l - 1 - k));
  }
}
