/** The infinity-norm check on digits, as the verifier applies it. */
module NormBounds {
  import Packing
  import Powers
  import opened Residues
  import opened Products
  import opened Arrays
  import opened BalancedDigits
  import opened Polynomials
  import opened Vectors
  import opened Constraints
  import opened DigitVectors
  import opened Parameters
  import opened BaseChecks
  import opened NormMerge

  function AbsCentered(x: Zq): nat {
    if x > Q / 2 then Q - x else x
  }

  /** Every coefficient is below the bound in magnitude. */
  ghost predicate Below(v: seq<Poly>, bound: nat) {
    forall i, k :: 0 <= i < |v| && 0 <= k < D ==> AbsCentered(Slot(v, i, k)) < bound
  }

  /** The strict bound that goes with a base. */
  function NormLimit(base: nat): nat {
    (base + 1) / 2 + 1
  }

  /** The verifier's bounds: h is held against base2 and g against base3. */
  ghost predicate SmallDigits(p: Param, pf: Proof) {
    Below(pf.t, NormLimit(p.base1)) && Below(pf.h, NormLimit(p.base2)) && Below(pf.g, NormLimit(p.base3))
  }

  /** Digits of g fit the bound of base3 and digits of h that of base2. */
  predicate SwappedBasesFit(p: Param) {
    p.base2 / 2 < NormLimit(p.base3) && p.base3 / 2 < NormLimit(p.base2)
  }

  predicate SmallBases(p: Param) {
    p.base1 < 0x1_0000_0000 && p.base2 < 0x1_0000_0000 && p.base3 < 0x1_0000_0000
  }

  lemma StoredMagnitude(d: int, b: nat)
    requires b < 0x1_0000_0000 && 0 - b <= 2 * d <= b
    ensures AbsCentered(M(d)) == if d < 0 then -d else d
  {}

  /** Every entry is below the bound in magnitude. */
  ghost predicate EntriesBelow(input: seq<Zq>, bound: nat) {
    forall i :: 0 <= i < |input| ==> AbsCentered(input[i]) < bound
  }

  function Largest(input: seq<Zq>): (m: nat)
    ensures |input| >= 1 ==> exists i :: 0 <= i < |input| && AbsCentered(input[i]) == m
    ensures forall i :: 0 <= i < |input| ==> AbsCentered(input[i]) <= m
  {
    if |input| == 0 then 0
    else
      var before, x := Largest(input[..|input| - 1]), AbsCentered(input[|input| - 1]);
      if before > x then before else x
  }

  /** The workers' own maxima: one for every task of the given size. */
  function LocalMaxima(input: seq<Zq>, task: nat): (locals: seq<nat>)
    requires task >= 1
    ensures |locals| >= 1 && (|input| <= task ==> |locals| == 1)
  {
    if |input| <= task then [Largest(input)] else [Largest(input[..task])] + LocalMaxima(input[task..], task)
  }

  /** All entries are below a bound exactly when all workers' maxima are. */
  lemma {:induction false} LocalsBelow(input: seq<Zq>, task: nat, bound: nat)
    requires task >= 1 && |input| >= 1
    ensures AllBelow(LocalMaxima(input, task), bound) <==> EntriesBelow(input, bound)
  {
    hide AllBelow, EntriesBelow, Largest;
    if |input| <= task {
      LargestBelow(input, bound);
      NoneBelow(bound);
      ConsBelow(Largest(input), [], bound);
      assert [Largest(input)] + [] == [Largest(input)];
    } else {
      LargestBelow(input[..task], bound);
      LocalsBelow(input[task..], task, bound);
      ConsBelow(Largest(input[..task]), LocalMaxima(input[task..], task), bound);
      assert input == input[..task] + input[task..];
      SplitBelow(input[..task], input[task..], bound);
    }
  }

  lemma NoneBelow(bound: nat)
    ensures AllBelow([], bound)
  {}

  lemma ConsBelow(x: nat, rest: seq<nat>, bound: nat)
    ensures AllBelow([x] + rest, bound) <==> x < bound && AllBelow(rest, bound)
  {
    if AllBelow([x] + rest, bound) {
      forall w | 0 <= w < |rest| ensures rest[w] < bound { assert ([x] + rest)[w + 1] == rest[w]; }
      assert ([x] + rest)[0] == x;
    }
  }

  lemma LargestBelow(input: seq<Zq>, bound: nat)
    requires |input| >= 1
    ensures Largest(input) < bound <==> EntriesBelow(input, bound)
  {
    hide AbsCentered;
  }

  lemma SplitBelow(a: seq<Zq>, b: seq<Zq>, bound: nat)
    ensures EntriesBelow(a + b, bound) <==> EntriesBelow(a, bound) && EntriesBelow(b, bound)
  {
    hide AbsCentered;
    if EntriesBelow(a + b, bound) {
      forall i | 0 <= i < |a| ensures AbsCentered(a[i]) < bound { assert (a + b)[i] == a[i]; }
      forall i | 0 <= i < |b| ensures AbsCentered(b[i]) < bound { assert (a + b)[|a| + i] == b[i]; }
    }
  }

  /** A worker's pass over its task. */
  method LocalMaximum(input: seq<Zq>, start: nat, end: nat) returns (largest: nat)
    requires start < end <= |input|
    ensures largest == Largest(input[start..end])
  {
    hide AbsCentered;
    largest := 0;
    for idx := start to end
      invariant largest == Largest(input[start..idx])
    {
      assert input[start..idx + 1][..idx - start] == input[start..idx];
      if AbsCentered(input[idx]) > largest { largest := AbsCentered(input[idx]); }
    }
  }

  lemma TaskStep(input: seq<Zq>, task: nat, start: nat, end: nat)
    requires task >= 1 && start < |input| && end == if start + task < |input| then start + task else |input|
    ensures LocalMaxima(input[start..], task)
         == [Largest(input[start..end])] + if end < |input| then LocalMaxima(input[end..], task) else []
  {
    hide Largest;
    if end == |input| {
      assert input[start..end] == input[start..];
    } else {
      assert input[start..end] == input[start..][..task] && input[end..] == input[start..][task..];
    }
  }

  /** Every worker's pass. */
  method AllMaxima(input: seq<Zq>, task: nat) returns (locals: seq<nat>)
    requires |input| >= 1 && task >= 1
    ensures locals == LocalMaxima(input, task)
  {
    hide Largest, LocalMaxima;
    var size := |input|;
    locals := [];
    var start := 0;
    assert input[0..] == input;
    while start < size
      invariant start >= size ==> locals == LocalMaxima(input, task)
      invariant start < size ==> locals + LocalMaxima(input[start..], task) == LocalMaxima(input, task)
    {
      var end := if start + task < size then start + task else size;
      var largest := LocalMaximum(input, start, end);
      TaskStep(input, task, start, end);
      locals := locals + [largest];
      start := start + task;
    }
  }

  /** The workers' maxima, merged: entries below the bound are always accepted, a single worker is exact, and with more
      workers the verdict is that of some schedule of their exchanges. */
  method CheckInfinity(input: seq<Zq>, bound: nat, th: Threads) returns (ok: bool)
    requires |input| > 0 && th.nofWorkers >= 1
    ensures EntriesBelow(input, bound) ==> ok
    ensures th.Single() ==> (ok <==> EntriesBelow(input, bound))
    ensures TaskSize(|input|, th.nofWorkers) >= 1
    ensures SomeVerdict(LocalMaxima(input, TaskSize(|input|, th.nofWorkers)), bound, th, ok)
  {
    hide AbsCentered, SomeVerdict, AllBelow, EntriesBelow, Largest;
    var task := TaskSize(|input|, th.nofWorkers);
    TaskPositive(|input|, th.nofWorkers);
    var locals := AllMaxima(input, task);
    var largest := MergeMaxima(locals, th, bound);
    ok := largest < bound;
    VerdictMeans(locals, bound, th, ok);
    LocalsBelow(input, task, bound);
  }

  function TaskSize(size: nat, nofWorkers: nat): nat
    requires nofWorkers >= 1
  {
    (size + nofWorkers - 1) / nofWorkers
  }

  lemma TaskPositive(size: nat, nofWorkers: nat)
    requires size >= 1 && nofWorkers >= 1
    ensures TaskSize(size, nofWorkers) >= 1 && TaskSize(size, 1) == size
  {}

  lemma DigitMagnitude(v: seq<Poly>, base: nat, l: nat, j: nat, x: nat, k: nat)
    requires 2 <= base < 0x1_0000_0000 && j < l && x < |v| && k < D
    ensures AbsCentered(Slot(DecomposeVec(v, base, l), j * |v| + x, k)) <= base / 2
  {
    hide DecomposeVec, Slot, Rest, M, AbsCentered;
    DecomposeSlot(v, base, l, j, x, k);
    var r := Rest(Centered(Slot(v, x, k), Q, base), base, j);
    DigitCarry(r, base);
    StoredMagnitude(Digit(r, base), base);
  }

  /** Digits pass every bound above half the base. */
  lemma DigitsBelow(v: seq<Poly>, base: nat, l: nat, bound: nat)
    requires 2 <= base < 0x1_0000_0000 && base / 2 < bound
    ensures Below(DecomposeVec(v, base, l), bound)
  {
    hide DecomposeVec, Slot, AbsCentered;
    var d := DecomposeVec(v, base, l);
    forall i, k | 0 <= i < |d| && 0 <= k < D ensures AbsCentered(Slot(d, i, k)) < bound {
      var j, x := Packing.Split(i, l, |v|);
      DigitMagnitude(v, base, l, j, x, k);
    }
  }

  /** And no smaller bound: half the base is a digit. */
  lemma DigitsReach(base: nat, l: nat, bound: nat)
    requires 2 <= base < 0x1_0000_0000 && l >= 1 && bound <= base / 2
    ensures !Below(DecomposeVec([Tabulate(k => base / 2)], base, l), bound)
  {
    hide DecomposeVec, AbsCentered, M, Slot, Rest;
    var v := [Tabulate(k => base / 2)];
    HalfSlot(base);
    HalfDigit(base);
    DecomposeSlot(v, base, l, 0, 0, 0);
    StoredMagnitude(base / 2, base);
    assert AbsCentered(Slot(DecomposeVec(v, base, l), 0 * 1 + 0, 0)) == base / 2;
  }

  lemma HalfSlot(base: nat)
    requires base < 0x1_0000_0000
    ensures Slot([Tabulate(k => base / 2)], 0, 0) == base / 2
  {}

  lemma HalfDigit(base: nat)
    requires 2 <= base < 0x1_0000_0000
    ensures Digit(Rest(Centered(base / 2, Q, base), base, 0), base) == base / 2
  {
    assert Rest(base / 2, base, 0) == base / 2;
    assert (base / 2) % base == base / 2;
  }

  /** Whatever is decomposed, its digits pass the bound exactly when half the base does. */
  lemma DigitsAlwaysBelow(base: nat, l: nat, bound: nat)
    requires 2 <= base < 0x1_0000_0000 && l >= 1
    ensures (forall v :: Below(DecomposeVec(v, base, l), bound)) <==> base / 2 < bound
  {
    hide DecomposeVec, Below;
    if base / 2 < bound {
      forall v ensures Below(DecomposeVec(v, base, l), bound) {
        DigitsBelow(v, base, l, bound);
      }
    } else {
      DigitsReach(base, l, bound);
      assert !Below(DecomposeVec([Tabulate(k => base / 2)], base, l), bound);
    }
  }

  /** x is the residue of an integer of at most the given magnitude. */
  ghost predicate OfMagnitude(x: Zq, bound: nat) {
    exists d: int :: 0 - bound <= d <= bound && M(d) == x
  }

  /** The strict bound of a base accepts the magnitudes up to half the base, rounded up, and no others. */
  lemma BelowLimit(v: seq<Poly>, base: nat)
    ensures Below(v, NormLimit(base))
       <==> forall i, k :: 0 <= i < |v| && 0 <= k < D ==> OfMagnitude(Slot(v, i, k), (base + 1) / 2)
  {
    hide Slot, AbsCentered, OfMagnitude;
    forall i, k | 0 <= i < |v| && 0 <= k < D
      ensures AbsCentered(Slot(v, i, k)) < NormLimit(base) <==> OfMagnitude(Slot(v, i, k), (base + 1) / 2)
    {
      MagnitudeIs(Slot(v, i, k), (base + 1) / 2);
    }
  }

  lemma MagnitudeIs(x: Zq, bound: nat)
    ensures AbsCentered(x) <= bound <==> OfMagnitude(x, bound)
  {
    var c: int := if x > Q / 2 then x - Q else x;
    assert M(c) == x;
    if AbsCentered(x) <= bound {
      assert 0 - bound <= c <= bound;
    }
    if OfMagnitude(x, bound) {
      var d :| 0 - bound <= d <= bound && M(d) == x;
      Nearest(d, x);
    }
  }

  /** The centered representative is the one of least magnitude. */
  lemma Nearest(d: int, x: Zq)
    requires M(d) == x
    ensures AbsCentered(x) <= if d < 0 then -d else d
  {
    if -Q < d < Q {
      assert d == x || d == x - Q;
    }
  }

  lemma OwnBound(base: nat)
    ensures base / 2 < NormLimit(base)
  {}

  /** Digits of anything pass the verifier's bounds, with those of g and h swapped, exactly when
      the bases fit each other; equal bases do. */
  lemma SwappedBounds(p: Param)
    requires p.Bases() && SmallBases(p)
    ensures (&& (forall v :: Below(DecomposeVec(v, p.base1, Digits(p.base1)), NormLimit(p.base1)))
             && (forall v :: Below(DecomposeVec(v, p.base2, Digits(p.base2)), NormLimit(p.base3)))
             && (forall v :: Below(DecomposeVec(v, p.base3, Digits(p.base3)), NormLimit(p.base2))))
       <==> SwappedBasesFit(p)
    ensures p.base2 == p.base3 ==> SwappedBasesFit(p)
  {
    hide DecomposeVec, Below, Digits;
    DigitsPositive(p.base1);
    DigitsPositive(p.base2);
    DigitsPositive(p.base3);
    OwnBound(p.base1);
    DigitsAlwaysBelow(p.base1, Digits(p.base1), NormLimit(p.base1));
    DigitsAlwaysBelow(p.base2, Digits(p.base2), NormLimit(p.base3));
    DigitsAlwaysBelow(p.base3, Digits(p.base3), NormLimit(p.base2));
  }

  lemma DigitsPositive(base: nat)
    requires base >= 2
    ensures Digits(base) >= 1
  {
    assert Powers.Pow(base, 0) == 1;
  }
}
