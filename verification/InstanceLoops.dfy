/** Running sums of scaled vectors, as the aggregation loops build them. */
module RunningSums {
  import opened Residues
  import opened Products
  import opened Sums
  import opened Arrays
  import opened Polynomials
  import opened Vectors
  import opened Constraints

  /** A polynomial times every entry: the product of a 1 x 1 and a 1 x len matrix. */
  function TimesVector(w: Poly, v: seq<Poly>): (r: seq<Poly>)
    ensures |r| == |v|
  {
    Matmul([w], 1, 1, v, |v|)
  }

  lemma TimesSlot(w: Poly, v: seq<Poly>, x: nat, k: nat)
    requires x < |v| && k < D
    ensures Slot(TimesVector(w, v), x, k) == M(At(w, k) * Slot(v, x, k))
  {
    hide Sum, Matmul, Slot;
    MatmulSlot([w], 1, 1, v, |v|, 0, x, k);
    var f := l => Slot([w], 0 * 1 + l, k) * Slot(v, l * |v| + x, k);
    SumStep(1, f);
    SumStep(0, f);
    assert Slot([w], 0, k) == At(w, k) by { FirstSlot(w, k); }
    assert f(0) == Slot([w], 0, k) * Slot(v, x, k);
  }

  lemma FirstSlot(w: Poly, k: int)
    ensures Slot([w], 0, k) == At(w, k)
  {}

  lemma PolyDotStep(count: nat, u: int -> Poly, v: int -> Poly, k: nat)
    requires k < D
    ensures At(PolyDot(0, u, v), k) == 0
    ensures At(PolyDot(count + 1, u, v), k) == M(At(PolyDot(count, u, v), k) + M(At(u(count), k) * At(v(count), k)))
  {
    hide Sum, M, At;
    var f := PolyTerms(u, v, k);
    SumStep(count + 1, f);
    SumStep(0, f);
    PolyDotEntry(0, u, v, k);
    PolyDotEntry(count, u, v, k);
    PolyDotEntry(count + 1, u, v, k);
    Canonical(0);
    MTwice(Sum(count, f));
    MTwice(f(count));
    CongAdd(M(Sum(count, f)), Sum(count, f), M(f(count)), f(count));
  }

  lemma PolyDotEntry(count: nat, u: int -> Poly, v: int -> Poly, k: nat)
    requires k < D
    ensures At(PolyDot(count, u, v), k) == M(Sum(count, PolyTerms(u, v, k)))
  {}

  function EntryFamily(vs: int -> seq<Poly>, x: int): int -> Poly {
    i => PolyAt(vs(i), x)
  }

  lemma CombinationAt(count: nat, w: int -> Poly, vs: int -> seq<Poly>, len: nat, x: nat, k: nat)
    requires x < len && k < D
    ensures Slot(Combination(count, w, vs, len), x, k) == At(PolyDot(count, w, EntryFamily(vs, x)), k)
  {
    hide Sum;
    SumExt(count, PolyTerms(w, i => PolyAt(vs(i), x), k), PolyTerms(w, EntryFamily(vs, x), k));
  }

  lemma NoCombination(w: int -> Poly, vs: int -> seq<Poly>, len: nat)
    ensures Combination(0, w, vs, len) == Zeros(len)
  {
    hide Combination, PolyDot;
    forall x, k | 0 <= x < len && 0 <= k < D ensures Slot(Combination(0, w, vs, len), x, k) == Slot(Zeros(len), x, k) {
      CombinationAt(0, w, vs, len, x, k);
      PolyDotStep(0, w, EntryFamily(vs, x), k);
    }
    CombinationLength(0, w, vs, len);
    VecExt(Combination(0, w, vs, len), Zeros(len));
  }

  lemma CombinationLength(count: nat, w: int -> Poly, vs: int -> seq<Poly>, len: nat)
    ensures |Combination(count, w, vs, len)| == len
  {}

  /** Adding one more scaled vector is one more term of the combination. */
  lemma CombinationStep(count: nat, w: int -> Poly, vs: int -> seq<Poly>, len: nat)
    requires |vs(count)| == len
    ensures VecAdd(Combination(count, w, vs, len), TimesVector(w(count), vs(count)))
         == Combination(count + 1, w, vs, len)
  {
    hide Combination, PolyDot, Slot, VecAdd, TimesVector;
    var a, b, c := Combination(count, w, vs, len), TimesVector(w(count), vs(count)), Combination(count + 1, w, vs, len);
    CombinationLength(count, w, vs, len);
    CombinationLength(count + 1, w, vs, len);
    forall x, k | 0 <= x < len && 0 <= k < D ensures Slot(VecAdd(a, b), x, k) == Slot(c, x, k) {
      CombinationAt(count, w, vs, len, x, k);
      CombinationAt(count + 1, w, vs, len, x, k);
      PolyDotStep(count, w, EntryFamily(vs, x), k);
      TimesSlot(w(count), vs(count), x, k);
      VecAddSlot(a, b, x, k);
      EntryIs(vs, x, count, k);
    }
    VecExt(VecAdd(a, b), c);
  }

  lemma EntryIs(vs: int -> seq<Poly>, x: int, i: int, k: int)
    ensures At(EntryFamily(vs, x)(i), k) == Slot(vs(i), x, k)
  {}

  /** The same for single polynomials. */
  lemma DotStep(count: nat, w: int -> Poly, v: int -> Poly)
    ensures PolyDot(0, w, v) == ZERO
    ensures PolyAdd(PolyDot(count, w, v), PolyMul(w(count), v(count))) == PolyDot(count + 1, w, v)
  {
    hide PolyDot;
    forall k | 0 <= k < D ensures At(PolyDot(0, w, v), k) == At(ZERO, k) {
      PolyDotStep(0, w, v, k);
    }
    PolyExt(PolyDot(0, w, v), ZERO);
    var l, r := PolyAdd(PolyDot(count, w, v), PolyMul(w(count), v(count))), PolyDot(count + 1, w, v);
    forall k | 0 <= k < D ensures At(l, k) == At(r, k) {
      PolyDotStep(count, w, v, k);
    }
    PolyExt(l, r);
  }
}

/** The instance that both sides mutate while a round goes on. */
module LabradorInstances {
  import opened Residues
  import opened Products
  import opened Polynomials
  import opened Vectors
  import opened Constraints
  import opened Parameters
  import opened RunningSums

  class LabradorInstance {
    const param: Param
    var equalityConstraints: seq<Equality>
    var constZeroConstraints: seq<ConstZero>

    ghost predicate Valid()
      reads this
    {
      && (forall i :: 0 <= i < |equalityConstraints| ==> FitsParam(equalityConstraints[i], param))
      && forall i :: 0 <= i < |constZeroConstraints| ==> ZeroFitsParam(constZeroConstraints[i], param)
    }

    constructor (p: Param)
      ensures param == p && equalityConstraints == [] && constZeroConstraints == [] && Valid()
    {
      param, equalityConstraints, constZeroConstraints := p, [], [];
    }

    /** A copy that is changed independently. */
    constructor Copy(other: LabradorInstance)
      requires other.Valid()
      ensures param == other.param && Valid()
      ensures equalityConstraints == other.equalityConstraints && constZeroConstraints == other.constZeroConstraints
    {
      param, equalityConstraints, constZeroConstraints := other.param, other.equalityConstraints,
        other.constZeroConstraints;
    }

    /** Rejects a constraint of another shape and leaves the instance as it was. */
    method AddEqualityConstraint(c: Equality) returns (ok: bool)
      requires Valid() && c.Valid()
      modifies this`equalityConstraints
      ensures Valid() && (ok <==> FitsParam(c, param))
      ensures equalityConstraints == if ok then old(equalityConstraints) + [c] else old(equalityConstraints)
    {
      if c.r != param.r || c.n != param.n { return false; }
      equalityConstraints := equalityConstraints + [c];
      return true;
    }

    /** All of them are looked at before any is added. */
    method AddEqualityConstraints(cs: seq<Equality>) returns (ok: bool)
      requires Valid() && forall i :: 0 <= i < |cs| ==> cs[i].Valid()
      modifies this`equalityConstraints
      ensures Valid() && (ok <==> forall i :: 0 <= i < |cs| ==> FitsParam(cs[i], param))
      ensures equalityConstraints == if ok then old(equalityConstraints) + cs else old(equalityConstraints)
    {
      for i := 0 to |cs|
        invariant equalityConstraints == old(equalityConstraints)
        invariant forall j :: 0 <= j < i ==> FitsParam(cs[j], param)
      {
        if cs[i].r != param.r || cs[i].n != param.n { return false; }
      }
      equalityConstraints := equalityConstraints + cs;
      return true;
    }

    method AddConstZeroConstraint(c: ConstZero) returns (ok: bool)
      requires Valid() && c.Valid()
      modifies this`constZeroConstraints
      ensures Valid() && (ok <==> ZeroFitsParam(c, param))
      ensures constZeroConstraints == if ok then old(constZeroConstraints) + [c] else old(constZeroConstraints)
    {
      if c.r != param.r || c.n != param.n { return false; }
      constZeroConstraints := constZeroConstraints + [c];
      return true;
    }

    method AddConstZeroConstraints(cs: seq<ConstZero>) returns (ok: bool)
      requires Valid() && forall i :: 0 <= i < |cs| ==> cs[i].Valid()
      modifies this`constZeroConstraints
      ensures Valid() && (ok <==> forall i :: 0 <= i < |cs| ==> ZeroFitsParam(cs[i], param))
      ensures constZeroConstraints == if ok then old(constZeroConstraints) + cs else old(constZeroConstraints)
    {
      for i := 0 to |cs|
        invariant constZeroConstraints == old(constZeroConstraints)
        invariant forall j :: 0 <= j < i ==> ZeroFitsParam(cs[j], param)
      {
        if cs[i].r != param.r || cs[i].n != param.n { return false; }
      }
      constZeroConstraints := constZeroConstraints + cs;
      return true;
    }

    /** Scales every constraint in place, adds them up, and puts the sum in their place. */
    method AggEqualityConstraints(alphaHat: seq<Poly>)
      requires Valid() && |alphaHat| == |equalityConstraints|
      modifies this`equalityConstraints
      ensures Valid()
      ensures equalityConstraints == [Aggregate(old(equalityConstraints), alphaHat, param.r, param.n)]
    {
      hide Combination, PolyDot;
      ghost var cs := equalityConstraints;
      var count, r, n := |equalityConstraints|, param.r, param.n;
      NonNegative(r, r);
      NonNegative(r, n);
      ScaleA(alphaHat, cs);
      var a := SumA(alphaHat, cs, 0, r * r);
      ScalePhi(alphaHat, cs);
      var phi := SumPhi(alphaHat, cs, count, r * n);
      var b := SumB(alphaHat, cs);
      CombinationLength(count, Alphas(alphaHat), PartsA(cs), r * r);
      CombinationLength(count, Alphas(alphaHat), PartsPhi(cs), r * n);
      equalityConstraints := [Equality(r, n, a, phi, b)];
    }

    method ScaleA(alphaHat: seq<Poly>, ghost cs: seq<Equality>)
      requires |alphaHat| == |equalityConstraints| && equalityConstraints == cs
      modifies this`equalityConstraints
      ensures ScaledUpTo(equalityConstraints, cs, alphaHat, |cs|, 0)
    {
      hide TimesVector;
      for k := 0 to |equalityConstraints|
        invariant |equalityConstraints| == |cs| && ScaledUpTo(equalityConstraints, cs, alphaHat, k, 0)
      {
        var c := equalityConstraints[k];
        equalityConstraints := equalityConstraints[k := c.(a := TimesVector(alphaHat[k], c.a))];
      }
    }

    method ScalePhi(alphaHat: seq<Poly>, ghost cs: seq<Equality>)
      requires |alphaHat| == |cs| && ScaledUpTo(equalityConstraints, cs, alphaHat, |cs|, 0)
      modifies this`equalityConstraints
      ensures ScaledUpTo(equalityConstraints, cs, alphaHat, |cs|, |cs|)
    {
      hide TimesVector;
      for k := 0 to |equalityConstraints|
        invariant |equalityConstraints| == |cs| && ScaledUpTo(equalityConstraints, cs, alphaHat, |cs|, k)
      {
        var c := equalityConstraints[k];
        equalityConstraints := equalityConstraints[k := c.(phi := TimesVector(alphaHat[k], c.phi))];
      }
    }

    method SumA(ghost alphaHat: seq<Poly>, ghost cs: seq<Equality>, ghost kp: nat, len: nat) returns (a: seq<Poly>)
      requires |alphaHat| == |cs| && ScaledUpTo(equalityConstraints, cs, alphaHat, |cs|, kp)
      requires forall i :: 0 <= i < |cs| ==> |cs[i].a| == len
      ensures a == Combination(|cs|, Alphas(alphaHat), PartsA(cs), len)
    {
      hide TimesVector, Combination, VecAdd;
      a := Zeros(len);
      NoCombination(Alphas(alphaHat), PartsA(cs), len);
      for k := 0 to |equalityConstraints|
        invariant a == Combination(k, Alphas(alphaHat), PartsA(cs), len)
      {
        CombinationStep(k, Alphas(alphaHat), PartsA(cs), len);
        a := VecAdd(a, equalityConstraints[k].a);
      }
    }

    method SumPhi(ghost alphaHat: seq<Poly>, ghost cs: seq<Equality>, ghost ka: nat, len: nat) returns (phi: seq<Poly>)
      requires |alphaHat| == |cs| && ScaledUpTo(equalityConstraints, cs, alphaHat, ka, |cs|)
      requires forall i :: 0 <= i < |cs| ==> |cs[i].phi| == len
      ensures phi == Combination(|cs|, Alphas(alphaHat), PartsPhi(cs), len)
    {
      hide TimesVector, Combination, VecAdd;
      phi := Zeros(len);
      NoCombination(Alphas(alphaHat), PartsPhi(cs), len);
      for k := 0 to |equalityConstraints|
        invariant phi == Combination(k, Alphas(alphaHat), PartsPhi(cs), len)
      {
        CombinationStep(k, Alphas(alphaHat), PartsPhi(cs), len);
        phi := VecAdd(phi, equalityConstraints[k].phi);
      }
    }

    /** b is never scaled in place: every term is made when it is added. */
    method SumB(alphaHat: seq<Poly>, ghost cs: seq<Equality>) returns (b: Poly)
      requires |alphaHat| == |cs| && ScaledUpTo(equalityConstraints, cs, alphaHat, |cs|, |cs|)
      ensures b == PolyDot(|cs|, Alphas(alphaHat), PartsB(cs))
    {
      hide PolyDot, PolyMul, PolyAdd, TimesVector;
      b := ZERO;
      DotStep(0, Alphas(alphaHat), PartsB(cs));
      for k := 0 to |equalityConstraints|
        invariant b == PolyDot(k, Alphas(alphaHat), PartsB(cs))
      {
        DotStep(k, Alphas(alphaHat), PartsB(cs));
        var temp := PolyMul(alphaHat[k], equalityConstraints[k].b);
        b := PolyAdd(b, temp);
      }
    }
  }

  /** A constraint of the shape that the parameters give. */
  predicate FitsParam(c: Equality, p: Param) {
    c.Valid() && c.r == p.r && c.n == p.n
  }

  predicate ZeroFitsParam(c: ConstZero, p: Param) {
    c.Valid() && c.r == p.r && c.n == p.n
  }

  /** The first ka constraints have their a scaled, the first kp their phi. */
  ghost predicate ScaledUpTo(now: seq<Equality>, was: seq<Equality>, alpha: seq<Poly>, ka: nat, kp: nat) {
    && |now| == |was| == |alpha|
    && forall i :: 0 <= i < |now| ==>
         now[i] == Equality(was[i].r, was[i].n, if i < ka then TimesVector(alpha[i], was[i].a) else was[i].a,
                            if i < kp then TimesVector(alpha[i], was[i].phi) else was[i].phi, was[i].b)
  }
}
