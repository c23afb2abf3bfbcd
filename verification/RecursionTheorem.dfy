/** The recursion step preserves meaning, in both directions. */
module RecursionTheorem {
  import opened Residues
  import opened Products
  import opened Sums
  import opened Arrays
  import opened Polynomials
  import opened Vectors
  import opened Packing
  import opened Constraints
  import opened DigitVectors
  import opened Layout
  import opened Parameters
  import opened BaseChecks
  import opened Recursion
  import opened LinearMeaning
  import opened QuadraticMeaning
  import opened SquareMeaning

  ghost predicate AllSatisfied(cs: seq<Equality>, s: seq<Poly>) {
    forall i :: 0 <= i < |cs| ==> Satisfies(cs[i], s)
  }

  lemma AllConcat(a: seq<Equality>, b: seq<Equality>, s: seq<Poly>)
    ensures AllSatisfied(a + b, s) <==> AllSatisfied(a, s) && AllSatisfied(b, s)
  {
    hide Satisfies;
    var ab := a + b;
    if AllSatisfied(ab, s) {
      forall i | 0 <= i < |a| ensures Satisfies(a[i], s) { assert ab[i] == a[i]; }
      forall i | 0 <= i < |b| ensures Satisfies(b[i], s) { assert ab[|a| + i] == b[i]; }
    }
  }

  /** Constraints whose evaluations are the gaps hold together exactly when the gaps vanish. */
  lemma FamilyMeaning(cs: seq<Equality>, s: seq<Poly>, gap: (int, int) -> int)
    requires forall i, k :: 0 <= i < |cs| && 0 <= k < D ==> M(EvalAt(cs[i], s, k)) == M(gap(i, k))
    ensures AllSatisfied(cs, s) <==> Vanishes(gap, |cs|)
  {
    hide EvalAt, M;
    if AllSatisfied(cs, s) {
      forall i, k | 0 <= i < |cs| && 0 <= k < D ensures M(gap(i, k)) == 0 {
        assert Satisfies(cs[i], s);
      }
    }
    if Vanishes(gap, |cs|) {
      forall i | 0 <= i < |cs| ensures Satisfies(cs[i], s) {}
    }
  }

  lemma WrapFree(base0: nat)
    requires base0 < 0x1_0000
    ensures WrapSquare(base0) == base0 * base0
  {
    NonNegative(base0, 0xffff - base0);
    assert base0 * (0xffff - base0) == 0xffff * base0 - base0 * base0;
  }

  /** The proof that the parts of the next witness come from. */
  function ProofOf(w: Parts, base0: nat): Proof {
    Proof(ZHat(w.z0, w.z1, base0), w.t, w.g, w.h)
  }

  /** <z,z> = c^t G c up to the wrap of base0^2. */
  function WrappedGapZ(p: Param, c: seq<Poly>, w: Parts, base0: nat): (int, int) -> int
    requires p.Bases()
  {
    (i, k) => GapZ(p, c, ZHat(w.z0, w.z1, base0), SymmHat(w.g, p.base2, p.r))(i, k)
            + (WrapSquare(base0) - base0 * base0) * Dot(NttVec(w.z1), NttVec(w.z1), p.n, k)
  }

  /** The gaps that the next round's constraints measure, for any base0. */
  ghost predicate GapsVanish(p: Param, fc: Equality, u1: seq<Poly>, u2: seq<Poly>, c: seq<Poly>, w: Parts, base0: nat)
    requires p.Bases()
  {
    var z := ZHat(w.z0, w.z1, base0);
    && Vanishes(GapU1(p, u1, w.t, w.g), p.kappa1)
    && Vanishes(GapU2(p, u2, w.h), p.kappa2)
    && Vanishes(GapA(p, c, z, THat(p, w.t)), p.kappa)
    && Vanishes(GapPhi(p, fc.phi, c, z, SymmHat(w.h, p.base3, p.r)), 1)
    && Vanishes(GapTrace(p, fc, SymmHat(w.g, p.base2, p.r), SymmHat(w.h, p.base3, p.r)), 1)
    && Vanishes(WrappedGapZ(p, c, w, base0), 1)
  }

  lemma CommitmentGroups(p: Param, pr: Preparer, u1: seq<Poly>, u2: seq<Poly>, c: seq<Poly>, base0: nat, w: Parts)
    requires p.Valid() && Fits(pr) && Shaped(pr, w) && pr.tLen == p.TLen() && pr.prevN == p.n
    ensures AllSatisfied(Vec(p.kappa1, i => U1Constraint(p, pr, u1, i)), Witness(pr, w))
       <==> Vanishes(GapU1(p, u1, w.t, w.g), p.kappa1)
    ensures AllSatisfied(Vec(p.kappa2, i => U2Constraint(p, pr, u2, i)), Witness(pr, w))
       <==> Vanishes(GapU2(p, u2, w.h), p.kappa2)
    ensures AllSatisfied(Vec(p.kappa, i => AConstraint(p, pr, c, base0, i)), Witness(pr, w))
       <==> Vanishes(GapA(p, c, ZHat(w.z0, w.z1, base0), THat(p, w.t)), p.kappa)
  {
    hide AllSatisfied, Witness, Vanishes, GapU1, GapU2, GapA, ZHat, THat, Fits, Shaped, U1Constraint, U2Constraint,
      AConstraint, Param.TLen, Param.GLen, Param.HLen;
    U1Group(p, pr, u1, w);
    U2Group(p, pr, u2, w);
    AGroup(p, pr, c, base0, w);
  }

  lemma U1Group(p: Param, pr: Preparer, u1: seq<Poly>, w: Parts)
    requires Fits(pr) && Shaped(pr, w)
    ensures AllSatisfied(Vec(p.kappa1, i => U1Constraint(p, pr, u1, i)), Witness(pr, w))
       <==> Vanishes(GapU1(p, u1, w.t, w.g), p.kappa1)
  {
    hide *;
    var cs, s, gap := Vec(p.kappa1, i => U1Constraint(p, pr, u1, i)), Witness(pr, w), GapU1(p, u1, w.t, w.g);
    forall i, k | 0 <= i < |cs| && 0 <= k < D ensures M(EvalAt(cs[i], s, k)) == M(gap(i, k)) {
      U1Meaning(p, pr, u1, w, i, k);
    }
    FamilyMeaning(cs, s, gap);
  }

  lemma U2Group(p: Param, pr: Preparer, u2: seq<Poly>, w: Parts)
    requires Fits(pr) && Shaped(pr, w)
    ensures AllSatisfied(Vec(p.kappa2, i => U2Constraint(p, pr, u2, i)), Witness(pr, w))
       <==> Vanishes(GapU2(p, u2, w.h), p.kappa2)
  {
    hide *;
    var cs, s, gap := Vec(p.kappa2, i => U2Constraint(p, pr, u2, i)), Witness(pr, w), GapU2(p, u2, w.h);
    forall i, k | 0 <= i < |cs| && 0 <= k < D ensures M(EvalAt(cs[i], s, k)) == M(gap(i, k)) {
      U2Meaning(p, pr, u2, w, i, k);
    }
    FamilyMeaning(cs, s, gap);
  }

  lemma AGroup(p: Param, pr: Preparer, c: seq<Poly>, base0: nat, w: Parts)
    requires Fits(pr) && Shaped(pr, w) && p.Bases() && pr.tLen == p.TLen() && pr.prevN == p.n
    ensures AllSatisfied(Vec(p.kappa, i => AConstraint(p, pr, c, base0, i)), Witness(pr, w))
       <==> Vanishes(GapA(p, c, ZHat(w.z0, w.z1, base0), THat(p, w.t)), p.kappa)
  {
    hide *;
    var cs, s, gap := Vec(p.kappa, i => AConstraint(p, pr, c, base0, i)), Witness(pr, w),
                      GapA(p, c, ZHat(w.z0, w.z1, base0), THat(p, w.t));
    forall i, k | 0 <= i < |cs| && 0 <= k < D ensures M(EvalAt(cs[i], s, k)) == M(gap(i, k)) {
      AMeaning(p, pr, c, base0, w, i, k);
    }
    FamilyMeaning(cs, s, gap);
  }

  lemma SingleConstraints(p: Param, pr: Preparer, fc: Equality, c: seq<Poly>, base0: nat, w: Parts)
    requires p.Bases() && Fits(pr) && Shaped(pr, w) && pr.prevN == p.n && pr.gLen == p.GLen() && pr.hLen == p.HLen()
    requires |fc.a| == p.r * p.r
    ensures AllSatisfied([PhiConstraint(p, pr, fc.phi, c, base0)], Witness(pr, w))
       <==> Vanishes(GapPhi(p, fc.phi, c, ZHat(w.z0, w.z1, base0), SymmHat(w.h, p.base3, p.r)), 1)
    ensures AllSatisfied([TraceConstraint(p, pr, fc)], Witness(pr, w))
       <==> Vanishes(GapTrace(p, fc, SymmHat(w.g, p.base2, p.r), SymmHat(w.h, p.base3, p.r)), 1)
    ensures AllSatisfied([ZConstraint(p, pr, c, base0)], Witness(pr, w))
       <==> Vanishes(WrappedGapZ(p, c, w, base0), 1)
  {
    hide *;
    PhiGroup(p, pr, fc, c, base0, w);
    TraceGroup(p, pr, fc, w);
    ZGroup(p, pr, c, base0, w);
  }

  lemma PhiGroup(p: Param, pr: Preparer, fc: Equality, c: seq<Poly>, base0: nat, w: Parts)
    requires p.Bases() && Fits(pr) && Shaped(pr, w) && pr.prevN == p.n && pr.hLen == p.HLen()
    ensures AllSatisfied([PhiConstraint(p, pr, fc.phi, c, base0)], Witness(pr, w))
       <==> Vanishes(GapPhi(p, fc.phi, c, ZHat(w.z0, w.z1, base0), SymmHat(w.h, p.base3, p.r)), 1)
  {
    hide EvalAt, M, Witness, ZHat, SymmHat, GapPhi, PhiConstraint, AllSatisfied, Vanishes, Fits, Shaped, Param.HLen;
    var cs, s, gap := [PhiConstraint(p, pr, fc.phi, c, base0)], Witness(pr, w),
                      GapPhi(p, fc.phi, c, ZHat(w.z0, w.z1, base0), SymmHat(w.h, p.base3, p.r));
    forall i, k | 0 <= i < |cs| && 0 <= k < D ensures M(EvalAt(cs[i], s, k)) == M(gap(i, k)) {
      PhiMeaning(p, pr, fc.phi, c, base0, w, k);
    }
    FamilyMeaning(cs, s, gap);
  }

  lemma TraceGroup(p: Param, pr: Preparer, fc: Equality, w: Parts)
    requires p.Bases() && Fits(pr) && Shaped(pr, w) && pr.gLen == p.GLen() && pr.hLen == p.HLen() && |fc.a| == p.r * p.r
    ensures AllSatisfied([TraceConstraint(p, pr, fc)], Witness(pr, w))
       <==> Vanishes(GapTrace(p, fc, SymmHat(w.g, p.base2, p.r), SymmHat(w.h, p.base3, p.r)), 1)
  {
    hide EvalAt, M, Witness, SymmHat, GapTrace, TraceConstraint, AllSatisfied, Vanishes, Fits, Shaped, Param.HLen,
      Param.GLen;
    var cs, s, gap := [TraceConstraint(p, pr, fc)], Witness(pr, w),
                      GapTrace(p, fc, SymmHat(w.g, p.base2, p.r), SymmHat(w.h, p.base3, p.r));
    forall i, k | 0 <= i < |cs| && 0 <= k < D ensures M(EvalAt(cs[i], s, k)) == M(gap(i, k)) {
      TraceMeaning(p, pr, fc, w, k);
    }
    FamilyMeaning(cs, s, gap);
  }

  lemma ZGroup(p: Param, pr: Preparer, c: seq<Poly>, base0: nat, w: Parts)
    requires p.Bases() && Fits(pr) && Shaped(pr, w) && pr.prevN == p.n && pr.gLen == p.GLen()
    ensures AllSatisfied([ZConstraint(p, pr, c, base0)], Witness(pr, w)) <==> Vanishes(WrappedGapZ(p, c, w, base0), 1)
  {
    hide EvalAt, M, Witness, ZHat, SymmHat, GapZ, ZConstraint, AllSatisfied, Vanishes, Fits, Shaped, Param.GLen, Dot,
      WrapSquare;
    var cs, s, gap := [ZConstraint(p, pr, c, base0)], Witness(pr, w), WrappedGapZ(p, c, w, base0);
    forall i, k | 0 <= i < |cs| && 0 <= k < D ensures M(EvalAt(cs[i], s, k)) == M(gap(i, k)) {
      ZMeaning(p, pr, c, base0, w, k);
    }
    FamilyMeaning(cs, s, gap);
  }

  /** What the next round's constraints say of a packed witness, for any base0. */
  lemma ConstraintsMeaning(p: Param, fc: Equality, u1: seq<Poly>, u2: seq<Poly>, c: seq<Poly>,
                           base0: nat, mu: nat, nu: nat, w: Parts)
    requires p.Valid() && mu >= 1 && nu >= 1 && |fc.a| == p.r * p.r && Shaped(RecursionLayout(p, mu, nu), w)
    ensures Fits(RecursionLayout(p, mu, nu))
    ensures AllSatisfied(RecursionConstraints(p, fc, u1, u2, c, base0, mu, nu), Witness(RecursionLayout(p, mu, nu), w))
       <==> GapsVanish(p, fc, u1, u2, c, w, base0)
  {
    hide AllSatisfied, Witness, Vanishes, GapU1, GapU2, GapA, GapPhi, GapTrace, WrappedGapZ, ZHat, THat, SymmHat,
      Fits, U1Constraint,
      U2Constraint, AConstraint, PhiConstraint, TraceConstraint, ZConstraint, Param.TLen, Param.GLen, Param.HLen;
    PrepareFits(p.n, p.TLen(), p.GLen(), p.HLen(), mu, nu);
    var pr := RecursionLayout(p, mu, nu);
    var s := Witness(pr, w);
    CommitmentGroups(p, pr, u1, u2, c, base0, w);
    SingleConstraints(p, pr, fc, c, base0, w);
    var a, b, d := Vec(p.kappa1, i => U1Constraint(p, pr, u1, i)), Vec(p.kappa2, i => U2Constraint(p, pr, u2, i)),
                   Vec(p.kappa, i => AConstraint(p, pr, c, base0, i));
    var x, y, z := PhiConstraint(p, pr, fc.phi, c, base0), TraceConstraint(p, pr, fc), ZConstraint(p, pr, c, base0);
    SixGroups(a, b, d, x, y, z, s);
  }

  lemma SixGroups(a: seq<Equality>, b: seq<Equality>, d: seq<Equality>, x: Equality, y: Equality, z: Equality,
                  s: seq<Poly>)
    ensures AllSatisfied(a + b + d + [x, y, z], s)
       <==> (&& AllSatisfied(a, s) && AllSatisfied(b, s) && AllSatisfied(d, s)
             && AllSatisfied([x], s) && AllSatisfied([y], s) && AllSatisfied([z], s))
  {
    hide AllSatisfied;
    AllConcat(a + b + d, [x, y, z], s);
    AllConcat(a + b, d, s);
    AllConcat(a, b, s);
    assert [x, y, z] == [x] + ([y] + [z]);
    AllConcat([x], [y] + [z], s);
    AllConcat([y], [z], s);
  }

  /** What the verifier's algebraic checks say of a base proof. */
  lemma ChecksMeaning(p: Param, fc: Equality, u1: seq<Poly>, u2: seq<Poly>, c: seq<Poly>, pf: Proof)
    requires p.Valid() && |u1| == p.kappa1 && |u2| == p.kappa2 && |pf.zHat| == p.n
    ensures Algebraic(p, fc, u1, u2, c, pf)
       <==> (&& Vanishes(GapU1(p, u1, pf.t, pf.g), p.kappa1) && Vanishes(GapU2(p, u2, pf.h), p.kappa2)
             && Vanishes(GapA(p, c, pf.zHat, THat(p, pf.t)), p.kappa)
             && Vanishes(GapZ(p, c, pf.zHat, SymmHat(pf.g, p.base2, p.r)), 1)
             && Vanishes(GapPhi(p, fc.phi, c, pf.zHat, SymmHat(pf.h, p.base3, p.r)), 1)
             && Vanishes(GapTrace(p, fc, SymmHat(pf.g, p.base2, p.r), SymmHat(pf.h, p.base3, p.r)), 1))
  {
    hide Vanishes, GapU1, GapU2, GapA, GapPhi, GapTrace, GapZ, THat, SymmHat, CheckU1, CheckU2, CheckA, CheckZ,
      CheckPhi, CheckTrace, Param.TLen, Param.GLen, Param.HLen;
    CheckU1Gap(p, u1, pf);
    CheckU2Gap(p, u2, pf);
    CheckAGap(p, c, pf);
    CheckZGap(p, c, pf);
    CheckPhiGap(p, fc, c, pf);
    CheckTraceGap(p, fc, pf);
  }

  lemma UnwrappedGap(p: Param, c: seq<Poly>, w: Parts, base0: nat)
    requires p.Bases() && base0 < 0x1_0000
    ensures Vanishes(WrappedGapZ(p, c, w, base0), 1)
       <==> Vanishes(GapZ(p, c, ZHat(w.z0, w.z1, base0), SymmHat(w.g, p.base2, p.r)), 1)
  {
    hide GapZ, Dot, ZHat, SymmHat, M, WrapSquare;
    WrapFree(base0);
    var f, g := WrappedGapZ(p, c, w, base0), GapZ(p, c, ZHat(w.z0, w.z1, base0), SymmHat(w.g, p.base2, p.r));
    forall i, k ensures f(i, k) == g(i, k) {
      assert (WrapSquare(base0) - base0 * base0) * Dot(NttVec(w.z1), NttVec(w.z1), p.n, k) == 0;
    }
  }

  /** The packed witness satisfies every constraint of the next round exactly when the base proof
      with z = z0 + base0*z1 passes the verifier's algebraic checks. */
  lemma RecursionPreservesMeaning(p: Param, fc: Equality, u1: seq<Poly>, u2: seq<Poly>, c: seq<Poly>,
                                  base0: nat, mu: nat, nu: nat, w: Parts)
    requires p.Valid() && mu >= 1 && nu >= 1 && |fc.a| == p.r * p.r && |u1| == p.kappa1 && |u2| == p.kappa2
    requires Shaped(RecursionLayout(p, mu, nu), w) && base0 < 0x1_0000
    ensures Fits(RecursionLayout(p, mu, nu))
    ensures AllSatisfied(RecursionConstraints(p, fc, u1, u2, c, base0, mu, nu), Witness(RecursionLayout(p, mu, nu), w))
       <==> Algebraic(p, fc, u1, u2, c, ProofOf(w, base0))
  {
    hide Vanishes, GapU1, GapU2, GapA, GapPhi, GapTrace, GapZ, WrappedGapZ, THat, SymmHat, Algebraic, AllSatisfied,
      RecursionConstraints, Witness, Fits, Param.TLen, Param.GLen, Param.HLen, ZHat;
    ConstraintsMeaning(p, fc, u1, u2, c, base0, mu, nu, w);
    UnwrappedGap(p, c, w, base0);
    ChecksMeaning(p, fc, u1, u2, c, ProofOf(w, base0));
  }
}
