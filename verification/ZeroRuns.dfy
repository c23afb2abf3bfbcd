/** Runs that meet every condition of completeness, for every number of rounds: those of the zero witness. */
module ZeroRuns {
  import opened Residues
  import opened Products
  import opened Sums
  import opened Arrays
  import opened Transforms
  import opened BitReversal
  import opened PowersOfTwo
  import opened BalancedDigits
  import opened Polynomials
  import opened Vectors
  import opened Packing
  import opened Constraints
  import opened DigitVectors
  import opened Layout
  import opened Parameters
  import opened BaseChecks
  import opened Recursion
  import opened RecursionBuffers
  import opened BaseProver
  import opened NormBounds
  import opened Protocol
  import opened Runs

  lemma NttOfZero()
    ensures Ntt(ZERO) == ZERO && Intt(ZERO) == ZERO
  {
    hide Sum, Ntt, Intt, Rev, Pow2;
    forall k | 0 <= k < D ensures At(Ntt(ZERO), k) == At(ZERO, k) {
      NttAt(ZERO, k);
      var f := Pointwise(Coeffs(ZERO), FwdKernel(PSI, Rev(k, LOG_D)));
      forall i | 0 <= i < Pow2(LOG_D) ensures f(i) == 0 { ZeroFactor(Coeffs(ZERO), FwdKernel(PSI, Rev(k, LOG_D)), i); }
      SumZero(Pow2(LOG_D), f);
    }
    PolyExt(Ntt(ZERO), ZERO);
    InttNtt(ZERO);
  }

  lemma ZeroFactor(x: int -> int, y: int -> int, i: int)
    requires x(i) == 0
    ensures Pointwise(x, y)(i) == 0
  {}

  ghost predicate IsZero(v: seq<Poly>) {
    v == Zeros(|v|)
  }

  lemma ZeroBySlots(v: seq<Poly>)
    requires forall i, k :: 0 <= i < |v| && 0 <= k < D ==> Slot(v, i, k) == 0
    ensures IsZero(v)
  {
    forall i, k | 0 <= i < |v| && 0 <= k < D ensures Slot(v, i, k) == Slot(Zeros(|v|), i, k) {}
    VecExt(v, Zeros(|v|));
  }

  lemma ZeroSlots(v: seq<Poly>, i: int, k: int)
    requires IsZero(v)
    ensures Slot(v, i, k) == 0
  {
    if 0 <= i < |v| { assert v[i] == ZERO; }
  }

  lemma TransformsOfZero(v: seq<Poly>)
    requires IsZero(v)
    ensures IsZero(NttVec(v)) && IsZero(InttVec(v))
  {
    hide Ntt, Intt;
    NttOfZero();
    forall i | 0 <= i < |v| ensures NttVec(v)[i] == ZERO && InttVec(v)[i] == ZERO {
      assert v[i] == ZERO;
    }
  }

  /** A product with a zero factor on either side. */
  lemma ZeroProduct(a: seq<Poly>, ra: nat, ca: nat, b: seq<Poly>, cb: nat)
    requires IsZero(a) || IsZero(b)
    ensures IsZero(Matmul(a, ra, ca, b, cb))
  {
    hide Sum, Matmul, Slot, IsZero;
    var m := Matmul(a, ra, ca, b, cb);
    forall x, k | 0 <= x < |m| && 0 <= k < D ensures Slot(m, x, k) == 0 {
      MatmulSize(a, ra, ca, b, cb);
      var i, j := Split(x, ra, cb);
      MatmulSlot(a, ra, ca, b, cb, i, j, k);
      var f := l => Slot(a, i * ca + l, k) * Slot(b, l * cb + j, k);
      forall l | 0 <= l < ca ensures f(l) == 0 {
        if IsZero(a) { ZeroSlots(a, i * ca + l, k); } else { ZeroSlots(b, l * cb + j, k); }
        ZeroTimes(Slot(a, i * ca + l, k), Slot(b, l * cb + j, k));
      }
      SumZero(ca, f);
    }
    ZeroBySlots(m);
  }

  lemma ZeroTimes(x: int, y: int)
    requires x == 0 || y == 0
    ensures x * y == 0
  {}

  lemma MatmulSize(a: seq<Poly>, ra: nat, ca: nat, b: seq<Poly>, cb: nat)
    ensures |Matmul(a, ra, ca, b, cb)| == ra * cb
  {}

  lemma ZeroTransposed(a: seq<Poly>, rows: nat, cols: nat)
    requires IsZero(a)
    ensures IsZero(Transpose(a, rows, cols))
  {
    hide Transpose, Slot, IsZero;
    var m := Transpose(a, rows, cols);
    TransposeSize(a, rows, cols);
    forall x, k | 0 <= x < |m| && 0 <= k < D ensures Slot(m, x, k) == 0 {
      var i, j := Split(x, cols, rows);
      TransposeSlot(a, rows, cols, i, j, k);
      ZeroSlots(a, j * cols + i, k);
    }
    ZeroBySlots(m);
  }

  lemma TransposeSize(a: seq<Poly>, rows: nat, cols: nat)
    ensures |Transpose(a, rows, cols)| == cols * rows
  {}

  lemma {:induction false} ZeroPacked(mat: seq<Poly>, n: nat, rows: nat)
    requires IsZero(mat) && rows <= n
    ensures IsZero(PackRows(n, Entry(mat, n), rows))
  {
    hide Off;
    if rows > 0 {
      ZeroPacked(mat, n, rows - 1);
      var last := Vec(n - (rows - 1), d => Entry(mat, n)(rows - 1, rows - 1 + d));
      forall d | 0 <= d < |last| ensures last[d] == ZERO {
        assert last[d] == Entry(mat, n)(rows - 1, rows - 1 + d);
        ZeroEntries(mat, n, rows - 1, rows - 1 + d);
      }
      ZerosConcat(|PackRows(n, Entry(mat, n), rows - 1)|, |last|);
      assert last == Zeros(|last|);
    }
  }

  lemma ZeroEntries(mat: seq<Poly>, n: nat, i: int, j: int)
    requires IsZero(mat)
    ensures Entry(mat, n)(i, j) == ZERO
  {
    var x := i * n + j;
    assert Entry(mat, n)(i, j) == PolyAt(mat, x);
    if 0 <= x < |mat| { assert mat[x] == Zeros(|mat|)[x]; }
  }

  lemma {:induction false} RestOfZero(b: int, j: int)
    requires b >= 2
    ensures Rest(0, b, j) == 0
    decreases j
  {
    if j > 0 { RestOfZero(b, j - 1); }
  }

  /** Zero has zero digits, and zero digits recompose to zero. */
  lemma ZeroDigits(v: seq<Poly>, base: nat, l: nat)
    requires IsZero(v) && base >= 2
    ensures IsZero(DecomposeVec(v, base, l))
  {
    hide DecomposeVec, Slot, IsZero, Rest;
    var d := DecomposeVec(v, base, l);
    DigitsSize(v, base, l);
    forall x, k | 0 <= x < |d| && 0 <= k < D ensures Slot(d, x, k) == 0 {
      var j, i := Split(x, l, |v|);
      DecomposeSlot(v, base, l, j, i, k);
      ZeroSlots(v, i, k);
      RestOfZero(base, j);
    }
    ZeroBySlots(d);
  }

  lemma DigitsSize(v: seq<Poly>, base: nat, l: nat)
    requires base >= 2
    ensures |DecomposeVec(v, base, l)| == l * |v|
  {}

  lemma ZeroRecomposed(d: seq<Poly>, base: int, l: nat, size: nat)
    requires IsZero(d)
    ensures IsZero(RecomposeVec(d, base, l, size))
  {
    hide Sum, Slot, IsZero, RecomposeVec;
    var v := RecomposeVec(d, base, l, size);
    RecomposedSize(d, base, l, size);
    forall x, k | 0 <= x < size && 0 <= k < D ensures Slot(v, x, k) == 0 {
      RecomposeSlot(d, base, l, size, x, k);
      var f := Pointwise(BasePowers(base), DigitSlots(d, size, x, k));
      forall j | 0 <= j < l ensures f(j) == 0 {
        ZeroSlots(d, j * size + x, k);
        ZeroTimes(BasePowers(base)(j), Slot(d, j * size + x, k));
      }
      SumZero(l, f);
    }
    ZeroBySlots(v);
  }

  lemma RecomposedSize(d: seq<Poly>, base: int, l: nat, size: nat)
    ensures |RecomposeVec(d, base, l, size)| == size
  {}

  lemma ZeroSymmetrised(m: seq<Poly>, r: nat)
    requires IsZero(m)
    ensures IsZero(Symmetrised(m, r))
  {
    hide Transpose, Slot, IsZero;
    ZeroTransposed(m, r, r);
    var s := Symmetrised(m, r);
    forall i, k | 0 <= i < |s| && 0 <= k < D ensures Slot(s, i, k) == 0 {
      VecAddSlot(m, Transpose(m, r, r), i, k);
      ScaleSlot(HALF, VecAdd(m, Transpose(m, r, r)), i, k);
      ZeroSlots(m, i, k);
      ZeroSlots(Transpose(m, r, r), i, k);
    }
    ZeroBySlots(s);
  }

  /** The base proof of the zero witness is zero. */
  lemma ZeroProof(p: Param, phi: seq<Poly>, c: seq<Poly>, s: seq<Poly>)
    requires p.Bases() && IsZero(s)
    ensures IsZero(ProverZ(p, c, s)) && IsZero(ProverT(p, s)) && IsZero(ProverG(p, s)) && IsZero(ProverH(p, phi, s))
  {
    hide NttVec, InttVec, Matmul, Transpose, DecomposeVec, PackRows, Symmetrised, IsZero, Digits, Off;
    TransformsOfZero(s);
    var sHat := NttVec(s);
    ZeroTransposed(sHat, p.r, p.n);
    ZeroProduct(c, 1, p.r, sHat, p.n);
    ZeroProduct(sHat, p.r, p.n, p.matA, p.kappa);
    var t := Matmul(sHat, p.r, p.n, p.matA, p.kappa);
    TransformsOfZero(t);
    ZeroDigits(InttVec(t), p.base1, Digits(p.base1));
    var gram := GramMatrix(sHat, p.r, p.n);
    ZeroProduct(sHat, p.r, p.n, Transpose(sHat, p.r, p.n), p.r);
    ZeroPacked(gram, p.r, p.r);
    TransformsOfZero(SymmPart(gram, p.r));
    ZeroDigits(InttVec(SymmPart(gram, p.r)), p.base2, Digits(p.base2));
    ZeroProduct(phi, p.r, p.n, Transpose(sHat, p.r, p.n), p.r);
    var h := PhiTimesS(p, phi, s);
    TransformsOfZero(h);
    ZeroSymmetrised(InttVec(h), p.r);
    ZeroPacked(Symmetrised(InttVec(h), p.r), p.r, p.r);
    ZeroDigits(SymmPart(Symmetrised(InttVec(h), p.r), p.r), p.base3, Digits(p.base3));
  }

  /** The next witness of a zero proof is zero. */
  lemma ZeroNext(p: Param, pf: Proof, base0: nat, mu: nat, nu: nat)
    requires p.Valid() && ProofShape(p, pf) && mu >= 1 && nu >= 1 && base0 >= 2
    requires IsZero(pf.zHat) && IsZero(pf.t) && IsZero(pf.g) && IsZero(pf.h)
    ensures NextWitness(p, pf, base0, mu, nu).Done? && IsZero(NextWitness(p, pf, base0, mu, nu).value)
  {
    hide NttVec, InttVec, DecomposeVec, RecomposeVec, Packed, Param.TLen, Param.GLen, Param.HLen, NoParts, Zeros;
    TransformsOfZero(pf.zHat);
    var z := InttVec(pf.zHat);
    ZeroDigits(z, base0, 2);
    var d := DecomposeVec(z, base0, 2);
    ZeroRecomposed(d, base0, 2, |z|);
    assert |z| == p.n && |d| == 2 * p.n by { DigitsSize(z, base0, 2); InttSize(pf.zHat); }
    RecomposedSize(d, base0, 2, |z|);
    PrepareFits(p.n, p.TLen(), p.GLen(), p.HLen(), mu, nu);
    var pr := RecursionLayout(p, mu, nu);
    ZeroHalves(d, p.n);
    NothingPacked(pr);
    NoPartsAre(pr);
    assert NextParts(p, pf, base0) == NoParts(pr);
    ZerosSize(Total(pr));
  }

  lemma InttSize(v: seq<Poly>)
    ensures |InttVec(v)| == |v|
  {}

  lemma ZerosSize(n: nat)
    ensures |Zeros(n)| == n
  {}

  lemma ZeroHalves(d: seq<Poly>, n: nat)
    requires IsZero(d) && |d| == 2 * n
    ensures d[..n] == Zeros(n) && d[n..] == Zeros(n)
  {}

  lemma NoPartsAre(pr: Preparer)
    ensures NoParts(pr) == Parts(Zeros(pr.prevN), Zeros(pr.prevN), Zeros(pr.tLen), Zeros(pr.gLen), Zeros(pr.hLen))
  {}

  /** A backend whose norm checks pass and whose bases suit the decomposition. */
  ghost predicate Lenient(bk: Backend) {
    && (forall p: Param, v: seq<Zq> :: bk.jlNormOk(p, v))
    && (forall p: Param, v: seq<Poly> :: bk.zNormOk(p, v))
    && forall r: nat, beta: real :: 2 <= bk.base0(r, beta) < 0x1_0000
  }

  ghost predicate EqualBases(p: Param) {
    p.Bases() && p.base1 == p.base2 == p.base3 < 0x1_0000_0000
  }

  lemma HonestZero(bk: Backend, inst: Instance, s: seq<Poly>, state: Bytes)
    requires inst.Valid() && IsZero(s)
    ensures var pf := HonestRound(bk, inst, s,
                                  state).proof; IsZero(pf.zHat) && IsZero(pf.t) && IsZero(pf.g) && IsZero(pf.h)
  {
    hide ProverT, ProverG, ProverH, ProverZ, AllEqualities, Aggregate, OpeningU1, OpeningU2, SampleTq, SampleZq,
      SampleChallenges,
      Project, AddedB, IsZero;
    var rd := ProverRound(bk, inst, s, state);
    ZeroProof(inst.param, rd.final.phi, rd.trs.challenges, s);
  }

  lemma BasesFit(p: Param)
    requires EqualBases(p)
    ensures SmallBases(p) && SwappedBasesFit(p)
  {}

  lemma AdvanceZero(bk: Backend, inst: Instance, s: seq<Poly>, state: Bytes)
    requires inst.Valid() && Lenient(bk) && IsZero(s)
    ensures var next := Advance(bk, inst, HonestRound(bk, inst, s, state));
      next.Done? && EqualBases(next.value.inst.param) && IsZero(next.value.s)
  {
    hide ProverRound, IsZero, RecursionConstraints, NextWitness, Param.TLen, Param.GLen, Param.HLen, NextBeta;
    var p, rd := inst.param, HonestRound(bk, inst, s, state);
    HonestZero(bk, inst, s, state);
    ZeroNext(p, rd.proof, bk.base0(p.r, p.beta), NextMu(bk, p), NextNu(bk, p));
  }

  lemma FitsLast(bk: Backend, inst: Instance, s: seq<Poly>, state: Bytes)
    requires inst.Valid() && Lenient(bk) && EqualBases(inst.param)
    ensures RunFits(bk, inst, s, state, 1) && Prove(bk, inst, s, state, 1).Done?
  {
    hide ProverRound, InttVec;
    BasesFit(inst.param);
  }

  lemma FitsStep(bk: Backend, inst: Instance, s: seq<Poly>, state: Bytes, k: nat)
    requires inst.Valid() && Lenient(bk) && k >= 2
    requires Advance(bk, inst, HonestRound(bk, inst, s, state)).Done?
    requires var next := Advance(bk, inst, HonestRound(bk, inst, s, state)).value;
      var st := HonestRound(bk, inst, s, state).trs.seed4;
      RunFits(bk, next.inst, next.s, st, k - 1) && Prove(bk, next.inst, next.s, st, k - 1).Done?
    ensures RunFits(bk, inst, s, state, k) && Prove(bk, inst, s, state, k).Done?
  {
    hide HonestRound, Advance, Instance.Valid;
  }

  /** Every number of rounds of the zero witness runs through. */
  lemma {:induction false} ZeroRunFits(bk: Backend, inst: Instance, s: seq<Poly>, state: Bytes, numRec: nat)
    requires inst.Valid() && Lenient(bk) && EqualBases(inst.param) && IsZero(s) && numRec >= 1
    ensures RunFits(bk, inst, s, state, numRec) && Prove(bk, inst, s, state, numRec).Done?
    decreases numRec
  {
    hide HonestRound, Advance, Instance.Valid, Lenient, EqualBases, IsZero, RunFits, Prove;
    if numRec == 1 {
      FitsLast(bk, inst, s, state);
    } else {
      var rd := HonestRound(bk, inst, s, state);
      AdvanceZero(bk, inst, s, state);
      var next := Advance(bk, inst, rd).value;
      ZeroRunFits(bk, next.inst, next.s, rd.trs.seed4, numRec - 1);
      FitsStep(bk, inst, s, state, numRec);
    }
  }

  /** A backend of constant functions. */
  function ConstantBackend(): Backend {
    Backend(b => [], (b, n, i) => 0, (b, n, i) => ZERO, (b, n, i) => ZERO, (b, n, r, i) => ZERO, (b, n, j, x) => 0,
            (b, p, s) => 0,
            v => [], (i, v) => [], (p, m, l) => [], (p, v) => true, (p, v) => true, (r, beta) => 2, (n, m) => 1,
              (n, m) => 1, 1)
  }

  /** The conditions of completeness can be met for every number of rounds. */
  lemma SomeRun(numRec: nat) returns (bk: Backend, inst: Instance, s: seq<Poly>)
    requires numRec >= 1
    ensures inst.Valid() && Witnessed(inst, s)
    ensures RunFits(bk, inst, s, [], numRec) && Prove(bk, inst, s, [], numRec).Done?
  {
    hide MakeParam, RunFits, Prove;
    bk := ConstantBackend();
    var p := MakeParam(bk, 1, 1, [], 1, 1, 1, 2, 2, 2, 1.0);
    inst, s := Instance(p, [], []), Zeros(1);
    ZeroRunFits(bk, inst, s, [], numRec);
  }
}
