/** The constraint system and the witness that carry one round's base proof into the next round. */
module Recursion {
  import opened Residues
  import opened Products
  import opened Sums
  import opened Powers
  import opened Arrays
  import opened Transforms
  import opened Polynomials
  import opened Vectors
  import opened Packing
  import opened Constraints
  import opened DigitVectors
  import opened Layout
  import opened Parameters
  import opened BaseChecks

  /** The polynomial whose values are all x. */
  function ConstPoly(x: int): Poly {
    Tabulate(k => x)
  }

  function RecursionLayout(p: Param, mu: nat, nu: nat): Preparer
    requires p.Valid() && mu >= 1 && nu >= 1
  {
    Prepare(p.n, p.TLen(), p.GLen(), p.HLen(), mu, nu)
  }

  /** base0 * base0 in 32-bit unsigned arithmetic. */
  function WrapSquare(base0: nat): nat {
    (base0 * base0) % 0x1_0000_0000
  }

  function Pick(b: bool, x: Poly, y: Poly): Poly {
    if b then x else y
  }

  function HalveDiagonal(m: seq<Poly>, r: nat): seq<Poly> {
    Grid(r, r, HalvedEntry(m, r))
  }

  function HalvedEntry(m: seq<Poly>, r: nat): (int, int) -> Poly {
    (i, j) => Pick(i == j, PolyScale(HALF, PolyAt(m, i * r + j)), PolyAt(m, i * r + j))
  }

  /** Packed c*c^t with both mirror images counted off the diagonal. */
  function OuterSymm(c: seq<Poly>, r: nat): (v: seq<Poly>)
    ensures |v| == Off(r, r)
  {
    SymmPart(HalveDiagonal(VecScale(2, Matmul(c, r, 1, c, r)), r), r)
  }

  /** Packed a + a^t with the diagonal counted once. */
  function FoldedSymm(a: seq<Poly>, r: nat): (v: seq<Poly>)
    ensures |v| == Off(r, r)
  {
    SymmPart(HalveDiagonal(VecAdd(a, Transpose(a, r, r)), r), r)
  }

  function IdentityEntry(i: int, j: int): Poly {
    Pick(i == j, ConstPoly(1), ZERO)
  }

  function SymmIdentity(r: nat): (v: seq<Poly>)
    ensures |v| == Off(r, r)
  {
    Pack(r, IdentityEntry)
  }

  function NegChallengeEntry(c: seq<Poly>, i: int): (int, int) -> Poly {
    (j, m) => Pick(m == i, PolyNeg(PolyAt(c, j)), ZERO)
  }

  /** -c_j in column i of row j of an r x kappa matrix. */
  function NegChallenges(c: seq<Poly>, r: nat, kappa: nat, i: int): (v: seq<Poly>)
    ensures |v| == r * kappa
  {
    Grid(r, kappa, NegChallengeEntry(c, i))
  }

  /** A constraint over the witnesses that the layout describes. */
  predicate FitsInto(c: Equality, pr: Preparer) {
    c.Valid() && c.r == pr.rPrime && c.n == pr.nPrime
  }

  function LinearConstraint(pr: Preparer, parts: Parts, b: Poly): (r: Equality)
    requires Fits(pr) && Shaped(pr, parts)
    ensures FitsInto(r, pr)
  {
    Equality(pr.rPrime, pr.nPrime, Zeros(pr.rPrime * pr.rPrime), Packed(pr, parts), b)
  }

  /** -u1[i] + (t B)_i + (g C)_i = 0 */
  function U1Constraint(p: Param, pr: Preparer, u1: seq<Poly>, i: int): (r: Equality)
    requires Fits(pr)
    ensures FitsInto(r, pr)
  {
    LinearConstraint(pr,
      Parts(Zeros(pr.prevN), Zeros(pr.prevN), Column(p.matB, p.kappa1, i, pr.tLen),
            Column(p.matC, p.kappa1, i, pr.gLen), Zeros(pr.hLen)),
      PolyNeg(PolyAt(u1, i)))
  }

  /** -u2[i] + (h D)_i = 0 */
  function U2Constraint(p: Param, pr: Preparer, u2: seq<Poly>, i: int): (r: Equality)
    requires Fits(pr)
    ensures FitsInto(r, pr)
  {
    LinearConstraint(pr,
      Parts(Zeros(pr.prevN), Zeros(pr.prevN), Zeros(pr.tLen), Zeros(pr.gLen), Column(p.matD, p.kappa2, i, pr.hLen)),
      PolyNeg(PolyAt(u2, i)))
  }

  /** (z A)_i - sum_j c_j t_ji = 0 */
  function AConstraint(p: Param, pr: Preparer, c: seq<Poly>, base0: nat, i: int): (r: Equality)
    requires Fits(pr) && p.Bases() && pr.tLen == p.TLen()
    ensures FitsInto(r, pr)
  {
    var col := Column(p.matA, p.kappa, i, pr.prevN);
    LinearConstraint(pr,
      Parts(col, VecScale(base0, col), DigitWeights(NegChallenges(c, p.r, p.kappa, i), p.base1, Digits(p.base1)),
            Zeros(pr.gLen), Zeros(pr.hLen)),
      ZERO)
  }

  /** c^t Phi z - c^t H c = 0 */
  function PhiConstraint(p: Param, pr: Preparer, phi: seq<Poly>, c: seq<Poly>, base0: nat): (r: Equality)
    requires Fits(pr) && p.Bases() && pr.prevN == p.n && pr.hLen == p.HLen()
    ensures FitsInto(r, pr)
  {
    var cPhi := Matmul(c, 1, p.r, phi, p.n);
    LinearConstraint(pr,
      Parts(cPhi, VecScale(base0, cPhi), Zeros(pr.tLen), Zeros(pr.gLen),
            DigitWeights(VecNeg(OuterSymm(c, p.r)), p.base3, Digits(p.base3))),
      ZERO)
  }

  /** <a,G> + tr H + b = 0 */
  function TraceConstraint(p: Param, pr: Preparer, fc: Equality): (r: Equality)
    requires Fits(pr) && p.Bases() && pr.gLen == p.GLen() && pr.hLen == p.HLen()
    ensures FitsInto(r, pr)
  {
    LinearConstraint(pr,
      Parts(Zeros(pr.prevN), Zeros(pr.prevN), Zeros(pr.tLen),
            DigitWeights(FoldedSymm(fc.a, p.r), p.base2, Digits(p.base2)),
            DigitWeights(SymmIdentity(p.r), p.base3, Digits(p.base3))),
      fc.b)
  }

  /** The coefficients of <z0 + base0*z1, z0 + base0*z1> over the first 2*nu rows. */
  function SquareBlocks(pr: Preparer, base0: nat): (v: seq<Poly>)
    ensures |v| == pr.rPrime * pr.rPrime
  {
    Grid(pr.rPrime, pr.rPrime, BlockEntry(pr.nu, base0))
  }

  function BlockEntry(nu: nat, base0: nat): (int, int) -> Poly {
    (i, j) => ConstPoly(BlockCoefficient(nu, base0, i, j))
  }

  function BlockCoefficient(nu: nat, base0: nat, i: int, j: int): int {
    if i < nu then (if j == i then 1 else if j == i + nu then base0 else 0)
    else if i < 2 * nu then (if j == i then WrapSquare(base0) else if j == i - nu then base0 else 0)
    else 0
  }

  /** <z,z> - c^t G c = 0 */
  function ZConstraint(p: Param, pr: Preparer, c: seq<Poly>, base0: nat): (r: Equality)
    requires Fits(pr) && p.Bases() && pr.gLen == p.GLen()
    ensures FitsInto(r, pr)
  {
    Equality(pr.rPrime, pr.nPrime, SquareBlocks(pr, base0),
      Packed(pr, Parts(Zeros(pr.prevN), Zeros(pr.prevN), Zeros(pr.tLen),
                       DigitWeights(VecNeg(OuterSymm(c, p.r)), p.base2, Digits(p.base2)), Zeros(pr.hLen))),
      ZERO)
  }

  /** Everything that the next round has to satisfy. */
  function RecursionConstraints(p: Param, fc: Equality, u1: seq<Poly>, u2: seq<Poly>, c: seq<Poly>,
                                base0: nat, mu: nat, nu: nat): seq<Equality>
    requires p.Valid() && mu >= 1 && nu >= 1
  {
    PrepareFits(p.n, p.TLen(), p.GLen(), p.HLen(), mu, nu);
    var pr := RecursionLayout(p, mu, nu);
    Vec(p.kappa1, i => U1Constraint(p, pr, u1, i))
      + Vec(p.kappa2, i => U2Constraint(p, pr, u2, i))
      + Vec(p.kappa, i => AConstraint(p, pr, c, base0, i))
      + [PhiConstraint(p, pr, fc.phi, c, base0), TraceConstraint(p, pr, fc), ZConstraint(p, pr, c, base0)]
  }

  function NttParts(w: Parts): Parts {
    Parts(NttVec(w.z0), NttVec(w.z1), NttVec(w.t), NttVec(w.g), NttVec(w.h))
  }

  /** The values of z = z0 + base0 * z1. */
  function ZHat(z0: seq<Poly>, z1: seq<Poly>, base0: nat): (v: seq<Poly>)
    ensures |v| == |z0|
  {
    VecAdd(NttVec(z0), VecScale(base0, NttVec(z1)))
  }

  // ---- Coordinates of the coefficient vectors. ----

  lemma OuterSymmSlot(c: seq<Poly>, r: nat, i: nat, j: nat, k: nat)
    requires i <= j < r && k < D
    ensures M(Slot(OuterSymm(c, r), Place(r, i, j), k)) == M(Folded(Outer(c, k), i, j))
  {
    hide Matmul, Grid, Off, Place, Slot, VecScale, HalveDiagonal, SymmPart, M;
    var cc := Matmul(c, r, 1, c, r);
    SymmSlot(HalveDiagonal(VecScale(2, cc), r), r, i, j, k);
    HalveSlot(VecScale(2, cc), r, i, j, k);
    RowMajor(i, j, r, r);
    OuterProduct(c, r, i, j, k);
    ScaleSlot(2, cc, i * r + j, k);
    OuterFold(Slot(c, i, k), Slot(c, j, k), Slot(cc, i * r + j, k), Slot(VecScale(2, cc), i * r + j, k),
              Slot(OuterSymm(c, r), Place(r, i, j), k), i == j);
  }

  lemma OuterFold(x: int, y: int, xy: int, twice: int, s: int, diagonal: bool)
    requires M(xy) == M(x * y) && twice == M(2 * xy) && (diagonal ==> x == y)
    requires M(s) == M(if diagonal then HALF * twice else twice)
    ensures M(s) == M(if diagonal then x * x else x * y + y * x)
  {
    hide M;
    CongScale(xy, x * y, 2);
    MTwice(2 * xy);
    if diagonal {
      CongScale(twice, 2 * (x * y), HALF);
      HalfTwice(x * y);
    } else {
      assert y * x == x * y;
      assert 2 * (x * y) == x * y + y * x;
    }
  }

  lemma OuterProduct(c: seq<Poly>, r: nat, i: nat, j: nat, k: nat)
    requires i < r && j < r && k < D
    ensures M(Slot(Matmul(c, r, 1, c, r), i * r + j, k)) == M(Slot(c, i, k) * Slot(c, j, k))
  {
    hide Matmul, Slot;
    MatmulSlot(c, r, 1, c, r, i, j, k);
    var f := l => Slot(c, i * 1 + l, k) * Slot(c, l * r + j, k);
    SumStep(1, f);
    assert f(0) == Slot(c, i, k) * Slot(c, j, k);
  }

  lemma SymmSlot(m: seq<Poly>, r: nat, i: nat, j: nat, k: int)
    requires i <= j < r
    ensures Slot(SymmPart(m, r), Place(r, i, j), k) == Slot(m, i * r + j, k)
  {
    hide PackRows, Off;
    PackAt(r, Entry(m, r), r, i, j - i);
  }

  lemma HalveSlot(m: seq<Poly>, r: nat, i: nat, j: nat, k: nat)
    requires i < r && j < r && k < D
    ensures M(Slot(HalveDiagonal(m, r), i * r + j, k))
         == M(if i == j then HALF * Slot(m, i * r + j, k) else Slot(m, i * r + j, k))
  {
    hide Grid, M, PolyScale;
    GridAt(r, r, HalvedEntry(m, r), i, j);
    assert HalvedEntry(m, r)(i, j) == Pick(i == j, PolyScale(HALF, PolyAt(m, i * r + j)), PolyAt(m, i * r + j));
    ScaledPoly(HALF, PolyAt(m, i * r + j), k);
    MTwice(HALF * Slot(m, i * r + j, k));
  }

  lemma ScaledPoly(c: int, p: Poly, k: nat)
    requires k < D
    ensures At(PolyScale(c, p), k) == M(c * At(p, k))
  {}

  lemma FoldedSymmSlot(a: seq<Poly>, r: nat, i: nat, j: nat, k: nat)
    requires i <= j < r && k < D && |a| == r * r
    ensures M(Slot(FoldedSymm(a, r), Place(r, i, j), k)) == M(Folded(EntryAt(a, r, k), i, j))
  {
    hide Transpose, Grid, Off, Place, Slot, VecAdd, HalveDiagonal, SymmPart, M;
    var s := VecAdd(a, Transpose(a, r, r));
    SymmSlot(HalveDiagonal(s, r), r, i, j, k);
    HalveSlot(s, r, i, j, k);
    RowMajor(i, j, r, r);
    VecAddSlot(a, Transpose(a, r, r), i * r + j, k);
    TransposeSlot(a, r, r, i, j, k);
    SumFold(Slot(a, i * r + j, k), Slot(a, j * r + i, k), Slot(s, i * r + j, k),
            Slot(FoldedSymm(a, r), Place(r, i, j), k), i == j);
  }

  lemma SumFold(x: int, y: int, sum: int, s: int, diagonal: bool)
    requires sum == M(x + y) && (diagonal ==> x == y)
    requires M(s) == M(if diagonal then HALF * sum else sum)
    ensures M(s) == M(if diagonal then x else x + y)
  {
    if diagonal {
      CongScale(sum, 2 * x, HALF);
      HalfTwice(x);
    }
  }

  lemma SymmIdentitySlot(r: nat, i: nat, j: nat, k: nat)
    requires i <= j < r && k < D
    ensures Slot(SymmIdentity(r), Place(r, i, j), k) == if i == j then 1 else 0
  {
    hide PackRows, Off;
    PackAt(r, IdentityEntry, r, i, j - i);
    assert IdentityEntry(i, j) == Pick(i == j, ConstPoly(1), ZERO);
    assert At(ConstPoly(1), k) == M(1) && At(ZERO, k) == M(0);
  }
}
