/** Decimation in time: every block of the array holds the transform of its decimated part. */
module Dit {
  import opened Residues
  import opened Products
  import opened Sums
  import opened Powers
  import opened PowersOfTwo
  import opened BitReversal
  import opened Roots
  import opened FourierTransform

  /** The root for blocks of length 2^t, when w is the root for length 2^l. */
  function StageRoot(w: int, l: nat, t: nat): int
    requires t <= l
  {
    Pow(w, Pow2(l - t))
  }

  /** The entries of the block that starts at i, in the order they had before bit reversal. */
  function Decimated(y: int -> int, i: int, t: nat): int -> int {
    m => y(i + Rev(m, t))
  }

  /** What place off of the block that starts at i holds once blocks have length 2^t. */
  function BlockValue(w: int, l: nat, y: int -> int, t: nat, i: int, off: int): int
    requires t <= l
  {
    Dft(StageRoot(w, l, t), Pow2(t), Decimated(y, i, t), off)
  }

  /** The same by place in the whole array. */
  function StageValue(w: int, l: nat, y: int -> int, t: nat, p: nat): int
    requires t <= l
  {
    BlockValue(w, l, y, t, (p / Pow2(t)) * Pow2(t), p % Pow2(t))
  }

  lemma StageRootSquare(w: int, l: nat, t: nat)
    requires t < l
    ensures Pow(StageRoot(w, l, t + 1), 2) == StageRoot(w, l, t)
  {
    PowMul(w, Pow2(l - t - 1), 2);
  }

  lemma StageRootHalf(w: int, l: nat, t: nat)
    requires t < l && IsRoot(w, l)
    ensures M(Pow(StageRoot(w, l, t + 1), Pow2(t))) == M(-1)
    ensures M(Pow(StageRoot(w, l, t + 1), Pow2(t) * 2)) == 1
  {
    PowMul(w, Pow2(l - t - 1), Pow2(t));
    Pow2Add(l - t - 1, t);
    PowMul(w, Pow2(l - t - 1), Pow2(t) * 2);
    Pow2Add(l - t - 1, t + 1);
    RootFull(w, l);
  }

  lemma DftPair(w: int, z: int -> int, k: nat)
    requires k < 2
    ensures Dft(w, 2, z, k) == z(0) + z(1) * (if k == 0 then 1 else w)
  {
    hide Sum, Pow;
    var f := Pointwise(z, DftKernel(w, k));
    SumStep(2, f);
    SumStep(1, f);
    PowSmall(w);
    assert f(0) == z(0) * Pow(w, 0 * k) && f(1) == z(1) * Pow(w, 1 * k);
  }

  lemma PowSmall(w: int)
    ensures Pow(w, 0) == 1 && Pow(w, 1) == w
  {}

  /** Even and odd decimated parts of a block are its two halves. */
  lemma DecimatedHalves(y: int -> int, i: int, t: nat, m: nat)
    ensures Strided(Decimated(y, i, t + 1), 2, 0)(m) == Decimated(y, i, t)(m)
    ensures Strided(Decimated(y, i, t + 1), 2, 1)(m) == Decimated(y, i + Pow2(t), t)(m)
  {
    hide Pow2;
    assert (m * 2) % 2 == 0 && (m * 2) / 2 == m && (m * 2 + 1) % 2 == 1 && (m * 2 + 1) / 2 == m;
    assert Rev(m * 2, t + 1) == 0 * Pow2(t) + Rev(m, t);
    assert Rev(m * 2 + 1, t + 1) == 1 * Pow2(t) + Rev(m, t);
  }

  lemma HalfTurned(w: int, l: nat, y: int -> int, t: nat, i: int, j: nat, b: nat)
    requires t < l && b < 2
    ensures Turned(StageRoot(w, l, t + 1), Pow2(t), 2, Decimated(y, i, t + 1), j)(b)
         == BlockValue(w, l, y, t, i + b * Pow2(t), j) * Pow(StageRoot(w, l, t + 1), b * j)
  {
    hide Sum, Pow, Rev, StageRoot;
    StageRootSquare(w, l, t);
    var n, r := Pow2(t), StageRoot(w, l, t);
    var f, g := Pointwise(Strided(Decimated(y, i, t + 1), 2, b), DftKernel(r, j)),
                Pointwise(Decimated(y, i + b * n, t), DftKernel(r, j));
    forall m | 0 <= m < n ensures f(m) == g(m) {
      DecimatedHalves(y, i, t, m);
    }
    SumExt(n, f, g);
  }

  /** One butterfly takes two places of adjacent blocks to two places of the joined block. */
  lemma Butterfly(w: int, l: nat, y: int -> int, t: nat, i: int, j: nat, u: int, v: int, r: int)
    requires t < l && IsRoot(w, l)
    requires M(u) == M(BlockValue(w, l, y, t, i, j)) && M(v) == M(BlockValue(w, l, y, t, i + Pow2(t), j))
    requires M(r) == M(Pow(StageRoot(w, l, t + 1), j))
    ensures M(u + v * r) == M(BlockValue(w, l, y, t + 1, i, j))
    ensures M(u - v * r) == M(BlockValue(w, l, y, t + 1, i, j + Pow2(t)))
  {
    hide Sum, Pow, IsRoot, BlockValue, StageRoot, Dft;
    var n, s, x := Pow2(t), StageRoot(w, l, t + 1), Decimated(y, i, t + 1);
    StageRootHalf(w, l, t);
    TwoLayers(s, n, 2, x, j, 0);
    TwoLayers(s, n, 2, x, j, 1);
    var z := Turned(s, n, 2, x, j);
    DftPair(Pow(s, n), z, 0);
    DftPair(Pow(s, n), z, 1);
    HalfTurned(w, l, y, t, i, j, 0);
    HalfTurned(w, l, y, t, i, j, 1);
    PowSmall(s);
    var a, b := BlockValue(w, l, y, t, i, j), BlockValue(w, l, y, t, i + n, j);
    assert z(0) == a * 1 && z(1) == b * Pow(s, j);
    JoinedBlock(w, l, y, t, i, j);
    ButterflySums(u, v, r, a, b, Pow(s, j), Pow(s, n));
  }

  lemma JoinedBlock(w: int, l: nat, y: int -> int, t: nat, i: int, j: nat)
    requires t < l
    ensures BlockValue(w, l, y, t + 1, i, j) == Dft(StageRoot(w, l, t + 1), Pow2(t) * 2, Decimated(y, i, t + 1), j)
    ensures BlockValue(w, l, y, t + 1, i, j + Pow2(t))
         == Dft(StageRoot(w, l, t + 1), Pow2(t) * 2, Decimated(y, i, t + 1), j + 1 * Pow2(t))
  {}

  lemma ButterflySums(u: int, v: int, r: int, a: int, b: int, p: int, minus: int)
    requires M(u) == M(a) && M(v) == M(b) && M(r) == M(p) && M(minus) == M(-1)
    ensures M(u + v * r) == M(a * 1 + (b * p) * 1)
    ensures M(u - v * r) == M(a * 1 + (b * p) * minus)
  {
    CongMul(v, b, r, p);
    CongAdd(u, a, v * r, b * p);
    CongSub(u, a, v * r, b * p);
    CongScale(minus, -1, b * p);
    CongAdd(a, a, (b * p) * minus, -(b * p));
  }

  /** Before the first stage every place holds its own entry. */
  lemma FirstStage(w: int, l: nat, y: int -> int, p: nat)
    ensures StageValue(w, l, y, 0, p) == y(p)
  {
    hide Pow;
    var r := StageRoot(w, l, 0);
    SumStep(1, Pointwise(Decimated(y, p, 0), DftKernel(r, 0)));
    PowSmall(r);
    assert Pow(r, 0 * 0) == 1;
    assert p / 1 == p && p % 1 == 0;
  }

  /** After the last stage the array holds the transform of what was bit-reversed into y. */
  lemma LastStage(w: int, l: nat, y: int -> int, x: int -> int, p: nat)
    requires p < Pow2(l)
    requires forall m :: 0 <= m < Pow2(l) ==> y(m) == x(Rev(m, l))
    ensures StageValue(w, l, y, l, p) == Dft(w, Pow2(l), x, p)
  {
    hide Sum, Rev, Pow;
    PowSmall(w);
    var f, g := Pointwise(Decimated(y, 0, l), DftKernel(w, p)), Pointwise(x, DftKernel(w, p));
    forall m | 0 <= m < Pow2(l) ensures f(m) == g(m) {
      RevInvolution(m, l);
    }
    SumExt(Pow2(l), f, g);
    assert p / Pow2(l) == 0 && p % Pow2(l) == p by { SmallDivision(p, Pow2(l)); }
  }

  lemma SmallDivision(p: nat, n: nat)
    requires p < n
    ensures p / n == 0 && p % n == p
  {}
}
