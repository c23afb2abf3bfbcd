/** Polynomials of degree below 64 over Z_q, in coefficient form (Rq) and in value form (Tq). */
module RingRoots {
  import opened Residues
  import opened Powers
  import opened PowersOfTwo
  import opened Roots

  /** Two to this power is the largest order of a root of unity that the parameters provide. */
  const OMEGAS_COUNT: nat := 24

  /** The root of that order. */
  const ROU: int := 0x0309_b111_8be4_40ed

  /** x squared k times. */
  function Squarings(x: int, k: nat): int {
    if k == 0 then x else var y := Squarings(x, k - 1); M(y * y)
  }

  /** A root of order 2^logn. */
  function Omega(logn: nat): int
    requires 1 <= logn <= OMEGAS_COUNT
  {
    Squarings(ROU, OMEGAS_COUNT - logn)
  }

  lemma SquaringsPow(x: int, k: nat)
    ensures M(Pow(x, Pow2(k))) == M(Squarings(x, k))
  {
    if k == 0 {
      assert Pow(x, 1) == x * Pow(x, 0);
    } else {
      SquaringsPow(x, k - 1);
      SquareStep(x, k, Pow(x, Pow2(k - 1)), Squarings(x, k - 1));
    }
  }

  lemma SquareStep(x: int, k: nat, p: int, y: int)
    requires k >= 1 && p == Pow(x, Pow2(k - 1)) && y == Squarings(x, k - 1) && M(p) == M(y)
    ensures M(Pow(x, Pow2(k))) == M(Squarings(x, k))
  {
    hide Pow;
    PowAdd(x, Pow2(k - 1), Pow2(k - 1));
    CongMul(p, y, p, y);
  }

  lemma SquaringsAdd(x: int, j: nat, k: nat, y: int, z: int)
    requires Squarings(x, j) == y && Squarings(y, k) == z
    ensures Squarings(x, j + k) == z
    decreases k
  {
    if k > 0 { SquaringsAdd(x, j, k - 1, y, Squarings(y, k - 1)); }
  }

  lemma Squared(x: int, y: int)
    requires y == M(x * x)
    ensures Squarings(x, 1) == y
  {
    assert Squarings(x, 0) == x;
  }

  /** Seventeen squarings of the root, one at a time. */
  lemma RouToPsi()
    ensures Squarings(ROU, 17) == 0x0519_c7d0_d2ff_7a61
  {
    Squared(0x0309_b111_8be4_40ed, 0x0e8f_258f_ed40_da62);
    Squared(0x0e8f_258f_ed40_da62, 0x05df_3db3_f533_8b7a);
    SquaringsAdd(ROU, 1, 1, 0x0e8f_258f_ed40_da62, 0x05df_3db3_f533_8b7a);
    Squared(0x05df_3db3_f533_8b7a, 0x2b4f_a7e5_fd9c_dd3d);
    SquaringsAdd(ROU, 2, 1, 0x05df_3db3_f533_8b7a, 0x2b4f_a7e5_fd9c_dd3d);
    Squared(0x2b4f_a7e5_fd9c_dd3d, 0x2396_62f1_3b0a_1b0b);
    SquaringsAdd(ROU, 3, 1, 0x2b4f_a7e5_fd9c_dd3d, 0x2396_62f1_3b0a_1b0b);
    Squared(0x2396_62f1_3b0a_1b0b, 0x26ba_bdcb_8e50_976d);
    SquaringsAdd(ROU, 4, 1, 0x2396_62f1_3b0a_1b0b, 0x26ba_bdcb_8e50_976d);
    Squared(0x26ba_bdcb_8e50_976d, 0x2d42_e9c6_2486_d668);
    SquaringsAdd(ROU, 5, 1, 0x26ba_bdcb_8e50_976d, 0x2d42_e9c6_2486_d668);
    Squared(0x2d42_e9c6_2486_d668, 0x085f_c707_771d_2549);
    SquaringsAdd(ROU, 6, 1, 0x2d42_e9c6_2486_d668, 0x085f_c707_771d_2549);
    Squared(0x085f_c707_771d_2549, 0x3656_74c1_67b7_46ee);
    SquaringsAdd(ROU, 7, 1, 0x085f_c707_771d_2549, 0x3656_74c1_67b7_46ee);
    Squared(0x3656_74c1_67b7_46ee, 0x0118_4288_59da_fd4f);
    SquaringsAdd(ROU, 8, 1, 0x3656_74c1_67b7_46ee, 0x0118_4288_59da_fd4f);
    Squared(0x0118_4288_59da_fd4f, 0x0327_7c19_33c4_2cde);
    SquaringsAdd(ROU, 9, 1, 0x0118_4288_59da_fd4f, 0x0327_7c19_33c4_2cde);
    Squared(0x0327_7c19_33c4_2cde, 0x3a31_d3d8_6d87_a8ea);
    SquaringsAdd(ROU, 10, 1, 0x0327_7c19_33c4_2cde, 0x3a31_d3d8_6d87_a8ea);
    Squared(0x3a31_d3d8_6d87_a8ea, 0x061f_1f90_09e6_b3f3);
    SquaringsAdd(ROU, 11, 1, 0x3a31_d3d8_6d87_a8ea, 0x061f_1f90_09e6_b3f3);
    Squared(0x061f_1f90_09e6_b3f3, 0x0d44_6237_2302_d68b);
    SquaringsAdd(ROU, 12, 1, 0x061f_1f90_09e6_b3f3, 0x0d44_6237_2302_d68b);
    Squared(0x0d44_6237_2302_d68b, 0x385b_1a5d_9be6_b050);
    SquaringsAdd(ROU, 13, 1, 0x0d44_6237_2302_d68b, 0x385b_1a5d_9be6_b050);
    Squared(0x385b_1a5d_9be6_b050, 0x39b0_4be8_f6f6_7dc0);
    SquaringsAdd(ROU, 14, 1, 0x385b_1a5d_9be6_b050, 0x39b0_4be8_f6f6_7dc0);
    Squared(0x39b0_4be8_f6f6_7dc0, 0x1748_dd6d_3856_2598);
    SquaringsAdd(ROU, 15, 1, 0x39b0_4be8_f6f6_7dc0, 0x1748_dd6d_3856_2598);
    Squared(0x1748_dd6d_3856_2598, 0x0519_c7d0_d2ff_7a61);
    SquaringsAdd(ROU, 16, 1, 0x1748_dd6d_3856_2598, 0x0519_c7d0_d2ff_7a61);
  }

  /** Six more squarings reach minus one. */
  lemma PsiToMinusOne()
    ensures Squarings(0x0519_c7d0_d2ff_7a61, 6) == Q - 1
  {
    Squared(0x0519_c7d0_d2ff_7a61, 0x046b_9830_8033_5dfe);
    Squared(0x046b_9830_8033_5dfe, 0x006c_544d_b503_4d87);
    SquaringsAdd(0x0519_c7d0_d2ff_7a61, 1, 1, 0x046b_9830_8033_5dfe, 0x006c_544d_b503_4d87);
    Squared(0x006c_544d_b503_4d87, 0x2af3_8450_5d70_079e);
    SquaringsAdd(0x0519_c7d0_d2ff_7a61, 2, 1, 0x006c_544d_b503_4d87, 0x2af3_8450_5d70_079e);
    Squared(0x2af3_8450_5d70_079e, 0x39fd_ac1d_5f18_20c8);
    SquaringsAdd(0x0519_c7d0_d2ff_7a61, 3, 1, 0x2af3_8450_5d70_079e, 0x39fd_ac1d_5f18_20c8);
    Squared(0x39fd_ac1d_5f18_20c8, 0x2abb_cd3a_9c24_e23a);
    SquaringsAdd(0x0519_c7d0_d2ff_7a61, 4, 1, 0x39fd_ac1d_5f18_20c8, 0x2abb_cd3a_9c24_e23a);
    Squared(0x2abb_cd3a_9c24_e23a, 0x3b88_0000_f700_0000);
    SquaringsAdd(0x0519_c7d0_d2ff_7a61, 5, 1, 0x2abb_cd3a_9c24_e23a, 0x3b88_0000_f700_0000);
  }

  lemma RouIsRoot()
    ensures IsRoot(ROU, OMEGAS_COUNT)
  {
    hide Squarings, Pow, Pow2;
    RouToPsi();
    PsiToMinusOne();
    SquaringsAdd(ROU, 17, 6, 0x0519_c7d0_d2ff_7a61, Q - 1);
    SquaringsPow(ROU, OMEGAS_COUNT - 1);
    assert M(Q - 1) == M(-1);
  }

  /** Every order the ring offers: half way round, Omega(logn) is minus one. */
  lemma {:induction false} OmegaIsRoot(logn: nat)
    requires 1 <= logn <= OMEGAS_COUNT
    ensures IsRoot(Omega(logn), logn)
    decreases OMEGAS_COUNT - logn
  {
    if logn == OMEGAS_COUNT {
      RouIsRoot();
    } else {
      OmegaIsRoot(logn + 1);
      OmegaStep(logn, Omega(logn + 1));
    }
  }

  lemma OmegaStep(logn: nat, y: int)
    requires 1 <= logn < OMEGAS_COUNT && y == Omega(logn + 1) && IsRoot(y, logn + 1)
    ensures IsRoot(Omega(logn), logn)
  {
    hide Pow, Pow2;
    RootSquare(y, logn + 1);
    PowCong(y * y, M(y * y), Pow2(logn - 1));
    assert Omega(logn) == M(y * y);
  }
}
