/** The transform in three layers over one flat memory, without reordering between the layers. */
module LayerLayout {
  import opened Products
  import opened PowersOfTwo
  import opened BitReverseInPlace

  /** Log sizes of the three layers. */
  datatype Layers = Layers(s0: nat, s1: nat, s2: nat) {
    function A(): nat { Pow2(s0) }
    function B(): nat { Pow2(s1) }
    function C(): nat { Pow2(s2) }
    function Size(): nat { Cubed(s0, s1, s2) }
  }

  /** The number of coordinate triples. */
  function Cubed(s0: nat, s1: nat, s2: nat): nat {
    Pow2(s0 + s1 + s2)
  }

  /** Shifts and masks, bit by bit. */
  function Shl(x: nat, n: nat): nat {
    if n == 0 then x else 2 * Shl(x, n - 1)
  }

  function Shr(x: nat, n: nat): nat {
    if n == 0 then x else Shr(x, n - 1) / 2
  }

  function Low(x: nat, n: nat): nat {
    if n == 0 then 0 else 2 * Low(x / 2, n - 1) + x % 2
  }

  lemma QuotientNat(x: nat, d: nat, y: int)
    requires d >= 1 && y == x / d
    ensures y >= 0
  {
    if y <= -1 { NonNegative(-1 - y, d); }
  }

  lemma {:induction false} ShlIs(x: nat, n: nat)
    ensures Shl(x, n) == x * Pow2(n)
  {
    if n > 0 {
      ShlIs(x, n - 1);
      assert x * (2 * Pow2(n - 1)) == 2 * (x * Pow2(n - 1));
    }
  }

  lemma {:induction false} ShrIs(x: nat, n: nat)
    ensures Shr(x, n) == x / Pow2(n)
  {
    if n > 0 {
      ShrIs(x, n - 1);
      var y, d := x / Pow2(n - 1), Pow2(n - 1);
      Associate(2, d, y / 2);
      Distribute(d, y, 2 * (y / 2), y % 2);
      Distribute(d, 2, 1 + y % 2, 1 - y % 2);
      NonNegative(d, 1 - y % 2);
      NonNegative(d, y % 2);
      QuotientUnique(x, 2 * d, y / 2, d * (y % 2) + x % d);
    }
  }

  lemma {:induction false} LowIs(x: nat, n: nat)
    ensures Low(x, n) == x % Pow2(n)
  {
    if n > 0 {
      LowIs(x / 2, n - 1);
      var d := Pow2(n - 1);
      var k := (x / 2) / d;
      Associate(2, d, k);
      QuotientUnique(x, 2 * d, k, 2 * ((x / 2) % d) + x % 2);
    }
  }

  /** The memory place of coordinates (x0, x1, x2). */
  function Mem(ls: Layers, x0: nat, x1: nat, x2: nat): nat {
    Shl(Shl(x0, ls.s1) + x1, ls.s2) + x2
  }

  lemma MemIs(ls: Layers, x0: nat, x1: nat, x2: nat)
    ensures Mem(ls, x0, x1, x2) == (x0 * ls.B() + x1) * ls.C() + x2
  {
    hide Shl, Pow2;
    ShlIs(x0, ls.s1);
    ShlIs(Shl(x0, ls.s1) + x1, ls.s2);
  }

  /** The memory place of an element of a task, by layer. */
  function IdxInMem(ls: Layers, layer: nat, block: nat, sub: nat, e: nat): nat {
    match layer
    case 0 => block + Shl(sub + Shl(e, ls.s1), ls.s2)
    case 1 => block + Shl(e + Shl(sub, ls.s1), ls.s2)
    case _ =>
      var shifted := Shl(block, ls.s1 + ls.s2);
      Low(shifted, ls.s0 + ls.s1 + ls.s2) + Shl(Shr(shifted, ls.s0 + ls.s1 + ls.s2), ls.s2) + e
  }

  lemma SizeIs(ls: Layers)
    ensures ls.Size() == (ls.A() * ls.B()) * ls.C()
    ensures Pow2(ls.s1 + ls.s2) == ls.B() * ls.C()
  {
    hide Pow2;
    Pow2Add(ls.s0 + ls.s1, ls.s2);
    Pow2Add(ls.s0, ls.s1);
    Pow2Add(ls.s1, ls.s2);
  }

  /** The corrected addresses: each layer runs along one coordinate with the other two fixed. */
  lemma IdxIsMem(ls: Layers, x0: nat, x1: nat, x2: nat)
    requires x0 < ls.A() && x1 < ls.B() && x2 < ls.C()
    ensures IdxInMem(ls, 0, x2, x1, x0) == Mem(ls, x0, x1, x2)
    ensures IdxInMem(ls, 1, x2, x0, x1) == Mem(ls, x0, x1, x2)
    ensures IdxInMem(ls, 2, x0 + ls.A() * x1, 0, x2) == Mem(ls, x0, x1, x2)
  {
    hide Pow2, Shl, Shr, Low, Layers.Size;
    NonNegative(ls.A(), x1);
    SizeIs(ls);
    LastLayerIndex(ls.A(), ls.B(), ls.C(), x0, x1, x2);
    MemIs(ls, x0, x1, x2);
    var block := x0 + ls.A() * x1;
    var shifted := Shl(block, ls.s1 + ls.s2);
    ShlIs(block, ls.s1 + ls.s2);
    LowIs(shifted, ls.s0 + ls.s1 + ls.s2);
    ShrIs(shifted, ls.s0 + ls.s1 + ls.s2);
    ShlIs(Shr(shifted, ls.s0 + ls.s1 + ls.s2), ls.s2);
    SizeDefined(ls);
  }

  lemma SizeDefined(ls: Layers)
    ensures ls.Size() == Pow2(ls.s0 + ls.s1 + ls.s2)
  {}

  lemma LastLayerIndex(a: nat, b: nat, c: nat, x0: nat, x1: nat, x2: nat)
    requires x0 < a && x1 < b && x2 < c
    ensures (a * b) * c > 0
    ensures ((x0 + a * x1) * (b * c)) % ((a * b) * c) + ((x0 + a * x1) * (b * c)) / ((a * b) * c) * c + x2
         == (x0 * b + x1) * c + x2
  {
    var n := (a * b) * c;
    Associate(a, b, c);
    StepBelow(x0, a, b * c);
    Distribute(b * c, x0 + a * x1, x0, a * x1);
    assert (a * x1) * (b * c) == x1 * n by { Exchange(a, x1, b, c); Rearrange(a, x1, b, c); }
    NonNegative(x0, b * c);
    QuotientUnique((x0 + a * x1) * (b * c), n, x1, x0 * (b * c));
    Distribute(c, x0 * b + x1, x0 * b, x1);
    Associate(x0, b, c);
  }

  lemma Rearrange(a: int, x: int, b: int, c: int)
    ensures (a * x) * (b * c) == x * ((a * b) * c)
  {
    assert (a * x) * (b * c) == x * (a * (b * c));
    Associate(a, b, c);
  }

  lemma StepBelow(j: nat, h: nat, s: nat)
    requires j < h && s >= 1
    ensures j * s < h * s
  {
    NonNegative(h - j - 1, s);
    Distribute(s, h, h - j - 1, j + 1);
    Distribute(s, j + 1, j, 1);
  }

  lemma MemRange(ls: Layers, x0: nat, x1: nat, x2: nat)
    requires x0 < ls.A() && x1 < ls.B() && x2 < ls.C()
    ensures Mem(ls, x0, x1, x2) < ls.Size()
  {
    hide Pow2;
    SizeIs(ls);
    FlatRange(x0, x1, ls.A(), ls.B());
    FlatRange(x0 * ls.B() + x1, x2, ls.A() * ls.B(), ls.C());
    MemIs(ls, x0, x1, x2);
  }

  lemma FlatRange(i: nat, j: nat, rows: nat, cols: nat)
    requires i < rows && j < cols
    ensures 0 <= i * cols + j < rows * cols
  {
    NonNegative(i, cols);
    NonNegative(rows - i - 1, cols);
    Distribute(cols, rows, rows - i - 1, i + 1);
    Distribute(cols, i + 1, i, 1);
  }

  /** The coordinates of a place. */
  function X0(ls: Layers, m: nat): nat { Shr(Shr(m, ls.s2), ls.s1) }
  function X1(ls: Layers, m: nat): nat { Low(Shr(m, ls.s2), ls.s1) }
  function X2(ls: Layers, m: nat): nat { Low(m, ls.s2) }

  lemma CoordinatesAre(ls: Layers, m: nat)
    ensures X0(ls, m) == (m / ls.C()) / ls.B() && X1(ls, m) == (m / ls.C()) % ls.B() && X2(ls, m) == m % ls.C()
  {
    hide Pow2, Shr, Low;
    ShrIs(m, ls.s2);
    ShrIs(Shr(m, ls.s2), ls.s1);
    LowIs(Shr(m, ls.s2), ls.s1);
    LowIs(m, ls.s2);
  }

  lemma MemCoordinates(ls: Layers, x0: nat, x1: nat, x2: nat)
    requires x1 < ls.B() && x2 < ls.C()
    ensures X0(ls, Mem(ls, x0, x1, x2)) == x0 && X1(ls, Mem(ls, x0, x1, x2)) == x1 && X2(ls, Mem(ls, x0, x1, x2)) == x2
  {
    hide Pow2, Mem, X0, X1, X2;
    MemIs(ls, x0, x1, x2);
    CoordinatesAre(ls, Mem(ls, x0, x1, x2));
    NonNegative(x0, ls.B());
    QuotientUnique(Mem(ls, x0, x1, x2), ls.C(), x0 * ls.B() + x1, x2);
    QuotientUnique(x0 * ls.B() + x1, ls.B(), x0, x1);
  }

  lemma CoordinatesMem(ls: Layers, m: nat)
    requires m < ls.Size()
    ensures X0(ls, m) < ls.A() && X1(ls, m) < ls.B() && X2(ls, m) < ls.C()
    ensures Mem(ls, X0(ls, m), X1(ls, m), X2(ls, m)) == m
  {
    hide Pow2, Mem, X0, X1, X2;
    SizeIs(ls);
    CoordinatesAre(ls, m);
    MemIs(ls, X0(ls, m), X1(ls, m), X2(ls, m));
    QuotientBelow(m, ls.A() * ls.B(), ls.C());
    QuotientBelow(m / ls.C(), ls.A(), ls.B());
  }

  lemma QuotientBelow(m: nat, q: nat, d: nat)
    requires d >= 1 && m < q * d
    ensures m / d < q && m == m / d * d + m % d
  {
    if m / d >= q { AtLeast(q, m / d, d); }
  }

  lemma AtLeast(q: nat, p: nat, d: nat)
    requires p >= q
    ensures p * d >= q * d
  {
    NonNegative(p - q, d);
    Distribute(d, p, p - q, q);
  }
}

module LayeredTransform {
  import opened Residues
  import opened Products
  import opened Sums
  import opened Powers
  import opened PowersOfTwo
  import opened FourierTransform
  import opened LayerLayout

  /** Values by coordinates. */
  type Cube = (int, int, int) -> int

  ghost function Line0(x: Cube, x1: int, x2: int): int -> int { e => x(e, x1, x2) }
  ghost function Line1(x: Cube, x0: int, x2: int): int -> int { e => x(x0, e, x2) }
  ghost function Line2(x: Cube, x0: int, x1: int): int -> int { e => x(x0, x1, e) }

  /** After the first layer: transforms along the first coordinate, turned for the second layer. */
  ghost function First(w: int, ls: Layers, x: Cube): Cube {
    (k0, x1, x2) => Dft(Pow(w, ls.B() * ls.C()), ls.A(), Line0(x, x1, x2), k0) * Pow(Pow(w, ls.C()), x1 * k0)
  }

  /** After the second layer: transforms along the second coordinate, turned for the third. */
  ghost function Second(w: int, ls: Layers, y: Cube): Cube {
    (k0, k1, x2) => Dft(Pow(Pow(w, ls.C()), ls.A()), ls.B(), Line1(y, k0, x2), k1) * Pow(w, x2 * (k0 + k1 * ls.A()))
  }

  /** After the third layer: transforms along the third coordinate. */
  ghost function Third(w: int, ls: Layers, z: Cube): Cube {
    (k0, k1, k2) => Dft(Pow(w, ls.A() * ls.B()), ls.C(), Line2(z, k0, k1), k2)
  }

  /** A flat vector by coordinates. */
  ghost function CubeOf(ls: Layers, x: int -> int): Cube {
    (x0: int, x1: int, x2: int) => x((x0 * ls.B() + x1) * ls.C() + x2)
  }

  /** One strided part after two layers. */
  lemma InnerLayers(w: int, ls: Layers, x: int -> int, k0: nat, k1: nat, b: nat)
    requires M(Pow(w, (ls.A() * ls.B()) * ls.C())) == 1
    ensures M(Dft(Pow(w, ls.C()), ls.A() * ls.B(), Strided(x, ls.C(), b), k0 + k1 * ls.A()))
         == M(Dft(Pow(Pow(w, ls.C()), ls.A()), ls.B(), Line1(First(w, ls, CubeOf(ls, x)), k0, b), k1))
  {
    hide Sum, Pow, Pow2, Dft;
    var a, bb, c := ls.A(), ls.B(), ls.C();
    var v, s := Pow(w, c), Strided(x, c, b);
    PowMul(w, c, a * bb);
    assert c * (a * bb) == (a * bb) * c;
    TwoLayers(v, a, bb, s, k0, k1);
    var f, g := Turned(v, a, bb, s, k0), Line1(First(w, ls, CubeOf(ls, x)), k0, b);
    PowMul(w, c, bb);
    assert c * bb == bb * c;
    forall e | 0 <= e < bb ensures M(f(e)) == M(g(e)) {
      StridedLine(ls, x, e, b);
      DftExt(Pow(v, bb), a, Strided(s, bb, e), Line0(CubeOf(ls, x), e, b), k0);
    }
    DftCong(Pow(v, a), bb, f, g, k1);
  }

  lemma StridedLine(ls: Layers, x: int -> int, e: int, b: int)
    ensures forall m :: Strided(Strided(x, ls.C(), b), ls.B(), e)(m) == Line0(CubeOf(ls, x), e, b)(m)
  {}

  lemma DftExt(w: int, n: nat, x: int -> int, y: int -> int, k: int)
    requires forall j :: x(j) == y(j)
    ensures Dft(w, n, x, k) == Dft(w, n, y, k)
  {
    hide Sum;
    SumExt(n, Pointwise(x, DftKernel(w, k)), Pointwise(y, DftKernel(w, k)));
  }

  /** Three layers compute the whole transform, frequency digits in reverse order of significance. */
  lemma ThreeLayers(w: int, ls: Layers, x: int -> int, k0: nat, k1: nat, k2: nat)
    requires M(Pow(w, ls.Size())) == 1
    ensures M(Third(w, ls, Second(w, ls, First(w, ls, CubeOf(ls, x))))(k0, k1, k2))
         == M(Dft(w, ls.Size(), x, k0 + k1 * ls.A() + k2 * (ls.A() * ls.B())))
  {
    hide Sum, Pow, Pow2, Dft, First;
    SizeIs(ls);
    var p, c, kappa := ls.A() * ls.B(), ls.C(), k0 + k1 * ls.A();
    NonNegative(k1, ls.A());
    TwoLayers(w, p, c, x, kappa, k2);
    var y := First(w, ls, CubeOf(ls, x));
    var f, g := Turned(w, p, c, x, kappa), Line2(Second(w, ls, y), k0, k1);
    forall b | 0 <= b < c ensures M(f(b)) == M(g(b)) {
      InnerLayers(w, ls, x, k0, k1, b);
      var d, e := Dft(Pow(w, c), p, Strided(x, c, b), kappa), Dft(Pow(Pow(w, c), ls.A()), ls.B(), Line1(y, k0, b), k1);
      CongMul(d, e, Pow(w, b * kappa), Pow(w, b * kappa));
    }
    DftCong(Pow(w, p), c, f, g, k2);
  }
}
