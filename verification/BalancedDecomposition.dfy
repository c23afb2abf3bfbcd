/** Balanced base-b digits of residues modulo any q > 1. */
module BalancedDigits {
  import opened Products
  import opened Sums
  import opened Powers

  /** The least t with b^t >= q, counted up from t. */
  function CeilLog(q: int, b: int, t: nat): (r: nat)
    requires b >= 2 && q > 1
    ensures r >= t && Pow(b, r) >= q
    ensures forall s :: t <= s < r ==> Pow(b, s) < q
    decreases q - Pow(b, t)
  {
    if Pow(b, t) >= q then t
    else
      PowPositive(b, t);
      CeilLog(q, b, t + 1)
  }

  /** Digits per residue: one more than the plain base-b length when digits may be negative. */
  function NofDigits(q: int, b: int): nat
    requires b >= 2 && q > 1
  {
    if b > 2 then CeilLog(q, b, 0) + 1 else CeilLog(q, b, 0)
  }

  /** The powers of the base grow. */
  lemma {:induction false} PowGrows(b: int, s: nat, t: nat)
    requires b >= 2 && s <= t
    ensures Pow(b, s) <= Pow(b, t)
    decreases t
  {
    if s < t {
      PowGrows(b, s, t - 1);
      PowPositive(b, t - 1);
      NonNegative(b - 1, Pow(b, t - 1));
      Distribute(Pow(b, t - 1), b, b - 1, 1);
    }
  }

  /** But for the spare digit of bases above two, s digits are enough in number exactly when b^s reaches q. */
  lemma NofDigitsLeast(q: int, b: int, s: nat)
    requires b >= 2 && q > 1
    ensures NofDigits(q, b) <= s + (if b > 2 then 1 else 0) <==> q <= Pow(b, s)
  {
    var t := CeilLog(q, b, 0);
    if t <= s { PowGrows(b, t, s); }
  }

  /** The signed representative that the decomposition starts from; base two keeps it unsigned. */
  function Centered(x: int, q: int, b: int): int
    requires q > 1
  {
    if b > 2 && x > q / 2 then x - q else x
  }

  function Digit(v: int, b: int): int
    requires b >= 2
  {
    if v % b > b / 2 then v % b - b else v % b
  }

  function Carry(v: int, b: int): int
    requires b >= 2
  {
    if v % b > b / 2 then v / b + 1 else v / b
  }

  /** The value left over after i digits. */
  function Rest(v: int, b: int, i: int): int
    requires b >= 2
  {
    if i <= 0 then v else Carry(Rest(v, b, i - 1), b)
  }

  lemma DigitCarry(v: int, b: int)
    requires b >= 2
    ensures v == b * Carry(v, b) + Digit(v, b)
    ensures -b < 2 * Digit(v, b) <= b
    ensures b == 2 ==> 0 <= Digit(v, b)
  {
    assert v == b * (v / b) + v % b;
    Distribute(b, v / b + 1, v / b, 1);
  }

  /** Each step divides the magnitude by b, up to a half. */
  lemma CarryShrinks(v: int, b: int, a: int, c: int)
    requires b >= 2 && a == Abs(v) && c == Abs(Carry(v, b))
    ensures 2 * (b * c) <= 2 * a + b
  {
    DigitCarry(v, b);
    if Carry(v, b) < 0 { assert b * c == -(b * Carry(v, b)); }
  }

  function Abs(x: int): nat {
    if x < 0 then -x else x
  }

  /** After i digits the magnitude is at most |v|/b^i + b/(2(b-1)), cleared of denominators. */
  lemma {:induction false} RestBound(v: int, b: int, i: nat)
    requires b >= 2
    ensures 2 * ((b - 1) * (Pow(b, i) * Abs(Rest(v, b, i)))) <= 2 * ((b - 1) * Abs(v)) + b * (Pow(b, i) - 1)
  {
    if i > 0 {
      RestBound(v, b, i - 1);
      var p, a, c := Pow(b, i - 1), Abs(Rest(v, b, i - 1)), Abs(Rest(v, b, i));
      CarryShrinks(Rest(v, b, i - 1), b, a, c);
      PowPositive(b, i - 1);
      BoundStep(b, p, a, c, Abs(v));
    }
  }

  lemma BoundStep(b: int, p: int, a: int, c: int, v: int)
    requires b >= 2 && p >= 1 && 2 * (b * c) <= 2 * a + b
    requires 2 * ((b - 1) * (p * a)) <= 2 * ((b - 1) * v) + b * (p - 1)
    ensures 2 * ((b - 1) * ((b * p) * c)) <= 2 * ((b - 1) * v) + b * (b * p - 1)
  {
    var u, x := b - 1, b * c;
    NonNegative(u, p);
    NonNegative(u * p, 2 * a + b - 2 * x);
    Distribute(u * p, 2 * a + b, 2 * a + b - 2 * x, 2 * x);
    Distribute(u * p, 2 * a + b, 2 * a, b);
    TwiceIn(u * p, x);
    TwiceIn(u * p, a);
    Associate(u, p, x);
    Associate(u, p, a);
    assert p * x == (b * p) * c by { Associate(p, b, c); }
    assert (u * p) * b == b * (b * p) - b * p by { Distribute(p, b, u, 1); Distribute(b, b * p, u * p, p); }
  }

  lemma TwiceIn(m: int, x: int)
    ensures m * (2 * x) == 2 * (m * x)
  {}

  lemma UnsignedRest(v: int, i: nat)
    requires v >= 0
    ensures Rest(v, 2, i) >= 0 && Pow(2, i) * Rest(v, 2, i) <= v
  {
    if i > 0 {
      UnsignedRest(v, i - 1);
      var p, a, c := Pow(2, i - 1), Rest(v, 2, i - 1), Rest(v, 2, i);
      assert 2 * c <= a;
      PowPositive(2, i - 1);
      NonNegative(p, a - 2 * c);
      Distribute(p, a, a - 2 * c, 2 * c);
      assert (2 * p) * c == p * (2 * c);
    }
  }

  /** Nothing is left after the computed number of digits. */
  lemma DigitsSuffice(x: int, q: int, b: int)
    requires b >= 2 && q > 1 && 0 <= x < q
    ensures Rest(Centered(x, q, b), b, NofDigits(q, b)) == 0
  {
    var v, t := Centered(x, q, b), CeilLog(q, b, 0);
    if b == 2 {
      UnsignedRest(v, t);
      PositiveFactor(Pow(2, t), Rest(v, 2, t), q);
    } else {
      RestBound(v, b, t);
      LastCarry(b, Pow(b, t), Abs(Rest(v, b, t)), Abs(v), q);
      LastDigit(Rest(v, b, t), b);
      assert Rest(v, b, t + 1) == Carry(Rest(v, b, t), b);
    }
  }

  lemma LastDigit(v: int, b: int)
    requires b > 2 && -1 <= v <= 1
    ensures Carry(v, b) == 0
  {
    if v == -1 {
      assert v == b * -1 + (b - 1);
      assert v / b == -1 && v % b == b - 1;
    }
  }

  lemma PositiveFactor(p: int, r: int, q: int)
    requires r >= 0 && p >= q > 1 && p * r < q
    ensures r == 0
  {
    if r >= 1 {
      NonNegative(p, r - 1);
      Distribute(p, r, r - 1, 1);
    }
  }

  lemma LastCarry(b: int, p: int, a: nat, v: nat, q: int)
    requires b > 2 && p >= q && 2 * v <= q && p >= 1
    requires 2 * ((b - 1) * (p * a)) <= 2 * ((b - 1) * v) + b * (p - 1)
    ensures a <= 1
  {
    if a >= 2 {
      var u := b - 1;
      Distribute(p, b, u, 1);
      Distribute(b, p, p - 1, 1);
      assert 2 * (u * v) <= u * p by { NonNegative(u, p - 2 * v); Distribute(u, p, p - 2 * v, 2 * v); TwiceIn(u, v); }
      assert u * (p * a) >= 2 * (u * p) by {
        NonNegative(p, a - 2);
        NonNegative(u, p * (a - 2));
        Distribute(p, a, a - 2, 2);
        Distribute(u, p * a, p * (a - 2), p * 2);
        TwiceIn(u, p);
      }
      TwiceSmaller(u, p);
      assert false;
    }
  }

  lemma TwiceSmaller(u: int, p: int)
    requires u >= 2 && p >= 1
    ensures u * p >= 2 * p
  {
    NonNegative(u - 2, p);
  }

  /** The digits of v with their weights. */
  function DigitTerms(v: int, b: int): int -> int
    requires b >= 2
  {
    i => Pow(b, i) * Digit(Rest(v, b, i), b)
  }

  /** The digits carry the value, up to what is left over. */
  lemma {:induction false} DigitsValue(v: int, b: int, l: nat)
    requires b >= 2
    ensures v == Sum(l, DigitTerms(v, b)) + Pow(b, l) * Rest(v, b, l)
  {
    if l > 0 {
      DigitsValue(v, b, l - 1);
      var p, r := Pow(b, l - 1), Rest(v, b, l - 1);
      DigitCarry(r, b);
      Distribute(p, r, b * Carry(r, b), Digit(r, b));
      Associate(p, b, Carry(r, b));
    }
  }

  /** Round trip: the computed number of digits adds up to the centred representative, hence to x. */
  lemma RoundTrip(x: int, q: int, b: int)
    requires b >= 2 && q > 1 && 0 <= x < q
    ensures Sum(NofDigits(q, b), DigitTerms(Centered(x, q, b), b)) == Centered(x, q, b)
    ensures Sum(NofDigits(q, b), DigitTerms(Centered(x, q, b), b)) % q == x
  {
    hide Sum, Pow, Rest, DigitTerms, NofDigits, Centered;
    DigitsValue(Centered(x, q, b), b, NofDigits(q, b));
    DigitsSuffice(x, q, b);
    CenteredResidue(x, q, b);
  }

  lemma CenteredResidue(x: int, q: int, b: int)
    requires q > 1 && 0 <= x < q
    ensures Centered(x, q, b) % q == x
  {
    if b > 2 && x > q / 2 { OnePeriodLess(x, q); }
  }

  lemma OnePeriodLess(x: int, q: int)
    requires q > 1 && 0 <= x < q
    ensures (x - q) % q == x
  {
    var d := (x - q) / q;
    if d >= 0 { NonNegative(d, q); } else if d <= -2 { NonNegative(-2 - d, q); }
  }

  /** Later remainders stay in the centred range, so re-centring them changes nothing. */
  lemma RestCentered(v: int, q: int, b: int, i: nat)
    requires b > 2 && q > 1 && 2 * Abs(v) <= q
    ensures 2 * Abs(Rest(v, b, i)) <= q
    ensures 2 * Abs(Digit(Rest(v, b, i), b)) <= q
  {
    if i > 0 {
      RestCentered(v, q, b, i - 1);
      var a, c := Abs(Rest(v, b, i - 1)), Abs(Rest(v, b, i));
      CarryShrinks(Rest(v, b, i - 1), b, a, c);
      HalfBound(b, q, c);
    }
    SmallDigit(Rest(v, b, i), q, b);
  }

  lemma HalfBound(b: int, q: int, c: int)
    requires b > 2 && q > 1 && 2 * (b * c) <= q + b
    ensures 2 * c <= q
  {
    if 2 * c > q {
      NonNegative(b, 2 * c - q - 1);
      Distribute(b, 2 * c - 1, 2 * c - q - 1, q);
      Distribute(b, 2 * c, 2 * c - 1, 1);
      TwiceIn(b, c);
      NonNegative(b - 2, q);
      Distribute(q, b, b - 2, 2);
    }
  }

  lemma SmallDigit(v: int, q: int, b: int)
    requires b >= 2 && 2 * Abs(v) <= q
    ensures 2 * Abs(Digit(v, b)) <= q
  {
    DigitCarry(v, b);
    var c := Carry(v, b);
    if c >= 1 {
      NonNegative(b, c - 1);
      Distribute(b, c, c - 1, 1);
    } else if c <= -1 {
      NonNegative(b, -1 - c);
      assert b * (-1 - c) == -b - b * c;
    }
  }
}

/** The CPU loops that produce and consume the digits. */
module DecompositionLoops {
  import opened Residues
  import opened Products
  import opened Sums
  import opened Powers
  import opened BalancedDigits

  /** Division rounding toward zero, as the machine does it. */
  function TruncDiv(a: int, b: int): int
    requires b > 0
  {
    if a >= 0 then a / b else -(-a / b)
  }

  /** Truncating division corrected to round down. */
  method DivMod(a: int, base: int) returns (quot: int, rem: int)
    requires base > 0
    ensures quot == a / base && rem == a % base
  {
    quot := TruncDiv(a, base);
    rem := a - quot * base;
    if rem != 0 && a < 0 {
      quot := quot - 1;
      rem := rem + base;
    }
    FloorUnique(a, base, quot, rem);
  }

  lemma FloorUnique(a: int, b: int, x: int, r: int)
    requires b > 0 && a == x * b + r && 0 <= r < b
    ensures x == a / b && r == a % b
  {
    var d := x - a / b;
    assert d * b == a % b - r;
    if d >= 1 { NonNegative(d - 1, b); } else if d <= -1 { NonNegative(-1 - d, b); }
  }

  /** A digit as it is stored: negative digits wrap to the top of the residues. */
  function Stored(d: int, q: int): int {
    if d < 0 then d + q else d
  }

  /** Digit number i of the residue x. */
  function DigitOf(x: int, q: int, b: int, i: int): int
    requires b >= 2 && q > 1
  {
    Stored(Digit(Rest(Centered(x, q, b), b, i), b), q)
  }

  /** What the loop holds for x after i digits, before centring. */
  function Remainder(x: int, q: int, b: int, i: int): int
    requires b >= 2 && q > 1
  {
    if i <= 0 then x else Rest(Centered(x, q, b), b, i)
  }

  lemma CenteredRemainder(x: int, q: int, b: int, i: nat)
    requires b >= 2 && q > 1 && 0 <= x < q
    ensures Centered(Remainder(x, q, b, i), q, b) == Rest(Centered(x, q, b), b, i)
  {
    if i > 0 && b > 2 { RestCentered(Centered(x, q, b), q, b, i); }
  }

  /** One row of the digit-major output. */
  function DigitRow(input: seq<int>, q: int, b: int, d: int): (row: seq<int>)
    requires b >= 2 && q > 1
    ensures |row| == |input|
  {
    seq(|input|, i requires 0 <= i < |input| => DigitOf(input[i], q, b, d))
  }

  function DigitRows(input: seq<int>, q: int, b: int, digits: nat): seq<int>
    requires b >= 2 && q > 1
  {
    if digits == 0 then [] else DigitRows(input, q, b, digits - 1) + DigitRow(input, q, b, digits - 1)
  }

  function Remainders(input: seq<int>, q: int, b: int, d: int): (rest: seq<int>)
    requires b >= 2 && q > 1
    ensures |rest| == |input|
  {
    seq(|input|, i requires 0 <= i < |input| => Remainder(input[i], q, b, d))
  }

  /** One step of the loop on one element. */
  method DigitStep(remainder: int, q: int, base: int) returns (val: int, stored: int)
    requires base >= 2 && q > 1
    ensures val == Carry(Centered(remainder, q, base), base)
    ensures stored == Stored(Digit(Centered(remainder, q, base), base), q)
  {
    val := remainder;
    if base > 2 && val > q / 2 { val := val - q; }
    var digit;
    val, digit := DivMod(val, base);
    if digit > base / 2 {
      digit := digit - base;
      val := val + 1;
    }
    stored := if digit < 0 then digit + q else digit;
  }

  /** The outer loop runs over digits, the inner one over elements; the output is digit-major. */
  method Decompose(input: seq<int>, q: int, base: int, digits: nat) returns (output: seq<int>)
    requires base >= 2 && q > 1
    requires forall i :: 0 <= i < |input| ==> 0 <= input[i] < q
    ensures output == DigitRows(input, q, base, digits)
  {
    var remainder := input;
    output := [];
    for d := 0 to digits
      invariant remainder == Remainders(input, q, base, d)
      invariant output == DigitRows(input, q, base, d)
    {
      ghost var before := remainder;
      var digitBuf: seq<int> := [];
      for i := 0 to |input|
        invariant |digitBuf| == i && |remainder| == |input|
        invariant forall j :: 0 <= j < i ==> digitBuf[j] == DigitOf(input[j], q, base, d)
        invariant forall j :: 0 <= j < i ==> remainder[j] == Remainder(input[j], q, base, d + 1)
        invariant forall j :: i <= j < |input| ==> remainder[j] == before[j]
      {
        CenteredRemainder(input[i], q, base, d);
        var val, stored := DigitStep(remainder[i], q, base);
        remainder := remainder[i := val];
        digitBuf := digitBuf + [stored];
      }
      assert digitBuf == DigitRow(input, q, base, d);
      assert remainder == Remainders(input, q, base, d + 1);
      output := output + digitBuf;
    }
  }

  /** The digits weighted with the powers of the base. */
  function WeightedDigits(ds: seq<Zq>, base: int): int -> int {
    i => Pow(base, i) * (if 0 <= i < |ds| then ds[i] else 0)
  }

  /** From the most significant digit to the least. */
  method RecomposeElement(ds: seq<Zq>, base: int) returns (acc: Zq)
    ensures acc == M(Sum(|ds|, WeightedDigits(ds, base)))
  {
    hide Sum, Pow, M, WeightedDigits;
    ghost var f := WeightedDigits(ds, base);
    acc := 0;
    var k := |ds|;
    while k > 0
      invariant 0 <= k <= |ds|
      invariant M(Pow(base, k) * acc + Sum(k, f)) == M(Sum(|ds|, f))
    {
      SumStep(k, f);
      DigitTerm(ds, base, k - 1);
      HornerStep(Pow(base, k - 1), base, acc, ds[k - 1], Sum(k - 1, f));
      k := k - 1;
      acc := M(acc * base + ds[k]);
    }
    SumStep(0, f);
    NoDigits(acc, base);
  }

  lemma DigitTerm(ds: seq<Zq>, base: int, i: nat)
    requires i < |ds|
    ensures WeightedDigits(ds, base)(i) == Pow(base, i) * ds[i]
    ensures Pow(base, i + 1) == base * Pow(base, i)
  {}

  lemma NoDigits(acc: Zq, base: int)
    ensures M(Pow(base, 0) * acc + 0) == acc
  {
    assert Pow(base, 0) == 1;
  }

  lemma HornerStep(p: int, b: int, acc: int, d: int, s: int)
    ensures M(p * M(acc * b + d) + s) == M((b * p) * acc + (s + p * d))
  {
    hide M;
    MTwice(acc * b + d);
    CongScale(M(acc * b + d), acc * b + d, p);
    CongAdd(p * M(acc * b + d), p * (acc * b + d), s, s);
    Distribute(p, acc * b + d, acc * b, d);
    assert p * (acc * b) == (b * p) * acc by { Associate(p, acc, b); Associate(b, p, acc); }
  }
}
