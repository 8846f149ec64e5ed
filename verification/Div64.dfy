/** 64-bit division for a 32-bit target (kernel/lib/divdi3.c). */
module Div64 {
  import opened Words
  import opened WordBits

  type U64 = x: int | 0 <= x < 0x1_0000_0000_0000_0000
  type I64 = x: int | -0x8000_0000_0000_0000 <= x < 0x8000_0000_0000_0000

  const INT64_MIN: I64 := -0x8000_0000_0000_0000

  // x << 1 in 64 bits.
  function ShiftLeft(x: U64): U64 { 2 * x % TWO64 }

  // Bit i of n: (n >> i) & 1.
  function Bit(n: U64, i: nat): nat { n / Pow2(i) % 2 }

  lemma NextBit(n: U64, i: nat)
    ensures n / Pow2(i) == 2 * (n / Pow2(i + 1)) + Bit(n, i)
  {
    assert Pow2(i + 1) == 2 * Pow2(i);
    hide Pow2;
    Halve(n, Pow2(i));
  }

  lemma Halve(n: nat, p: nat)
    requires p > 0
    ensures n / p == 2 * (n / (2 * p)) + n / p % 2
  {
    var q, r := Divide(n, p);
    var hi, b := q / 2, q % 2;
    ProductGrows(b, p);
    assert b * p <= p;
    Regroup(q, hi, b, p);
    DivUnique(n, 2 * p, hi, b * p + r);
  }

  lemma Regroup(q: nat, hi: nat, b: nat, p: nat)
    requires q == 2 * hi + b
    ensures q * p == hi * (2 * p) + b * p
  {
  }

  // What one turn of the long division does to quotient and remainder so far.
  lemma DivisionStep(hi: nat, b: nat, d: nat)
    requires d > 0 && b < 2
    ensures var k, r := hi / d, 2 * (hi % d) + b;
      (2 * hi + b) / d == (if r >= d then 2 * k + 1 else 2 * k)
      && (2 * hi + b) % d == (if r >= d then r - d else r)
  {
    var k, s := Divide(hi, d);
    var r := 2 * s + b;
    assert (2 * k + 1) * d == 2 * (k * d) + d && (2 * k) * d == 2 * (k * d);
    if r >= d { DivUnique(2 * hi + b, d, 2 * k + 1, r - d); } else { DivUnique(2 * hi + b, d, 2 * k, r); }
  }

  // The remainder never exceeds the bits of n seen so far, so the shift loses nothing, whatever d is.
  lemma ShiftDoesNotOverflow(n: U64, d: U64, i: nat)
    requires d > 0 && i < 64
    ensures n / Pow2(i + 1) % d < 0x8000_0000_0000_0000
    ensures Or(ShiftLeft(n / Pow2(i + 1) % d), Bit(n, i)) == 2 * (n / Pow2(i + 1) % d) + Bit(n, i)
  {
    assert Pow2(i + 1) == 2 * Pow2(i) && Pow2(1) == 2 * Pow2(0) && Pow2(0) == 1;
    hide Pow2, Bit;
    BitIsBit(n, i);
    UpperHalf(n, Pow2(i + 1));
    QuotientSmaller(n / Pow2(i + 1), d);
    var r := n / Pow2(i + 1) % d;
    assert ShiftLeft(r) == 2 * r;
    OrDisjoint(r, 1, Bit(n, i));
  }

  lemma UpperHalf(n: U64, p: nat)
    requires p >= 2
    ensures 0 <= n / p < 0x8000_0000_0000_0000
  {
    var q, r := Divide(n, p);
    Twice(q, p);
  }

  lemma Twice(q: nat, p: nat)
    requires p >= 2
    ensures 2 * q <= q * p
  {
  }

  lemma QuotientBit(k: nat, i: nat)
    ensures Or(k * Pow2(i + 1), Pow2(i)) == (2 * k + 1) * Pow2(i)
    ensures k * Pow2(i + 1) == (2 * k) * Pow2(i)
  {
    assert Pow2(i + 1) == 2 * Pow2(i);
    hide Pow2, Or;
    OrDisjoint(k, i + 1, Pow2(i));
    Doubled(k, Pow2(i));
  }

  lemma Doubled(k: nat, p: nat)
    ensures k * (2 * p) == (2 * k) * p && (2 * k + 1) * p == (2 * k) * p + p
  {
  }

  lemma TopBits(n: U64)
    ensures n / Pow2(64) == 0
  {
    Pow2Constants();
  }

  // Shift-subtract division: quotient and remainder for every n and d > 0, also d above 2^63.
  method LongDivision(n: U64, d: U64) returns (q: U64, r: U64)
    requires d > 0
    ensures q == n / d && r == n % d
  {
    hide Pow2, Or, ShiftLeft, Bit;
    TopBits(n);
    q, r := 0, 0;
    var i := 63;
    while i >= 0
      invariant -1 <= i <= 63
      invariant q == n / Pow2(i + 1) / d * Pow2(i + 1) && r == n / Pow2(i + 1) % d
      decreases i
    {
      ghost var hi := n / Pow2(i + 1);
      NextBit(n, i);
      BitIsBit(n, i);
      ShiftDoesNotOverflow(n, d, i);
      DivisionStep(hi, Bit(n, i), d);
      QuotientBit(hi / d, i);
      QuotientFits(n, d, i);
      r := Or(ShiftLeft(r), Bit(n, i));
      if r >= d {
        r := r - d;
        q := Or(q, Pow2(i));
      }
      i := i - 1;
    }
    Pow2Constants();
    assert q == n / 1 / d * 1;
  }

  lemma BitIsBit(n: U64, i: nat) ensures 0 <= Bit(n, i) < 2 { }

  lemma QuotientFits(n: U64, d: U64, i: nat)
    requires d > 0
    ensures n / Pow2(i) / d * Pow2(i) <= n
  {
    hide Pow2;
    var p := Pow2(i);
    var hi, r := Divide(n, p);
    QuotientSmaller(hi, d);
    Scaled(hi / d, hi, p);
  }

  lemma Scaled(a: nat, b: nat, p: nat)
    requires a <= b
    ensures a * p <= b * p
  {
  }

  // ---- Power-of-two fast path -----------------------------------------------------

  method ShiftOf(d: U64) returns (shift: nat)
    requires 0 < d <= 0xFFFF_FFFF && And(d, d - 1) == 0
    ensures d == Pow2(shift)
  {
    hide And;
    ghost var k := PowerOfTwo(d);
    shift := 0;
    ShiftedPower(k, 0);
    while d / Pow2(shift) != 1
      invariant 0 <= shift <= k
      decreases k - shift
    {
      ShiftedPower(k, shift);
      shift := shift + 1;
    }
    ShiftedPower(k, shift);
  }

  lemma ShiftedPower(k: nat, shift: nat)
    requires shift <= k
    ensures Pow2(k) / Pow2(shift) == Pow2(k - shift) && (Pow2(k - shift) == 1 <==> k == shift)
  {
    Pow2Add(shift, k - shift);
    DivUnique(Pow2(k), Pow2(shift), Pow2(k - shift), 0);
  }

  /** __udivdi3: the quotient, with the source's 0 for division by zero. */
  method UDiv(n: U64, d: U64) returns (q: U64)
    ensures q == if d == 0 then 0 else n / d
  {
    hide Pow2, And;
    if d == 0 { return 0; }
    if d <= 0xFFFF_FFFF && And(d, d - 1) == 0 {
      var shift := ShiftOf(d);
      QuotientSmaller(n, Pow2(shift));
      return n / Pow2(shift);
    }
    var r;
    q, r := LongDivision(n, d);
  }

  lemma QuotientSmaller(n: nat, d: nat)
    requires d > 0
    ensures 0 <= n / d <= n && 0 <= n % d <= n
  {
    var q, r := Divide(n, d);
    ProductGrows(q, d);
  }

  /** __umoddi3: the remainder. */
  method UMod(n: U64, d: U64) returns (r: U64)
    ensures r == if d == 0 then 0 else n % d
  {
    hide Pow2, And;
    if d == 0 { return 0; }
    if d <= 0xFFFF_FFFF && And(d, d - 1) == 0 {
      ghost var k := PowerOfTwo(d);
      AndMask(n, k);
      QuotientSmaller(n, d);
      return And(n, d - 1);
    }
    var q;
    q, r := LongDivision(n, d);
  }

  /** __udivmoddi4: the remainder is recomputed as n - q * d in 64 bits. */
  method UDivMod(n: U64, d: U64) returns (q: U64, rem: U64)
    ensures d > 0 ==> n == q * d + rem && rem < d
    ensures d == 0 ==> q == 0 && rem == n
  {
    q := UDiv(n, d);
    if d > 0 {
      assert n == q * d + n % d by { assert n == d * (n / d) + n % d; }
      assert n - q * d == n % d;
      assert (n - q * d) % TWO64 == n % d;
    }
    rem := (n - q * d) % TWO64;
  }

  // ---- Signed forms ------------------------------------------------------------------

  function Abs(x: int): nat { if x < 0 then -x else x }

  // Division that truncates toward zero, and the remainder that goes with it.
  function Quot(n: int, d: int): int
    requires d != 0
  {
    if (n < 0) != (d < 0) then -(Abs(n) / Abs(d)) else Abs(n) / Abs(d)
  }

  function Rem(n: int, d: int): int
    requires d != 0
  {
    if n < 0 then -(Abs(n) % Abs(d)) else Abs(n) % Abs(d)
  }

  // These are the truncating quotient and remainder.
  lemma TruncatedDivision(n: int, d: int)
    requires d != 0
    ensures n == Quot(n, d) * d + Rem(n, d)
    ensures Abs(Rem(n, d)) < Abs(d) && (Rem(n, d) == 0 || (Rem(n, d) < 0 <==> n < 0))
    ensures Abs(Quot(n, d) * d) <= Abs(n)
  {
    var q, r := Divide(Abs(n), Abs(d));
    Signs(q, d);
  }

  // No other pair has these properties.
  lemma TruncatedUnique(n: int, d: int, q: int, r: int)
    requires d != 0 && n == q * d + r && Abs(r) < Abs(d) && (r == 0 || (r < 0 <==> n < 0))
    ensures q == Quot(n, d) && r == Rem(n, d)
  {
    hide Quot, Rem;
    TruncatedDivision(n, d);
    SamePair(n, d, q, r, Quot(n, d), Rem(n, d));
  }

  lemma SamePair(n: int, d: int, q: int, r: int, q': int, r': int)
    requires d != 0 && n == q * d + r && n == q' * d + r'
    requires Abs(r) < Abs(d) && Abs(r') < Abs(d) && (r == 0 || (r < 0 <==> n < 0)) && (r' == 0 || (r' < 0 <==> n < 0))
    ensures q == q' && r == r'
  {
    Difference(q, q', d);
    OnlyZero(q - q', d);
  }

  lemma Difference(q: int, q': int, d: int) ensures (q - q') * d == q * d - q' * d { }

  lemma OnlyZero(k: int, d: int)
    requires d != 0 && Abs(k * d) < Abs(d)
    ensures k == 0
  {
    if d > 0 {
      Sandwich(d, k);
      assert d * k == k * d;
    } else {
      Sandwich(0 - d, k);
      assert (0 - d) * k == 0 - k * d;
    }
  }

  lemma Signs(q: nat, d: int)
    ensures (0 - q) * d == 0 - q * d && q * Abs(d) == (if d < 0 then 0 - q * d else q * d) && q * Abs(d) >= 0
  {
    if d < 0 { assert q * (0 - d) == 0 - q * d; }
  }

  /** __divdi3, for operands whose negation does not overflow. */
  method Div(n: I64, d: I64) returns (q: I64)
    requires n != INT64_MIN && d != INT64_MIN
    ensures q == if d == 0 then 0 else Quot(n, d)
  {
    var negative := (n < 0) != (d < 0);
    var u: int := UDiv(Abs(n), Abs(d));
    if d != 0 { QuotientSmaller(Abs(n), Abs(d)); }
    return if negative then -u else u;
  }

  /** __moddi3. */
  method Mod(n: I64, d: I64) returns (r: I64)
    requires n != INT64_MIN && d != INT64_MIN
    ensures r == if d == 0 then 0 else Rem(n, d)
  {
    var u: int := UMod(Abs(n), Abs(d));
    if d != 0 { QuotientSmaller(Abs(n), Abs(d)); }
    return if n < 0 then -u else u;
  }
}
