/** Bitwise operations on unsigned words, defined bit by bit, and how they relate to arithmetic. */
module WordBits {
  import opened Words

  function Pow2(n: nat): (r: nat)
    ensures r >= 1
  {
    if n == 0 then 1 else 2 * Pow2(n - 1)
  }

  function And(a: nat, b: nat): (r: nat) {
    if a == 0 || b == 0 then 0 else 2 * And(a / 2, b / 2) + (if a % 2 == 1 && b % 2 == 1 then 1 else 0)
  }

  function Or(a: nat, b: nat): (r: nat)
    decreases a + b
  {
    if a == 0 then b else if b == 0 then a else 2 * Or(a / 2, b / 2) + (if a % 2 == 1 || b % 2 == 1 then 1 else 0)
  }

  function Xor(a: nat, b: nat): (r: nat)
    decreases a + b
  {
    if a == 0 then b else if b == 0 then a else 2 * Xor(a / 2, b / 2) + (if a % 2 != b % 2 then 1 else 0)
  }

  lemma {:induction false} Pow2Add(a: nat, b: nat)
    ensures Pow2(a + b) == Pow2(a) * Pow2(b)
  {
    if a > 0 {
      Pow2Add(a - 1, b);
      Pow2Step(a - 1);
      Pow2Step(a - 1 + b);
      hide Pow2;
      assert 2 * (Pow2(a - 1) * Pow2(b)) == (2 * Pow2(a - 1)) * Pow2(b);
    }
  }

  lemma Pow2Step(k: nat)
    ensures Pow2(k + 1) == 2 * Pow2(k)
  {
  }

  lemma Pow2Small()
    ensures Pow2(0) == 1 && Pow2(6) == 64 && Pow2(7) == 128 && Pow2(8) == 256
  {
    assert Pow2(4) == 16;
  }

  lemma Pow2Constants()
    ensures Pow2(0) == 1 && Pow2(6) == 64 && Pow2(7) == 128 && Pow2(31) == 0x8000_0000 && Pow2(32) == 0x1_0000_0000
    ensures Pow2(63) == 0x8000_0000_0000_0000 && Pow2(64) == TWO64
  {
    hide Pow2;
    Pow2Small();
    Pow2Step(31);
    Pow2Step(63);
    Pow2Add(8, 8);
    Pow2Add(16, 16);
    Pow2Add(32, 32);
  }

  lemma Pow2By7(k: nat)
    ensures Pow2(k + 7) == 128 * Pow2(k)
  {
    assert Pow2(k + 1) == 2 * Pow2(k) && Pow2(k + 2) == 2 * Pow2(k + 1) && Pow2(k + 3) == 2 * Pow2(k + 2);
    assert Pow2(k + 4) == 2 * Pow2(k + 3) && Pow2(k + 5) == 2 * Pow2(k + 4);
    assert Pow2(k + 6) == 2 * Pow2(k + 5) && Pow2(k + 7) == 2 * Pow2(k + 6);
  }

  lemma {:induction false} Pow2Monotone(a: nat, b: nat)
    requires a <= b
    ensures Pow2(a) <= Pow2(b)
  {
    if a < b { Pow2Monotone(a, b - 1); }
  }

  // Bits that do not overlap: or is addition.
  lemma {:induction false} OrDisjoint(high: nat, s: nat, low: nat)
    requires low < Pow2(s)
    ensures Or(high * Pow2(s), low) == high * Pow2(s) + low
    ensures Or(low, high * Pow2(s)) == high * Pow2(s) + low
    decreases s
  {
    if s > 0 && high > 0 && low > 0 {
      var p := Pow2(s - 1);
      assert high * Pow2(s) == 2 * (high * p);
      assert high * p > 0;
      OrDisjoint(high, s - 1, low / 2);
    }
  }

  lemma AndStep(a: nat, b: nat)
    ensures And(a, b) == 2 * And(a / 2, b / 2) + (if a % 2 == 1 && b % 2 == 1 then 1 else 0)
  {
  }

  // Masking with 2^k - 1 is the remainder.
  lemma {:induction false} AndMask(n: nat, k: nat)
    ensures And(n, Pow2(k) - 1) == n % Pow2(k)
    decreases k
  {
    if k > 0 {
      AndMask(n / 2, k - 1);
      AndMaskStep(n, Pow2(k - 1));
    }
  }

  lemma AndMaskStep(n: nat, p: nat)
    requires p >= 1 && And(n / 2, p - 1) == n / 2 % p
    ensures And(n, 2 * p - 1) == n % (2 * p)
  {
    hide And;
    var half, rest := n / 2, n / 2 % p;
    OddMask(n, p, rest);
    HalfMod(n, p);
  }

  lemma OddMask(n: nat, p: nat, rest: nat)
    requires p >= 1 && And(n / 2, p - 1) == rest
    ensures And(n, 2 * p - 1) == 2 * rest + n % 2
  {
    hide And;
    var mask := 2 * p - 1;
    assert mask / 2 == p - 1 && mask % 2 == 1;
    AndStep(n, mask);
  }

  lemma HalfMod(n: nat, p: nat)
    requires p >= 1
    ensures n % (2 * p) == 2 * (n / 2 % p) + n % 2
  {
    var q, r := Divide(n / 2, p);
    assert n == q * (2 * p) + (2 * r + n % 2);
    DivUnique(n, 2 * p, q, 2 * r + n % 2);
  }

  // Quotient and remainder as values.
  lemma Divide(n: nat, d: nat) returns (q: nat, r: nat)
    requires d > 0
    ensures q == n / d && r == n % d && n == q * d + r && r < d
  {
    q, r := n / d, n % d;
    assert n == d * q + r;
  }

  lemma ProductGrows(q: nat, d: nat)
    requires d > 0
    ensures q <= q * d
  {
  }

  lemma Sandwich(n: nat, d: int)
    requires n > 0
    ensures d >= 1 ==> n * d >= n
    ensures d <= -1 ==> n * d <= 0 - n
  {
  }

  lemma DivUnique(a: int, n: nat, q: int, r: int)
    requires n > 0 && a == q * n + r && 0 <= r < n
    ensures a / n == q && a % n == r
  {
    var d := q - a / n;
    assert n * d == a % n - r by { assert a == n * (a / n) + a % n; assert n * q == q * n; assert n * d == n * q - n * (a / n); }
    Sandwich(n, d);
  }

  // x & (x - 1) == 0 exactly for powers of two.
  lemma {:induction false} PowerOfTwo(x: nat) returns (k: nat)
    requires x > 0
    ensures And(x, x - 1) == 0 ==> x == Pow2(k)
    ensures And(x, x - 1) != 0 ==> forall j: nat :: x != Pow2(j)
    decreases x
  {
    if x == 1 {
      k := 0;
    } else if x % 2 == 0 {
      k := PowerOfTwo(x / 2);
      k := k + 1;
      assert (x - 1) / 2 == x / 2 - 1;
      AndStep(x, x - 1);
      if And(x, x - 1) != 0 {
        forall j: nat ensures x != Pow2(j) { if j > 0 { assert Pow2(j) == 2 * Pow2(j - 1); } }
      }
    } else {
      k := 0;
      assert (x - 1) / 2 == x / 2;
      AndStep(x, x - 1);
      AndSelf(x / 2);
      forall j: nat ensures x != Pow2(j) { if j > 0 { assert Pow2(j) == 2 * Pow2(j - 1); } }
    }
  }

  lemma {:induction false} AndSelf(x: nat)
    ensures And(x, x) == x
  {
    if x > 0 { AndSelf(x / 2); }
  }
}
