/**
 What the i32 operators of `M3Alu` compute, said without their definitions: quotient and
 remainder, order, bits.
 */
module M3Operators {
  import opened Words
  import opened Basics
  import opened M3Machine
  import opened M3Alu
  import WordBits

  // ----- bits -----

  predicate BitAt(w: nat, i: nat) { w / WordBits.Pow2(i) % 2 == 1 }

  lemma NestedDiv(w: nat, a: nat, b: nat)
    requires a > 0 && b > 0
    ensures a * b > 0 && w / a / b == w / (a * b)
  {
    var q1, r1 := WordBits.Divide(w, a);
    var q2, r2 := WordBits.Divide(q1, b);
    Composed(w, a, b, q1, r1, q2, r2);
    WordBits.DivUnique(w, a * b, q2, r2 * a + r1);
  }

  lemma Composed(w: nat, a: nat, b: nat, q1: nat, r1: nat, q2: nat, r2: nat)
    requires w == q1 * a + r1 && q1 == q2 * b + r2 && r1 < a && r2 < b
    ensures 0 < a * b && w == q2 * (a * b) + (r2 * a + r1) && r2 * a + r1 < a * b
  {
    assert r2 * a + a == (r2 + 1) * a;
    assert (r2 + 1) * a <= b * a by { Scaled(r2 + 1, b, a); }
    assert q2 * (a * b) == (q2 * b) * a;
  }

  lemma Scaled(x: nat, y: nat, a: nat)
    requires x <= y
    ensures x * a <= y * a
  {
  }

  lemma FirstBit(w: nat)
    ensures BitAt(w, 0) <==> w % 2 == 1
  {
  }

  lemma NextBit(w: nat, i: nat)
    ensures BitAt(w, i + 1) <==> BitAt(w / 2, i)
  {
    NestedDiv(w, 2, WordBits.Pow2(i));
  }

  lemma NoBitsAbove(w: nat, i: nat)
    requires w < WordBits.Pow2(i)
    ensures !BitAt(w, i)
  {
    WordBits.DivUnique(w, WordBits.Pow2(i), 0, w);
  }

  /** A word is determined by its bits. */
  lemma {:induction false} SameBits(x: nat, y: nat, n: nat)
    requires x < WordBits.Pow2(n) && y < WordBits.Pow2(n)
    requires forall i: nat :: i < n ==> (BitAt(x, i) <==> BitAt(y, i))
    ensures x == y
    decreases n
  {
    if n > 0 {
      FirstBit(x);
      FirstBit(y);
      assert BitAt(x, 0) <==> BitAt(y, 0);
      forall i: nat | i < n - 1 ensures BitAt(x / 2, i) <==> BitAt(y / 2, i) {
        NextBit(x, i);
        NextBit(y, i);
        assert BitAt(x, i + 1) <==> BitAt(y, i + 1);
      }
      SameBits(x / 2, y / 2, n - 1);
    }
  }

  /** The bits of two numbers written one after the other. */
  lemma {:induction false} JoinedBits(high: nat, k: nat, low: nat, i: nat)
    requires low < WordBits.Pow2(k)
    ensures BitAt(high * WordBits.Pow2(k) + low, i) <==> if i < k then BitAt(low, i) else BitAt(high, i - k)
    decreases k
  {
    if k == 0 {
    } else {
      var p := WordBits.Pow2(k - 1);
      Halves(high, p, low);
      var w := high * WordBits.Pow2(k) + low;
      if i == 0 {
        FirstBit(w);
        FirstBit(low);
      } else {
        NextBit(w, i - 1);
        NextBit(low, i - 1);
        JoinedBits(high, k - 1, low / 2, i - 1);
      }
    }
  }

  lemma Halves(high: nat, p: nat, low: nat)
    ensures (high * (2 * p) + low) / 2 == high * p + low / 2
    ensures (high * (2 * p) + low) % 2 == low % 2
  {
    assert high * (2 * p) == 2 * (high * p);
  }

  // ----- bitwise operators -----

  lemma {:induction false} AndBits(a: nat, b: nat, i: nat)
    ensures BitAt(WordBits.And(a, b), i) <==> BitAt(a, i) && BitAt(b, i)
    decreases i
  {
    BitwiseStep(a, b);
    LowBits(a, b, WordBits.And(a, b), i);
    hide WordBits.And, BitAt;
    if i > 0 { AndBits(a / 2, b / 2, i - 1); }
  }

  lemma {:induction false} OrBits(a: nat, b: nat, i: nat)
    ensures BitAt(WordBits.Or(a, b), i) <==> BitAt(a, i) || BitAt(b, i)
    decreases i
  {
    BitwiseStep(a, b);
    LowBits(a, b, WordBits.Or(a, b), i);
    hide WordBits.Or, BitAt;
    if i > 0 { OrBits(a / 2, b / 2, i - 1); }
  }

  lemma {:induction false} XorBits(a: nat, b: nat, i: nat)
    ensures BitAt(WordBits.Xor(a, b), i) <==> (BitAt(a, i) != BitAt(b, i))
    decreases i
  {
    BitwiseStep(a, b);
    LowBits(a, b, WordBits.Xor(a, b), i);
    hide WordBits.Xor, BitAt;
    if i > 0 { XorBits(a / 2, b / 2, i - 1); }
  }

  // Bit i of three numbers, in terms of their parities and halves.
  lemma LowBits(a: nat, b: nat, c: nat, i: nat)
    ensures BitAt(a, i) <==> if i == 0 then a % 2 == 1 else BitAt(a / 2, i - 1)
    ensures BitAt(b, i) <==> if i == 0 then b % 2 == 1 else BitAt(b / 2, i - 1)
    ensures BitAt(c, i) <==> if i == 0 then c % 2 == 1 else BitAt(c / 2, i - 1)
  {
    if i == 0 {
      FirstBit(a);
      FirstBit(b);
      FirstBit(c);
    } else {
      hide BitAt;
      NextBit(a, i - 1);
      NextBit(b, i - 1);
      NextBit(c, i - 1);
    }
  }

  lemma BitwiseStep(a: nat, b: nat)
    ensures WordBits.And(a, b) / 2 == WordBits.And(a / 2, b / 2)
    ensures WordBits.Or(a, b) / 2 == WordBits.Or(a / 2, b / 2)
    ensures WordBits.Xor(a, b) / 2 == WordBits.Xor(a / 2, b / 2)
    ensures WordBits.And(a, b) % 2 == 1 <==> a % 2 == 1 && b % 2 == 1
    ensures WordBits.Or(a, b) % 2 == 1 <==> a % 2 == 1 || b % 2 == 1
    ensures WordBits.Xor(a, b) % 2 == 1 <==> a % 2 != b % 2
  {
  }

  lemma {:induction false} BitwiseFits(a: nat, b: nat, n: nat)
    requires a < WordBits.Pow2(n) && b < WordBits.Pow2(n)
    ensures WordBits.And(a, b) < WordBits.Pow2(n)
    ensures WordBits.Or(a, b) < WordBits.Pow2(n)
    ensures WordBits.Xor(a, b) < WordBits.Pow2(n)
    decreases n
  {
    if n > 0 {
      BitwiseStep(a, b);
      BitwiseFits(a / 2, b / 2, n - 1);
    }
  }

  lemma AndOrXorSpec(a: Word, b: Word, i: nat)
    requires i < 32
    ensures Binary(And, a, b).Some? && Binary(Or, a, b).Some? && Binary(Xor, a, b).Some?
    ensures BitAt(Binary(And, a, b).value, i) <==> BitAt(a, i) && BitAt(b, i)
    ensures BitAt(Binary(Or, a, b).value, i) <==> BitAt(a, i) || BitAt(b, i)
    ensures BitAt(Binary(Xor, a, b).value, i) <==> (BitAt(a, i) != BitAt(b, i))
  {
    BitwiseIs(a, b);
    hide Binary, WordBits.And, WordBits.Or, WordBits.Xor, BitAt;
    AndBits(a, b, i);
    OrBits(a, b, i);
    XorBits(a, b, i);
  }

  lemma BitwiseIs(a: Word, b: Word)
    ensures Binary(And, a, b) == Some(WordBits.And(a, b))
    ensures Binary(Or, a, b) == Some(WordBits.Or(a, b))
    ensures Binary(Xor, a, b) == Some(WordBits.Xor(a, b))
  {
    WordBits.Pow2Constants();
    hide WordBits.And, WordBits.Or, WordBits.Xor, WordBits.Pow2, Wrap;
    BitwiseFits(a, b, 32);
    WrapSmall(WordBits.And(a, b));
    WrapSmall(WordBits.Or(a, b));
    WrapSmall(WordBits.Xor(a, b));
  }

  // ----- shifts and rotations -----

  /** The two parts of a word: its top `s` bits and the `t` below. */
  lemma Parts(a: Word, s: nat, t: nat) returns (high: nat, low: nat)
    requires s + t == 32
    ensures a == high * WordBits.Pow2(t) + low && low < WordBits.Pow2(t) && high < WordBits.Pow2(s)
    ensures high == a / WordBits.Pow2(t)
    ensures WordBits.Pow2(s) * WordBits.Pow2(t) == TWO32
    ensures forall i: nat :: i < t ==> (BitAt(a, i) <==> BitAt(low, i))
    ensures forall i: nat :: i < s ==> (BitAt(a, t + i) <==> BitAt(high, i))
  {
    WordBits.Pow2Constants();
    WordBits.Pow2Add(s, t);
    high, low := WordBits.Divide(a, WordBits.Pow2(t));
    TopFits(a, high, WordBits.Pow2(s), WordBits.Pow2(t), low);
    forall i: nat | i < t ensures BitAt(a, i) <==> BitAt(low, i) { JoinedBits(high, t, low, i); }
    forall i: nat | i < s ensures BitAt(a, t + i) <==> BitAt(high, i) { JoinedBits(high, t, low, t + i); }
  }

  lemma TopFits(a: Word, high: nat, p: nat, q: nat, low: nat)
    requires a == high * q + low && p * q == TWO32 && q > 0
    ensures high < p
  {
    if high >= p { Scaled(p, high, q); }
  }

  // Shifted up, the high part falls off.
  lemma ShiftedOut(high: nat, low: nat, p: nat, q: nat)
    requires p * q == TWO32 && low < q && p > 0
    ensures (high * q + low) * p == high * TWO32 + low * p && low * p < TWO32
    ensures low * p + p <= TWO32
  {
    assert (high * q + low) * p == high * (p * q) + low * p;
    assert low * p + p == (low + 1) * p;
    Scaled(low + 1, q, p);
    assert q * p == p * q;
  }

  lemma WrapMultiple(k: nat, x: nat)
    requires x < TWO32
    ensures Wrap(k * TWO32 + x) == x
  {
    WordBits.DivUnique(k * TWO32 + x, TWO32, k, x);
  }

  /** The parts of a word, exchanged. */
  lemma Exchanged(a: Word, s: nat, t: nat, high: nat, low: nat, i: nat)
    requires s + t == 32 && i < 32 && low < WordBits.Pow2(t) && high < WordBits.Pow2(s)
    requires forall j: nat :: j < t ==> (BitAt(a, j) <==> BitAt(low, j))
    requires forall j: nat :: j < s ==> (BitAt(a, t + j) <==> BitAt(high, j))
    ensures BitAt(low * WordBits.Pow2(s) + high, i) <==> BitAt(a, if i < s then i + t else i - s)
  {
    JoinedBits(low, s, high, i);
    hide BitAt, WordBits.Pow2;
  }

  lemma ShiftsAre(a: Word, b: Word)
    ensures var s := b % 32;
      && Binary(Shl, a, b) == Some(Wrap(a * WordBits.Pow2(s)))
      && Binary(ShrU, a, b) == Some(Wrap(a / WordBits.Pow2(s)))
      && Binary(ShrS, a, b) == Some(Wrap(Signed(a) / WordBits.Pow2(s)))
  {
    hide WordBits.Pow2, Wrap, Signed;
  }

  lemma ShlSpec(a: Word, b: Word, i: nat)
    requires i < 32
    ensures Binary(Shl, a, b).Some?
    ensures BitAt(Binary(Shl, a, b).value, i) <==> i >= b % 32 && BitAt(a, i - b % 32)
  {
    var s, t := b % 32, 32 - b % 32;
    var low := ShlIs(a, b, s, t);
    hide Binary, BitAt, WordBits.Pow2;
    JoinedBits(low, s, 0, i);
    NoBits(i);
  }

  lemma ShlIs(a: Word, b: Word, s: nat, t: nat) returns (low: nat)
    requires s == b % 32 && t == 32 - b % 32
    ensures forall i: nat :: i < t ==> (BitAt(a, i) <==> BitAt(low, i))
    ensures Binary(Shl, a, b) == Some(low * WordBits.Pow2(s))
  {
    ShiftsAre(a, b);
    hide Binary, Wrap, BitAt, WordBits.Pow2;
    var high;
    high, low := Parts(a, s, t);
    ShiftedOut(high, low, WordBits.Pow2(s), WordBits.Pow2(t));
    WrapMultiple(high, low * WordBits.Pow2(s));
  }

  lemma NoBits(i: nat)
    ensures !BitAt(0, i)
  {
    NoBitsAbove(0, i);
  }

  lemma ShrUSpec(a: Word, b: Word, i: nat)
    requires i < 32
    ensures Binary(ShrU, a, b).Some?
    ensures BitAt(Binary(ShrU, a, b).value, i) <==> i + b % 32 < 32 && BitAt(a, i + b % 32)
  {
    var s, t := b % 32, 32 - b % 32;
    ShiftsAre(a, b);
    var high, low := Parts(a, t, s);
    WordBits.Pow2Constants();
    hide Binary, Wrap, BitAt, WordBits.Pow2;
    WordBits.Pow2Monotone(t, 32);
    WrapSmall(high);
    if i >= t {
      WordBits.Pow2Monotone(t, i);
      NoBitsAbove(high, i);
    }
  }

  lemma {:induction false} AllOnes(s: nat, i: nat)
    requires i < s
    ensures BitAt(WordBits.Pow2(s) - 1, i)
    decreases s
  {
    OnesHalf(s);
    FirstBit(WordBits.Pow2(s) - 1);
    hide BitAt, WordBits.Pow2;
    if i > 0 {
      NextBit(WordBits.Pow2(s) - 1, i - 1);
      AllOnes(s - 1, i - 1);
    }
  }

  lemma OnesHalf(s: nat)
    requires s > 0
    ensures (WordBits.Pow2(s) - 1) / 2 == WordBits.Pow2(s - 1) - 1 && (WordBits.Pow2(s) - 1) % 2 == 1
  {
    OddHalf(WordBits.Pow2(s - 1));
  }

  lemma OddHalf(p: nat)
    requires p >= 1
    ensures (2 * p - 1) / 2 == p - 1 && (2 * p - 1) % 2 == 1
  {
  }

  lemma ShrSSpec(a: Word, b: Word, i: nat)
    requires i < 32
    ensures Binary(ShrS, a, b).Some?
    ensures BitAt(Binary(ShrS, a, b).value, i) <==> BitAt(a, if i + b % 32 < 32 then i + b % 32 else 31)
  {
    hide Binary, BitAt, WordBits.Pow2;
    var s, t := b % 32, 32 - b % 32;
    SignBit(a);
    if a < 0x8000_0000 {
      ShrUSpec(a, b, i);
      ShrSIsShrU(a, b);
    } else {
      var high := ShrSIs(a, b, s, t);
      OnesAbove(high, s, t, i);
    }
  }

  lemma OnesAbove(high: nat, s: nat, t: nat, i: nat)
    requires high < WordBits.Pow2(t) && i < s + t
    ensures BitAt((WordBits.Pow2(s) - 1) * WordBits.Pow2(t) + high, i) <==> (i >= t || BitAt(high, i))
  {
    hide BitAt, WordBits.Pow2;
    JoinedBits(WordBits.Pow2(s) - 1, t, high, i);
    if i >= t { AllOnes(s, i - t); }
  }

  lemma ShrSIsShrU(a: Word, b: Word)
    requires a < 0x8000_0000
    ensures Binary(ShrS, a, b) == Binary(ShrU, a, b)
  {
    ShiftsAre(a, b);
    hide Binary, Wrap, WordBits.Pow2;
  }

  lemma ShrSIs(a: Word, b: Word, s: nat, t: nat) returns (high: nat)
    requires s == b % 32 && t == 32 - b % 32 && a >= 0x8000_0000
    ensures high < WordBits.Pow2(t)
    ensures forall i: nat :: i < t ==> (BitAt(a, s + i) <==> BitAt(high, i))
    ensures Binary(ShrS, a, b) == Some((WordBits.Pow2(s) - 1) * WordBits.Pow2(t) + high)
  {
    ShiftsAre(a, b);
    hide Binary, Wrap, BitAt, WordBits.Pow2;
    var low;
    high, low := Parts(a, t, s);
    SignedShift(a, high, low, WordBits.Pow2(s), WordBits.Pow2(t));
  }

  lemma SignBit(a: Word)
    ensures BitAt(a, 31) <==> a >= 0x8000_0000
  {
    WordBits.Pow2Constants();
    WordBits.DivUnique(a, 0x8000_0000, if a < 0x8000_0000 then 0 else 1, if a < 0x8000_0000 then a else a - 0x8000_0000);
  }

  // A negative number shifted: ones come in at the top.
  lemma SignedShift(a: Word, high: nat, low: nat, p: nat, q: nat)
    requires a >= 0x8000_0000 && a == high * p + low && low < p && p * q == TWO32 && high < q
    ensures p >= 1 && Wrap((a - TWO32) / p) == (p - 1) * q + high
  {
    assert a - TWO32 == (high - q) * p + low;
    WordBits.DivUnique(a - TWO32, p, high - q, low);
    assert (p - 1) * q == TWO32 - q;
    WordBits.DivUnique(high - q, TWO32, -1, high - q + TWO32);
  }

  lemma RotlSpec(a: Word, b: Word, i: nat)
    requires i < 32
    ensures Binary(Rotl, a, b).Some?
    ensures BitAt(Binary(Rotl, a, b).value, i) <==> BitAt(a, (i - b) % 32)
  {
    var s, t := b % 32, 32 - b % 32;
    Around(i, b);
    var high, low := RotlIs(a, b, s, t);
    hide Binary, BitAt, WordBits.Pow2;
    Exchanged(a, s, t, high, low, i);
  }

  lemma RotlIs(a: Word, b: Word, s: nat, t: nat) returns (high: nat, low: nat)
    requires s == b % 32 && t == 32 - b % 32
    ensures low < WordBits.Pow2(t) && high < WordBits.Pow2(s)
    ensures forall i: nat :: i < t ==> (BitAt(a, i) <==> BitAt(low, i))
    ensures forall i: nat :: i < s ==> (BitAt(a, t + i) <==> BitAt(high, i))
    ensures Binary(Rotl, a, b) == Some(low * WordBits.Pow2(s) + high)
  {
    hide Binary, Wrap, BitAt, WordBits.Pow2;
    high, low := Parts(a, s, t);
    RotlWord(a, b, WordBits.Pow2(s), WordBits.Pow2(t), high, low);
  }

  lemma RotlWord(a: Word, b: Word, p: nat, q: nat, high: nat, low: nat)
    requires p == WordBits.Pow2(b % 32) && q == WordBits.Pow2(32 - b % 32)
    requires p * q == TWO32 && a == high * q + low && high == a / q && low < q && high < p
    ensures Binary(Rotl, a, b) == Some(low * p + high)
  {
    hide Wrap, WordBits.Pow2;
    Rotated(a, p, q, high, low);
  }

  lemma Rotated(a: Word, p: nat, q: nat, high: nat, low: nat)
    requires p * q == TWO32 && a == high * q + low && low < q && high < p
    ensures Wrap(a * p + high) == low * p + high
  {
    ShiftedOut(high, low, p, q);
    WrapMultiple(high, low * p + high);
  }

  lemma Around(i: nat, b: nat)
    requires i < 32
    ensures (i - b) % 32 == if i < b % 32 then i + 32 - b % 32 else i - b % 32
    ensures (i + b) % 32 == if i + b % 32 < 32 then i + b % 32 else i + b % 32 - 32
  {
    var k: int, s: int := b / 32, b % 32;
    WordBits.DivUnique(i - b, 32, if i < s then -k - 1 else -k, if i < s then i + 32 - s else i - s);
    WordBits.DivUnique(i + b, 32, if i + s < 32 then k else k + 1, if i + s < 32 then i + s else i + s - 32);
  }

  lemma RotrSpec(a: Word, b: Word, i: nat)
    requires i < 32
    ensures Binary(Rotr, a, b).Some?
    ensures BitAt(Binary(Rotr, a, b).value, i) <==> BitAt(a, (i + b) % 32)
  {
    var s, t := 32 - b % 32, b % 32;
    Around(i, b);
    var high, low := RotrIs(a, b, s, t);
    hide Binary, BitAt, WordBits.Pow2;
    Exchanged(a, s, t, high, low, i);
  }

  lemma RotrIs(a: Word, b: Word, s: nat, t: nat) returns (high: nat, low: nat)
    requires s == 32 - b % 32 && t == b % 32
    ensures low < WordBits.Pow2(t) && high < WordBits.Pow2(s)
    ensures forall i: nat :: i < t ==> (BitAt(a, i) <==> BitAt(low, i))
    ensures forall i: nat :: i < s ==> (BitAt(a, t + i) <==> BitAt(high, i))
    ensures Binary(Rotr, a, b) == Some(low * WordBits.Pow2(s) + high)
  {
    hide Binary, Wrap, BitAt, WordBits.Pow2;
    high, low := Parts(a, s, t);
    RotrWord(a, b, WordBits.Pow2(s), WordBits.Pow2(t), high, low);
  }

  lemma RotrWord(a: Word, b: Word, p: nat, q: nat, high: nat, low: nat)
    requires p == WordBits.Pow2(32 - b % 32) && q == WordBits.Pow2(b % 32)
    requires p * q == TWO32 && a == high * q + low && high == a / q && low < q && high < p
    ensures Binary(Rotr, a, b) == Some(low * p + high)
  {
    hide Wrap, WordBits.Pow2;
    Rotated(a, p, q, high, low);
  }

  /** Rotating back restores the word. */
  lemma RotationsCancel(a: Word, b: Word)
    ensures Binary(Rotl, a, b).Some? && Binary(Rotr, Binary(Rotl, a, b).value, b) == Some(a)
  {
    RotlSpec(a, b, 0);
    var r := Binary(Rotl, a, b).value;
    RotrSpec(r, b, 0);
    var back := Binary(Rotr, r, b).value;
    hide Binary, BitAt, WordBits.Pow2;
    forall i: nat | i < 32 ensures BitAt(back, i) <==> BitAt(a, i) { BitReturns(a, b, r, back, i); }
    EqualWords(back, a);
  }

  lemma EqualWords(x: Word, y: Word)
    requires forall i: nat :: i < 32 ==> (BitAt(x, i) <==> BitAt(y, i))
    ensures x == y
  {
    WordBits.Pow2Constants();
    hide BitAt, WordBits.Pow2;
    SameBits(x, y, 32);
  }

  lemma BitReturns(a: Word, b: Word, r: Word, back: Word, i: nat)
    requires i < 32 && Binary(Rotl, a, b) == Some(r) && Binary(Rotr, r, b) == Some(back)
    ensures BitAt(back, i) <==> BitAt(a, i)
  {
    ThereAndBack(i, b);
    hide Binary, BitAt;
    RotrSpec(r, b, i);
    RotlSpec(a, b, (i + b) % 32);
  }

  lemma ThereAndBack(i: nat, b: nat)
    requires i < 32
    ensures (i + b) % 32 < 32 && ((i + b) % 32 - b) % 32 == i
  {
    var k := (i + b) / 32;
    assert (i + b) % 32 - b == i - 32 * k;
    WordBits.DivUnique(i - 32 * k, 32, -k, i);
  }

  // ----- arithmetic -----

  lemma ArithmeticIs(a: Word, b: Word)
    ensures Binary(Add, a, b) == Some(Wrap(a + b)) && Binary(Sub, a, b) == Some(Wrap(a - b)) && Binary(Mul, a, b) == Some(Wrap(a * b))
  {
    hide Wrap;
  }

  /** Unsigned, a result that fits is the mathematical one, and subtraction undoes addition. */
  lemma UnsignedArithmeticSpec(a: Word, b: Word)
    ensures Binary(Add, a, b).Some? && Binary(Sub, a, b).Some? && Binary(Mul, a, b).Some?
    ensures a + b < 0x1_0000_0000 ==> Binary(Add, a, b).value == a + b
    ensures a * b < 0x1_0000_0000 ==> Binary(Mul, a, b).value == a * b
    ensures a >= b ==> Binary(Sub, a, b).value == a - b
    ensures Binary(Sub, Binary(Add, a, b).value, b) == Some(a)
  {
    ArithmeticIs(a, b);
    ArithmeticIs(Wrap(a + b), b);
    hide Binary;
    WrapSmall(a + b);
    WrapSmall(a - b);
    ProductPositive(a, b);
    WrapSmall(a * b);
    Undone(a, b);
    hide Wrap;
  }

  lemma ProductPositive(a: nat, b: nat)
    ensures a * b >= 0
  {
  }

  lemma Undone(a: Word, b: Word)
    ensures Wrap(Wrap(a + b) - b) == a
  {
    var k := if a + b < TWO32 then 0 else 1;
    WordBits.DivUnique(a + b, TWO32, k, a + b - k * TWO32);
    WordBits.DivUnique(Wrap(a + b) - b, TWO32, -k, a);
  }

  /** Read as signed numbers, likewise. */
  lemma SignedArithmeticSpec(a: Word, b: Word)
    ensures Binary(Add, a, b).Some? && Binary(Sub, a, b).Some? && Binary(Mul, a, b).Some?
    ensures -0x8000_0000 <= Signed(a) + Signed(b) < 0x8000_0000 ==> Signed(Binary(Add, a, b).value) == Signed(a) + Signed(b)
    ensures -0x8000_0000 <= Signed(a) - Signed(b) < 0x8000_0000 ==> Signed(Binary(Sub, a, b).value) == Signed(a) - Signed(b)
    ensures -0x8000_0000 <= Signed(a) * Signed(b) < 0x8000_0000 ==> Signed(Binary(Mul, a, b).value) == Signed(a) * Signed(b)
  {
    var k, l := if a < 0x8000_0000 then 0 else 1, if b < 0x8000_0000 then 0 else 1;
    assert Signed(a) == a - k * TWO32 && Signed(b) == b - l * TWO32;
    ArithmeticIs(a, b);
    hide Binary, Wrap, Signed;
    ReadSigned(Signed(a) + Signed(b), a + b, -k - l);
    ReadSigned(Signed(a) - Signed(b), a - b, l - k);
    SignedProduct(a, b, k, l);
    ReadSigned(Signed(a) * Signed(b), a * b, k * l * TWO32 - k * b - l * a);
  }

  lemma SignedProduct(a: int, b: int, k: int, l: int)
    ensures (a - k * TWO32) * (b - l * TWO32) == a * b + (k * l * TWO32 - k * b - l * a) * TWO32
  {
    assert (a - k * TWO32) * (b - l * TWO32) == a * b - a * (l * TWO32) - (k * TWO32) * b + (k * TWO32) * (l * TWO32);
    assert a * (l * TWO32) == (l * a) * TWO32;
    assert (k * TWO32) * b == (k * b) * TWO32;
    assert (k * TWO32) * (l * TWO32) == (k * l * TWO32) * TWO32;
  }

  // A signed number is read back from any number congruent to it.
  lemma ReadSigned(x: int, y: int, k: int)
    requires x == y + k * TWO32
    ensures -0x8000_0000 <= x < 0x8000_0000 ==> Signed(Wrap(y)) == x
  {
    if 0 <= x < 0x8000_0000 { WordBits.DivUnique(y, TWO32, -k, x); }
    if -0x8000_0000 <= x < 0 { WordBits.DivUnique(y, TWO32, -k - 1, x + TWO32); }
  }

  /** Unsigned division traps exactly on zero; otherwise quotient and remainder are those of Euclid. */
  lemma UnsignedDivisionSpec(a: Word, b: Word)
    ensures Binary(DivU, a, b) == None <==> b == 0
    ensures Binary(RemU, a, b) == None <==> b == 0
    ensures b != 0 ==> var q, r := Binary(DivU, a, b).value, Binary(RemU, a, b).value; a == q * b + r && r < b
  {
    if b != 0 {
      var q, r := WordBits.Divide(a, b);
      WordBits.ProductGrows(q, b);
      WrapSmall(q);
      WrapSmall(r);
    }
  }

  /**
   * Signed division traps exactly on zero and for -2^31 / -1, the remainder only on zero;
   * the quotient is truncated and the remainder takes the sign of the dividend.
   */
  lemma SignedDivisionSpec(a: Word, b: Word)
    ensures Binary(DivS, a, b) == None <==> b == 0 || (a == 0x8000_0000 && b == 0xFFFF_FFFF)
    ensures Binary(RemS, a, b) == None <==> b == 0
    ensures b != 0 ==> var x, y, r := Signed(a), Signed(b), Signed(Binary(RemS, a, b).value);
      && Abs(r) < Abs(y) && (x >= 0 ==> r >= 0) && (x <= 0 ==> r <= 0)
      && (Binary(DivS, a, b).Some? ==> x == Signed(Binary(DivS, a, b).value) * y + r)
      && (Binary(DivS, a, b) == None ==> r == 0)
  {
    if b != 0 {
      var x, y := Signed(a), Signed(b);
      var q, r := WordBits.Divide(Abs(x), Abs(y));
      TruncatedParts(x, y, q, r);
      QuotientFits(x, y, q, r);
      ReadSigned(TruncDiv(x, y), TruncDiv(x, y), 0);
      ReadSigned(TruncRem(x, y), TruncRem(x, y), 0);
    }
  }

  lemma TruncatedParts(x: int, y: int, q: nat, r: nat)
    requires y != 0 && q == Abs(x) / Abs(y) && r == Abs(x) % Abs(y) && Abs(x) == q * Abs(y) + r
    ensures x == TruncDiv(x, y) * y + TruncRem(x, y)
  {
    Signs(q, Abs(y));
  }

  lemma Signs(q: int, d: int)
    ensures (-q) * d == -(q * d) && (-q) * (-d) == q * d && q * (-d) == -(q * d)
  {
  }

  lemma QuotientFits(x: int, y: int, q: nat, r: nat)
    requires y != 0 && Abs(x) == q * Abs(y) + r && r < Abs(y)
    requires -0x8000_0000 <= x < 0x8000_0000 && -0x8000_0000 <= y < 0x8000_0000
    ensures q <= 0x8000_0000 && (q == 0x8000_0000 ==> x == -0x8000_0000 && (y == 1 || y == -1))
    ensures r < 0x8000_0000 && (x == -0x8000_0000 && y == -1 ==> r == 0)
  {
    if Abs(y) >= 2 { Scaled(2, Abs(y), q); assert Abs(y) * q == q * Abs(y); }
  }

  // ----- comparisons -----

  lemma ComparisonsAre(a: Word, b: Word)
    ensures Binary(LtU, a, b) == Some(Flag(a < b)) && Binary(GtU, a, b) == Some(Flag(a > b))
    ensures Binary(LeU, a, b) == Some(Flag(a <= b)) && Binary(GeU, a, b) == Some(Flag(a >= b))
    ensures Binary(LtS, a, b) == Some(Flag(Signed(a) < Signed(b))) && Binary(GtS, a, b) == Some(Flag(Signed(a) > Signed(b)))
    ensures Binary(LeS, a, b) == Some(Flag(Signed(a) <= Signed(b))) && Binary(GeS, a, b) == Some(Flag(Signed(a) >= Signed(b)))
    ensures Binary(Eq, a, b) == Some(Flag(a == b)) && Binary(Ne, a, b) == Some(Flag(a != b))
  {
  }

  /** The unsigned comparisons answer 1 or 0 and are what their names say. */
  lemma UnsignedComparisonSpec(a: Word, b: Word)
    ensures Binary(Eq, a, b) == Some(if a == b then 1 else 0) && Binary(Ne, a, b) == Some(if a == b then 0 else 1)
    ensures Binary(LtU, a, b) == Some(if a < b then 1 else 0) && Binary(GtU, a, b) == Binary(LtU, b, a)
    ensures Binary(GeU, a, b) == Some(if a < b then 0 else 1) && Binary(LeU, a, b) == Binary(GeU, b, a)
  {
    ComparisonsAre(a, b);
    ComparisonsAre(b, a);
    hide Binary;
  }

  /** Signed order is unsigned order after 2^31 is added to both sides. */
  lemma SignedComparisonSpec(a: Word, b: Word)
    ensures var x, y := Wrap(a + 0x8000_0000), Wrap(b + 0x8000_0000);
      && Binary(LtS, a, b) == Binary(LtU, x, y) && Binary(GtS, a, b) == Binary(GtU, x, y)
      && Binary(LeS, a, b) == Binary(LeU, x, y) && Binary(GeS, a, b) == Binary(GeU, x, y)
  {
    Offset(a);
    Offset(b);
    ComparisonsAre(a, b);
    ComparisonsAre(Wrap(a + 0x8000_0000), Wrap(b + 0x8000_0000));
    hide Binary, Wrap, Signed;
  }

  lemma Offset(a: Word)
    ensures Wrap(a + 0x8000_0000) == Signed(a) + 0x8000_0000
  {
  }

  // ----- unary operators -----

  /** Clz: the word lies below 2^(32 - n) and, unless it is 0, not below half of that. */
  lemma ClzSpec(a: Word)
    ensures var n := Unary(Clz, a);
      n <= 32 && a < WordBits.Pow2(32 - n) && (n < 32 ==> a >= WordBits.Pow2(31 - n))
  {
    WordBits.Pow2Constants();
    hide WordBits.Pow2;
    LeadingSpec(a, 32);
    WrapSmall(LeadingZeros(a, 32));
  }

  lemma {:induction false} LeadingSpec(w: nat, n: nat)
    requires w < WordBits.Pow2(n)
    ensures var z := LeadingZeros(w, n);
      z <= n && w < WordBits.Pow2(n - z) && (z < n ==> w >= WordBits.Pow2(n - z - 1))
    decreases n
  {
    if n > 0 {
      var p := WordBits.Pow2(n - 1);
      WordBits.DivUnique(w, p, if w < p then 0 else 1, if w < p then w else w - p);
      if w < p { LeadingSpec(w, n - 1); }
    }
  }

  /** Ctz: the lowest n bits are 0 and, unless all are, the next is 1. */
  lemma CtzSpec(a: Word)
    ensures var n := Unary(Ctz, a);
      n <= 32 && (forall i: nat :: i < n ==> !BitAt(a, i)) && (n < 32 ==> BitAt(a, n))
  {
    hide BitAt;
    TrailingSpec(a, 32);
    WrapSmall(TrailingZeros(a, 32));
  }

  lemma {:induction false} TrailingSpec(w: nat, n: nat)
    ensures var z := TrailingZeros(w, n);
      z <= n && (forall i: nat :: i < z ==> !BitAt(w, i)) && (z < n ==> BitAt(w, z))
    decreases n
  {
    FirstBit(w);
    hide BitAt;
    if n > 0 && w % 2 == 0 {
      TrailingSpec(w / 2, n - 1);
      var z := TrailingZeros(w, n);
      forall i: nat | i < z ensures !BitAt(w, i) {
        if i > 0 { NextBit(w, i - 1); }
      }
      NextBit(w, z - 1);
    }
  }

  function Ones(w: nat, n: nat): set<nat> { set i: nat | i < n && BitAt(w, i) }

  /** Popcnt: the number of bits that are 1. */
  lemma PopcntSpec(a: Word)
    ensures Unary(Popcnt, a) == |Ones(a, 32)|
  {
    OnesCounted(a, 32);
    OnesBounded(a, 32);
    WrapSmall(OneBits(a, 32));
  }

  lemma {:induction false} OnesBounded(w: nat, n: nat)
    ensures OneBits(w, n) <= n
  {
    if n > 0 { OnesBounded(w / 2, n - 1); }
  }

  function Up(s: set<nat>): set<nat> { set i | i in s :: i + 1 }

  lemma {:induction false} UpSize(s: set<nat>)
    ensures |Up(s)| == |s|
    decreases s
  {
    if s != {} {
      var x :| x in s;
      UpSize(s - {x});
      forall i: nat ensures i in Up(s) <==> i in Up(s - {x}) + {x + 1} {
        assert i in Up(s) <==> i > 0 && i - 1 in s by { if i > 0 && i - 1 in s { assert (i - 1) + 1 == i; } }
        assert i in Up(s - {x}) <==> i > 0 && i - 1 in s - {x} by { if i > 0 && i - 1 in s - {x} { assert (i - 1) + 1 == i; } }
      }
      assert Up(s) == Up(s - {x}) + {x + 1};
    }
  }

  lemma {:induction false} OnesCounted(w: nat, n: nat)
    ensures OneBits(w, n) == |Ones(w, n)|
    decreases n
  {
    if n > 0 {
      OnesCounted(w / 2, n - 1);
      UpSize(Ones(w / 2, n - 1));
      OnesSplit(w, n);
    }
  }

  lemma OnesSplit(w: nat, n: nat)
    requires n > 0
    ensures Ones(w, n) == Up(Ones(w / 2, n - 1)) + (if w % 2 == 1 then {0} else {})
  {
    FirstBit(w);
    hide BitAt;
    forall i: nat | i < n ensures i in Ones(w, n) <==> i in Up(Ones(w / 2, n - 1)) + (if w % 2 == 1 then {0} else {}) {
      if i > 0 {
        NextBit(w, i - 1);
        assert i - 1 in Ones(w / 2, n - 1) <==> BitAt(w, i);
      }
    }
  }

  lemma SignExtendIs(w: Word, bits: nat, m: nat)
    requires m == WordBits.Pow2(bits)
    ensures SignExtend(w, bits) == Wrap(if 2 * (w % m) < m then w % m else w % m - m)
  {
    hide WordBits.Pow2, Wrap;
  }

  lemma ReadLow(w: Word, m: int)
    requires m == 256 || m == 65536
    ensures var x := if 2 * (w % m) < m then w % m else w % m - m;
      2 * x >= -m && 2 * x < m && (x - w) % m == 0
  {
  }

  lemma UnaryIs(a: Word)
    ensures Unary(Extend8S, a) == SignExtend(a, 8) && Unary(Extend16S, a) == SignExtend(a, 16)
    ensures Unary(Eqz, a) == (if a == 0 then 1 else 0)
  {
    hide SignExtend;
  }

  /** The low byte or half word, read as a signed number; Eqz tells 0 from the rest. */
  lemma ExtendSpec(a: Word)
    ensures var x := Signed(Unary(Extend8S, a)); -128 <= x < 128 && (x - a) % 256 == 0
    ensures var x := Signed(Unary(Extend16S, a)); -32768 <= x < 32768 && (x - a) % 65536 == 0
    ensures Unary(Eqz, a) == (if a == 0 then 1 else 0)
  {
    WordBits.Pow2Small();
    WordBits.Pow2Add(8, 8);
    UnaryIs(a);
    hide Unary, Wrap, Signed, SignExtend, WordBits.Pow2;
    SignExtendIs(a, 8, 256);
    SignExtendIs(a, 16, 65536);
    var x := if 2 * (a % 256) < 256 then a % 256 else a % 256 - 256;
    var y := if 2 * (a % 65536) < 65536 then a % 65536 else a % 65536 - 65536;
    ReadLow(a, 256);
    ReadLow(a, 65536);
    ReadSigned(x, x, 0);
    ReadSigned(y, y, 0);
  }
}
