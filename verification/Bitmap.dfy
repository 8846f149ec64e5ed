/**
 * Byte-packed bitmaps, as kernel/mm/pmm.c and kernel/ipc/heap.c keep them: bit p is bit
 * p % 8 of byte p / 8, and a position past the end reads as set.
 */
module Bitmap {
  type Bits = seq<bv8>

  function Mask(k: nat): bv8
    requires k < 8
  {
    match k
    case 0 => 1 case 1 => 2 case 2 => 4 case 3 => 8
    case 4 => 16 case 5 => 32 case 6 => 64 case 7 => 128
  }

  predicate BitAt(x: bv8, k: nat)
    requires k < 8
  {
    x & Mask(k) != 0
  }

  function WithBit(x: bv8, k: nat): bv8
    requires k < 8
  {
    x | Mask(k)
  }

  function WithoutBit(x: bv8, k: nat): bv8
    requires k < 8
  {
    x & !Mask(k)
  }

  predicate Test(b: Bits, p: nat) {
    p / 8 < |b| ==> BitAt(b[p / 8], p % 8)
  }

  function Set(b: Bits, p: nat): Bits {
    if p / 8 < |b| then b[p / 8 := WithBit(b[p / 8], p % 8)] else b
  }

  function Clear(b: Bits, p: nat): Bits {
    if p / 8 < |b| then b[p / 8 := WithoutBit(b[p / 8], p % 8)] else b
  }

  lemma MaskBits(x: bv8, k: nat, j: nat)
    requires k < 8 && j < 8
    ensures BitAt(WithBit(x, k), j) <==> (k == j || BitAt(x, j))
    ensures BitAt(WithoutBit(x, k), j) <==> (k != j && BitAt(x, j))
  {
    // by cases on the two positions
    MaskValues();
  }

  // Setting or clearing a bit changes that bit and no other.
  lemma TestSet(b: Bits, p: nat, q: nat)
    ensures |Set(b, p)| == |b|
    ensures Test(Set(b, p), q) <==> (p == q || Test(b, q))
  {
    hide BitAt, WithBit;
    SamePlace(p, q);
    if p / 8 == q / 8 && p / 8 < |b| { MaskBits(b[p / 8], p % 8, q % 8); }
  }

  lemma SamePlace(p: nat, q: nat)
    ensures p == q <==> p / 8 == q / 8 && p % 8 == q % 8
  {
  }

  lemma TestClear(b: Bits, p: nat, q: nat)
    ensures |Clear(b, p)| == |b|
    ensures Test(Clear(b, p), q) <==> ((p != q || p >= 8 * |b|) && Test(b, q))
  {
    hide BitAt, WithoutBit;
    SamePlace(p, q);
    if p / 8 == q / 8 && p / 8 < |b| { MaskBits(b[p / 8], p % 8, q % 8); }
  }

  // Two bitmaps of one length with the same bits are the same bytes.
  lemma SameBits(a: Bits, b: Bits)
    requires |a| == |b|
    requires forall p: nat :: Test(a, p) <==> Test(b, p)
    ensures a == b
  {
    forall i | 0 <= i < |a| ensures a[i] == b[i] {
      SameByte(a, b, i);
    }
  }

  lemma SameByte(a: Bits, b: Bits, i: nat)
    requires |a| == |b| && i < |a|
    requires forall p: nat :: Test(a, p) <==> Test(b, p)
    ensures a[i] == b[i]
  {
    hide BitAt;
    forall k | 0 <= k < 8 ensures BitAt(a[i], k) <==> BitAt(b[i], k) {
      assert (8 * i + k) / 8 == i && (8 * i + k) % 8 == k;
      assert Test(a, 8 * i + k) <==> Test(b, 8 * i + k);
    }
    SameMasks(a[i], b[i]);
  }

  lemma SameMasks(x: bv8, y: bv8)
    requires forall k :: 0 <= k < 8 ==> (BitAt(x, k) <==> BitAt(y, k))
    ensures x == y
  {
    MaskValues();
    assert forall k :: 0 <= k < 8 ==> (x & Mask(k) != 0 <==> y & Mask(k) != 0) by {
      assert forall k :: 0 <= k < 8 ==> (BitAt(x, k) <==> x & Mask(k) != 0) && (BitAt(y, k) <==> y & Mask(k) != 0);
    }
    hide Mask;
    EightBits(x, y);
  }

  lemma MaskValues()
    ensures Mask(0) == 1 && Mask(1) == 2 && Mask(2) == 4 && Mask(3) == 8
    ensures Mask(4) == 16 && Mask(5) == 32 && Mask(6) == 64 && Mask(7) == 128
  {
  }

  lemma EightBits(x: bv8, y: bv8)
    requires x & 1 != 0 <==> y & 1 != 0
    requires x & 2 != 0 <==> y & 2 != 0
    requires x & 4 != 0 <==> y & 4 != 0
    requires x & 8 != 0 <==> y & 8 != 0
    requires x & 16 != 0 <==> y & 16 != 0
    requires x & 32 != 0 <==> y & 32 != 0
    requires x & 64 != 0 <==> y & 64 != 0
    requires x & 128 != 0 <==> y & 128 != 0
    ensures x == y
  {
  }

  // How many bits of [lo, hi) are clear.
  function FreeIn(b: Bits, lo: nat, hi: nat): (n: nat)
    ensures n <= if lo <= hi then hi - lo else 0
    decreases hi
  {
    if hi <= lo then 0 else FreeIn(b, lo, hi - 1) + (if Test(b, hi - 1) then 0 else 1)
  }

  lemma {:induction false} FreeInSplit(b: Bits, lo: nat, mid: nat, hi: nat)
    requires lo <= mid <= hi
    ensures FreeIn(b, lo, hi) == FreeIn(b, lo, mid) + FreeIn(b, mid, hi)
    decreases hi
  {
    if mid < hi { FreeInSplit(b, lo, mid, hi - 1); }
  }

  // The count depends only on the bits of the range.
  lemma {:induction false} FreeInSame(a: Bits, b: Bits, lo: nat, hi: nat)
    requires forall p: nat :: lo <= p < hi ==> (Test(a, p) <==> Test(b, p))
    ensures FreeIn(a, lo, hi) == FreeIn(b, lo, hi)
    decreases hi
  {
    if lo < hi { FreeInSame(a, b, lo, hi - 1); }
  }

  lemma {:induction false} FreeInSet(b: Bits, lo: nat, hi: nat, p: nat)
    requires !Test(b, p)
    ensures FreeIn(Set(b, p), lo, hi) == FreeIn(b, lo, hi) - (if lo <= p < hi then 1 else 0)
    decreases hi
  {
    hide Test, Set;
    if lo < hi {
      FreeInSet(b, lo, hi - 1, p);
      TestSet(b, p, hi - 1);
    }
  }

  lemma {:induction false} FreeInClear(b: Bits, lo: nat, hi: nat, p: nat)
    requires Test(b, p) && p < 8 * |b|
    ensures FreeIn(Clear(b, p), lo, hi) == FreeIn(b, lo, hi) + (if lo <= p < hi then 1 else 0)
    decreases hi
  {
    hide Test, Clear;
    if lo < hi {
      FreeInClear(b, lo, hi - 1, p);
      TestClear(b, p, hi - 1);
    }
  }

  lemma {:induction false} NoneFree(b: Bits, lo: nat, hi: nat)
    ensures FreeIn(b, lo, hi) == 0 <==> forall p: nat :: lo <= p < hi ==> Test(b, p)
    decreases hi
  {
    hide Test;
    if lo < hi { NoneFree(b, lo, hi - 1); }
  }

  // count clear bits from s on.
  predicate RunAt(b: Bits, s: nat, count: nat) {
    forall p: nat :: s <= p < s + count ==> !Test(b, p)
  }

  // The leftmost start of a clear run of the given length inside [lo, hi), or hi.
  function FirstRun(b: Bits, lo: nat, hi: nat, count: nat): (s: nat)
    requires lo <= hi
    ensures lo <= s <= hi
    decreases hi - lo
  {
    if lo + count > hi then hi
    else if RunAt(b, lo, count) then lo
    else if lo == hi then hi
    else FirstRun(b, lo + 1, hi, count)
  }

  // It is leftmost, and it is found whenever there is one.
  lemma {:induction false} FirstRunIsLeftmost(b: Bits, lo: nat, hi: nat, count: nat)
    requires lo <= hi && 0 < count
    ensures var s := FirstRun(b, lo, hi, count);
      (s < hi ==> s + count <= hi && RunAt(b, s, count))
      && (forall t: nat :: lo <= t < s && t + count <= hi ==> !RunAt(b, t, count))
    decreases hi - lo
  {
    if lo + count <= hi && !RunAt(b, lo, count) {
      FirstRunIsLeftmost(b, lo + 1, hi, count);
    }
  }

  // Skipping past a set bit loses no candidate.
  lemma {:induction false} SkipPast(b: Bits, lo: nat, hi: nat, count: nat, p: nat)
    requires lo <= p < hi && Test(b, p) && p < lo + count && lo + count <= hi
    ensures FirstRun(b, lo, hi, count) == FirstRun(b, p + 1, hi, count)
    decreases p - lo
  {
    hide Test;
    assert !RunAt(b, lo, count);
    if lo < p {
      if lo + 1 + count <= hi {
        SkipPast(b, lo + 1, hi, count, p);
      } else {
        assert p + 1 + count > hi;
      }
    }
  }

  function SetRange(b: Bits, s: nat, count: nat): (r: Bits)
    ensures |r| == |b|
  {
    if count == 0 then b else Set(SetRange(b, s, count - 1), s + count - 1)
  }

  lemma {:induction false} TestSetRange(b: Bits, s: nat, count: nat, q: nat)
    ensures Test(SetRange(b, s, count), q) <==> (s <= q < s + count || Test(b, q))
  {
    hide Test, Set;
    if count > 0 {
      TestSetRange(b, s, count - 1, q);
      TestSet(SetRange(b, s, count - 1), s + count - 1, q);
    }
  }

  function ClearRange(b: Bits, s: nat, count: nat): (r: Bits)
    ensures |r| == |b|
  {
    if count == 0 then b else Clear(ClearRange(b, s, count - 1), s + count - 1)
  }

  lemma {:induction false} TestClearRange(b: Bits, s: nat, count: nat, q: nat)
    requires s + count <= 8 * |b|
    ensures Test(ClearRange(b, s, count), q) <==> (!(s <= q < s + count) && Test(b, q))
  {
    hide Test, Clear;
    if count > 0 {
      TestClearRange(b, s, count - 1, q);
      TestClear(ClearRange(b, s, count - 1), s + count - 1, q);
    }
  }

  lemma {:induction false} FreeInSetRange(b: Bits, lo: nat, hi: nat, s: nat, count: nat)
    requires RunAt(b, s, count)
    requires (lo <= s && s + count <= hi) || s + count <= lo || hi <= s
    ensures FreeIn(SetRange(b, s, count), lo, hi) == FreeIn(b, lo, hi) - (if lo <= s && s + count <= hi then count else 0)
  {
    hide Test, Set;
    if count > 0 {
      FreeInSetRange(b, lo, hi, s, count - 1);
      TestSetRange(b, s, count - 1, s + count - 1);
      FreeInSet(SetRange(b, s, count - 1), lo, hi, s + count - 1);
    }
  }
}
