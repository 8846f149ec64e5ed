/**
 * LEB128 integers (kernel/lib/wasm3/m3_core.c; WebAssembly Core Specification 1.0, section
 * 5.2.2).  A number is a sequence of 7-bit groups, low group first, every byte but the last
 * with its top bit set.  The readers accumulate into 64 bits.
 */
module Leb128 {
  import opened Words
  import opened WordBits

  type Byte = x: int | 0 <= x < 256

  // ---- What a byte sequence denotes -------------------------------------------

  function Value(bs: seq<Byte>): nat {
    if bs == [] then 0 else bs[0] % 128 + 128 * Value(bs[1..])
  }

  predicate SignBit(b: Byte) { b / 64 % 2 == 1 }

  // Two's complement over the groups present.
  function SignedValue(bs: seq<Byte>): int
    requires bs != []
  {
    Value(bs) - (if SignBit(bs[|bs| - 1]) then Pow2(7 * |bs|) else 0)
  }

  // Continuation bytes followed by one final byte.
  predicate WellFormed(bs: seq<Byte>) {
    bs != [] && bs[|bs| - 1] < 128 && forall i :: 0 <= i < |bs| - 1 ==> bs[i] >= 128
  }

  // ---- The readers --------------------------------------------------------------

  datatype Status = Done | Underrun | Overflow

  datatype Raw = Raw(status: Status, value: nat, shift: nat, next: nat)

  // value |= (byte & 0x7f) << shift, in 64 bits.
  function Accumulate(value: nat, b: Byte, shift: nat): nat {
    Or(value, (b % 128) * Pow2(shift) % TWO64)
  }

  // The shared loop of ReadLebUnsigned and ReadLebSigned.
  function ReadFrom(bytes: seq<Byte>, p: nat, value: nat, shift: nat, maxBits: nat): (r: Raw)
    requires p <= |bytes|
    ensures p <= r.next <= |bytes|
    ensures r.status.Underrun? || p < r.next
    decreases |bytes| - p
  {
    if p == |bytes| then Raw(Underrun, value, shift, p)
    else
      var v := Accumulate(value, bytes[p], shift);
      if bytes[p] < 128 then Raw(Done, v, shift + 7, p + 1)
      else if shift + 7 >= maxBits then Raw(Overflow, v, shift + 7, p + 1)
      else ReadFrom(bytes, p + 1, v, shift + 7, maxBits)
  }

  datatype Read = Read(status: Status, value: int, next: nat)

  function ReadUnsigned(bytes: seq<Byte>, p: nat, maxBits: nat): Read
    requires p <= |bytes|
  {
    var r := ReadFrom(bytes, p, 0, 0, maxBits);
    Read(r.status, r.value, r.next)
  }

  function AsI64(x: int): int {
    if x < 0x8000_0000_0000_0000 then x else x - TWO64
  }

  // ~0 << shift.
  function AllOnes(shift: nat): nat
    requires shift < 64
  {
    (Pow2(64 - shift) - 1) * Pow2(shift)
  }

  // Sign extension: or with ~0 << shift when the final byte's sign bit is set.
  function Extend(r: Raw, last: Byte): int {
    if SignBit(last) && r.shift < 64 then Or(r.value, AllOnes(r.shift)) else r.value
  }

  function ReadSigned(bytes: seq<Byte>, p: nat, maxBits: nat): Read
    requires p <= |bytes|
  {
    var r := ReadFrom(bytes, p, 0, 0, maxBits);
    Read(r.status, AsI64(if r.status.Done? then Extend(r, bytes[r.next - 1]) else r.value), r.next)
  }

  function ReadU32(bytes: seq<Byte>, p: nat): Read
    requires p <= |bytes|
  {
    var r := ReadUnsigned(bytes, p, 32);
    r.(value := r.value % 0x1_0000_0000)
  }

  function AsI32(x: int): int {
    var low := x % 0x1_0000_0000;
    if low < 0x8000_0000 then low else low - 0x1_0000_0000
  }

  function ReadI32(bytes: seq<Byte>, p: nat): Read
    requires p <= |bytes|
  {
    var r := ReadSigned(bytes, p, 32);
    r.(value := AsI32(r.value))
  }

  function ReadI64(bytes: seq<Byte>, p: nat): Read
    requires p <= |bytes|
  {
    ReadSigned(bytes, p, 64)
  }

  // ---- What the loop computes ------------------------------------------------------

  // Multiplication that fits below a power of two.
  lemma ShiftFits(value: nat, x: nat, shift: nat)
    requires 0 <= value < Pow2(shift) && 0 <= x && shift < 64
    ensures 0 <= value + x * Pow2(shift) % TWO64 < TWO64
    ensures value + x * Pow2(shift) % TWO64 == (value + x * Pow2(shift)) % TWO64
    ensures Or(value, x * Pow2(shift) % TWO64) == value + x * Pow2(shift) % TWO64
  {
    hide Pow2, Or;
    var s, rest := Pow2(shift), Pow2(64 - shift);
    Pow2Add(shift, 64 - shift);
    Pow2Constants();
    var q, r := x / rest, x % rest;
    SplitProduct(x, s, rest, q, r);
    ModUnique(x * s, q, r * s);
    ModUnique(value + x * s, q, value + r * s);
    OrDisjoint(r, shift, value);
  }

  lemma SplitProduct(x: int, s: nat, rest: nat, q: int, r: int)
    requires s * rest == TWO64 && x == q * rest + r && 0 <= r < rest && 0 < s
    ensures x * s == q * TWO64 + r * s && 0 <= r * s && r * s + s <= TWO64
  {
    calc {
      x * s;
      (q * rest) * s + r * s;
      { Associate(q, rest, s); }
      q * (rest * s) + r * s;
      { Commute(rest, s); }
      q * TWO64 + r * s;
    }
    Dominates(r + 1, rest, s);
    assert (r + 1) * s == r * s + s;
    Dominates(0, r, s);
  }

  lemma Associate(a: int, b: int, c: int) ensures (a * b) * c == a * (b * c) { }

  lemma Commute(a: int, b: int) ensures a * b == b * a { }

  lemma Dominates(a: int, b: int, c: nat)
    requires a <= b
    ensures a * c <= b * c && a * c <= c * b
  {
  }

  lemma ModUnique(a: int, q: int, r: int)
    requires a == q * TWO64 + r && 0 <= r < TWO64
    ensures a % TWO64 == r
  {
  }

  // The bytes read are a well-formed group sequence within the bit limit, or there is none; the value is theirs mod 2^64.
  lemma {:induction false} ReadFromSpec(bytes: seq<Byte>, p: nat, value: nat, shift: nat, maxBits: nat)
    requires p <= |bytes| && 0 <= value < Pow2(shift) && shift < maxBits <= 64
    ensures var r := ReadFrom(bytes, p, value, shift, maxBits);
      r.status.Done? ==>
        WellFormed(bytes[p..r.next]) && shift + 7 * (r.next - p - 1) < maxBits && r.shift == shift + 7 * (r.next - p)
        && r.value == (value + Value(bytes[p..r.next]) * Pow2(shift)) % TWO64
    ensures var r := ReadFrom(bytes, p, value, shift, maxBits);
      shift + 7 * (r.next - p) < maxBits + 7
    ensures var r := ReadFrom(bytes, p, value, shift, maxBits);
      !r.status.Done? ==> forall t :: p <= t <= |bytes| && WellFormed(bytes[p..t]) ==> shift + 7 * (t - p - 1) >= maxBits
    decreases |bytes| - p
  {
    hide Pow2, Value, Accumulate, WellFormed;
    var r := ReadFrom(bytes, p, value, shift, maxBits);
    if p == |bytes| {
      NotEmpty(bytes, p);
    } else {
      var b := bytes[p];
      var v := Accumulate(value, b, shift);
      if b < 128 {
        LastGroup(bytes, p, value, shift);
      } else {
        forall t | p <= t <= |bytes| && WellFormed(bytes[p..t]) ensures t >= p + 2 && WellFormed(bytes[p + 1..t]) {
          TailWellFormed(bytes, p, t);
        }
        if shift + 7 < maxBits {
          NotYet(value, b, shift, v);
          ReadFromSpec(bytes, p + 1, v, shift + 7, maxBits);
          if r.status.Done? { ValueStep(bytes, p, r.next, value, shift, v, r.value); }
        }
      }
    }
  }

  lemma NotEmpty(bytes: seq<Byte>, p: nat)
    requires p <= |bytes|
    ensures !WellFormed(bytes[p..p])
  {
  }

  lemma LastGroup(bytes: seq<Byte>, p: nat, value: nat, shift: nat)
    requires p < |bytes| && bytes[p] < 128 && 0 <= value < Pow2(shift) && shift < 64
    ensures WellFormed(bytes[p..p + 1])
    ensures Accumulate(value, bytes[p], shift) == (value + Value(bytes[p..p + 1]) * Pow2(shift)) % TWO64
  {
    hide Pow2;
    var bs := bytes[p..p + 1];
    assert bs == [bytes[p]] && bs[1..] == [];
    assert Value(bs) == bytes[p] % 128;
    ShiftFits(value, bytes[p] % 128, shift);
  }

  lemma TailWellFormed(bytes: seq<Byte>, p: nat, t: nat)
    requires p < |bytes| && p <= t <= |bytes| && bytes[p] >= 128 && WellFormed(bytes[p..t])
    ensures t >= p + 2 && WellFormed(bytes[p + 1..t])
  {
    var bs := bytes[p..t];
    assert bs[|bs| - 1] == bytes[t - 1];
    assert bytes[p + 1..t] == bs[1..];
  }

  // Below the limit nothing is cut off.
  lemma NotYet(value: nat, b: Byte, shift: nat, v: nat)
    requires 0 <= value < Pow2(shift) && shift + 7 < 64 && v == Accumulate(value, b, shift)
    ensures v == value + (b % 128) * Pow2(shift) && 0 <= v < Pow2(shift + 7)
  {
    hide Pow2;
    var s := Pow2(shift);
    Pow2By7(shift);
    Pow2Monotone(shift + 7, 64);
    Pow2Constants();
    Dominates(b % 128 + 1, 128, s);
    Dominates(0, b % 128, s);
    assert (b % 128 + 1) * s == (b % 128) * s + s;
    ModUnique((b % 128) * s, 0, (b % 128) * s);
    ShiftFits(value, b % 128, shift);
  }

  lemma ValueStep(bytes: seq<Byte>, p: nat, next: nat, value: int, shift: nat, v: int, result: int)
    requires p + 1 < next <= |bytes| && bytes[p] >= 128 && WellFormed(bytes[p + 1..next])
    requires v == value + (bytes[p] % 128) * Pow2(shift)
    requires result == (v + Value(bytes[p + 1..next]) * Pow2(shift + 7)) % TWO64
    ensures WellFormed(bytes[p..next])
    ensures result == (value + Value(bytes[p..next]) * Pow2(shift)) % TWO64
  {
    hide Pow2, WellFormed;
    var bs, tail := bytes[p..next], bytes[p + 1..next];
    ConsWellFormed(bytes, p, next);
    Pow2By7(shift);
    Pow2Constants();
    var x, y := bytes[p] % 128, Value(tail);
    assert Value(bs) == x + 128 * y;
    hide Value;
    Regroup(x, y, Pow2(shift));
    assert v + y * Pow2(shift + 7) == value + Value(bs) * Pow2(shift);
  }

  lemma ConsWellFormed(bytes: seq<Byte>, p: nat, next: nat)
    requires p + 1 < next <= |bytes| && bytes[p] >= 128 && WellFormed(bytes[p + 1..next])
    ensures var bs := bytes[p..next];
      WellFormed(bs) && bs[0] == bytes[p] && bs[1..] == bytes[p + 1..next]
  {
    var bs, tail := bytes[p..next], bytes[p + 1..next];
    assert bs[1..] == tail && bs[|bs| - 1] == tail[|tail| - 1];
    assert forall i :: 0 <= i < |tail| ==> bs[i + 1] == tail[i];
  }

  lemma Regroup(x: int, y: int, s: int)
    ensures (x + 128 * y) * s == x * s + y * (s * 128)
  {
    Associate(128, y, s);
    Associate(y, s, 128);
  }

  /**
   * ReadLebUnsigned, for every input: it succeeds exactly if the bytes start with a group
   * sequence that fits the limit, consumes exactly that, and yields its value mod 2^64; in
   * any case it reads at most ceil(maxBits / 7) bytes and never past the end.
   */
  lemma ReadUnsignedSpec(bytes: seq<Byte>, p: nat, maxBits: nat)
    requires p <= |bytes| && 0 < maxBits <= 64
    ensures var r := ReadUnsigned(bytes, p, maxBits);
      && p <= r.next <= |bytes| && r.next - p <= (maxBits + 6) / 7
      && (r.status.Done? ==> Fits(bytes, p, r.next, maxBits) && r.value == Value(bytes[p..r.next]) % TWO64)
      && (!r.status.Done? ==> forall t :: p <= t <= |bytes| ==> !Fits(bytes, p, t, maxBits))
  {
    ReadFromSpec(bytes, p, 0, 0, maxBits);
    var r := ReadFrom(bytes, p, 0, 0, maxBits);
    assert Value(bytes[p..r.next]) * Pow2(0) == Value(bytes[p..r.next]);
  }

  predicate Fits(bytes: seq<Byte>, p: nat, t: nat, maxBits: nat)
    requires p <= t <= |bytes|
  {
    WellFormed(bytes[p..t]) && 7 * (t - p - 1) < maxBits
  }

  // ReadLebSigned: the same, with the two's complement value mod 2^64.
  lemma ReadSignedSpec(bytes: seq<Byte>, p: nat, maxBits: nat)
    requires p <= |bytes| && 0 < maxBits <= 64
    ensures var r := ReadSigned(bytes, p, maxBits);
      && p <= r.next <= |bytes| && r.next - p <= (maxBits + 6) / 7
      && (r.status.Done? ==> p < r.next && Fits(bytes, p, r.next, maxBits) && r.value == AsI64(SignedValue(bytes[p..r.next]) % TWO64))
      && (!r.status.Done? ==> forall t :: p <= t <= |bytes| ==> !Fits(bytes, p, t, maxBits))
  {
    ReadFromSpec(bytes, p, 0, 0, maxBits);
    var r := ReadFrom(bytes, p, 0, 0, maxBits);
    var bs := bytes[p..r.next];
    assert Value(bs) * Pow2(0) == Value(bs);
    if r.status.Done? {
      assert bs[|bs| - 1] == bytes[r.next - 1];
      ExtendIsSigned(r, bs);
    }
  }

  lemma ExtendIsSigned(r: Raw, bs: seq<Byte>)
    requires bs != [] && r.shift == 7 * |bs| && r.value == Value(bs) % TWO64
    ensures Extend(r, bs[|bs| - 1]) == SignedValue(bs) % TWO64
  {
    hide Pow2, Value, SignBit;
    var sum, s := Value(bs), Pow2(7 * |bs|);
    ValueBound(bs);
    Pow2Constants();
    if SignBit(bs[|bs| - 1]) {
      if r.shift < 64 {
        Pow2Monotone(7 * |bs|, 64);
        ModUnique(sum, 0, sum);
        ModUnique(sum - s, -1, sum - s + TWO64);
        Pow2Add(64 - r.shift, r.shift);
        assert AllOnes(r.shift) == TWO64 - s by { Peel(Pow2(64 - r.shift), s); }
        OrDisjoint(Pow2(64 - r.shift) - 1, r.shift, sum);
      } else {
        Pow2Add(64, 7 * |bs| - 64);
        var k := Pow2(7 * |bs| - 64);
        ModUnique(sum - s, sum / TWO64 - k, sum % TWO64);
      }
    }
  }

  lemma Peel(a: int, s: int) ensures (a - 1) * s == a * s - s { }

  lemma {:induction false} ValueBound(bs: seq<Byte>)
    ensures Value(bs) < Pow2(7 * |bs|)
  {
    if bs != [] {
      hide Pow2;
      ValueBound(bs[1..]);
      Pow2By7(7 * (|bs| - 1));
      Pow2Constants();
      assert 7 + 7 * (|bs| - 1) == 7 * |bs|;
    }
  }

  // ---- Encoding, and the round trips --------------------------------------------------

  function EncodeUnsigned(n: nat): (bs: seq<Byte>)
    ensures WellFormed(bs) && Value(bs) == n
  {
    if n < 128 then [n]
    else
      var tail := EncodeUnsigned(n / 128);
      ConsGroup(128 + n % 128, tail);
      [128 + n % 128] + tail
  }

  lemma ConsGroup(b: Byte, tail: seq<Byte>)
    requires b >= 128 && WellFormed(tail)
    ensures tail != [] && WellFormed([b] + tail) && Value([b] + tail) == b % 128 + 128 * Value(tail)
  {
    var bs := [b] + tail;
    assert bs[1..] == tail && bs[|bs| - 1] == tail[|tail| - 1];
    assert forall i :: 1 <= i < |bs| ==> bs[i] == tail[i - 1];
  }

  function EncodeSigned(n: int): (bs: seq<Byte>)
    ensures WellFormed(bs) && SignedValue(bs) == n
    decreases if n < 0 then -n else n
  {
    if -64 <= n < 64 then
      SignedBase(n);
      [n % 128]
    else
      var tail := EncodeSigned(n / 128);
      hide SignedValue, WellFormed;
      ConsGroup(128 + n % 128, tail);
      SignedStep(n, tail, [128 + n % 128] + tail);
      [128 + n % 128] + tail
  }

  lemma SignedBase(n: int)
    requires -64 <= n < 64
    ensures SignedValue([n % 128]) == n
  {
    hide Pow2;
    Pow2Constants();
    var bs: seq<Byte> := [n % 128];
    assert bs[1..] == [];
    assert Value(bs) == n % 128;
    assert SignBit(bs[0]) <==> n < 0;
  }

  lemma SignedStep(n: int, tail: seq<Byte>, bs: seq<Byte>)
    requires tail != [] && SignedValue(tail) == n / 128 && bs == [128 + n % 128] + tail
    ensures SignedValue(bs) == n
  {
    hide Pow2;
    assert bs[1..] == tail && bs[|bs| - 1] == tail[|tail| - 1];
    Pow2By7(7 * |tail|);
    Pow2Constants();
    assert 7 + 7 * |tail| == 7 * |bs|;
  }

  // A value below 2^maxBits needs no more groups than the limit allows.
  lemma {:induction false} UnsignedLength(n: nat, maxBits: nat)
    requires n < Pow2(maxBits) && 0 < maxBits
    ensures 7 * (|EncodeUnsigned(n)| - 1) < maxBits
    decreases n
  {
    if n >= 128 {
      hide Pow2;
      Pow2Constants();
      if maxBits <= 7 { Pow2Monotone(maxBits, 7); }
      Pow2By7(maxBits - 7);
      UnsignedLength(n / 128, maxBits - 7);
    }
  }

  lemma EncodeSignedLength(n: int)
    requires !(-64 <= n < 64)
    ensures |EncodeSigned(n)| == 1 + |EncodeSigned(n / 128)|
  {
  }

  lemma {:induction false} SignedLength(n: int, maxBits: nat)
    requires 0 < maxBits && 0 <= n + Pow2(maxBits - 1) && n < Pow2(maxBits - 1)
    ensures 7 * (|EncodeSigned(n)| - 1) < maxBits
    decreases if n < 0 then -n else n
  {
    hide Pow2, SignedValue, WellFormed, EncodeSigned;
    if -64 <= n < 64 {
      EncodeSignedShort(n);
    } else {
      Pow2Constants();
      if maxBits <= 7 { Pow2Monotone(maxBits - 1, 6); }
      Pow2By7(maxBits - 8);
      EncodeSignedLength(n);
      Shrink(n, Pow2(maxBits - 8));
      SignedLength(n / 128, maxBits - 7);
    }
  }

  lemma EncodeSignedShort(n: int)
    requires -64 <= n < 64
    ensures |EncodeSigned(n)| == 1
  {
  }

  lemma Shrink(n: int, p: nat)
    requires 0 <= n + 128 * p && n < 128 * p
    ensures 0 <= n / 128 + p && n / 128 < p
  {
  }

  // A well-formed sequence is cut off at its own end, whatever follows.
  lemma FitsOnce(bytes: seq<Byte>, p: nat, t: nat, u: nat)
    requires p <= t <= |bytes| && p <= u <= |bytes| && WellFormed(bytes[p..t]) && WellFormed(bytes[p..u])
    ensures t == u
  {
    Groups(bytes, p, t);
    Groups(bytes, p, u);
  }

  lemma Groups(bytes: seq<Byte>, p: nat, t: nat)
    requires p <= t <= |bytes| && WellFormed(bytes[p..t])
    ensures p < t && bytes[t - 1] < 128
    ensures forall i :: p <= i < t - 1 ==> bytes[i] >= 128
  {
    var bs := bytes[p..t];
    assert bs[|bs| - 1] == bytes[t - 1];
    forall i | p <= i < t - 1 ensures bytes[i] >= 128 { assert bs[i - p] == bytes[i]; }
  }

  lemma Located(before: seq<Byte>, code: seq<Byte>, after: seq<Byte>)
    ensures (before + code + after)[|before|..|before| + |code|] == code
  {
  }

  /**
   * Round trip: every value of the type, encoded anywhere in a buffer, is read back and
   * exactly its encoding is consumed.
   */
  lemma RoundTripU32(before: seq<Byte>, n: nat, after: seq<Byte>)
    requires n < 0x1_0000_0000
    ensures var code := EncodeUnsigned(n);
      ReadU32(before + code + after, |before|) == Read(Done, n, |before| + |code|)
  {
    var code := EncodeUnsigned(n);
    var bytes, p := before + code + after, |before|;
    Located(before, code, after);
    Pow2Constants();
    hide Pow2, ReadFrom, Value, WellFormed;
    UnsignedLength(n, 32);
    ReadUnsignedSpec(bytes, p, 32);
    assert Fits(bytes, p, p + |code|, 32);
    FitsOnce(bytes, p, p + |code|, ReadUnsigned(bytes, p, 32).next);
  }

  lemma SignedRead(before: seq<Byte>, n: int, after: seq<Byte>, maxBits: nat)
    requires 0 < maxBits <= 64 && 0 <= n + Pow2(maxBits - 1) && n < Pow2(maxBits - 1)
    ensures var code := EncodeSigned(n);
      ReadSigned(before + code + after, |before|, maxBits) == Read(Done, n, |before| + |code|)
  {
    var code := EncodeSigned(n);
    var bytes, p := before + code + after, |before|;
    Located(before, code, after);
    Pow2Constants();
    hide Pow2, ReadFrom, Value, WellFormed, SignedValue;
    Pow2Monotone(maxBits - 1, 63);
    SignedLength(n, maxBits);
    ReadSignedSpec(bytes, p, maxBits);
    assert Fits(bytes, p, p + |code|, maxBits);
    FitsOnce(bytes, p, p + |code|, ReadSigned(bytes, p, maxBits).next);
    if n < 0 { ModUnique(n, -1, n + TWO64); } else { ModUnique(n, 0, n); }
  }

  lemma RoundTripI32(before: seq<Byte>, n: int, after: seq<Byte>)
    requires -0x8000_0000 <= n < 0x8000_0000
    ensures var code := EncodeSigned(n);
      ReadI32(before + code + after, |before|) == Read(Done, n, |before| + |code|)
  {
    hide Pow2, ReadFrom, EncodeSigned;
    Pow2Constants();
    SignedRead(before, n, after, 32);
  }

  lemma RoundTripI64(before: seq<Byte>, n: int, after: seq<Byte>)
    requires -0x8000_0000_0000_0000 <= n < 0x8000_0000_0000_0000
    ensures var code := EncodeSigned(n);
      ReadI64(before + code + after, |before|) == Read(Done, n, |before| + |code|)
  {
    hide Pow2, ReadFrom, EncodeSigned;
    Pow2Constants();
    SignedRead(before, n, after, 64);
  }

  // ---- Encodings of numbers outside the type -------------------------------------------

  // n continuation bytes from p on, and one byte after them.
  predicate Continues(bytes: seq<Byte>, p: nat, n: nat) {
    p + n < |bytes| && forall i :: p <= i < p + n ==> bytes[i] >= 128
  }

  // The last group as a signed 7-bit number.
  function Top(b: Byte): int { if b % 128 >= 64 then b % 128 - 128 else b % 128 }

  lemma {:induction false} ValueSnoc(bs: seq<Byte>, b: Byte)
    ensures Value(bs + [b]) == Value(bs) + Pow2(7 * |bs|) * (b % 128)
    decreases |bs|
  {
    if bs == [] {
      assert (bs + [b])[1..] == [];
    } else {
      var tail := bs[1..];
      assert (bs + [b])[1..] == tail + [b];
      ValueSnoc(tail, b);
      Pow2By7(7 * |tail|);
      hide Pow2;
      Spread(Pow2(7 * |tail|), b % 128);
    }
  }

  lemma Spread(s: int, x: int) ensures 128 * (s * x) == (128 * s) * x { }

  // The value by its last group.
  lemma LastGroups(bs: seq<Byte>)
    requires WellFormed(bs)
    ensures var n := |bs| - 1;
      && Value(bs) == Value(bs[..n]) + Pow2(7 * n) * bs[n]
      && SignedValue(bs) == Value(bs[..n]) + Pow2(7 * n) * Top(bs[n])
      && Value(bs[..n]) < Pow2(7 * n)
  {
    hide Pow2, Value, Top;
    var n := |bs| - 1;
    assert bs == bs[..n] + [bs[n]];
    ValueSnoc(bs[..n], bs[n]);
    ValueBound(bs[..n]);
    Pow2By7(7 * n);
    assert 7 * n + 7 == 7 * |bs|;
    TopIs(bs[n]);
    hide SignBit;
    Complement(Pow2(7 * n), bs[n]);
  }

  lemma TopIs(b: Byte)
    requires b < 128
    ensures Top(b) == if SignBit(b) then b - 128 else b
  {
  }

  lemma Complement(s: int, b: int) ensures s * (b - 128) == s * b - 128 * s { }

  // A read of at most n + 1 groups has more than n exactly if n continuation bytes come first.
  lemma LengthFromBytes(bytes: seq<Byte>, p: nat, next: nat, n: nat)
    requires p <= next <= |bytes| && WellFormed(bytes[p..next]) && next - p <= n + 1
    ensures next - p == n + 1 <==> Continues(bytes, p, n)
    ensures next - p == n + 1 ==> bytes[p..next][n] == bytes[p + n] < 128
  {
    Groups(bytes, p, next);
  }

  // n groups in all hold a number below 2^(7n), as unsigned and, up to the sign, as signed numbers.
  lemma ShortValue(bs: seq<Byte>, bits: nat)
    requires WellFormed(bs) && 7 * |bs| <= bits
    ensures 0 <= Value(bs) < Pow2(bits) && -1 * Pow2(bits) <= SignedValue(bs) < Pow2(bits)
  {
    ValueBound(bs);
    Pow2Monotone(7 * |bs|, bits);
  }

  /**
   * The standard rejects encodings of numbers outside the type.  ReadLEB_u32 returns the
   * number encoded exactly if it is not so that four continuation bytes are followed by
   * one of 16 or more.
   */
  lemma U32ExactIff(bytes: seq<Byte>, p: nat)
    requires p <= |bytes| && ReadU32(bytes, p).status.Done?
    ensures var r := ReadU32(bytes, p);
      r.value == Value(bytes[p..r.next]) <==> !(Continues(bytes, p, 4) && bytes[p + 4] >= 16)
  {
    hide ReadFrom, WellFormed, Continues, Pow2, Value;
    ReadUnsignedSpec(bytes, p, 32);
    var next := ReadU32(bytes, p).next;
    var bs := bytes[p..next];
    LengthFromBytes(bytes, p, next, 4);
    LastGroups(bs);
    Pow2Of28();
    hide Pow2, Value;
    if |bs| < 5 {
      ShortValue(bs, 28);
    } else {
      var top: int := bytes[p + 4];
      assert Value(bs) == Value(bs[..4]) + 0x1000_0000 * top;
    }
  }

  lemma Pow2Of28()
    ensures Pow2(28) == 0x1000_0000
  {
    Pow2Constants();
    assert Pow2(31) == 2 * Pow2(30) && Pow2(30) == 2 * Pow2(29) && Pow2(29) == 2 * Pow2(28);
  }

  // ReadLEB_i32: not four continuation bytes followed by one whose upper four value bits differ.
  lemma I32ExactIff(bytes: seq<Byte>, p: nat)
    requires p <= |bytes| && ReadI32(bytes, p).status.Done?
    ensures p < ReadI32(bytes, p).next <= |bytes|
    ensures var r := ReadI32(bytes, p);
      r.value == SignedValue(bytes[p..r.next]) <==> !(Continues(bytes, p, 4) && 8 <= bytes[p + 4] < 120)
  {
    hide ReadFrom, WellFormed, Continues, Pow2, Value, SignedValue;
    ReadSignedSpec(bytes, p, 32);
    var next := ReadI32(bytes, p).next;
    var bs := bytes[p..next];
    LengthFromBytes(bytes, p, next, 4);
    LastGroups(bs);
    Pow2Of28();
    hide Pow2, Value, SignedValue;
    var v := SignedValue(bs);
    if |bs| < 5 {
      ShortValue(bs, 28);
    } else {
      assert v == Value(bs[..4]) + 0x1000_0000 * Top(bytes[p + 4]);
    }
    if v < 0 { ModUnique(v, -1, v + TWO64); } else { ModUnique(v, 0, v); }
    AsI32Exact(v);
  }

  lemma AsI32Exact(v: int)
    ensures AsI32(v) == v <==> -0x8000_0000 <= v < 0x8000_0000
  {
  }

  // ReadLEB_i64: not nine continuation bytes followed by one other than 0 and 127.
  lemma I64ExactIff(bytes: seq<Byte>, p: nat)
    requires p <= |bytes| && ReadI64(bytes, p).status.Done?
    ensures p < ReadI64(bytes, p).next <= |bytes|
    ensures var r := ReadI64(bytes, p);
      r.value == SignedValue(bytes[p..r.next]) <==> !(Continues(bytes, p, 9) && 0 < bytes[p + 9] < 127)
  {
    hide ReadFrom, WellFormed, Continues, Pow2, Value, SignedValue;
    ReadSignedSpec(bytes, p, 64);
    var next := ReadI64(bytes, p).next;
    var bs := bytes[p..next];
    LengthFromBytes(bytes, p, next, 9);
    LastGroups(bs);
    Pow2Constants();
    hide Pow2, Value, SignedValue;
    if |bs| < 10 {
      ShortValue(bs, 63);
    } else {
      assert SignedValue(bs) == Value(bs[..9]) + 0x8000_0000_0000_0000 * Top(bytes[p + 9]);
    }
    AsI64Exact(SignedValue(bs));
  }

  lemma AsI64Exact(v: int)
    ensures AsI64(v % TWO64) == v <==> -0x8000_0000_0000_0000 <= v < 0x8000_0000_0000_0000
  {
    if -0x8000_0000_0000_0000 <= v < 0x8000_0000_0000_0000 {
      if v < 0 { ModUnique(v, -1, v + TWO64); } else { ModUnique(v, 0, v); }
    }
  }

  // Four full continuation bytes and a last one.
  function Five(b: Byte): seq<Byte> { [0xFF, 0xFF, 0xFF, 0xFF, b] }

  // 2^35 - 1 in five bytes is accepted and read as 2^32 - 1; 2^32 - 1 is read as the i32 -1.
  lemma TruncationExamples()
    ensures ReadU32(Five(0x7F), 0) == Read(Done, 0xFFFF_FFFF, 5) && Value(Five(0x7F)) == 0x7_FFFF_FFFF
    ensures ReadI32(Five(0x0F), 0) == Read(Done, -1, 5) && SignedValue(Five(0x0F)) == 0xFFFF_FFFF
  {
    hide ReadU32, ReadI32, Value, SignedValue, Five, WellFormed;
    FiveBytes(0x7F);
    FiveBytes(0x0F);
    Truncated(0x7F);
    Truncated(0x0F);
  }

  lemma FiveBytes(b: Byte)
    requires b < 64 || b == 0x7F
    ensures var bs := Five(b);
      bs != [] && WellFormed(bs) && Value(bs) == 0xFFF_FFFF + 0x1000_0000 * b && (b < 64 ==> SignedValue(bs) == Value(bs))
  {
    var last: seq<Byte> := [b];
    assert last[1..] == [];
    assert Value(last) == b && WellFormed(last);
    hide Value, WellFormed;
    ConsGroup(0xFF, [b]);
    assert [0xFF] + [b] == [0xFF, b];
    ConsGroup(0xFF, [0xFF, b]);
    assert [0xFF] + [0xFF, b] == [0xFF, 0xFF, b];
    ConsGroup(0xFF, [0xFF, 0xFF, b]);
    assert [0xFF] + [0xFF, 0xFF, b] == [0xFF, 0xFF, 0xFF, b];
    ConsGroup(0xFF, [0xFF, 0xFF, 0xFF, b]);
    assert [0xFF] + [0xFF, 0xFF, 0xFF, b] == [0xFF, 0xFF, 0xFF, 0xFF, b];
  }

  lemma Truncated(b: Byte)
    requires b < 64 || b == 0x7F
    ensures var bs := Five(b);
      && bs != [] && ReadU32(bs, 0) == Read(Done, Value(bs) % TWO32, 5)
      && (b < 64 ==> ReadI32(bs, 0) == Read(Done, AsI32(SignedValue(bs)), 5))
  {
    var bs := Five(b);
    FiveBytes(b);
    hide Value, SignedValue, ReadFrom, WellFormed;
    assert bs[0..5] == bs;
    ReadUnsignedSpec(bs, 0, 32);
    ReadSignedSpec(bs, 0, 32);
    assert Fits(bs, 0, 5, 32);
    FitsOnce(bs, 0, 5, ReadUnsigned(bs, 0, 32).next);
    FitsOnce(bs, 0, 5, ReadSigned(bs, 0, 32).next);
    ModUnique(Value(bs), 0, Value(bs));
  }

  // ---- The loops -------------------------------------------------------------------------

  method ReadLebUnsigned(bytes: seq<Byte>, start: nat, maxBits: nat) returns (status: Status, value: nat, next: nat)
    requires start <= |bytes|
    ensures Read(status, value, next) == ReadUnsigned(bytes, start, maxBits)
  {
    value, next, status := 0, start, Underrun;
    var shift := 0;
    while next < |bytes|
      invariant start <= next <= |bytes| && status == Underrun
      invariant ReadFrom(bytes, start, 0, 0, maxBits) == ReadFrom(bytes, next, value, shift, maxBits)
    {
      var byte := bytes[next];
      next := next + 1;
      value := Accumulate(value, byte, shift);
      shift := shift + 7;
      if byte < 128 {
        status := Done;
        break;
      }
      if shift >= maxBits {
        status := Overflow;
        break;
      }
    }
  }

  method ReadLebSigned(bytes: seq<Byte>, start: nat, maxBits: nat) returns (status: Status, value: int, next: nat)
    requires start <= |bytes|
    ensures Read(status, value, next) == ReadSigned(bytes, start, maxBits)
  {
    next, status := start, Underrun;
    var raw: nat, shift := 0, 0;
    while next < |bytes|
      invariant start <= next <= |bytes| && status == Underrun
      invariant ReadFrom(bytes, start, 0, 0, maxBits) == ReadFrom(bytes, next, raw, shift, maxBits)
    {
      var byte := bytes[next];
      next := next + 1;
      raw := Accumulate(raw, byte, shift);
      shift := shift + 7;
      if byte < 128 {
        status := Done;
        if SignBit(byte) && shift < 64 {
          raw := Or(raw, AllOnes(shift));
        }
        break;
      }
      if shift >= maxBits {
        status := Overflow;
        break;
      }
    }
    value := AsI64(raw);
  }
}
