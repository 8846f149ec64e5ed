/**
 * SHA-256 as FIPS 180-4 defines it: padding (section 5.1.1), blocks (5.2.1) and the hash
 * computation (6.2.2), over byte messages.
 */
module Sha256Spec {
  import opened Words

  type Byte = bv8

  // The round constants, eight to a row.
  function Row(r: nat): (k: seq<bv32>)
    ensures |k| == 8
  {
    match r
    case 0 => [0x428a2f98, 0x71374491, 0xb5c0fbcf, 0xe9b5dba5, 0x3956c25b, 0x59f111f1, 0x923f82a4, 0xab1c5ed5]
    case 1 => [0xd807aa98, 0x12835b01, 0x243185be, 0x550c7dc3, 0x72be5d74, 0x80deb1fe, 0x9bdc06a7, 0xc19bf174]
    case 2 => [0xe49b69c1, 0xefbe4786, 0x0fc19dc6, 0x240ca1cc, 0x2de92c6f, 0x4a7484aa, 0x5cb0a9dc, 0x76f988da]
    case 3 => [0x983e5152, 0xa831c66d, 0xb00327c8, 0xbf597fc7, 0xc6e00bf3, 0xd5a79147, 0x06ca6351, 0x14292967]
    case 4 => [0x27b70a85, 0x2e1b2138, 0x4d2c6dfc, 0x53380d13, 0x650a7354, 0x766a0abb, 0x81c2c92e, 0x92722c85]
    case 5 => [0xa2bfe8a1, 0xa81a664b, 0xc24b8b70, 0xc76c51a3, 0xd192e819, 0xd6990624, 0xf40e3585, 0x106aa070]
    case 6 => [0x19a4c116, 0x1e376c08, 0x2748774c, 0x34b0bcb5, 0x391c0cb3, 0x4ed8aa4a, 0x5b9cca4f, 0x682e6ff3]
    case _ => [0x748f82ee, 0x78a5636f, 0x84c87814, 0x8cc70208, 0x90befffa, 0xa4506ceb, 0xbef9a3f7, 0xc67178f2]
  }

  function K(): (k: seq<bv32>)
    ensures |k| == 64
  {
    seq(64, t requires 0 <= t < 64 => Row(t / 8)[t % 8])
  }

  // The eight working variables, and equally the eight words of the hash value.
  datatype Vars = Vars(a: bv32, b: bv32, c: bv32, d: bv32, e: bv32, f: bv32, g: bv32, h: bv32)

  function H0(): Vars {
    Vars(0x6a09e667, 0xbb67ae85, 0x3c6ef372, 0xa54ff53a, 0x510e527f, 0x9b05688c, 0x1f83d9ab, 0x5be0cd19)
  }

  function Rotr(x: bv32, n: nat): bv32
    requires 0 < n < 32
  {
    (x >> n) | (x << (32 - n))
  }

  // Addition modulo 2^32.
  function Add(x: bv32, y: bv32): bv32 { x + y }

  function Ch(x: bv32, y: bv32, z: bv32): bv32 { (x & y) ^ (!x & z) }
  function Maj(x: bv32, y: bv32, z: bv32): bv32 { (x & y) ^ (x & z) ^ (y & z) }
  function Ep0(x: bv32): bv32 { Rotr(x, 2) ^ Rotr(x, 13) ^ Rotr(x, 22) }
  function Ep1(x: bv32): bv32 { Rotr(x, 6) ^ Rotr(x, 11) ^ Rotr(x, 25) }
  function Sig0(x: bv32): bv32 { Rotr(x, 7) ^ Rotr(x, 18) ^ (x >> 3) }
  function Sig1(x: bv32): bv32 { Rotr(x, 17) ^ Rotr(x, 19) ^ (x >> 10) }

  // Four bytes, most significant first.
  function BigEndian(w: seq<Byte>): bv32
    requires |w| == 4
  {
    (w[0] as bv32 << 24) | (w[1] as bv32 << 16) | (w[2] as bv32 << 8) | (w[3] as bv32)
  }

  // Word t of the message schedule of a block.
  function Schedule(block: seq<Byte>, t: nat): bv32
    requires |block| == 64 && t < 64
  {
    if t < 16 then BigEndian(block[4 * t..4 * t + 4])
    else
      hide Sig0, Sig1, Add, BigEndian;
      Expanded(Schedule(block, t - 2), Schedule(block, t - 7), Schedule(block, t - 15), Schedule(block, t - 16))
  }

  function Expanded(w2: bv32, w7: bv32, w15: bv32, w16: bv32): bv32 {
    Add(Add(Add(Sig1(w2), w7), Sig0(w15)), w16)
  }

  function Round(v: Vars, k: bv32, w: bv32): Vars {
    var t1 := T1(v.h, v.e, v.f, v.g, k, w);
    var t2 := Add(Ep0(v.a), Maj(v.a, v.b, v.c));
    Vars(Add(t1, t2), v.a, v.b, v.c, Add(v.d, t1), v.e, v.f, v.g)
  }

  function T1(h: bv32, e: bv32, f: bv32, g: bv32, k: bv32, w: bv32): bv32 {
    Add(Add(Add(Add(h, Ep1(e)), Ch(e, f, g)), k), w)
  }

  function Rounds(v: Vars, block: seq<Byte>, t: nat): Vars
    requires |block| == 64 && t <= 64
  {
    if t == 0 then v else Round(Rounds(v, block, t - 1), K()[t - 1], Schedule(block, t - 1))
  }

  function Sum(v: Vars, w: Vars): Vars {
    Vars(Add(v.a, w.a), Add(v.b, w.b), Add(v.c, w.c), Add(v.d, w.d), Add(v.e, w.e), Add(v.f, w.f), Add(v.g, w.g), Add(v.h, w.h))
  }

  function Compress(h: Vars, block: seq<Byte>): Vars
    requires |block| == 64
  {
    Sum(h, Rounds(h, block, 64))
  }

  // The hash value after a whole number of blocks.
  function HashBlocks(bytes: seq<Byte>): Vars
    requires |bytes| % 64 == 0
    decreases |bytes|
  {
    if bytes == [] then H0()
    else Compress(HashBlocks(bytes[..|bytes| - 64]), bytes[|bytes| - 64..])
  }

  function Zeros(n: nat): (z: seq<Byte>)
    ensures |z| == n
  {
    seq(n, _ => 0)
  }

  // The number of zero bytes between the one bit and the length.
  function ZeroCount(n: nat): nat { (119 - n % 64) % 64 }

  // It is the smallest that makes the padded message a whole number of blocks.
  lemma ZeroCountIsLeast(n: nat, z: nat)
    ensures (n + 1 + ZeroCount(n) + 8) % 64 == 0
    ensures (n + 1 + z + 8) % 64 == 0 ==> ZeroCount(n) <= z
  {
  }

  // (uint8_t)(n >> 8 * k)
  function LowByte(n: nat, k: nat): Byte
    requires k < 8
    decreases k
  {
    if k == 0 then (n % 256) as bv8 else LowByte(n / 256, k - 1)
  }

  // 64 bits, most significant byte first.
  function Length(bits: nat): (r: seq<Byte>)
    ensures |r| == 8
  {
    [LowByte(bits, 7), LowByte(bits, 6), LowByte(bits, 5), LowByte(bits, 4),
     LowByte(bits, 3), LowByte(bits, 2), LowByte(bits, 1), LowByte(bits, 0)]
  }

  function Pad(m: seq<Byte>): (r: seq<Byte>)
    ensures |r| % 64 == 0
  {
    hide Length, ZeroCount;
    ZeroCountIsLeast(|m|, 0);
    m + [0x80] + Zeros(ZeroCount(|m|)) + Length(8 * |m| % TWO64)
  }

  // Byte i of a word, most significant first.
  function ByteOf(x: bv32, i: nat): Byte
    requires i < 4
  {
    match i
    case 0 => ((x >> 24) & 0xFF) as bv8
    case 1 => ((x >> 16) & 0xFF) as bv8
    case 2 => ((x >> 8) & 0xFF) as bv8
    case 3 => (x & 0xFF) as bv8
  }

  function Word(v: Vars, i: nat): bv32
    requires i < 8
  {
    match i
    case 0 => v.a case 1 => v.b case 2 => v.c case 3 => v.d
    case 4 => v.e case 5 => v.f case 6 => v.g case 7 => v.h
  }

  function Output(v: Vars): (r: seq<Byte>)
    ensures |r| == 32
  {
    seq(32, i requires 0 <= i < 32 => OutputByte(v, i))
  }

  function OutputByte(v: Vars, i: nat): Byte
    requires i < 32
  {
    ByteOf(Word(v, i / 4), i % 4)
  }

  lemma OutputColumn(v: Vars, i: nat)
    requires i < 4
    ensures OutputByte(v, i) == ByteOf(v.a, i) && OutputByte(v, i + 4) == ByteOf(v.b, i)
    ensures OutputByte(v, i + 8) == ByteOf(v.c, i) && OutputByte(v, i + 12) == ByteOf(v.d, i)
    ensures OutputByte(v, i + 16) == ByteOf(v.e, i) && OutputByte(v, i + 20) == ByteOf(v.f, i)
    ensures OutputByte(v, i + 24) == ByteOf(v.g, i) && OutputByte(v, i + 28) == ByteOf(v.h, i)
  {
    hide ByteOf;
  }

  function Digest(m: seq<Byte>): (r: seq<Byte>)
    ensures |r| == 32
  {
    Output(HashBlocks(Pad(m)))
  }

  // ---- Where the constants come from -----------------------------------------------------

  // x / 2^32 is the cube root of p, rounded down.
  predicate CubeRoot(x: nat, p: nat) {
    x * x * x <= p * 0x1_0000_0000_0000_0000_0000_0000 < (x + 1) * (x + 1) * (x + 1)
  }

  predicate SquareRoot(x: nat, p: nat) {
    x * x <= p * 0x1_0000_0000_0000_0000 < (x + 1) * (x + 1)
  }

  // k is what follows the point in the cube root.
  ghost predicate CubeFraction(k: bv32, p: nat) { exists c: nat :: CubeRoot(Joined(c, k), p) }
  ghost predicate SquareFraction(h: bv32, p: nat) { exists c: nat :: SquareRoot(Joined(c, h), p) }

  function Joined(c: nat, k: bv32): nat { c * 0x1_0000_0000 + k as int }

  // The first 64 primes, eight to a row.
  function Primes(r: nat): (p: seq<nat>)
    ensures |p| == 8
  {
    match r
    case 0 => [2, 3, 5, 7, 11, 13, 17, 19]
    case 1 => [23, 29, 31, 37, 41, 43, 47, 53]
    case 2 => [59, 61, 67, 71, 73, 79, 83, 89]
    case 3 => [97, 101, 103, 107, 109, 113, 127, 131]
    case 4 => [137, 139, 149, 151, 157, 163, 167, 173]
    case 5 => [179, 181, 191, 193, 197, 199, 211, 223]
    case 6 => [227, 229, 233, 239, 241, 251, 257, 263]
    case _ => [269, 271, 277, 281, 283, 293, 307, 311]
  }

  ghost predicate RowOfRoots(r: nat) { forall j :: 0 <= j < 8 ==> CubeFraction(Row(r)[j], Primes(r)[j]) }

  lemma Row0()
    ensures RowOfRoots(0)
  {
    assert CubeRoot(Joined(1, 0x428a2f98), 2);
    assert CubeRoot(Joined(1, 0x71374491), 3);
    assert CubeRoot(Joined(1, 0xb5c0fbcf), 5);
    assert CubeRoot(Joined(1, 0xe9b5dba5), 7);
    assert CubeRoot(Joined(2, 0x3956c25b), 11);
    assert CubeRoot(Joined(2, 0x59f111f1), 13);
    assert CubeRoot(Joined(2, 0x923f82a4), 17);
    assert CubeRoot(Joined(2, 0xab1c5ed5), 19);
  }

  lemma Row1()
    ensures RowOfRoots(1)
  {
    assert CubeRoot(Joined(2, 0xd807aa98), 23);
    assert CubeRoot(Joined(3, 0x12835b01), 29);
    assert CubeRoot(Joined(3, 0x243185be), 31);
    assert CubeRoot(Joined(3, 0x550c7dc3), 37);
    assert CubeRoot(Joined(3, 0x72be5d74), 41);
    assert CubeRoot(Joined(3, 0x80deb1fe), 43);
    assert CubeRoot(Joined(3, 0x9bdc06a7), 47);
    assert CubeRoot(Joined(3, 0xc19bf174), 53);
  }

  lemma Row2()
    ensures RowOfRoots(2)
  {
    assert CubeRoot(Joined(3, 0xe49b69c1), 59);
    assert CubeRoot(Joined(3, 0xefbe4786), 61);
    assert CubeRoot(Joined(4, 0x0fc19dc6), 67);
    assert CubeRoot(Joined(4, 0x240ca1cc), 71);
    assert CubeRoot(Joined(4, 0x2de92c6f), 73);
    assert CubeRoot(Joined(4, 0x4a7484aa), 79);
    assert CubeRoot(Joined(4, 0x5cb0a9dc), 83);
    assert CubeRoot(Joined(4, 0x76f988da), 89);
  }

  lemma Row3()
    ensures RowOfRoots(3)
  {
    assert CubeRoot(Joined(4, 0x983e5152), 97);
    assert CubeRoot(Joined(4, 0xa831c66d), 101);
    assert CubeRoot(Joined(4, 0xb00327c8), 103);
    assert CubeRoot(Joined(4, 0xbf597fc7), 107);
    assert CubeRoot(Joined(4, 0xc6e00bf3), 109);
    assert CubeRoot(Joined(4, 0xd5a79147), 113);
    assert CubeRoot(Joined(5, 0x06ca6351), 127);
    assert CubeRoot(Joined(5, 0x14292967), 131);
  }

  lemma Row4()
    ensures RowOfRoots(4)
  {
    assert CubeRoot(Joined(5, 0x27b70a85), 137);
    assert CubeRoot(Joined(5, 0x2e1b2138), 139);
    assert CubeRoot(Joined(5, 0x4d2c6dfc), 149);
    assert CubeRoot(Joined(5, 0x53380d13), 151);
    assert CubeRoot(Joined(5, 0x650a7354), 157);
    assert CubeRoot(Joined(5, 0x766a0abb), 163);
    assert CubeRoot(Joined(5, 0x81c2c92e), 167);
    assert CubeRoot(Joined(5, 0x92722c85), 173);
  }

  lemma Row5()
    ensures RowOfRoots(5)
  {
    assert CubeRoot(Joined(5, 0xa2bfe8a1), 179);
    assert CubeRoot(Joined(5, 0xa81a664b), 181);
    assert CubeRoot(Joined(5, 0xc24b8b70), 191);
    assert CubeRoot(Joined(5, 0xc76c51a3), 193);
    assert CubeRoot(Joined(5, 0xd192e819), 197);
    assert CubeRoot(Joined(5, 0xd6990624), 199);
    assert CubeRoot(Joined(5, 0xf40e3585), 211);
    assert CubeRoot(Joined(6, 0x106aa070), 223);
  }

  lemma Row6()
    ensures RowOfRoots(6)
  {
    assert CubeRoot(Joined(6, 0x19a4c116), 227);
    assert CubeRoot(Joined(6, 0x1e376c08), 229);
    assert CubeRoot(Joined(6, 0x2748774c), 233);
    assert CubeRoot(Joined(6, 0x34b0bcb5), 239);
    assert CubeRoot(Joined(6, 0x391c0cb3), 241);
    assert CubeRoot(Joined(6, 0x4ed8aa4a), 251);
    assert CubeRoot(Joined(6, 0x5b9cca4f), 257);
    assert CubeRoot(Joined(6, 0x682e6ff3), 263);
  }

  lemma Row7()
    ensures RowOfRoots(7)
  {
    assert CubeRoot(Joined(6, 0x748f82ee), 269);
    assert CubeRoot(Joined(6, 0x78a5636f), 271);
    assert CubeRoot(Joined(6, 0x84c87814), 277);
    assert CubeRoot(Joined(6, 0x8cc70208), 281);
    assert CubeRoot(Joined(6, 0x90befffa), 283);
    assert CubeRoot(Joined(6, 0xa4506ceb), 293);
    assert CubeRoot(Joined(6, 0xbef9a3f7), 307);
    assert CubeRoot(Joined(6, 0xc67178f2), 311);
  }

  /** The round constants are the first 32 bits of the fractions of the cube roots of the first 64 primes. */
  lemma RoundConstants(t: nat)
    requires t < 64
    ensures CubeFraction(K()[t], Primes(t / 8)[t % 8])
  {
    hide CubeFraction, Row, Primes;
    match t / 8
    case 0 => Row0();
    case 1 => Row1();
    case 2 => Row2();
    case 3 => Row3();
    case 4 => Row4();
    case 5 => Row5();
    case 6 => Row6();
    case _ => Row7();
    assert RowOfRoots(t / 8);
  }

  /** The initial hash value: the same of the square roots of the first eight primes. */
  lemma InitialHash(i: nat)
    requires i < 8
    ensures SquareFraction(Word(H0(), i), Primes(0)[i])
  {
    assert SquareRoot(Joined(1, 0x6a09e667), 2);
    assert SquareRoot(Joined(1, 0xbb67ae85), 3);
    assert SquareRoot(Joined(2, 0x3c6ef372), 5);
    assert SquareRoot(Joined(2, 0xa54ff53a), 7);
    assert SquareRoot(Joined(3, 0x510e527f), 11);
    assert SquareRoot(Joined(3, 0x9b05688c), 13);
    assert SquareRoot(Joined(4, 0x1f83d9ab), 17);
    assert SquareRoot(Joined(4, 0x5be0cd19), 19);
  }

  // ---- Whole blocks and the rest ----------------------------------------------------

  function Whole(m: seq<Byte>): (n: nat)
    ensures n <= |m| < n + 64 && n % 64 == 0
  {
    |m| - |m| % 64
  }

  function WholeBlocks(m: seq<Byte>): (r: seq<Byte>)
    ensures |r| % 64 == 0
  {
    m[..Whole(m)]
  }

  function Rest(m: seq<Byte>): (r: seq<Byte>)
    ensures |r| < 64
  {
    m[Whole(m)..]
  }

  lemma HashBlocksSnoc(bytes: seq<Byte>, block: seq<Byte>)
    requires |bytes| % 64 == 0 && |block| == 64
    ensures |bytes + block| % 64 == 0
    ensures HashBlocks(bytes + block) == Compress(HashBlocks(bytes), block)
  {
    hide Compress;
    var all := bytes + block;
    assert all[..|all| - 64] == bytes && all[|all| - 64..] == block;
  }

  /**
   * Both padding branches: with fewer than 56 bytes left over the padding fits the last
   * block, otherwise it takes one block more.
   */
  function LastBlocks(h: Vars, rest: seq<Byte>, bits: nat): Vars
    requires |rest| < 64
  {
    if |rest| < 56 then Compress(h, rest + [0x80] + Zeros(55 - |rest|) + Length(bits))
    else Compress(Compress(h, rest + [0x80] + Zeros(63 - |rest|)), Zeros(56) + Length(bits))
  }

  lemma PadBlocks(m: seq<Byte>)
    ensures HashBlocks(Pad(m)) == LastBlocks(HashBlocks(WholeBlocks(m)), Rest(m), 8 * |m| % TWO64)
  {
    hide Compress, Length, HashBlocks;
    var whole, rest := WholeBlocks(m), Rest(m);
    var end := Length(8 * |m| % TWO64);
    assert m == whole + rest;
    if |rest| < 56 {
      var last := rest + [0x80] + Zeros(55 - |rest|) + end;
      assert ZeroCount(|m|) == 55 - |rest|;
      assert Pad(m) == whole + last;
      HashBlocksSnoc(whole, last);
    } else {
      var first, last := rest + [0x80] + Zeros(63 - |rest|), Zeros(56) + end;
      assert ZeroCount(|m|) == 63 - |rest| + 56;
      assert Zeros(ZeroCount(|m|)) == Zeros(63 - |rest|) + Zeros(56);
      assert Pad(m) == whole + first + last;
      HashBlocksSnoc(whole, first);
      HashBlocksSnoc(whole + first, last);
    }
  }
}

/** The streaming context of kernel/lib/sha256.c. */
module Sha256Stream {
  import opened Words
  import opened Sha256Spec

  class Context {
    const data: array<Byte>
    var datalen: nat
    var bitlen: nat               // 64 bits
    const state: array<bv32>
    ghost var message: seq<Byte>  // everything hashed so far

    ghost predicate Valid()
      reads this, data, state
    {
      && data.Length == 64 && state.Length == 8 && datalen < 64 && bitlen < TWO64
      && State() == HashBlocks(WholeBlocks(message))
      && data[..datalen] == Rest(message)
      && bitlen == 8 * Whole(message) % TWO64
    }

    function State(): Vars
      requires state.Length == 8
      reads state
    {
      Vars(state[0], state[1], state[2], state[3], state[4], state[5], state[6], state[7])
    }

    constructor ()
      ensures data.Length == 64 && state.Length == 8 && fresh(data) && fresh(state)
    {
      data := new Byte[64];
      state := new bv32[8];
      datalen, bitlen, message := 0, 0, [];
    }

    // sha256_init
    method Init()
      requires data.Length == 64 && state.Length == 8
      modifies this, state
      ensures Valid() && message == []
    {
      hide HashBlocks, WholeBlocks, Rest, Whole, H0;
      datalen, bitlen, message := 0, 0, [];
      SetState(H0());
      EmptyMessage();
      assert data[..0] == [];
    }

    method SetState(h: Vars)
      requires state.Length == 8
      modifies state
      ensures State() == h
    {
      state[0], state[1], state[2], state[3] := h.a, h.b, h.c, h.d;
      state[4], state[5], state[6], state[7] := h.e, h.f, h.g, h.h;
    }

    // m[0..16] from the block's bytes.
    method LoadWords(m: array<bv32>, ghost block: seq<Byte>)
      requires data.Length == 64 && m.Length == 64 && block == data[..]
      modifies m
      ensures forall t :: 0 <= t < 16 ==> m[t] == Schedule(block, t)
    {
      hide BigEndian, Sig0, Sig1;
      var i := 0;
      while i < 16
        invariant 0 <= i <= 16
        invariant forall t :: 0 <= t < i ==> m[t] == Schedule(block, t)
      {
        ghost var four := [data[4 * i], data[4 * i + 1], data[4 * i + 2], data[4 * i + 3]];
        assert block[4 * i..4 * i + 4] == four;
        assert Schedule(block, i) == BigEndian(four);
        m[i] := BigEndian([data[4 * i], data[4 * i + 1], data[4 * i + 2], data[4 * i + 3]]);
        i := i + 1;
      }
    }

    method ExpandWords(m: array<bv32>, ghost block: seq<Byte>)
      requires m.Length == 64 && |block| == 64
      requires forall t :: 0 <= t < 16 ==> m[t] == Schedule(block, t)
      modifies m
      ensures forall t :: 0 <= t < 64 ==> m[t] == Schedule(block, t)
    {
      hide Schedule, Expanded;
      var i := 16;
      while i < 64
        invariant 16 <= i <= 64
        invariant forall t :: 0 <= t < i ==> m[t] == Schedule(block, t)
      {
        ScheduleStep(block, i);
        m[i] := Expanded(m[i - 2], m[i - 7], m[i - 15], m[i - 16]);
        i := i + 1;
      }
    }

    method RunRounds(m: array<bv32>, ghost block: seq<Byte>) returns (v: Vars)
      requires state.Length == 8 && m.Length == 64 && |block| == 64
      requires forall t :: 0 <= t < 64 ==> m[t] == Schedule(block, t)
      ensures v == Rounds(State(), block, 64)
    {
      hide Schedule, T1, Add, Ep0, Maj, K;
      var a, b, c, d := state[0], state[1], state[2], state[3];
      var e, f, g, h := state[4], state[5], state[6], state[7];
      var i := 0;
      while i < 64
        invariant 0 <= i <= 64
        invariant Vars(a, b, c, d, e, f, g, h) == Rounds(State(), block, i)
      {
        var t1 := T1(h, e, f, g, K()[i], m[i]);
        var t2 := Add(Ep0(a), Maj(a, b, c));
        h := g;
        g := f;
        f := e;
        e := Add(d, t1);
        d := c;
        c := b;
        b := a;
        a := Add(t1, t2);
        i := i + 1;
      }
      return Vars(a, b, c, d, e, f, g, h);
    }

    method Transform()
      requires data.Length == 64 && state.Length == 8
      modifies state
      ensures State() == Compress(old(State()), data[..])
    {
      hide Schedule, Rounds, Add;
      var m := new bv32[64];
      LoadWords(m, data[..]);
      ExpandWords(m, data[..]);
      var v := RunRounds(m, data[..]);
      state[0] := Add(state[0], v.a);
      state[1] := Add(state[1], v.b);
      state[2] := Add(state[2], v.c);
      state[3] := Add(state[3], v.d);
      state[4] := Add(state[4], v.e);
      state[5] := Add(state[5], v.f);
      state[6] := Add(state[6], v.g);
      state[7] := Add(state[7], v.h);
    }

    // One turn of sha256_update's loop.
    method UpdateByte(x: Byte)
      requires Valid()
      modifies this`datalen, this`bitlen, this`message, data, state
      ensures Valid() && message == old(message) + [x]
    {
      hide Compress, HashBlocks, Whole, WholeBlocks, Rest;
      ghost var before := message;
      message := message + [x];
      OneMore(before, x);
      data[datalen] := x;
      datalen := datalen + 1;
      assert data[..datalen] == old(data[..datalen]) + [x];
      if datalen == 64 {
        assert data[..] == data[..datalen];
        HashBlocksSnoc(WholeBlocks(before), data[..]);
        Transform();
        BlockLength(Whole(before));
        bitlen := (bitlen + 512) % TWO64;
        datalen := 0;
      }
    }

    method Update(bytes: seq<Byte>)
      requires Valid()
      modifies this`datalen, this`bitlen, this`message, data, state
      ensures Valid() && message == old(message) + bytes
    {
      hide Valid;
      var i := 0;
      while i < |bytes|
        invariant 0 <= i <= |bytes|
        invariant Valid() && message == old(message) + bytes[..i]
      {
        UpdateByte(bytes[i]);
        assert bytes[..i + 1] == bytes[..i] + [bytes[i]];
        i := i + 1;
      }
      assert bytes[..i] == bytes;
    }

    // data[from..to] := 0
    method Clear(lo: nat, hi: nat)
      requires lo <= hi <= data.Length
      modifies data
      ensures data[..] == old(data[..lo]) + Zeros(hi - lo) + old(data[hi..])
    {
      var i := lo;
      while i < hi
        invariant lo <= i <= hi
        invariant forall j :: 0 <= j < data.Length ==> data[j] == if lo <= j < i then 0 else old(data[j])
      {
        data[i] := 0;
        i := i + 1;
      }
    }

    method StoreLength()
      requires data.Length == 64
      modifies data
      ensures data[..] == old(data[..56]) + Length(bitlen)
    {
      hide LowByte;
      ghost var was := data[..];
      Put(data, 63, LowByte(bitlen, 0));
      Put(data, 62, LowByte(bitlen, 1));
      Put(data, 61, LowByte(bitlen, 2));
      Put(data, 60, LowByte(bitlen, 3));
      Put(data, 59, LowByte(bitlen, 4));
      Put(data, 58, LowByte(bitlen, 5));
      Put(data, 57, LowByte(bitlen, 6));
      Put(data, 56, LowByte(bitlen, 7));
      LengthStored(was, bitlen);
    }

    // The eight assignments of sha256_final's last loop.
    method StoreColumn(hash: array<Byte>, i: nat)
      requires state.Length == 8 && hash.Length == 32 && i < 4
      modifies hash
      ensures hash[..] == Column(old(hash[..]), State(), i)
    {
      hide ByteOf;
      Put(hash, i, ByteOf(state[0], i));
      Put(hash, i + 4, ByteOf(state[1], i));
      Put(hash, i + 8, ByteOf(state[2], i));
      Put(hash, i + 12, ByteOf(state[3], i));
      Put(hash, i + 16, ByteOf(state[4], i));
      Put(hash, i + 20, ByteOf(state[5], i));
      Put(hash, i + 24, ByteOf(state[6], i));
      Put(hash, i + 28, ByteOf(state[7], i));
    }

    method StoreHash(hash: array<Byte>)
      requires state.Length == 8 && hash.Length == 32 && hash != data
      modifies hash
      ensures hash[..] == Output(State())
    {
      hide OutputByte, Column;
      ghost var v := State();
      var i := 0;
      while i < 4
        invariant 0 <= i <= 4 && State() == v
        invariant forall k :: 0 <= k < 32 && k % 4 < i ==> hash[..][k] == OutputByte(v, k)
      {
        forall k | 0 <= k < 32
          ensures Column(hash[..], v, i)[k] == if k % 4 == i then OutputByte(v, k) else hash[..][k]
        {
          ColumnAt(hash[..], v, i, k);
        }
        StoreColumn(hash, i);
        i := i + 1;
      }
      assert hash[..] == Output(v);
    }

    // The one bit and the zeros; with 56 bytes or more buffered, a block goes out first.
    method PadBuffer()
      requires Valid()
      modifies data, state
      ensures |Rest(message)| == datalen && bitlen == old(bitlen)
      ensures datalen < 56 ==>
        State() == HashBlocks(WholeBlocks(message)) && data[..56] == Rest(message) + [0x80] + Zeros(55 - datalen)
      ensures datalen >= 56 ==>
        State() == Compress(HashBlocks(WholeBlocks(message)), Rest(message) + [0x80] + Zeros(63 - datalen))
        && data[..56] == Zeros(56)
    {
      hide Compress, HashBlocks, Whole, WholeBlocks, Rest;
      ghost var rest := Rest(message);
      var i := datalen;
      data[i] := 0x80;
      assert data[..i] == rest;
      assert data[..i + 1] == rest + [0x80];
      if datalen < 56 {
        Clear(i + 1, 56);
        assert data[..56] == rest + [0x80] + Zeros(55 - i);
      } else {
        Clear(i + 1, 64);
        assert data[..] == rest + [0x80] + Zeros(63 - i);
        Transform();
        Clear(0, 56);
        assert data[..56] == Zeros(56);
      }
    }

    /** sha256_final: the digest of everything that was passed to Update. */
    method Final(hash: array<Byte>)
      requires Valid() && hash.Length == 32 && hash != data
      modifies this`bitlen, data, state, hash
      ensures hash[..] == Digest(old(message))
    {
      hide Compress, HashBlocks, Length, Output, Whole, WholeBlocks, Rest, Pad;
      PadBlocks(message);
      BitLength(message, datalen);
      PadBuffer();
      bitlen := (bitlen + datalen * 8) % TWO64;
      StoreLength();
      Transform();
      StoreHash(hash);
    }
  }

  method Put(a: array<Byte>, k: nat, x: Byte)
    requires k < a.Length
    modifies a
    ensures a[..] == old(a[..])[k := x]
  {
    a[k] := x;
  }

  lemma LengthStored(s: seq<Byte>, bits: nat)
    requires |s| == 64
    ensures s[63 := LowByte(bits, 0)][62 := LowByte(bits, 1)][61 := LowByte(bits, 2)][60 := LowByte(bits, 3)]
             [59 := LowByte(bits, 4)][58 := LowByte(bits, 5)][57 := LowByte(bits, 6)][56 := LowByte(bits, 7)]
         == s[..56] + Length(bits)
  {
    hide LowByte;
  }

  function Column(s: seq<Byte>, v: Vars, i: nat): (r: seq<Byte>)
    requires |s| == 32 && i < 4
    ensures |r| == 32
  {
    s[i := ByteOf(v.a, i)][i + 4 := ByteOf(v.b, i)][i + 8 := ByteOf(v.c, i)][i + 12 := ByteOf(v.d, i)]
     [i + 16 := ByteOf(v.e, i)][i + 20 := ByteOf(v.f, i)][i + 24 := ByteOf(v.g, i)][i + 28 := ByteOf(v.h, i)]
  }

  lemma ColumnAt(s: seq<Byte>, v: Vars, i: nat, k: nat)
    requires |s| == 32 && i < 4 && k < 32
    ensures Column(s, v, i)[k] == if k % 4 == i then OutputByte(v, k) else s[k]
  {
    hide ByteOf, OutputByte;
    OutputColumn(v, i);
    InColumn(i, k);
  }

  lemma InColumn(i: nat, k: nat)
    requires i < 4 && k < 32
    ensures k % 4 == i <==> (k == i || k == i + 4 || k == i + 8 || k == i + 12 || k == i + 16 || k == i + 20 || k == i + 24 || k == i + 28)
  {
  }

  lemma EmptyMessage()
    ensures Whole([]) == 0 && HashBlocks(WholeBlocks([])) == H0() && Rest([]) == []
  {
    hide Compress;
    assert WholeBlocks([]) == [];
  }

  lemma ScheduleStep(block: seq<Byte>, t: nat)
    requires |block| == 64 && 16 <= t < 64
    ensures Schedule(block, t)
         == Expanded(Schedule(block, t - 2), Schedule(block, t - 7), Schedule(block, t - 15), Schedule(block, t - 16))
  {
    hide Expanded, BigEndian;
  }

  lemma OneMore(m: seq<Byte>, x: Byte)
    ensures var n := m + [x];
      if |Rest(m)| == 63
      then Whole(n) == Whole(m) + 64 && WholeBlocks(n) == WholeBlocks(m) + (Rest(m) + [x]) && Rest(n) == []
      else Whole(n) == Whole(m) && WholeBlocks(n) == WholeBlocks(m) && Rest(n) == Rest(m) + [x]
  {
    var n := m + [x];
    if |Rest(m)| == 63 {
      assert Whole(n) == Whole(m) + 64;
    } else {
      assert Whole(n) == Whole(m);
    }
  }

  lemma BlockLength(whole: nat)
    ensures (8 * whole % TWO64 + 512) % TWO64 == 8 * (whole + 64) % TWO64
  {
  }

  lemma BitLength(m: seq<Byte>, rest: nat)
    requires rest == |Rest(m)|
    ensures (8 * Whole(m) % TWO64 + rest * 8) % TWO64 == 8 * |m| % TWO64
  {
  }

  function Concat(chunks: seq<seq<Byte>>): seq<Byte> {
    if chunks == [] then [] else Concat(chunks[..|chunks| - 1]) + chunks[|chunks| - 1]
  }

  /** However a message is cut into updates, the result is the digest of the whole. */
  method HashChunks(chunks: seq<seq<Byte>>) returns (digest: seq<Byte>)
    ensures digest == Digest(Concat(chunks))
  {
    hide Digest, Context.Valid;
    var ctx := new Context();
    ctx.Init();
    var i := 0;
    assert chunks[..0] == [];
    while i < |chunks|
      invariant 0 <= i <= |chunks| && fresh(ctx) && fresh(ctx.data) && fresh(ctx.state)
      invariant ctx.Valid() && ctx.message == Concat(chunks[..i])
    {
      ctx.Update(chunks[i]);
      assert chunks[..i + 1][..i] == chunks[..i];
      i := i + 1;
    }
    assert chunks[..i] == chunks;
    var hash := new Byte[32];
    ctx.Final(hash);
    return hash[..];
  }
}
