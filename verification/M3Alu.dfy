/**
 The arithmetic of the i32 operators as m3_exec.h and m3_math_utils.h compute it, and the fact
 the compiler leans on: the operators without an `_sr` form really commute.
 */
module M3Alu {
  import opened Words
  import opened Basics
  import opened M3Machine
  import M3Compile
  import M3Correct
  import WasmSemantics
  import WordBits

  /** The (i32) reading of a word. */
  function Signed(w: Word): int {
    if w < 0x8000_0000 then w else w - TWO32
  }

  function Flag(b: bool): Word { if b then 1 else 0 }

  /** C division: truncation toward zero. */
  function TruncDiv(a: int, b: int): int
    requires b != 0
  {
    var q := Abs(a) / Abs(b);
    if (a < 0) != (b < 0) then -q else q
  }

  /** C remainder: takes the sign of the dividend. */
  function TruncRem(a: int, b: int): int
    requires b != 0
  {
    var r := Abs(a) % Abs(b);
    if a < 0 then -r else r
  }

  function Abs(a: int): nat { if a < 0 then -a else a }

  /** Number of zero bits above the top set bit of the low `n` bits. */
  function LeadingZeros(w: nat, n: nat): nat {
    if n == 0 then 0
    else if w / WordBits.Pow2(n - 1) % 2 == 1 then 0
    else 1 + LeadingZeros(w, n - 1)
  }

  function TrailingZeros(w: nat, n: nat): nat {
    if n == 0 then 0 else if w % 2 == 1 then 0 else 1 + TrailingZeros(w / 2, n - 1)
  }

  function OneBits(w: nat, n: nat): nat {
    if n == 0 then 0 else w % 2 + OneBits(w / 2, n - 1)
  }

  function SignExtend(w: Word, bits: nat): Word {
    var low := w % WordBits.Pow2(bits);
    Wrap(if 2 * low < WordBits.Pow2(bits) then low else low - WordBits.Pow2(bits))
  }

  function Unary(op: UnOp, a: Word): Word {
    match op
    case Eqz => Flag(a == 0)
    case Clz => Wrap(LeadingZeros(a, 32))
    case Ctz => Wrap(TrailingZeros(a, 32))
    case Popcnt => Wrap(OneBits(a, 32))
    case Extend8S => SignExtend(a, 8)
    case Extend16S => SignExtend(a, 16)
  }

  function Binary(op: BinOp, a: Word, b: Word): Option<Word> {
    match op
    case Eq => Some(Flag(a == b))
    case Ne => Some(Flag(a != b))
    case LtS => Some(Flag(Signed(a) < Signed(b)))
    case LtU => Some(Flag(a < b))
    case GtS => Some(Flag(Signed(a) > Signed(b)))
    case GtU => Some(Flag(a > b))
    case LeS => Some(Flag(Signed(a) <= Signed(b)))
    case LeU => Some(Flag(a <= b))
    case GeS => Some(Flag(Signed(a) >= Signed(b)))
    case GeU => Some(Flag(a >= b))
    case Add => Some(Wrap(a + b))
    case Sub => Some(Wrap(a - b))
    case Mul => Some(Wrap(a * b))
    case DivS =>
      if b == 0 || (Signed(a) == -0x8000_0000 && Signed(b) == -1) then None
      else Some(Wrap(TruncDiv(Signed(a), Signed(b))))
    case DivU => if b == 0 then None else Some(Wrap(a / b))
    case RemS => if b == 0 then None else Some(Wrap(TruncRem(Signed(a), Signed(b))))
    case RemU => if b == 0 then None else Some(Wrap(a % b))
    case And => Some(Wrap(WordBits.And(a, b)))
    case Or => Some(Wrap(WordBits.Or(a, b)))
    case Xor => Some(Wrap(WordBits.Xor(a, b)))
    case Shl => Some(Wrap(a * WordBits.Pow2(b % 32)))
    case ShrS => Some(Wrap(Signed(a) / WordBits.Pow2(b % 32)))
    case ShrU => Some(Wrap(a / WordBits.Pow2(b % 32)))
    case Rotl => Some(Wrap(a * WordBits.Pow2(b % 32) + a / WordBits.Pow2(32 - b % 32)))
    case Rotr => Some(Wrap(a / WordBits.Pow2(b % 32) + a * WordBits.Pow2(32 - b % 32)))
  }

  const I32 := Alu(Unary, Binary)

  lemma MulCommutes(a: int, b: int)
    ensures a * b == b * a
  {
  }

  lemma {:induction false} BitwiseCommute(a: nat, b: nat)
    ensures WordBits.And(a, b) == WordBits.And(b, a)
    ensures WordBits.Or(a, b) == WordBits.Or(b, a)
    ensures WordBits.Xor(a, b) == WordBits.Xor(b, a)
    decreases a + b
  {
    if a > 0 && b > 0 { BitwiseCommute(a / 2, b / 2); }
  }

  lemma BinaryCommutes(op: BinOp, a: Word, b: Word)
    requires Commutative(op)
    ensures Binary(op, a, b) == Binary(op, b, a)
  {
    if op == Mul {
      MulCommutes(a, b);
    } else if op in {And, Or, Xor} {
      BitwiseCommute(a, b);
    }
  }

  lemma I32Commutes()
    ensures Commutes(I32)
  {
    forall op, a, b | Commutative(op) ensures I32.binary(op, a, b) == I32.binary(op, b, a) {
      hide Binary;
      BinaryCommutes(op, a, b);
    }
  }

  /** The compiler theorem on the operators wasm3 really has. */
  lemma CompiledI32(sig: M3Compile.Signature, reserved: nat, body: seq<WasmSemantics.Op>, frame: seq<Word>)
    requires reserved <= M3Compile.MAX_CONSTANTS
    requires M3Compile.CompileFunction(sig, reserved, body).Ok?
    requires M3Compile.CompileFunction(sig, reserved, body).value.maxStackSlots < |frame|
    requires WasmSemantics.TeesFed(body)
    ensures M3Compile.FirstLocal(sig) <= |frame|
    ensures var fn := M3Compile.CompileFunction(sig, reserved, body).value;
            && fn.numRetAndArgSlots + fn.numLocals + |fn.constants| <= fn.maxStackSlots
            && match WasmSemantics.Run(I32, body, WasmSemantics.Config(M3Correct.InitialLocals(sig, frame), []))
               case Stuck => false
               case Trap => M3Compile.Call(I32, fn, frame) == Trapped
               case Config(_, results) =>
                 && M3Compile.Call(I32, fn, frame).Returned?
                 && M3Correct.ResultsHold(M3Compile.Call(I32, fn, frame).slots, results, 0)
  {
    I32Commutes();
    M3Correct.CompilerPreservesMeaning(I32, sig, reserved, body, frame);
  }
}
