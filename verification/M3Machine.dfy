/**
 The target of the wasm3 compiler: threaded code over a frame of 32-bit slots and one
 64-bit integer register `_r0` (kernel/lib/wasm3/m3_exec.h).

 The arithmetic unit is a parameter of the machine, so that nothing proved about the
 compiler can depend on what an operator computes; `M3Alu` gives the real one.
 */
module M3Machine {
  import opened Words
  import opened Basics

  /** The 64-bit contents of `_r0`, as its two halves. */
  datatype Reg = Reg(high: Word, low: Word)

  datatype UnOp = Eqz | Clz | Ctz | Popcnt | Extend8S | Extend16S

  datatype BinOp =
    | Eq | Ne | LtS | LtU | GtS | GtU | LeS | LeU | GeS | GeU
    | Add | Sub | Mul | DivS | DivU | RemS | RemU
    | And | Or | Xor | Shl | ShrS | ShrU | Rotl | Rotr

  /** The operator table has no `_sr` entry for these (d_commutativeBinOpList). */
  predicate Commutative(op: BinOp) {
    op in {Eq, Ne, Add, Mul, And, Or, Xor}
  }

  /** Operators whose C operand type is u32: their result is zero-extended into `_r0`. */
  predicate UnsignedBin(op: BinOp) {
    op in {LtU, GtU, LeU, GeU, DivU, RemU, And, Or, Xor, Shl, ShrU, Rotl, Rotr}
  }

  predicate UnsignedUn(op: UnOp) {
    op in {Clz, Ctz, Popcnt}
  }

  /** An arithmetic unit; a binary operator that traps yields None. */
  datatype Alu = Alu(unary: (UnOp, Word) -> Word, binary: (BinOp, Word, Word) -> Option<Word>)

  ghost predicate Commutes(alu: Alu) {
    forall op, a, b :: Commutative(op) ==> alu.binary(op, a, b) == alu.binary(op, b, a)
  }

  /** The cast (i32) or (u32) of `_r0`. */
  function Low(r: Reg): Word {
    r.low
  }

  /** What C assignment of a 32-bit value leaves in the 64-bit register: sign- or zero-extended. */
  function Widen(unsigned: bool, w: Word): Reg {
    Reg(if unsigned || w < 0x8000_0000 then 0 else 0xFFFF_FFFF, w)
  }

  /** Instructions, with their slot immediates in the order they are emitted. */
  datatype Instr =
    | SetSlot(dst: nat)
    | PreserveSetSlot(dst: nat, preserve: nat)
    | CopySlot(dst: nat, src: nat)
    | PreserveCopySlot(dst: nat, src: nat, preserve: nat)
    | Const32(value: Word, dst: nat)
    | UnaryR(uop: UnOp)
    | UnaryS(uop: UnOp, src: nat)
    | BinaryRS(op: BinOp, src: nat)
    | BinarySR(op: BinOp, src: nat)
    | BinarySS(op: BinOp, top: nat, next: nat)
    | SelectRSS(second: nat, first: nat)
    | SelectSRS(cond: nat, first: nat)
    | SelectSSR(cond: nat, second: nat)
    | SelectSSS(cond: nat, second: nat, first: nat)
    | Return

  /** `Fault` is an access outside the frame; the C machine would touch foreign memory. */
  datatype State =
    | Running(slots: seq<Word>, r0: Reg)
    | Returned(slots: seq<Word>)
    | Trapped
    | Fault

  /** Every slot the instruction reads or writes lies in a frame of `n` slots. */
  predicate InFrame(i: Instr, n: nat) {
    match i
    case SetSlot(d) => d < n
    case PreserveSetSlot(d, p) => d < n && p < n
    case CopySlot(d, s) => d < n && s < n
    case PreserveCopySlot(d, s, p) => d < n && s < n && p < n
    case Const32(_, d) => d < n
    case UnaryR(_) => true
    case UnaryS(_, s) => s < n
    case BinaryRS(_, s) => s < n
    case BinarySR(_, s) => s < n
    case BinarySS(_, t, s) => t < n && s < n
    case SelectRSS(s2, s1) => s2 < n && s1 < n
    case SelectSRS(c, s1) => c < n && s1 < n
    case SelectSSR(c, s2) => c < n && s2 < n
    case SelectSSS(c, s2, s1) => c < n && s2 < n && s1 < n
    case Return => true
  }

  function Compute(alu: Alu, slots: seq<Word>, op: BinOp, a: Word, b: Word): State {
    match alu.binary(op, a, b)
    case None => Trapped
    case Some(v) => Running(slots, Widen(UnsignedBin(op), v))
  }

  function Choose(slots: seq<Word>, cond: Word, first: Word, second: Word): State {
    Running(slots, Widen(false, if cond != 0 then first else second))
  }

  function Step(alu: Alu, i: Instr, m: State): State {
    if !m.Running? then m
    else if !InFrame(i, |m.slots|) then Fault
    else
      var Running(s, r) := m;
      match i
      case SetSlot(d) => Running(s[d := Low(r)], r)
      case PreserveSetSlot(d, p) => Running(s[p := s[d]][d := Low(r)], r)
      case CopySlot(d, src) => Running(s[d := s[src]], r)
      case PreserveCopySlot(d, src, p) =>
        var kept := s[p := s[d]];
        Running(kept[d := kept[src]], r)
      case Const32(v, d) => Running(s[d := v], r)
      case UnaryR(op) => Running(s, Widen(UnsignedUn(op), alu.unary(op, Low(r))))
      case UnaryS(op, src) => Running(s, Widen(UnsignedUn(op), alu.unary(op, s[src])))
      case BinaryRS(op, src) => Compute(alu, s, op, s[src], Low(r))
      case BinarySR(op, src) => Compute(alu, s, op, Low(r), s[src])
      case BinarySS(op, top, next) => Compute(alu, s, op, s[next], s[top])
      case SelectRSS(s2, s1) => Choose(s, Low(r), s[s1], s[s2])
      case SelectSRS(c, s1) => Choose(s, s[c], s[s1], Low(r))
      case SelectSSR(c, s2) => Choose(s, s[c], Low(r), s[s2])
      case SelectSSS(c, s2, s1) => Choose(s, s[c], s[s1], s[s2])
      case Return => Returned(s)
  }

  /** Run straight-line code, oldest instruction first. */
  function Exec(alu: Alu, code: seq<Instr>, m: State): State {
    if code == [] then m
    else Step(alu, code[|code| - 1], Exec(alu, code[..|code| - 1], m))
  }

  lemma ExecSnoc(alu: Alu, code: seq<Instr>, i: Instr, m: State)
    ensures Exec(alu, code + [i], m) == Step(alu, i, Exec(alu, code, m))
  {
    assert (code + [i])[..|code|] == code;
  }

  lemma {:induction false} ExecAppend(alu: Alu, code: seq<Instr>, more: seq<Instr>, m: State)
    ensures Exec(alu, code + more, m) == Exec(alu, more, Exec(alu, code, m))
  {
    if more == [] {
      assert code + more == code;
    } else {
      var init := more[..|more| - 1];
      assert code + more == (code + init) + [more[|more| - 1]];
      ExecSnoc(alu, code + init, more[|more| - 1], m);
      ExecAppend(alu, code, init, m);
    }
  }

  /** Once the machine has stopped, further code changes nothing. */
  lemma {:induction false} ExecStopped(alu: Alu, code: seq<Instr>, more: seq<Instr>, m: State)
    requires !Exec(alu, code, m).Running?
    ensures Exec(alu, code + more, m) == Exec(alu, code, m)
  {
    if more == [] {
      assert code + more == code;
    } else {
      var init := more[..|more| - 1];
      assert code + more == (code + init) + [more[|more| - 1]];
      ExecSnoc(alu, code + init, more[|more| - 1], m);
      ExecStopped(alu, code, init, m);
    }
  }
}
