/**
 The source language of the wasm3 compiler, restricted to straight-line i32 bodies, with
 the stack semantics of the WebAssembly Core Specification 1.0 (sections 4.4.1 to 4.4.3).
 This is the reference the compiler is compared with; it knows nothing of slots.
 */
module WasmSemantics {
  import opened Words
  import opened Basics
  import opened M3Machine

  datatype Op =
    | Const(value: Word)
    | LocalGet(index: nat)
    | LocalSet(index: nat)
    | LocalTee(index: nat)
    | Unary(uop: UnOp)
    | Binary(bop: BinOp)
    | Select
    | Drop
    | Nop

  /** `Stuck` is an operand stack underflow or an unknown local: an invalid body. */
  datatype Config = Config(locals: seq<Word>, stack: seq<Word>) | Trap | Stuck

  function Eval(alu: Alu, op: Op, c: Config): Config {
    if !c.Config? then c
    else
      var Config(locals, s) := c;
      var n := |s|;
      match op
      case Const(v) => Config(locals, s + [v])
      case LocalGet(i) => if i < |locals| then Config(locals, s + [locals[i]]) else Stuck
      case LocalSet(i) =>
        if i < |locals| && n >= 1 then Config(locals[i := s[n - 1]], s[..n - 1]) else Stuck
      case LocalTee(i) =>
        if i < |locals| && n >= 1 then Config(locals[i := s[n - 1]], s) else Stuck
      case Unary(u) =>
        if n >= 1 then Config(locals, s[..n - 1] + [alu.unary(u, s[n - 1])]) else Stuck
      case Binary(b) =>
        if n < 2 then Stuck
        else
          (match alu.binary(b, s[n - 2], s[n - 1])
           case None => Trap
           case Some(v) => Config(locals, s[..n - 2] + [v]))
      case Select =>
        if n < 3 then Stuck
        else Config(locals, s[..n - 3] + [if s[n - 1] != 0 then s[n - 3] else s[n - 2]])
      case Drop => if n >= 1 then Config(locals, s[..n - 1]) else Stuck
      case Nop => c
  }

  function Run(alu: Alu, body: seq<Op>, c: Config): Config {
    if body == [] then c
    else Eval(alu, body[|body| - 1], Run(alu, body[..|body| - 1], c))
  }

  /** Operand stack height after a body, from the opcodes alone. */
  function Height(body: seq<Op>): int {
    if body == [] then 0
    else Height(body[..|body| - 1]) + Effect(body[|body| - 1])
  }

  function Effect(op: Op): int {
    match op
    case Const(_) => 1
    case LocalGet(_) => 1
    case LocalSet(_) => -1
    case LocalTee(_) => 0
    case Unary(_) => 0
    case Binary(_) => -1
    case Select => -2
    case Drop => -1
    case Nop => 0
  }

  /** Every `local.tee` finds an operand to copy: a check on the opcodes alone. */
  predicate TeesFed(body: seq<Op>) {
    forall k :: 0 <= k < |body| && body[k].LocalTee? ==> Height(body[..k]) >= 1
  }
}
