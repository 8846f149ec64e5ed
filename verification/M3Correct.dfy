/**
 The compiler preserves meaning: running the code emitted for a straight-line i32 body
 leaves in the return slots the results of the Wasm stack semantics, and never touches a
 slot outside the frame op_Entry checked for.
 */
module M3Correct {
  import opened Words
  import opened Basics
  import opened M3Machine
  import opened WasmSemantics
  import opened M3Compile

  // ----- the simulation relation -----

  /** What a stack record stands for at run time. */
  function Value(m: State, record: nat): Word
    requires m.Running? && (record >= REG || record < |m.slots|)
  {
    if record >= REG then Low(m.r0) else m.slots[record]
  }

  ghost predicate Loaded(c: Comp, start: seq<Word>)
    requires Valid(c) && c.maxStackSlots <= |start|
  {
    forall k :: 0 <= k < c.maxConst - c.layout.firstConst ==> start[c.layout.firstConst + k] == c.constants[k]
  }

  ghost predicate LocalsHold(c: Comp, m: State, locals: seq<Word>)
    requires Valid(c) && m.Running? && c.maxStackSlots <= |m.slots|
  {
    && |locals| == |c.layout.locals|
    && forall i :: 0 <= i < |locals| ==> m.slots[c.layout.locals[i]] == locals[i]
  }

  ghost predicate OperandsHold(c: Comp, m: State, stack: seq<Word>)
    requires Valid(c) && m.Running? && c.maxStackSlots <= |m.slots|
  {
    && |stack| == |c.stack|
    && forall i :: 0 <= i < |stack| ==> Value(m, c.stack[i]) == stack[i]
  }

  /** Code never writes the constants, nor anything above the slots it has claimed. */
  ghost predicate FrameKept(c: Comp, m: State, start: seq<Word>)
    requires Valid(c) && m.Running? && c.maxStackSlots <= |m.slots| == |start|
  {
    && (forall s :: c.layout.firstConst <= s < c.layout.firstDynamic ==> m.slots[s] == start[s])
    && (forall s :: c.maxStackSlots <= s < |start| ==> m.slots[s] == start[s])
  }

  /** The compilation record, the machine and the Wasm configuration describe one state.
      `start` is the frame as op_Entry left it. */
  ghost predicate Sim(c: Comp, m: State, w: Config, start: seq<Word>) {
    && Valid(c) && m.Running? && w.Config?
    && c.maxStackSlots <= |m.slots| == |start|
    && Loaded(c, start)
    && LocalsHold(c, m, w.locals)
    && OperandsHold(c, m, w.stack)
    && FrameKept(c, m, start)
  }

  // ----- micro-steps -----

  lemma SimPush(c: Comp, slot: nat, m: State, w: Config, start: seq<Word>)
    requires Sim(c, m, w, start)
    requires if slot >= REG then slot == REG && c.register == 0
             else IO_SLOTS * c.layout.results <= slot < c.maxConst
    requires Push(c, slot).Ok?
    ensures Sim(Push(c, slot).value, m, w.(stack := w.stack + [Value(m, slot)]), start)
  {
  }

  lemma SimConsume(c: Comp, n: nat, m: State, w: Config, start: seq<Word>)
    requires Sim(c, m, w, start) && n <= |c.stack|
    ensures Sim(Consume(c, n), m, w.(stack := w.stack[..|w.stack| - n]), start)
  {
  }

  /** With the register free, an instruction may overwrite it. */
  lemma SimSetRegister(c: Comp, i: Instr, m: State, r: Reg, w: Config, start: seq<Word>)
    requires Sim(c, m, w, start) && c.register == 0
    ensures Sim(Emit(c, i), Running(m.slots, r), w, start)
  {
  }

  /** The register's value moves to the fresh slot `s`. */
  lemma SimSpill(c: Comp, d: Comp, s: nat, m: State, w: Config, start: seq<Word>)
    requires Sim(c, m, w, start) && Valid(d) && c.register != 0
    requires c.layout.firstDynamic <= s < d.maxStackSlots <= |start| && s !in c.stack
    requires c.maxStackSlots <= d.maxStackSlots && s < MAX_SLOTS
    requires d == c.(stack := c.stack[c.register - 1 := s], slots := d.slots, register := 0,
                     maxStackSlots := d.maxStackSlots, code := d.code)
    ensures Sim(d, Running(m.slots[s := Low(m.r0)], m.r0), w, start)
  {
    hide Counted, ConstantsDense;
  }

  lemma SimPreserve(alu: Alu, c: Comp, m0: State, w: Config, start: seq<Word>)
    requires Valid(c) && PreserveRegister(c).Ok?
    requires PreserveRegister(c).value.maxStackSlots <= |start|
    requires Sim(c, Exec(alu, c.code, m0), w, start)
    ensures var d := PreserveRegister(c).value; Sim(d, Exec(alu, d.code, m0), w, start)
  {
    if c.register != 0 {
      var d := PreserveRegister(c).value;
      var s := FreeDynamic(c).value;
      ExecSnoc(alu, c.code, SetSlot(s), m0);
      CountZero(c.stack, s);
      hide Exec, OperandsPlaced, ConstantsDense, LocalsHold, OperandsHold, FrameKept, Loaded;
      SimSpill(c, d, s, Exec(alu, c.code, m0), w, start);
    }
  }

  /** An operator whose instruction computes `v` into the register. */
  lemma SimOperate(alu: Alu, c: Comp, n: nat, i: Instr, m0: State, r: Reg, w: Config, start: seq<Word>)
    requires Sim(c, Exec(alu, c.code, m0), w, start)
    requires n <= |c.stack| && (c.register == 0 || c.register > |c.stack| - n)
    requires Step(alu, i, Exec(alu, c.code, m0)) == Running(Exec(alu, c.code, m0).slots, r)
    requires Operate(c, n, i).Ok?
    ensures var d := Operate(c, n, i).value;
            Sim(d, Exec(alu, d.code, m0), w.(stack := w.stack[..|w.stack| - n] + [Low(r)]), start)
  {
    var m := Exec(alu, c.code, m0);
    var w1 := w.(stack := w.stack[..|w.stack| - n]);
    SimConsume(c, n, m, w, start);
    SimSetRegister(Consume(c, n), i, m, r, w1, start);
    SimPush(Emit(Consume(c, n), i), REG, Running(m.slots, r), w1, start);
    ExecSnoc(alu, c.code, i, m0);
  }

  // ----- one opcode -----

  ghost predicate Agrees(c: Comp, m: State, w: Config, start: seq<Word>) {
    match w
    case Config(_, _) => Sim(c, m, w, start)
    case Trap => m == Trapped
    case Stuck => false
  }

  lemma UnaryInRegister(alu: Alu, c: Comp, op: UnOp, m0: State, w: Config, start: seq<Word>)
    requires Sim(c, Exec(alu, c.code, m0), w, start)
    requires InRegister(c, 0) && Operate(c, 1, UnaryR(op)).Ok?
    ensures var d := Operate(c, 1, UnaryR(op)).value;
            Sim(d, Exec(alu, d.code, m0), Eval(alu, Unary(op), w), start)
  {
    hide Operate, Exec;
    var v := w.stack[|w.stack| - 1];
    SimOperate(alu, c, 1, UnaryR(op), m0, Widen(UnsignedUn(op), alu.unary(op, v)), w, start);
  }

  lemma UnaryInSlot(alu: Alu, c: Comp, op: UnOp, m0: State, w: Config, start: seq<Word>)
    requires Sim(c, Exec(alu, c.code, m0), w, start)
    requires c.stack != [] && c.register == 0 && Operate(c, 1, UnaryS(op, Top(c))).Ok?
    ensures var d := Operate(c, 1, UnaryS(op, Top(c))).value;
            Sim(d, Exec(alu, d.code, m0), Eval(alu, Unary(op), w), start)
  {
    hide Operate, Exec;
    var v := w.stack[|w.stack| - 1];
    SimOperate(alu, c, 1, UnaryS(op, Top(c)), m0, Widen(UnsignedUn(op), alu.unary(op, v)), w, start);
  }

  lemma UnaryCorrect(alu: Alu, c: Comp, op: UnOp, m0: State, w: Config, start: seq<Word>)
    requires Sim(c, Exec(alu, c.code, m0), w, start)
    requires CompileUnary(c, op).Ok? && CompileUnary(c, op).value.maxStackSlots <= |start|
    ensures var d := CompileUnary(c, op).value;
            Agrees(d, Exec(alu, d.code, m0), Eval(alu, Unary(op), w), start)
  {
    if InRegister(c, 0) {
      UnaryInRegister(alu, c, op, m0, w, start);
    } else {
      SimPreserve(alu, c, m0, w, start);
      UnaryInSlot(alu, PreserveRegister(c).value, op, m0, w, start);
    }
  }

  lemma BinaryTraps(alu: Alu, c: Comp, op: BinOp, i: Instr, m0: State, w: Config)
    requires Valid(c) && |c.stack| >= 2 && (c.register == 0 || c.register > |c.stack| - 2)
    requires w.Config? && |w.stack| >= 2
    requires alu.binary(op, w.stack[|w.stack| - 2], w.stack[|w.stack| - 1]).None?
    requires Step(alu, i, Exec(alu, c.code, m0)).Trapped?
    requires Operate(c, 2, i).Ok?
    ensures Exec(alu, Operate(c, 2, i).value.code, m0) == Trapped
    ensures Eval(alu, Binary(op), w) == Trap
  {
    ExecSnoc(alu, c.code, i, m0);
  }

  lemma BinaryComputes(alu: Alu, c: Comp, op: BinOp, i: Instr, m0: State, w: Config, start: seq<Word>, v: Word)
    requires Sim(c, Exec(alu, c.code, m0), w, start)
    requires |c.stack| >= 2 && (c.register == 0 || c.register > |c.stack| - 2)
    requires alu.binary(op, w.stack[|w.stack| - 2], w.stack[|w.stack| - 1]) == Some(v)
    requires Step(alu, i, Exec(alu, c.code, m0))
          == Running(Exec(alu, c.code, m0).slots, Widen(UnsignedBin(op), v))
    requires Operate(c, 2, i).Ok?
    ensures var d := Operate(c, 2, i).value;
            Sim(d, Exec(alu, d.code, m0), Eval(alu, Binary(op), w), start)
  {
    hide Operate, Exec;
    SimOperate(alu, c, 2, i, m0, Widen(UnsignedBin(op), v), w, start);
  }

  /** Any instruction that applies `op` to the two top operands will do. */
  lemma BinaryStep(alu: Alu, c: Comp, op: BinOp, i: Instr, m0: State, w: Config, start: seq<Word>)
    requires Sim(c, Exec(alu, c.code, m0), w, start)
    requires |c.stack| >= 2 && (c.register == 0 || c.register > |c.stack| - 2)
    requires Step(alu, i, Exec(alu, c.code, m0))
          == Compute(alu, Exec(alu, c.code, m0).slots, op, w.stack[|w.stack| - 2], w.stack[|w.stack| - 1])
    requires Operate(c, 2, i).Ok?
    ensures var d := Operate(c, 2, i).value;
            Agrees(d, Exec(alu, d.code, m0), Eval(alu, Binary(op), w), start)
  {
    match alu.binary(op, w.stack[|w.stack| - 2], w.stack[|w.stack| - 1])
    case None => BinaryTraps(alu, c, op, i, m0, w);
    case Some(v) => BinaryComputes(alu, c, op, i, m0, w, start, v);
  }

  /** The three instruction forms read the operands from where the records say they are; the
      missing `_sr` form of a commutative operator is replaced by `_rs` with operands swapped. */
  lemma BinaryInstr(alu: Alu, c: Comp, op: BinOp, m: State, w: Config, start: seq<Word>)
    requires Commutes(alu) && Sim(c, m, w, start) && |c.stack| >= 2
    ensures var n := |c.stack|;
            var want := Compute(alu, m.slots, op, w.stack[n - 2], w.stack[n - 1]);
            && (InRegister(c, 0) ==> Step(alu, BinaryRS(op, c.stack[n - 2]), m) == want)
            && (InRegister(c, 1) ==> Step(alu, BinarySR(op, c.stack[n - 1]), m) == want)
            && (InRegister(c, 1) && Commutative(op) ==> Step(alu, BinaryRS(op, c.stack[n - 1]), m) == want)
            && (!InRegister(c, 0) && !InRegister(c, 1) ==>
                  Step(alu, BinarySS(op, c.stack[n - 1], c.stack[n - 2]), m) == want)
  {
    var n := |c.stack|;
    assert Value(m, c.stack[n - 1]) == w.stack[n - 1] && Value(m, c.stack[n - 2]) == w.stack[n - 2];
  }

  lemma BinaryCorrect(alu: Alu, c: Comp, op: BinOp, m0: State, w: Config, start: seq<Word>)
    requires Commutes(alu)
    requires Sim(c, Exec(alu, c.code, m0), w, start)
    requires CompileBinary(c, op).Ok? && CompileBinary(c, op).value.maxStackSlots <= |start|
    ensures var d := CompileBinary(c, op).value;
            Agrees(d, Exec(alu, d.code, m0), Eval(alu, Binary(op), w), start)
  {
    var n := |c.stack|;
    if InRegister(c, 0) {
      BinaryInstr(alu, c, op, Exec(alu, c.code, m0), w, start);
      BinaryStep(alu, c, op, BinaryRS(op, c.stack[n - 2]), m0, w, start);
    } else if InRegister(c, 1) {
      BinaryInstr(alu, c, op, Exec(alu, c.code, m0), w, start);
      var i := if Commutative(op) then BinaryRS(op, c.stack[n - 1]) else BinarySR(op, c.stack[n - 1]);
      BinaryStep(alu, c, op, i, m0, w, start);
    } else {
      BinaryPreserved(alu, c, op, m0, w, start);
    }
  }

  lemma BinaryPreserved(alu: Alu, c: Comp, op: BinOp, m0: State, w: Config, start: seq<Word>)
    requires Commutes(alu)
    requires Sim(c, Exec(alu, c.code, m0), w, start)
    requires !InRegister(c, 0) && !InRegister(c, 1)
    requires CompileBinary(c, op).Ok? && CompileBinary(c, op).value.maxStackSlots <= |start|
    ensures var d := CompileBinary(c, op).value;
            Agrees(d, Exec(alu, d.code, m0), Eval(alu, Binary(op), w), start)
  {
    var n := |c.stack|;
    var p := PreserveRegister(c).value;
    SimPreserve(alu, c, m0, w, start);
    BinaryInstr(alu, p, op, Exec(alu, p.code, m0), w, start);
    BinaryStep(alu, p, op, BinarySS(op, p.stack[n - 1], p.stack[n - 2]), m0, w, start);
  }

  lemma SelectInstrCorrect(alu: Alu, c: Comp, m: State, w: Config, start: seq<Word>)
    requires Sim(c, m, w, start) && |c.stack| >= 3
    ensures var n := |c.stack|;
            Step(alu, SelectInstr(c), m) == Choose(m.slots, w.stack[n - 1], w.stack[n - 3], w.stack[n - 2])
  {
    var n := |c.stack|;
    assert Value(m, c.stack[n - 1]) == w.stack[n - 1] && Value(m, c.stack[n - 2]) == w.stack[n - 2];
    assert Value(m, c.stack[n - 3]) == w.stack[n - 3];
  }

  lemma SelectStep(alu: Alu, c: Comp, m0: State, w: Config, start: seq<Word>)
    requires Sim(c, Exec(alu, c.code, m0), w, start)
    requires |c.stack| >= 3 && (c.register == 0 || c.register > |c.stack| - 3)
    requires Operate(c, 3, SelectInstr(c)).Ok?
    ensures var d := Operate(c, 3, SelectInstr(c)).value;
            Agrees(d, Exec(alu, d.code, m0), Eval(alu, Select, w), start)
  {
    hide Operate, Exec, SelectInstr, Step;
    var n := |c.stack|;
    SelectInstrCorrect(alu, c, Exec(alu, c.code, m0), w, start);
    var v := if w.stack[n - 1] != 0 then w.stack[n - 3] else w.stack[n - 2];
    SimOperate(alu, c, 3, SelectInstr(c), m0, Widen(false, v), w, start);
  }

  lemma SelectCorrect(alu: Alu, c: Comp, m0: State, w: Config, start: seq<Word>)
    requires Sim(c, Exec(alu, c.code, m0), w, start)
    requires CompileSelect(c).Ok? && CompileSelect(c).value.maxStackSlots <= |start|
    ensures var d := CompileSelect(c).value;
            Agrees(d, Exec(alu, d.code, m0), Eval(alu, Select, w), start)
  {
    if InRegister(c, 0) || InRegister(c, 1) || InRegister(c, 2) {
      SelectStep(alu, c, m0, w, start);
    } else {
      SimPreserve(alu, c, m0, w, start);
      SelectStep(alu, PreserveRegister(c).value, m0, w, start);
    }
  }

  /** A constant new to the table: op_Entry will have put it where the record says. */
  lemma SimAddConstant(c: Comp, v: Word, s: nat, m: State, w: Config, start: seq<Word>)
    requires Sim(c, m, w, start)
    requires FirstFree(c.slots, c.layout.firstConst, c.layout.firstDynamic) == Some(s)
    requires Loaded(AddConstant(c, v, s), start)
    ensures Sim(AddConstant(c, v, s), m, w, start) && m.slots[s] == v
  {
    var d := AddConstant(c, v, s);
    var k := s - c.layout.firstConst;
    assert start[d.layout.firstConst + k] == d.constants[k];
  }

  lemma SimInlineConstant(alu: Alu, c: Comp, v: Word, m: State, w: Config, start: seq<Word>)
    requires Sim(c, m, w, start) && PushAllocated(c).Ok? && PushAllocated(c).value.maxStackSlots <= |start|
    ensures var d := PushAllocated(c).value;
            Sim(Emit(d, Const32(v, Top(d))), Step(alu, Const32(v, Top(d)), m), w.(stack := w.stack + [v]), start)
  {
    CountZero(c.stack, FreeDynamic(c).value);
  }

  lemma ConstCorrect(alu: Alu, c: Comp, v: Word, m0: State, w: Config, start: seq<Word>)
    requires Sim(c, Exec(alu, c.code, m0), w, start)
    requires CompileConst(c, v).Ok? && CompileConst(c, v).value.maxStackSlots <= |start|
    requires Loaded(CompileConst(c, v).value, start)
    ensures var d := CompileConst(c, v).value;
            Agrees(d, Exec(alu, d.code, m0), Eval(alu, Const(v), w), start)
  {
    var m := Exec(alu, c.code, m0);
    match FindConstant(c, v, 0)
    case Some(s) =>
      assert start[c.layout.firstConst + (s - c.layout.firstConst)] == v;
      SimPush(c, s, m, w, start);
    case None => ConstNew(alu, c, v, m0, w, start);
  }

  lemma ConstNew(alu: Alu, c: Comp, v: Word, m0: State, w: Config, start: seq<Word>)
    requires Sim(c, Exec(alu, c.code, m0), w, start)
    requires FindConstant(c, v, 0).None?
    requires CompileConst(c, v).Ok? && CompileConst(c, v).value.maxStackSlots <= |start|
    requires Loaded(CompileConst(c, v).value, start)
    ensures var d := CompileConst(c, v).value;
            Agrees(d, Exec(alu, d.code, m0), Eval(alu, Const(v), w), start)
  {
    hide Step, Exec, Counted, ConstantsDense;
    var m := Exec(alu, c.code, m0);
    match FirstFree(c.slots, c.layout.firstConst, c.layout.firstDynamic)
    case Some(s) =>
      SimAddConstant(c, v, s, m, w, start);
      SimPush(AddConstant(c, v, s), s, m, w, start);
    case None =>
      SimInlineConstant(alu, c, v, m, w, start);
      ExecSnoc(alu, c.code, Const32(v, Top(PushAllocated(c).value)), m0);
  }

  lemma GetCorrect(alu: Alu, c: Comp, i: nat, m0: State, w: Config, start: seq<Word>)
    requires Sim(c, Exec(alu, c.code, m0), w, start)
    requires CompileGet(c, i).Ok? && CompileGet(c, i).value.maxStackSlots <= |start|
    ensures var d := CompileGet(c, i).value;
            Agrees(d, Exec(alu, d.code, m0), Eval(alu, LocalGet(i), w), start)
  {
    SimPush(c, c.layout.locals[i], Exec(alu, c.code, m0), w, start);
  }

  // ----- writing a local -----

  /** Operands from `i` on that named the local's slot name `q` now; nothing else moved. */
  ghost predicate Redirected(c: Comp, d: Comp, local: nat, i: nat, q: nat) {
    && d == c.(stack := d.stack, slots := d.slots, maxStackSlots := d.maxStackSlots)
    && |d.stack| == |c.stack|
    && (forall j :: 0 <= j < |c.stack| ==>
          d.stack[j] == if j >= i && c.stack[j] == local then q else c.stack[j])
  }

  lemma RedirectedStep(c: Comp, c1: Comp, d: Comp, local: nat, i: nat, q: nat)
    requires i < |c.stack| && c.stack[i] == local && local != q
    requires c1 == c.(stack := c.stack[i := q], slots := c1.slots, maxStackSlots := c1.maxStackSlots)
    requires Redirected(c1, d, local, i + 1, q)
    ensures Redirected(c, d, local, i, q)
  {
  }

  lemma {:induction false} FindReferencedSpec(c: Comp, local: nat, i: nat, p: nat)
    requires Valid(c) && i <= |c.stack| && IO_SLOTS * c.layout.results <= local < c.layout.firstConst
    requires p == local || c.layout.firstDynamic <= p < c.maxStackSlots
    requires FindReferenced(c, local, i, p).Ok?
    ensures var (d, q) := FindReferenced(c, local, i, p).value;
            && Redirected(c, d, local, i, q)
            && (p != local ==> q == p)
            && (q == local ==> d == c && forall j :: i <= j < |c.stack| ==> c.stack[j] != local)
            && (q != p ==> Count(c.stack, q) == 0)
    decreases |c.stack| - i, 1
  {
    hide ConstantsDense, OperandsPlaced, RegisterOwned;
    if i < |c.stack| {
      if c.stack[i] != local {
        FindReferencedSpec(c, local, i + 1, p);
      } else {
        FindReferencedFound(c, local, i, p);
      }
    }
  }

  lemma {:induction false} FindReferencedFound(c: Comp, local: nat, i: nat, p: nat)
    requires Valid(c) && i < |c.stack| && IO_SLOTS * c.layout.results <= local < c.layout.firstConst
    requires p == local || c.layout.firstDynamic <= p < c.maxStackSlots
    requires FindReferenced(c, local, i, p).Ok? && c.stack[i] == local
    ensures var (d, q) := FindReferenced(c, local, i, p).value;
            && Redirected(c, d, local, i, q) && q != local
            && (p != local ==> q == p)
            && (q != p ==> Count(c.stack, q) == 0)
    decreases |c.stack| - i, 0
  {
    hide ConstantsDense, OperandsPlaced, RegisterOwned;
    var s := if p == local then FreeDynamic(c).value else p;
    var c1 := Redirect(c, i, s);
    FindReferencedSpec(c1, local, i + 1, s);
    RedirectedStep(c, c1, FindReferenced(c, local, i, p).value.0, local, i, s);
  }

  /** No operand reads the local: plain copy. */
  lemma SimSetUnreferenced(alu: Alu, c: Comp, k: nat, m: State, w: Config, start: seq<Word>)
    requires Sim(c, m, w, start) && c.stack != [] && k < |c.layout.locals|
    requires forall j :: 0 <= j < |c.stack| ==> c.stack[j] != c.layout.locals[k]
    ensures var i := LocalCopy(c, c.layout.locals[k], c.layout.locals[k]);
            Sim(Emit(c, i), Step(alu, i, m), w.(locals := w.locals[k := w.stack[|w.stack| - 1]]), start)
  {
    var local := c.layout.locals[k];
    var v := w.stack[|w.stack| - 1];
    assert Value(m, Top(c)) == v;
    var i := LocalCopy(c, local, local);
    assert Step(alu, i, m) == Running(m.slots[local := v], m.r0);
  }

  /** The value a preserving copy leaves in every slot. */
  lemma PreservingCopy(alu: Alu, c: Comp, d: Comp, k: nat, q: nat, m: State, w: Config, start: seq<Word>)
    requires Sim(c, m, w, start) && c.stack != [] && k < |c.layout.locals|
    requires Valid(d) && d.maxStackSlots <= |start| && c.layout.firstDynamic <= q < d.maxStackSlots
    requires Redirected(c, d, c.layout.locals[k], 0, q)
    requires forall j :: 0 <= j < |c.stack| ==> c.stack[j] != q
    ensures var local := c.layout.locals[k];
            Step(alu, LocalCopy(d, local, q), m)
            == Running(m.slots[q := m.slots[local]][local := w.stack[|w.stack| - 1]], m.r0)
  {
    var n := |c.stack| - 1;
    assert Value(m, c.stack[n]) == w.stack[n];
    assert d.stack[n] == if c.stack[n] == c.layout.locals[k] then q else c.stack[n];
  }

  lemma SimSetReferenced(alu: Alu, c: Comp, d: Comp, k: nat, q: nat, m: State, w: Config, start: seq<Word>)
    requires Sim(c, m, w, start) && c.stack != [] && k < |c.layout.locals|
    requires Valid(d) && c.maxStackSlots <= d.maxStackSlots <= |start| && c.layout.firstDynamic <= q < d.maxStackSlots
    requires Redirected(c, d, c.layout.locals[k], 0, q)
    requires forall j :: 0 <= j < |c.stack| ==> c.stack[j] != q
    ensures var i := LocalCopy(d, c.layout.locals[k], q);
            Sim(Emit(d, i), Step(alu, i, m), w.(locals := w.locals[k := w.stack[|w.stack| - 1]]), start)
  {
    hide Step, LocalCopy, Count, Counted, ConstantsDense;
    PreservingCopy(alu, c, d, k, q, m, w, start);
  }

  /** The copy a local.set or local.tee emits. */
  lemma SimSet(alu: Alu, c: Comp, k: nat, m: State, w: Config, start: seq<Word>)
    requires Sim(c, m, w, start) && c.stack != [] && k < |c.layout.locals|
    requires FindReferenced(c, c.layout.locals[k], 0, c.layout.locals[k]).Ok?
    requires FindReferenced(c, c.layout.locals[k], 0, c.layout.locals[k]).value.0.maxStackSlots <= |start|
    ensures var local := c.layout.locals[k];
            var (d, q) := FindReferenced(c, local, 0, local).value;
            var i := LocalCopy(d, local, q);
            Sim(Emit(d, i), Step(alu, i, m), w.(locals := w.locals[k := w.stack[|w.stack| - 1]]), start)
  {
    var local := c.layout.locals[k];
    var (d, q) := FindReferenced(c, local, 0, local).value;
    FindReferencedSpec(c, local, 0, local);
    CountZero(c.stack, q);
    if q == local {
      SimSetUnreferenced(alu, c, k, m, w, start);
    } else {
      SimSetReferenced(alu, c, d, k, q, m, w, start);
    }
  }

  lemma AssignCorrect(alu: Alu, c: Comp, k: nat, m0: State, w: Config, start: seq<Word>)
    requires Sim(c, Exec(alu, c.code, m0), w, start) && c.stack != []
    requires Assign(c, k).Ok? && Assign(c, k).value.maxStackSlots <= |start|
    ensures var d := Assign(c, k).value;
            Sim(d, Exec(alu, d.code, m0), Eval(alu, LocalTee(k), w), start)
  {
    hide Step, LocalCopy, Exec, Counted, ConstantsDense, FindReferenced;
    var local := c.layout.locals[k];
    var (d, q) := FindReferenced(c, local, 0, local).value;
    SimSet(alu, c, k, Exec(alu, c.code, m0), w, start);
    ExecSnoc(alu, c.code, LocalCopy(d, local, q), m0);
  }

  lemma DropCorrect(alu: Alu, c: Comp, m0: State, w: Config, start: seq<Word>)
    requires Sim(c, Exec(alu, c.code, m0), w, start) && c.stack != []
    ensures var d := Consume(c, 1);
            Sim(d, Exec(alu, d.code, m0), Eval(alu, Drop, w), start)
  {
    SimConsume(c, 1, Exec(alu, c.code, m0), w, start);
  }

  lemma SetPops(alu: Alu, k: nat, m0: State, w: Config, start: seq<Word>, e: Comp, w1: Config)
    requires w.Config? && k < |w.locals| && |w.stack| > 0
    requires w1 == Eval(alu, LocalTee(k), w)
    requires Sim(e, Exec(alu, e.code, m0), w1, start) && e.stack != []
    ensures var d := Consume(e, 1);
            Sim(d, Exec(alu, d.code, m0), Eval(alu, LocalSet(k), w), start)
  {
    DropCorrect(alu, e, m0, w1, start);
    assert Eval(alu, LocalSet(k), w) == Eval(alu, Drop, w1);
  }

  lemma SetCorrect(alu: Alu, c: Comp, k: nat, m0: State, w: Config, start: seq<Word>)
    requires Sim(c, Exec(alu, c.code, m0), w, start) && c.stack != []
    requires Assign(c, k).Ok? && Assign(c, k).value.maxStackSlots <= |start|
    ensures var d := Consume(Assign(c, k).value, 1);
            Sim(d, Exec(alu, d.code, m0), Eval(alu, LocalSet(k), w), start)
  {
    AssignCorrect(alu, c, k, m0, w, start);
    SetPops(alu, k, m0, w, start, Assign(c, k).value, Eval(alu, LocalTee(k), w));
  }

  /** Every opcode: the only accepted one without a Wasm meaning is a `local.tee` that finds
      no operand. */
  lemma OpCorrect(alu: Alu, c: Comp, op: Op, m0: State, w: Config, start: seq<Word>)
    requires Commutes(alu)
    requires Sim(c, Exec(alu, c.code, m0), w, start)
    requires CompileOp(c, op).Ok? && CompileOp(c, op).value.maxStackSlots <= |start|
    requires Loaded(CompileOp(c, op).value, start)
    requires op.LocalTee? ==> c.stack != []
    ensures var d := CompileOp(c, op).value;
            Agrees(d, Exec(alu, d.code, m0), Eval(alu, op, w), start)
  {
    hide Valid, Exec;
    match op
    case Const(v) => ConstCorrect(alu, c, v, m0, w, start);
    case LocalGet(k) => GetCorrect(alu, c, k, m0, w, start);
    case LocalSet(k) => SetCorrect(alu, c, k, m0, w, start);
    case LocalTee(k) => AssignCorrect(alu, c, k, m0, w, start);
    case Unary(u) => UnaryCorrect(alu, c, u, m0, w, start);
    case Binary(b) => BinaryCorrect(alu, c, b, m0, w, start);
    case Select => SelectCorrect(alu, c, m0, w, start);
    case Drop => DropCorrect(alu, c, m0, w, start);
    case Nop =>
  }

  // ----- a whole body -----

  lemma OpHeight(c: Comp, op: Op)
    requires Valid(c) && CompileOp(c, op).Ok?
    ensures |CompileOp(c, op).value.stack| == |c.stack| + Effect(op)
  {
  }

  lemma {:induction false} BodyHeight(c: Comp, body: seq<Op>)
    requires Valid(c) && CompileOps(c, body).Ok?
    ensures |CompileOps(c, body).value.stack| == |c.stack| + Height(body)
  {
    if body != [] {
      var pre := body[..|body| - 1];
      BodyHeight(c, pre);
      OpHeight(CompileOps(c, pre).value, body[|body| - 1]);
    }
  }

  lemma ExtendsTrans(c: Comp, d: Comp, e: Comp)
    requires Extends(c, d) && Extends(d, e)
    ensures Extends(c, e)
  {
  }

  lemma PreserveExtends(c: Comp)
    requires Valid(c) && PreserveRegister(c).Ok?
    ensures Extends(c, PreserveRegister(c).value)
  {
  }

  lemma OperateExtends(c: Comp, n: nat, i: Instr)
    requires Valid(c) && n <= |c.stack| && (c.register == 0 || c.register > |c.stack| - n)
    requires Operate(c, n, i).Ok?
    ensures Extends(c, Operate(c, n, i).value)
  {
  }

  lemma PreserveOperateExtends(c: Comp, n: nat, i: Instr)
    requires Valid(c) && PreserveRegister(c).Ok? && n <= |c.stack|
    requires Operate(PreserveRegister(c).value, n, i).Ok?
    ensures Extends(c, Operate(PreserveRegister(c).value, n, i).value)
  {
    hide Operate, PreserveRegister, Extends;
    var p := PreserveRegister(c).value;
    PreserveExtends(c);
    OperateExtends(p, n, i);
    ExtendsTrans(c, p, Operate(p, n, i).value);
  }

  lemma ConstExtends(c: Comp, v: Word)
    requires Valid(c) && CompileConst(c, v).Ok?
    ensures Extends(c, CompileConst(c, v).value)
  {
  }

  lemma AssignExtends(c: Comp, k: nat)
    requires Valid(c) && Assign(c, k).Ok?
    ensures Extends(c, Assign(c, k).value)
  {
  }

  lemma ConsumeExtends(c: Comp, n: nat)
    requires Valid(c) && n <= |c.stack|
    ensures Extends(c, Consume(c, n))
  {
  }

  lemma UnaryExtends(c: Comp, op: UnOp)
    requires Valid(c) && CompileUnary(c, op).Ok?
    ensures Extends(c, CompileUnary(c, op).value)
  {
    hide Operate, PreserveRegister, Extends;
    if InRegister(c, 0) {
      OperateExtends(c, 1, UnaryR(op));
    } else {
      PreserveOperateExtends(c, 1, UnaryS(op, Top(PreserveRegister(c).value)));
    }
  }

  lemma BinaryExtends(c: Comp, op: BinOp)
    requires Valid(c) && CompileBinary(c, op).Ok?
    ensures Extends(c, CompileBinary(c, op).value)
  {
    hide Operate, PreserveRegister, Extends;
    var n := |c.stack|;
    if InRegister(c, 0) {
      OperateExtends(c, 2, BinaryRS(op, c.stack[n - 2]));
    } else if InRegister(c, 1) {
      OperateExtends(c, 2, if Commutative(op) then BinaryRS(op, c.stack[n - 1]) else BinarySR(op, c.stack[n - 1]));
    } else {
      var p := PreserveRegister(c).value;
      PreserveOperateExtends(c, 2, BinarySS(op, p.stack[n - 1], p.stack[n - 2]));
    }
  }

  lemma SelectExtends(c: Comp)
    requires Valid(c) && CompileSelect(c).Ok?
    ensures Extends(c, CompileSelect(c).value)
  {
    hide Operate, PreserveRegister, Extends;
    if InRegister(c, 0) || InRegister(c, 1) || InRegister(c, 2) {
      OperateExtends(c, 3, SelectInstr(c));
    } else {
      PreserveOperateExtends(c, 3, SelectInstr(PreserveRegister(c).value));
    }
  }

  /** No opcode takes back a constant or an instruction. */
  lemma OpExtends(c: Comp, op: Op)
    requires Valid(c) && CompileOp(c, op).Ok?
    ensures Extends(c, CompileOp(c, op).value)
  {
    hide Assign, CompileConst, CompileUnary, CompileBinary, CompileSelect;
    match op
    case Const(v) => ConstExtends(c, v);
    case LocalGet(_) =>
    case LocalSet(k) =>
      var d := Assign(c, k).value;
      AssignExtends(c, k);
      ConsumeExtends(d, 1);
      ExtendsTrans(c, d, Consume(d, 1));
    case LocalTee(k) => AssignExtends(c, k);
    case Unary(u) => UnaryExtends(c, u);
    case Binary(b) => BinaryExtends(c, b);
    case Select => SelectExtends(c);
    case Drop => ConsumeExtends(c, 1);
    case Nop =>
  }

  lemma LoadedBefore(c: Comp, d: Comp, start: seq<Word>)
    requires Valid(c) && Valid(d) && Extends(c, d) && d.maxStackSlots <= |start| && Loaded(d, start)
    ensures Loaded(c, start)
  {
  }

  lemma TeesFedPrefix(body: seq<Op>, n: nat)
    requires TeesFed(body) && n <= |body|
    ensures TeesFed(body[..n])
  {
    forall k | 0 <= k < n && body[..n][k].LocalTee? ensures Height(body[..n][..k]) >= 1 {
      assert body[..n][..k] == body[..k];
    }
  }

  lemma {:induction false} BodyCorrect(alu: Alu, c0: Comp, body: seq<Op>, m0: State, w0: Config, start: seq<Word>)
    requires Commutes(alu)
    requires Sim(c0, m0, w0, start) && c0.code == [] && c0.stack == []
    requires CompileOps(c0, body).Ok? && CompileOps(c0, body).value.maxStackSlots <= |start|
    requires Loaded(CompileOps(c0, body).value, start)
    requires TeesFed(body)
    ensures var d := CompileOps(c0, body).value;
            Agrees(d, Exec(alu, d.code, m0), Run(alu, body, w0), start)
  {
    if body != [] {
      var n := |body| - 1;
      var c := CompileOps(c0, body[..n]).value;
      var d := CompileOps(c0, body).value;
      OpExtends(c, body[n]);
      LoadedBefore(c, d, start);
      TeesFedPrefix(body, n);
      BodyCorrect(alu, c0, body[..n], m0, w0, start);
      BodyHeight(c0, body[..n]);
      var w := Run(alu, body[..n], w0);
      BodyExtend(alu, c, body[n], m0, w, start);
    }
  }

  /** One more opcode after a prefix that agrees. */
  lemma BodyExtend(alu: Alu, c: Comp, op: Op, m0: State, w: Config, start: seq<Word>)
    requires Commutes(alu) && Valid(c)
    requires Agrees(c, Exec(alu, c.code, m0), w, start)
    requires CompileOp(c, op).Ok? && CompileOp(c, op).value.maxStackSlots <= |start|
    requires Loaded(CompileOp(c, op).value, start)
    requires op.LocalTee? ==> c.stack != []
    ensures var d := CompileOp(c, op).value;
            Agrees(d, Exec(alu, d.code, m0), Eval(alu, op, w), start)
  {
    hide Exec, CompileOp, Valid, Sim, Loaded;
    if w.Trap? {
      var d := CompileOp(c, op).value;
      OpExtends(c, op);
      assert d.code == c.code + d.code[|c.code|..];
      ExecStopped(alu, c.code, d.code[|c.code|..], m0);
    } else {
      OpCorrect(alu, c, op, m0, w, start);
    }
  }

  // ----- returning -----

  /** Writing a return slot disturbs nothing the records name. */
  lemma SimReturnSlot(alu: Alu, c: Comp, j: nat, m: State, w: Config, start: seq<Word>)
    requires Sim(c, m, w, start) && j < |c.stack| && j < c.layout.results
    ensures var i := CopyTo(IO_SLOTS * j, c.stack[j]);
            && Step(alu, i, m) == Running(m.slots[IO_SLOTS * j := w.stack[j]], m.r0)
            && Sim(Emit(c, i), Step(alu, i, m), w, start)
  {
    assert Value(m, c.stack[j]) == w.stack[j];
  }

  /** Results `k` and above are in their return slots. */
  ghost predicate ResultsHold(slots: seq<Word>, results: seq<Word>, k: nat) {
    && IO_SLOTS * |results| <= |slots|
    && forall j :: k <= j < |results| ==> slots[IO_SLOTS * j] == results[j]
  }

  lemma ResultsStep(slots: seq<Word>, results: seq<Word>, k: nat)
    requires 0 < k <= |results| && ResultsHold(slots, results, k)
    ensures ResultsHold(slots[IO_SLOTS * (k - 1) := results[k - 1]], results, k - 1)
  {
  }

  lemma CopyResult(alu: Alu, c: Comp, c1: Comp, k: nat, m0: State, w: Config, start: seq<Word>)
    requires Sim(c, Exec(alu, c.code, m0), w, start)
    requires 0 < k <= |c.stack| == c.layout.results
    requires ResultsHold(Exec(alu, c.code, m0).slots, w.stack, k)
    requires c1 == Emit(c, CopyTo(IO_SLOTS * (k - 1), c.stack[k - 1]))
    ensures Sim(c1, Exec(alu, c1.code, m0), w, start)
    ensures ResultsHold(Exec(alu, c1.code, m0).slots, w.stack, k - 1)
  {
    var m := Exec(alu, c.code, m0);
    SimReturnSlot(alu, c, k - 1, m, w, start);
    ResultsStep(m.slots, w.stack, k);
    ExecSnoc(alu, c.code, CopyTo(IO_SLOTS * (k - 1), c.stack[k - 1]), m0);
  }

  lemma {:induction false} CopyResultsCorrect(alu: Alu, c: Comp, k: nat, m0: State, w: Config, start: seq<Word>)
    requires Sim(c, Exec(alu, c.code, m0), w, start)
    requires k <= |c.stack| == c.layout.results
    requires ResultsHold(Exec(alu, c.code, m0).slots, w.stack, k)
    ensures var d := CopyResults(c, k);
            var m := Exec(alu, d.code, m0);
            Sim(d, m, w, start) && ResultsHold(m.slots, w.stack, 0)
    decreases k
  {
    hide Exec;
    if k > 0 {
      var c1 := Emit(c, CopyTo(IO_SLOTS * (k - 1), c.stack[k - 1]));
      CopyResult(alu, c, c1, k, m0, w, start);
      CopyResultsCorrect(alu, c1, k - 1, m0, w, start);
    }
  }

  lemma EndCorrect(alu: Alu, c: Comp, m0: State, w: Config, start: seq<Word>)
    requires Sim(c, Exec(alu, c.code, m0), w, start) && CompileEnd(c).Ok?
    ensures var m := Exec(alu, CompileEnd(c).value.code, m0);
            && m.Returned? && |w.stack| == c.layout.results && |m.slots| == |start|
            && ResultsHold(m.slots, w.stack, 0)
            && (forall s :: c.maxStackSlots <= s < |start| ==> m.slots[s] == start[s])
  {
    hide Exec, Counted, ConstantsDense, Consume, CopyResults;
    CopyResultsCorrect(alu, c, |c.stack|, m0, w, start);
    ExecSnoc(alu, CopyResults(c, |c.stack|).code, Return, m0);
  }

  // ----- the theorem -----

  /** The locals a call starts with: its arguments, then zeros. */
  function InitialLocals(sig: Signature, frame: seq<Word>): seq<Word>
    requires FirstLocal(sig) <= |frame|
  {
    seq(sig.args + sig.locals, i requires 0 <= i =>
      if i < sig.args then frame[LocalSlot(sig, i)] else 0)
  }

  /** What op_Entry needs of the compiled record. */
  lemma FunctionFits(sig: Signature, reserved: nat, body: seq<Op>)
    requires reserved <= MAX_CONSTANTS && CompileFunction(sig, reserved, body).Ok?
    ensures var fn := CompileFunction(sig, reserved, body).value;
            && fn.numRetAndArgSlots == FirstLocal(sig) && fn.numLocals == sig.locals
            && fn.numRetAndArgSlots + fn.numLocals + |fn.constants| <= fn.maxStackSlots
  {
    var c := Begin(sig, reserved).value;
    var d := CompileOps(c, body).value;
    var e := CompileEnd(d).value;
    assert Valid(e) && e.layout == c.layout;
  }

  lemma EntrySim(sig: Signature, reserved: nat, fn: Function, frame: seq<Word>)
    requires reserved <= MAX_CONSTANTS && Begin(sig, reserved).Ok?
    requires fn.numRetAndArgSlots == FirstLocal(sig) && fn.numLocals == sig.locals
    requires |fn.constants| <= reserved
    requires FirstLocal(sig) + sig.locals + reserved <= |frame|
    ensures var m := Enter(fn, frame);
            Sim(Begin(sig, reserved).value, m, Config(InitialLocals(sig, frame), []), m.slots)
  {
  }

  /** The constants op_Entry copies are those the body was compiled against. */
  lemma EntryLoads(c: Comp, sig: Signature, fn: Function, frame: seq<Word>)
    requires Valid(c) && c.layout.firstConst == FirstLocal(sig) + sig.locals
    requires fn.numRetAndArgSlots == FirstLocal(sig) && fn.numLocals == sig.locals
    requires fn.constants == c.constants[..c.maxConst - c.layout.firstConst]
    requires c.maxStackSlots <= |frame|
    ensures Loaded(c, Enter(fn, frame).slots)
  {
  }

  /** For every body that compiles, every arithmetic unit and every frame op_Entry accepts,
      the emitted code traps exactly when Wasm traps and otherwise returns the Wasm results in
      the return slots, writing nothing above the slots the function declared. */
  lemma CompilerPreservesMeaning(alu: Alu, sig: Signature, reserved: nat, body: seq<Op>, frame: seq<Word>)
    requires Commutes(alu) && reserved <= MAX_CONSTANTS
    requires CompileFunction(sig, reserved, body).Ok?
    requires CompileFunction(sig, reserved, body).value.maxStackSlots < |frame|
    requires TeesFed(body)
    ensures FirstLocal(sig) <= |frame|
    ensures var fn := CompileFunction(sig, reserved, body).value;
            && fn.numRetAndArgSlots + fn.numLocals + |fn.constants| <= fn.maxStackSlots
            && var m := Call(alu, fn, frame);
            match Run(alu, body, Config(InitialLocals(sig, frame), []))
            case Stuck => false
            case Trap => m == Trapped
            case Config(_, results) =>
              && m.Returned? && |results| == sig.results && |m.slots| == |frame|
              && ResultsHold(m.slots, results, 0)
              && (forall s :: fn.maxStackSlots <= s < |frame| ==> m.slots[s] == frame[s])
  {
    hide Exec, Agrees;
    var fn := CompileFunction(sig, reserved, body).value;
    FunctionFits(sig, reserved, body);
    var c := Begin(sig, reserved).value;
    var d := CompileOps(c, body).value;
    var e := CompileEnd(d).value;
    var m0 := Enter(fn, frame);
    var w0 := Config(InitialLocals(sig, frame), []);
    EntrySim(sig, reserved, fn, frame);
    EntryLoads(e, sig, fn, frame);
    LoadedBefore(d, e, m0.slots);
    BodyCorrect(alu, c, body, m0, w0, m0.slots);
    FinishCorrect(alu, d, m0, Run(alu, body, w0), m0.slots);
  }

  /** The end of a body that agrees with Wasm. */
  lemma FinishCorrect(alu: Alu, d: Comp, m0: State, w: Config, start: seq<Word>)
    requires Valid(d) && CompileEnd(d).Ok? && Agrees(d, Exec(alu, d.code, m0), w, start)
    ensures var m := Exec(alu, CompileEnd(d).value.code, m0);
            match w
            case Stuck => false
            case Trap => m == Trapped
            case Config(_, results) =>
              && m.Returned? && |results| == d.layout.results && |m.slots| == |start|
              && ResultsHold(m.slots, results, 0)
              && (forall s :: d.maxStackSlots <= s < |start| ==> m.slots[s] == start[s])
  {
    if w.Trap? {
      var e := CompileEnd(d).value;
      assert e.code == d.code + e.code[|d.code|..];
      ExecStopped(alu, d.code, e.code[|d.code|..], m0);
    } else {
      EndCorrect(alu, d, m0, w, start);
    }
  }
}
