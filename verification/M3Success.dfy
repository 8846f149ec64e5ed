/**
 When compilation succeeds (kernel/lib/wasm3/m3_compile.c). Every refusal is described by what
 can be seen before the call: the operand and local counts of Wasm's configuration, and the
 limits of the compilation record. For whole bodies within those limits, compilation succeeds
 exactly if the body never gets stuck and ends with the results the signature asks for.
 */
module M3Success {
  import opened Words
  import opened Basics
  import opened M3Machine
  import opened WasmSemantics
  import opened M3Compile
  import opened M3Correct
  import opened M3Accepts

  // ----- the limits -----

  /** The operand stack, locals included, is full. */
  predicate AtHeight(c: Comp) { |c.layout.locals| + |c.stack| >= 2000 }

  /** Every dynamic slot is in use. */
  predicate NoSlot(c: Comp)
    requires |c.slots| == MAX_SLOTS
  {
    forall s :: c.layout.firstDynamic <= s < 4000 ==> c.slots[s] != 0
  }

  /** The constant is in the table, where a constant with its sign bit set is never found. */
  predicate KnownConstant(c: Comp, v: Word)
    requires |c.constants| == MAX_CONSTANTS
  {
    v < 0x8000_0000 && exists k :: 0 <= k < c.maxConst - c.layout.firstConst && k < 120 && c.constants[k] == v
  }

  /** One of the top `n` operands is in the register, or the register is free. */
  predicate RegisterAtHand(c: Comp, n: nat) {
    c.register == 0 || exists i :: 0 <= i < |c.stack| && |c.stack| - n <= i && c.stack[i] >= REG
  }

  /** The record has room for what the opcode needs. */
  ghost predicate Roomy(c: Comp, op: Op)
    requires Valid(c)
  {
    match op
    case Const(v) =>
      !AtHeight(c) && (KnownConstant(c, v) || c.maxConst < c.layout.firstDynamic || !NoSlot(c))
    case LocalGet(_) => !AtHeight(c)
    case LocalSet(i) => i < |c.layout.locals| ==> MayPreserve(c, c.layout.locals[i])
    case LocalTee(i) => i < |c.layout.locals| ==> MayPreserve(c, c.layout.locals[i])
    case Unary(_) => RegisterAtHand(c, 1) || !NoSlot(c)
    case Binary(_) => RegisterAtHand(c, 2) || !NoSlot(c)
    case Select => RegisterAtHand(c, 3) || !NoSlot(c)
    case Drop => true
    case Nop => true
  }

  /** The operands that still name the local fit one fresh slot's usage count. */
  ghost predicate MayPreserve(c: Comp, local: nat)
    requires Valid(c)
  {
    Count(c.stack, local) == 0 || (!NoSlot(c) && Count(c.stack, local) <= 255)
  }

  /** The opcode has its operands and its local in Wasm's configuration, the unchecked operand
      of `local.tee` apart. */
  predicate WellFed(op: Op, w: Config) {
    w.Config? && (Eval(TOTAL, op, w) != Stuck || (op.LocalTee? && op.index < |w.locals|))
  }

  // ----- slots -----

  lemma NoSlotIff(c: Comp)
    requires |c.slots| == MAX_SLOTS
    ensures FreeDynamic(c).None? <==> NoSlot(c)
  {
  }

  /** With fewer operands than dynamic slots, a slot is free. */
  lemma SlotLeft(c: Comp)
    requires Valid(c) && |c.stack| < MAX_SLOTS - c.layout.firstDynamic
    ensures !NoSlot(c)
  {
    var named := Values(c.stack);
    var all := Range(c.layout.firstDynamic, MAX_SLOTS);
    if NoSlot(c) {
      forall s | s in all ensures s in named {
        CountZero(c.stack, s);
      }
      Smaller(all, named);
    }
  }

  function Values(stack: seq<nat>): (r: set<nat>)
    ensures |r| <= |stack|
    ensures forall i :: 0 <= i < |stack| ==> stack[i] in r
  {
    if stack == [] then {}
    else
      assert stack == [stack[0]] + stack[1..];
      {stack[0]} + Values(stack[1..])
  }

  function Range(lo: nat, hi: nat): (r: set<nat>)
    requires lo <= hi
    ensures |r| == hi - lo && forall s :: s in r <==> lo <= s < hi
    decreases hi - lo
  {
    if lo == hi then {} else Range(lo + 1, hi) + {lo}
  }

  lemma {:induction false} Smaller(a: set<nat>, b: set<nat>)
    requires a <= b
    ensures |a| <= |b|
    decreases |a|
  {
    if a != {} {
      var x :| x in a;
      Smaller(a - {x}, b - {x});
    }
  }

  // ----- opcodes that name a local -----

  lemma {:induction false} CountTail(stack: seq<nat>, i: nat, slot: nat)
    requires i < |stack|
    ensures Count(stack[i..], slot) == Count(stack[i + 1..], slot) + if stack[i] == slot then 1 else 0
    decreases |stack|
  {
    var n := |stack| - 1;
    if i == n {
      assert stack[i..] == [] + [stack[n]] && stack[i + 1..] == [];
      CountSnoc([], stack[n], slot);
    } else {
      CountTail(stack[..n], i, slot);
      assert stack[i..] == stack[..n][i..] + [stack[n]];
      assert stack[i + 1..] == stack[..n][i + 1..] + [stack[n]];
      CountSnoc(stack[..n][i..], stack[n], slot);
      CountSnoc(stack[..n][i + 1..], stack[n], slot);
    }
  }

  /** The search succeeds exactly if the operands left to redirect fit the slot they go to. */
  lemma {:induction false} PreserveIff(c: Comp, local: nat, i: nat, p: nat)
    requires Valid(c) && i <= |c.stack| && IO_SLOTS * c.layout.results <= local < c.layout.firstConst
    requires p == local || c.layout.firstDynamic <= p < c.maxStackSlots
    ensures var n := Count(c.stack[i..], local);
            var r := FindReferenced(c, local, i, p);
            if n == 0 then r.Ok?
            else if p == local then
              if NoSlot(c) then r == Err(FunctionStackOverflow)
              else if n <= 255 then r.Ok? else r == Err(UsageCountOverflow)
            else if c.slots[p] + n <= 255 then r.Ok? else r == Err(UsageCountOverflow)
    decreases |c.stack| - i
  {
    NoSlotIff(c);
    hide Counted, ConstantsDense, OperandsPlaced, NoSlot;
    if i == |c.stack| {
      assert c.stack[i..] == [];
    } else {
      CountTail(c.stack, i, local);
      if c.stack[i] != local {
        PreserveIff(c, local, i + 1, p);
      } else if p != local || FreeDynamic(c).Some? {
        var s := if p == local then FreeDynamic(c).value else p;
        if c.slots[s] < MAX_USAGE {
          var d := Redirect(c, i, s);
          assert d.stack[i + 1..] == c.stack[i + 1..];
          PreserveIff(d, local, i + 1, s);
        }
      }
    }
  }

  lemma AssignIff(c: Comp, index: nat)
    requires Valid(c)
    ensures Assign(c, index).Ok? <==> index < |c.layout.locals| && MayPreserve(c, c.layout.locals[index])
    ensures index >= |c.layout.locals| ==> Assign(c, index) == Err(LocalOutOfBounds)
    ensures index < |c.layout.locals| && Assign(c, index).Err? ==>
              Assign(c, index) == Err(if NoSlot(c) then FunctionStackOverflow else UsageCountOverflow)
  {
    if index < |c.layout.locals| {
      var local := c.layout.locals[index];
      assert c.stack[0..] == c.stack;
      hide Counted, ConstantsDense, OperandsPlaced, NoSlot, FindReferenced;
      PreserveIff(c, local, 0, local);
    }
  }

  // ----- every opcode -----

  lemma {:induction false} KnownIff(c: Comp, v: Word, k: nat)
    requires Valid(c)
    ensures FindConstant(c, v, k).Some? <==>
      v < 0x8000_0000 && exists j :: k <= j < c.maxConst - c.layout.firstConst && j < 120 && c.constants[j] == v
    decreases c.maxConst - c.layout.firstConst - k
  {
    hide Counted, OperandsPlaced;
    if k < c.maxConst - c.layout.firstConst {
      KnownIff(c, v, k + 1);
    }
  }

  lemma ConstSlotIff(c: Comp)
    requires Valid(c)
    ensures FirstFree(c.slots, c.layout.firstConst, c.layout.firstDynamic).Some? <==> c.maxConst < c.layout.firstDynamic
  {
    hide Counted, OperandsPlaced;
    if c.maxConst < c.layout.firstDynamic { assert c.slots[c.maxConst] == 0; }
  }

  lemma ConstIff(c: Comp, v: Word)
    requires Valid(c)
    ensures CompileConst(c, v).Ok? <==> Roomy(c, Const(v))
    ensures CompileConst(c, v).Err? ==> CompileConst(c, v) == Err(FunctionStackOverflow)
  {
    KnownIff(c, v, 0);
    NoSlotIff(c);
    ConstSlotIff(c);
    hide Counted, OperandsPlaced, ConstantsDense, NoSlot, KnownConstant, FindConstant, FirstFree, FreeDynamic;
  }

  lemma PreserveRegisterIff(c: Comp)
    requires Valid(c)
    ensures PreserveRegister(c).Ok? <==> c.register == 0 || !NoSlot(c)
    ensures PreserveRegister(c).Err? ==> PreserveRegister(c) == Err(FunctionStackOverflow)
  {
    NoSlotIff(c);
    hide Counted, OperandsPlaced, ConstantsDense, NoSlot, FreeDynamic;
  }

  lemma OperateOk(c: Comp, n: nat, i: Instr)
    requires Valid(c) && 1 <= n <= |c.stack| && (c.register == 0 || c.register > |c.stack| - n)
    ensures Operate(c, n, i).Ok?
  {
    hide Counted, OperandsPlaced, ConstantsDense;
  }

  /** Which operands are in the register, from its owner. */
  lemma AtHandIff(c: Comp, n: nat)
    requires Valid(c) && 1 <= n <= 3
    ensures RegisterAtHand(c, n) <==>
      c.register == 0 || InRegister(c, 0) || (n >= 2 && InRegister(c, 1)) || (n >= 3 && InRegister(c, 2))
    ensures InRegister(c, 0) ==> c.register == |c.stack|
    ensures InRegister(c, 1) ==> c.register == |c.stack| - 1
    ensures InRegister(c, 2) ==> c.register == |c.stack| - 2
  {
    hide Counted, ConstantsDense;
    var m := |c.stack|;
    if RegisterAtHand(c, n) && c.register != 0 {
      var i :| 0 <= i < m && m - n <= i && c.stack[i] >= REG;
      assert i == m - 1 || i == m - 2 || i == m - 3;
    }
  }

  lemma UnaryIff(c: Comp, op: UnOp)
    requires Valid(c)
    ensures CompileUnary(c, op).Ok? <==> |c.stack| >= 1 && Roomy(c, Unary(op))
    ensures CompileUnary(c, op).Err? ==>
      CompileUnary(c, op) == Err(if |c.stack| < 1 then FunctionStackUnderrun else FunctionStackOverflow)
  {
    hide Valid, Operate, PreserveRegister, NoSlot, RegisterAtHand;
    AtHandIff(c, 1);
    PreserveRegisterIff(c);
    if |c.stack| >= 1 {
      if InRegister(c, 0) {
        OperateOk(c, 1, UnaryR(op));
      } else if PreserveRegister(c).Ok? {
        var p := PreserveRegister(c).value;
        OperateOk(p, 1, UnaryS(op, Top(p)));
      }
    }
  }

  lemma BinaryIff(c: Comp, op: BinOp)
    requires Valid(c)
    ensures CompileBinary(c, op).Ok? <==> |c.stack| >= 2 && Roomy(c, Binary(op))
    ensures CompileBinary(c, op).Err? ==>
      CompileBinary(c, op) == Err(if |c.stack| < 2 then FunctionStackUnderrun else FunctionStackOverflow)
  {
    hide Valid, Operate, PreserveRegister, NoSlot, RegisterAtHand, Commutative;
    AtHandIff(c, 2);
    PreserveRegisterIff(c);
    var n := |c.stack|;
    if n >= 2 {
      if InRegister(c, 0) {
        OperateOk(c, 2, BinaryRS(op, c.stack[n - 2]));
      } else if InRegister(c, 1) {
        OperateOk(c, 2, BinaryRS(op, c.stack[n - 1]));
        OperateOk(c, 2, BinarySR(op, c.stack[n - 1]));
      } else if PreserveRegister(c).Ok? {
        var p := PreserveRegister(c).value;
        OperateOk(p, 2, BinarySS(op, p.stack[n - 1], p.stack[n - 2]));
      }
    }
  }

  lemma SelectIff(c: Comp)
    requires Valid(c)
    ensures CompileSelect(c).Ok? <==> |c.stack| >= 3 && Roomy(c, Select)
    ensures CompileSelect(c).Err? ==>
      CompileSelect(c) == Err(if |c.stack| < 3 then FunctionStackUnderrun else FunctionStackOverflow)
  {
    hide Valid, Operate, PreserveRegister, NoSlot, RegisterAtHand;
    AtHandIff(c, 3);
    PreserveRegisterIff(c);
    if |c.stack| >= 3 {
      if InRegister(c, 0) || InRegister(c, 1) || InRegister(c, 2) {
        OperateOk(c, 3, SelectInstr(c));
      } else if PreserveRegister(c).Ok? {
        OperateOk(PreserveRegister(c).value, 3, SelectInstr(PreserveRegister(c).value));
      }
    }
  }

  /** An opcode compiles exactly if Wasm's configuration feeds it and the record has room; each
      error says which of the two was missing. */
  lemma CompilesIff(c: Comp, op: Op, w: Config)
    requires Valid(c) && w.Config? && |w.locals| == |c.layout.locals| && |w.stack| == |c.stack|
    ensures CompileOp(c, op).Ok? <==> WellFed(op, w) && Roomy(c, op)
    ensures CompileOp(c, op) == Err(FunctionStackUnderrun) || CompileOp(c, op) == Err(LocalOutOfBounds) <==> !WellFed(op, w)
    ensures CompileOp(c, op) == Err(LocalOutOfBounds) ==> (op.LocalGet? || op.LocalSet? || op.LocalTee?) && op.index >= |w.locals|
    ensures CompileOp(c, op) == Err(FunctionStackOverflow) ==> AtHeight(c) || NoSlot(c)
    ensures CompileOp(c, op) == Err(UsageCountOverflow) ==>
      (op.LocalSet? || op.LocalTee?) && op.index < |w.locals| && Count(c.stack, c.layout.locals[op.index]) > 255
    ensures CompileOp(c, op) != Err(TypeCountMismatch)
  {
    match op
    case Const(v) => ConstIff(c, v);
    case LocalGet(i) => GetIff(c, i);
    case LocalSet(i) => SetIff(c, i, w);
    case LocalTee(i) => AssignIff(c, i);
    case Unary(u) => UnaryIff(c, u);
    case Binary(b) => BinaryIff(c, b);
    case Select => SelectIff(c);
    case Drop =>
    case Nop =>
  }

  lemma GetIff(c: Comp, index: nat)
    requires Valid(c)
    ensures CompileGet(c, index).Ok? <==> index < |c.layout.locals| && !AtHeight(c)
    ensures CompileGet(c, index).Err? ==>
      CompileGet(c, index) == Err(if index < |c.layout.locals| then FunctionStackOverflow else LocalOutOfBounds)
  {
    hide Counted, OperandsPlaced, ConstantsDense;
  }

  lemma SetIff(c: Comp, index: nat, w: Config)
    requires Valid(c) && w.Config? && |w.locals| == |c.layout.locals| && |w.stack| == |c.stack|
    ensures var r := CompileOp(c, LocalSet(index));
      && (r.Ok? <==> index < |w.locals| && |w.stack| >= 1 && MayPreserve(c, c.layout.locals[index]))
      && (index >= |w.locals| ==> r == Err(LocalOutOfBounds))
      && (index < |w.locals| && |w.stack| == 0 ==> r == Err(FunctionStackUnderrun))
      && (index < |w.locals| && |w.stack| >= 1 && r.Err? ==>
            r == Err(if NoSlot(c) then FunctionStackOverflow else UsageCountOverflow))
  {
    AssignIff(c, index);
    if c.stack == [] && index < |c.layout.locals| {
      assert Count(c.stack, c.layout.locals[index]) == 0;
    }
    hide Valid, Assign, MayPreserve, NoSlot, Consume;
  }

  // ----- what an opcode costs -----

  /** The instructions an opcode emits: reads of locals and constants in the table are free, and
      an operator is preceded by a store only if the register holds some deeper operand. */
  ghost function Cost(c: Comp, op: Op): nat
    requires Valid(c)
  {
    match op
    case Const(v) => if KnownConstant(c, v) || c.maxConst < c.layout.firstDynamic then 0 else 1
    case LocalGet(_) => 0
    case LocalSet(_) => 1
    case LocalTee(_) => 1
    case Unary(_) => if RegisterAtHand(c, 1) then 1 else 2
    case Binary(_) => if RegisterAtHand(c, 2) then 1 else 2
    case Select => if RegisterAtHand(c, 3) then 1 else 2
    case Drop => 0
    case Nop => 0
  }

  /** Table slots go to constants not found there, as long as there are any. */
  ghost function NewConstants(c: Comp, op: Op): nat
    requires Valid(c)
  {
    if op.Const? && !KnownConstant(c, op.value) && c.maxConst < c.layout.firstDynamic then 1 else 0
  }

  lemma OpCosts(c: Comp, op: Op)
    requires Valid(c) && CompileOp(c, op).Ok?
    ensures var d := CompileOp(c, op).value;
      |d.code| == |c.code| + Cost(c, op) && d.maxConst == c.maxConst + NewConstants(c, op)
  {
    match op
    case Const(v) => ConstCosts(c, v);
    case LocalGet(_) =>
    case LocalSet(i) => AssignCosts(c, i);
    case LocalTee(i) => AssignCosts(c, i);
    case Unary(u) => UnaryCosts(c, u);
    case Binary(b) => BinaryCosts(c, b);
    case Select => SelectCosts(c);
    case Drop =>
    case Nop =>
  }

  lemma ConstCosts(c: Comp, v: Word)
    requires Valid(c) && CompileConst(c, v).Ok?
    ensures |CompileConst(c, v).value.code| == |c.code| + Cost(c, Const(v))
    ensures CompileConst(c, v).value.maxConst == c.maxConst + NewConstants(c, Const(v))
  {
    KnownIff(c, v, 0);
    ConstSlotIff(c);
    hide Counted, OperandsPlaced, ConstantsDense, KnownConstant, FindConstant, FirstFree, FreeDynamic;
  }

  lemma AssignCosts(c: Comp, index: nat)
    requires Valid(c) && Assign(c, index).Ok?
    ensures |Assign(c, index).value.code| == |c.code| + 1 && Assign(c, index).value.maxConst == c.maxConst
  {
    hide Counted, OperandsPlaced, ConstantsDense, FindReferenced;
  }

  lemma OperateCosts(c: Comp, n: nat, i: Instr)
    requires Valid(c) && n <= |c.stack| && (c.register == 0 || c.register > |c.stack| - n) && Operate(c, n, i).Ok?
    ensures |Operate(c, n, i).value.code| == |c.code| + 1 && Operate(c, n, i).value.maxConst == c.maxConst
  {
    hide Counted, OperandsPlaced, ConstantsDense, Consume;
  }

  lemma PreserveCosts(c: Comp)
    requires Valid(c) && PreserveRegister(c).Ok?
    ensures |PreserveRegister(c).value.code| == |c.code| + (if c.register == 0 then 0 else 1)
    ensures PreserveRegister(c).value.maxConst == c.maxConst
  {
    hide Counted, OperandsPlaced, ConstantsDense, FreeDynamic;
  }

  lemma UnaryCosts(c: Comp, op: UnOp)
    requires Valid(c) && CompileUnary(c, op).Ok?
    ensures |CompileUnary(c, op).value.code| == |c.code| + Cost(c, Unary(op)) && CompileUnary(c, op).value.maxConst == c.maxConst
  {
    hide Valid, Operate, PreserveRegister, RegisterAtHand;
    AtHandIff(c, 1);
    if InRegister(c, 0) {
      OperateCosts(c, 1, UnaryR(op));
    } else {
      PreserveCosts(c);
      var p := PreserveRegister(c).value;
      OperateCosts(p, 1, UnaryS(op, Top(p)));
    }
  }

  lemma BinaryCosts(c: Comp, op: BinOp)
    requires Valid(c) && CompileBinary(c, op).Ok?
    ensures |CompileBinary(c, op).value.code| == |c.code| + Cost(c, Binary(op)) && CompileBinary(c, op).value.maxConst == c.maxConst
  {
    hide Valid, Operate, PreserveRegister, RegisterAtHand, Commutative;
    AtHandIff(c, 2);
    var n := |c.stack|;
    if InRegister(c, 0) {
      OperateCosts(c, 2, BinaryRS(op, c.stack[n - 2]));
    } else if InRegister(c, 1) {
      OperateCosts(c, 2, if Commutative(op) then BinaryRS(op, c.stack[n - 1]) else BinarySR(op, c.stack[n - 1]));
    } else {
      PreserveCosts(c);
      var p := PreserveRegister(c).value;
      OperateCosts(p, 2, BinarySS(op, p.stack[n - 1], p.stack[n - 2]));
    }
  }

  lemma SelectCosts(c: Comp)
    requires Valid(c) && CompileSelect(c).Ok?
    ensures |CompileSelect(c).value.code| == |c.code| + Cost(c, Select) && CompileSelect(c).value.maxConst == c.maxConst
  {
    hide Valid, Operate, PreserveRegister, RegisterAtHand;
    AtHandIff(c, 3);
    if InRegister(c, 0) || InRegister(c, 1) || InRegister(c, 2) {
      OperateCosts(c, 3, SelectInstr(c));
    } else {
      PreserveCosts(c);
      OperateCosts(PreserveRegister(c).value, 3, SelectInstr(PreserveRegister(c).value));
    }
  }

  /** The instruction writes this slot. */
  predicate Writes(i: Instr, slot: nat) {
    match i
    case SetSlot(d) => d == slot
    case PreserveSetSlot(d, p) => d == slot || p == slot
    case CopySlot(d, _) => d == slot
    case PreserveCopySlot(d, _, p) => d == slot || p == slot
    case Const32(_, d) => d == slot
    case _ => false
  }

  /** The frame asked for beyond the constants ends with a slot the code writes. */
  ghost predicate FrameTight(c: Comp) {
    c.maxStackSlots <= c.layout.firstDynamic || SomeWrites(c.code, c.maxStackSlots - 1)
  }

  ghost predicate SomeWrites(code: seq<Instr>, slot: nat) {
    exists k :: 0 <= k < |code| && Writes(code[k], slot)
  }

  lemma LaterWrites(code: seq<Instr>, i: Instr, slot: nat)
    ensures SomeWrites(code, slot) || Writes(i, slot) ==> SomeWrites(code + [i], slot)
  {
    hide Writes;
    var all := code + [i];
    assert all[|code|] == i && forall k :: 0 <= k < |code| ==> all[k] == code[k];
  }

  /** One more instruction, and no slot claimed that it does not write. */
  lemma TightStep(c: Comp, d: Comp, i: Instr)
    requires FrameTight(c) && d.code == c.code + [i] && d.layout == c.layout
    requires d.maxStackSlots == c.maxStackSlots || (d.maxStackSlots > 0 && Writes(i, d.maxStackSlots - 1))
    ensures FrameTight(d)
  {
    if d.maxStackSlots > c.layout.firstDynamic { LaterWrites(c.code, i, d.maxStackSlots - 1); }
  }

  lemma PreserveTight(c: Comp)
    requires Valid(c) && PreserveRegister(c).Ok? && FrameTight(c)
    ensures FrameTight(PreserveRegister(c).value)
  {
    hide Counted, OperandsPlaced, ConstantsDense, FreeDynamic, FrameTight;
    if c.register != 0 { TightStep(c, PreserveRegister(c).value, SetSlot(FreeDynamic(c).value)); }
  }

  lemma OperateTight(c: Comp, n: nat, i: Instr)
    requires Valid(c) && n <= |c.stack| && (c.register == 0 || c.register > |c.stack| - n) && Operate(c, n, i).Ok?
    requires FrameTight(c)
    ensures FrameTight(Operate(c, n, i).value)
  {
    hide Counted, OperandsPlaced, ConstantsDense, Consume, FrameTight;
    TightStep(c, Operate(c, n, i).value, i);
  }

  lemma ConstTight(c: Comp, v: Word)
    requires Valid(c) && CompileConst(c, v).Ok? && FrameTight(c)
    ensures FrameTight(CompileConst(c, v).value)
  {
    ConstCosts(c, v);
    ConstGrows(c, v);
    hide Valid, CompileConst, FrameTight, KnownConstant;
    var d := CompileConst(c, v).value;
    if d.code != c.code { TightStep(c, d, d.code[|c.code|]); } else { SameTight(c, d); }
  }

  lemma SameTight(c: Comp, d: Comp)
    requires FrameTight(c) && d.code == c.code && d.layout == c.layout && d.maxStackSlots == c.maxStackSlots
    ensures FrameTight(d)
  {
  }

  lemma ConstGrows(c: Comp, v: Word)
    requires Valid(c) && CompileConst(c, v).Ok?
    ensures var d := CompileConst(c, v).value;
      d.layout == c.layout && (d.code == c.code ==> d.maxStackSlots == c.maxStackSlots)
      && (d.code != c.code ==>
            |d.code| > |c.code| && d.code == c.code + [d.code[|c.code|]]
            && (d.maxStackSlots == c.maxStackSlots || (d.maxStackSlots > 0 && Writes(d.code[|c.code|], d.maxStackSlots - 1))))
  {
    hide Counted, OperandsPlaced, ConstantsDense, FindConstant, FirstFree, FreeDynamic;
  }

  /** The search claims at most the slot it redirects to. */
  lemma {:induction false} SearchClaims(c: Comp, local: nat, i: nat, p: nat)
    requires Valid(c) && i <= |c.stack| && IO_SLOTS * c.layout.results <= local < c.layout.firstConst
    requires p == local || c.layout.firstDynamic <= p < c.maxStackSlots
    requires FindReferenced(c, local, i, p).Ok?
    ensures var (d, q) := FindReferenced(c, local, i, p).value;
      d.maxStackSlots == if q == p then c.maxStackSlots else Max(c.maxStackSlots, q + 1)
    ensures p != local ==> FindReferenced(c, local, i, p).value.1 == p
    decreases |c.stack| - i
  {
    hide Counted, ConstantsDense, OperandsPlaced;
    if i < |c.stack| {
      if c.stack[i] != local {
        SearchClaims(c, local, i + 1, p);
      } else if p == local {
        var s := FreeDynamic(c).value;
        SearchClaims(Redirect(c, i, s), local, i + 1, s);
      } else {
        SearchClaims(Redirect(c, i, p), local, i + 1, p);
      }
    }
  }

  lemma AssignTight(c: Comp, index: nat)
    requires Valid(c) && Assign(c, index).Ok? && FrameTight(c)
    ensures FrameTight(Assign(c, index).value)
  {
    hide Counted, ConstantsDense, OperandsPlaced, FindReferenced, FrameTight;
    var local := c.layout.locals[index];
    SearchClaims(c, local, 0, local);
    var (d, q) := FindReferenced(c, local, 0, local).value;
    TightStep(c, Assign(c, index).value, LocalCopy(d, local, q));
  }

  lemma OpTight(c: Comp, op: Op)
    requires Valid(c) && CompileOp(c, op).Ok? && FrameTight(c)
    ensures FrameTight(CompileOp(c, op).value)
  {
    hide Valid, Operate, PreserveRegister, CompileConst, Assign, Consume, FrameTight;
    match op
    case Const(v) => ConstTight(c, v);
    case LocalGet(i) => PushTight(c, i);
    case LocalSet(i) => AssignTight(c, i); PopTight(Assign(c, i).value);
    case LocalTee(i) => AssignTight(c, i);
    case Unary(u) => UnaryTight(c, u);
    case Binary(b) => BinaryTight(c, b);
    case Select => SelectTight(c);
    case Drop => PopTight(c);
    case Nop =>
  }

  lemma PushTight(c: Comp, index: nat)
    requires Valid(c) && CompileGet(c, index).Ok? && FrameTight(c)
    ensures FrameTight(CompileGet(c, index).value)
  {
  }

  lemma PopTight(c: Comp)
    requires Valid(c) && M3Compile.Pop(c).Ok? && FrameTight(c)
    ensures FrameTight(M3Compile.Pop(c).value)
  {
  }

  lemma UnaryTight(c: Comp, op: UnOp)
    requires Valid(c) && CompileUnary(c, op).Ok? && FrameTight(c)
    ensures FrameTight(CompileUnary(c, op).value)
  {
    hide Valid, Operate, PreserveRegister, FrameTight;
    AtHandIff(c, 1);
    if InRegister(c, 0) {
      OperateTight(c, 1, UnaryR(op));
    } else {
      PreserveTight(c);
      var p := PreserveRegister(c).value;
      OperateTight(p, 1, UnaryS(op, Top(p)));
    }
  }

  lemma BinaryTight(c: Comp, op: BinOp)
    requires Valid(c) && CompileBinary(c, op).Ok? && FrameTight(c)
    ensures FrameTight(CompileBinary(c, op).value)
  {
    hide Valid, Operate, PreserveRegister, FrameTight, Commutative;
    AtHandIff(c, 2);
    var n := |c.stack|;
    if InRegister(c, 0) {
      OperateTight(c, 2, BinaryRS(op, c.stack[n - 2]));
    } else if InRegister(c, 1) {
      OperateTight(c, 2, if Commutative(op) then BinaryRS(op, c.stack[n - 1]) else BinarySR(op, c.stack[n - 1]));
    } else {
      PreserveTight(c);
      var p := PreserveRegister(c).value;
      OperateTight(p, 2, BinarySS(op, p.stack[n - 1], p.stack[n - 2]));
    }
  }

  lemma SelectTight(c: Comp)
    requires Valid(c) && CompileSelect(c).Ok? && FrameTight(c)
    ensures FrameTight(CompileSelect(c).value)
  {
    hide Valid, Operate, PreserveRegister, FrameTight;
    AtHandIff(c, 3);
    if InRegister(c, 0) || InRegister(c, 1) || InRegister(c, 2) {
      OperateTight(c, 3, SelectInstr(c));
    } else {
      PreserveTight(c);
      OperateTight(PreserveRegister(c).value, 3, SelectInstr(PreserveRegister(c).value));
    }
  }

  lemma {:induction false} BodyTight(c: Comp, body: seq<Op>)
    requires Valid(c) && CompileOps(c, body).Ok? && FrameTight(c)
    ensures FrameTight(CompileOps(c, body).value)
    decreases |body|
  {
    hide Valid, CompileOp, FrameTight;
    if body != [] {
      BodyTight(c, body[..|body| - 1]);
      OpTight(CompileOps(c, body[..|body| - 1]).value, body[|body| - 1]);
    }
  }

  lemma {:induction false} CopiesTight(c: Comp, k: nat)
    requires k <= |c.stack| && FrameTight(c)
    ensures FrameTight(CopyResults(c, k))
    decreases k
  {
    hide FrameTight;
    if k > 0 {
      var i := CopyTo(IO_SLOTS * (k - 1), c.stack[k - 1]);
      TightStep(c, Emit(c, i), i);
      CopiesTight(Emit(c, i), k - 1);
    }
  }

  /** A function asks op_Entry for no more slots than its layout and what its code writes. */
  lemma FunctionTight(sig: Signature, reserved: nat, body: seq<Op>)
    requires reserved <= MAX_CONSTANTS && CompileFunction(sig, reserved, body).Ok?
    ensures var fn := CompileFunction(sig, reserved, body).value;
      fn.maxStackSlots <= 2 * (sig.results + sig.args) + sig.locals + reserved || SomeWrites(fn.code, fn.maxStackSlots - 1)
  {
    hide Valid, CompileOps, CopyResults, Consume, InitialSlots, SomeWrites;
    var c := Begin(sig, reserved).value;
    var d := CompileOps(c, body).value;
    BodyTight(c, body);
    CopiesTight(d, |d.stack|);
    var kept := CopyResults(d, |d.stack|);
    TightStep(kept, Emit(kept, Return), Return);
  }

  // ----- whole bodies -----

  /** The body stays inside every limit of the compiler: an operand stack of `height`. */
  predicate Fits(sig: Signature, reserved: nat, body: seq<Op>, height: nat) {
    && height <= 255
    && sig.args + sig.locals + height <= 2000
    && 2 * (sig.results + sig.args) + sig.locals + reserved + height < 4000
    && forall k :: 0 <= k <= |body| ==> Height(body[..k]) <= height
  }

  lemma BeginIff(sig: Signature, reserved: nat)
    requires reserved <= MAX_CONSTANTS
    ensures Begin(sig, reserved).Ok? <==>
      sig.args + sig.locals <= 2000 && 2 * (sig.results + sig.args) + sig.locals + reserved < 4000
    ensures Begin(sig, reserved).Err? ==> Begin(sig, reserved) == Err(FunctionStackOverflow)
  {
  }

  lemma {:induction false} CountBound(stack: seq<nat>, slot: nat)
    ensures Count(stack, slot) <= |stack|
  {
    if stack != [] { CountBound(stack[..|stack| - 1], slot); }
  }

  lemma RoomWithin(c: Comp, op: Op, height: nat)
    requires Valid(c) && height <= 255 && |c.layout.locals| + height <= 2000 && c.layout.firstDynamic + height < 4000
    requires |c.stack| <= height && |c.stack| + Effect(op) <= height
    ensures Roomy(c, op)
  {
    SlotLeft(c);
    hide Valid, NoSlot, RegisterAtHand, KnownConstant;
    match op
    case LocalSet(i) => if i < |c.layout.locals| { CountBound(c.stack, c.layout.locals[i]); }
    case LocalTee(i) => if i < |c.layout.locals| { CountBound(c.stack, c.layout.locals[i]); }
    case _ =>
  }

  /** Within the limits a body is compiled as far as it is not stuck. */
  lemma {:induction false} BodyCompilesIff(c: Comp, body: seq<Op>, w: Config, height: nat)
    requires Valid(c) && c.stack == [] && w.Config? && |w.locals| == |c.layout.locals| && w.stack == []
    requires height <= 255 && |c.layout.locals| + height <= 2000 && c.layout.firstDynamic + height < 4000
    requires TeesFed(body) && forall k :: 0 <= k <= |body| ==> Height(body[..k]) <= height
    ensures CompileOps(c, body).Ok? <==> Run(TOTAL, body, w) != Stuck
    decreases |body|
  {
    if body != [] {
      var n := |body| - 1;
      var pre := body[..n];
      TeesFedPrefix(body, n);
      assert forall k :: 0 <= k <= n ==> pre[..k] == body[..k];
      hide Valid, CompileOp;
      BodyCompilesIff(c, pre, w, height);
      if CompileOps(c, pre).Ok? {
        var d := CompileOps(c, pre).value;
        BodyTracks(TOTAL, c, pre, w);
        TotalNeverTraps(pre, w);
        BodyHeight(c, pre);
        assert pre[..n] == pre && body[..|body|] == body;
        OpCompilesWithin(c, d, body[n], Run(TOTAL, pre, w), height, Height(pre));
      }
    }
  }

  lemma OpCompilesWithin(c: Comp, d: Comp, op: Op, w: Config, height: nat, now: int)
    requires Valid(d) && d.layout == c.layout && w.Config? && Tracks(d, w) && |d.stack| == now
    requires height <= 255 && |c.layout.locals| + height <= 2000 && c.layout.firstDynamic + height < 4000
    requires now <= height && now + Effect(op) <= height && (op.LocalTee? ==> now >= 1)
    ensures CompileOp(d, op).Ok? <==> Eval(TOTAL, op, w) != Stuck
  {
    hide Valid, CompileOp, Roomy;
    RoomWithin(d, op, height);
    CompilesIff(d, op, w);
  }

  /** Within the limits, and with its tees fed, a function compiles if and only if its body
      runs through and ends with as many operands as the signature has results. */
  lemma FunctionCompilesIff(sig: Signature, reserved: nat, body: seq<Op>, locals: seq<Word>, height: nat)
    requires reserved <= MAX_CONSTANTS && |locals| == sig.args + sig.locals
    requires TeesFed(body) && Fits(sig, reserved, body, height)
    ensures CompileFunction(sig, reserved, body).Ok? <==>
      match Run(TOTAL, body, Config(locals, []))
      case Config(_, stack) => |stack| == sig.results
      case _ => false
  {
    BeginIff(sig, reserved);
    var c := Begin(sig, reserved).value;
    var w := Config(locals, []);
    assert c.stack == [] && |c.layout.locals| == |locals|;
    assert c.layout.firstDynamic == 2 * (sig.results + sig.args) + sig.locals + reserved && c.layout.results == sig.results;
    hide Begin, CompileOps, Valid, Run;
    BodyCompilesIff(c, body, w, height);
    TotalNeverTraps(body, w);
    if CompileOps(c, body).Ok? {
      BodyTracks(TOTAL, c, body, w);
    }
  }

  /** Two constants and an addition: the smallest body with an operator of two operands. */
  lemma AdditionCompiles(a: Word, b: Word)
    ensures CompileFunction(Signature(1, 0, 0), 2, [Const(a), Const(b), Binary(Add)]).Ok?
  {
    var body := [Const(a), Const(b), Binary(Add)];
    assert body[..2] == [Const(a), Const(b)] && body[..1] == [Const(a)] && body[..0] == [];
    assert [Const(a), Const(b)][..1] == [Const(a)] && [Const(a)][..0] == [];
    assert Height([]) == 0 && Height([Const(a)]) == 1 && Height([Const(a), Const(b)]) == 2 && Height(body) == 1;
    assert body[..3] == body;
    assert forall k :: 0 <= k <= 3 ==> Height(body[..k]) <= 2;
    var w := Config([], []);
    assert Run(TOTAL, [Const(a)], w) == Config([], [a]);
    assert Run(TOTAL, [Const(a), Const(b)], w) == Config([], [a] + [b]);
    assert Run(TOTAL, body, w) == Config([], [] + [a]);
    hide Run, Height;
    FunctionCompilesIff(Signature(1, 0, 0), 2, body, [], 2);
  }
}
