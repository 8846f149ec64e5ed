/**
 The wasm3 one-pass compiler on one-slot i32 code (kernel/lib/wasm3/m3_compile.c), as
 functions on the compilation record. `M3Compilation` is the same compiler in its own
 imperative form, proved equal to these functions.
 */
module M3Compile {
  import opened Words
  import opened Basics
  import opened M3Machine
  import opened WasmSemantics

  const MAX_STACK_HEIGHT: nat := 2000   // d_m3MaxFunctionStackHeight
  const MAX_SLOTS: nat := 4000          // d_m3MaxFunctionSlots
  const MAX_CONSTANTS: nat := 120       // d_m3MaxConstantTableSize
  const MAX_USAGE: nat := 255           // a slot's usage count is a byte
  const REG: nat := 60000               // d_m3Reg0SlotAlias
  const IO_SLOTS: nat := 2              // c_ioSlotCount: arguments and results are 64-bit aligned

  datatype Error =
    | FunctionStackOverflow
    | FunctionStackUnderrun
    | UsageCountOverflow
    | LocalOutOfBounds
    | TypeCountMismatch

  /** Where a function's frame puts things, fixed before the first opcode: return slots at 0,
      the slot of each argument and local, reserved constants from `firstConst`, and dynamic
      slots from `firstDynamic`. */
  datatype Layout = Layout(results: nat, locals: seq<nat>, firstConst: nat, firstDynamic: nat)

  /** The rest of the M3Compilation record that i32 code reads or writes. `stack` is the part
      of wasmStack above the locals: for each operand its slot, or REG. `register` is the index
      in `stack` of the operand held by `_r0` plus one, or 0. `slots` is m3Slots. */
  datatype Comp = Comp(
    layout: Layout,
    stack: seq<nat>,
    slots: seq<nat>,
    register: nat,
    maxConst: nat,
    constants: seq<Word>,
    maxStackSlots: nat,
    code: seq<Instr>)

  type CompResult = Result<Comp, Error>

  function Max(a: nat, b: nat): nat { if a < b then b else a }

  // ----- what holds between any two opcodes -----

  /** Arguments and locals own distinct slots between the return slots and the constants. */
  ghost predicate LayoutOk(l: Layout) {
    && IO_SLOTS * l.results <= l.firstConst <= l.firstDynamic < MAX_SLOTS
    && l.firstDynamic <= l.firstConst + MAX_CONSTANTS
    && (forall i :: 0 <= i < |l.locals| ==> IO_SLOTS * l.results <= l.locals[i] < l.firstConst)
    && (forall i, j :: 0 <= i < j < |l.locals| ==> l.locals[i] != l.locals[j])
  }

  ghost predicate Sized(c: Comp) {
    && LayoutOk(c.layout)
    && |c.slots| == MAX_SLOTS
    && |c.constants| == MAX_CONSTANTS
    && c.layout.firstConst <= c.maxConst <= c.layout.firstDynamic <= c.maxStackSlots <= MAX_SLOTS
    && |c.layout.locals| + |c.stack| <= MAX_STACK_HEIGHT
  }

  /** A slot an operand may name: a local's, a constant's, or a dynamic one in use. */
  ghost predicate Placed(l: Layout, maxConst: nat, maxStackSlots: nat, slot: nat) {
    || IO_SLOTS * l.results <= slot < maxConst
    || l.firstDynamic <= slot < maxStackSlots
  }

  ghost predicate OperandsPlaced(c: Comp) {
    forall i :: 0 <= i < |c.stack| ==>
      if c.stack[i] >= REG then c.stack[i] == REG && c.register == i + 1
      else Placed(c.layout, c.maxConst, c.maxStackSlots, c.stack[i])
  }

  /** At most one operand owns the register, and it is the recorded one. */
  ghost predicate RegisterOwned(c: Comp) {
    c.register != 0 ==> c.register <= |c.stack| && c.stack[c.register - 1] == REG
  }

  /** How many operands name a slot. */
  ghost function Count(stack: seq<nat>, slot: nat): nat {
    if stack == [] then 0
    else Count(stack[..|stack| - 1], slot) + if stack[|stack| - 1] == slot then 1 else 0
  }

  /** A dynamic slot's usage count is the number of operands naming it. */
  ghost predicate Counted(l: Layout, slots: seq<nat>, stack: seq<nat>) {
    && |slots| == MAX_SLOTS
    && forall s :: l.firstDynamic <= s < MAX_SLOTS ==> slots[s] == Count(stack, s) <= MAX_USAGE
  }

  ghost predicate ConstantsDense(l: Layout, slots: seq<nat>, maxConst: nat) {
    && |slots| == MAX_SLOTS
    && maxConst <= l.firstDynamic <= MAX_SLOTS
    && (forall s :: l.firstConst <= s < maxConst ==> slots[s] > 0)
    && (forall s :: maxConst <= s < l.firstDynamic ==> slots[s] == 0)
  }

  ghost predicate Valid(c: Comp) {
    && Sized(c)
    && OperandsPlaced(c)
    && RegisterOwned(c)
    && Counted(c.layout, c.slots, c.stack)
    && ConstantsDense(c.layout, c.slots, c.maxConst)
  }

  /** The layout is fixed and the function's needs only grow. */
  ghost predicate Grows(c: Comp, d: Comp) {
    c.layout == d.layout && c.maxConst <= d.maxConst && c.maxStackSlots <= d.maxStackSlots
  }

  /** What compiling one more opcode never takes back: constants and code. */
  ghost predicate Extends(c: Comp, d: Comp) {
    && Grows(c, d)
    && c.layout.firstConst <= c.maxConst && c.maxConst - c.layout.firstConst <= |c.constants| == |d.constants|
    && (forall k :: 0 <= k < c.maxConst - c.layout.firstConst ==> c.constants[k] == d.constants[k])
    && c.code <= d.code
  }

  // ----- slots -----

  /** The search loop of AllocateSlotsWithinRange: the first slot of count zero. */
  function FirstFree(slots: seq<nat>, lo: nat, hi: nat): (r: Option<nat>)
    requires hi <= |slots|
    ensures r.Some? ==> lo <= r.value < hi && slots[r.value] == 0
    ensures r.Some? ==> forall s :: lo <= s < r.value ==> slots[s] != 0
    ensures r.None? ==> forall s :: lo <= s < hi ==> slots[s] != 0
    decreases hi - lo
  {
    if lo >= hi then None
    else if slots[lo] == 0 then Some(lo)
    else FirstFree(slots, lo + 1, hi)
  }

  function FreeDynamic(c: Comp): Option<nat>
    requires |c.slots| == MAX_SLOTS
  {
    FirstFree(c.slots, c.layout.firstDynamic, MAX_SLOTS)
  }

  function Emit(c: Comp, i: Instr): Comp {
    c.(code := c.code + [i])
  }

  // ----- counting stack entries -----

  lemma CountSnoc(stack: seq<nat>, a: nat, slot: nat)
    ensures Count(stack + [a], slot) == Count(stack, slot) + if a == slot then 1 else 0
  {
    assert (stack + [a])[..|stack|] == stack;
  }

  lemma {:induction false} CountUpdate(stack: seq<nat>, i: nat, a: nat, slot: nat)
    requires i < |stack|
    ensures Count(stack[i := a], slot) + (if stack[i] == slot then 1 else 0)
         == Count(stack, slot) + if a == slot then 1 else 0
  {
    var n := |stack| - 1;
    if i == n {
      assert stack[i := a][..n] == stack[..n];
    } else {
      assert stack[i := a][..n] == stack[..n][i := a];
      CountUpdate(stack[..n], i, a, slot);
    }
  }

  lemma {:induction false} CountZero(stack: seq<nat>, slot: nat)
    ensures Count(stack, slot) == 0 <==> forall i :: 0 <= i < |stack| ==> stack[i] != slot
  {
    if stack != [] {
      var n := |stack| - 1;
      CountZero(stack[..n], slot);
      assert forall i :: 0 <= i < n ==> stack[..n][i] == stack[i];
    }
  }

  /** A fresh slot named by one more operand keeps the counts. */
  lemma CountedSnoc(l: Layout, slots: seq<nat>, stack: seq<nat>, slot: nat)
    requires Counted(l, slots, stack)
    requires l.firstDynamic <= slot < MAX_SLOTS ==> slots[slot] == 0
    ensures Counted(l, if l.firstDynamic <= slot < MAX_SLOTS then slots[slot := 1] else slots, stack + [slot])
  {
    forall s | l.firstDynamic <= s < MAX_SLOTS
      ensures Count(stack + [slot], s) == slots[s] + if s == slot then 1 else 0
    {
      CountSnoc(stack, slot, s);
    }
  }

  lemma CountedPop(l: Layout, slots: seq<nat>, stack: seq<nat>, slot: nat)
    requires Counted(l, slots, stack + [slot])
    ensures l.firstDynamic <= slot < MAX_SLOTS ==> slots[slot] > 0
    ensures Counted(l, if l.firstDynamic <= slot < MAX_SLOTS then slots[slot := slots[slot] - 1] else slots, stack)
  {
    forall s | l.firstDynamic <= s < MAX_SLOTS
      ensures slots[s] == Count(stack, s) + if s == slot then 1 else 0
    {
      CountSnoc(stack, slot, s);
    }
  }

  /** So does naming it instead of the register or a local. */
  lemma CountedUpdate(l: Layout, slots: seq<nat>, stack: seq<nat>, i: nat, slot: nat)
    requires Counted(l, slots, stack) && i < |stack|
    requires !(l.firstDynamic <= stack[i] < MAX_SLOTS)
    requires l.firstDynamic <= slot < MAX_SLOTS && slots[slot] < MAX_USAGE
    ensures Counted(l, slots[slot := slots[slot] + 1], stack[i := slot])
  {
    hide Count;
    var after, now := slots[slot := slots[slot] + 1], stack[i := slot];
    forall s | l.firstDynamic <= s < MAX_SLOTS ensures after[s] == Count(now, s) {
      CountUpdate(stack, i, slot, s);
    }
    assert Counted(l, after, now);
  }

  // ----- operand stack -----

  function Push(c: Comp, slot: nat): (r: CompResult)
    requires Valid(c)
    requires if slot >= REG then slot == REG && c.register == 0
             else IO_SLOTS * c.layout.results <= slot < c.maxConst
    ensures r.Ok? ==> Valid(r.value) && Grows(c, r.value)
  {
    if |c.layout.locals| + |c.stack| < MAX_STACK_HEIGHT then
      CountedSnoc(c.layout, c.slots, c.stack, slot);
      Ok(c.(stack := c.stack + [slot], register := if slot >= REG then |c.stack| + 1 else c.register))
    else Err(FunctionStackOverflow)
  }

  /** Pop on a nonempty operand stack. */
  function PopTop(c: Comp): (d: Comp)
    requires Valid(c) && c.stack != []
    ensures Valid(d) && Grows(c, d)
  {
    var top := |c.stack| - 1;
    var slot := c.stack[top];
    assert c.stack == c.stack[..top] + [slot];
    CountedPop(c.layout, c.slots, c.stack[..top], slot);
    if slot >= REG then c.(stack := c.stack[..top], register := 0)
    else if slot >= c.layout.firstDynamic then
      c.(stack := c.stack[..top], slots := c.slots[slot := c.slots[slot] - 1])
    else c.(stack := c.stack[..top])
  }

  /** `n` Pops in a row. */
  function Consume(c: Comp, n: nat): (d: Comp)
    requires Valid(c) && n <= |c.stack|
    ensures Valid(d) && Grows(c, d)
    ensures d.stack == c.stack[..|c.stack| - n]
    ensures d.register == if c.register <= |d.stack| then c.register else 0
    ensures d.code == c.code && d.maxConst == c.maxConst && d.constants == c.constants
    ensures d.maxStackSlots == c.maxStackSlots
    decreases n
  {
    if n == 0 then c else Consume(PopTop(c), n - 1)
  }

  function Pop(c: Comp): CompResult
    requires Valid(c)
  {
    if c.stack != [] then Ok(Consume(c, 1)) else Err(FunctionStackUnderrun)
  }

  function PushAllocated(c: Comp): (r: CompResult)
    requires Valid(c)
    ensures r.Ok? ==> Valid(r.value) && Grows(c, r.value) && |r.value.stack| == |c.stack| + 1
  {
    match FreeDynamic(c)
    case None => Err(FunctionStackOverflow)
    case Some(s) =>
      if |c.layout.locals| + |c.stack| < MAX_STACK_HEIGHT then
        CountedSnoc(c.layout, c.slots, c.stack, s);
        Ok(c.(stack := c.stack + [s], slots := c.slots[s := 1], maxStackSlots := Max(c.maxStackSlots, s + 1)))
      else Err(FunctionStackOverflow)
  }

  /** PreserveRegisterIfOccupied: move the register's owner to a fresh slot. */
  function PreserveRegister(c: Comp): (r: CompResult)
    requires Valid(c)
    ensures r.Ok? ==> Valid(r.value) && Grows(c, r.value)
    ensures r.Ok? ==> r.value.register == 0 && |r.value.stack| == |c.stack|
  {
    if c.register == 0 then Ok(c)
    else
      match FreeDynamic(c)
      case None => Err(FunctionStackOverflow)
      case Some(s) =>
        CountedUpdate(c.layout, c.slots, c.stack, c.register - 1, s);
        Ok(c.(stack := c.stack[c.register - 1 := s], slots := c.slots[s := 1], register := 0,
              maxStackSlots := Max(c.maxStackSlots, s + 1), code := c.code + [SetSlot(s)]))
  }

  // ----- opcodes -----

  predicate InRegister(c: Comp, depth: nat) {
    depth < |c.stack| && c.stack[|c.stack| - 1 - depth] >= REG
  }

  function Top(c: Comp): nat
    requires c.stack != []
  {
    c.stack[|c.stack| - 1]
  }

  /** The search for an equal constant. A constant with the sign bit set is never found: the
      32-bit table entry is compared with the sign-extended 64-bit word. */
  function FindConstant(c: Comp, v: Word, k: nat): (r: Option<nat>)
    requires |c.slots| == MAX_SLOTS && |c.constants| == MAX_CONSTANTS
    requires c.maxConst <= c.layout.firstConst + MAX_CONSTANTS && c.maxConst <= MAX_SLOTS
    requires c.layout.firstConst <= c.maxConst
    ensures r.Some? ==>
      c.layout.firstConst <= r.value < c.maxConst && c.constants[r.value - c.layout.firstConst] == v
    decreases c.maxConst - c.layout.firstConst - k
  {
    if k >= c.maxConst - c.layout.firstConst then None
    else if c.slots[c.layout.firstConst + k] > 0 && c.constants[k] == v && v < 0x8000_0000 then
      Some(c.layout.firstConst + k)
    else FindConstant(c, v, k + 1)
  }

  /** Constants fill their reserved slots from the bottom. */
  lemma {:induction false} FreeConstant(slots: seq<nat>, lo: nat, mid: nat, hi: nat)
    requires lo <= mid <= hi <= |slots|
    requires forall s :: lo <= s < mid ==> slots[s] > 0
    requires forall s :: mid <= s < hi ==> slots[s] == 0
    ensures FirstFree(slots, lo, hi) == if mid < hi then Some(mid) else None
    decreases mid - lo
  {
    if lo < mid {
      FreeConstant(slots, lo + 1, mid, hi);
    }
  }

  /** Record a constant in the table slot the allocator found. */
  function AddConstant(c: Comp, v: Word, s: nat): (d: Comp)
    requires Valid(c) && FirstFree(c.slots, c.layout.firstConst, c.layout.firstDynamic) == Some(s)
    ensures Valid(d) && Grows(c, d) && s == c.maxConst && d.maxConst == s + 1 && d.stack == c.stack
  {
    FreeConstant(c.slots, c.layout.firstConst, c.maxConst, c.layout.firstDynamic);
    c.(slots := c.slots[s := 1], constants := c.constants[s - c.layout.firstConst := v], maxConst := s + 1)
  }

  function CompileConst(c: Comp, v: Word): (r: CompResult)
    requires Valid(c)
    ensures r.Ok? ==> Valid(r.value) && Grows(c, r.value) && |r.value.stack| == |c.stack| + 1
  {
    hide AddConstant, InlineConst;
    match FindConstant(c, v, 0)
    case Some(s) => Push(c, s)
    case None =>
      match FirstFree(c.slots, c.layout.firstConst, c.layout.firstDynamic)
      case Some(s) => Push(AddConstant(c, v, s), s)
      case None => InlineConst(c, v)
  }

  /** No table space left: op_Const32 writes the constant to a fresh slot. */
  function InlineConst(c: Comp, v: Word): (r: CompResult)
    requires Valid(c)
    ensures r.Ok? ==> Valid(r.value) && Grows(c, r.value) && |r.value.stack| == |c.stack| + 1
  {
    var d :- PushAllocated(c);
    Ok(Emit(d, Const32(v, Top(d))))
  }

  function CompileGet(c: Comp, index: nat): (r: CompResult)
    requires Valid(c)
    ensures r.Ok? ==> Valid(r.value) && Grows(c, r.value) && |r.value.stack| == |c.stack| + 1
  {
    if index >= |c.layout.locals| then Err(LocalOutOfBounds) else Push(c, c.layout.locals[index])
  }

  /** FindReferencedLocalWithinCurrentBlock from operand `i` on: every operand naming the
      local's slot is redirected to one fresh slot `p`; `p == local` while none was found. */
  function FindReferenced(c: Comp, local: nat, i: nat, p: nat): (r: Result<(Comp, nat), Error>)
    requires Valid(c) && i <= |c.stack| && IO_SLOTS * c.layout.results <= local < c.layout.firstConst
    requires p == local || c.layout.firstDynamic <= p < c.maxStackSlots
    ensures r.Ok? ==> Valid(r.value.0) && Grows(c, r.value.0)
    ensures r.Ok? ==> |r.value.0.stack| == |c.stack| && r.value.0.code == c.code
    ensures r.Ok? ==> r.value.0.constants == c.constants && r.value.0.maxConst == c.maxConst
    ensures r.Ok? ==> r.value.1 == local || c.layout.firstDynamic <= r.value.1 < r.value.0.maxStackSlots
    decreases |c.stack| - i
  {
    if i == |c.stack| then Ok((c, p))
    else if c.stack[i] != local then FindReferenced(c, local, i + 1, p)
    else if p == local then
      match FreeDynamic(c)
      case None => Err(FunctionStackOverflow)
      case Some(s) => FindReferenced(Redirect(c, i, s), local, i + 1, s)
    else if c.slots[p] < MAX_USAGE then FindReferenced(Redirect(c, i, p), local, i + 1, p)
    else Err(UsageCountOverflow)
  }

  /** Operand `i` names dynamic slot `s` from now on. */
  function Redirect(c: Comp, i: nat, s: nat): (d: Comp)
    requires Valid(c) && i < |c.stack| && c.stack[i] < c.layout.firstConst
    requires c.layout.firstDynamic <= s < MAX_SLOTS && c.slots[s] < MAX_USAGE
    ensures Valid(d) && Grows(c, d) && s < d.maxStackSlots && |d.stack| == |c.stack|
  {
    CountedUpdate(c.layout, c.slots, c.stack, i, s);
    c.(stack := c.stack[i := s], slots := c.slots[s := c.slots[s] + 1],
       maxStackSlots := Max(c.maxStackSlots, s + 1))
  }

  /** The record a copy reads from: with no operand left it is the last local's. */
  function TopRecord(c: Comp): nat
    requires c.layout.locals != []
  {
    if c.stack != [] then Top(c) else c.layout.locals[|c.layout.locals| - 1]
  }

  /** Compile_SetLocal up to its final Pop. */
  function Assign(c: Comp, index: nat): (r: CompResult)
    requires Valid(c)
    ensures r.Ok? ==> Valid(r.value) && Grows(c, r.value) && |r.value.stack| == |c.stack|
  {
    if index >= |c.layout.locals| then Err(LocalOutOfBounds)
    else
      var local := c.layout.locals[index];
      var (d, p) :- FindReferenced(c, local, 0, local);
      Ok(Emit(d, LocalCopy(d, local, p)))
  }

  /** CopyStackTopToSlot, or PreservedCopyTopSlot when the old value is still wanted. */
  function LocalCopy(d: Comp, local: nat, p: nat): Instr
    requires d.layout.locals != []
  {
    if p == local then
      if InRegister(d, 0) then SetSlot(local) else CopySlot(local, TopRecord(d))
    else
      if InRegister(d, 0) then PreserveSetSlot(local, p) else PreserveCopySlot(local, TopRecord(d), p)
  }

  /** The end of every operator: consume `n` operands, emit, push the register. */
  function Operate(c: Comp, n: nat, instr: Instr): (r: CompResult)
    requires Valid(c) && n <= |c.stack| && (c.register == 0 || c.register > |c.stack| - n)
    ensures r.Ok? ==> Valid(r.value) && Grows(c, r.value) && |r.value.stack| == |c.stack| - n + 1
  {
    Push(Emit(Consume(c, n), instr), REG)
  }

  function CompileUnary(c: Comp, op: UnOp): (r: CompResult)
    requires Valid(c)
    ensures r.Ok? ==> Valid(r.value) && Grows(c, r.value) && |r.value.stack| == |c.stack|
  {
    hide Operate, PreserveRegister;
    if c.stack == [] then Err(FunctionStackUnderrun)
    else if InRegister(c, 0) then Operate(c, 1, UnaryR(op))
    else
      var p :- PreserveRegister(c);
      Operate(p, 1, UnaryS(op, Top(p)))
  }

  function CompileBinary(c: Comp, op: BinOp): (r: CompResult)
    requires Valid(c)
    ensures r.Ok? ==> Valid(r.value) && Grows(c, r.value) && |r.value.stack| == |c.stack| - 1
  {
    hide Operate, PreserveRegister;
    var n := |c.stack|;
    if n < 2 then Err(FunctionStackUnderrun)
    else if InRegister(c, 0) then Operate(c, 2, BinaryRS(op, c.stack[n - 2]))
    else if InRegister(c, 1) then
      // the operator table has no _sr form for commutative operators
      Operate(c, 2, if Commutative(op) then BinaryRS(op, c.stack[n - 1]) else BinarySR(op, c.stack[n - 1]))
    else
      var p :- PreserveRegister(c);
      Operate(p, 2, BinarySS(op, p.stack[n - 1], p.stack[n - 2]))
  }

  function CompileSelect(c: Comp): (r: CompResult)
    requires Valid(c)
    ensures r.Ok? ==> Valid(r.value) && Grows(c, r.value) && |r.value.stack| == |c.stack| - 2
  {
    hide Operate, PreserveRegister;
    if |c.stack| < 3 then Err(FunctionStackUnderrun)
    else if InRegister(c, 0) || InRegister(c, 1) || InRegister(c, 2) then Operate(c, 3, SelectInstr(c))
    else
      var p :- PreserveRegister(c);
      Operate(p, 3, SelectInstr(p))
  }

  function SelectInstr(p: Comp): Instr
    requires |p.stack| >= 3
  {
    var n := |p.stack|;
    var (cond, second, first) := (p.stack[n - 1], p.stack[n - 2], p.stack[n - 3]);
    if InRegister(p, 0) then SelectRSS(second, first)
    else if InRegister(p, 1) then SelectSRS(cond, first)
    else if InRegister(p, 2) then SelectSSR(cond, second)
    else SelectSSS(cond, second, first)
  }

  function CompileOp(c: Comp, op: Op): (r: CompResult)
    requires Valid(c)
    ensures r.Ok? ==> Valid(r.value) && Grows(c, r.value)
  {
    match op
    case Const(v) => CompileConst(c, v)
    case LocalGet(i) => CompileGet(c, i)
    case LocalSet(i) => var d :- Assign(c, i); Pop(d)
    case LocalTee(i) => Assign(c, i)
    case Unary(u) => CompileUnary(c, u)
    case Binary(b) => CompileBinary(c, b)
    case Select => CompileSelect(c)
    case Drop => Pop(c)
    case Nop => Ok(c)
  }

  /** CompileBlockStatements up to the function's `end`. */
  function CompileOps(c: Comp, body: seq<Op>): (r: CompResult)
    requires Valid(c)
    ensures r.Ok? ==> Valid(r.value) && Grows(c, r.value)
  {
    if body == [] then Ok(c)
    else
      var d :- CompileOps(c, body[..|body| - 1]);
      CompileOp(d, body[|body| - 1])
  }

  // ----- the function's end -----

  /** CopyStackIndexToSlot. */
  function CopyTo(dst: nat, record: nat): Instr {
    if record >= REG then SetSlot(dst) else CopySlot(dst, record)
  }

  /** The copy loop of ReturnValues: results `k - 1` down to 0, each to its own return slot. */
  function CopyResults(c: Comp, k: nat): (d: Comp)
    requires k <= |c.stack|
    ensures d == c.(code := d.code) && c.code <= d.code
    decreases k
  {
    if k == 0 then c
    else CopyResults(Emit(c, CopyTo(IO_SLOTS * (k - 1), c.stack[k - 1])), k - 1)
  }

  /** Compile_End at function level. */
  function CompileEnd(c: Comp): (r: CompResult)
    requires Valid(c)
    ensures r.Ok? ==> Valid(r.value) && Grows(c, r.value)
  {
    if |c.stack| != c.layout.results then Err(TypeCountMismatch)
    else Ok(Emit(Consume(CopyResults(c, |c.stack|), |c.stack|), Return))
  }

  // ----- whole functions -----

  /** An i32 signature with its local count. The parser bounds arguments and results
      (d_m3MaxSaneFunctionArgRetCount). */
  datatype Signature = Signature(results: nat, args: nat, locals: nat)

  const MAX_ARGS_RETS: nat := 1000

  /** What CompileFunction leaves in the M3Function record. */
  datatype Function = Function(
    code: seq<Instr>,
    maxStackSlots: nat,
    numRetAndArgSlots: nat,
    numLocals: nat,
    constants: seq<Word>)

  function FirstLocal(sig: Signature): nat {
    IO_SLOTS * (sig.results + sig.args)
  }

  function LocalSlot(sig: Signature, i: nat): nat {
    if i < sig.args then IO_SLOTS * (sig.results + i) else FirstLocal(sig) + (i - sig.args)
  }

  function FrameLayout(sig: Signature, reserved: nat): Layout {
    var firstConst := FirstLocal(sig) + sig.locals;
    Layout(sig.results, seq(sig.args + sig.locals, i requires 0 <= i => LocalSlot(sig, i)),
           firstConst, firstConst + reserved)
  }

  /** Usage counts after the return slots, arguments and locals are laid out. */
  function InitialSlots(sig: Signature): seq<nat> {
    seq(MAX_SLOTS, s =>
      if s < IO_SLOTS * sig.results || (s < FirstLocal(sig) && s % IO_SLOTS == 0)
         || FirstLocal(sig) <= s < FirstLocal(sig) + sig.locals
      then 1 else 0)
  }

  /** The state in which the first opcode is compiled; `reserved` is the number of constant
      slots ReserveConstants set aside. */
  function Begin(sig: Signature, reserved: nat): (r: CompResult)
    requires reserved <= MAX_CONSTANTS
    ensures r.Ok? ==> Valid(r.value)
  {
    var l := FrameLayout(sig, reserved);
    if sig.args + sig.locals > MAX_STACK_HEIGHT || l.firstDynamic >= MAX_SLOTS then
      Err(FunctionStackOverflow)
    else
      Ok(Comp(l, [], InitialSlots(sig), 0, l.firstConst, seq(MAX_CONSTANTS, _ => 0), l.firstDynamic, []))
  }

  function Finish(sig: Signature, c: Comp): Function
    requires Valid(c)
  {
    Function(c.code, c.maxStackSlots, FirstLocal(sig), sig.locals,
             c.constants[..c.maxConst - c.layout.firstConst])
  }

  /** CompileFunction for a straight-line body closed by `end`. */
  function CompileFunction(sig: Signature, reserved: nat, body: seq<Op>): Result<Function, Error>
    requires reserved <= MAX_CONSTANTS
  {
    var c :- Begin(sig, reserved);
    var d :- CompileOps(c, body);
    var e :- CompileEnd(d);
    Ok(Finish(sig, e))
  }

  // ----- running a compiled function -----

  /** op_Entry: clear the locals, copy the constants in, clear the register. */
  function Enter(fn: Function, frame: seq<Word>): State
    requires fn.numRetAndArgSlots + fn.numLocals + |fn.constants| <= |frame|
  {
    var firstConst := fn.numRetAndArgSlots + fn.numLocals;
    Running(seq(|frame|, s requires 0 <= s < |frame| =>
              if fn.numRetAndArgSlots <= s < firstConst then 0
              else if firstConst <= s < firstConst + |fn.constants| then fn.constants[s - firstConst]
              else frame[s]),
            Reg(0, 0))
  }

  /** op_Entry traps when the slots it will need do not fit below the end of the stack. */
  function Call(alu: Alu, fn: Function, frame: seq<Word>): State
    requires fn.numRetAndArgSlots + fn.numLocals + |fn.constants| <= fn.maxStackSlots
  {
    if fn.maxStackSlots < |frame| then Exec(alu, fn.code, Enter(fn, frame)) else Trapped
  }
}
