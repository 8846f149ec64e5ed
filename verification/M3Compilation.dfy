/**
 The compiler in its own form: the M3Compilation record updated in place, opcode by opcode.
 Every method is proved to do what the function of `M3Compile` with the same name does.
 */
module M3Compilation {
  import opened Words
  import opened Basics
  import opened M3Machine
  import opened WasmSemantics
  import opened M3Compile

  /** A method's result code and final state are those of its specification. */
  ghost predicate Matches(r: Option<Error>, want: CompResult, now: Comp) {
    match want
    case Ok(c) => r.None? && now == c
    case Err(e) => r == Some(e)
  }

  /** What one Pop changes. */
  lemma PopShape(c: Comp)
    requires Valid(c) && c.stack != []
    ensures var slot := Top(c);
            && (slot < REG ==> slot < MAX_SLOTS && (slot >= c.layout.firstDynamic ==> c.slots[slot] > 0))
            && M3Compile.Pop(c) == Ok(c.(
                 stack := c.stack[..|c.stack| - 1],
                 register := if slot >= REG then 0 else c.register,
                 slots := if c.layout.firstDynamic <= slot < REG then c.slots[slot := c.slots[slot] - 1]
                          else c.slots))
  {
    CountedPop(c.layout, c.slots, c.stack[..|c.stack| - 1], Top(c));
    assert c.stack == c.stack[..|c.stack| - 1] + [Top(c)];
    assert M3Compile.Pop(c) == Ok(PopTop(c));
  }

  /** Validity does not depend on the code. */
  lemma CodeValid(c: Comp, d: Comp)
    requires Valid(c) && d == c.(code := d.code)
    ensures Valid(d)
  {
  }

  /** The register's owner, if among the top three operands, is popped with them. */
  lemma RegisterPopped(c: Comp)
    requires Valid(c)
    ensures |c.stack| >= 3 && (InRegister(c, 0) || InRegister(c, 1) || InRegister(c, 2)) ==> c.register > |c.stack| - 3
  {
  }

  /** What redirecting operand `i` to `q`, or failing to, makes of the search. */
  lemma FindReferencedStep(c: Comp, local: nat, i: nat, p: nat, r: Option<Error>, q: nat, d: Comp)
    requires Valid(c) && i < |c.stack| && c.stack[i] == local && IO_SLOTS * c.layout.results <= local < c.layout.firstConst
    requires p == local || c.layout.firstDynamic <= p < c.maxStackSlots
    requires p == local ==>
      match FreeDynamic(c)
      case None => r == Some(FunctionStackOverflow)
      case Some(s) => r.None? && q == s
    requires p != local ==>
      q == p && r == if p < |c.slots| && c.slots[p] < MAX_USAGE then None else Some(UsageCountOverflow)
    requires r.None? ==> c.layout.firstDynamic <= q < MAX_SLOTS && c.slots[q] < MAX_USAGE && d == Redirect(c, i, q)
    ensures match r
            case None => Valid(d) && Grows(c, d) && |d.stack| == |c.stack| && c.layout.firstDynamic <= q < d.maxStackSlots
                         && FindReferenced(c, local, i, p) == FindReferenced(d, local, i + 1, q)
            case Some(e) => FindReferenced(c, local, i, p) == Err(e)
  {
    hide Redirect, FreeDynamic, Counted, ConstantsDense, OperandsPlaced;
  }

  lemma EmitValid(c: Comp, i: Instr)
    requires Valid(c)
    ensures Valid(Emit(c, i))
  {
  }

  lemma ConsumeMore(c: Comp, n: nat)
    requires Valid(c) && 0 < n <= |c.stack|
    ensures M3Compile.Pop(c).Ok? && Consume(M3Compile.Pop(c).value, n - 1) == Consume(c, n)
  {
    assert Consume(c, 1) == PopTop(c);
  }

  /** An error in a prefix is the error of the whole. */
  lemma {:induction false} CompileOpsFails(c: Comp, body: seq<Op>, n: nat)
    requires Valid(c) && n <= |body|
    ensures CompileOps(c, body[..n]).Err? ==> CompileOps(c, body) == CompileOps(c, body[..n])
    decreases |body|
  {
    if n == |body| {
      assert body[..n] == body;
    } else {
      var pre := body[..|body| - 1];
      assert pre[..n] == body[..n];
      CompileOpsFails(c, pre, n);
    }
  }

  class Compilation {
    const results: nat
    const m3Slots: array<nat>
    const constants: array<Word>
    var wasmStack: seq<nat>
    var stackFirstDynamicIndex: nat
    var regStackIndexPlusOne: nat
    var slotFirstConstIndex: nat
    var slotMaxConstIndex: nat
    var slotFirstDynamicIndex: nat
    var maxStackSlots: nat
    var code: seq<Instr>

    ghost predicate Shaped()
      reads this
    {
      && m3Slots.Length == MAX_SLOTS && constants.Length == MAX_CONSTANTS
      && stackFirstDynamicIndex <= |wasmStack|
      && (regStackIndexPlusOne == 0 || stackFirstDynamicIndex < regStackIndexPlusOne)
    }

    ghost function State(): Comp
      requires Shaped()
      reads this, m3Slots, constants
    {
      Comp(Layout(results, wasmStack[..stackFirstDynamicIndex], slotFirstConstIndex, slotFirstDynamicIndex),
           wasmStack[stackFirstDynamicIndex..], m3Slots[..],
           if regStackIndexPlusOne == 0 then 0 else regStackIndexPlusOne - stackFirstDynamicIndex,
           slotMaxConstIndex, constants[..], maxStackSlots, code)
    }

    ghost predicate Ready()
      reads this, m3Slots, constants
    {
      Shaped() && Valid(State())
    }

    /** AllocateSlotsWithinRange: mark the first free slot of the range. */
    method AllocateWithinRange(start: nat, end: nat) returns (slot: Option<nat>)
      requires Shaped() && end <= MAX_SLOTS
      modifies this`maxStackSlots, m3Slots
      ensures Shaped() && slot == old(FirstFree(m3Slots[..], start, end))
      ensures State() == match slot
                         case None => old(State())
                         case Some(s) => old(State()).(slots := old(m3Slots[..])[s := 1],
                                                       maxStackSlots := Max(old(maxStackSlots), s + 1))
    {
      var i := start;
      while i < end
        invariant start <= i <= end || i == start
        invariant m3Slots[..] == old(m3Slots[..])
        invariant FirstFree(m3Slots[..], start, end) == FirstFree(m3Slots[..], i, end)
      {
        if m3Slots[i] == 0 {
          m3Slots[i] := 1;
          maxStackSlots := Max(maxStackSlots, i + 1);
          return Some(i);
        }
        i := i + 1;
      }
      slot := None;
    }

    method Push(slot: nat) returns (r: Option<Error>)
      requires Ready()
      requires if slot >= REG then slot == REG && State().register == 0
               else IO_SLOTS * results <= slot < slotMaxConstIndex
      modifies this`wasmStack, this`regStackIndexPlusOne
      ensures Shaped() && Matches(r, M3Compile.Push(old(State()), slot), State())
    {
      hide Valid;
      var stackIndex := |wasmStack|;
      if stackIndex >= MAX_STACK_HEIGHT {
        return Some(FunctionStackOverflow);
      }
      wasmStack := wasmStack + [slot];
      if slot >= REG {
        regStackIndexPlusOne := stackIndex + 1;
      }
      r := None;
    }

    method Pop() returns (r: Option<Error>)
      requires Ready()
      modifies this`wasmStack, this`regStackIndexPlusOne, m3Slots
      ensures Shaped() && Matches(r, M3Compile.Pop(old(State())), State())
    {
      hide Valid, Consume;
      if |wasmStack| <= stackFirstDynamicIndex {
        return Some(FunctionStackUnderrun);
      }
      PopShape(State());
      var top := |wasmStack| - 1;
      var slot := wasmStack[top];
      assert wasmStack[..top][..stackFirstDynamicIndex] == wasmStack[..stackFirstDynamicIndex];
      assert wasmStack[..top][stackFirstDynamicIndex..]
          == wasmStack[stackFirstDynamicIndex..][..top - stackFirstDynamicIndex];
      wasmStack := wasmStack[..top];
      if slot >= REG {
        regStackIndexPlusOne := 0;
      } else if slot >= slotFirstDynamicIndex {
        ghost var counts := m3Slots[..];
        m3Slots[slot] := m3Slots[slot] - 1;
        assert m3Slots[..] == counts[slot := counts[slot] - 1];
      }
      r := None;
    }

    method PushAllocatedSlot() returns (r: Option<Error>)
      requires Ready()
      modifies this`wasmStack, this`maxStackSlots, m3Slots
      ensures Shaped() && Matches(r, PushAllocated(old(State())), State())
    {
      hide Valid, FirstFree;
      var slot := AllocateWithinRange(slotFirstDynamicIndex, MAX_SLOTS);
      if slot.None? || |wasmStack| >= MAX_STACK_HEIGHT {
        return Some(FunctionStackOverflow);
      }
      wasmStack := wasmStack + [slot.value];
      r := None;
    }

    method PreserveRegisterIfOccupied() returns (r: Option<Error>)
      requires Ready()
      modifies this`wasmStack, this`regStackIndexPlusOne, this`maxStackSlots, this`code, m3Slots
      ensures Shaped() && Matches(r, PreserveRegister(old(State())), State())
    {
      if regStackIndexPlusOne == 0 {
        return None;
      }
      var stackIndex := regStackIndexPlusOne - 1;
      var slot := AllocateWithinRange(slotFirstDynamicIndex, MAX_SLOTS);
      if slot.None? {
        return Some(FunctionStackOverflow);
      }
      regStackIndexPlusOne := 0;
      wasmStack := wasmStack[stackIndex := slot.value];
      code := code + [SetSlot(slot.value)];
      r := None;
    }

    /** IncrementSlotUsageCount */
    method IncrementUsage(slot: nat) returns (r: Option<Error>)
      requires Shaped() && slot < MAX_SLOTS
      modifies m3Slots
      ensures Shaped() && r == if old(m3Slots[slot]) < MAX_USAGE then None else Some(UsageCountOverflow)
      ensures r.None? ==> State() == old(State()).(slots := old(m3Slots[..])[slot := old(m3Slots[slot]) + 1])
    {
      if m3Slots[slot] < MAX_USAGE {
        m3Slots[slot] := m3Slots[slot] + 1;
        r := None;
      } else {
        r := Some(UsageCountOverflow);
      }
    }

    /** One hit of the search below: operand `i` names the local, and must not any more. */
    method RedirectOperand(i: nat, localSlot: nat, p: nat) returns (r: Option<Error>, preserved: nat)
      requires Ready() && IO_SLOTS * results <= localSlot < slotFirstConstIndex
      requires stackFirstDynamicIndex <= i < |wasmStack| && wasmStack[i] == localSlot
      requires p == localSlot || slotFirstDynamicIndex <= p < maxStackSlots
      modifies this`wasmStack, this`maxStackSlots, m3Slots
      ensures Shaped() && |wasmStack| == old(|wasmStack|)
      ensures p == localSlot ==>
        match FreeDynamic(old(State()))
        case None => r == Some(FunctionStackOverflow)
        case Some(s) => r.None? && preserved == s
      ensures p != localSlot ==>
        preserved == p && r == if p < MAX_SLOTS && old(m3Slots[p]) < MAX_USAGE then None else Some(UsageCountOverflow)
      ensures r.None? ==> slotFirstDynamicIndex <= preserved < MAX_SLOTS && old(m3Slots[preserved]) < MAX_USAGE
      ensures r.None? ==> State() == Redirect(old(State()), i - stackFirstDynamicIndex, preserved)
    {
      hide Counted, ConstantsDense, OperandsPlaced;
      if p == localSlot {
        var slot := AllocateWithinRange(slotFirstDynamicIndex, MAX_SLOTS);
        if slot.None? {
          r, preserved := Some(FunctionStackOverflow), p;
          return;
        }
        preserved := slot.value;
      } else {
        preserved := p;
        r := IncrementUsage(preserved);
        if r.Some? {
          return;
        }
      }
      wasmStack := wasmStack[i := preserved];
      r := None;
    }

    /** FindReferencedLocalWithinCurrentBlock at function level. */
    method FindReferencedLocal(localSlot: nat) returns (r: Option<Error>, preserved: nat)
      requires Ready() && IO_SLOTS * results <= localSlot < slotFirstConstIndex
      modifies this`wasmStack, this`maxStackSlots, m3Slots
      ensures Shaped()
      ensures match FindReferenced(old(State()), localSlot, 0, localSlot)
              case Ok((c, p)) => r.None? && State() == c && preserved == p
              case Err(e) => r == Some(e)
    {
      hide Valid, FreeDynamic, Redirect;
      preserved := localSlot;
      var i := stackFirstDynamicIndex;
      while i < |wasmStack|
        invariant Ready() && stackFirstDynamicIndex <= i <= |wasmStack|
        invariant State().layout == old(State()).layout
        invariant preserved == localSlot || slotFirstDynamicIndex <= preserved < maxStackSlots
        invariant FindReferenced(old(State()), localSlot, 0, localSlot)
               == FindReferenced(State(), localSlot, i - stackFirstDynamicIndex, preserved)
        decreases |wasmStack| - i
      {
        if wasmStack[i] == localSlot {
          ghost var c, p := State(), preserved;
          r, preserved := RedirectOperand(i, localSlot, preserved);
          FindReferencedStep(c, localSlot, i - stackFirstDynamicIndex, p, r, preserved, State());
          hide FindReferenced;
          if r.Some? {
            return;
          }
        }
        i := i + 1;
      }
      r := None;
    }

    /** PushConst for i32: reuse an equal constant, else a free table slot, else inline code. */
    method PushConst(value: Word) returns (r: Option<Error>)
      requires Ready()
      modifies this, m3Slots, constants
      ensures Shaped() && Matches(r, CompileConst(old(State()), value), State())
    {
      hide Counted, ConstantsDense, AddConstant, FindConstant, InlineConst;
      var found := FindConstantSlot(value);
      if found.Some? {
        r := Push(found.value);
      } else {
        var slot := AddConstantSlot(value);
        if slot.Some? {
          r := Push(slot.value);
        } else {
          r := PushInlineConst(value);
        }
      }
    }

    method PushInlineConst(value: Word) returns (r: Option<Error>)
      requires Ready()
      modifies this`wasmStack, this`maxStackSlots, this`code, m3Slots
      ensures Shaped() && Matches(r, InlineConst(old(State()), value), State())
    {
      hide Counted, ConstantsDense, PushAllocated;
      r := PushAllocatedSlot();
      if r.None? {
        code := code + [Const32(value, wasmStack[|wasmStack| - 1])];
      }
    }

    method AddConstantSlot(value: Word) returns (slot: Option<nat>)
      requires Ready()
      modifies this`slotMaxConstIndex, this`maxStackSlots, m3Slots, constants
      ensures Shaped()
      ensures slot == old(FirstFree(m3Slots[..], slotFirstConstIndex, slotFirstDynamicIndex))
      ensures State() == match slot
                         case None => old(State())
                         case Some(s) => AddConstant(old(State()), value, s)
    {
      hide Counted, ConstantsDense, OperandsPlaced;
      slot := AllocateWithinRange(slotFirstConstIndex, slotFirstDynamicIndex);
      if slot.Some? {
        constants[slot.value - slotFirstConstIndex] := value;
        slotMaxConstIndex := slot.value + 1;
      }
    }

    /** The scan for a constant already in the table. */
    method FindConstantSlot(value: Word) returns (found: Option<nat>)
      requires Ready()
      ensures found == FindConstant(State(), value, 0)
    {
      hide Counted, ConstantsDense, OperandsPlaced;
      var i := 0;
      while i < slotMaxConstIndex - slotFirstConstIndex
        invariant 0 <= i
        invariant FindConstant(State(), value, 0) == FindConstant(State(), value, i)
      {
        var slot := slotFirstConstIndex + i;
        if m3Slots[slot] > 0 && constants[i] == value && value < 0x8000_0000 {
          return Some(slot);
        }
        i := i + 1;
      }
      found := None;
    }

    method CompileGetLocal(index: nat) returns (r: Option<Error>)
      requires Ready()
      modifies this`wasmStack, this`regStackIndexPlusOne
      ensures Shaped() && Matches(r, CompileGet(old(State()), index), State())
    {
      if index >= stackFirstDynamicIndex {
        return Some(LocalOutOfBounds);
      }
      r := Push(wasmStack[index]);
    }

    /** Compile_SetLocal without its final Pop. */
    method AssignLocal(index: nat) returns (r: Option<Error>)
      requires Ready()
      modifies this`wasmStack, this`maxStackSlots, this`code, m3Slots
      ensures Shaped() && Matches(r, Assign(old(State()), index), State())
    {
      if index >= stackFirstDynamicIndex {
        return Some(LocalOutOfBounds);
      }
      var localSlot := wasmStack[index];
      assert localSlot == State().layout.locals[index];
      hide Valid, FindReferenced;
      var preserve: nat;
      r, preserve := FindReferencedLocal(localSlot);
      if r.Some? {
        return;
      }
      EmitLocalCopy(localSlot, preserve);
    }

    /** CopyStackTopToSlot or PreservedCopyTopSlot. */
    method EmitLocalCopy(localSlot: nat, preserve: nat)
      requires Shaped() && stackFirstDynamicIndex > 0
      modifies this`code
      ensures Shaped() && State() == Emit(old(State()), LocalCopy(old(State()), localSlot, preserve))
    {
      var record := wasmStack[|wasmStack| - 1];
      if preserve == localSlot {
        code := code + [if OperandInRegister(0) then SetSlot(localSlot) else CopySlot(localSlot, record)];
      } else {
        code := code + [if OperandInRegister(0) then PreserveSetSlot(localSlot, preserve)
                        else PreserveCopySlot(localSlot, record, preserve)];
      }
    }

    predicate OperandInRegister(depth: nat)
      reads this
    {
      stackFirstDynamicIndex + depth < |wasmStack| && wasmStack[|wasmStack| - 1 - depth] >= REG
    }

    method PopMany(n: nat)
      requires Ready() && n <= |wasmStack| - stackFirstDynamicIndex
      modifies this`wasmStack, this`regStackIndexPlusOne, m3Slots
      ensures Ready() && State() == Consume(old(State()), n)
    {
      hide Valid;
      var i := 0;
      while i < n
        invariant Ready() && i <= n
        invariant n - i <= |State().stack|
        invariant Consume(State(), n - i) == Consume(old(State()), n)
      {
        ConsumeMore(State(), n - i);
        var _ := Pop();
        i := i + 1;
      }
    }

    /** The end of Compile_Operator and Compile_Select: pop `n` operands, emit, push `_r0`. */
    method PopEmitPush(n: nat, instr: Instr) returns (r: Option<Error>)
      requires Ready() && n <= |wasmStack| - stackFirstDynamicIndex
      requires State().register == 0 || State().register > |State().stack| - n
      modifies this`wasmStack, this`regStackIndexPlusOne, this`code, m3Slots
      ensures Shaped() && Matches(r, Operate(old(State()), n, instr), State())
    {
      hide Valid;
      PopMany(n);
      EmitValid(State(), instr);
      code := code + [instr];
      r := Push(REG);
    }

    method CompileUnaryOp(op: UnOp) returns (r: Option<Error>)
      requires Ready()
      modifies this, m3Slots
      ensures Shaped() && Matches(r, CompileUnary(old(State()), op), State())
    {
      hide Counted, ConstantsDense, Operate, PreserveRegister;
      if |wasmStack| == stackFirstDynamicIndex {
        r := Some(FunctionStackUnderrun);
      } else if OperandInRegister(0) {
        r := PopEmitPush(1, UnaryR(op));
      } else {
        r := PreserveRegisterIfOccupied();
        if r.None? {
          r := PopEmitPush(1, UnaryS(op, wasmStack[|wasmStack| - 1]));
        }
      }
    }

    method CompileBinaryOp(op: BinOp) returns (r: Option<Error>)
      requires Ready()
      modifies this, m3Slots
      ensures Shaped() && Matches(r, CompileBinary(old(State()), op), State())
    {
      hide Counted, ConstantsDense, Operate, PreserveRegister;
      var n := |wasmStack|;
      if n < stackFirstDynamicIndex + 2 {
        r := Some(FunctionStackUnderrun);
      } else if OperandInRegister(0) {
        r := PopEmitPush(2, BinaryRS(op, wasmStack[n - 2]));
      } else if OperandInRegister(1) {
        var top := wasmStack[n - 1];
        r := PopEmitPush(2, if Commutative(op) then BinaryRS(op, top) else BinarySR(op, top));
      } else {
        r := PreserveRegisterIfOccupied();
        if r.None? {
          r := PopEmitPush(2, BinarySS(op, wasmStack[n - 1], wasmStack[n - 2]));
        }
      }
    }

    method CompileSelectOp() returns (r: Option<Error>)
      requires Ready()
      modifies this, m3Slots
      ensures Shaped() && Matches(r, CompileSelect(old(State())), State())
    {
      hide Valid, Operate, PreserveRegister;
      RegisterPopped(State());
      if |wasmStack| < stackFirstDynamicIndex + 3 {
        return Some(FunctionStackUnderrun);
      }
      if !OperandInRegister(0) && !OperandInRegister(1) && !OperandInRegister(2) {
        r := PreserveRegisterIfOccupied();
        if r.Some? {
          return;
        }
      }
      var instr := SelectOperation();
      r := PopEmitPush(3, instr);
    }

    /** The entry of c_intSelectOps for where the three operands are. */
    method SelectOperation() returns (instr: Instr)
      requires Shaped() && |wasmStack| >= stackFirstDynamicIndex + 3
      ensures instr == SelectInstr(State())
    {
      var n := |wasmStack|;
      var cond, second, first := wasmStack[n - 1], wasmStack[n - 2], wasmStack[n - 3];
      if OperandInRegister(0) {
        instr := SelectRSS(second, first);
      } else if OperandInRegister(1) {
        instr := SelectSRS(cond, first);
      } else if OperandInRegister(2) {
        instr := SelectSSR(cond, second);
      } else {
        instr := SelectSSS(cond, second, first);
      }
    }

    /** The copy loop of ReturnValues: the top of the stack goes to the last return slot. */
    method EmitResultCopies()
      requires Shaped()
      modifies this`code
      ensures Shaped() && State() == CopyResults(old(State()), |old(State()).stack|)
    {
      var k := |wasmStack| - stackFirstDynamicIndex;
      while k > 0
        invariant Shaped() && 0 <= k <= |State().stack|
        invariant CopyResults(State(), k) == CopyResults(old(State()), |old(State()).stack|)
      {
        var record := wasmStack[stackFirstDynamicIndex + k - 1];
        assert record == State().stack[k - 1];
        code := code + [if record >= REG then SetSlot(IO_SLOTS * (k - 1)) else CopySlot(IO_SLOTS * (k - 1), record)];
        k := k - 1;
      }
    }

    /** ReturnValues and the op_Return after it. */
    method CompileFunctionEnd() returns (r: Option<Error>)
      requires Ready()
      modifies this`wasmStack, this`regStackIndexPlusOne, this`code, m3Slots
      ensures Shaped() && Matches(r, CompileEnd(old(State())), State())
    {
      hide Valid, CopyResults, Consume;
      var n := |wasmStack| - stackFirstDynamicIndex;
      if n != results {
        return Some(TypeCountMismatch);
      }
      ghost var before := State();
      EmitResultCopies();
      CodeValid(before, State());
      PopMany(n);
      code := code + [Return];
      r := None;
    }

    method CompileOpcode(op: Op) returns (r: Option<Error>)
      requires Ready()
      modifies this, m3Slots, constants
      ensures Shaped() && Matches(r, CompileOp(old(State()), op), State())
    {
      hide Valid, CompileConst, CompileUnary, CompileBinary, CompileSelect, CompileGet, Assign, M3Compile.Pop;
      match op {
        case Const(v) => r := PushConst(v);
        case LocalGet(i) => r := CompileGetLocal(i);
        case LocalSet(i) =>
          r := AssignLocal(i);
          if r.None? {
            r := Pop();
          }
        case LocalTee(i) => r := AssignLocal(i);
        case Unary(u) => r := CompileUnaryOp(u);
        case Binary(b) => r := CompileBinaryOp(b);
        case Select => r := CompileSelectOp();
        case Drop => r := Pop();
        case Nop => r := None;
      }
    }

    /** CompileBlockStatements: opcode after opcode, stopping at the first error. */
    method CompileBody(body: seq<Op>) returns (r: Option<Error>)
      requires Ready()
      modifies this, m3Slots, constants
      ensures Shaped() && Matches(r, CompileOps(old(State()), body), State())
    {
      hide Valid, CompileOp;
      var i := 0;
      while i < |body|
        invariant Ready() && i <= |body|
        invariant CompileOps(old(State()), body[..i]) == Ok(State())
      {
        CompileOpsFails(old(State()), body, i + 1);
        assert body[..i + 1][..i] == body[..i];
        r := CompileOpcode(body[i]);
        if r.Some? {
          return;
        }
        i := i + 1;
      }
      assert body[..i] == body;
      r := None;
    }

    // ----- CompileFunction up to op_Entry -----

    /** memset of the record: nothing allocated, nothing on the stack. */
    constructor (numReturns: nat)
      ensures fresh(m3Slots) && fresh(constants)
      ensures Shaped() && results == numReturns && wasmStack == [] && code == []
      ensures stackFirstDynamicIndex == 0 && regStackIndexPlusOne == 0
      ensures m3Slots[..] == seq(MAX_SLOTS, _ => 0) && constants[..] == seq(MAX_CONSTANTS, _ => 0)
    {
      results := numReturns;
      m3Slots := new nat[MAX_SLOTS](_ => 0);
      constants := new Word[MAX_CONSTANTS](_ => 0);
      wasmStack, code := [], [];
      stackFirstDynamicIndex, regStackIndexPlusOne := 0, 0;
      slotFirstConstIndex, slotMaxConstIndex, slotFirstDynamicIndex := 0, 0, 0;
      maxStackSlots := 0;
    }

    /** Usage counts and records once `i` arguments and locals have their slots. */
    ghost predicate LaidOut(sig: Signature, i: nat)
      reads this, m3Slots
    {
      && m3Slots.Length == MAX_SLOTS && |wasmStack| == i
      && (forall k :: 0 <= k < i ==> wasmStack[k] == LocalSlot(sig, k))
      && (forall s :: 0 <= s < MAX_SLOTS ==>
            m3Slots[s] == if s < IO_SLOTS * sig.results || SlotTaken(sig, i, s) then 1 else 0)
    }

    /** Slot `s` belongs to one of the first `i` arguments and locals. */
    static predicate SlotTaken(sig: Signature, i: nat, s: nat) {
      || (IO_SLOTS * sig.results <= s < IO_SLOTS * (sig.results + if i < sig.args then i else sig.args)
          && s % IO_SLOTS == 0)
      || FirstLocal(sig) <= s < FirstLocal(sig) + i - sig.args
    }

    /** Allocate the next argument or local: always the first dynamic slot. */
    method PushLocal(sig: Signature, i: nat) returns (r: Option<Error>)
      requires Shaped() && stackFirstDynamicIndex == 0 && LaidOut(sig, i) && i < sig.args + sig.locals
      requires slotFirstDynamicIndex == LocalSlot(sig, if i < sig.args then i else sig.args)
      modifies this`wasmStack, this`maxStackSlots, m3Slots
      ensures r == if LocalSlot(sig, i) < MAX_SLOTS && i < MAX_STACK_HEIGHT then None
                   else Some(FunctionStackOverflow)
      ensures r.None? ==> LaidOut(sig, i + 1)
    {
      var slot := LocalSlot(sig, i);
      if slot < MAX_SLOTS {
        FreeConstant(m3Slots[..], slotFirstDynamicIndex, slot, MAX_SLOTS);
      }
      var got := AllocateWithinRange(slotFirstDynamicIndex, MAX_SLOTS);
      if got.None? || i >= MAX_STACK_HEIGHT {
        return Some(FunctionStackOverflow);
      }
      wasmStack := wasmStack + [got.value];
      r := None;
    }

    /** The loops over arguments and locals. */
    method PushLocals(sig: Signature) returns (r: Option<Error>)
      requires Shaped() && stackFirstDynamicIndex == 0 && LaidOut(sig, 0)
      requires slotFirstDynamicIndex == IO_SLOTS * sig.results
      modifies this`wasmStack, this`maxStackSlots, this`slotFirstDynamicIndex, m3Slots
      ensures Shaped()
      ensures r.None? ==> LaidOut(sig, sig.args + sig.locals) && sig.args + sig.locals <= MAX_STACK_HEIGHT
      ensures r.Some? ==> r.value == FunctionStackOverflow
                          && (sig.args + sig.locals > MAX_STACK_HEIGHT || FirstLocal(sig) + sig.locals > MAX_SLOTS)
    {
      hide SlotTaken;
      var i := 0;
      while i < sig.args + sig.locals
        invariant i <= sig.args + sig.locals && LaidOut(sig, i) && Shaped()
        invariant i <= MAX_STACK_HEIGHT
        invariant slotFirstDynamicIndex == LocalSlot(sig, if i < sig.args then i else sig.args)
      {
        r := PushLocal(sig, i);
        if r.Some? {
          return;
        }
        if i < sig.args {
          slotFirstDynamicIndex := slotFirstDynamicIndex + IO_SLOTS;
        }
        i := i + 1;
      }
      r := None;
    }

    /** Return slots, arguments, locals and reserved constants; then the operand stack begins. */
    method BeginFunction(sig: Signature, reserved: nat) returns (r: Option<Error>)
      requires Shaped() && results == sig.results <= MAX_ARGS_RETS && reserved <= MAX_CONSTANTS
      requires wasmStack == [] && code == [] && stackFirstDynamicIndex == 0 && regStackIndexPlusOne == 0
      requires m3Slots[..] == seq(MAX_SLOTS, _ => 0) && constants[..] == seq(MAX_CONSTANTS, _ => 0)
      modifies this, m3Slots
      ensures Shaped() && Matches(r, Begin(sig, reserved), State())
    {
      MarkReturnSlots(sig);
      slotFirstDynamicIndex := IO_SLOTS * sig.results;
      r := PushLocals(sig);
      if r.Some? {
        return;
      }
      slotFirstConstIndex := FirstLocal(sig) + sig.locals;
      slotMaxConstIndex := slotFirstConstIndex;
      slotFirstDynamicIndex := slotFirstConstIndex + reserved;
      if slotFirstDynamicIndex >= MAX_SLOTS {
        return Some(FunctionStackOverflow);
      }
      maxStackSlots := slotFirstDynamicIndex;
      stackFirstDynamicIndex := |wasmStack|;
      assert m3Slots[..] == InitialSlots(sig);
      assert wasmStack == FrameLayout(sig, reserved).locals;
      r := None;
    }

    method MarkReturnSlots(sig: Signature)
      requires sig.results <= MAX_ARGS_RETS && m3Slots.Length == MAX_SLOTS && wasmStack == []
      requires m3Slots[..] == seq(MAX_SLOTS, _ => 0)
      modifies m3Slots
      ensures LaidOut(sig, 0)
    {
      assert forall s :: 0 <= s < MAX_SLOTS ==> m3Slots[..][s] == 0;
      for i := 0 to IO_SLOTS * sig.results
        invariant forall s :: 0 <= s < MAX_SLOTS ==> m3Slots[s] == if s < i then 1 else 0
      {
        m3Slots[i] := 1;
      }
    }
  }

  /** CompileFunction: the compiled record, and with it the meaning of the body. */
  method CompileFunctionBody(sig: Signature, reserved: nat, body: seq<Op>) returns (r: Result<Function, Error>)
    requires sig.results <= MAX_ARGS_RETS && reserved <= MAX_CONSTANTS
    ensures r == CompileFunction(sig, reserved, body)
  {
    hide Begin, CompileOps, CompileEnd, Counted, ConstantsDense, OperandsPlaced;
    var o := new Compilation(sig.results);
    var e := o.BeginFunction(sig, reserved);
    if e.Some? {
      return Err(e.value);
    }
    e := o.CompileBody(body);
    if e.Some? {
      return Err(e.value);
    }
    e := o.CompileFunctionEnd();
    if e.Some? {
      return Err(e.value);
    }
    r := Ok(Function(o.code, o.maxStackSlots, FirstLocal(sig), sig.locals,
                     o.constants[..o.slotMaxConstIndex - o.slotFirstConstIndex]));
  }
}
