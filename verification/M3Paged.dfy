/**
 Compiled code where it lies: the op stream of a compiled function on bridged code pages
 (kernel/lib/wasm3/m3_compile.c), run by following it word by word (m3_exec.h).
 */
module M3Paged {
  import opened Words
  import opened Basics
  import opened WasmSemantics
  import opened M3Machine
  import opened M3Compile
  import opened M3Correct
  import opened M3Accepts
  import CodePages

  // ----- ops as words -----

  const ENTRY: nat := 15

  function UnNumber(op: UnOp): nat {
    match op
    case Eqz => 0 case Clz => 1 case Ctz => 2 case Popcnt => 3 case Extend8S => 4 case Extend16S => 5
  }

  function UnOf(n: nat): UnOp {
    match n
    case 0 => Eqz case 1 => Clz case 2 => Ctz case 3 => Popcnt case 4 => Extend8S case _ => Extend16S
  }

  function BinNumber(op: BinOp): nat {
    match op
    case Eq => 0 case Ne => 1 case LtS => 2 case LtU => 3 case GtS => 4 case GtU => 5 case LeS => 6
    case LeU => 7 case GeS => 8 case GeU => 9 case Add => 10 case Sub => 11 case Mul => 12 case DivS => 13
    case DivU => 14 case RemS => 15 case RemU => 16 case And => 17 case Or => 18 case Xor => 19 case Shl => 20
    case ShrS => 21 case ShrU => 22 case Rotl => 23 case Rotr => 24
  }

  function BinOf(n: nat): BinOp {
    match n
    case 0 => Eq case 1 => Ne case 2 => LtS case 3 => LtU case 4 => GtS case 5 => GtU case 6 => LeS
    case 7 => LeU case 8 => GeS case 9 => GeU case 10 => Add case 11 => Sub case 12 => Mul case 13 => DivS
    case 14 => DivU case 15 => RemS case 16 => RemU case 17 => And case 18 => Or case 19 => Xor case 20 => Shl
    case 21 => ShrS case 22 => ShrU case 23 => Rotl case _ => Rotr
  }

  /** The words of an instruction: which operation, then its immediates. */
  function WordsOf(i: Instr): CodePages.Instr {
    match i
    case SetSlot(d) => CodePages.Instr(0, [d])
    case PreserveSetSlot(d, p) => CodePages.Instr(1, [d, p])
    case CopySlot(d, s) => CodePages.Instr(2, [d, s])
    case PreserveCopySlot(d, s, p) => CodePages.Instr(3, [d, s, p])
    case Const32(v, d) => CodePages.Instr(4, [v, d])
    case UnaryR(u) => CodePages.Instr(5 + 16 * UnNumber(u), [])
    case UnaryS(u, s) => CodePages.Instr(6 + 16 * UnNumber(u), [s])
    case BinaryRS(b, s) => CodePages.Instr(7 + 16 * BinNumber(b), [s])
    case BinarySR(b, s) => CodePages.Instr(8 + 16 * BinNumber(b), [s])
    case BinarySS(b, t, s) => CodePages.Instr(9 + 16 * BinNumber(b), [t, s])
    case SelectRSS(b, a) => CodePages.Instr(10, [b, a])
    case SelectSRS(c, a) => CodePages.Instr(11, [c, a])
    case SelectSSR(c, b) => CodePages.Instr(12, [c, b])
    case SelectSSS(c, b, a) => CodePages.Instr(13, [c, b, a])
    case Return => CodePages.Instr(14, [])
  }

  /** How many words each operation reads. */
  function Arity(op: nat): nat {
    match op % 16
    case 0 => 1 case 1 => 2 case 2 => 2 case 3 => 3 case 4 => 2 case 5 => 0 case 6 => 1 case 7 => 1
    case 8 => 1 case 9 => 2 case 10 => 2 case 11 => 2 case 12 => 2 case 13 => 3 case 14 => 0 case _ => 1
  }

  function OpShape(op: nat): CodePages.Shape { CodePages.Fixed(Arity(op)) }

  function InstrOf(w: CodePages.Instr): Option<Instr> {
    var x := w.operands;
    var n := w.op / 16;
    if |x| != Arity(w.op) then None
    else match w.op % 16
      case 0 => Some(SetSlot(x[0]))
      case 1 => Some(PreserveSetSlot(x[0], x[1]))
      case 2 => Some(CopySlot(x[0], x[1]))
      case 3 => Some(PreserveCopySlot(x[0], x[1], x[2]))
      case 4 => if x[0] < TWO32 then Some(Const32(x[0], x[1])) else None
      case 5 => Some(UnaryR(UnOf(n)))
      case 6 => Some(UnaryS(UnOf(n), x[0]))
      case 7 => Some(BinaryRS(BinOf(n), x[0]))
      case 8 => Some(BinarySR(BinOf(n), x[0]))
      case 9 => Some(BinarySS(BinOf(n), x[0], x[1]))
      case 10 => Some(SelectRSS(x[0], x[1]))
      case 11 => Some(SelectSRS(x[0], x[1]))
      case 12 => Some(SelectSSR(x[0], x[1]))
      case 13 => Some(SelectSSS(x[0], x[1], x[2]))
      case 14 => Some(Return)
      case _ => None
  }

  lemma UnBack(u: UnOp) ensures UnOf(UnNumber(u)) == u { }

  lemma BinBack(b: BinOp) ensures BinOf(BinNumber(b)) == b { }

  lemma WordsReadBack(i: Instr)
    ensures InstrOf(WordsOf(i)) == Some(i)
    ensures |WordsOf(i).operands| == Arity(WordsOf(i).op) <= 3 && WordsOf(i).op != ENTRY
  {
    hide UnOf, BinOf, UnNumber, BinNumber;
    match i
    case UnaryR(u) => UnBack(u); Parts(5, UnNumber(u));
    case UnaryS(u, _) => UnBack(u); Parts(6, UnNumber(u));
    case BinaryRS(b, _) => BinBack(b); Parts(7, BinNumber(b));
    case BinarySR(b, _) => BinBack(b); Parts(8, BinNumber(b));
    case BinarySS(b, _, _) => BinBack(b); Parts(9, BinNumber(b));
    case _ =>
  }

  lemma Parts(kind: nat, n: nat)
    requires kind < 15
    ensures (kind + 16 * n) % 16 == kind && (kind + 16 * n) / 16 == n && kind + 16 * n != ENTRY
  {
  }

  // ----- a compiled function as a program of the emitter -----

  predicate IsSelect(i: Instr) { i.SelectRSS? || i.SelectSRS? || i.SelectSSR? || i.SelectSSS? }

  function ItemOf(i: Instr): CodePages.Item {
    if IsSelect(i) then CodePages.Select(WordsOf(i)) else CodePages.Op(WordsOf(i))
  }

  /** op_Entry with the function it belongs to, then its code. */
  function Program(fn: Function, pointer: nat): (prog: seq<CodePages.Item>)
    ensures |prog| == 1 + |fn.code|
  {
    [CodePages.Op(CodePages.Instr(ENTRY, [pointer]))] + seq(|fn.code|, k requires 0 <= k < |fn.code| => ItemOf(fn.code[k]))
  }

  function Stream(code: seq<Instr>): (r: seq<CodePages.Instr>)
    ensures |r| == |code|
  {
    seq(|code|, k requires 0 <= k < |code| => WordsOf(code[k]))
  }

  lemma ProgramFits(fn: Function, pointer: nat)
    ensures var prog := Program(fn, pointer);
            && (forall k :: 0 <= k < |prog| ==> CodePages.Sized(prog[k], OpShape))
            && CodePages.Codes(prog) == [CodePages.Instr(ENTRY, [pointer])] + Stream(fn.code)
    ensures forall k :: 1 <= k <= |fn.code| + 1 ==>
              CodePages.Codes(Program(fn, pointer)[..k]) == [CodePages.Instr(ENTRY, [pointer])] + Stream(fn.code[..k - 1])
  {
    var prog := Program(fn, pointer);
    hide WordsOf, Arity;
    forall k | 0 <= k < |prog| ensures CodePages.Sized(prog[k], OpShape) {
      if k > 0 {
        WordsReadBack(fn.code[k - 1]);
        SelectOperands(fn.code[k - 1]);
      } else {
        EntryOperands();
      }
    }
  }

  lemma SelectOperands(i: Instr)
    ensures IsSelect(i) ==> |WordsOf(i).operands| >= 1
  {
  }

  lemma EntryOperands()
    ensures Arity(ENTRY) == 1
  {
  }

  // ----- running it -----

  /** What the op at hand does; op_Entry checks the frame and sets it up. */
  function Do(alu: Alu, fn: Function, w: CodePages.Instr, m: State): State {
    if !m.Running? then m
    else if w.op == ENTRY then
      if fn.maxStackSlots >= |m.slots| then Trapped
      else if fn.numRetAndArgSlots + fn.numLocals + |fn.constants| > |m.slots| then Fault
      else Enter(fn, m.slots)
    else match InstrOf(w)
      case None => Fault
      case Some(i) => Step(alu, i, m)
  }

  /** Threaded execution: fetch at `at`, follow a branch or do the op, and go on. */
  function Thread(alu: Alu, fn: Function, pages: seq<CodePages.Page>, at: CodePages.Pc, steps: nat, m: State): State
    decreases steps
  {
    if steps == 0 || !m.Running? then m
    else match CodePages.Fetch(pages, OpShape, at)
      case None => Fault
      case Some(seen) =>
        Thread(alu, fn, pages, seen.at, steps - 1, if seen.ops == [] then m else Do(alu, fn, seen.ops[0], m))
  }

  function DoAll(alu: Alu, fn: Function, ops: seq<CodePages.Instr>, m: State): State {
    if ops == [] then m else DoAll(alu, fn, ops[1..], Do(alu, fn, ops[0], m))
  }

  lemma {:induction false} DoStopped(alu: Alu, fn: Function, ops: seq<CodePages.Instr>, m: State)
    requires !m.Running?
    ensures DoAll(alu, fn, ops, m) == m
  {
    if ops != [] { DoStopped(alu, fn, ops[1..], m); }
  }

  /** Running from the pages does what is read there. */
  lemma {:induction false} ThreadIsWalk(alu: Alu, fn: Function, pages: seq<CodePages.Page>, at: CodePages.Pc, steps: nat, m: State)
    requires CodePages.Walk(pages, OpShape, at, steps).Some?
    ensures Thread(alu, fn, pages, at, steps, m) == DoAll(alu, fn, CodePages.Walk(pages, OpShape, at, steps).value.ops, m)
    decreases steps
  {
    hide Do, Arity;
    if !m.Running? {
      DoStopped(alu, fn, CodePages.Walk(pages, OpShape, at, steps).value.ops, m);
    } else if steps > 0 {
      var seen := CodePages.Fetch(pages, OpShape, at).value;
      FetchOne(pages, at);
      hide CodePages.Fetch;
      var rest := CodePages.Walk(pages, OpShape, seen.at, steps - 1).value;
      if seen.ops == [] {
        assert seen.ops + rest.ops == rest.ops;
        ThreadIsWalk(alu, fn, pages, seen.at, steps - 1, m);
      } else {
        assert (seen.ops + rest.ops)[0] == seen.ops[0] && (seen.ops + rest.ops)[1..] == rest.ops;
        ThreadIsWalk(alu, fn, pages, seen.at, steps - 1, Do(alu, fn, seen.ops[0], m));
      }
    }
  }

  lemma FetchOne(pages: seq<CodePages.Page>, at: CodePages.Pc)
    ensures CodePages.Fetch(pages, OpShape, at).Some? ==> |CodePages.Fetch(pages, OpShape, at).value.ops| <= 1
  {
    hide Arity;
  }

  /** The words of straight-line code do what the code does. */
  lemma {:induction false} StreamRuns(alu: Alu, fn: Function, code: seq<Instr>, m: State)
    ensures DoAll(alu, fn, Stream(code), m) == Exec(alu, code, m)
    decreases |code|
  {
    hide WordsOf, InstrOf, Step, Arity, Exec;
    if code == [] {
      ExecNothing(alu, m);
    } else {
      WordsReadBack(code[0]);
      assert Stream(code)[1..] == Stream(code[1..]);
      StreamRuns(alu, fn, code[1..], Do(alu, fn, WordsOf(code[0]), m));
      ExecOne(alu, code[0], m);
      assert [code[0]] + code[1..] == code;
      ExecAppend(alu, [code[0]], code[1..], m);
    }
  }

  lemma ExecNothing(alu: Alu, m: State) ensures Exec(alu, [], m) == m { }

  lemma ExecOne(alu: Alu, i: Instr, m: State)
    ensures Exec(alu, [i], m) == Step(alu, i, m)
    ensures !m.Running? ==> Step(alu, i, m) == m
  {
    assert [i][..0] == [];
  }

  lemma CallRuns(alu: Alu, fn: Function, pointer: nat, code: seq<Instr>, frame: seq<Word>, r0: Reg)
    requires fn.numRetAndArgSlots + fn.numLocals + |fn.constants| <= fn.maxStackSlots < |frame|
    ensures DoAll(alu, fn, [CodePages.Instr(ENTRY, [pointer])] + Stream(code), Running(frame, r0))
         == Exec(alu, code, Enter(fn, frame))
  {
    hide WordsOf, InstrOf, Step, Exec;
    var all := [CodePages.Instr(ENTRY, [pointer])] + Stream(code);
    assert all[1..] == Stream(code);
    StreamRuns(alu, fn, code, Enter(fn, frame));
  }

  // ----- the whole way -----

  /** From Wasm to the code pages: a body that compiles, emitted with room at every select onto
      any pages, with any pattern of granted and refused pages, and run from there: it traps
      exactly when Wasm traps and otherwise returns the Wasm results, and no further step
      changes that. */
  lemma PagedCodePreservesMeaning(alu: Alu, sig: Signature, reserved: nat, body: seq<Op>, frame: seq<Word>, r0: Reg,
                                  e: CodePages.Emitter, pointer: nat, grants: seq<(bool, bool)>)
    returns (steps: nat)
    requires Commutes(alu) && reserved <= MAX_CONSTANTS
    requires CompileFunction(sig, reserved, body).Ok?
    requires CompileFunction(sig, reserved, body).value.maxStackSlots < |frame|
    requires TeesFed(body)
    requires CodePages.Inv(e) && CodePages.Ready(e)
    requires var prog := Program(CompileFunction(sig, reserved, body).value, pointer);
             && |grants| == |prog| && CodePages.EmitAll(e, prog, grants).Some?
             && CodePages.SelectsHaveRoom(e, prog, grants)
    ensures FirstLocal(sig) <= |frame|
    ensures var fn := CompileFunction(sig, reserved, body).value;
            var pages := CodePages.EmitAll(e, Program(fn, pointer), grants).value.s.pages;
            var start := CodePages.Here(e.s.pages, e.page);
            var m := Thread(alu, fn, pages, start, steps, Running(frame, r0));
            && m == Call(alu, fn, frame)
            && (forall more :: more >= steps ==> Thread(alu, fn, pages, start, more, Running(frame, r0)) == m)
            && match Run(alu, body, Config(InitialLocals(sig, frame), []))
               case Stuck => false
               case Trap => m == Trapped
               case Config(_, results) =>
                 && m.Returned? && |results| == sig.results && |m.slots| == |frame|
                 && ResultsHold(m.slots, results, 0)
                 && (forall s :: fn.maxStackSlots <= s < |frame| ==> m.slots[s] == frame[s])
  {
    hide CodePages.Inv, CodePages.EmitAll, CodePages.SelectsHaveRoom, CodePages.Walk, CodePages.Codes, CodePages.Sized,
         CompileFunction, Exec, Run, Thread, Program, Stream, TeesFed, Commutes, CodePages.Grown;
    var fn := CompileFunction(sig, reserved, body).value;
    var prog := Program(fn, pointer);
    var pages := CodePages.EmitAll(e, prog, grants).value.s.pages;
    var start := CodePages.Here(e.s.pages, e.page);
    CompilerPreservesMeaning(alu, sig, reserved, body, frame);
    ProgramFits(fn, pointer);
    steps := CodePages.PageBreaksInvisible(e, prog, grants, OpShape);
    ThreadIsWalk(alu, fn, pages, start, steps, Running(frame, r0));
    CallRuns(alu, fn, pointer, fn.code, frame, r0);
    forall more | more >= steps
      ensures Thread(alu, fn, pages, start, more, Running(frame, r0)) == Thread(alu, fn, pages, start, steps, Running(frame, r0))
    {
      StoppedStays(alu, fn, pages, start, steps, more, Running(frame, r0));
    }
  }

  lemma {:induction false} StoppedStays(alu: Alu, fn: Function, pages: seq<CodePages.Page>, at: CodePages.Pc, n: nat, more: nat, m: State)
    requires !Thread(alu, fn, pages, at, n, m).Running? && n <= more
    ensures Thread(alu, fn, pages, at, more, m) == Thread(alu, fn, pages, at, n, m)
    decreases n
  {
    hide Do, CodePages.Fetch;
    if n > 0 && m.Running? && CodePages.Fetch(pages, OpShape, at).Some? {
      var seen := CodePages.Fetch(pages, OpShape, at).value;
      StoppedStays(alu, fn, pages, seen.at, n - 1, more - 1, if seen.ops == [] then m else Do(alu, fn, seen.ops[0], m));
    }
  }

  /** Without room at some select, execution that comes to it runs into an operand word. */
  lemma LostSelectFaults(alu: Alu, fn: Function, frame: seq<Word>, r0: Reg, e: CodePages.Emitter, pointer: nat,
                         grants: seq<(bool, bool)>)
    returns (k: nat, steps: nat)
    requires fn.numRetAndArgSlots + fn.numLocals + |fn.constants| <= fn.maxStackSlots < |frame|
    requires CodePages.Inv(e) && CodePages.Ready(e)
    requires var prog := Program(fn, pointer);
             && |grants| == |prog| && CodePages.EmitAll(e, prog, grants).Some?
             && !CodePages.SelectsHaveRoom(e, prog, grants)
    ensures k < |fn.code| && IsSelect(fn.code[k])
    ensures var pages := CodePages.EmitAll(e, Program(fn, pointer), grants).value.s.pages;
            var start := CodePages.Here(e.s.pages, e.page);
            Exec(alu, fn.code[..k], Enter(fn, frame)).Running? ==>
              Thread(alu, fn, pages, start, steps, Running(frame, r0)) == Fault
  {
    hide CodePages.Inv, CodePages.EmitAll, CodePages.SelectsHaveRoom, CodePages.Walk, CodePages.Codes, CodePages.Sized,
         Exec, Thread, Stream, WordsOf;
    var prog := Program(fn, pointer);
    var pages := CodePages.EmitAll(e, prog, grants).value.s.pages;
    var start := CodePages.Here(e.s.pages, e.page);
    ProgramFits(fn, pointer);
    var n, j := CodePages.LostSelectSticks(e, prog, grants, OpShape);
    k := j - 1;
    steps := n + 1;
    ThreadIsWalk(alu, fn, pages, start, n, Running(frame, r0));
    CallRuns(alu, fn, pointer, fn.code[..k], frame, r0);
    CodePages.OperandStops(pages, OpShape, CodePages.Walk(pages, OpShape, start, n).value.at);
    if Exec(alu, fn.code[..k], Enter(fn, frame)).Running? {
      FaultsNext(alu, fn, pages, start, n, Running(frame, r0));
    }
  }

  lemma {:induction false} FaultsNext(alu: Alu, fn: Function, pages: seq<CodePages.Page>, at: CodePages.Pc, n: nat, m: State)
    requires CodePages.Walk(pages, OpShape, at, n).Some? && Thread(alu, fn, pages, at, n, m).Running?
    requires CodePages.Fetch(pages, OpShape, CodePages.Walk(pages, OpShape, at, n).value.at) == None
    ensures Thread(alu, fn, pages, at, n + 1, m) == Fault
    decreases n
  {
    hide Do, CodePages.Fetch;
    if n > 0 {
      var seen := CodePages.Fetch(pages, OpShape, at).value;
      FaultsNext(alu, fn, pages, seen.at, n - 1, if seen.ops == [] then m else Do(alu, fn, seen.ops[0], m));
    }
  }

  // ----- only the end returns -----

  predicate NoReturn(code: seq<Instr>) { forall i :: 0 <= i < |code| ==> code[i] != Return }

  lemma {:induction false} NeverReturns(alu: Alu, code: seq<Instr>, m: State)
    requires NoReturn(code) && !m.Returned?
    ensures !Exec(alu, code, m).Returned?
    decreases |code|
  {
    if code != [] {
      NeverReturns(alu, code[..|code| - 1], m);
    }
  }

  lemma OperateAdds(c: Comp, n: nat, i: Instr)
    requires Valid(c) && n <= |c.stack| && (c.register == 0 || c.register > |c.stack| - n)
    ensures Operate(c, n, i).Ok? ==> Operate(c, n, i).value.code == c.code + [i]
  {
    hide Consume;
  }

  lemma PreserveAdds(c: Comp)
    requires Valid(c)
    ensures PreserveRegister(c).Ok? && NoReturn(c.code) ==> NoReturn(PreserveRegister(c).value.code)
  {
    hide Counted, OperandsPlaced, ConstantsDense, FreeDynamic;
  }

  lemma ConstAdds(c: Comp, v: Word)
    requires Valid(c) && NoReturn(c.code)
    ensures CompileConst(c, v).Ok? ==> NoReturn(CompileConst(c, v).value.code)
  {
    hide Counted, OperandsPlaced, ConstantsDense, FindConstant, FirstFree;
  }

  lemma AssignAdds(c: Comp, index: nat)
    requires Valid(c) && NoReturn(c.code)
    ensures Assign(c, index).Ok? ==> NoReturn(Assign(c, index).value.code)
  {
    hide Counted, OperandsPlaced, ConstantsDense, FindReferenced;
  }

  lemma UnaryAdds(c: Comp, op: UnOp)
    requires Valid(c) && NoReturn(c.code)
    ensures CompileUnary(c, op).Ok? ==> NoReturn(CompileUnary(c, op).value.code)
  {
    hide Counted, ConstantsDense, Operate, PreserveRegister;
    PreserveAdds(c);
    if InRegister(c, 0) {
      OperateAdds(c, 1, UnaryR(op));
    } else if PreserveRegister(c).Ok? && c.stack != [] {
      var p := PreserveRegister(c).value;
      OperateAdds(p, 1, UnaryS(op, Top(p)));
    }
  }

  lemma BinaryAdds(c: Comp, op: BinOp)
    requires Valid(c) && NoReturn(c.code)
    ensures CompileBinary(c, op).Ok? ==> NoReturn(CompileBinary(c, op).value.code)
  {
    hide Counted, ConstantsDense, Operate, PreserveRegister, Commutative;
    PreserveAdds(c);
    var n := |c.stack|;
    if n >= 2 {
      if InRegister(c, 0) {
        OperateAdds(c, 2, BinaryRS(op, c.stack[n - 2]));
      } else if InRegister(c, 1) {
        OperateAdds(c, 2, BinaryRS(op, c.stack[n - 1]));
        OperateAdds(c, 2, BinarySR(op, c.stack[n - 1]));
      } else if PreserveRegister(c).Ok? {
        var p := PreserveRegister(c).value;
        OperateAdds(p, 2, BinarySS(op, p.stack[n - 1], p.stack[n - 2]));
      }
    }
  }

  lemma SelectAdds(c: Comp)
    requires Valid(c) && NoReturn(c.code)
    ensures CompileSelect(c).Ok? ==> NoReturn(CompileSelect(c).value.code)
  {
    hide Counted, ConstantsDense, Operate, PreserveRegister;
    PreserveAdds(c);
    if |c.stack| >= 3 {
      if InRegister(c, 0) || InRegister(c, 1) || InRegister(c, 2) {
        OperateAdds(c, 3, SelectInstr(c));
      } else if PreserveRegister(c).Ok? {
        OperateAdds(PreserveRegister(c).value, 3, SelectInstr(PreserveRegister(c).value));
      }
    }
  }

  lemma OpAdds(c: Comp, op: Op)
    requires Valid(c) && NoReturn(c.code) && CompileOp(c, op).Ok?
    ensures NoReturn(CompileOp(c, op).value.code)
  {
    hide Valid, CompileConst, CompileUnary, CompileBinary, CompileSelect, Assign, Consume, NoReturn;
    match op
    case Const(v) => ConstAdds(c, v);
    case LocalGet(_) =>
    case LocalSet(i) => AssignAdds(c, i);
    case LocalTee(i) => AssignAdds(c, i);
    case Unary(u) => UnaryAdds(c, u);
    case Binary(b) => BinaryAdds(c, b);
    case Select => SelectAdds(c);
    case Drop =>
    case Nop =>
  }

  lemma {:induction false} BodyAdds(c: Comp, body: seq<Op>)
    requires Valid(c) && NoReturn(c.code) && CompileOps(c, body).Ok?
    ensures NoReturn(CompileOps(c, body).value.code)
    decreases |body|
  {
    hide Valid, CompileOp, NoReturn;
    if body != [] {
      BodyAdds(c, body[..|body| - 1]);
      OpAdds(CompileOps(c, body[..|body| - 1]).value, body[|body| - 1]);
    }
  }

  lemma {:induction false} CopiesAdd(c: Comp, k: nat)
    requires k <= |c.stack| && NoReturn(c.code)
    ensures NoReturn(CopyResults(c, k).code)
    decreases k
  {
    if k > 0 { CopiesAdd(Emit(c, CopyTo(IO_SLOTS * (k - 1), c.stack[k - 1])), k - 1); }
  }

  /** The code of a function returns at its last instruction and nowhere else. */
  lemma OnlyEndReturns(sig: Signature, reserved: nat, body: seq<Op>)
    requires reserved <= MAX_CONSTANTS && CompileFunction(sig, reserved, body).Ok?
    ensures var code := CompileFunction(sig, reserved, body).value.code;
            code != [] && code[|code| - 1] == Return && NoReturn(code[..|code| - 1])
  {
    hide Valid, CompileOps, CopyResults, Consume, InitialSlots, FrameLayout;
    var c := Begin(sig, reserved).value;
    var d := CompileOps(c, body).value;
    BodyAdds(c, body);
    CopiesAdd(d, |d.stack|);
    var kept := CopyResults(d, |d.stack|).code;
    assert (kept + [Return])[..|kept|] == kept;
  }

  /** Where Wasm does not trap, running the pages comes to what the code computes if and only
      if every select found room when it was emitted. */
  lemma PagedCodeRunsIff(alu: Alu, sig: Signature, reserved: nat, body: seq<Op>, frame: seq<Word>, r0: Reg,
                         e: CodePages.Emitter, pointer: nat, grants: seq<(bool, bool)>)
    requires Commutes(alu) && reserved <= MAX_CONSTANTS
    requires CompileFunction(sig, reserved, body).Ok?
    requires CompileFunction(sig, reserved, body).value.maxStackSlots < |frame|
    requires TeesFed(body)
    requires CodePages.Inv(e) && CodePages.Ready(e)
    requires var prog := Program(CompileFunction(sig, reserved, body).value, pointer);
             |grants| == |prog| && CodePages.EmitAll(e, prog, grants).Some?
    requires FirstLocal(sig) <= |frame| ==> !Run(alu, body, Config(InitialLocals(sig, frame), [])).Trap?
    ensures var fn := CompileFunction(sig, reserved, body).value;
            var prog := Program(fn, pointer);
            var pages := CodePages.EmitAll(e, prog, grants).value.s.pages;
            (fn.numRetAndArgSlots + fn.numLocals + |fn.constants| <= fn.maxStackSlots)
            && ((exists steps :: Thread(alu, fn, pages, CodePages.Here(e.s.pages, e.page), steps, Running(frame, r0)) == Call(alu, fn, frame))
                <==> CodePages.SelectsHaveRoom(e, prog, grants))
  {
    CompilerPreservesMeaning(alu, sig, reserved, body, frame);
    hide CodePages.Inv, CodePages.EmitAll, CodePages.SelectsHaveRoom, CompileFunction, Exec, Run, Thread, Program, TeesFed,
         Commutes, NoReturn;
    var fn := CompileFunction(sig, reserved, body).value;
    var prog := Program(fn, pointer);
    var pages := CodePages.EmitAll(e, prog, grants).value.s.pages;
    var start := CodePages.Here(e.s.pages, e.page);
    var m := Running(frame, r0);
    if CodePages.SelectsHaveRoom(e, prog, grants) {
      var n := PagedCodePreservesMeaning(alu, sig, reserved, body, frame, r0, e, pointer, grants);
    } else {
      var k, n := LostSelectFaults(alu, fn, frame, r0, e, pointer, grants);
      OnlyEndReturns(sig, reserved, body);
      PrefixRuns(alu, fn.code, k, Enter(fn, frame));
      forall steps ensures Thread(alu, fn, pages, start, steps, m) != Call(alu, fn, frame) {
        if steps <= n && !Thread(alu, fn, pages, start, steps, m).Running? {
          StoppedStays(alu, fn, pages, start, steps, n, m);
        } else if steps > n {
          StoppedStays(alu, fn, pages, start, n, steps, m);
        }
      }
    }
  }

  lemma PrefixRuns(alu: Alu, code: seq<Instr>, k: nat, m: State)
    requires m.Running? && k < |code| && NoReturn(code[..|code| - 1]) && Exec(alu, code, m).Returned?
    ensures Exec(alu, code[..k], m).Running?
  {
    assert code[..k] == code[..|code| - 1][..k];
    hide Exec;
    assert NoReturn(code[..k]);
    NeverReturns(alu, code[..k], m);
    StoppedAt(alu, code, k, m);
  }

  lemma StoppedAt(alu: Alu, code: seq<Instr>, k: nat, m: State)
    requires k <= |code|
    ensures !Exec(alu, code[..k], m).Running? ==> Exec(alu, code, m) == Exec(alu, code[..k], m)
  {
    hide Exec;
    assert code[..k] + code[k..] == code;
    if !Exec(alu, code[..k], m).Running? {
      ExecStopped(alu, code[..k], code[k..], m);
    }
  }
}
