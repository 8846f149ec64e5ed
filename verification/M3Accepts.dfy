/**
 Which bodies the compiler accepts. It does not validate Wasm on its own account, but every
 body it accepts is valid except for one hole: Compile_SetLocal pops nothing for `local.tee`,
 so a tee with no operand compiles, copying the last local. The hole is described exactly.
 */
module M3Accepts {
  import opened Words
  import opened Basics
  import opened M3Machine
  import opened WasmSemantics
  import opened M3Compile
  import opened M3Correct

  /** Operand and local counts match the compilation record, or execution trapped. */
  ghost predicate Tracks(c: Comp, w: Config) {
    match w
    case Config(locals, stack) => |locals| == |c.layout.locals| && |stack| == |c.stack|
    case Trap => true
    case Stuck => false
  }

  lemma OpTracks(alu: Alu, c: Comp, op: Op, w: Config)
    requires Valid(c) && CompileOp(c, op).Ok? && Tracks(c, w)
    requires op.LocalTee? ==> c.stack != []
    ensures Tracks(CompileOp(c, op).value, Eval(alu, op, w))
  {
    hide CompileConst, Operate, PreserveRegister, FindReferenced;
    OpHeight(c, op);
  }

  lemma {:induction false} BodyTracks(alu: Alu, c: Comp, body: seq<Op>, w: Config)
    requires Valid(c) && CompileOps(c, body).Ok? && Tracks(c, w) && c.stack == []
    requires TeesFed(body)
    ensures Tracks(CompileOps(c, body).value, Run(alu, body, w))
  {
    if body != [] {
      var n := |body| - 1;
      var d := CompileOps(c, body[..n]).value;
      TeesFedPrefix(body, n);
      BodyTracks(alu, c, body[..n], w);
      BodyHeight(c, body[..n]);
      OpTracks(alu, d, body[n], Run(alu, body[..n], w));
    }
  }

  lemma {:induction false} StuckForever(alu: Alu, body: seq<Op>, n: nat, w: Config)
    requires n <= |body| && Run(alu, body[..n], w) == Stuck
    ensures Run(alu, body, w) == Stuck
    decreases |body|
  {
    if n == |body| {
      assert body[..n] == body;
    } else {
      var pre := body[..|body| - 1];
      assert pre[..n] == body[..n];
      StuckForever(alu, pre, n, w);
    }
  }

  lemma {:induction false} PrefixCompiles(c: Comp, body: seq<Op>, n: nat)
    requires Valid(c) && CompileOps(c, body).Ok? && n <= |body|
    ensures CompileOps(c, body[..n]).Ok?
    decreases |body|
  {
    if n == |body| {
      assert body[..n] == body;
    } else {
      var pre := body[..|body| - 1];
      assert pre[..n] == body[..n];
      PrefixCompiles(c, pre, n);
    }
  }

  /** The first tee without an operand, if there is one. */
  lemma FirstUnfedTee(body: seq<Op>) returns (k: nat)
    requires !TeesFed(body)
    ensures k < |body| && body[k].LocalTee? && Height(body[..k]) < 1
    ensures TeesFed(body[..k])
  {
    k :| k < |body| && body[k].LocalTee? && Height(body[..k]) < 1;
    while !TeesFed(body[..k])
      invariant k < |body| && body[k].LocalTee? && Height(body[..k]) < 1
      decreases k
    {
      var pre := body[..k];
      var j: nat :| j < k && pre[j].LocalTee? && Height(pre[..j]) < 1;
      assert pre[..j] == body[..j];
      k := j;
    }
  }

  const TOTAL := Alu((_, a) => a, (_, a, _) => Some(a))

  lemma {:induction false} TotalNeverTraps(body: seq<Op>, w: Config)
    requires !w.Trap?
    ensures !Run(TOTAL, body, w).Trap?
  {
    if body != [] {
      TotalNeverTraps(body[..|body| - 1], w);
    }
  }

  lemma UnfedTeeSticks(c: Comp, body: seq<Op>, w: Config)
    requires Valid(c) && CompileOps(c, body).Ok? && c.stack == []
    requires w.Config? && Tracks(c, w) && !TeesFed(body)
    ensures Run(TOTAL, body, w) == Stuck
  {
    var k := FirstUnfedTee(body);
    PrefixCompiles(c, body, k);
    BodyTracks(TOTAL, c, body[..k], w);
    BodyHeight(c, body[..k]);
    TotalNeverTraps(body[..k], w);
    assert body[..k + 1][..k] == body[..k];
    StuckForever(TOTAL, body, k + 1, w);
  }

  /** An accepted body has a meaning on every arithmetic unit if and only if every `local.tee`
      in it finds an operand. */
  lemma AcceptedIffTeesFed(sig: Signature, reserved: nat, body: seq<Op>, locals: seq<Word>)
    requires reserved <= MAX_CONSTANTS && CompileFunction(sig, reserved, body).Ok?
    requires |locals| == sig.args + sig.locals
    ensures TeesFed(body) <==> forall alu :: Run(alu, body, Config(locals, [])) != Stuck
  {
    hide Run, CompileOps;
    var c := Begin(sig, reserved).value;
    var w := Config(locals, []);
    if TeesFed(body) {
      forall alu ensures Run(alu, body, w) != Stuck {
        BodyTracks(alu, c, body, w);
      }
    } else {
      UnfedTeeSticks(c, body, w);
    }
  }

  /** The hole is real: one tee, one argument, no operand. */
  lemma UnfedTeeAccepted()
    ensures CompileFunction(Signature(0, 1, 0), 0, [LocalTee(0)]).Ok?
    ensures !TeesFed([LocalTee(0)])
  {
    var body := [LocalTee(0)];
    assert body[..0] == [];
    var c := Begin(Signature(0, 1, 0), 0).value;
    assert CompileOps(c, body[..0]) == Ok(c);
    assert Assign(c, 0).Ok?;
  }
}
