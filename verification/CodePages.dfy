/**
 * Where compiled code lives (kernel/lib/wasm3/m3_code.c, m3_env.c and the emit helpers of
 * m3_compile.c).  Code is appended to fixed-size pages; when a page runs low, a branch to
 * another page bridges the gap.
 */
module CodePages {
  import opened Words
  import opened Basics

  const THRESHOLD := 6            // d_m3CodePageFreeLinesThreshold
  const BRIDGE := 2
  const HEADER := 24              // sizeof (M3CodePageHeader), 64-bit pointers
  const WORD := 8
  const ALIGN := 32768

  datatype Pc = Pc(page: nat, line: nat)

  datatype Line = OpLine(op: nat) | Operand(x: nat) | BranchLine | TargetLine(at: Pc)

  datatype Page = Page(numLines: nat, code: seq<Line>)

  // The runtime's page lists and counters; `released` belongs to the environment.
  datatype Store = Store(pages: seq<Page>, open: seq<nat>, full: seq<nat>, released: seq<nat>, total: nat, active: nat)

  function Free(pages: seq<Page>, p: nat): int
    requires p < |pages|
  {
    pages[p].numLines - |pages[p].code|
  }

  // What NumFreeLines returns: the difference in 32 bits.
  function Room(pages: seq<Page>, p: nat): Word
    requires p < |pages|
  {
    Wrap(Free(pages, p))
  }

  function Here(pages: seq<Page>, p: nat): Pc
    requires p < |pages|
  {
    Pc(p, |pages[p].code|)
  }

  function Append(pages: seq<Page>, p: nat, lines: seq<Line>): (r: seq<Page>)
    requires p < |pages|
    ensures |r| == |pages|
  {
    pages[p := pages[p].(code := pages[p].code + lines)]
  }

  // ---- New pages: the 32-bit size arithmetic of NewCodePage -------------------

  function NewPageLines(min: Word): Option<nat> {
    if min > 0xFFFF_FFFF / WORD then None
    else
      var size := Wrap(HEADER + WORD * min);
      if size < HEADER then None
      else
        var rounded := Wrap(size + ALIGN - 1);
        var aligned := rounded - rounded % ALIGN;
        if aligned == 0 then None else if aligned < HEADER then None else Some((aligned - HEADER) / WORD)
  }

  // A page that is granted has room for what was asked, is the least such multiple of 32 KB, and
  // sizes are refused exactly when they do not fit 32 bits.
  lemma NewPageFits(min: Word)
    ensures NewPageLines(min).Some? <==> HEADER + WORD * min <= 0x1_0000_0000 - ALIGN
    ensures NewPageLines(min).Some? ==> min <= NewPageLines(min).value < TWO32
    ensures NewPageLines(min).Some? ==> var n := NewPageLines(min).value; n < min + 4096 && (24 + 8 * n) % 32768 == 0
  {
    if min <= 0xFFFF_FFFF / WORD {
      var exact := HEADER + WORD * min;
      if exact < 0x1_0000_0000 {
        assert Wrap(exact) == exact;
        var sum := exact + ALIGN - 1;
        if sum < 0x1_0000_0000 {
          assert Wrap(sum) == sum;
          assert sum - sum % ALIGN >= exact;
          assert exact <= 0x1_0000_0000 - ALIGN;
        } else {
          assert Wrap(sum) == sum - 0x1_0000_0000 < ALIGN;
        }
      } else {
        assert Wrap(exact) == exact - 0x1_0000_0000 < HEADER;
      }
    }
  }

  // ---- Page lists ---------------------------------------------------------------

  // Position in the list of the first page with room, or its length.
  function FindRoom(pages: seq<Page>, list: seq<nat>, min: nat): (k: nat)
    requires forall i :: 0 <= i < |list| ==> list[i] < |pages|
    ensures k <= |list|
    ensures k < |list| ==> Room(pages, list[k]) >= min
    ensures forall i :: 0 <= i < k ==> Room(pages, list[i]) < min
  {
    if list == [] then 0
    else if Room(pages, list[0]) >= min then 0
    else 1 + FindRoom(pages, list[1..], min)
  }

  function Without(list: seq<nat>, k: nat): seq<nat>
    requires k < |list|
  {
    list[..k] + list[k + 1..]
  }

  datatype Acquired = Acquired(s: Store, page: Option<nat>)

  predicate Listed(s: Store) {
    && (forall i :: 0 <= i < |s.open| ==> s.open[i] < |s.pages|)
    && (forall i :: 0 <= i < |s.full| ==> s.full[i] < |s.pages|)
    && (forall i :: 0 <= i < |s.released| ==> s.released[i] < |s.pages|)
  }

  // AcquireCodePageWithCapacity; `grant` says whether the allocator would serve a new page.
  function Acquire(s: Store, min: Word, grant: bool): (r: Acquired)
    requires Listed(s)
    ensures Listed(r.s) && |s.pages| <= |r.s.pages| && r.s.pages[..|s.pages|] == s.pages
    ensures r.page.Some? ==> r.page.value < |r.s.pages| && r.s.active == s.active + 1
  {
    var k := FindRoom(s.pages, s.open, min);
    if k < |s.open| then
      Acquired(s.(open := Without(s.open, k), active := s.active + 1), Some(s.open[k]))
    else
      var j := FindRoom(s.pages, s.released, min);
      if j < |s.released| then
        Acquired(s.(released := Without(s.released, j), total := s.total + 1, active := s.active + 1), Some(s.released[j]))
      else if grant && NewPageLines(min).Some? then
        Acquired(s.(pages := s.pages + [Page(NewPageLines(min).value, [])], total := s.total + 1, active := s.active + 1),
                 Some(|s.pages|))
      else Acquired(s, None)
  }

  function Release(s: Store, p: nat): (r: Store)
    requires p < |s.pages|
    ensures r.pages == s.pages && (Listed(s) ==> Listed(r))
  {
    var active := if s.active == 0 then 0 else s.active - 1;
    if Room(s.pages, p) < THRESHOLD then s.(full := [p] + s.full, active := active)
    else s.(open := [p] + s.open, active := active)
  }

  // ---- Emitting --------------------------------------------------------------------

  // The page being written, and the pages other parts of the compilation still hold.
  datatype Emitter = Emitter(s: Store, page: nat, saved: seq<nat>)

  predicate Ready(e: Emitter) { Listed(e.s) && e.page < |e.s.pages| }

  function Bridge(e: Emitter, a: Acquired): (r: Emitter)
    requires Ready(e) && Listed(a.s) && a.page.Some? && a.page.value < |a.s.pages| && e.page < |a.s.pages|
    ensures Ready(r) && r.page == a.page.value && r.saved == e.saved
    ensures r.s.active == if a.s.active == 0 then 0 else a.s.active - 1
    ensures r.s.pages == Append(a.s.pages, e.page, [BranchLine, TargetLine(Here(a.s.pages, a.page.value))])
  {
    var target := Here(a.s.pages, a.page.value);
    Emitter(Release(a.s.(pages := Append(a.s.pages, e.page, [BranchLine, TargetLine(target)])), e.page), a.page.value, e.saved)
  }

  // i_numLines += 2, in 32 bits.
  function Need(lines: Word): Word { Wrap(lines + BRIDGE) }

  // EnsureCodePageNumLines; None is m3Err_mallocFailedCodePage.
  function Ensure(e: Emitter, lines: Word, grant: bool): (r: Option<Emitter>)
    requires Ready(e)
    ensures r.Some? ==> Ready(r.value) && |e.s.pages| <= |r.value.s.pages| && r.value.saved == e.saved
    ensures r.Some? ==> r.value.s.active == e.s.active
  {
    if Room(e.s.pages, e.page) >= Need(lines) then Some(e)
    else
      var a := Acquire(e.s, Need(lines), grant);
      if a.page.Some? then Some(Bridge(e, a)) else None
  }

  datatype Instr = Instr(op: nat, operands: seq<nat>)

  function Operands(xs: seq<nat>): (r: seq<Line>)
    ensures |r| == |xs|
  {
    seq(|xs|, k requires 0 <= k < |xs| => Operand(xs[k]))
  }

  function Lines(i: Instr): (r: seq<Line>)
    ensures |r| == 1 + |i.operands|
  {
    [OpLine(i.op)] + Operands(i.operands)
  }

  function Write(e: Emitter, lines: seq<Line>): (r: Emitter)
    requires Ready(e)
    ensures Ready(r) && |r.s.pages| == |e.s.pages| && r.saved == e.saved && r.page == e.page && r.s.active == e.s.active
  {
    e.(s := e.s.(pages := Append(e.s.pages, e.page, lines)))
  }

  // EmitOp and the operand words after it.
  function EmitOp(e: Emitter, i: Instr, grant: bool): (r: Option<Emitter>)
    requires Ready(e)
    ensures r.Some? ==> Ready(r.value) && |e.s.pages| <= |r.value.s.pages| && r.value.saved == e.saved
    ensures r.Some? ==> r.value.s.active == e.s.active
  {
    match Ensure(e, THRESHOLD, grant)
    case None => None
    case Some(f) => Some(Write(f, Lines(i)))
  }

  // Compile_Select, like the copies of PreserveArgsAndLocals, ignores what EmitOp answers: the
  // slot words follow in any case.
  function EmitSelect(e: Emitter, i: Instr, grant: bool): (r: Emitter)
    requires Ready(e)
    ensures Ready(r)
  {
    match Ensure(e, THRESHOLD, grant)
    case None => Write(e, Operands(i.operands))
    case Some(f) => Write(f, Lines(i))
  }

  // The words of a branch table of `count` targets and a default, of which `read` were decoded.
  function TableInstr(op: nat, slot: nat, count: nat, read: seq<nat>): Instr {
    Instr(op, [slot, count] + read)
  }

  // One target of a branch table: the code for it goes to a page of its own, where each op may
  // be granted a further one, and its address to the table.
  datatype Target = Target(address: nat, grant: bool, body: seq<(Instr, bool)>)

  function Addresses(ts: seq<Target>): (r: seq<nat>)
    ensures |r| == |ts|
  {
    seq(|ts|, k requires 0 <= k < |ts| => ts[k].address)
  }

  // What emission came to, and whether it went on to the end.
  datatype Outcome = Outcome(e: Emitter, ok: bool)

  // Ops one after another, until one finds no room.
  function EmitBody(e: Emitter, body: seq<(Instr, bool)>): (r: Outcome)
    requires Ready(e)
    ensures Ready(r.e) && |e.s.pages| <= |r.e.s.pages| && r.e.saved == e.saved && r.e.s.active == e.s.active
  {
    if body == [] then Outcome(e, true)
    else
      var (i, grant) := body[|body| - 1];
      var before := EmitBody(e, body[..|body| - 1]);
      if !before.ok then before
      else match EmitOp(before.e, i, grant)
        case None => Outcome(before.e, false)
        case Some(f) => Outcome(f, true)
  }

  // AcquireCompilationCodePage, the target's code, ReleaseCompilationCodePage, EmitPointer. When
  // the code finds no room the page is not released.
  function EmitTarget(e: Emitter, t: Target): (r: Outcome)
    requires Ready(e)
    ensures Ready(r.e) && |e.s.pages| <= |r.e.s.pages|
    ensures r.ok ==> r.e.page == e.page && r.e.saved == e.saved
  {
    var a := Acquire(e.s, THRESHOLD, t.grant);
    if a.page == None then Outcome(e, false)
    else
      var inner := EmitBody(Emitter(a.s, a.page.value, [e.page] + e.saved), t.body);
      if !inner.ok then inner
      else Outcome(Write(Emitter(Release(inner.e.s, inner.e.page), e.page, e.saved), [Operand(t.address)]), true)
  }

  function EmitTargets(e: Emitter, ts: seq<Target>): (r: Outcome)
    requires Ready(e)
    ensures Ready(r.e) && |e.s.pages| <= |r.e.s.pages|
    ensures r.ok ==> r.e.page == e.page && r.e.saved == e.saved
  {
    if ts == [] then Outcome(e, true)
    else
      var before := EmitTargets(e, ts[..|ts| - 1]);
      if !before.ok then before else EmitTarget(before.e, ts[|ts| - 1])
  }

  /**
   * Compile_BranchTable: it asks for count + 4 lines, a 32-bit sum, then emits the op, the
   * slot and the count, and target by target its code and its address. `ts` are the targets
   * decoded; decoding may end early.
   */
  function EmitTable(e: Emitter, op: nat, slot: nat, count: Word, ts: seq<Target>, grants: (bool, bool)): (r: Outcome)
    requires Ready(e)
    ensures Ready(r.e)
  {
    match Ensure(e, Wrap(count + 4), grants.0)
    case None => Outcome(e, false)
    case Some(room) =>
      match EmitOp(room, Instr(op, [slot, count]), grants.1)
      case None => Outcome(room, false)
      case Some(f) => EmitTargets(f, ts)
  }

  // ---- Invariant ----------------------------------------------------------------------

  predicate Distinct(list: seq<nat>) {
    forall i, j :: 0 <= i < j < |list| ==> list[i] != list[j]
  }

  // No word lies past numLines, itself a 32-bit number.
  predicate WithinPages(pages: seq<Page>) {
    forall p :: 0 <= p < |pages| ==> |pages[p].code| <= pages[p].numLines < TWO32
  }

  // Every page is in one place: held, or in one of the lists.
  function Known(s: Store, held: seq<nat>): seq<nat> { held + s.open + s.full + s.released }

  // No page is overfull or in two places, and open + full + active equals the total.
  predicate Balanced(s: Store, held: seq<nat>) {
    && Listed(s) && (forall i :: 0 <= i < |held| ==> held[i] < |s.pages|)
    && WithinPages(s.pages) && Distinct(Known(s, held))
    && s.active == |held| && |s.open| + |s.full| + s.active == s.total
  }

  lemma EmptyBalanced()
    ensures Balanced(Store([], [], [], [], 0, 0), [])
  {
    assert Known(Store([], [], [], [], 0, 0), []) == [];
  }

  // Besides, the page being written has room for a bridge.
  predicate Inv(e: Emitter) {
    Balanced(e.s, [e.page] + e.saved) && e.page < |e.s.pages| && Free(e.s.pages, e.page) >= BRIDGE
  }

  lemma RoomIsFree(pages: seq<Page>, p: nat)
    requires WithinPages(pages) && p < |pages|
    ensures Room(pages, p) == Free(pages, p)
  {
    WrapSmall(Free(pages, p));
  }

  lemma NeedIs(lines: Word)
    ensures lines < TWO32 - BRIDGE ==> Need(lines) == lines + BRIDGE
  {
    WrapSmall(lines + BRIDGE);
  }

  // Emitted code stays: pages only grow, and only at their ends.
  predicate Grown(a: seq<Page>, b: seq<Page>) {
    |a| <= |b| && forall p :: 0 <= p < |a| ==> a[p].numLines == b[p].numLines && a[p].code <= b[p].code
  }

  // ---- Reading the code back --------------------------------------------------------------

  datatype Seen = Seen(ops: seq<Instr>, at: Pc)

  predicate HasOperands(code: seq<Line>, l: nat, n: nat) {
    l + n <= |code| && forall k :: l <= k < l + n ==> code[k].Operand?
  }

  // How many operand words an op takes: a fixed number, or as its second operand says (op_BranchTable).
  datatype Shape = Fixed(n: nat) | Counted

  function OperandCount(code: seq<Line>, l: nat, s: Shape): Option<nat> {
    match s
    case Fixed(n) => Some(n)
    case Counted => if l + 2 < |code| && code[l + 2].Operand? then Some(3 + code[l + 2].x) else None
  }

  // The instruction has as many operands as its op takes.
  predicate Shaped(i: Instr, s: Shape) {
    match s
    case Fixed(n) => |i.operands| == n
    case Counted => |i.operands| >= 2 && |i.operands| == 3 + i.operands[1]
  }

  // One step of the machine: follow a branch, or take an op with its operands from the same page.
  function Fetch(pages: seq<Page>, shape: nat -> Shape, at: Pc): Option<Seen> {
    if at.page >= |pages| || at.line >= |pages[at.page].code| then None
    else
      var code := pages[at.page].code;
      match code[at.line]
      case BranchLine =>
        if at.line + 1 < |code| && code[at.line + 1].TargetLine? then Some(Seen([], code[at.line + 1].at)) else None
      case OpLine(op) =>
        (match OperandCount(code, at.line, shape(op))
         case None => None
         case Some(n) =>
           if HasOperands(code, at.line + 1, n) then
             Some(Seen([Instr(op, seq(n, k requires 0 <= k < n => code[at.line + 1 + k].x))], Pc(at.page, at.line + 1 + n)))
           else None)
      case _ => None
  }

  function Walk(pages: seq<Page>, shape: nat -> Shape, at: Pc, steps: nat): Option<Seen>
    decreases steps
  {
    if steps == 0 then Some(Seen([], at))
    else match Fetch(pages, shape, at)
      case None => None
      case Some(first) =>
        match Walk(pages, shape, first.at, steps - 1)
        case None => None
        case Some(rest) => Some(Seen(first.ops + rest.ops, rest.at))
  }

  lemma {:induction false} WalkAppend(pages: seq<Page>, shape: nat -> Shape, at: Pc, m: nat, n: nat)
    requires Walk(pages, shape, at, m).Some?
    requires Walk(pages, shape, Walk(pages, shape, at, m).value.at, n).Some?
    ensures var a := Walk(pages, shape, at, m).value;
      var b := Walk(pages, shape, a.at, n).value;
      Walk(pages, shape, at, m + n) == Some(Seen(a.ops + b.ops, b.at))
    decreases m
  {
    hide Fetch;
    var a := Walk(pages, shape, at, m).value;
    var b := Walk(pages, shape, a.at, n).value;
    if m > 0 {
      var first := Fetch(pages, shape, at).value;
      WalkAppend(pages, shape, first.at, m - 1, n);
      var rest := Walk(pages, shape, first.at, m - 1).value;
      assert first.ops + (rest.ops + b.ops) == a.ops + b.ops;
    } else {
      assert [] + b.ops == b.ops;
    }
  }

  lemma FetchGrown(a: seq<Page>, b: seq<Page>, shape: nat -> Shape, at: Pc)
    requires Grown(a, b) && Fetch(a, shape, at).Some?
    ensures Fetch(b, shape, at) == Fetch(a, shape, at)
  {
    var before, after := a[at.page].code, b[at.page].code;
    assert forall k :: 0 <= k < |before| ==> after[k] == before[k];
    if before[at.line].OpLine? {
      var count := OperandCount(before, at.line, shape(before[at.line].op));
      assert OperandCount(after, at.line, shape(before[at.line].op)) == count;
      var n := count.value;
      assert HasOperands(after, at.line + 1, n);
      assert seq(n, k requires 0 <= k < n => before[at.line + 1 + k].x) == seq(n, k requires 0 <= k < n => after[at.line + 1 + k].x);
    }
  }

  // What has been emitted reads the same for ever after.
  lemma {:induction false} WalkGrown(a: seq<Page>, b: seq<Page>, shape: nat -> Shape, at: Pc, n: nat)
    requires Grown(a, b) && Walk(a, shape, at, n).Some?
    ensures Walk(b, shape, at, n) == Walk(a, shape, at, n)
    decreases n
  {
    hide Fetch, Grown;
    if n > 0 {
      FetchGrown(a, b, shape, at);
      WalkGrown(a, b, shape, Fetch(a, shape, at).value.at, n - 1);
    }
  }

  // ---- Every emission keeps the invariant -----------------------------------------------------

  lemma GrownTransitive(a: seq<Page>, b: seq<Page>, c: seq<Page>)
    requires Grown(a, b) && Grown(b, c)
    ensures Grown(a, c)
  {
    forall p | 0 <= p < |a| ensures a[p].numLines == c[p].numLines && a[p].code <= c[p].code {
      assert b[p].code <= c[p].code;
    }
  }

  lemma AppendGrows(pages: seq<Page>, p: nat, lines: seq<Line>)
    requires p < |pages|
    ensures Grown(pages, Append(pages, p, lines))
    ensures WithinPages(pages) ==> (WithinPages(Append(pages, p, lines)) <==> |lines| <= Free(pages, p))
  {
    var after := Append(pages, p, lines);
    assert |after[p].code| == |pages[p].code| + |lines|;
  }

  lemma AppendTwice(pages: seq<Page>, p: nat, a: seq<Line>, b: seq<Line>)
    requires p < |pages|
    ensures Append(Append(pages, p, a), p, b) == Append(pages, p, a + b)
  {
    assert pages[p].code + a + b == pages[p].code + (a + b);
  }

  lemma WriteKeeps(e: Emitter, lines: seq<Line>)
    requires Inv(e) && Free(e.s.pages, e.page) >= |lines| + BRIDGE
    ensures Ready(e) && Inv(Write(e, lines)) && Grown(e.s.pages, Write(e, lines).s.pages)
  {
    hide Distinct;
    AppendGrows(e.s.pages, e.page, lines);
  }

  // Distinct lists, seen as disjoint parts.
  lemma DistinctParts(a: seq<nat>, b: seq<nat>)
    ensures Distinct(a + b) <==> Distinct(a) && Distinct(b) && (forall i, j :: 0 <= i < |a| && 0 <= j < |b| ==> a[i] != b[j])
  {
    var c := a + b;
    if Distinct(c) {
      forall i, j | 0 <= i < j < |a| ensures a[i] != a[j] { assert c[i] != c[j]; }
      forall i, j | 0 <= i < j < |b| ensures b[i] != b[j] { assert c[|a| + i] != c[|a| + j]; }
      forall i, j | 0 <= i < |a| && 0 <= j < |b| ensures a[i] != b[j] { assert c[i] != c[|a| + j]; }
    }
  }

  // Distinctness only depends on which pages occur how often.
  lemma DistinctIffCounts(a: seq<nat>)
    ensures Distinct(a) <==> forall x :: multiset(a)[x] <= 1
  {
    if a != [] {
      var front, last := a[..|a| - 1], a[|a| - 1];
      assert a == front + [last];
      DistinctIffCounts(front);
      DistinctParts(front, [last]);
      assert multiset(a) == multiset(front) + multiset([last]);
      if Distinct(a) {
        assert last !in front;
      } else if forall x :: multiset(a)[x] <= 1 {
        assert forall x :: multiset(front)[x] <= multiset(a)[x];
        assert multiset(a)[last] <= 1;
        assert last !in multiset(front);
      }
    }
  }

  lemma DistinctSameCounts(a: seq<nat>, b: seq<nat>)
    requires multiset(a) == multiset(b) && Distinct(a)
    ensures Distinct(b)
  {
    DistinctIffCounts(a);
    DistinctIffCounts(b);
  }

  lemma WithoutCounts(list: seq<nat>, k: nat)
    requires k < |list|
    ensures multiset(list) == multiset(Without(list, k)) + multiset{list[k]}
  {
    assert list == list[..k] + [list[k]] + list[k + 1..];
  }

  lemma TakeOut(a: seq<nat>, list: seq<nat>, k: nat, b: seq<nat>)
    requires k < |list| && Distinct(a + list + b)
    ensures Distinct([list[k]] + a + Without(list, k) + b)
  {
    hide Distinct;
    WithoutCounts(list, k);
    DistinctSameCounts(a + list + b, [list[k]] + a + Without(list, k) + b);
  }

  lemma PutIn(x: nat, y: nat, h: seq<nat>, a: seq<nat>, b: seq<nat>)
    requires Distinct([x] + ([y] + h) + a + b)
    ensures x != y && Distinct(([x] + h) + ([y] + a) + b) && Distinct(([x] + h) + a + ([y] + b))
  {
    var all := [x] + ([y] + h) + a + b;
    assert all[0] != all[1];
    DistinctSameCounts(all, ([x] + h) + ([y] + a) + b);
    DistinctSameCounts(all, ([x] + h) + a + ([y] + b));
  }

  lemma PutBack(y: nat, h: seq<nat>, a: seq<nat>, b: seq<nat>)
    requires Distinct(([y] + h) + a + b)
    ensures Distinct(h + ([y] + a) + b) && Distinct(h + a + ([y] + b))
  {
    var all := ([y] + h) + a + b;
    DistinctSameCounts(all, h + ([y] + a) + b);
    DistinctSameCounts(all, h + a + ([y] + b));
  }

  // The acquired page has room and moved from its list (or from nowhere) to the held ones; no code changed.
  predicate Acquisition(s: Store, held: seq<nat>, min: nat, a: Acquired) {
    && a.page.Some? && a.page.value < |a.s.pages| && Balanced(a.s, [a.page.value] + held)
    && |s.pages| <= |a.s.pages| && (forall p :: 0 <= p < |s.pages| ==> a.s.pages[p] == s.pages[p])
    && Free(a.s.pages, a.page.value) >= min
  }

  // An open or a released page has this many lines left, or a new page will be granted.
  predicate CanAcquire(s: Store, min: Word, grant: bool)
    requires Listed(s)
  {
    || (exists i :: 0 <= i < |s.open| && Free(s.pages, s.open[i]) >= min)
    || (exists i :: 0 <= i < |s.released| && Free(s.pages, s.released[i]) >= min)
    || (grant && NewPageLines(min).Some?)
  }

  lemma AcquireKeeps(s: Store, held: seq<nat>, min: Word, grant: bool, a: Acquired)
    requires Balanced(s, held) && a == Acquire(s, min, grant)
    ensures a.page.Some? ==> Acquisition(s, held, min, a)
    ensures a.page == None ==> a.s == s
    ensures a.page.Some? <==> CanAcquire(s, min, grant)
  {
    hide NewPageLines, Distinct, Known, Room, WithinPages, Free;
    forall p: nat | p < |s.pages| ensures Room(s.pages, p) == Free(s.pages, p) { RoomIsFree(s.pages, p); }
    var k := FindRoom(s.pages, s.open, min);
    if k < |s.open| {
      AcquireOpen(s, held, k, a);
    } else {
      var j := FindRoom(s.pages, s.released, min);
      if j < |s.released| {
        AcquireReleased(s, held, j, a);
      } else if grant && NewPageLines(min).Some? {
        AcquireNew(s, held, min, a);
      }
    }
  }

  lemma AcquireOpen(s: Store, held: seq<nat>, k: nat, a: Acquired)
    requires Balanced(s, held) && k < |s.open|
    requires a == Acquired(s.(open := Without(s.open, k), active := s.active + 1), Some(s.open[k]))
    ensures Acquisition(s, held, Free(s.pages, s.open[k]), a)
  {
    hide Distinct;
    assert held + s.open + (s.full + s.released) == Known(s, held);
    TakeOut(held, s.open, k, s.full + s.released);
    assert Known(a.s, [a.page.value] + held) == [a.page.value] + held + a.s.open + (a.s.full + a.s.released);
  }

  lemma AcquireReleased(s: Store, held: seq<nat>, j: nat, a: Acquired)
    requires Balanced(s, held) && j < |s.released|
    requires a == Acquired(s.(released := Without(s.released, j), total := s.total + 1, active := s.active + 1),
                           Some(s.released[j]))
    ensures Acquisition(s, held, Free(s.pages, s.released[j]), a)
  {
    hide Distinct;
    assert held + s.open + s.full + s.released + [] == Known(s, held);
    TakeOut(held + s.open + s.full, s.released, j, []);
    assert Known(a.s, [a.page.value] + held) == [a.page.value] + (held + a.s.open + a.s.full) + a.s.released + [];
  }

  lemma AcquireNew(s: Store, held: seq<nat>, min: Word, a: Acquired)
    requires Balanced(s, held) && NewPageLines(min).Some?
    requires a == Acquired(s.(pages := s.pages + [Page(NewPageLines(min).value, [])], total := s.total + 1,
                              active := s.active + 1), Some(|s.pages|))
    ensures Acquisition(s, held, min, a)
  {
    hide NewPageLines;
    NewPageFits(min);
    var n := |s.pages|;
    DistinctParts([n], Known(s, held));
    assert Known(a.s, [n] + held) == [n] + Known(s, held);
    forall i | 0 <= i < |Known(s, held)| ensures Known(s, held)[i] < n { }
  }

  // The old page gets its bridge, goes back to a list, and the new page takes over.
  lemma BridgeKeeps(e: Emitter, min: nat, a: Acquired)
    requires Inv(e) && min >= BRIDGE && Acquisition(e.s, [e.page] + e.saved, min, a)
    ensures Ready(e) && e.page < |a.s.pages| && a.page.value < |a.s.pages| && e.page != a.page.value && Listed(a.s)
    ensures var f := Bridge(e, a);
      Inv(f) && Grown(e.s.pages, f.s.pages) && Free(f.s.pages, f.page) >= min
  {
    hide Distinct;
    var x, s := a.page.value, a.s;
    assert Known(s, [x] + ([e.page] + e.saved)) == [x] + ([e.page] + e.saved) + s.open + (s.full + s.released);
    PutIn(x, e.page, e.saved, s.open, s.full + s.released);
    assert forall i :: 0 <= i < |e.saved| ==> ([x] + ([e.page] + e.saved))[i + 2] == e.saved[i];
    var f := Bridge(e, a);
    AppendGrows(s.pages, e.page, [BranchLine, TargetLine(Here(s.pages, x))]);
    GrownTransitive(e.s.pages, s.pages, f.s.pages);
    assert Known(f.s, [x] + e.saved)
        == if Room(f.s.pages, e.page) < THRESHOLD then ([x] + e.saved) + s.open + ([e.page] + (s.full + s.released))
           else ([x] + e.saved) + ([e.page] + s.open) + (s.full + s.released);
  }

  // Room is to be had, on this page or another.
  predicate HasRoom(e: Emitter, min: Word, grant: bool)
    requires Ready(e)
  {
    Free(e.s.pages, e.page) >= min || CanAcquire(e.s, min, grant)
  }

  // EnsureCodePageNumLines succeeds exactly if there is room for what it makes of the request.
  lemma EnsureKeeps(e: Emitter, lines: Word, grant: bool, r: Option<Emitter>)
    requires Inv(e) && r == Ensure(e, lines, grant)
    ensures r.Some? <==> HasRoom(e, Need(lines), grant)
    ensures r.Some? ==> Inv(r.value) && Grown(e.s.pages, r.value.s.pages) && Free(r.value.s.pages, r.value.page) >= Need(lines)
  {
    hide Acquire, Bridge, Distinct, Known, Need, Room;
    RoomIsFree(e.s.pages, e.page);
    GrownSelf(e.s.pages);
    if Free(e.s.pages, e.page) < Need(lines) {
      var a := Acquire(e.s, Need(lines), grant);
      AcquireKeeps(e.s, [e.page] + e.saved, Need(lines), grant, a);
      if a.page.Some? { BridgeKeeps(e, Need(lines), a); }
    }
  }

  // A bridge is one step of the machine and shows no op.
  lemma EnsureReads(e: Emitter, lines: Word, grant: bool, r: Option<Emitter>, shape: nat -> Shape)
    returns (steps: nat)
    requires Inv(e) && r == Ensure(e, lines, grant) && r.Some?
    ensures Inv(r.value)
    ensures Walk(r.value.s.pages, shape, Here(e.s.pages, e.page), steps)
         == Some(Seen([], Here(r.value.s.pages, r.value.page)))
  {
    hide Acquire, Bridge, Distinct, Known, Need, Room;
    EnsureKeeps(e, lines, grant, r);
    RoomIsFree(e.s.pages, e.page);
    if Free(e.s.pages, e.page) >= Need(lines) {
      steps := 0;
    } else {
      steps := 1;
      var a := Acquire(e.s, Need(lines), grant);
      AcquireKeeps(e.s, [e.page] + e.saved, Need(lines), grant, a);
      BridgeKeeps(e, Need(lines), a);
      BridgeReads(a.s.pages, e.page, r.value.page, shape);
    }
  }

  lemma BridgeReads(pages: seq<Page>, p: nat, q: nat, shape: nat -> Shape)
    requires p < |pages| && q < |pages| && p != q
    ensures var after := Append(pages, p, [BranchLine, TargetLine(Here(pages, q))]);
      Walk(after, shape, Here(pages, p), 1) == Some(Seen([], Here(after, q)))
  {
    var after := Append(pages, p, [BranchLine, TargetLine(Here(pages, q))]);
    var at := Here(pages, p);
    assert after[p].code[at.line] == BranchLine && after[p].code[at.line + 1] == TargetLine(Here(pages, q));
    assert Fetch(after, shape, at) == Some(Seen([], Here(after, q)));
    assert Walk(after, shape, Here(after, q), 0) == Some(Seen([], Here(after, q)));
    var none: seq<Instr> := [];
    assert none + none == none;
  }

  lemma OpReads(pages: seq<Page>, p: nat, i: Instr, shape: nat -> Shape)
    requires p < |pages| && Shaped(i, shape(i.op))
    ensures var after := Append(pages, p, Lines(i));
      Walk(after, shape, Here(pages, p), 1) == Some(Seen([i], Here(after, p)))
  {
    var after := Append(pages, p, Lines(i));
    var at, code := Here(pages, p), after[p].code;
    assert code[at.line] == OpLine(i.op);
    forall k | 0 <= k < |i.operands| ensures code[at.line + 1 + k] == Operand(i.operands[k]) { }
    assert HasOperands(code, at.line + 1, |i.operands|);
    var n := |i.operands|;
    assert OperandCount(code, at.line, shape(i.op)) == Some(n);
    assert seq(n, k requires 0 <= k < n => code[at.line + 1 + k].x) == i.operands;
    assert Pc(p, at.line + 1 + n) == Here(after, p);
    assert Fetch(after, shape, at) == Some(Seen([i], Here(after, p)));
    assert Walk(after, shape, Here(after, p), 0) == Some(Seen([], Here(after, p)));
    assert [i] + [] == [i];
  }

  lemma GrownSelf(pages: seq<Page>) ensures Grown(pages, pages) { }

  lemma WalkNothing(pages: seq<Page>, shape: nat -> Shape, at: Pc)
    ensures Walk(pages, shape, at, 0) == Some(Seen([], at))
  {
  }

  // Reading on from where an earlier read ended, after the pages have grown.
  lemma JoinReads(p0: seq<Page>, p1: seq<Page>, shape: nat -> Shape, start: Pc, n0: nat, n1: nat,
                  ops0: seq<Instr>, ops1: seq<Instr>, at0: Pc, at1: Pc)
    requires Grown(p0, p1)
    requires Walk(p0, shape, start, n0) == Some(Seen(ops0, at0))
    requires Walk(p1, shape, at0, n1) == Some(Seen(ops1, at1))
    ensures Walk(p1, shape, start, n0 + n1) == Some(Seen(ops0 + ops1, at1))
  {
    hide Walk, Grown;
    WalkGrown(p0, p1, shape, start, n0);
    WalkAppend(p1, shape, start, n0, n1);
  }

  /**
   * One op: the invariant is kept, in particular room for a bridge remains, no page is
   * overfull and nothing emitted before moved; and reading from where the emitter was
   * yields exactly this op, whichever bridges were laid.
   */
  lemma EmitOpReads(e: Emitter, i: Instr, grant: bool, r: Option<Emitter>, shape: nat -> Shape)
    returns (steps: nat)
    requires Inv(e) && r == EmitOp(e, i, grant) && r.Some? && Shaped(i, shape(i.op))
    requires |Lines(i)| <= THRESHOLD || Free(e.s.pages, e.page) >= |Lines(i)| + BRIDGE
    ensures Inv(r.value) && Grown(e.s.pages, r.value.s.pages)
    ensures Walk(r.value.s.pages, shape, Here(e.s.pages, e.page), steps)
         == Some(Seen([i], Here(r.value.s.pages, r.value.page)))
  {
    hide Ensure, Walk, Lines, Distinct, Fetch, Grown, Known, Balanced;
    InvReady(e);
    var f := Ensure(e, THRESHOLD, grant);
    EnsureKeeps(e, THRESHOLD, grant, f);
    RoomForAll(e, i, grant, f.value);
    var n := EnsureReads(e, THRESHOLD, grant, f, shape);
    WriteKeeps(f.value, Lines(i));
    OpReads(f.value.s.pages, f.value.page, i, shape);
    GrownTransitive(e.s.pages, f.value.s.pages, r.value.s.pages);
    JoinReads(f.value.s.pages, r.value.s.pages, shape, Here(e.s.pages, e.page), n, 1, [], [i],
              Here(f.value.s.pages, f.value.page), Here(r.value.s.pages, r.value.page));
    steps := n + 1;
    assert [] + [i] == [i];
  }

  lemma InvReady(e: Emitter)
    requires Inv(e)
    ensures Ready(e)
  {
  }

  // Enough lines are left for the op and a bridge after it.
  lemma RoomForAll(e: Emitter, i: Instr, grant: bool, f: Emitter)
    requires Inv(e) && Ensure(e, THRESHOLD, grant) == Some(f)
    requires |Lines(i)| <= THRESHOLD || Free(e.s.pages, e.page) >= |Lines(i)| + BRIDGE
    ensures Free(f.s.pages, f.page) >= |Lines(i)| + BRIDGE
  {
    hide Distinct, Known, Acquire, Bridge;
    EnsureKeeps(e, THRESHOLD, grant, Some(f));
    NeedIs(THRESHOLD);
    RoomIsFree(e.s.pages, e.page);
  }

  // ---- Branch tables -----------------------------------------------------------------------------

  // The room asked for, as long as the 32-bit request count + 6 does not wrap.
  lemma TableRoom(e: Emitter, count: Word, grant: bool, room: Option<Emitter>)
    requires Inv(e) && room == Ensure(e, Wrap(count + 4), grant) && room.Some? && count < TWO32 - 6
    ensures Inv(room.value) && Grown(e.s.pages, room.value.s.pages) && Free(room.value.s.pages, room.value.page) >= count + 6
  {
    hide Ensure, Inv, Grown;
    WrapSmall(count + 4);
    NeedIs(Wrap(count + 4));
    EnsureKeeps(e, Wrap(count + 4), grant, room);
  }

  // Ops as the compiler emits them: within what EmitOp asks for.
  predicate OpsSized(body: seq<(Instr, bool)>) {
    forall k :: 0 <= k < |body| ==> |Lines(body[k].0)| <= THRESHOLD
  }

  predicate TargetsSized(ts: seq<Target>) { forall k :: 0 <= k < |ts| ==> OpsSized(ts[k].body) }

  // Emission leaves the pages put aside alone.
  lemma EnsureSparesHeld(e: Emitter, lines: Word, grant: bool, q: nat)
    requires Inv(e) && q in e.saved && Ensure(e, lines, grant).Some?
    ensures q < |e.s.pages| <= |Ensure(e, lines, grant).value.s.pages|
    ensures q != e.page && Ensure(e, lines, grant).value.s.pages[q] == e.s.pages[q]
  {
    hide Need, Room;
    HeldApart(e, q);
    var f := Ensure(e, lines, grant).value;
    if Room(e.s.pages, e.page) < Need(lines) {
      var a := Acquire(e.s, Need(lines), grant);
      hide Acquire, Release;
      assert a.s.pages[..|e.s.pages|][q] == a.s.pages[q];
    }
  }

  lemma HeldApart(e: Emitter, q: nat)
    requires Inv(e) && q in e.saved
    ensures q < |e.s.pages| && q != e.page
  {
    var i :| 0 <= i < |e.saved| && e.saved[i] == q;
    var all := Known(e.s, [e.page] + e.saved);
    assert ([e.page] + e.saved)[i + 1] == q;
    assert all[0] == e.page && all[i + 1] == q;
  }

  lemma EmitOpSparesHeld(e: Emitter, i: Instr, grant: bool, q: nat)
    requires Inv(e) && q in e.saved && EmitOp(e, i, grant).Some?
    ensures q < |e.s.pages| <= |EmitOp(e, i, grant).value.s.pages|
    ensures EmitOp(e, i, grant).value.s.pages[q] == e.s.pages[q]
  {
    hide Ensure, Inv;
    assert Ready(e) by { InvReady(e); }
    EnsureSparesHeld(e, THRESHOLD, grant, q);
    EnsureKeeps(e, THRESHOLD, grant, Ensure(e, THRESHOLD, grant));
    HeldApart(Ensure(e, THRESHOLD, grant).value, q);
  }

  // The code of one target, in order, with the invariant kept and held pages left alone.
  lemma {:induction false} BodyKeeps(e: Emitter, body: seq<(Instr, bool)>)
    requires Inv(e) && Ready(e) && OpsSized(body)
    ensures var r := EmitBody(e, body);
      && Inv(r.e) && Grown(e.s.pages, r.e.s.pages)
      && forall q :: q in e.saved ==> q < |e.s.pages| && r.e.s.pages[q] == e.s.pages[q]
    decreases |body|
  {
    hide EmitOp, Grown, Inv, Lines;
    if body == [] {
      GrownSelf(e.s.pages);
      forall q | q in e.saved ensures q < |e.s.pages| { HeldApart(e, q); }
    } else {
      var front := body[..|body| - 1];
      assert OpsSized(front);
      BodyKeeps(e, front);
      var before := EmitBody(e, front);
      var (i, grant) := body[|body| - 1];
      if before.ok && EmitOp(before.e, i, grant).Some? {
        var f := EmitOp(before.e, i, grant);
        OpKeeps(before.e, i, grant, f.value);
        GrownTransitive(e.s.pages, before.e.s.pages, f.value.s.pages);
        forall q | q in e.saved ensures f.value.s.pages[q] == e.s.pages[q] {
          EmitOpSparesHeld(before.e, i, grant, q);
        }
      }
    }
  }

  lemma OpKeeps(e: Emitter, i: Instr, grant: bool, f: Emitter)
    requires Inv(e) && Ready(e) && EmitOp(e, i, grant) == Some(f) && |Lines(i)| <= THRESHOLD
    ensures Inv(f) && Grown(e.s.pages, f.s.pages)
  {
    hide EmitOp, Inv, Grown, Walk, Lines;
    LinesAre(i);
    var n := EmitOpReads(e, i, grant, Some(f), _ => Fixed(|i.operands|));
  }

  lemma LinesAre(i: Instr) ensures |Lines(i)| == 1 + |i.operands| { }

  /**
   * One target: whatever becomes of it no page is overfull; if it is completed, its address
   * is the next word on the table's page, and nothing else changed there.
   */
  lemma TargetKeeps(e: Emitter, t: Target)
    requires Inv(e) && Ready(e) && Free(e.s.pages, e.page) >= 1 + BRIDGE && OpsSized(t.body)
    ensures var r := EmitTarget(e, t);
      WithinPages(r.e.s.pages)
      && (r.ok ==> Inv(r.e) && Grown(e.s.pages, r.e.s.pages)
                   && r.e.s.pages[e.page] == e.s.pages[e.page].(code := e.s.pages[e.page].code + [Operand(t.address)]))
  {
    hide Acquire, EmitBody, Grown, Distinct, Known, Lines;
    var a := Acquire(e.s, THRESHOLD, t.grant);
    AcquireKeeps(e.s, [e.page] + e.saved, THRESHOLD, t.grant, a);
    if a.page.Some? {
      var start := Emitter(a.s, a.page.value, [e.page] + e.saved);
      assert Inv(start) && Ready(start);
      AcquiredGrown(e.s, a);
      BodyKeeps(start, t.body);
      var inner := EmitBody(start, t.body);
      GrownTransitive(e.s.pages, a.s.pages, inner.e.s.pages);
      if inner.ok {
        BackToTable(e, t, a.s.pages, inner.e);
      }
    }
  }

  lemma AcquiredGrown(s: Store, a: Acquired)
    requires |s.pages| <= |a.s.pages| && forall p :: 0 <= p < |s.pages| ==> a.s.pages[p] == s.pages[p]
    ensures Grown(s.pages, a.s.pages)
  {
  }

  // After a target's code its page is released and the table goes on where it was.
  lemma BackToTable(e: Emitter, t: Target, pages: seq<Page>, inner: Emitter)
    requires Inv(e) && Ready(e) && Free(e.s.pages, e.page) >= 1 + BRIDGE
    requires Inv(inner) && Ready(inner) && inner.saved == [e.page] + e.saved && Grown(e.s.pages, inner.s.pages)
    requires |e.s.pages| <= |pages| && |pages| <= |inner.s.pages| && pages[e.page] == e.s.pages[e.page]
    requires inner.s.pages[e.page] == pages[e.page]
    ensures var f := Emitter(Release(inner.s, inner.page), e.page, e.saved);
      && Ready(f) && Inv(Write(f, [Operand(t.address)])) && Grown(e.s.pages, Write(f, [Operand(t.address)]).s.pages)
      && Write(f, [Operand(t.address)]).s.pages[e.page]
         == e.s.pages[e.page].(code := e.s.pages[e.page].code + [Operand(t.address)])
  {
    hide Distinct, Known, Grown, Balanced;
    var f := Emitter(Release(inner.s, inner.page), e.page, e.saved);
    CompilationEnds(inner);
    BalancedReady(f.s, [e.page] + e.saved);
    assert Inv(f);
    WriteKeeps(f, [Operand(t.address)]);
    GrownTransitive(e.s.pages, inner.s.pages, Write(f, [Operand(t.address)]).s.pages);
  }

  lemma BalancedReady(s: Store, held: seq<nat>)
    requires Balanced(s, held)
    ensures Listed(s)
  {
  }

  lemma {:induction false} TargetsKeep(e: Emitter, ts: seq<Target>)
    requires Inv(e) && Ready(e) && Free(e.s.pages, e.page) >= |ts| + BRIDGE && TargetsSized(ts)
    ensures var r := EmitTargets(e, ts);
      WithinPages(r.e.s.pages)
      && (r.ok ==> Inv(r.e) && Grown(e.s.pages, r.e.s.pages)
                   && r.e.s.pages[e.page] == e.s.pages[e.page].(code := e.s.pages[e.page].code + Operands(Addresses(ts))))
    decreases |ts|
  {
    hide EmitTarget, Grown, OpsSized, Balanced;
    if ts == [] {
      GrownSelf(e.s.pages);
      InvWithin(e);
      assert e.s.pages[e.page].code + Operands(Addresses(ts)) == e.s.pages[e.page].code;
    } else {
      var front, t := ts[..|ts| - 1], ts[|ts| - 1];
      TargetsKeep(e, front);
      var before := EmitTargets(e, front);
      assert Operands(Addresses(ts)) == Operands(Addresses(front)) + [Operand(t.address)];
      if before.ok {
        TargetKeeps(before.e, t);
        var r := EmitTarget(before.e, t);
        if r.ok {
          GrownTransitive(e.s.pages, before.e.s.pages, r.e.s.pages);
          assert e.s.pages[e.page].code + Operands(Addresses(front)) + [Operand(t.address)]
              == e.s.pages[e.page].code + Operands(Addresses(ts));
        }
      }
    }
  }

  lemma InvWithin(e: Emitter)
    requires Inv(e)
    ensures WithinPages(e.s.pages)
  {
  }

  // The op, slot and count of a table, with room for `n` addresses and a bridge behind them.
  lemma TableHead(e: Emitter, op: nat, slot: nat, count: Word, n: nat, grants: (bool, bool), f: Emitter, shape: nat -> Shape)
    returns (steps: nat, g: Emitter)
    requires Inv(e) && Ready(e) && count < TWO32 - 6 && n <= count + 1
    requires Ensure(e, Wrap(count + 4), grants.0).Some?
    requires EmitOp(Ensure(e, Wrap(count + 4), grants.0).value, Instr(op, [slot, count]), grants.1) == Some(f)
    ensures Inv(f) && Ready(f) && Grown(e.s.pages, f.s.pages) && Free(f.s.pages, f.page) >= n + BRIDGE
    ensures Ready(g) && Inv(g) && Grown(e.s.pages, g.s.pages) && f == Write(g, Lines(Instr(op, [slot, count])))
    ensures Walk(g.s.pages, shape, Here(e.s.pages, e.page), steps) == Some(Seen([], Here(g.s.pages, g.page)))
  {
    hide Ensure, Grown, Lines, Inv, Walk, Fetch;
    var i := Instr(op, [slot, count]);
    LinesAre(i);
    var room := Ensure(e, Wrap(count + 4), grants.0);
    TableRoom(e, count, grants.0, room);
    var n0 := EnsureReads(e, Wrap(count + 4), grants.0, room, shape);
    g := Ensure(room.value, THRESHOLD, grants.1).value;
    EnsureKeeps(room.value, THRESHOLD, grants.1, Some(g));
    var n1 := EnsureReads(room.value, THRESHOLD, grants.1, Some(g), shape);
    GrownTransitive(e.s.pages, room.value.s.pages, g.s.pages);
    JoinReads(room.value.s.pages, g.s.pages, shape, Here(e.s.pages, e.page), n0, n1, [], [],
              Here(room.value.s.pages, room.value.page), Here(g.s.pages, g.page));
    steps := n0 + n1;
    var none: seq<Instr> := [];
    assert none + none == none;
    HeadRoom(room.value, g, count, grants.1);
    WriteKeeps(g, Lines(i));
    GrownTransitive(e.s.pages, g.s.pages, f.s.pages);
  }

  lemma HeadRoom(room: Emitter, g: Emitter, count: Word, grant: bool)
    requires Inv(room) && Ready(room) && Ensure(room, THRESHOLD, grant) == Some(g)
    requires Free(room.s.pages, room.page) >= count + 6
    ensures Ready(g) && Free(g.s.pages, g.page) >= 3 + (count + 1) + BRIDGE
  {
    hide Distinct, Known, Acquire, Bridge;
    EnsureKeeps(room, THRESHOLD, grant, Some(g));
    NeedIs(THRESHOLD);
    RoomIsFree(room.s.pages, room.page);
  }

  /**
   * A branch table keeps every page within its lines, however many of its targets were decoded
   * and whichever pages are refused on the way, and the invariant if it is completed.
   */
  lemma EmitTableKeeps(e: Emitter, op: nat, slot: nat, count: Word, ts: seq<Target>, grants: (bool, bool), r: Outcome)
    requires Inv(e) && Ready(e) && r == EmitTable(e, op, slot, count, ts, grants)
    requires count < TWO32 - 6 && |ts| <= count + 1 && TargetsSized(ts)
    ensures WithinPages(r.e.s.pages)
    ensures r.ok ==> Inv(r.e) && Grown(e.s.pages, r.e.s.pages)
  {
    hide Ensure, Grown, EmitOp, Lines, Inv, EmitTargets, WithinPages;
    InvWithin(e);
    var room := Ensure(e, Wrap(count + 4), grants.0);
    if room.Some? {
      TableRoom(e, count, grants.0, room);
      InvWithin(room.value);
      var f := EmitOp(room.value, Instr(op, [slot, count]), grants.1);
      if f.Some? {
        var n, g := TableHead(e, op, slot, count, |ts|, grants, f.value, _ => Fixed(0));
        TargetsKeep(f.value, ts);
        if r.ok { GrownTransitive(e.s.pages, f.value.s.pages, r.e.s.pages); }
      }
    }
  }

  // A branch table with all its targets and the default reads back.
  lemma EmitTableReads(e: Emitter, op: nat, slot: nat, ts: seq<Target>, grants: (bool, bool), r: Outcome, shape: nat -> Shape)
    returns (steps: nat)
    requires Inv(e) && Ready(e) && 1 <= |ts| < TWO32 - 5 && shape(op) == Counted && TargetsSized(ts)
    requires r == EmitTable(e, op, slot, |ts| - 1, ts, grants) && r.ok
    ensures Inv(r.e) && Grown(e.s.pages, r.e.s.pages)
    ensures Walk(r.e.s.pages, shape, Here(e.s.pages, e.page), steps)
         == Some(Seen([TableInstr(op, slot, |ts| - 1, Addresses(ts))], Here(r.e.s.pages, r.e.page)))
  {
    hide Ensure, Walk, Fetch, Grown, EmitOp, Lines, Inv, EmitTargets;
    var count: Word := |ts| - 1;
    EmitTableKeeps(e, op, slot, count, ts, grants, r);
    var f := EmitOp(Ensure(e, Wrap(count + 4), grants.0).value, Instr(op, [slot, count]), grants.1).value;
    var n, g := TableHead(e, op, slot, count, |ts|, grants, f, shape);
    TargetsKeep(f, ts);
    TableOnPage(g, f, op, slot, count, Addresses(ts), r.e, shape);
    JoinReads(g.s.pages, r.e.s.pages, shape, Here(e.s.pages, e.page), n, 1, [],
              [TableInstr(op, slot, count, Addresses(ts))], Here(g.s.pages, g.page), Here(r.e.s.pages, r.e.page));
    steps := n + 1;
    assert [] + [TableInstr(op, slot, count, Addresses(ts))] == [TableInstr(op, slot, count, Addresses(ts))];
  }

  // The table's page holds the op, slot, count and addresses in a row.
  lemma TableOnPage(g: Emitter, f: Emitter, op: nat, slot: nat, count: nat, words: seq<nat>, r: Emitter, shape: nat -> Shape)
    requires Ready(g) && f == Write(g, Lines(Instr(op, [slot, count]))) && Ready(r) && r.page == f.page
    requires Grown(f.s.pages, r.s.pages) && shape(op) == Counted && |words| == count + 1
    requires r.s.pages[f.page] == f.s.pages[f.page].(code := f.s.pages[f.page].code + Operands(words))
    ensures Grown(g.s.pages, r.s.pages)
    ensures Walk(r.s.pages, shape, Here(g.s.pages, g.page), 1)
         == Some(Seen([TableInstr(op, slot, count, words)], Here(r.s.pages, r.page)))
  {
    var i := TableInstr(op, slot, count, words);
    var whole := Append(g.s.pages, g.page, Lines(i));
    TableLines(op, slot, count, words);
    AppendTwice(g.s.pages, g.page, Lines(Instr(op, [slot, count])), Operands(words));
    assert whole[g.page] == r.s.pages[g.page];
    AppendGrows(g.s.pages, g.page, Lines(Instr(op, [slot, count])));
    GrownTransitive(g.s.pages, f.s.pages, r.s.pages);
    assert Grown(whole, r.s.pages);
    hide Grown, Walk, Fetch;
    OpReads(g.s.pages, g.page, i, shape);
    WalkGrown(whole, r.s.pages, shape, Here(g.s.pages, g.page), 1);
  }

  lemma TableLines(op: nat, slot: nat, count: nat, words: seq<nat>)
    ensures Lines(TableInstr(op, slot, count, words)) == Lines(Instr(op, [slot, count])) + Operands(words)
  {
  }

  // What a target's own code reads as, from where it starts, once the table is done or later.
  lemma {:induction false} BodyReads(e: Emitter, body: seq<(Instr, bool)>, shape: nat -> Shape)
    returns (steps: nat)
    requires Inv(e) && Ready(e) && OpsSized(body) && EmitBody(e, body).ok
    requires forall k :: 0 <= k < |body| ==> Shaped(body[k].0, shape(body[k].0.op))
    ensures var r := EmitBody(e, body).e;
      Walk(r.s.pages, shape, Here(e.s.pages, e.page), steps) == Some(Seen(Ops(body), Here(r.s.pages, r.page)))
    decreases |body|
  {
    hide EmitOp, Grown, Inv, Lines, Walk, Fetch, Shaped;
    var r := EmitBody(e, body).e;
    if body == [] {
      steps := 0;
      WalkNothing(e.s.pages, shape, Here(e.s.pages, e.page));
    } else {
      var front := body[..|body| - 1];
      var (i, grant) := body[|body| - 1];
      assert OpsSized(front);
      BodyKeeps(e, front);
      var n := BodyReads(e, front, shape);
      var before := EmitBody(e, front).e;
      var more := EmitOpReads(before, i, grant, Some(r), shape);
      assert Ops(body) == Ops(front) + [i];
      JoinReads(before.s.pages, r.s.pages, shape, Here(e.s.pages, e.page), n, more, Ops(front), [i],
                Here(before.s.pages, before.page), Here(r.s.pages, r.page));
      steps := n + more;
    }
  }

  function Ops(body: seq<(Instr, bool)>): (r: seq<Instr>)
    ensures |r| == |body|
  {
    seq(|body|, k requires 0 <= k < |body| => body[k].0)
  }

  /**
   * The code of a completed target reads back from where its page was when the target began,
   * now and after anything emitted later.
   */
  lemma TargetReads(e: Emitter, t: Target, later: seq<Page>, shape: nat -> Shape) returns (steps: nat)
    requires Inv(e) && Ready(e) && Free(e.s.pages, e.page) >= 1 + BRIDGE && OpsSized(t.body)
    requires forall k :: 0 <= k < |t.body| ==> Shaped(t.body[k].0, shape(t.body[k].0.op))
    requires EmitTarget(e, t).ok && Grown(EmitTarget(e, t).e.s.pages, later)
    ensures var a := Acquire(e.s, THRESHOLD, t.grant);
      a.page.Some? && ReadsAs(later, shape, Here(a.s.pages, a.page.value), steps, Ops(t.body))
  {
    hide Acquire, EmitBody, Grown, Distinct, Known, Lines, Walk, Shaped;
    var a := Acquire(e.s, THRESHOLD, t.grant);
    AcquireKeeps(e.s, [e.page] + e.saved, THRESHOLD, t.grant, a);
    var start := Emitter(a.s, a.page.value, [e.page] + e.saved);
    assert Inv(start) && Ready(start);
    steps := BodyReads(start, t.body, shape);
    var inner := EmitBody(start, t.body).e;
    AppendGrows(inner.s.pages, e.page, [Operand(t.address)]);
    GrownTransitive(inner.s.pages, EmitTarget(e, t).e.s.pages, later);
    WalkGrown(inner.s.pages, later, shape, Here(a.s.pages, a.page.value), steps);
  }

  // The branch tables of a given count never write past a page, whatever the pages, the
  // targets decoded and their code.
  ghost predicate TablesStayInPage(count: Word) {
    forall e: Emitter, op: nat, slot: nat, ts: seq<Target>, grants: (bool, bool) ::
      Inv(e) && Ready(e) && |ts| <= count + 1 && TargetsSized(ts) ==>
        WithinPages(EmitTable(e, op, slot, count, ts, grants).e.s.pages)
  }

  // They stay inside exactly if count + 4 + 2 does not wrap.
  lemma TablesStayInPageIff(count: Word)
    ensures TablesStayInPage(count) <==> count < TWO32 - 6
  {
    hide EmitTable, Inv, WithinPages, TargetsSized;
    if count < TWO32 - 6 {
      forall e: Emitter, op: nat, slot: nat, ts: seq<Target>, grants: (bool, bool)
        | Inv(e) && Ready(e) && |ts| <= count + 1 && TargetsSized(ts)
        ensures WithinPages(EmitTable(e, op, slot, count, ts, grants).e.s.pages)
      {
        EmitTableKeeps(e, op, slot, count, ts, grants, EmitTable(e, op, slot, count, ts, grants));
      }
    } else {
      WrappedTableOverruns(count);
    }
  }

  // A page with so many lines written of eight, and an open one beside it.
  function EightLines(code: seq<Line>): Emitter {
    Emitter(Store([Page(8, code), Page(4093, [])], [1], [], [], 2, 1), 0, [])
  }

  lemma EightLinesInv()
    ensures Inv(EightLines([])) && Ready(EightLines([]))
  {
    var e := EightLines([]);
    assert [e.page] + e.saved == [0] && Known(e.s, [0]) == [0, 1];
  }

  // A target without code: its page goes back where it was.
  function Bare(): Target { Target(0, false, []) }

  lemma BareTarget(code: seq<Line>)
    ensures EmitTarget(EightLines(code), Bare()) == Outcome(EightLines(code + [Operand(0)]), true)
  {
    var e := EightLines(code);
    assert Room(e.s.pages, 1) == 4093;
    assert FindRoom(e.s.pages, e.s.open, THRESHOLD) == 0;
    assert Without(e.s.open, 0) == [];
    var s := e.s.(open := [], active := 2);
    assert Acquire(e.s, THRESHOLD, false) == Acquired(s, Some(1));
    assert Release(s, 1) == e.s;
  }

  function Bares(n: nat): seq<Target> { seq(n, _ => Bare()) }

  lemma {:induction false} BareTargets(code: seq<Line>, n: nat) returns (words: seq<Line>)
    ensures |words| == n && EmitTargets(EightLines(code), Bares(n)) == Outcome(EightLines(code + words), true)
    decreases n
  {
    hide EmitTarget;
    if n == 0 {
      words := [];
      assert code + words == code;
    } else {
      var w := BareTargets(code, n - 1);
      assert Bares(n)[..n - 1] == Bares(n - 1);
      BareTarget(code + w);
      words := w + [Operand(0)];
      assert code + w + [Operand(0)] == code + words;
    }
  }

  lemma WrappedTableOverruns(count: Word)
    requires TWO32 - 6 <= count
    ensures Inv(EightLines([])) && Ready(EightLines([])) && TargetsSized(Bares(6))
    ensures !WithinPages(EmitTable(EightLines([]), 1, 0, count, Bares(6), (false, false)).e.s.pages)
  {
    var e := EightLines([]);
    EightLinesInv();
    assert Room(e.s.pages, 0) == 8;
    assert Need(Wrap(count + 4)) == count + 6 - TWO32;
    assert Need(THRESHOLD) == 8;
    var head := Lines(Instr(1, [0, count]));
    assert [] + head == head;
    assert Append(e.s.pages, 0, head) == EightLines(head).s.pages;
    assert EmitOp(e, Instr(1, [0, count]), false) == Some(EightLines(head));
    var words := BareTargets(head, 6);
    hide EmitTargets, Lines;
    assert !(|EightLines(head + words).s.pages[0].code| <= 8);
  }

  // 0xFFFF_FFFC targets: the sum wraps to 2, and the sixth address is past the page.
  lemma WrappedTableExample()
    ensures !TablesStayInPage(0xFFFF_FFFC)
    ensures Need(Wrap(0xFFFF_FFFC + 4)) == 2
  {
    hide TablesStayInPage;
    TablesStayInPageIff(0xFFFF_FFFC);
  }

  // ---- Selects ------------------------------------------------------------------------------------

  /**
   * A select reads back exactly if EmitOp had room: on this page, on an open or released
   * one, or on a new one.
   */
  lemma SelectReadsIff(e: Emitter, i: Instr, grant: bool, shape: nat -> Shape)
    requires Inv(e) && 1 <= |i.operands| && |Lines(i)| <= THRESHOLD && Shaped(i, shape(i.op))
    ensures Ready(e)
    ensures (exists steps :: ReadsAs(EmitSelect(e, i, grant).s.pages, shape, Here(e.s.pages, e.page), steps, [i]))
            <==> HasRoom(e, THRESHOLD + BRIDGE, grant)
  {
    hide Ensure, Distinct, Known, Fetch;
    var f := Ensure(e, THRESHOLD, grant);
    var pages, at := EmitSelect(e, i, grant).s.pages, Here(e.s.pages, e.page);
    NeedIs(THRESHOLD);
    EnsureKeeps(e, THRESHOLD, grant, f);
    if f.Some? {
      var n := EmitOpReads(e, i, grant, Some(EmitSelect(e, i, grant)), shape);
      assert ReadsAs(pages, shape, at, n, [i]);
    } else {
      LostOpSticks(e, i, pages, shape);
      forall steps ensures !ReadsAs(pages, shape, at, steps, [i]) {
        if steps > 0 { StuckStays(pages, shape, at, 0, steps); }
      }
    }
  }

  ghost predicate ReadsAs(pages: seq<Page>, shape: nat -> Shape, at: Pc, steps: nat, ops: seq<Instr>) {
    Walk(pages, shape, at, steps).Some? && Walk(pages, shape, at, steps).value.ops == ops
  }

  // Execution cannot go on here: an operand stands where an op should.
  predicate OperandAt(pages: seq<Page>, at: Pc) {
    at.page < |pages| && at.line < |pages[at.page].code| && pages[at.page].code[at.line].Operand?
  }

  // Without the op word, the first slot word is read as an op.
  lemma LostOpSticks(e: Emitter, i: Instr, pages: seq<Page>, shape: nat -> Shape)
    requires Ready(e) && 1 <= |i.operands| && pages == Append(e.s.pages, e.page, Operands(i.operands))
    ensures OperandAt(pages, Here(e.s.pages, e.page)) && Fetch(pages, shape, Here(e.s.pages, e.page)) == None
    ensures Walk(pages, shape, Here(e.s.pages, e.page), 0) == Some(Seen([], Here(e.s.pages, e.page)))
  {
    var at := Here(e.s.pages, e.page);
    assert pages[at.page].code[at.line] == Operands(i.operands)[0];
  }

  // A walk that ends where nothing can be fetched has no continuation.
  lemma {:induction false} StuckStays(pages: seq<Page>, shape: nat -> Shape, at: Pc, n: nat, steps: nat)
    requires Walk(pages, shape, at, n).Some? && Fetch(pages, shape, Walk(pages, shape, at, n).value.at) == None && n < steps
    ensures Walk(pages, shape, at, steps) == None
    decreases n
  {
    hide Fetch;
    if n > 0 { StuckStays(pages, shape, Fetch(pages, shape, at).value.at, n - 1, steps - 1); }
  }

  // A shorter walk sees no more ops.
  lemma {:induction false} ShorterWalk(pages: seq<Page>, shape: nat -> Shape, at: Pc, m: nat, n: nat)
    requires Walk(pages, shape, at, n).Some? && m <= n
    ensures Walk(pages, shape, at, m).Some?
    ensures |Walk(pages, shape, at, m).value.ops| <= |Walk(pages, shape, at, n).value.ops|
    decreases n
  {
    hide Fetch;
    if m > 0 { ShorterWalk(pages, shape, Fetch(pages, shape, at).value.at, m - 1, n - 1); }
  }

  /**
   * The page bound is another matter: a select stays inside its page exactly if EmitOp had
   * room or the old page happens to have the lines for the slot words.
   */
  lemma SelectStaysInPageIff(e: Emitter, i: Instr, grant: bool)
    requires Inv(e) && |Lines(i)| <= THRESHOLD
    ensures Ready(e)
    ensures WithinPages(EmitSelect(e, i, grant).s.pages)
            <==> HasRoom(e, THRESHOLD + BRIDGE, grant) || |i.operands| <= Free(e.s.pages, e.page)
  {
    hide Ensure, Distinct, Known, HasRoom;
    var f := Ensure(e, THRESHOLD, grant);
    NeedIs(THRESHOLD);
    EnsureKeeps(e, THRESHOLD, grant, f);
    if f.Some? {
      AppendGrows(f.value.s.pages, f.value.page, Lines(i));
    } else {
      AppendGrows(e.s.pages, e.page, Operands(i.operands));
    }
  }

  // One page of ten lines with some of them written, and nothing to acquire.
  function LinesLeft(n: nat): Emitter
    requires n <= 10
  {
    Emitter(Store([Page(10, Operands(seq(10 - n, _ => 0)))], [], [], [], 1, 1), 0, [])
  }

  lemma LinesLeftInv(n: nat)
    requires BRIDGE <= n < THRESHOLD + BRIDGE
    ensures Inv(LinesLeft(n)) && Free(LinesLeft(n).s.pages, 0) == n && !HasRoom(LinesLeft(n), THRESHOLD + BRIDGE, false)
  {
    var e := LinesLeft(n);
    assert [e.page] + e.saved == [0] && Known(e.s, [0]) == [0];
  }

  // Two lines left: the three slot words of a select run past the page.  Seven left: they fit, but the op is lost.
  lemma SelectExamples(shape: nat -> Shape, steps: nat)
    requires shape(1) == Fixed(3)
    ensures Inv(LinesLeft(2)) && !WithinPages(EmitSelect(LinesLeft(2), Instr(1, [2, 3, 4]), false).s.pages)
    ensures Inv(LinesLeft(7)) && WithinPages(EmitSelect(LinesLeft(7), Instr(1, [2, 3, 4]), false).s.pages)
    ensures !ReadsAs(EmitSelect(LinesLeft(7), Instr(1, [2, 3, 4]), false).s.pages, shape, Pc(0, 3), steps, [Instr(1, [2, 3, 4])])
  {
    hide Inv, HasRoom, EmitSelect, ReadsAs;
    LinesLeftInv(2);
    LinesLeftInv(7);
    SelectStaysInPageIff(LinesLeft(2), Instr(1, [2, 3, 4]), false);
    SelectStaysInPageIff(LinesLeft(7), Instr(1, [2, 3, 4]), false);
    SelectReadsIff(LinesLeft(7), Instr(1, [2, 3, 4]), false, shape);
    assert Here(LinesLeft(7).s.pages, 0) == Pc(0, 3);
  }

  // ---- Whole programs ----------------------------------------------------------------------------

  datatype Item = Op(i: Instr) | Select(i: Instr) | Table(op: nat, slot: nat, targets: seq<Target>)

  // What the item looks like in the op stream; the last target of a table is its default.
  function CodeOf(item: Item): Instr {
    match item
    case Op(i) => i
    case Select(i) => i
    case Table(op, slot, targets) => TableInstr(op, slot, if targets == [] then 0 else |targets| - 1, Addresses(targets))
  }

  // The sizes the compiler emits, and room requests that do not wrap (TablesStayInPageIff).
  predicate Sized(item: Item, shape: nat -> Shape) {
    match item
    case Op(i) => |Lines(i)| <= THRESHOLD && Shaped(i, shape(i.op))
    case Select(i) => 1 <= |i.operands| && |Lines(i)| <= THRESHOLD && Shaped(i, shape(i.op))
    case Table(op, _, targets) => 1 <= |targets| < TWO32 - 5 && shape(op) == Counted && TargetsSized(targets)
  }

  function Codes(prog: seq<Item>): (r: seq<Instr>)
    ensures |r| == |prog|
  {
    seq(|prog|, k requires 0 <= k < |prog| => CodeOf(prog[k]))
  }

  // A failed EmitOp ends the compilation, except that a select does not look.
  function Emit(e: Emitter, item: Item, grants: (bool, bool)): (r: Option<Emitter>)
    requires Ready(e)
    ensures r.Some? ==> Ready(r.value)
  {
    match item
    case Op(i) => EmitOp(e, i, grants.1)
    case Select(i) => Some(EmitSelect(e, i, grants.1))
    case Table(op, slot, targets) =>
      if 1 <= |targets| <= TWO32 then
        var r := EmitTable(e, op, slot, |targets| - 1, targets, grants);
        if r.ok then Some(r.e) else None
      else None
  }

  function EmitAll(e: Emitter, prog: seq<Item>, grants: seq<(bool, bool)>): (r: Option<Emitter>)
    requires Ready(e) && |grants| == |prog|
    ensures r.Some? ==> Ready(r.value)
    decreases |prog|
  {
    if prog == [] then Some(e)
    else
      var last := |prog| - 1;
      match EmitAll(e, prog[..last], grants[..last])
      case None => None
      case Some(f) => Emit(f, prog[last], grants[last])
  }

  // At every select there is room for an op, here or on a page to be had.
  ghost predicate SelectsHaveRoom(e: Emitter, prog: seq<Item>, grants: seq<(bool, bool)>)
    requires Ready(e) && |grants| == |prog|
    decreases |prog|
  {
    prog != [] ==>
      var last := |prog| - 1;
      var before := EmitAll(e, prog[..last], grants[..last]);
      && SelectsHaveRoom(e, prog[..last], grants[..last])
      && (prog[last].Select? && before.Some? ==> HasRoom(before.value, THRESHOLD + BRIDGE, grants[last].1))
  }

  // One item with room: kept and read.
  lemma EmitReads(e: Emitter, item: Item, grants: (bool, bool), r: Option<Emitter>, shape: nat -> Shape)
    returns (steps: nat)
    requires Inv(e) && Ready(e) && r == Emit(e, item, grants) && r.Some? && Sized(item, shape)
    requires item.Select? ==> HasRoom(e, THRESHOLD + BRIDGE, grants.1)
    ensures Inv(r.value) && Grown(e.s.pages, r.value.s.pages)
    ensures Walk(r.value.s.pages, shape, Here(e.s.pages, e.page), steps)
         == Some(Seen([CodeOf(item)], Here(r.value.s.pages, r.value.page)))
  {
    hide Inv, Grown, Walk, Ensure, HasRoom, Write, EmitTable;
    match item
    case Op(i) => steps := EmitOpReads(e, i, grants.1, r, shape);
    case Select(i) =>
      NeedIs(THRESHOLD);
      EnsureKeeps(e, THRESHOLD, grants.1, Ensure(e, THRESHOLD, grants.1));
      steps := EmitOpReads(e, i, grants.1, r, shape);
    case Table(op, slot, targets) =>
      steps := EmitTableReads(e, op, slot, targets, grants, EmitTable(e, op, slot, |targets| - 1, targets, grants), shape);
  }

  // Whatever happens, pages only grow.
  lemma EnsureGrows(e: Emitter, lines: Word, grant: bool)
    requires Ready(e)
    ensures Ensure(e, lines, grant).Some? ==> Grown(e.s.pages, Ensure(e, lines, grant).value.s.pages)
  {
    hide Need, Room;
    if Room(e.s.pages, e.page) < Need(lines) {
      var a := Acquire(e.s, Need(lines), grant);
      if a.page.Some? {
        hide Acquire;
        assert forall p :: 0 <= p < |e.s.pages| ==> a.s.pages[p] == a.s.pages[..|e.s.pages|][p];
        AppendGrows(a.s.pages, e.page, [BranchLine, TargetLine(Here(a.s.pages, a.page.value))]);
        GrownTransitive(e.s.pages, a.s.pages, Bridge(e, a).s.pages);
      }
    }
  }

  lemma EmitOpGrows(e: Emitter, i: Instr, grant: bool)
    requires Ready(e)
    ensures EmitOp(e, i, grant).Some? ==> Grown(e.s.pages, EmitOp(e, i, grant).value.s.pages)
  {
    hide Ensure, Grown;
    EnsureGrows(e, THRESHOLD, grant);
    var f := Ensure(e, THRESHOLD, grant);
    if f.Some? {
      AppendGrows(f.value.s.pages, f.value.page, Lines(i));
      GrownTransitive(e.s.pages, f.value.s.pages, EmitOp(e, i, grant).value.s.pages);
    }
  }

  lemma EmitSelectGrows(e: Emitter, i: Instr, grant: bool)
    requires Ready(e)
    ensures Grown(e.s.pages, EmitSelect(e, i, grant).s.pages)
  {
    hide Ensure, Grown, Append;
    EmitOpGrows(e, i, grant);
    AppendGrows(e.s.pages, e.page, Operands(i.operands));
  }

  lemma EmitGrows(e: Emitter, item: Item, grants: (bool, bool))
    requires Ready(e)
    ensures Emit(e, item, grants).Some? ==> Grown(e.s.pages, Emit(e, item, grants).value.s.pages)
  {
    hide EmitOp, EmitSelect, EmitTable, Grown;
    match item
    case Op(i) => EmitOpGrows(e, i, grants.1);
    case Select(i) => EmitSelectGrows(e, i, grants.1);
    case Table(op, slot, targets) =>
      if 1 <= |targets| <= TWO32 {
        TableGrows(e, op, slot, |targets| - 1, targets, grants);
      }
  }

  lemma {:induction false} BodyGrows(e: Emitter, body: seq<(Instr, bool)>)
    requires Ready(e)
    ensures Grown(e.s.pages, EmitBody(e, body).e.s.pages)
    decreases |body|
  {
    hide EmitOp, Grown;
    GrownSelf(e.s.pages);
    if body != [] {
      BodyGrows(e, body[..|body| - 1]);
      var before := EmitBody(e, body[..|body| - 1]);
      var (i, grant) := body[|body| - 1];
      EmitOpGrows(before.e, i, grant);
      if EmitOp(before.e, i, grant).Some? {
        GrownTransitive(e.s.pages, before.e.s.pages, EmitOp(before.e, i, grant).value.s.pages);
      }
    }
  }

  lemma TargetGrows(e: Emitter, t: Target)
    requires Ready(e)
    ensures Grown(e.s.pages, EmitTarget(e, t).e.s.pages)
  {
    hide EmitBody, Acquire, Append;
    GrownSelf(e.s.pages);
    var a := Acquire(e.s, THRESHOLD, t.grant);
    if a.page.Some? {
      assert forall p :: 0 <= p < |e.s.pages| ==> a.s.pages[p] == a.s.pages[..|e.s.pages|][p];
      assert Grown(e.s.pages, a.s.pages);
      hide Grown;
      var inner := EmitBody(Emitter(a.s, a.page.value, [e.page] + e.saved), t.body);
      BodyGrows(Emitter(a.s, a.page.value, [e.page] + e.saved), t.body);
      GrownTransitive(e.s.pages, a.s.pages, inner.e.s.pages);
      AppendGrows(inner.e.s.pages, e.page, [Operand(t.address)]);
      GrownTransitive(e.s.pages, inner.e.s.pages, Append(inner.e.s.pages, e.page, [Operand(t.address)]));
    }
  }

  lemma {:induction false} TargetsGrow(e: Emitter, ts: seq<Target>)
    requires Ready(e)
    ensures Grown(e.s.pages, EmitTargets(e, ts).e.s.pages)
    decreases |ts|
  {
    hide EmitTarget, Grown;
    GrownSelf(e.s.pages);
    if ts != [] {
      TargetsGrow(e, ts[..|ts| - 1]);
      var before := EmitTargets(e, ts[..|ts| - 1]);
      TargetGrows(before.e, ts[|ts| - 1]);
      GrownTransitive(e.s.pages, before.e.s.pages, EmitTarget(before.e, ts[|ts| - 1]).e.s.pages);
    }
  }

  lemma TableGrows(e: Emitter, op: nat, slot: nat, count: Word, ts: seq<Target>, grants: (bool, bool))
    requires Ready(e)
    ensures Grown(e.s.pages, EmitTable(e, op, slot, count, ts, grants).e.s.pages)
  {
    hide Ensure, EmitOp, EmitTargets, Grown;
    GrownSelf(e.s.pages);
    EnsureGrows(e, Wrap(count + 4), grants.0);
    var room := Ensure(e, Wrap(count + 4), grants.0);
    if room.Some? {
      var i := Instr(op, [slot, count]);
      EmitOpGrows(room.value, i, grants.1);
      var f := EmitOp(room.value, i, grants.1);
      if f.Some? {
        GrownTransitive(e.s.pages, room.value.s.pages, f.value.s.pages);
        TargetsGrow(f.value, ts);
        GrownTransitive(e.s.pages, f.value.s.pages, EmitTargets(f.value, ts).e.s.pages);
      }
    }
  }

  lemma CodesSnoc(prog: seq<Item>)
    requires prog != []
    ensures Codes(prog) == Codes(prog[..|prog| - 1]) + [CodeOf(prog[|prog| - 1])]
  {
    hide CodeOf;
  }

  /**
   * Page breaks are invisible: with room at every select, a program that is emitted reads
   * back as that program, however the pages fall and whichever new pages are granted, and
   * at every step the page lists and counters balance.
   */
  lemma {:induction false} PageBreaksInvisible(e: Emitter, prog: seq<Item>, grants: seq<(bool, bool)>, shape: nat -> Shape)
    returns (steps: nat)
    requires Inv(e) && Ready(e) && |grants| == |prog| && EmitAll(e, prog, grants).Some?
    requires forall k :: 0 <= k < |prog| ==> Sized(prog[k], shape)
    requires SelectsHaveRoom(e, prog, grants)
    ensures var f := EmitAll(e, prog, grants).value;
      Inv(f) && Grown(e.s.pages, f.s.pages)
      && Walk(f.s.pages, shape, Here(e.s.pages, e.page), steps) == Some(Seen(Codes(prog), Here(f.s.pages, f.page)))
    decreases |prog|
  {
    hide Walk, Grown, Inv, Emit, Sized, CodeOf, HasRoom;
    var start := Here(e.s.pages, e.page);
    if prog == [] {
      steps := 0;
      GrownSelf(e.s.pages);
      WalkNothing(e.s.pages, shape, start);
    } else {
      var last := |prog| - 1;
      var n := PageBreaksInvisible(e, prog[..last], grants[..last], shape);
      var f := EmitAll(e, prog[..last], grants[..last]).value;
      var g := EmitAll(e, prog, grants).value;
      var more := EmitReads(f, prog[last], grants[last], Some(g), shape);
      GrownTransitive(e.s.pages, f.s.pages, g.s.pages);
      CodesSnoc(prog);
      JoinReads(f.s.pages, g.s.pages, shape, start, n, more, Codes(prog[..last]), [CodeOf(prog[last])],
                Here(f.s.pages, f.page), Here(g.s.pages, g.page));
      steps := n + more;
    }
  }

  // Reading ends for good after these ops.
  ghost predicate Sticks(pages: seq<Page>, shape: nat -> Shape, start: Pc, n: nat, ops: seq<Instr>) {
    && Walk(pages, shape, start, n).Some? && Walk(pages, shape, start, n).value.ops == ops
    && OperandAt(pages, Walk(pages, shape, start, n).value.at)
  }

  lemma SticksGrown(a: seq<Page>, b: seq<Page>, shape: nat -> Shape, start: Pc, n: nat, ops: seq<Instr>)
    requires Grown(a, b) && Sticks(a, shape, start, n, ops)
    ensures Sticks(b, shape, start, n, ops)
  {
    hide Walk;
    WalkGrown(a, b, shape, start, n);
    var at := Walk(a, shape, start, n).value.at;
    assert b[at.page].code[at.line] == a[at.page].code[at.line];
  }

  // Without room at some select, the stream is cut there, whatever is emitted later.
  lemma {:induction false} LostSelectSticks(e: Emitter, prog: seq<Item>, grants: seq<(bool, bool)>, shape: nat -> Shape)
    returns (n: nat, k: nat)
    requires Inv(e) && Ready(e) && |grants| == |prog| && EmitAll(e, prog, grants).Some?
    requires forall j :: 0 <= j < |prog| ==> Sized(prog[j], shape)
    requires !SelectsHaveRoom(e, prog, grants)
    ensures k < |prog| && prog[k].Select?
    ensures Sticks(EmitAll(e, prog, grants).value.s.pages, shape, Here(e.s.pages, e.page), n, Codes(prog[..k]))
    decreases |prog|
  {
    hide Walk, Grown, Inv, Emit, Sized, Sticks, HasRoom;
    var last := |prog| - 1;
    var front, gs := prog[..last], grants[..last];
    var f := EmitAll(e, front, gs).value;
    var g := EmitAll(e, prog, grants).value;
    if !SelectsHaveRoom(e, front, gs) {
      n, k := LostSelectSticks(e, front, gs, shape);
      EmitGrows(f, prog[last], grants[last]);
      assert front[..k] == prog[..k];
      SticksGrown(f.s.pages, g.s.pages, shape, Here(e.s.pages, e.page), n, Codes(front[..k]));
    } else {
      n := PageBreaksInvisible(e, front, gs, shape);
      k := last;
      SelectSticks(f, prog[last], grants[last], g, shape, e, front, n);
    }
  }

  lemma SelectSticks(f: Emitter, item: Item, grants: (bool, bool), g: Emitter, shape: nat -> Shape,
                     e: Emitter, front: seq<Item>, n: nat)
    requires Inv(f) && Ready(f) && e.page < |e.s.pages| && Emit(f, item, grants) == Some(g) && item.Select? && Sized(item, shape)
    requires !HasRoom(f, THRESHOLD + BRIDGE, grants.1)
    requires Walk(f.s.pages, shape, Here(e.s.pages, e.page), n) == Some(Seen(Codes(front), Here(f.s.pages, f.page)))
    ensures Sticks(g.s.pages, shape, Here(e.s.pages, e.page), n, Codes(front))
  {
    hide Walk, Grown, Inv, Ensure, HasRoom, Fetch, Codes;
    NeedIs(THRESHOLD);
    EnsureKeeps(f, THRESHOLD, grants.1, Ensure(f, THRESHOLD, grants.1));
    LostOpSticks(f, item.i, g.s.pages, shape);
    AppendGrows(f.s.pages, f.page, Operands(item.i.operands));
    WalkGrown(f.s.pages, g.s.pages, shape, Here(e.s.pages, e.page), n);
  }

  lemma OperandStops(pages: seq<Page>, shape: nat -> Shape, at: Pc)
    requires OperandAt(pages, at)
    ensures Fetch(pages, shape, at) == None
  {
  }

  /**
   * Main theorem: a program that is emitted without an error reads back, following the
   * bridges, if and only if there was room at every select.
   */
  lemma ReadsBackIff(e: Emitter, prog: seq<Item>, grants: seq<(bool, bool)>, shape: nat -> Shape)
    requires Inv(e) && Ready(e) && |grants| == |prog| && EmitAll(e, prog, grants).Some?
    requires forall k :: 0 <= k < |prog| ==> Sized(prog[k], shape)
    ensures (exists steps :: ReadsAs(EmitAll(e, prog, grants).value.s.pages, shape, Here(e.s.pages, e.page), steps, Codes(prog)))
            <==> SelectsHaveRoom(e, prog, grants)
  {
    hide Walk, Inv, Fetch, Sized, EmitAll, SelectsHaveRoom, Codes;
    var pages, start := EmitAll(e, prog, grants).value.s.pages, Here(e.s.pages, e.page);
    if SelectsHaveRoom(e, prog, grants) {
      var n := PageBreaksInvisible(e, prog, grants, shape);
      assert ReadsAs(pages, shape, start, n, Codes(prog));
    } else {
      var n, k := LostSelectSticks(e, prog, grants, shape);
      OperandStops(pages, shape, Walk(pages, shape, start, n).value.at);
      forall steps ensures !ReadsAs(pages, shape, start, steps, Codes(prog)) {
        if steps <= n { ShorterWalk(pages, shape, start, steps, n); } else { StuckStays(pages, shape, start, n, steps); }
      }
    }
  }

  // A compilation starts on an acquired page and ends by releasing it; both keep the balance.
  lemma CompilationStarts(s: Store, held: seq<nat>, grant: bool)
    requires Balanced(s, held)
    ensures var a := Acquire(s, THRESHOLD, grant);
      (a.page.Some? ==> Inv(Emitter(a.s, a.page.value, held))) && (a.page == None ==> a.s == s)
  {
    hide Acquire, Distinct, Known;
    AcquireKeeps(s, held, THRESHOLD, grant, Acquire(s, THRESHOLD, grant));
  }

  lemma CompilationEnds(e: Emitter)
    requires Inv(e)
    ensures Balanced(Release(e.s, e.page), e.saved)
    ensures Release(e.s, e.page).total == e.s.total
  {
    hide Distinct;
    var s, r := e.s, Release(e.s, e.page);
    assert Known(s, [e.page] + e.saved) == ([e.page] + e.saved) + s.open + (s.full + s.released);
    PutBack(e.page, e.saved, s.open, s.full + s.released);
    assert forall i :: 0 <= i < |e.saved| ==> ([e.page] + e.saved)[i + 1] == e.saved[i];
    assert Known(r, e.saved)
        == if Room(s.pages, e.page) < THRESHOLD then e.saved + s.open + ([e.page] + (s.full + s.released))
           else e.saved + ([e.page] + s.open) + (s.full + s.released);
  }
}

/** The runtime's page lists and the emit helpers, updated step by step. */
module CodeRuntime {
  import opened Words
  import opened Basics
  import opened CodePages

  class Runtime {
    var pages: seq<Page>
    var pagesOpen: seq<nat>
    var pagesFull: seq<nat>
    var pagesReleased: seq<nat>
    var numCodePages: nat
    var numActiveCodePages: nat
    var page: nat                 // the compilation's current page
    var saved: seq<nat>           // pages it has put aside

    ghost function Lists(): Store
      reads this
    {
      Store(pages, pagesOpen, pagesFull, pagesReleased, numCodePages, numActiveCodePages)
    }

    ghost function View(): Emitter
      reads this
    {
      Emitter(Lists(), page, saved)
    }

    constructor ()
      ensures Balanced(Lists(), []) && saved == [] && pages == []
    {
      pages, pagesOpen, pagesFull, pagesReleased, saved := [], [], [], [], [];
      numCodePages, numActiveCodePages, page := 0, 0, 0;
      new;
      EmptyBalanced();
      hide Balanced;
    }

    // EmitWord writes wherever lineIndex points; that this is inside the page is proved of its callers.
    method EmitWord(p: nat, line: Line)
      requires p < |pages|
      modifies this`pages
      ensures pages == Append(old(pages), p, [line])
    {
      pages := pages[p := pages[p].(code := pages[p].code + [line])];
    }

    // The list walk of RemoveCodePageOfCapacity: the page taken out and the list left.
    method RemoveCodePageOfCapacity(list: seq<nat>, min: nat) returns (rest: seq<nat>, found: Option<nat>)
      requires forall i :: 0 <= i < |list| ==> list[i] < |pages|
      ensures var k := FindRoom(pages, list, min);
        if k < |list| then found == Some(list[k]) && rest == Without(list, k) else found == None && rest == list
    {
      hide Room;
      var k := 0;
      while k < |list|
        invariant 0 <= k <= |list|
        invariant forall i :: 0 <= i < k ==> Room(pages, list[i]) < min
      {
        if Room(pages, list[k]) >= min {
          return list[..k] + list[k + 1..], Some(list[k]);
        }
        k := k + 1;
      }
      return list, None;
    }

    method AcquireCodePageWithCapacity(min: Word, grant: bool) returns (r: Option<nat>)
      requires Listed(Lists())
      modifies this`pages, this`pagesOpen, this`pagesReleased, this`numCodePages, this`numActiveCodePages
      ensures Acquired(Lists(), r) == Acquire(old(Lists()), min, grant)
      ensures r.Some? ==> numActiveCodePages > 0
    {
      hide Room, NewPageLines;
      var rest, found := RemoveCodePageOfCapacity(pagesOpen, min);
      pagesOpen := rest;
      if found == None {
        rest, found := RemoveCodePageOfCapacity(pagesReleased, min);
        pagesReleased := rest;
        if found == None && grant && NewPageLines(min).Some? {
          found := Some(|pages|);
          pages := pages + [Page(NewPageLines(min).value, [])];
        }
        if found.Some? { numCodePages := numCodePages + 1; }
      }
      if found.Some? { numActiveCodePages := numActiveCodePages + 1; }
      return found;
    }

    method ReleaseCodePage(p: nat)
      requires p < |pages| && numActiveCodePages > 0
      modifies this`pagesOpen, this`pagesFull, this`numActiveCodePages
      ensures Lists() == Release(old(Lists()), p)
    {
      if Room(pages, p) < THRESHOLD {
        pagesFull := [p] + pagesFull;
      } else {
        pagesOpen := [p] + pagesOpen;
      }
      numActiveCodePages := numActiveCodePages - 1;
    }

    method EnsureCodePageNumLines(numLines: Word, grant: bool) returns (ok: bool)
      requires Ready(View())
      modifies this
      ensures match Ensure(old(View()), numLines, grant)
        case Some(e) => ok && View() == e
        case None => !ok && View() == old(View())
      ensures Ready(View())
    {
      hide Acquire, Need, Room;
      if Room(pages, page) >= Need(numLines) { return true; }
      ghost var a := Acquire(Lists(), Need(numLines), grant);
      FailureChangesNothing(Lists(), Need(numLines), grant);
      var next := AcquireCodePageWithCapacity(Need(numLines), grant);
      if next == None { return false; }
      var pc := Here(pages, next.value);
      EmitWord(page, BranchLine);
      EmitWord(page, TargetLine(pc));
      AppendTwice(a.s.pages, page, [BranchLine], [TargetLine(pc)]);
      assert [BranchLine] + [TargetLine(pc)] == [BranchLine, TargetLine(pc)];
      hide Append;
      ReleaseCodePage(page);
      page := next.value;
      return true;
    }

    // The words after an op, one at a time.
    method EmitOperands(xs: seq<nat>)
      requires page < |pages|
      modifies this`pages
      ensures pages == Append(old(pages), page, Operands(xs))
    {
      var k := 0;
      assert Operands(xs)[..0] == [];
      AppendNothing(pages, page);
      while k < |xs|
        invariant 0 <= k <= |xs| && |pages| == |old(pages)|
        invariant pages == Append(old(pages), page, Operands(xs)[..k])
      {
        AppendTwice(old(pages), page, Operands(xs)[..k], [Operand(xs[k])]);
        assert Operands(xs)[..k + 1] == Operands(xs)[..k] + [Operand(xs[k])];
        EmitWord(page, Operand(xs[k]));
        k := k + 1;
      }
      assert Operands(xs)[..k] == Operands(xs);
    }

    // EmitOp and its operand words.
    method EmitOp(i: Instr, grant: bool) returns (ok: bool)
      requires Ready(View())
      modifies this
      ensures match CodePages.EmitOp(old(View()), i, grant)
        case Some(e) => ok && View() == e
        case None => !ok && View() == old(View())
    {
      hide Ensure;
      ok := EnsureCodePageNumLines(THRESHOLD, grant);
      if ok {
        ghost var before := pages;
        EmitWord(page, OpLine(i.op));
        EmitOperands(i.operands);
        AppendTwice(before, page, [OpLine(i.op)], Operands(i.operands));
      }
    }

    // Compile_Select's emission: EmitOp's answer is not looked at.
    method EmitSelect(i: Instr, grant: bool)
      requires Ready(View())
      modifies this
      ensures View() == CodePages.EmitSelect(old(View()), i, grant)
    {
      hide Ensure;
      var ok := EnsureCodePageNumLines(THRESHOLD, grant);
      ghost var before := pages;
      if ok { EmitWord(page, OpLine(i.op)); }
      EmitOperands(i.operands);
      if ok { AppendTwice(before, page, [OpLine(i.op)], Operands(i.operands)); }
    }

    // The ops of one target, until one finds no room.
    method EmitBody(body: seq<(Instr, bool)>) returns (ok: bool)
      requires Ready(View())
      modifies this
      ensures Outcome(View(), ok) == CodePages.EmitBody(old(View()), body)
    {
      hide CodePages.EmitOp;
      var k := 0;
      while k < |body|
        invariant 0 <= k <= |body| && Ready(View())
        invariant Outcome(View(), true) == CodePages.EmitBody(old(View()), body[..k])
      {
        BodyStep(old(View()), body, k);
        ok := EmitOp(body[k].0, body[k].1);
        if !ok { return; }
        k := k + 1;
      }
      assert body[..k] == body;
      return true;
    }

    // One target of a branch table, on a page of its own.
    method EmitTarget(t: Target) returns (ok: bool)
      requires Ready(View())
      modifies this
      ensures Outcome(View(), ok) == CodePages.EmitTarget(old(View()), t)
    {
      hide Acquire, CodePages.EmitBody;
      FailureChangesNothing(Lists(), THRESHOLD, t.grant);
      var continueOpPage := AcquireCodePageWithCapacity(THRESHOLD, t.grant);
      if continueOpPage == None { return false; }
      var savedPage := page;
      saved := [page] + saved;
      page := continueOpPage.value;
      ok := EmitBody(t.body);
      if !ok { return; }
      ReleaseCodePage(page);
      page := savedPage;
      saved := saved[1..];
      EmitWord(page, Operand(t.address));
    }

    // Compile_BranchTable: room for the table first, in 32 bits; `ts` are the targets decoded.
    method EmitTable(op: nat, slot: nat, count: Word, ts: seq<Target>, grants: (bool, bool)) returns (ok: bool)
      requires Ready(View())
      modifies this
      ensures Outcome(View(), ok) == CodePages.EmitTable(old(View()), op, slot, count, ts, grants)
    {
      hide Ensure, CodePages.EmitTarget, CodePages.EmitOp;
      ok := EnsureCodePageNumLines(Wrap(count + 4), grants.0);
      if !ok { return; }
      ok := EmitOp(Instr(op, [slot, count]), grants.1);
      if !ok { return; }
      ghost var start := View();
      var k := 0;
      while k < |ts|
        invariant 0 <= k <= |ts| && Ready(View())
        invariant Outcome(View(), true) == EmitTargets(start, ts[..k])
      {
        TargetsStep(start, ts, k);
        ok := EmitTarget(ts[k]);
        if !ok { return; }
        k := k + 1;
      }
      assert ts[..k] == ts;
      return true;
    }
  }

  lemma BodyStep(e: Emitter, body: seq<(Instr, bool)>, k: nat)
    requires Ready(e) && k < |body|
    ensures var before := CodePages.EmitBody(e, body[..k]);
      before.ok ==>
        match CodePages.EmitOp(before.e, body[k].0, body[k].1)
        case None => CodePages.EmitBody(e, body[..k + 1]) == CodePages.EmitBody(e, body) == Outcome(before.e, false)
        case Some(f) => CodePages.EmitBody(e, body[..k + 1]) == Outcome(f, true)
  {
    hide CodePages.EmitOp;
    assert body[..k + 1][..k] == body[..k];
    if !CodePages.EmitBody(e, body[..k + 1]).ok { BodyStops(e, body, k + 1); }
  }

  lemma {:induction false} BodyStops(e: Emitter, body: seq<(Instr, bool)>, k: nat)
    requires Ready(e) && k <= |body| && !CodePages.EmitBody(e, body[..k]).ok
    ensures CodePages.EmitBody(e, body) == CodePages.EmitBody(e, body[..k])
    decreases |body|
  {
    hide CodePages.EmitOp;
    if k == |body| {
      assert body[..k] == body;
    } else {
      assert body[..|body| - 1][..k] == body[..k];
      BodyStops(e, body[..|body| - 1], k);
    }
  }

  lemma TargetsStep(e: Emitter, ts: seq<Target>, k: nat)
    requires Ready(e) && k < |ts|
    ensures var before := EmitTargets(e, ts[..k]);
      before.ok ==>
        && EmitTargets(e, ts[..k + 1]) == CodePages.EmitTarget(before.e, ts[k])
        && (!CodePages.EmitTarget(before.e, ts[k]).ok ==> EmitTargets(e, ts) == CodePages.EmitTarget(before.e, ts[k]))
  {
    hide CodePages.EmitTarget;
    assert ts[..k + 1][..k] == ts[..k];
    if !EmitTargets(e, ts[..k + 1]).ok { TargetsStop(e, ts, k + 1); }
  }

  lemma {:induction false} TargetsStop(e: Emitter, ts: seq<Target>, k: nat)
    requires Ready(e) && k <= |ts| && !EmitTargets(e, ts[..k]).ok
    ensures EmitTargets(e, ts) == EmitTargets(e, ts[..k])
    decreases |ts|
  {
    hide CodePages.EmitTarget;
    if k == |ts| {
      assert ts[..k] == ts;
    } else {
      assert ts[..|ts| - 1][..k] == ts[..k];
      TargetsStop(e, ts[..|ts| - 1], k);
    }
  }

  lemma AppendNothing(pages: seq<Page>, p: nat)
    requires p < |pages|
    ensures Append(pages, p, []) == pages
  {
    assert pages[p].code + [] == pages[p].code;
  }

  lemma FailureChangesNothing(s: Store, min: Word, grant: bool)
    requires Listed(s)
    ensures Acquire(s, min, grant).page == None ==> Acquire(s, min, grant).s == s
  {
    hide Room, NewPageLines;
  }
}
