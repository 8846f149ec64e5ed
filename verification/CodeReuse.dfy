/**
 * What the two page lists of the runtime are for (kernel/lib/wasm3/m3_env.c): a page is put
 * where its free lines say, and no page is allocated while a listed one would do.
 */
module CodeReuse {
  import opened Words
  import opened Basics
  import opened CodePages

  // Open pages have room for an op, full ones have not.
  predicate Sorted(s: Store)
    requires Listed(s)
  {
    && (forall i :: 0 <= i < |s.open| ==> Free(s.pages, s.open[i]) >= 6)
    && (forall i :: 0 <= i < |s.full| ==> Free(s.pages, s.full[i]) < 6)
  }

  // ---- One operation ----------------------------------------------------------------

  lemma AcquireSorts(s: Store, min: Word, grant: bool)
    requires Listed(s) && Sorted(s)
    ensures Sorted(Acquire(s, min, grant).s)
  {
    hide Room, NewPageLines;
    var a := Acquire(s, min, grant);
    assert forall p :: 0 <= p < |s.pages| ==> a.s.pages[..|s.pages|][p] == a.s.pages[p];
  }

  lemma ReleaseSorts(s: Store, p: nat)
    requires Listed(s) && Sorted(s) && WithinPages(s.pages) && p < |s.pages|
    ensures Sorted(Release(s, p))
  {
    RoomIsFree(s.pages, p);
    hide Room;
  }

  lemma AppendSorts(s: Store, p: nat, lines: seq<Line>)
    requires Listed(s) && Sorted(s) && p < |s.pages| && p !in s.open && p !in s.full
    ensures Listed(s.(pages := Append(s.pages, p, lines))) && Sorted(s.(pages := Append(s.pages, p, lines)))
  {
  }

  lemma HeldUnlisted(s: Store, held: seq<nat>, q: nat)
    requires Balanced(s, held) && q in held
    ensures q !in s.open && q !in s.full
  {
    DistinctParts(held, s.open + s.full + s.released);
    assert Known(s, held) == held + (s.open + s.full + s.released);
    hide Distinct;
    var rest := s.open + s.full + s.released;
    var i :| 0 <= i < |held| && held[i] == q;
    forall j | 0 <= j < |s.open| ensures s.open[j] != q { assert rest[j] == s.open[j]; }
    forall j | 0 <= j < |s.full| ensures s.full[j] != q { assert rest[|s.open| + j] == s.full[j]; }
  }

  // ---- Through a compilation -----------------------------------------------------------

  lemma WriteSorts(e: Emitter, lines: seq<Line>)
    requires Ready(e) && Balanced(e.s, [e.page] + e.saved) && Sorted(e.s)
    ensures Sorted(Write(e, lines).s)
  {
    hide Balanced, Sorted, Append;
    assert ([e.page] + e.saved)[0] == e.page;
    HeldUnlisted(e.s, [e.page] + e.saved, e.page);
    AppendSorts(e.s, e.page, lines);
  }

  lemma EnsureSorts(e: Emitter, lines: Word, grant: bool)
    requires Inv(e) && Ready(e) && Sorted(e.s) && Ensure(e, lines, grant).Some?
    ensures Sorted(Ensure(e, lines, grant).value.s)
  {
    hide Acquire, Release, Distinct, Known, Room, Need, Sorted, Append, CanAcquire;
    if Room(e.s.pages, e.page) < Need(lines) {
      var a := Acquire(e.s, Need(lines), grant);
      AcquireKeeps(e.s, [e.page] + e.saved, Need(lines), grant, a);
      EnsureKeeps(e, lines, grant, Ensure(e, lines, grant));
      AcquireSorts(e.s, Need(lines), grant);
      BridgeSorts(e, a);
    }
  }

  lemma BridgeSorts(e: Emitter, a: Acquired)
    requires Ready(e) && a.page.Some? && a.page.value < |a.s.pages| && e.page < |a.s.pages|
    requires Balanced(a.s, [a.page.value] + ([e.page] + e.saved)) && Listed(a.s) && Sorted(a.s)
    requires WithinPages(Bridge(e, a).s.pages)
    ensures Sorted(Bridge(e, a).s)
  {
    var lines := [BranchLine, TargetLine(Here(a.s.pages, a.page.value))];
    assert ([a.page.value] + ([e.page] + e.saved))[1] == e.page;
    HeldUnlisted(a.s, [a.page.value] + ([e.page] + e.saved), e.page);
    AppendSorts(a.s, e.page, lines);
    hide Sorted, Balanced, Append;
    ReleaseSorts(a.s.(pages := Append(a.s.pages, e.page, lines)), e.page);
  }

  lemma InvBalanced(e: Emitter)
    requires Inv(e)
    ensures Balanced(e.s, [e.page] + e.saved) && Ready(e)
  {
  }

  lemma OpSorts(e: Emitter, i: Instr, grant: bool)
    requires Inv(e) && Ready(e) && Sorted(e.s) && EmitOp(e, i, grant).Some?
    ensures Sorted(EmitOp(e, i, grant).value.s)
  {
    hide Ensure, Sorted, Inv, Balanced, Write, Lines;
    EnsureSorts(e, THRESHOLD, grant);
    var f := Ensure(e, THRESHOLD, grant);
    EnsureKeeps(e, THRESHOLD, grant, f);
    InvBalanced(f.value);
    WriteSorts(f.value, Lines(i));
  }

  lemma {:induction false} BodySorts(e: Emitter, body: seq<(Instr, bool)>)
    requires Inv(e) && Ready(e) && Sorted(e.s) && OpsSized(body)
    ensures Sorted(EmitBody(e, body).e.s)
    decreases |body|
  {
    hide Inv, Sorted, EmitOp, Lines, Grown;
    if body != [] {
      var front := body[..|body| - 1];
      assert OpsSized(front);
      BodySorts(e, front);
      BodyKeeps(e, front);
      var before := EmitBody(e, front);
      var (i, grant) := body[|body| - 1];
      if before.ok && EmitOp(before.e, i, grant).Some? { OpSorts(before.e, i, grant); }
    }
  }

  lemma TargetSorts(e: Emitter, t: Target)
    requires Inv(e) && Ready(e) && Sorted(e.s) && OpsSized(t.body) && EmitTarget(e, t).ok
    ensures Sorted(EmitTarget(e, t).e.s)
  {
    hide Acquire, EmitBody, Sorted, Distinct, Known, Lines, CanAcquire, Release, Write, Grown;
    var a := Acquire(e.s, THRESHOLD, t.grant);
    AcquireKeeps(e.s, [e.page] + e.saved, THRESHOLD, t.grant, a);
    AcquireSorts(e.s, THRESHOLD, t.grant);
    var start := Emitter(a.s, a.page.value, [e.page] + e.saved);
    assert Inv(start) && Ready(start);
    BodySorts(start, t.body);
    BodyKeeps(start, t.body);
    var inner := EmitBody(start, t.body).e;
    InvWithin(inner);
    ReleaseSorts(inner.s, inner.page);
    CompilationEnds(inner);
    WriteSorts(Emitter(Release(inner.s, inner.page), e.page, e.saved), [Operand(t.address)]);
  }

  lemma {:induction false} TargetsSort(e: Emitter, ts: seq<Target>)
    requires Inv(e) && Ready(e) && Sorted(e.s) && Free(e.s.pages, e.page) >= |ts| + BRIDGE && TargetsSized(ts)
    requires EmitTargets(e, ts).ok
    ensures Sorted(EmitTargets(e, ts).e.s)
    decreases |ts|
  {
    hide Sorted, Inv, EmitTarget, OpsSized, Grown;
    if ts != [] {
      var front := ts[..|ts| - 1];
      TargetsSort(e, front);
      TargetsKeep(e, front);
      TargetSorts(EmitTargets(e, front).e, ts[|ts| - 1]);
    }
  }

  lemma TableSorts(e: Emitter, op: nat, slot: nat, count: Word, ts: seq<Target>, grants: (bool, bool))
    requires Inv(e) && Ready(e) && Sorted(e.s) && count < TWO32 - 6 && |ts| <= count + 1 && TargetsSized(ts)
    requires EmitTable(e, op, slot, count, ts, grants).ok
    ensures Sorted(EmitTable(e, op, slot, count, ts, grants).e.s)
  {
    hide Ensure, EmitOp, Inv, EmitTargets, Sorted, Grown, Lines, Walk;
    var room := Ensure(e, Wrap(count + 4), grants.0);
    var f := EmitOp(room.value, Instr(op, [slot, count]), grants.1);
    TableRoom(e, count, grants.0, room);
    var n, g := TableHead(e, op, slot, count, |ts|, grants, f.value, _ => Fixed(0));
    EnsureSorts(e, Wrap(count + 4), grants.0);
    OpSorts(room.value, Instr(op, [slot, count]), grants.1);
    TargetsSort(f.value, ts);
  }

  lemma EmitSorts(e: Emitter, item: Item, grants: (bool, bool), shape: nat -> Shape)
    requires Inv(e) && Ready(e) && Sorted(e.s) && Emit(e, item, grants).Some? && Sized(item, shape)
    requires item.Select? ==> HasRoom(e, THRESHOLD + BRIDGE, grants.1)
    ensures Sorted(Emit(e, item, grants).value.s)
  {
    hide Inv, Sorted, EmitOp, EmitTable, Ensure, HasRoom, Write, Lines;
    match item
    case Op(i) => OpSorts(e, i, grants.1);
    case Select(i) =>
      NeedIs(THRESHOLD);
      EnsureKeeps(e, THRESHOLD, grants.1, Ensure(e, THRESHOLD, grants.1));
      SelectIsOp(e, i, grants.1);
      OpSorts(e, i, grants.1);
    case Table(op, slot, targets) => TableSorts(e, op, slot, |targets| - 1, targets, grants);
  }

  // With room for it, a select is emitted like any op.
  lemma SelectIsOp(e: Emitter, i: Instr, grant: bool)
    requires Ready(e) && Ensure(e, THRESHOLD, grant).Some?
    ensures EmitOp(e, i, grant) == Some(EmitSelect(e, i, grant))
  {
  }

  lemma {:induction false} ProgramSorts(e: Emitter, prog: seq<Item>, grants: seq<(bool, bool)>, shape: nat -> Shape)
    requires Inv(e) && Ready(e) && Sorted(e.s) && |grants| == |prog| && EmitAll(e, prog, grants).Some?
    requires forall k :: 0 <= k < |prog| ==> Sized(prog[k], shape)
    requires SelectsHaveRoom(e, prog, grants)
    ensures Sorted(EmitAll(e, prog, grants).value.s)
    decreases |prog|
  {
    hide Inv, Sorted, Emit, Sized, HasRoom, Walk, Grown;
    if prog != [] {
      var last := |prog| - 1;
      ProgramSorts(e, prog[..last], grants[..last], shape);
      var n := PageBreaksInvisible(e, prog[..last], grants[..last], shape);
      EmitSorts(EmitAll(e, prog[..last], grants[..last]).value, prog[last], grants[last], shape);
    }
  }

  /**
   * Main theorem: a compilation that takes a page, emits any program across any number of
   * pages and gives its last page back leaves every listed page in the right list.
   */
  lemma CompilationSorts(s: Store, held: seq<nat>, grant: bool, prog: seq<Item>, grants: seq<(bool, bool)>, shape: nat -> Shape)
    requires Balanced(s, held) && Listed(s) && Sorted(s) && Acquire(s, THRESHOLD, grant).page.Some? && |grants| == |prog|
    requires forall k :: 0 <= k < |prog| ==> Sized(prog[k], shape)
    requires var a := Acquire(s, THRESHOLD, grant); var e := Emitter(a.s, a.page.value, held);
      EmitAll(e, prog, grants).Some? && SelectsHaveRoom(e, prog, grants)
    ensures var a := Acquire(s, THRESHOLD, grant);
      var f := EmitAll(Emitter(a.s, a.page.value, held), prog, grants).value;
      Balanced(Release(f.s, f.page), f.saved) && Sorted(Release(f.s, f.page))
  {
    hide Balanced, Sorted, Acquire, EmitAll, SelectsHaveRoom, Inv, Release, Sized, Walk, Grown;
    var a := Acquire(s, THRESHOLD, grant);
    var e := Emitter(a.s, a.page.value, held);
    CompilationStarts(s, held, grant);
    AcquireSorts(s, THRESHOLD, grant);
    ProgramSorts(e, prog, grants, shape);
    var n := PageBreaksInvisible(e, prog, grants, shape);
    var f := EmitAll(e, prog, grants).value;
    CompilationEnds(f);
    InvWithin(f);
    ReleaseSorts(f.s, f.page);
  }

  // ---- What the order is good for -------------------------------------------------------

  /**
   * A request the compiler makes costs a page more than the runtime has exactly if no listed
   * page, open or full, has the lines; the full list need not be searched.
   */
  lemma NewPageIffNoneFits(s: Store, held: seq<nat>, min: Word, grant: bool)
    requires Balanced(s, held) && Listed(s) && Sorted(s) && min >= 6
    ensures var a := Acquire(s, min, grant);
      a.page.Some? ==>
        (a.s.total == s.total + 1 || a.s.total == s.total)
        && (a.s.total == s.total + 1 <==> forall p :: p in s.open + s.full ==> Free(s.pages, p) < min)
  {
    hide NewPageLines, Distinct, Known, Room, Free;
    forall p: nat | p < |s.pages| ensures Room(s.pages, p) == Free(s.pages, p) { RoomIsFree(s.pages, p); }
    var k := FindRoom(s.pages, s.open, min);
    if k < |s.open| {
      assert s.open[k] in s.open + s.full;
    } else {
      forall p | p in s.open + s.full ensures Free(s.pages, p) < min {
        if p in s.open {
          var i :| 0 <= i < |s.open| && s.open[i] == p;
        } else {
          var i :| 0 <= i < |s.full| && s.full[i] == p;
        }
      }
    }
  }

  // A page given back with room for an op is the next one to be written; without, it is never looked at again.
  lemma ReleasedPageIsNext(e: Emitter, min: Word, grant: bool)
    requires Inv(e) && Ready(e) && min >= 6
    ensures var r := Release(e.s, e.page);
      if Free(e.s.pages, e.page) >= min then Acquire(r, min, grant).page == Some(e.page)
      else Acquire(r, min, grant).page != Some(e.page)
  {
    InvBalanced(e);
    RoomIsFree(e.s.pages, e.page);
    var r := Release(e.s, e.page);
    if Free(e.s.pages, e.page) >= min {
      assert r.open[0] == e.page;
    } else {
      PageUnlisted(e);
      var k, j := FindRoom(r.pages, r.open, min), FindRoom(r.pages, r.released, min);
    }
  }

  lemma InRest(a: seq<nat>, b: seq<nat>, c: seq<nat>, x: nat)
    requires x !in a + b + c
    ensures x !in a && x !in b && x !in c
  {
    var all := a + b + c;
    assert forall i :: 0 <= i < |a| ==> all[i] == a[i];
    assert forall i :: 0 <= i < |b| ==> all[|a| + i] == b[i];
    assert forall i :: 0 <= i < |c| ==> all[|a| + |b| + i] == c[i];
  }

  lemma PageUnlisted(e: Emitter)
    requires Inv(e)
    ensures e.page !in e.s.open && e.page !in e.s.full && e.page !in e.s.released
  {
    var s, rest := e.s, e.s.open + e.s.full + e.s.released;
    assert Known(s, [e.page] + e.saved) == [e.page] + e.saved + rest;
    assert [e.page] + e.saved + rest == [e.page] + (e.saved + rest);
    var all := [e.page] + (e.saved + rest);
    assert forall k :: 0 < k < |all| ==> all[0] != all[k];
    forall x | x in rest ensures x != e.page {
      var k :| 0 <= k < |rest| && rest[k] == x;
      assert all[1 + |e.saved| + k] == x;
    }
    hide Distinct, Known;
    InRest(s.open, s.full, s.released, e.page);
  }
}
