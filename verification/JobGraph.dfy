/**
 * The dependency graph of a job and the loop that drives it
 * (kernel/job/job_graph.c, kernel/sched/sched_core.c).
 *
 * A job is a table of at most 32 steps; each step names up to four others by
 * id.  The scheduler asks for the first ready step, runs it and marks it
 * completed, which rescans the table.  The declarative partner is the least
 * set of ids closed under "all dependencies are already in".
 */
module JobSpec {
  const MAX_JOB_STEPS := 32
  const MAX_STEP_DEPS := 4

  type StepId = x: int | 0 <= x < 0x1_0000_0000

  datatype JobStep = JobStep(id: StepId, deps: seq<StepId>, ready: bool, completed: bool)

  type Graph = seq<JobStep>

  // The C cast of an unsigned 32-bit id to int.
  function AsInt(id: StepId): (r: int) {
    if id < 0x8000_0000 then id else id - 0x1_0000_0000
  }

  // Position of the first step with this id, or |g|.
  function Find(g: Graph, id: StepId): (k: nat)
    ensures k <= |g|
    ensures k < |g| ==> g[k].id == id
    ensures forall i :: 0 <= i < k ==> g[i].id != id
  {
    if g == [] then 0
    else if g[0].id == id then 0
    else 1 + Find(g[1..], id)
  }

  predicate Done(g: Graph, id: StepId) {
    var k := Find(g, id);
    k < |g| && g[k].completed
  }

  predicate AllDone(g: Graph, deps: seq<StepId>) {
    forall d :: 0 <= d < |deps| ==> Done(g, deps[d])
  }

  function Refresh(g: Graph, s: JobStep): JobStep {
    if !s.completed && AllDone(g, s.deps) then s.(ready := true) else s
  }

  function Completed(g: Graph, k: nat): (r: Graph)
    requires k < |g|
  {
    g[k := g[k].(completed := true)]
  }

  function MarkCompleted(g: Graph, id: StepId): (r: Graph)
    ensures |r| == |g|
  {
    var k := Find(g, id);
    if k == |g| then g
    else
      var h := Completed(g, k);
      seq(|h|, i requires 0 <= i < |h| => Refresh(h, h[i]))
  }

  // Position of the first step that is ready and not completed, or |g|.
  function FirstReady(g: Graph): (k: nat)
    ensures k <= |g|
    ensures k < |g| ==> g[k].ready && !g[k].completed
    ensures forall i :: 0 <= i < k ==> !(g[i].ready && !g[i].completed)
  {
    if g == [] then 0
    else if g[0].ready && !g[0].completed then 0
    else 1 + FirstReady(g[1..])
  }

  // What job_graph_next_ready returns: an id cast to int, or -1.
  function NextReady(g: Graph): (r: int)
    ensures 0 <= r ==> r < 0x8000_0000
  {
    var k := FirstReady(g);
    if k < |g| then AsInt(g[k].id) else -1
  }

  function AddStep(g: Graph, id: StepId): (r: Graph) {
    if |g| >= MAX_JOB_STEPS then g else g + [JobStep(id, [], true, false)]
  }

  function AddDep(g: Graph, step: StepId, dependsOn: StepId): (r: Graph) {
    var k := Find(g, step);
    if k == |g| || Find(g, dependsOn) == |g| || |g[k].deps| >= MAX_STEP_DEPS then g
    else g[k := g[k].(deps := g[k].deps + [dependsOn], ready := false)]
  }

  // ---- Declarative side -------------------------------------------------

  function Ids(g: Graph): set<StepId> {
    set i | 0 <= i < |g| :: g[i].id
  }

  function CompletedIds(g: Graph): set<StepId> {
    set i | 0 <= i < |g| && g[i].completed :: g[i].id
  }

  predicate Distinct(g: Graph) {
    forall i, j :: 0 <= i < j < |g| ==> g[i].id != g[j].id
  }

  // The ready flag of an uncompleted step says that its dependencies are done.
  predicate Coherent(g: Graph) {
    forall i :: 0 <= i < |g| && !g[i].completed ==> (g[i].ready <==> AllDone(g, g[i].deps))
  }

  predicate AllIn(deps: seq<StepId>, s: set<StepId>) {
    forall d :: 0 <= d < |deps| ==> deps[d] in s
  }

  // s holds what is already completed and every step whose dependencies it holds.
  predicate Closed(g: Graph, s: set<StepId>) {
    CompletedIds(g) <= s && forall i :: 0 <= i < |g| && AllIn(g[i].deps, s) ==> g[i].id in s
  }

  // The least closed set.
  ghost function Runnable(g: Graph): set<StepId> {
    set id | id in Ids(g) && forall s: set<StepId> :: Closed(g, s) ==> id in s
  }

  lemma RunnableIsLeastClosed(g: Graph)
    ensures Closed(g, Runnable(g))
    ensures forall s: set<StepId> :: Closed(g, s) ==> Runnable(g) <= s
  {
    forall i | 0 <= i < |g| && AllIn(g[i].deps, Runnable(g)) ensures g[i].id in Runnable(g) {
      forall s: set<StepId> | Closed(g, s) ensures g[i].id in s {
        assert AllIn(g[i].deps, s);
      }
    }
  }

  // ---- Runs of the scheduler loop ---------------------------------------

  // The graph after the steps of ran were marked completed in order.
  function After(g: Graph, ran: seq<StepId>): (r: Graph)
    ensures |r| == |g|
    decreases |ran|
  {
    if ran == [] then g else MarkCompleted(After(g, ran[..|ran| - 1]), ran[|ran| - 1])
  }

  // Every step of ran is the one next_ready names at that moment.
  predicate Follows(g: Graph, ran: seq<StepId>) {
    forall k :: 0 <= k < |ran| ==> NextReady(After(g, ran[..k])) == ran[k]
  }

  // A finished run: the loop stopped because next_ready gave a negative number.
  predicate FinishedRun(g: Graph, ran: seq<StepId>) {
    Follows(g, ran) && NextReady(After(g, ran)) < 0
  }

  // Same steps with the same dependencies; only flags differ.
  predicate SameShape(g: Graph, h: Graph) {
    |g| == |h| && forall i :: 0 <= i < |g| ==> g[i].id == h[i].id && g[i].deps == h[i].deps
  }

  lemma FindSame(g: Graph, h: Graph, id: StepId)
    requires |g| == |h| && forall i :: 0 <= i < |g| ==> g[i].id == h[i].id
    ensures Find(g, id) == Find(h, id)
  {
    var a, b := Find(g, id), Find(h, id);
    if a < |g| { assert h[a].id == id; }
    if b < |h| { assert g[b].id == id; }
  }

  lemma DoneIffCompletedId(g: Graph, id: StepId)
    requires Distinct(g)
    ensures Done(g, id) <==> id in CompletedIds(g)
  {
    if id in CompletedIds(g) {
      var i :| 0 <= i < |g| && g[i].completed && g[i].id == id;
      assert Find(g, id) == i;
    }
  }

  lemma AllDoneIffAllIn(g: Graph, deps: seq<StepId>)
    requires Distinct(g)
    ensures AllDone(g, deps) <==> AllIn(deps, CompletedIds(g))
  {
    forall d | 0 <= d < |deps| ensures Done(g, deps[d]) <==> deps[d] in CompletedIds(g) {
      DoneIffCompletedId(g, deps[d]);
    }
  }

  // Marking changes one completed flag and re-establishes the ready flags.
  lemma MarkKeeps(g: Graph, id: StepId)
    requires Distinct(g) && Coherent(g)
    ensures var h := MarkCompleted(g, id);
      SameShape(g, h) && Distinct(h) && Coherent(h)
      && CompletedIds(h) == CompletedIds(g) + (if id in Ids(g) then {id} else {})
  {
    hide AllDone;
    var k := Find(g, id);
    var h := MarkCompleted(g, id);
    if k < |g| {
      var m := Completed(g, k);
      assert SameShape(g, m) && SameShape(m, h);
      forall i | 0 <= i < |g| ensures AllDone(h, g[i].deps) <==> AllDone(m, g[i].deps) {
        FlagsOnly(m, h, g[i].deps);
      }
      forall i | 0 <= i < |g| && AllDone(g, g[i].deps) ensures AllDone(m, g[i].deps) {
        DoneGrows(g, m, g[i].deps);
      }
      assert g[k].id in Ids(g);
      forall x ensures x in CompletedIds(h) <==> x in CompletedIds(g) || x == id {
        if x in CompletedIds(g) {
          var i :| 0 <= i < |g| && g[i].completed && g[i].id == x;
          assert h[i].completed;
        }
        assert h[k].completed && h[k].id == id;
      }
    } else {
      assert id !in Ids(g);
    }
  }

  lemma FlagsOnly(g: Graph, h: Graph, deps: seq<StepId>)
    requires |g| == |h| && forall i :: 0 <= i < |g| ==> g[i].id == h[i].id && g[i].completed == h[i].completed
    ensures AllDone(g, deps) <==> AllDone(h, deps)
  {
    forall d | 0 <= d < |deps| ensures Done(g, deps[d]) <==> Done(h, deps[d]) {
      FindSame(g, h, deps[d]);
    }
  }

  lemma DoneGrows(g: Graph, h: Graph, deps: seq<StepId>)
    requires SameShape(g, h) && AllDone(g, deps)
    requires forall i :: 0 <= i < |g| && g[i].completed ==> h[i].completed
    ensures AllDone(h, deps)
  {
    forall d | 0 <= d < |deps| ensures Done(h, deps[d]) {
      FindSame(g, h, deps[d]);
      assert Done(g, deps[d]);
    }
  }

  function Elements(ran: seq<StepId>): set<StepId> {
    set k | 0 <= k < |ran| :: ran[k]
  }

  lemma ElementsSnoc(ran: seq<StepId>, x: StepId)
    ensures Elements(ran + [x]) == Elements(ran) + {x}
  {
    var all := ran + [x];
    assert forall k :: 0 <= k < |ran| ==> all[k] == ran[k];
    assert all[|ran|] == x;
  }

  lemma FollowsPrefix(g: Graph, ran: seq<StepId>, k: nat)
    requires Follows(g, ran) && k <= |ran|
    ensures Follows(g, ran[..k])
    ensures k < |ran| ==> NextReady(After(g, ran[..k])) == ran[k]
  {
    hide After, NextReady;
    assert forall j :: 0 <= j < k ==> ran[..k][..j] == ran[..j];
  }

  lemma AfterSnoc(g: Graph, ran: seq<StepId>, x: StepId)
    ensures After(g, ran + [x]) == MarkCompleted(After(g, ran), x)
  {
    hide MarkCompleted;
    assert (ran + [x])[..|ran|] == ran;
  }

  lemma SameShapeTransitive(a: Graph, b: Graph, c: Graph)
    requires SameShape(a, b) && SameShape(b, c)
    ensures SameShape(a, c) && Ids(a) == Ids(c)
  {
    assert Ids(a) <= Ids(c) by { assert forall i :: 0 <= i < |a| ==> a[i].id == c[i].id; }
    assert Ids(c) <= Ids(a) by { assert forall i :: 0 <= i < |a| ==> a[i].id == c[i].id; }
  }

  // The step that next_ready names is uncompleted and its dependencies are done.
  lemma NextReadyIsDue(g: Graph, id: StepId)
    requires Distinct(g) && Coherent(g) && NextReady(g) == id
    ensures id in Ids(g) && id !in CompletedIds(g) && id < 0x8000_0000
    ensures forall i :: 0 <= i < |g| && g[i].id == id ==> AllIn(g[i].deps, CompletedIds(g))
  {
    hide AllDone, AllIn;
    var p := FirstReady(g);
    assert g[p].id == id && !g[p].completed;
    AllDoneIffAllIn(g, g[p].deps);
  }

  lemma AfterNothing(g: Graph)
    ensures After(g, []) == g && SameShape(g, g) && Elements([]) == {}
  {
    hide MarkCompleted;
  }

  // What the graph looks like in the middle of a run.
  lemma {:induction false} RunKeeps(g: Graph, ran: seq<StepId>)
    requires Distinct(g) && Coherent(g) && Follows(g, ran)
    ensures var h := After(g, ran);
      SameShape(g, h) && Distinct(h) && Coherent(h) && CompletedIds(h) == CompletedIds(g) + Elements(ran)
    decreases |ran|
  {
    hide *;
    if ran == [] {
      AfterNothing(g);
    } else {
      var front, last := ran[..|ran| - 1], ran[|ran| - 1];
      FollowsPrefix(g, ran, |ran| - 1);
      RunKeeps(g, front);
      var m := After(g, front);
      MarkKeeps(m, last);
      NextReadyIsDue(m, last);
      ElementsSnoc(front, last);
      assert front + [last] == ran;
      AfterSnoc(g, front, last);
      SameShapeTransitive(g, m, After(g, ran));
    }
  }

  // Safety of every run, finished or not: a step is run at most once, never if it was
  // completed before, and only when all its dependencies were completed before it.
  lemma RunsOnceAndInOrder(g: Graph, ran: seq<StepId>)
    requires Distinct(g) && Coherent(g) && Follows(g, ran)
    ensures forall j, k :: 0 <= j < k < |ran| ==> ran[j] != ran[k]
    ensures forall k :: 0 <= k < |ran| ==> ran[k] in Ids(g) && ran[k] !in CompletedIds(g)
    ensures forall k, i :: 0 <= k < |ran| && 0 <= i < |g| && g[i].id == ran[k]
              ==> AllIn(g[i].deps, CompletedIds(g) + Elements(ran[..k]))
  {
    forall k | 0 <= k < |ran|
      ensures ran[k] in Ids(g) && ran[k] !in CompletedIds(g) && ran[k] !in Elements(ran[..k])
      ensures forall i :: 0 <= i < |g| && g[i].id == ran[k] ==> AllIn(g[i].deps, CompletedIds(g) + Elements(ran[..k]))
    {
      PickedIsDue(g, ran, k);
    }
    forall j, k | 0 <= j < k < |ran| ensures ran[j] != ran[k] {
      assert ran[..k][j] == ran[j];
    }
  }

  lemma PickedIsDue(g: Graph, ran: seq<StepId>, k: nat)
    requires Distinct(g) && Coherent(g) && Follows(g, ran) && k < |ran|
    ensures ran[k] in Ids(g) && ran[k] !in CompletedIds(g) && ran[k] !in Elements(ran[..k])
    ensures forall i :: 0 <= i < |g| && g[i].id == ran[k] ==> AllIn(g[i].deps, CompletedIds(g) + Elements(ran[..k]))
  {
    hide After, NextReady, Follows, Coherent, Distinct, AllIn, Elements, CompletedIds;
    FollowsPrefix(g, ran, k);
    RunKeeps(g, ran[..k]);
    var h := After(g, ran[..k]);
    NextReadyIsDue(h, ran[k]);
    SameShapeTransitive(g, h, h);
  }

  // Whatever is run lies in the least closed set, however the run ends.
  lemma {:induction false} RunsOnlyRunnable(g: Graph, ran: seq<StepId>)
    requires Distinct(g) && Coherent(g) && Follows(g, ran)
    ensures CompletedIds(g) + Elements(ran) <= Runnable(g)
    decreases |ran|
  {
    hide *;
    RunnableIsLeastClosed(g);
    if ran == [] {
      AfterNothing(g);
      ClosedHolds(g, Runnable(g));
    } else {
      var k := |ran| - 1;
      FollowsPrefix(g, ran, k);
      RunsOnlyRunnable(g, ran[..k]);
      PickedIsDue(g, ran, k);
      ClosedAdds(g, Runnable(g), CompletedIds(g) + Elements(ran[..k]), ran[k]);
      ElementsSnoc(ran[..k], ran[k]);
      assert ran[..k] + [ran[k]] == ran;
    }
  }

  lemma ClosedHolds(g: Graph, s: set<StepId>)
    requires Closed(g, s)
    ensures CompletedIds(g) <= s
  {
  }

  lemma ClosedAdds(g: Graph, s: set<StepId>, have: set<StepId>, id: StepId)
    requires Closed(g, s) && have <= s && id in Ids(g)
    requires forall i :: 0 <= i < |g| && g[i].id == id ==> AllIn(g[i].deps, have)
    ensures id in s
  {
    var i :| 0 <= i < |g| && g[i].id == id;
    assert AllIn(g[i].deps, s);
  }

  /**
   * Main theorem: a finished run completes exactly the least closed set, if and only if
   * no step it should still run has an id of 2^31 or more (those read as negative and
   * stop the loop early).
   */
  lemma RunsLeastClosedSetIffIdsFitInt(g: Graph, ran: seq<StepId>)
    requires Distinct(g) && Coherent(g) && FinishedRun(g, ran)
    ensures CompletedIds(After(g, ran)) == CompletedIds(g) + Elements(ran)
    ensures CompletedIds(g) + Elements(ran) == Runnable(g)
            <==> forall id :: id in Runnable(g) - CompletedIds(g) ==> id < 0x8000_0000
  {
    assert Follows(g, ran);
    hide *;
    RunKeeps(g, ran);
    if forall id :: id in Runnable(g) - CompletedIds(g) ==> id < 0x8000_0000 {
      SmallIdsAllRun(g, ran);
    } else {
      var id :| id in Runnable(g) - CompletedIds(g) && id >= 0x8000_0000;
      OnlySmallIdsRun(g, ran);
      assert id !in CompletedIds(g) + Elements(ran);
    }
  }

  lemma SmallIdsAllRun(g: Graph, ran: seq<StepId>)
    requires Distinct(g) && Coherent(g) && FinishedRun(g, ran)
    requires forall id :: id in Runnable(g) - CompletedIds(g) ==> id < 0x8000_0000
    ensures CompletedIds(g) + Elements(ran) == Runnable(g)
  {
    assert Follows(g, ran);
    hide *;
    RunKeeps(g, ran);
    RunsOnlyRunnable(g, ran);
    StoppedIsClosed(g, ran, After(g, ran));
    RunnableIsLeastClosed(g);
  }

  lemma StoppedIsClosed(g: Graph, ran: seq<StepId>, h: Graph)
    requires Distinct(g) && Coherent(g) && FinishedRun(g, ran) && h == After(g, ran)
    requires forall id :: id in Runnable(g) - CompletedIds(g) ==> id < 0x8000_0000
    ensures Closed(g, CompletedIds(h))
  {
    hide After, NextReady, AllDone, AllIn, Runnable, Follows;
    RunKeeps(g, ran);
    StoppedMeansNothingDue(g, ran, h);
    forall i | 0 <= i < |g| && AllIn(g[i].deps, CompletedIds(h)) ensures g[i].id in CompletedIds(h) {
      AllDoneIffAllIn(h, h[i].deps);
      assert h[i].completed;
    }
  }

  lemma OnlySmallIdsRun(g: Graph, ran: seq<StepId>)
    requires Follows(g, ran)
    ensures forall id :: id in Elements(ran) ==> id < 0x8000_0000
  {
    hide After;
    assert forall k :: 0 <= k < |ran| ==> NextReady(After(g, ran[..k])) == ran[k];
  }

  // A step that is due in the middle of a run still has to be run.
  lemma DueIsRunnable(g: Graph, ran: seq<StepId>, h: Graph, p: nat)
    requires Distinct(g) && Coherent(g) && Follows(g, ran) && h == After(g, ran)
    requires p < |h| && h[p].ready && !h[p].completed
    ensures h[p].id in Runnable(g) - CompletedIds(g)
  {
    hide Follows, After, AllDone, AllIn, Runnable, Closed;
    RunKeeps(g, ran);
    RunsOnlyRunnable(g, ran);
    RunnableIsLeastClosed(g);
    var id := h[p].id;
    AllDoneIffAllIn(h, h[p].deps);
    assert id !in CompletedIds(h) by {
      forall i | 0 <= i < |h| && h[i].completed ensures h[i].id != id {
        assert i < p || p < i;
      }
    }
    assert g[p].id in Ids(g);
    ClosedAdds(g, Runnable(g), CompletedIds(h), id);
  }

  lemma StoppedMeansNothingDue(g: Graph, ran: seq<StepId>, h: Graph)
    requires Distinct(g) && Coherent(g) && FinishedRun(g, ran) && h == After(g, ran)
    requires forall id :: id in Runnable(g) - CompletedIds(g) ==> id < 0x8000_0000
    ensures forall i :: 0 <= i < |h| && !h[i].completed ==> !h[i].ready
  {
    hide Follows, After, Runnable, CompletedIds;
    var p := FirstReady(h);
    if p < |h| { DueIsRunnable(g, ran, h, p); }
  }

  // ---- Acyclic graphs ----------------------------------------------------

  // rank witnesses acyclicity: dependencies are steps of smaller rank.
  predicate Ranks(g: Graph, rank: map<StepId, nat>) {
    forall i, d :: 0 <= i < |g| && 0 <= d < |g[i].deps| ==>
      g[i].deps[d] in Ids(g) && g[i].id in rank && g[i].deps[d] in rank && rank[g[i].deps[d]] < rank[g[i].id]
  }

  lemma {:induction false} RankedIsRunnable(g: Graph, rank: map<StepId, nat>, i: nat)
    requires Ranks(g, rank) && i < |g|
    ensures g[i].id in Runnable(g)
    decreases if g[i].id in rank && g[i].deps != [] then 1 + rank[g[i].id] else 0
  {
    RunnableIsLeastClosed(g);
    forall d | 0 <= d < |g[i].deps| ensures g[i].deps[d] in Runnable(g) {
      var j :| 0 <= j < |g| && g[j].id == g[i].deps[d];
      RankedIsRunnable(g, rank, j);
    }
    assert AllIn(g[i].deps, Runnable(g));
  }

  function Positions(ran: seq<StepId>): (m: map<StepId, nat>)
    ensures forall k :: 0 <= k < |ran| ==> ran[k] in m
    ensures forall x :: x in m ==> m[x] < |ran| && ran[m[x]] == x
    decreases |ran|
  {
    if ran == [] then map[] else Positions(ran[..|ran| - 1])[ran[|ran| - 1] := |ran| - 1]
  }

  predicate IdsFitInt(g: Graph) { forall i :: 0 <= i < |g| ==> g[i].id < 0x8000_0000 }

  /**
   * On a job in which nothing has run yet, a finished run runs every step if and only if
   * the ids read as non-negative numbers and the dependencies are acyclic; the order of
   * the run is then itself a ranking.
   */
  lemma RunsEverythingIffAcyclic(g: Graph, ran: seq<StepId>)
    requires Distinct(g) && Coherent(g) && FinishedRun(g, ran) && CompletedIds(g) == {}
    ensures Elements(ran) == Ids(g) <==> IdsFitInt(g) && exists rank :: Ranks(g, rank)
    ensures Elements(ran) == Ids(g) ==> Ranks(g, Positions(ran))
  {
    assert Follows(g, ran);
    hide FinishedRun, Follows, After, Coherent, Runnable;
    RunsLeastClosedSetIffIdsFitInt(g, ran);
    RunnableAreSteps(g);
    if Elements(ran) == Ids(g) {
      OrderIsRanking(g, ran);
      OnlySmallIdsRun(g, ran);
      forall i | 0 <= i < |g| ensures g[i].id < 0x8000_0000 { assert g[i].id in Ids(g); }
    }
    if IdsFitInt(g) && exists rank :: Ranks(g, rank) {
      var rank :| Ranks(g, rank);
      assert Elements(ran) == Runnable(g);
      forall id | id in Ids(g) ensures id in Runnable(g) {
        var i :| 0 <= i < |g| && g[i].id == id;
        RankedIsRunnable(g, rank, i);
      }
      assert Runnable(g) == Ids(g);
    }
  }

  lemma RunnableAreSteps(g: Graph)
    ensures Runnable(g) <= Ids(g)
  {
  }

  lemma OrderIsRanking(g: Graph, ran: seq<StepId>)
    requires Distinct(g) && Coherent(g) && FinishedRun(g, ran) && CompletedIds(g) == {}
    requires Elements(ran) == Ids(g)
    ensures Ranks(g, Positions(ran))
  {
    assert Follows(g, ran);
    hide Follows, FinishedRun, Coherent, Distinct, CompletedIds, Elements, Positions, Ids;
    forall i, d | 0 <= i < |g| && 0 <= d < |g[i].deps|
      ensures g[i].deps[d] in Ids(g) && g[i].id in Positions(ran) && g[i].deps[d] in Positions(ran)
      ensures Positions(ran)[g[i].deps[d]] < Positions(ran)[g[i].id]
    {
      DepBefore(g, ran, i, d);
    }
  }

  lemma DepBefore(g: Graph, ran: seq<StepId>, i: nat, d: nat)
    requires Distinct(g) && Coherent(g) && Follows(g, ran) && CompletedIds(g) == {}
    requires Elements(ran) == Ids(g) && i < |g| && d < |g[i].deps|
    ensures var rank := Positions(ran);
      g[i].deps[d] in Ids(g) && g[i].id in rank && g[i].deps[d] in rank && rank[g[i].deps[d]] < rank[g[i].id]
  {
    hide *;
    IdIn(g, i);
    var k := PositionOf(ran, g[i].id);
    PickedIsDue(g, ran, k);
    assert CompletedIds(g) + Elements(ran[..k]) == Elements(ran[..k]);
    Earlier(g, ran, k, g[i].deps, d);
  }

  lemma IdIn(g: Graph, i: nat)
    requires i < |g|
    ensures g[i].id in Ids(g)
  {
  }

  lemma PositionOf(ran: seq<StepId>, x: StepId) returns (k: nat)
    requires x in Elements(ran)
    ensures x in Positions(ran) && k == Positions(ran)[x] && k < |ran| && ran[k] == x
  {
    var j :| 0 <= j < |ran| && ran[j] == x;
    k := Positions(ran)[x];
  }

  // What lies before position k has a smaller position and is part of the whole.
  lemma Earlier(g: Graph, ran: seq<StepId>, k: nat, deps: seq<StepId>, d: nat)
    requires Distinct(g) && Coherent(g) && Follows(g, ran)
    requires k <= |ran| && d < |deps| && AllIn(deps, Elements(ran[..k]))
    ensures deps[d] in Elements(ran) && deps[d] in Positions(ran) && Positions(ran)[deps[d]] < k
  {
    var x := deps[d];
    assert x in Elements(ran[..k]);
    var j :| 0 <= j < k && ran[..k][j] == x;
    assert ran[j] == x;
    hide Follows, Coherent, Distinct;
    RunsOnceAndInOrder(g, ran);
    var p := PositionOf(ran, x);
  }

  // ---- Termination --------------------------------------------------------

  // The loop, cut off after n turns.
  function Turns(g: Graph, n: nat): (ran: seq<StepId>)
    ensures |ran| <= n
  {
    if n == 0 then []
    else
      var front := Turns(g, n - 1);
      var next := NextReady(After(g, front));
      if next < 0 then front else front + [next]
  }

  lemma FollowsSnoc(g: Graph, ran: seq<StepId>, x: StepId)
    requires Follows(g, ran) && NextReady(After(g, ran)) == x
    ensures Follows(g, ran + [x])
  {
    hide After, NextReady;
    var all := ran + [x];
    forall k | 0 <= k < |all| ensures NextReady(After(g, all[..k])) == all[k] {
      assert all[..k] == ran[..k];
      assert ran[..|ran|] == ran;
    }
  }

  lemma {:induction false} TurnsFollow(g: Graph, n: nat)
    ensures Follows(g, Turns(g, n))
    ensures |Turns(g, n)| == n || FinishedRun(g, Turns(g, n))
  {
    hide After, NextReady;
    if n > 0 {
      hide Follows;
      TurnsFollow(g, n - 1);
      var front := Turns(g, n - 1);
      var next := NextReady(After(g, front));
      if next >= 0 { FollowsSnoc(g, front, next); }
    }
  }

  // Steps that share their id with an earlier one: find_step never reaches them.
  predicate Shadowed(g: Graph, i: nat) {
    i < |g| && exists j :: 0 <= j < i && g[j].id == g[i].id
  }

  // What every graph that add_step and add_dep can build satisfies, before any run.
  predicate Built(g: Graph) {
    Coherent(g)
    && (forall i :: 0 <= i < |g| ==> !g[i].completed)
    && (forall i: nat :: i < |g| && Shadowed(g, i) ==> g[i].deps == [])
  }

  lemma AddStepBuilt(g: Graph, id: StepId)
    requires Built(g)
    ensures Built(AddStep(g, id))
    ensures Distinct(AddStep(g, id)) <==> Distinct(g) && (|g| < MAX_JOB_STEPS ==> id !in Ids(g))
  {
    var h := AddStep(g, id);
    if |g| < MAX_JOB_STEPS {
      assert forall i :: 0 <= i < |g| ==> h[i] == g[i];
      assert h[|g|].id == id;
      forall i | 0 <= i < |g| ensures AllDone(h, h[i].deps) <==> AllDone(g, g[i].deps) {
        NothingDone(g, g[i].deps);
        NothingDone(h, g[i].deps);
      }
      forall i: nat | Shadowed(h, i) ensures h[i].deps == [] {
        if i < |g| { assert Shadowed(g, i); }
      }
      if Distinct(h) {
        forall i, j | 0 <= i < j < |g| ensures g[i].id != g[j].id { assert h[i].id != h[j].id; }
        assert forall i :: 0 <= i < |g| ==> h[i].id != h[|g|].id;
      }
    }
  }

  lemma NothingDone(g: Graph, deps: seq<StepId>)
    requires forall i :: 0 <= i < |g| ==> !g[i].completed
    ensures AllDone(g, deps) <==> deps == []
  {
    if deps != [] { assert !Done(g, deps[0]); }
  }

  lemma AddDepBuilt(g: Graph, step: StepId, dependsOn: StepId)
    requires Built(g)
    ensures Built(AddDep(g, step, dependsOn))
    ensures Distinct(AddDep(g, step, dependsOn)) <==> Distinct(g)
  {
    var k := Find(g, step);
    var h := AddDep(g, step, dependsOn);
    forall i | 0 <= i < |g| ensures h[i].ready <==> AllDone(h, h[i].deps) {
      NothingDone(g, g[i].deps);
      NothingDone(h, h[i].deps);
    }
    assert |h| == |g| && forall i :: 0 <= i < |g| ==> h[i].id == g[i].id;
    forall i: nat | Shadowed(h, i) ensures h[i].deps == [] {
      var j :| 0 <= j < i && h[j].id == h[i].id;
      assert Shadowed(g, i);
    }
  }

  // Adding an edge keeps the flags right unless it is accepted for an uncompleted step and
  // every dependency, the new one included, is done.
  lemma AddDepCoherentIff(g: Graph, step: StepId, dependsOn: StepId)
    requires Distinct(g) && Coherent(g)
    ensures var k := Find(g, step);
      Coherent(AddDep(g, step, dependsOn)) <==>
      (k == |g| || Find(g, dependsOn) == |g| || |g[k].deps| >= MAX_STEP_DEPS
       || g[k].completed || !AllDone(g, g[k].deps + [dependsOn]))
  {
    var k := Find(g, step);
    var h := AddDep(g, step, dependsOn);
    if !(k == |g| || Find(g, dependsOn) == |g| || |g[k].deps| >= MAX_STEP_DEPS) {
      hide AllDone, Find;
      forall i | 0 <= i < |g| ensures AllDone(h, h[i].deps) <==> AllDone(g, h[i].deps) {
        FlagsOnly(g, h, h[i].deps);
      }
      assert h[k].deps == g[k].deps + [dependsOn];
    }
  }

  lemma ShadowedNotMarked(g: Graph, m: Graph, id: StepId, i: nat)
    requires |m| == |g| && (forall j :: 0 <= j < |g| ==> m[j].id == g[j].id)
    requires Shadowed(g, i) && m[i].ready && !m[i].completed
    ensures var h := MarkCompleted(m, id);
      (forall j :: 0 <= j < |g| ==> h[j].id == g[j].id) && h[i].ready && !h[i].completed
  {
    hide AllDone;
    var j :| 0 <= j < i && g[j].id == g[i].id;
    assert m[j].id == m[i].id;
  }

  // A shadowed step stays ready and uncompleted through every run.
  lemma {:induction false} ShadowedStaysReady(g: Graph, ran: seq<StepId>, i: nat)
    requires Built(g) && Shadowed(g, i)
    ensures var h := After(g, ran);
      (forall j :: 0 <= j < |g| ==> h[j].id == g[j].id) && h[i].ready && !h[i].completed
    decreases |ran|
  {
    if ran == [] {
      NothingDone(g, g[i].deps);
    } else {
      var front := ran[..|ran| - 1];
      hide *;
      ShadowedStaysReady(g, front, i);
      assert front + [ran[|ran| - 1]] == ran;
      AfterSnoc(g, front, ran[|ran| - 1]);
      ShadowedNotMarked(g, After(g, front), ran[|ran| - 1], i);
    }
  }

  /**
   * The scheduler loop stops on a graph that add_step and add_dep can build if and only if
   * no id was added twice, or an id of 2^31 or more gets in its way: the first doubled id
   * itself, or that of a step before it that becomes runnable once the doubled id counts
   * as completed.
   */
  lemma StopsIff(g: Graph)
    requires Built(g)
    ensures (exists ran :: FinishedRun(g, ran)) <==> Distinct(g) || LargeIdInTheWay(g)
    ensures Distinct(g) ==> FinishedRun(g, Turns(g, |g| + 1))
  {
    assert Coherent(g);
    hide *;
    if Distinct(g) {
      DistinctStops(g);
      assert FinishedRun(g, Turns(g, |g| + 1));
    } else {
      var s := FirstDouble(g);
      if ran :| FinishedRun(g, ran) { StoppedInTheWay(g, s, ran); }
      if LargeIdInTheWay(g) {
        WayStops(g, s);
        assert FinishedRun(g, Turns(g, s + 1));
      }
    }
  }

  // With small ids only, it stops exactly if no id was added twice.
  lemma StopsIffNoDuplicates(g: Graph)
    requires Built(g) && IdsFitInt(g)
    ensures (exists ran :: FinishedRun(g, ran)) <==> Distinct(g)
  {
    StopsIff(g);
    hide FinishedRun, Distinct, Built;
    if LargeIdInTheWay(g) {
      var s: nat :| Doubled(g, s) && InTheWay(g, s);
      if id :| id in Runnable(MarkCompleted(g[..s], g[s].id)) && id >= 0x8000_0000 { RunnableIsStep(g, s, id); }
    }
  }

  lemma RunnableIsStep(g: Graph, s: nat, id: StepId)
    requires s < |g| && id in Runnable(MarkCompleted(g[..s], g[s].id))
    ensures exists i :: 0 <= i < |g| && g[i].id == id
  {
    var q := MarkCompleted(g[..s], g[s].id);
    hide Refresh;
    RunnableAreSteps(q);
    var i :| 0 <= i < |q| && q[i].id == id;
    MarkShape(g[..s], g[s].id);
    assert g[..s][i].id == id;
  }

  lemma MarkShape(g: Graph, id: StepId)
    ensures SameShape(g, MarkCompleted(g, id))
  {
  }

  // Step s is the first that shares its id with an earlier one.
  predicate Doubled(g: Graph, s: nat) { s < |g| && Distinct(g[..s]) && g[s].id in Ids(g[..s]) }

  // Its id, or that of a step before it that becomes runnable once its id is completed, is large.
  ghost predicate InTheWay(g: Graph, s: nat)
    requires s < |g|
  {
    g[s].id >= 0x8000_0000 || exists id :: id in Runnable(MarkCompleted(g[..s], g[s].id)) && id >= 0x8000_0000
  }

  ghost predicate LargeIdInTheWay(g: Graph) { exists s: nat :: Doubled(g, s) && InTheWay(g, s) }

  lemma {:induction false} FirstDouble(g: Graph) returns (s: nat)
    requires !Distinct(g)
    ensures Doubled(g, s)
    ensures forall r: nat :: Doubled(g, r) ==> r == s
    decreases |g|
  {
    var n := |g| - 1;
    if Distinct(g[..n]) {
      s := n;
      var i, j :| 0 <= i < j < |g| && g[i].id == g[j].id;
      assert forall a, b :: 0 <= a < b < n ==> g[..n][a].id != g[..n][b].id;
      assert g[..n][i].id in Ids(g[..n]);
    } else {
      s := FirstDouble(g[..n]);
      assert g[..n][..s] == g[..s];
    }
    forall r: nat | Doubled(g, r) ensures r == s { SameDouble(g, r, s); }
  }

  lemma SameDouble(g: Graph, r: nat, s: nat)
    requires Doubled(g, r) && Doubled(g, s)
    ensures r == s
  {
    if r < s { InPrefix(g, r, s); }
    if s < r { InPrefix(g, s, r); }
  }

  lemma InPrefix(g: Graph, r: nat, s: nat)
    requires Doubled(g, r) && r < s <= |g|
    ensures !Distinct(g[..s])
  {
    var i :| 0 <= i < r && g[..r][i].id == g[r].id;
    assert g[..s][i].id == g[..s][r].id;
  }

  // ---- The loop on a graph with a doubled id ----------------------------------------------

  lemma FindPrefix(h: Graph, s: nat, id: StepId)
    requires s <= |h|
    ensures Find(h[..s], id) == if Find(h, id) < s then Find(h, id) else s
  {
    var k, l := Find(h, id), Find(h[..s], id);
    if l < s { assert h[l].id == id; }
    if k < s { assert h[..s][k].id == id; }
  }

  // Only steps before s are ever marked, and what is marked there depends on these steps alone.
  lemma MarkPrefix(h: Graph, s: nat, id: StepId)
    requires s <= |h| && Find(h, id) < s && forall i :: s <= i < |h| ==> !h[i].completed
    ensures var m := MarkCompleted(h, id);
      m[..s] == MarkCompleted(h[..s], id) && (forall i :: s <= i < |m| ==> !m[i].completed)
  {
    hide AllDone;
    FindPrefix(h, s, id);
    var k := Find(h, id);
    var a, b := Completed(h, k), Completed(h[..s], k);
    assert a[..s] == b;
    forall i | 0 <= i < s ensures Refresh(a, a[i]) == Refresh(b, b[i]) {
      DonePrefix(a, s, a[i].deps);
    }
  }

  lemma DonePrefix(h: Graph, s: nat, deps: seq<StepId>)
    requires s <= |h| && forall i :: s <= i < |h| ==> !h[i].completed
    ensures AllDone(h, deps) <==> AllDone(h[..s], deps)
  {
    forall d | 0 <= d < |deps| ensures Done(h, deps[d]) == Done(h[..s], deps[d]) {
      FindPrefix(h, s, deps[d]);
    }
  }

  lemma PickPrefix(h: Graph, s: nat)
    requires s < |h| && h[s].ready && !h[s].completed
    ensures FirstReady(h) == FirstReady(h[..s]) <= s
  {
    var k, l := FirstReady(h), FirstReady(h[..s]);
    if l < s { assert h[l] == h[..s][l]; }
    if k < s { assert h[k] == h[..s][k]; }
  }

  // During every run the steps before s behave as a graph of their own.
  lemma {:induction false} LocalRun(g: Graph, s: nat, ran: seq<StepId>)
    requires Built(g) && Doubled(g, s) && Follows(g, ran)
    ensures var h := After(g, ran);
      && h[..s] == After(g[..s], ran) && (forall i :: s <= i < |h| ==> !h[i].completed)
      && h[s].ready && h[s].id == g[s].id && FirstReady(h) == FirstReady(h[..s])
    decreases |ran|
  {
    hide After, Follows, Built, MarkCompleted, FirstReady, NextReady;
    DoubledIsShadowed(g, s);
    ShadowedStaysReady(g, ran, s);
    PickPrefix(After(g, ran), s);
    if ran == [] {
      AfterNothing(g);
      AfterNothing(g[..s]);
      NothingCompleted(g);
    } else {
      var front, last := ran[..|ran| - 1], ran[|ran| - 1];
      assert front + [last] == ran;
      FollowsPrefix(g, ran, |ran| - 1);
      LocalRun(g, s, front);
      AfterSnoc(g, front, last);
      AfterSnoc(g[..s], front, last);
      PickedEarly(g, s, front, last);
      MarkPrefix(After(g, front), s, last);
    }
  }

  lemma NothingCompleted(g: Graph)
    requires Built(g)
    ensures forall i :: 0 <= i < |g| ==> !g[i].completed
  {
  }

  lemma DoubledIsShadowed(g: Graph, s: nat)
    requires Doubled(g, s)
    ensures Shadowed(g, s)
  {
    var i :| 0 <= i < s && g[..s][i].id == g[s].id;
    assert g[i].id == g[s].id;
  }

  // The step picked has its id before s.
  lemma PickedEarly(g: Graph, s: nat, ran: seq<StepId>, id: StepId)
    requires Built(g) && Doubled(g, s) && NextReady(After(g, ran)) == id
    requires FirstReady(After(g, ran)) == FirstReady(After(g, ran)[..s])
    ensures Find(After(g, ran), id) < s && id in Ids(g[..s])
    ensures id == if FirstReady(After(g, ran)) < s then After(g, ran)[FirstReady(After(g, ran))].id else g[s].id
  {
    hide After, Built;
    DoubledIsShadowed(g, s);
    ShadowedStaysReady(g, ran, s);
    var h := After(g, ran);
    var k := FirstReady(h);
    if k == s {
      var i :| 0 <= i < s && g[..s][i].id == g[s].id;
      assert h[i].id == id;
    } else {
      assert g[..s][k].id == h[k].id;
    }
  }

  // Marking steps of the graph in any order keeps flags and shape right.
  lemma {:induction false} AnyRunKeeps(g: Graph, ran: seq<StepId>)
    requires Distinct(g) && Coherent(g) && Elements(ran) <= Ids(g)
    ensures var h := After(g, ran);
      SameShape(g, h) && Ids(h) == Ids(g) && Distinct(h) && Coherent(h) && CompletedIds(h) == CompletedIds(g) + Elements(ran)
    decreases |ran|
  {
    hide *;
    if ran == [] {
      AfterNothing(g);
      SameShapeTransitive(g, g, g);
    } else {
      var front, last := ran[..|ran| - 1], ran[|ran| - 1];
      assert front + [last] == ran;
      ElementsSnoc(front, last);
      AnyRunKeeps(g, front);
      var m := After(g, front);
      MarkKeeps(m, last);
      AfterSnoc(g, front, last);
      SameShapeTransitive(g, m, After(g, ran));
    }
  }

  lemma PrefixFresh(g: Graph, s: nat)
    requires Built(g) && s <= |g|
    ensures Coherent(g[..s]) && CompletedIds(g[..s]) == {}
  {
    forall i | 0 <= i < s ensures AllDone(g[..s], g[i].deps) <==> AllDone(g, g[i].deps) {
      NothingDone(g, g[i].deps);
      NothingDone(g[..s], g[i].deps);
    }
  }

  // Everything completed is runnable once the doubled id counts as completed.
  lemma {:induction false} CompletedInTheWay(g: Graph, s: nat, ran: seq<StepId>)
    requires Built(g) && Doubled(g, s) && Follows(g, ran)
    ensures Elements(ran) <= Ids(g[..s]) && Elements(ran) <= Runnable(MarkCompleted(g[..s], g[s].id))
    decreases |ran|
  {
    hide *;
    if ran == [] {
      AfterNothing(g);
    } else {
      var front, last := ran[..|ran| - 1], ran[|ran| - 1];
      assert front + [last] == ran;
      ElementsSnoc(front, last);
      FollowsPrefix(g, ran, |ran| - 1);
      CompletedInTheWay(g, s, front);
      LocalRun(g, s, front);
      PickedEarly(g, s, front, last);
      PickIsRunnable(g, s, front, last);
    }
  }

  lemma PickIsRunnable(g: Graph, s: nat, ran: seq<StepId>, id: StepId)
    requires Built(g) && Doubled(g, s) && Elements(ran) <= Ids(g[..s])
    requires var h := After(g, ran); h[..s] == After(g[..s], ran) && FirstReady(h) == FirstReady(h[..s])
    requires var h := After(g, ran); id == if FirstReady(h) < s then h[FirstReady(h)].id else g[s].id
    requires Elements(ran) <= Runnable(MarkCompleted(g[..s], g[s].id))
    ensures id in Runnable(MarkCompleted(g[..s], g[s].id))
  {
    hide After, MarkCompleted, Built, Runnable, AllDone, AllIn, Coherent, Elements, FirstReady;
    assert Doubled(g, s);
    var p, x := g[..s], g[s].id;
    var q, h := MarkCompleted(p, x), After(p, ran);
    PrefixFresh(g, s);
    MarkKeeps(p, x);
    AnyRunKeeps(p, ran);
    RunnableIsLeastClosed(q);
    ClosedHolds(q, Runnable(q));
    var k := FirstReady(h);
    if k < s {
      DueIsIn(h, k);
      assert AllIn(q[k].deps, CompletedIds(h));
      AllInMore(q[k].deps, CompletedIds(h), Runnable(q));
      ClosedStep(q, Runnable(q), k);
    }
  }

  lemma DueIsIn(h: Graph, k: nat)
    requires Distinct(h) && Coherent(h) && k == FirstReady(h) < |h|
    ensures AllIn(h[k].deps, CompletedIds(h))
  {
    AllDoneIffAllIn(h, h[k].deps);
  }

  lemma AllInMore(deps: seq<StepId>, a: set<StepId>, b: set<StepId>)
    requires AllIn(deps, a) && a <= b
    ensures AllIn(deps, b)
  {
  }

  lemma ClosedStep(g: Graph, s: set<StepId>, k: nat)
    requires Closed(g, s) && k < |g| && AllIn(g[k].deps, s)
    ensures g[k].id in s
  {
  }

  // If the loop stopped, a large id was in the way.
  lemma StoppedInTheWay(g: Graph, s: nat, ran: seq<StepId>)
    requires Built(g) && Doubled(g, s) && FinishedRun(g, ran)
    ensures LargeIdInTheWay(g)
  {
    hide *;
    FinishedFacts(g, ran);
    DoubledBound(g, s);
    LocalRun(g, s, ran);
    var h := After(g, ran);
    var k := FirstReady(h);
    NegativeIsLarge(h);
    CompletedInTheWay(g, s, ran);
    var id := if k < s then h[k].id else g[s].id;
    PickIsRunnable(g, s, ran, id);
    LargeIsInTheWay(g, s, id);
  }

  lemma FinishedFacts(g: Graph, ran: seq<StepId>)
    requires FinishedRun(g, ran)
    ensures Follows(g, ran) && NextReady(After(g, ran)) < 0
  {
    hide Follows, NextReady, After;
  }

  lemma DoubledBound(g: Graph, s: nat)
    requires Doubled(g, s)
    ensures s < |g|
  {
  }

  lemma LargeIsInTheWay(g: Graph, s: nat, id: StepId)
    requires Doubled(g, s) && id in Runnable(MarkCompleted(g[..s], g[s].id)) && id >= 0x8000_0000
    ensures LargeIdInTheWay(g)
  {
    hide Runnable, MarkCompleted;
    assert InTheWay(g, s);
  }

  lemma NegativeIsLarge(h: Graph)
    requires NextReady(h) < 0 && FirstReady(h) < |h|
    ensures h[FirstReady(h)].id >= 0x8000_0000
  {
  }

  // Nothing is due before s although the doubled id is completed: from here the loop repeats itself.
  ghost predicate Repeats(g: Graph, s: nat, ran: seq<StepId>)
    requires s < |g|
  {
    FirstReady(After(g, ran)[..s]) == s && g[s].id in Elements(ran)
  }

  ghost predicate NeverRepeats(g: Graph, s: nat, ran: seq<StepId>)
    requires s < |g|
    decreases |ran|
  {
    ran != [] ==> NeverRepeats(g, s, ran[..|ran| - 1]) && !Repeats(g, s, ran[..|ran| - 1])
  }

  lemma {:induction false} FirstRepeat(g: Graph, s: nat, ran: seq<StepId>) returns (k: nat)
    requires s < |g| && !NeverRepeats(g, s, ran)
    ensures k < |ran| && Repeats(g, s, ran[..k])
    decreases |ran|
  {
    hide Repeats;
    var front := ran[..|ran| - 1];
    if Repeats(g, s, front) {
      k := |ran| - 1;
    } else {
      k := FirstRepeat(g, s, front);
      assert front[..k] == ran[..k];
    }
  }

  // Each turn completes one more step before s, until the loop repeats itself.
  lemma {:induction false} TurnsComplete(g: Graph, s: nat, ran: seq<StepId>)
    requires Built(g) && Doubled(g, s) && Follows(g, ran) && NeverRepeats(g, s, ran)
    ensures |ran| <= |Elements(ran)|
    decreases |ran|
  {
    hide *;
    DoubledBound(g, s);
    if ran != [] {
      var front, last := ran[..|ran| - 1], ran[|ran| - 1];
      assert front + [last] == ran;
      FrontNeverRepeats(g, s, ran);
      FollowsPrefix(g, ran, |ran| - 1);
      TurnsComplete(g, s, front);
      FreshTurn(g, s, front, last);
      OneMore(front, last, ran);
    }
  }

  lemma FrontNeverRepeats(g: Graph, s: nat, ran: seq<StepId>)
    requires s < |g| && NeverRepeats(g, s, ran) && ran != []
    ensures NeverRepeats(g, s, ran[..|ran| - 1]) && !Repeats(g, s, ran[..|ran| - 1])
  {
    hide Repeats;
  }

  lemma FreshTurn(g: Graph, s: nat, ran: seq<StepId>, id: StepId)
    requires Built(g) && Doubled(g, s) && Follows(g, ran) && !Repeats(g, s, ran) && NextReady(After(g, ran)) == id
    ensures id !in Elements(ran)
  {
    hide *;
    DoubledBound(g, s);
    LocalRun(g, s, ran);
    CompletedInTheWay(g, s, ran);
    PickedEarly(g, s, ran, id);
    NewPick(g, s, ran, id);
  }

  lemma OneMore(front: seq<StepId>, last: StepId, ran: seq<StepId>)
    requires ran == front + [last] && last !in Elements(front)
    ensures |Elements(ran)| == |Elements(front)| + 1
  {
    ElementsSnoc(front, last);
  }

  lemma NewPick(g: Graph, s: nat, ran: seq<StepId>, id: StepId)
    requires Built(g) && Doubled(g, s) && Elements(ran) <= Ids(g[..s]) && !Repeats(g, s, ran)
    requires var h := After(g, ran); h[..s] == After(g[..s], ran) && FirstReady(h) == FirstReady(h[..s])
    requires var h := After(g, ran); id == if FirstReady(h) < s then h[FirstReady(h)].id else g[s].id
    ensures id !in Elements(ran)
  {
    hide After, Built, Coherent, Elements;
    var p := g[..s];
    PrefixFresh(g, s);
    AnyRunKeeps(p, ran);
    var h := After(p, ran);
    var k := FirstReady(h);
    if k < s {
      assert id !in CompletedIds(h) by {
        forall i | 0 <= i < |h| && h[i].completed ensures h[i].id != id { assert i < k || k < i; }
      }
    }
  }

  // Where it repeats itself, all that is runnable has been completed.
  lemma RepeatsClosed(g: Graph, s: nat, ran: seq<StepId>)
    requires Built(g) && Doubled(g, s) && Follows(g, ran) && Repeats(g, s, ran)
    ensures Runnable(MarkCompleted(g[..s], g[s].id)) <= Elements(ran)
  {
    hide After, Follows, Built, MarkCompleted, Runnable, Elements, AllDone;
    var p, x := g[..s], g[s].id;
    var q, h := MarkCompleted(p, x), After(p, ran);
    LocalRun(g, s, ran);
    CompletedInTheWay(g, s, ran);
    PrefixFresh(g, s);
    MarkKeeps(p, x);
    AnyRunKeeps(p, ran);
    forall i | 0 <= i < |q| && AllIn(q[i].deps, CompletedIds(h)) ensures q[i].id in CompletedIds(h) {
      AllDoneIffAllIn(h, h[i].deps);
      assert h[i].completed;
    }
    assert Closed(q, CompletedIds(h));
    RunnableIsLeastClosed(q);
  }

  lemma WayStops(g: Graph, s: nat)
    requires Built(g) && Doubled(g, s) && LargeIdInTheWay(g)
    ensures FinishedRun(g, Turns(g, s + 1))
  {
    hide *;
    DoubledBound(g, s);
    TurnsFollow(g, s + 1);
    WayIsAt(g, s);
    if |Turns(g, s + 1)| == s + 1 { LongRunIsFree(g, s, Turns(g, s + 1)); }
  }

  lemma WayIsAt(g: Graph, s: nat)
    requires LargeIdInTheWay(g) && Doubled(g, s)
    ensures InTheWay(g, s)
  {
    hide InTheWay;
    var r: nat :| Doubled(g, r) && InTheWay(g, r);
    SameDouble(g, r, s);
  }

  // A run with more turns than there are steps before s repeats itself, so nothing is in its way.
  lemma LongRunIsFree(g: Graph, s: nat, ran: seq<StepId>)
    requires Built(g) && Doubled(g, s) && Follows(g, ran) && |ran| == s + 1
    ensures !InTheWay(g, s)
  {
    hide *;
    DoubledBound(g, s);
    if !NeverRepeats(g, s, ran) {
      var k := FirstRepeat(g, s, ran);
      FollowsPrefix(g, ran, k);
      NoLargeRepeats(g, s, ran[..k]);
    } else {
      TurnsComplete(g, s, ran);
      CompletedInTheWay(g, s, ran);
      SubsetSize(Elements(ran), Ids(g[..s]));
      IdsSize(g[..s]);
    }
  }

  // The loop repeats itself only if no large id is in the way.
  lemma NoLargeRepeats(g: Graph, s: nat, ran: seq<StepId>)
    requires Built(g) && Doubled(g, s) && Follows(g, ran) && Repeats(g, s, ran)
    ensures !InTheWay(g, s)
  {
    hide After, Follows, Built, MarkCompleted, Runnable, Elements, Doubled;
    RepeatsClosed(g, s, ran);
    OnlySmallIdsRun(g, ran);
  }

  lemma DistinctStops(g: Graph)
    requires Distinct(g) && Coherent(g)
    ensures FinishedRun(g, Turns(g, |g| + 1))
  {
    hide Distinct, Coherent, Turns, FinishedRun;
    TurnsFollow(g, |g| + 1);
    RunLength(g, Turns(g, |g| + 1));
  }

  lemma {:induction false} ElementsSize(ran: seq<StepId>)
    requires forall j, k :: 0 <= j < k < |ran| ==> ran[j] != ran[k]
    ensures |Elements(ran)| == |ran|
  {
    if ran != [] {
      var front, last := ran[..|ran| - 1], ran[|ran| - 1];
      ElementsSize(front);
      ElementsSnoc(front, last);
      assert front + [last] == ran;
      assert last !in Elements(front);
    }
  }

  lemma {:induction false} IdsSize(g: Graph)
    ensures |Ids(g)| <= |g|
  {
    if g != [] {
      var front := g[..|g| - 1];
      IdsSize(front);
      assert Ids(g) == Ids(front) + {g[|g| - 1].id} by {
        assert forall i :: 0 <= i < |front| ==> front[i] == g[i];
      }
    }
  }

  lemma SubsetSize(a: set<StepId>, b: set<StepId>)
    requires a <= b
    ensures |a| <= |b|
  {
    assert b == a + (b - a);
  }

  // No run has more turns than there are steps.
  lemma RunLength(g: Graph, ran: seq<StepId>)
    requires Distinct(g) && Coherent(g) && Follows(g, ran)
    ensures |ran| <= |g|
  {
    RunsOnceAndInOrder(g, ran);
    ElementsSize(ran);
    IdsSize(g);
    SubsetSize(Elements(ran), Ids(g));
  }

  // The same id twice: the second step is ready for ever, and the loop reruns the first.
  lemma DuplicateExample(n: nat)
    ensures var g := AddStep(AddStep([], 7), 7);
      NextReady(After(g, Turns(g, n))) == 7
  {
    var g := AddStep(AddStep([], 7), 7);
    AddStepBuilt([], 7);
    AddStepBuilt(AddStep([], 7), 7);
    assert g[0].id == g[1].id;
    assert Shadowed(g, 1);
    ShadowedStaysReady(g, Turns(g, n), 1);
    var h := After(g, Turns(g, n));
    assert FirstReady(h) < |h|;
  }

  // An id of 2^31 stops the loop with work left.
  lemma LargeIdExample()
    ensures var g := AddStep(AddStep([], 0x8000_0000), 1);
      FinishedRun(g, []) && Runnable(g) == {0x8000_0000, 1}
  {
    var g := AddStep(AddStep([], 0x8000_0000), 1);
    assert g == [JobStep(0x8000_0000, [], true, false), JobStep(1, [], true, false)];
    RunnableIsLeastClosed(g);
    assert AllIn(g[0].deps, Runnable(g)) && AllIn(g[1].deps, Runnable(g));
    assert g[0].id in Runnable(g) && g[1].id in Runnable(g);
  }
}

/** The job graph object of kernel/job/job_graph.c and sched_run_job's loop over it. */
module JobScheduler {
  import opened JobSpec
  import JobEdges

  class JobGraph {
    var steps: seq<JobStep>

    constructor ()
      ensures steps == [] && Built(steps)
    {
      steps := [];
    }

    // find_step: the index of the first step with this id, or the number of steps.
    method FindStep(id: StepId) returns (k: nat)
      ensures k == Find(steps, id)
    {
      k := 0;
      while k < |steps|
        invariant k <= |steps|
        invariant forall i :: 0 <= i < k ==> steps[i].id != id
      {
        if steps[k].id == id { break; }
        k := k + 1;
      }
    }

    method AddStep(id: StepId) returns (rc: int)
      modifies this
      ensures steps == JobSpec.AddStep(old(steps), id)
      ensures rc == if |old(steps)| < 32 then 0 else -1
    {
      if |steps| >= MAX_JOB_STEPS { return -1; }
      steps := steps + [JobStep(id, [], true, false)];
      return 0;
    }

    method AddDep(step: StepId, dependsOn: StepId) returns (rc: int)
      modifies this
      ensures steps == JobSpec.AddDep(old(steps), step, dependsOn)
      ensures rc == if JobEdges.TakesDep(old(steps), step, dependsOn) then 0 else -1
    {
      JobEdges.AddDepRecordsIff(steps, step, dependsOn);
      var s := FindStep(step);
      var dp := FindStep(dependsOn);
      if s == |steps| || dp == |steps| { return -1; }
      if |steps[s].deps| >= MAX_STEP_DEPS { return -1; }
      var was := steps[s];
      steps := steps[s := was.(deps := was.deps + [dependsOn], ready := false)];
      assert |steps[s].deps| == |was.deps| + 1;
      return 0;
    }

    // The inner loop of the rescan: are all dependencies of step i completed?
    method DepsDone(i: nat) returns (allDone: bool)
      requires i < |steps|
      ensures allDone == AllDone(steps, steps[i].deps)
    {
      var d := 0;
      while d < |steps[i].deps|
        invariant 0 <= d <= |steps[i].deps|
        invariant forall e :: 0 <= e < d ==> Done(steps, steps[i].deps[e])
      {
        var k := FindStep(steps[i].deps[d]);
        if k == |steps| || !steps[k].completed {
          assert !Done(steps, steps[i].deps[d]);
          return false;
        }
        d := d + 1;
      }
      return true;
    }

    // The loop writes ready flags while it reads completed flags of the same table.
    method MarkCompleted(step: StepId)
      modifies this
      ensures steps == JobSpec.MarkCompleted(old(steps), step)
    {
      hide AllDone;
      var s := FindStep(step);
      if s == |steps| { return; }
      steps := steps[s := steps[s].(completed := true)];
      ghost var h := steps;
      var i := 0;
      while i < |steps|
        invariant 0 <= i <= |steps| == |h|
        invariant forall j :: 0 <= j < i ==> steps[j] == Refresh(h, h[j])
        invariant forall j :: i <= j < |h| ==> steps[j] == h[j]
      {
        if !steps[i].completed {
          var allDone := DepsDone(i);
          FlagsOnly(h, steps, steps[i].deps);
          if allDone { steps := steps[i := steps[i].(ready := true)]; }
        }
        i := i + 1;
      }
    }

    method NextReady() returns (sid: int)
      ensures sid == JobSpec.NextReady(steps)
    {
      var i := 0;
      while i < |steps|
        invariant 0 <= i <= |steps|
        invariant forall j :: 0 <= j < i ==> !(steps[j].ready && !steps[j].completed)
      {
        if steps[i].ready && !steps[i].completed {
          assert FirstReady(steps) == i;
          return AsInt(steps[i].id);
        }
        i := i + 1;
      }
      return -1;
    }

    /**
     * sched_run_job.  The steps executed are returned in order.  Distinct ids are what the
     * source leaves to its callers: without them the loop does not stop (StopsIffNoDuplicates).
     */
    method RunJob() returns (ran: seq<StepId>)
      requires Distinct(steps) && Coherent(steps)
      modifies this
      ensures FinishedRun(old(steps), ran) && steps == After(old(steps), ran)
    {
      hide After, JobSpec.NextReady, Follows, Coherent, Distinct;
      ghost var g := steps;
      ran := [];
      AfterNothing(g);
      FollowsNothing(g);
      while true
        invariant Follows(g, ran) && steps == After(g, ran)
        invariant |ran| <= |g|
        decreases |g| - |ran|
      {
        var sid := NextReady();
        if sid < 0 { break; }
        var step := FindStep(sid);
        NextReadyFound(steps);
        if step == |steps| { break; }
        MarkCompleted(sid);
        AfterSnoc(g, ran, sid);
        FollowsSnoc(g, ran, sid);
        RunLength(g, ran + [sid]);
        ran := ran + [sid];
      }
    }
  }

  lemma FollowsNothing(g: Graph)
    ensures Follows(g, [])
  {
  }

  lemma NextReadyFound(g: Graph)
    ensures 0 <= NextReady(g) ==> Find(g, NextReady(g)) < |g|
  {
  }
}
