/**
 * From the calls that build a job to the order in which it runs: what add_step and add_dep
 * of kernel/job/job_graph.c record, and when every run respects it.
 */
module JobEdges {
  import opened JobSpec

  // ---- One call ---------------------------------------------------------------------

  // Step k is the one that find_step reaches under this id.
  predicate First(g: Graph, id: StepId, k: nat) {
    k < |g| && g[k].id == id && forall i :: 0 <= i < k ==> g[i].id != id
  }

  // Both steps exist, and the one that is to wait has room for a dependency.
  predicate TakesDep(g: Graph, step: StepId, dependsOn: StepId) {
    step in Ids(g) && dependsOn in Ids(g) && exists k :: 0 <= k < |g| && First(g, step, k) && |g[k].deps| < 4
  }

  lemma FoundIsFirst(g: Graph, id: StepId, k: nat)
    ensures First(g, id, k) <==> k == Find(g, id) && k < |g|
    ensures id in Ids(g) <==> Find(g, id) < |g|
  {
    if id in Ids(g) {
      var i :| 0 <= i < |g| && g[i].id == id;
      assert Find(g, id) <= i;
    }
  }

  /**
   * add_dep records the edge if and only if both ids are known and the step has fewer than
   * four dependencies; then that step waits for one more, the last of its list, and is not
   * ready, and nothing else changes.
   */
  lemma AddDepRecordsIff(g: Graph, step: StepId, dependsOn: StepId)
    ensures AddDep(g, step, dependsOn) != g <==> TakesDep(g, step, dependsOn)
    ensures forall k: nat :: TakesDep(g, step, dependsOn) && First(g, step, k) ==>
      var h := AddDep(g, step, dependsOn);
      && |h| == |g| && (forall i :: 0 <= i < |g| && i != k ==> h[i] == g[i])
      && h[k].deps == g[k].deps + [dependsOn] && !h[k].ready && h[k].id == g[k].id && h[k].completed == g[k].completed
  {
    hide Find;
    FoundIsFirst(g, dependsOn, Find(g, dependsOn));
    var k := Find(g, step);
    FoundIsFirst(g, step, k);
    if TakesDep(g, step, dependsOn) {
      assert |AddDep(g, step, dependsOn)[k].deps| == |g[k].deps| + 1;
    }
    forall j: nat | First(g, step, j) ensures j == k { FoundIsFirst(g, step, j); }
  }

  // add_step: the 33rd step is refused; any other is the last, ready and waits for nothing.
  lemma AddStepAppendsIff(g: Graph, id: StepId)
    ensures var h := AddStep(g, id);
      if |g| >= 32 then h == g
      else |h| == |g| + 1 && h[..|g|] == g && h[|g|].id == id && h[|g|].deps == [] && h[|g|].ready && !h[|g|].completed
  {
  }

  // ---- All the calls ----------------------------------------------------------------

  datatype Call = NewStep(id: StepId) | NewDep(step: StepId, dependsOn: StepId)

  function Perform(g: Graph, c: Call): Graph {
    match c
    case NewStep(id) => AddStep(g, id)
    case NewDep(step, dependsOn) => AddDep(g, step, dependsOn)
  }

  function Build(calls: seq<Call>): (g: Graph)
    decreases |calls|
  {
    if calls == [] then [] else Perform(Build(calls[..|calls| - 1]), calls[|calls| - 1])
  }

  // The steps a job consists of: the first 32 asked for.
  function Steps(calls: seq<Call>): (ids: seq<StepId>)
    ensures |ids| <= 32
    decreases |calls|
  {
    if calls == [] then []
    else
      var before := Steps(calls[..|calls| - 1]);
      match calls[|calls| - 1]
      case NewStep(id) => if |before| < 32 then before + [id] else before
      case NewDep(_, _) => before
  }

  // What a step was made to depend on: the first four requests that name known steps.
  function Waits(calls: seq<Call>, x: StepId): (ids: seq<StepId>)
    ensures |ids| <= 4
    decreases |calls|
  {
    if calls == [] then []
    else
      var front := calls[..|calls| - 1];
      var before := Waits(front, x);
      match calls[|calls| - 1]
      case NewStep(_) => before
      case NewDep(step, dependsOn) =>
        if step == x && x in Steps(front) && dependsOn in Steps(front) && |before| < 4 then before + [dependsOn] else before
  }

  predicate Seen(ids: seq<StepId>, i: nat)
    requires i < |ids|
  {
    exists j :: 0 <= j < i && ids[j] == ids[i]
  }

  // The graph records the calls.
  predicate Records(g: Graph, calls: seq<Call>) {
    |g| == |Steps(calls)| && forall i :: 0 <= i < |g| ==> RecordsAt(g, calls, i)
  }

  predicate RecordsAt(g: Graph, calls: seq<Call>, i: nat)
    requires i < |g| == |Steps(calls)|
  {
    && g[i].id == Steps(calls)[i] && !g[i].completed
    && g[i].deps == (if Seen(Steps(calls), i) then [] else Waits(calls, g[i].id))
    && (g[i].ready <==> g[i].deps == [])
  }

  // Nobody waits for or as a step that was not asked for.
  lemma {:induction false} WaitsAreSteps(calls: seq<Call>, x: StepId)
    ensures forall d :: d in Waits(calls, x) ==> d in Steps(calls)
    ensures x !in Steps(calls) ==> Waits(calls, x) == []
    decreases |calls|
  {
    if calls != [] { WaitsAreSteps(calls[..|calls| - 1], x); }
  }

  lemma KnownId(g: Graph, calls: seq<Call>, id: StepId)
    requires Records(g, calls)
    ensures id in Ids(g) <==> id in Steps(calls)
  {
    hide Waits, Seen;
    if id in Steps(calls) {
      var i :| 0 <= i < |g| && Steps(calls)[i] == id;
      assert RecordsAt(g, calls, i);
    }
    if id in Ids(g) {
      var i :| 0 <= i < |g| && g[i].id == id;
      assert RecordsAt(g, calls, i);
    }
  }

  lemma StepRecorded(g: Graph, calls: seq<Call>)
    requires calls != [] && calls[|calls| - 1].NewStep? && Records(g, calls[..|calls| - 1])
    ensures Records(Perform(g, calls[|calls| - 1]), calls)
  {
    var front, id := calls[..|calls| - 1], calls[|calls| - 1].id;
    var h := AddStep(g, id);
    AddStepAppendsIff(g, id);
    WaitsAreSteps(front, id);
    assert Steps(calls) == if |g| < 32 then Steps(front) + [id] else Steps(front);
    hide Seen, AddStep;
    forall i | 0 <= i < |h| ensures RecordsAt(h, calls, i) {
      if i < |g| {
        assert RecordsAt(g, front, i);
        assert h[..|g|][i] == g[i];
        SeenSnoc(Steps(front), id, i);
      } else {
        SeenSnoc(Steps(front), id, i);
      }
    }
  }

  lemma SeenSnoc(ids: seq<StepId>, x: StepId, i: nat)
    requires i <= |ids|
    ensures Seen(ids + [x], i) <==> if i < |ids| then Seen(ids, i) else x in ids
  {
    var all := ids + [x];
    assert forall j :: 0 <= j < |ids| ==> all[j] == ids[j];
    if i < |ids| && Seen(ids, i) {
      var j :| 0 <= j < i && ids[j] == ids[i];
      assert all[j] == all[i];
    }
    if i == |ids| && x in ids {
      var j :| 0 <= j < |ids| && ids[j] == x;
      assert all[j] == all[i];
    }
  }

  lemma DepRecorded(g: Graph, calls: seq<Call>)
    requires calls != [] && calls[|calls| - 1].NewDep? && Records(g, calls[..|calls| - 1])
    ensures Records(Perform(g, calls[|calls| - 1]), calls)
  {
    var front, step, dependsOn := calls[..|calls| - 1], calls[|calls| - 1].step, calls[|calls| - 1].dependsOn;
    var h, k := AddDep(g, step, dependsOn), Find(g, step);
    AddDepRecordsIff(g, step, dependsOn);
    FoundIsFirst(g, step, k);
    KnownId(g, front, step);
    KnownId(g, front, dependsOn);
    hide AddDep, Find, Ids;
    assert Steps(calls) == Steps(front);
    if k < |g| { FirstNotSeen(g, front, step, k); }
    forall i | 0 <= i < |h| ensures RecordsAt(h, calls, i) {
      assert RecordsAt(g, front, i);
      if g[i].id == step && i != k { LaterIsSeen(g, front, k, i); }
    }
  }

  lemma FirstNotSeen(g: Graph, calls: seq<Call>, id: StepId, k: nat)
    requires Records(g, calls) && First(g, id, k)
    ensures !Seen(Steps(calls), k) && g[k].deps == Waits(calls, id)
  {
    assert RecordsAt(g, calls, k);
    forall j | 0 <= j < k ensures Steps(calls)[j] != Steps(calls)[k] { assert RecordsAt(g, calls, j); }
  }

  lemma LaterIsSeen(g: Graph, calls: seq<Call>, k: nat, i: nat)
    requires Records(g, calls) && k < |g| && i < |g| && First(g, g[i].id, k) && i != k
    ensures Seen(Steps(calls), i)
  {
    assert RecordsAt(g, calls, k) && RecordsAt(g, calls, i);
  }

  /**
   * The graph that any calls build: its steps are those asked for, in order, and the first of
   * each id waits for what was asked of it, in order.
   */
  lemma {:induction false} BuildRecords(calls: seq<Call>)
    ensures Records(Build(calls), calls) && Built(Build(calls))
    decreases |calls|
  {
    hide Records, Built, AddStep, AddDep;
    if calls == [] {
      EmptyRecords(calls);
    } else {
      var front, c := calls[..|calls| - 1], calls[|calls| - 1];
      BuildRecords(front);
      match c
      case NewStep(id) =>
        StepRecorded(Build(front), calls);
        AddStepBuilt(Build(front), id);
      case NewDep(step, dependsOn) =>
        DepRecorded(Build(front), calls);
        AddDepBuilt(Build(front), step, dependsOn);
    }
  }

  lemma EmptyRecords(calls: seq<Call>)
    requires calls == []
    ensures Records([], calls) && Built([])
  {
  }

  // ---- The order of the runs ---------------------------------------------------------

  // Each step runs after everything the first step of its id waits for.
  predicate InOrder(g: Graph, ran: seq<StepId>) {
    forall j, k :: 0 <= j < |ran| && 0 <= k < |g| && First(g, ran[j], k) ==> AllIn(g[k].deps, Elements(ran[..j]))
  }

  // No id was asked for twice.
  predicate NoDuplicates(ids: seq<StepId>) { forall i, j :: 0 <= i < j < |ids| ==> ids[i] != ids[j] }

  /**
   * Main theorem: on a job built by any calls that name no step twice, in every run, finished
   * or not, a step follows each id it was made to depend on.
   */
  lemma StepsFollowWhatTheyWaitFor(calls: seq<Call>, ran: seq<StepId>)
    requires NoDuplicates(Steps(calls)) && Follows(Build(calls), ran)
    ensures forall j, d :: 0 <= j < |ran| && d in Waits(calls, ran[j]) ==> exists i :: 0 <= i < j && ran[i] == d
  {
    hide Build, Follows, Built, Waits, Steps, Coherent;
    var g := Build(calls);
    BuildRecords(calls);
    RecordsDistinct(g, calls);
    assert Coherent(g) by { BuiltCoherent(g); }
    RunsOnceAndInOrder(g, ran);
    forall j, d | 0 <= j < |ran| && d in Waits(calls, ran[j]) ensures exists i :: 0 <= i < j && ran[i] == d {
      assert ran[j] in Ids(g);
      var k := Find(g, ran[j]);
      FoundIsFirst(g, ran[j], k);
      FirstNotSeen(g, calls, ran[j], k);
      BuiltCoherent(g);
      assert AllIn(g[k].deps, CompletedIds(g) + Elements(ran[..j]));
      ElementAt(g[k].deps, Elements(ran[..j]), d);
      var i :| 0 <= i < j && ran[..j][i] == d;
      assert ran[i] == d;
    }
  }

  lemma ElementAt(deps: seq<StepId>, s: set<StepId>, d: StepId)
    requires AllIn(deps, s) && d in deps
    ensures d in s
  {
  }

  lemma BuiltCoherent(g: Graph)
    requires Built(g)
    ensures Coherent(g) && CompletedIds(g) == {}
  {
  }

  lemma RecordsDistinct(g: Graph, calls: seq<Call>)
    requires Records(g, calls)
    ensures Distinct(g) <==> NoDuplicates(Steps(calls))
  {
    hide Waits, Seen, Steps;
    forall i | 0 <= i < |g| ensures g[i].id == Steps(calls)[i] { assert RecordsAt(g, calls, i); }
  }

  // ---- A step named twice ------------------------------------------------------------

  // The first doubled id is picked before its time: nothing before it stops the loop, and the
  // steps before it never complete what it waits for.
  ghost predicate RunsEarly(g: Graph, s: nat) {
    Doubled(g, s) && g[s].id < 0x8000_0000 && g[s].id !in Runnable(g[..s])
    && forall id :: id in Runnable(g[..s]) ==> id < 0x8000_0000
  }

  /**
   * On any graph the calls can build, every run respects what the steps wait for if and only
   * if no doubled id runs early; in particular if no id was named twice.
   */
  lemma AlwaysInOrderIff(g: Graph)
    requires Built(g)
    ensures (forall ran :: Follows(g, ran) ==> InOrder(g, ran)) <==> forall s: nat :: !RunsEarly(g, s)
    ensures Distinct(g) ==> forall s: nat :: !RunsEarly(g, s)
  {
    hide Built, Follows, InOrder, RunsEarly;
    if s: nat :| RunsEarly(g, s) {
      var ran := EarlyRun(g, s);
    } else {
      forall ran | Follows(g, ran) ensures InOrder(g, ran) {
        if Distinct(g) {
          DistinctInOrder(g, ran);
        } else {
          var s := FirstDouble(g);
          KeepsOrder(g, s, ran);
        }
      }
    }
    if Distinct(g) {
      forall s: nat ensures !RunsEarly(g, s) { NotDoubled(g, s); }
    }
  }

  lemma NotDoubled(g: Graph, s: nat)
    requires Distinct(g)
    ensures !RunsEarly(g, s)
  {
    if s < |g| {
      assert forall i :: 0 <= i < s ==> g[..s][i].id != g[s].id;
    }
  }

  lemma DistinctInOrder(g: Graph, ran: seq<StepId>)
    requires Built(g) && Distinct(g) && Follows(g, ran)
    ensures InOrder(g, ran)
  {
    BuiltCoherent(g);
    hide Built, Follows, Distinct, Coherent, AllIn;
    RunsOnceAndInOrder(g, ran);
    forall j, k: nat | 0 <= j < |ran| && First(g, ran[j], k) ensures AllIn(g[k].deps, Elements(ran[..j])) {
      assert CompletedIds(g) + Elements(ran[..j]) == Elements(ran[..j]);
    }
  }

  lemma {:induction false} KeepsOrder(g: Graph, s: nat, ran: seq<StepId>)
    requires Built(g) && Doubled(g, s) && !RunsEarly(g, s) && Follows(g, ran)
    ensures InOrder(g, ran) && Elements(ran) <= Runnable(g[..s])
    decreases |ran|
  {
    hide *;
    DoubledBound(g, s);
    if ran == [] {
      AfterNothing(g);
      NothingInOrder(g, ran);
    } else {
      var front, last := ran[..|ran| - 1], ran[|ran| - 1];
      assert front + [last] == ran;
      ElementsSnoc(front, last);
      FollowsPrefix(g, ran, |ran| - 1);
      KeepsOrder(g, s, front);
      LocalRun(g, s, front);
      PickedEarly(g, s, front, last);
      OnlySmallIdsRun(g, ran);
      var h := After(g, front);
      if FirstReady(h) < s {
        DuePick(g, s, front, last, FirstReady(h));
      } else {
        DoubledPick(g, s, front, last);
      }
      OrderSnoc(g, front, last);
    }
  }

  lemma NothingInOrder(g: Graph, ran: seq<StepId>)
    requires ran == []
    ensures InOrder(g, ran)
  {
  }

  lemma OrderSnoc(g: Graph, ran: seq<StepId>, x: StepId)
    requires InOrder(g, ran) && forall k: nat :: First(g, x, k) ==> AllIn(g[k].deps, Elements(ran))
    ensures InOrder(g, ran + [x])
  {
    hide AllIn, Elements, First;
    var all := ran + [x];
    forall j, k: nat | 0 <= j < |all| && k < |g| && First(g, all[j], k) ensures AllIn(g[k].deps, Elements(all[..j])) {
      assert all[..j] == ran[..j];
      assert ran[..|ran|] == ran;
    }
  }

  // The steps before s after a stretch of the run, as a graph of their own.
  lemma PrefixAfter(g: Graph, s: nat, ran: seq<StepId>)
    requires Built(g) && Doubled(g, s) && Elements(ran) <= Runnable(g[..s])
    ensures var p, h := g[..s], After(g[..s], ran);
      Distinct(p) && Coherent(p) && SameShape(p, h) && Distinct(h) && Coherent(h)
      && CompletedIds(p) == {} && CompletedIds(h) == Elements(ran)
  {
    hide After, Runnable, Built, Coherent;
    PrefixFresh(g, s);
    RunnableAreSteps(g[..s]);
    AnyRunKeeps(g[..s], ran);
  }

  // A step picked before s has everything it waits for.
  lemma DuePick(g: Graph, s: nat, ran: seq<StepId>, x: StepId, k: nat)
    requires Built(g) && Doubled(g, s) && k < s && Elements(ran) <= Runnable(g[..s])
    requires k == FirstReady(After(g[..s], ran)) && x == After(g[..s], ran)[k].id
    ensures x in Runnable(g[..s])
    ensures forall j: nat :: First(g, x, j) ==> AllIn(g[j].deps, Elements(ran))
  {
    hide After, Runnable, Built, Coherent, AllIn, Elements, FirstReady, Closed;
    var p, h := g[..s], After(g[..s], ran);
    PrefixAfter(g, s, ran);
    DueIsIn(h, k);
    RunnableIsLeastClosed(p);
    AllInMore(p[k].deps, Elements(ran), Runnable(p));
    ClosedStep(p, Runnable(p), k);
    forall j: nat | First(g, x, j) ensures AllIn(g[j].deps, Elements(ran)) {
      assert g[k].id == x && g[..s][k] == g[k];
      assert forall i :: 0 <= i < k ==> p[i].id != p[k].id;
      assert forall i :: 0 <= i < k ==> g[i] == p[i];
    }
  }

  // If nothing before s is due, all that can run there has run, so the doubled step has too.
  lemma DoubledPick(g: Graph, s: nat, ran: seq<StepId>, x: StepId)
    requires Built(g) && Doubled(g, s) && !RunsEarly(g, s) && Elements(ran) <= Runnable(g[..s])
    requires FirstReady(After(g[..s], ran)) == s && x == g[s].id < 0x8000_0000
    requires (forall id :: id in Elements(ran) ==> id < 0x8000_0000) && InOrder(g, ran)
    ensures x in Runnable(g[..s])
    ensures forall j: nat :: First(g, x, j) ==> AllIn(g[j].deps, Elements(ran))
  {
    hide After, Runnable, Built, Coherent, AllIn, FirstReady, First, Distinct, CompletedIds;
    var p, h := g[..s], After(g[..s], ran);
    PrefixAfter(g, s, ran);
    NothingDueIsClosed(p, h);
    RunnableIsLeastClosed(p);
    assert Runnable(p) == Elements(ran);
    assert x in Elements(ran);
    var i :| 0 <= i < |ran| && ran[i] == x;
    FirstBound(g, x);
    forall j: nat | First(g, x, j) ensures AllIn(g[j].deps, Elements(ran)) {
      ElementsPrefix(ran, i);
      AllInMore(g[j].deps, Elements(ran[..i]), Elements(ran));
    }
  }

  lemma FirstBound(g: Graph, x: StepId)
    ensures forall j: nat :: First(g, x, j) ==> j < |g|
  {
  }

  lemma ElementsPrefix(ran: seq<StepId>, i: nat)
    requires i <= |ran|
    ensures Elements(ran[..i]) <= Elements(ran)
  {
    forall x | x in Elements(ran[..i]) ensures x in Elements(ran) {
      var k :| 0 <= k < i && ran[..i][k] == x;
      assert ran[k] == x;
    }
  }

  lemma NothingDueIsClosed(g: Graph, h: Graph)
    requires SameShape(g, h) && Distinct(h) && Coherent(h) && FirstReady(h) == |h| && CompletedIds(g) == {}
    ensures Closed(g, CompletedIds(h))
  {
    hide AllDone, AllIn;
    forall i | 0 <= i < |g| && AllIn(g[i].deps, CompletedIds(h)) ensures g[i].id in CompletedIds(h) {
      AllDoneIffAllIn(h, h[i].deps);
      assert h[i].completed;
    }
  }

  // A run of the steps before s is a run of the whole.
  lemma {:induction false} LocalIsWhole(g: Graph, s: nat, ran: seq<StepId>)
    requires Built(g) && Doubled(g, s) && Follows(g[..s], ran)
    ensures Follows(g, ran)
    decreases |ran|
  {
    hide *;
    DoubledBound(g, s);
    if ran == [] {
      NothingFollows(g, ran);
    } else {
      var front, last := ran[..|ran| - 1], ran[|ran| - 1];
      assert front + [last] == ran;
      FollowsPrefix(g[..s], ran, |ran| - 1);
      LocalIsWhole(g, s, front);
      LocalRun(g, s, front);
      SamePick(After(g, front), s, last);
      FollowsSnoc(g, front, last);
    }
  }

  lemma NothingFollows(g: Graph, ran: seq<StepId>)
    requires ran == []
    ensures Follows(g, ran)
  {
  }

  lemma SamePick(h: Graph, s: nat, x: StepId)
    requires s <= |h| && FirstReady(h) == FirstReady(h[..s]) && NextReady(h[..s]) == x
    ensures NextReady(h) == x
  {
  }

  // The run that picks a doubled id too early.
  lemma EarlyRun(g: Graph, s: nat) returns (ran: seq<StepId>)
    requires Built(g) && RunsEarly(g, s)
    ensures Follows(g, ran) && !InOrder(g, ran)
  {
    hide After, Runnable, Built, Coherent, Distinct, Follows, NextReady, InOrder, AllIn, Elements, FirstReady, Turns;
    var p, x := g[..s], g[s].id;
    PrefixFresh(g, s);
    assert Distinct(p);
    DistinctStops(p);
    var start := Turns(p, s + 1);
    FinishedFacts(p, start);
    RunsOnlyRunnable(p, start);
    LocalIsWhole(g, s, start);
    LocalRun(g, s, start);
    var h := After(g, start);
    DoneBefore(p, start);
    PickDoubled(h, s, x);
    FollowsSnoc(g, start, x);
    ran := start + [x];
    if InOrder(g, ran) { DoubledRuns(g, s, start); }
  }

  // The loop stops on a graph of small ids only when nothing is due.
  lemma DoneBefore(p: Graph, ran: seq<StepId>)
    requires Distinct(p) && Coherent(p) && FinishedRun(p, ran)
    requires forall id :: id in Runnable(p) ==> id < 0x8000_0000
    ensures FirstReady(After(p, ran)) == |p|
  {
    FinishedFacts(p, ran);
    hide After, Runnable, Coherent, Distinct, Follows, NextReady, FinishedRun;
    var h := After(p, ran);
    if FirstReady(h) < |h| {
      NegativeIsLarge(h);
      DueIsRunnable(p, ran, h, FirstReady(h));
    }
  }

  lemma PickDoubled(h: Graph, s: nat, x: StepId)
    requires s < |h| && FirstReady(h) == s && h[s].id == x < 0x8000_0000
    ensures NextReady(h) == x
  {
  }

  lemma DoubledRuns(g: Graph, s: nat, ran: seq<StepId>)
    requires Doubled(g, s) && Elements(ran) <= Runnable(g[..s]) && InOrder(g, ran + [g[s].id])
    ensures g[s].id in Runnable(g[..s])
  {
    hide Runnable, Distinct, AllIn, Elements, Closed;
    var p, x := g[..s], g[s].id;
    var i :| 0 <= i < |p| && p[i].id == x;
    var k := Find(g, x);
    assert g[i].id == x;
    FoundIsFirst(g, x, k);
    assert k < s && (ran + [x])[|ran|] == x && (ran + [x])[..|ran|] == ran;
    RunnableIsLeastClosed(p);
    AllInMore(g[k].deps, Elements(ran), Runnable(p));
    assert p[k] == g[k];
    ClosedStep(p, Runnable(p), k);
  }

  // Step 1 named twice and made to wait for step 2: it is run first.
  lemma EarlyExample()
    ensures var g := Perform(Perform(Perform(Perform([], NewStep(1)), NewStep(1)), NewStep(2)), NewDep(1, 2));
      First(g, 1, 0) && g[0].deps == [2] && Follows(g, [1]) && !InOrder(g, [1])
  {
    var g := [JobStep(1, [2], false, false), JobStep(1, [], true, false), JobStep(2, [], true, false)];
    ExampleGraph();
    hide AddStep, AddDep;
    assert [1][..0] == [];
    AfterNothing(g);
    assert FirstReady(g) == 1 && NextReady(g) == 1;
    assert First(g, 1, 0) && g[0].deps[0] !in Elements([]);
  }

  lemma ExampleGraph()
    ensures Perform(Perform(Perform(Perform([], NewStep(1)), NewStep(1)), NewStep(2)), NewDep(1, 2))
      == [JobStep(1, [2], false, false), JobStep(1, [], true, false), JobStep(2, [], true, false)]
  {
    var g := AddStep(AddStep(AddStep([], 1), 1), 2);
    assert g == [JobStep(1, [], true, false), JobStep(1, [], true, false), JobStep(2, [], true, false)];
    assert Find(g, 1) == 0 && Find(g, 2) < 3 by { assert g[2].id == 2; }
    hide Find, AddStep;
    var h := AddDep(g, 1, 2);
    assert h[0] == JobStep(1, [2], false, false) && h[1] == g[1] && h[2] == g[2];
  }
}
