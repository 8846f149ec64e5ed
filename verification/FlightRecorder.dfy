/**
 * The flight recorder (kernel/trace/flightrec.c): a ring of 256 events with a 32-bit write
 * counter, seen against the complete log that it truncates.
 */
module FlightSpec {
  import opened Basics
  import opened Words

  const SIZE := 256
  const STEP_END := 0x04
  const BUDGET_EXCEED := 0x12
  const VIOLATION := 0x13

  datatype Event = Event(usec: nat, cycles: nat, kind: nat, job: nat, step: nat, extra: nat)

  // How many events a reader takes from the ring.
  function Count(head: nat): (n: nat)
    ensures n <= SIZE && n <= head
  {
    if head > SIZE then SIZE else head
  }

  // The events in the order flightrec_seal_hash reads them.
  function SealOrder(buf: seq<Event>, head: nat): (r: seq<Event>)
    requires |buf| == SIZE
    ensures |r| == Count(head)
  {
    var start := head - Count(head);
    seq(Count(head), i requires 0 <= i < Count(head) => buf[(start + i) % SIZE])
  }

  function Recent(log: seq<Event>, k: nat): (r: seq<Event>)
    requires k <= |log|
    ensures |r| == k
  {
    log[|log| - k..]
  }

  // Event number i sits in slot i % 256 as long as it is among the last 256.
  ghost predicate Holds(buf: seq<Event>, head: nat, log: seq<Event>) {
    && |buf| == SIZE && head == |log| % TWO32
    && forall i :: 0 <= i < |log| && |log| - SIZE <= i ==> buf[Slot(i)] == log[i]
  }

  function Slot(i: nat): (s: nat)
    ensures s < SIZE
  {
    i % SIZE
  }

  lemma SameSlot(i: nat, j: nat, turns: nat)
    requires i == j + SIZE * turns
    ensures Slot(i) == Slot(j)
  {
  }

  lemma LogKeeps(buf: seq<Event>, head: nat, log: seq<Event>, e: Event)
    requires Holds(buf, head, log)
    ensures Holds(buf[Slot(head) := e], (head + 1) % TWO32, log + [e])
  {
    hide Slot;
    NextHead(|log|);
    var turns := |log| / TWO32;
    SameSlot(|log|, head, turns * (TWO32 / SIZE));
    var next := buf[Slot(head) := e];
    forall i | 0 <= i < |log| + 1 && |log| + 1 - SIZE <= i ensures next[Slot(i)] == (log + [e])[i] {
      if i < |log| { SlotsDiffer(i, |log|); }
    }
  }

  lemma SlotsDiffer(i: nat, j: nat)
    requires i < j < i + SIZE
    ensures Slot(i) != Slot(j)
  {
  }

  /**
   * Read in seal order the ring is a suffix of the log: the last min(head, 256) events.
   * It is the last min(n, 256) events of all n exactly if the counter has not just wrapped.
   */
  lemma SealOrderIsRecent(buf: seq<Event>, head: nat, log: seq<Event>)
    requires Holds(buf, head, log)
    ensures Count(head) <= |log| && SealOrder(buf, head) == Recent(log, Count(head))
    ensures SealOrder(buf, head) == Recent(log, Count(|log|)) <==> |log| < TWO32 || head >= SIZE
  {
    hide Slot;
    var n, k := |log|, Count(head);
    assert k <= n;
    forall i | 0 <= i < k ensures SealOrder(buf, head)[i] == log[n - k + i] {
      var turns := n / TWO32;
      SameSlot(n - k + i, head - k + i, turns * (TWO32 / SIZE));
      SlotIsMod(head - k + i);
    }
    assert SealOrder(buf, head) == Recent(log, k);
  }

  // The ring after a log, starting from an empty one.
  function Ring(log: seq<Event>): (buf: seq<Event>)
    ensures |buf| == SIZE
    decreases |log|
  {
    if log == [] then seq(SIZE, _ => Event(0, 0, 0, 0, 0, 0))
    else Ring(log[..|log| - 1])[Slot((|log| - 1) % TWO32) := log[|log| - 1]]
  }

  lemma {:induction false} RingHolds(log: seq<Event>)
    ensures Holds(Ring(log), |log| % TWO32, log)
    decreases |log|
  {
    if log != [] {
      var front, last := log[..|log| - 1], log[|log| - 1];
      hide Holds, Slot, Ring;
      RingStep(front, last);
      assert front + [last] == log;
      RingHolds(front);
      LogKeeps(Ring(front), |front| % TWO32, front, last);
      NextHead(|front|);
    }
  }

  lemma RingStep(front: seq<Event>, last: Event)
    ensures Ring(front + [last]) == Ring(front)[Slot(|front| % TWO32) := last]
  {
    assert (front + [last])[..|front|] == front;
  }

  lemma NextHead(n: nat)
    ensures (n % TWO32 + 1) % TWO32 == (n + 1) % TWO32
  {
  }

  // After exactly 2^32 events the counter is 0 and the reader sees none of the 256 that are there.
  lemma CounterWrapExample(e: Event)
    ensures var log := seq(TWO32, _ => e);
      Holds(Ring(log), |log| % TWO32, log) && SealOrder(Ring(log), |log| % TWO32) == [] && |Recent(log, Count(|log|))| == SIZE
  {
    var log := seq(TWO32, _ => e);
    hide Holds, Ring;
    RingHolds(log);
    assert |log| % TWO32 == 0;
  }

  lemma SlotIsMod(i: nat)
    ensures Slot(i) == i % SIZE
  {
  }

  // ---- Queries ---------------------------------------------------------------------

  predicate Ends(e: Event, job: nat, step: nat) { e.kind == STEP_END && e.job == job && e.step == step }

  // The duration of the newest matching STEP_END, or 0.
  function Newest(events: seq<Event>, job: nat, step: nat): (r: nat) {
    if events == [] then 0
    else if Ends(events[|events| - 1], job, step) then events[|events| - 1].extra
    else Newest(events[..|events| - 1], job, step)
  }

  lemma {:induction false} NewestSpec(events: seq<Event>, job: nat, step: nat)
    ensures (exists k :: 0 <= k < |events| && Ends(events[k], job, step) && events[k].extra == Newest(events, job, step)
                         && forall j :: k < j < |events| ==> !Ends(events[j], job, step))
            || (Newest(events, job, step) == 0 && forall j :: 0 <= j < |events| ==> !Ends(events[j], job, step))
    decreases |events|
  {
    hide Ends;
    if events != [] && !Ends(events[|events| - 1], job, step) {
      var front := events[..|events| - 1];
      NewestSpec(front, job, step);
      assert forall j :: 0 <= j < |front| ==> front[j] == events[j];
      if k :| 0 <= k < |front| && Ends(front[k], job, step) && front[k].extra == Newest(front, job, step)
              && forall j :: k < j < |front| ==> !Ends(front[j], job, step) {
        assert Ends(events[k], job, step) && events[k].extra == Newest(events, job, step);
        assert forall j :: k < j < |events| ==> !Ends(events[j], job, step);
      }
    }
  }

  predicate IsStep(e: Event, job: nat) { e.job == job && e.kind == STEP_END }
  predicate IsViolation(e: Event, job: nat) { e.job == job && (e.kind == VIOLATION || e.kind == BUDGET_EXCEED) }

  function StepsOf(events: seq<Event>, job: nat): (r: seq<Event>) {
    if events == [] then []
    else
      var front, e := StepsOf(events[..|events| - 1], job), events[|events| - 1];
      if IsStep(e, job) then front + [e] else front
  }

  function ViolationsOf(events: seq<Event>, job: nat): (r: seq<Event>) {
    if events == [] then []
    else
      var front, e := ViolationsOf(events[..|events| - 1], job), events[|events| - 1];
      if IsViolation(e, job) then front + [e] else front
  }

  // These pick exactly the matching events, with their multiplicities.
  lemma {:induction false} PicksExactly(events: seq<Event>, job: nat, e: Event)
    ensures multiset(StepsOf(events, job))[e] == if IsStep(e, job) then multiset(events)[e] else 0
    ensures multiset(ViolationsOf(events, job))[e] == if IsViolation(e, job) then multiset(events)[e] else 0
    decreases |events|
  {
    hide IsStep, IsViolation;
    if events != [] {
      var front, last := events[..|events| - 1], events[|events| - 1];
      PicksExactly(front, job, e);
      assert events == front + [last];
    }
  }

  function SumExtra(events: seq<Event>): nat {
    if events == [] then 0 else SumExtra(events[..|events| - 1]) + events[|events| - 1].extra
  }

  // first_ts and last_ts of the loop; a first of 0 counts as not set.
  function FirstTs(events: seq<Event>, job: nat): nat {
    if events == [] then 0
    else
      var e, first := events[|events| - 1], FirstTs(events[..|events| - 1], job);
      if e.job == job && (first == 0 || e.usec < first) then e.usec else first
  }

  function LastTs(events: seq<Event>, job: nat): nat {
    if events == [] then 0
    else
      var e, last := events[|events| - 1], LastTs(events[..|events| - 1], job);
      if e.job == job && e.usec > last then e.usec else last
  }

  // The job's newest event.
  function LastOf(events: seq<Event>, job: nat): Option<Event> {
    if events == [] then None
    else if events[|events| - 1].job == job then Some(events[|events| - 1])
    else LastOf(events[..|events| - 1], job)
  }

  predicate IsLeast(events: seq<Event>, job: nat, x: nat) {
    && (exists i :: 0 <= i < |events| && events[i].job == job && events[i].usec == x)
    && (forall i :: 0 <= i < |events| && events[i].job == job ==> x <= events[i].usec)
  }

  predicate IsGreatest(events: seq<Event>, job: nat, x: nat) {
    && (exists i :: 0 <= i < |events| && events[i].job == job && events[i].usec == x)
    && (forall i :: 0 <= i < |events| && events[i].job == job ==> events[i].usec <= x)
  }

  predicate NoZeroStamp(events: seq<Event>, job: nat) {
    forall i :: 0 <= i < |events| && events[i].job == job ==> events[i].usec > 0
  }

  // last_ts is the job's greatest time stamp, and first_ts without zero stamps its least.
  lemma {:induction false} TsAreExtremes(events: seq<Event>, job: nat)
    ensures LastOf(events, job).Some? ==> IsGreatest(events, job, LastTs(events, job))
    ensures LastOf(events, job).Some? && NoZeroStamp(events, job) ==>
      0 < FirstTs(events, job) && IsLeast(events, job, FirstTs(events, job))
    ensures LastOf(events, job) == None ==>
      FirstTs(events, job) == LastTs(events, job) == 0 && forall i :: 0 <= i < |events| ==> events[i].job != job
    decreases |events|
  {
    if events != [] {
      var front, e := events[..|events| - 1], events[|events| - 1];
      TsAreExtremes(front, job);
      assert events == front + [e];
      ExtremesStay(front, e, job, FirstTs(front, job));
      ExtremesStay(front, e, job, LastTs(front, job));
      assert events[|front|] == e;
    }
  }

  lemma ExtremesStay(front: seq<Event>, e: Event, job: nat, x: nat)
    ensures IsLeast(front, job, x) && (e.job == job ==> x <= e.usec) ==> IsLeast(front + [e], job, x)
    ensures IsGreatest(front, job, x) && (e.job == job ==> e.usec <= x) ==> IsGreatest(front + [e], job, x)
    ensures IsLeast(front, job, x) && e.job == job && e.usec <= x ==> IsLeast(front + [e], job, e.usec)
    ensures IsGreatest(front, job, x) && e.job == job && x <= e.usec ==> IsGreatest(front + [e], job, e.usec)
    ensures NoZeroStamp(front + [e], job) <==> NoZeroStamp(front, job) && (e.job == job ==> e.usec > 0)
  {
    var all := front + [e];
    assert forall i :: 0 <= i < |front| ==> all[i] == front[i];
    assert all[|front|] == e;
  }

  // first_ts is 0, "not set", exactly after a zero stamp.
  lemma {:induction false} FirstUnsetIff(events: seq<Event>, job: nat)
    ensures FirstTs(events, job) == 0 <==> LastOf(events, job) == None || LastOf(events, job).value.usec == 0
    decreases |events|
  {
    if events != [] { FirstUnsetIff(events[..|events| - 1], job); }
  }

  // Wall time starts at the job's least stamp exactly if no stamp is zero or the newest one is.
  lemma FirstIsLeastIff(events: seq<Event>, job: nat)
    requires LastOf(events, job).Some?
    ensures IsLeast(events, job, FirstTs(events, job)) <==> NoZeroStamp(events, job) || LastOf(events, job).value.usec == 0
  {
    hide FirstTs, LastTs;
    TsAreExtremes(events, job);
    FirstUnsetIff(events, job);
    NewestIsOne(events, job);
  }

  lemma {:induction false} NewestIsOne(events: seq<Event>, job: nat)
    requires LastOf(events, job).Some?
    ensures exists i :: 0 <= i < |events| && events[i] == LastOf(events, job).value && events[i].job == job
    decreases |events|
  {
    var n := |events| - 1;
    if events[n].job != job {
      NewestIsOne(events[..n], job);
      var i :| 0 <= i < n && events[..n][i] == LastOf(events[..n], job).value && events[..n][i].job == job;
      assert events[i] == events[..n][i];
    }
  }

  datatype JobStats = JobStats(steps: nat, cpu: nat, wall: int, violations: nat)

  function Stats(events: seq<Event>, job: nat): JobStats {
    JobStats(|StepsOf(events, job)|, SumExtra(StepsOf(events, job)), LastTs(events, job) - FirstTs(events, job),
             |ViolationsOf(events, job)|)
  }

  // ---- What the statistics count -----------------------------------------------------

  function StepsAt(events: seq<Event>, job: nat): set<nat> {
    set i: nat | i < |events| && events[i].job == job && events[i].kind == 4
  }

  function ViolationsAt(events: seq<Event>, job: nat): set<nat> {
    set i: nat | i < |events| && events[i].job == job && (events[i].kind == 18 || events[i].kind == 19)
  }

  // What event i adds to the job's CPU time.
  function Worked(events: seq<Event>, job: nat, i: nat): nat
    requires i < |events|
  {
    if events[i].job == job && events[i].kind == 4 then events[i].extra else 0
  }

  function Total(xs: seq<nat>): nat { if xs == [] then 0 else Total(xs[..|xs| - 1]) + xs[|xs| - 1] }

  function Work(events: seq<Event>, job: nat): seq<nat> {
    seq(|events|, i requires 0 <= i < |events| => Worked(events, job, i))
  }

  lemma {:induction false} StepsCounted(events: seq<Event>, job: nat)
    ensures |StepsOf(events, job)| == |StepsAt(events, job)|
    decreases |events|
  {
    if events != [] {
      var n := |events| - 1;
      StepsCounted(events[..n], job);
      assert StepsAt(events, job) == StepsAt(events[..n], job) + (if IsStep(events[n], job) then {n} else {});
    }
  }

  lemma {:induction false} ViolationsCounted(events: seq<Event>, job: nat)
    ensures |ViolationsOf(events, job)| == |ViolationsAt(events, job)|
    decreases |events|
  {
    if events != [] {
      var n := |events| - 1;
      ViolationsCounted(events[..n], job);
      assert ViolationsAt(events, job) == ViolationsAt(events[..n], job) + (if IsViolation(events[n], job) then {n} else {});
    }
  }

  lemma {:induction false} WorkSummed(events: seq<Event>, job: nat)
    ensures SumExtra(StepsOf(events, job)) == Total(Work(events, job))
    decreases |events|
  {
    if events != [] {
      var n := |events| - 1;
      WorkSummed(events[..n], job);
      var steps := StepsOf(events[..n], job);
      assert (steps + [events[n]])[..|steps|] == steps;
      assert Work(events, job)[..n] == Work(events[..n], job);
    }
  }

  /**
   * The statistics of a job: how many of its events are step ends (0x04), what these add up
   * to, how many are budget overruns or violations (0x12, 0x13), and the span between its
   * least and its greatest time stamp, unless a stamp is 0; without events, all zero.
   */
  lemma StatsAre(events: seq<Event>, job: nat)
    ensures var s := Stats(events, job);
      && s.steps == |StepsAt(events, job)| && s.violations == |ViolationsAt(events, job)| && s.cpu == Total(Work(events, job))
      && ((forall i :: 0 <= i < |events| ==> events[i].job != job) ==> s == JobStats(0, 0, 0, 0))
      && (forall first: nat, last: nat :: NoZeroStamp(events, job) && IsLeast(events, job, first) && IsGreatest(events, job, last)
            ==> s.wall == last - first)
  {
    StepsCounted(events, job);
    ViolationsCounted(events, job);
    WorkSummed(events, job);
    TsAreExtremes(events, job);
    hide StepsOf, ViolationsOf, SumExtra, FirstTs, LastTs, Work;
    if LastOf(events, job) == None {
      assert StepsAt(events, job) == {} && ViolationsAt(events, job) == {};
      NoWork(events, job);
    } else {
      NewestIsOne(events, job);
    }
  }

  lemma {:induction false} NoWork(events: seq<Event>, job: nat)
    requires forall i :: 0 <= i < |events| ==> events[i].job != job
    ensures Total(Work(events, job)) == 0
    decreases |events|
  {
    if events != [] {
      var n := |events| - 1;
      NoWork(events[..n], job);
      assert Work(events, job)[..n] == Work(events[..n], job);
    }
  }
}

/** The recorder object: ring and counter, with the full log as a ghost. */
module FlightRecorder {
  import opened Words
  import opened FlightSpec

  class Recorder {
    const buf: array<Event>
    var head: nat                 // 32 bits
    ghost var log: seq<Event>     // everything ever logged

    ghost predicate Valid()
      reads this, buf
    {
      Holds(buf[..], head, log)
    }

    constructor ()
      ensures Valid() && log == [] && fresh(buf)
    {
      buf := new Event[SIZE](_ => Event(0, 0, 0, 0, 0, 0));
      head, log := 0, [];
    }

    method Log(e: Event)
      requires Valid()
      modifies this, buf
      ensures Valid() && log == old(log) + [e]
    {
      assert buf.Length == SIZE;
      hide Holds;
      LogKeeps(buf[..], head, log, e);
      Store(e);
      head := (head + 1) % TWO32;
      log := log + [e];
    }

    method Store(e: Event)
      requires buf.Length == SIZE
      modifies buf
      ensures buf[..] == old(buf[..])[Slot(head) := e]
    {
      buf[head % SIZE] := e;
    }

    // flightrec_last_duration: a backwards scan from head - 1.
    method LastDuration(job: nat, step: nat) returns (d: nat)
      requires Valid()
      ensures Count(head) <= |log| && d == Newest(Recent(log, Count(head)), job, step)
    {
      SealOrderIsRecent(buf[..], head, log);
      d := ScanBack(job, step);
    }

    method ScanBack(job: nat, step: nat) returns (d: nat)
      requires buf.Length == SIZE
      ensures d == Newest(SealOrder(buf[..], head), job, step)
    {
      ghost var all := SealOrder(buf[..], head);
      var count := Count(head);
      var i := 0;
      assert all[..count] == all;
      hide SealOrder;
      while i < count
        invariant 0 <= i <= count
        invariant Newest(all, job, step) == Newest(all[..count - i], job, step)
      {
        var e := EventBefore(i);
        assert e == all[count - 1 - i];
        assert all[..count - i][..count - i - 1] == all[..count - i - 1];
        if e.kind == STEP_END && e.job == job && e.step == step { return e.extra; }
        i := i + 1;
      }
      return 0;
    }

    // The i-th event counted from the newest.
    method EventBefore(i: nat) returns (e: Event)
      requires buf.Length == SIZE && i < Count(head)
      ensures e == SealOrder(buf[..], head)[Count(head) - 1 - i]
    {
      return buf[(head - 1 - i) % SIZE];
    }

    // The i-th event in seal order.
    method EventAt(i: nat) returns (e: Event)
      requires buf.Length == SIZE && i < Count(head)
      ensures e == SealOrder(buf[..], head)[i]
    {
      return buf[if head > SIZE then (head - SIZE + i) % SIZE else i];
    }

    // flightrec_get_job_stats.
    method GetJobStats(job: nat) returns (stats: JobStats)
      requires Valid()
      ensures Count(head) <= |log| && stats == Stats(Recent(log, Count(head)), job)
    {
      SealOrderIsRecent(buf[..], head, log);
      stats := Tally(job);
    }

    method Tally(job: nat) returns (stats: JobStats)
      requires buf.Length == SIZE
      ensures stats == Stats(SealOrder(buf[..], head), job)
    {
      hide StepsOf, SumExtra, ViolationsOf, FirstTs, LastTs, SealOrder, Count;
      ghost var all := SealOrder(buf[..], head);
      var count := Count(head);
      NoStats(all[..0], job);
      var steps, cpu, violations := 0, 0, 0;
      var first: int, last: int := 0, 0;
      var i := 0;
      while i < count
        invariant 0 <= i <= count
        invariant steps == |StepsOf(all[..i], job)| && cpu == SumExtra(StepsOf(all[..i], job))
        invariant violations == |ViolationsOf(all[..i], job)|
        invariant first == FirstTs(all[..i], job) && last == LastTs(all[..i], job)
      {
        var e := EventAt(i);
        StatsStep(all, i, job);
        if e.job == job {
          if first == 0 || e.usec < first { first := e.usec; }
          if e.usec > last { last := e.usec; }
          if e.kind == STEP_END {
            steps := steps + 1;
            cpu := cpu + e.extra;
          } else if e.kind == VIOLATION || e.kind == BUDGET_EXCEED {
            violations := violations + 1;
          }
        }
        i := i + 1;
      }
      assert all[..i] == all;
      return JobStats(steps, cpu, last - first, violations);
    }
  }

  lemma NoStats(events: seq<Event>, job: nat)
    requires events == []
    ensures StepsOf(events, job) == [] && SumExtra(StepsOf(events, job)) == 0 && ViolationsOf(events, job) == []
    ensures FirstTs(events, job) == 0 && LastTs(events, job) == 0
  {
  }

  // How the accumulators move by one event.
  lemma StatsStep(all: seq<Event>, i: nat, job: nat)
    requires i < |all|
    ensures var e, before, after := all[i], all[..i], all[..i + 1];
      StepsOf(after, job) == (if IsStep(e, job) then StepsOf(before, job) + [e] else StepsOf(before, job))
      && SumExtra(StepsOf(after, job)) == SumExtra(StepsOf(before, job)) + (if IsStep(e, job) then e.extra else 0)
      && ViolationsOf(after, job) == (if IsViolation(e, job) then ViolationsOf(before, job) + [e] else ViolationsOf(before, job))
      && FirstTs(after, job) == (if e.job == job && (FirstTs(before, job) == 0 || e.usec < FirstTs(before, job)) then e.usec else FirstTs(before, job))
      && LastTs(after, job) == (if e.job == job && e.usec > LastTs(before, job) then e.usec else LastTs(before, job))
  {
    var e, before, after := all[i], all[..i], all[..i + 1];
    assert after[..i] == before && after[i] == e;
    var s := StepsOf(before, job);
    assert (s + [e])[..|s|] == s;
  }
}

/** The digest that seals the recorder's contents. */
module FlightSeal {
  import opened FlightSpec
  import opened FlightRecorder
  import Sha256Spec
  import Sha256Stream

  /**
   * flightrec_seal_hash: the SHA-256 digest of the counter and the retained events, in
   * the order they were logged.  headBytes and bytes give the memory image of a word and of an event.
   */
  method SealHash(r: Recorder, headBytes: nat -> seq<Sha256Spec.Byte>, bytes: Event -> seq<Sha256Spec.Byte>)
    returns (digest: seq<Sha256Spec.Byte>)
    requires r.Valid()
    ensures Count(r.head) <= |r.log|
    ensures digest == Sha256Spec.Digest(headBytes(r.head) + Image(Recent(r.log, Count(r.head)), bytes))
  {
    SealOrderIsRecent(r.buf[..], r.head, r.log);
    digest := HashRing(r, headBytes(r.head), bytes);
  }

  method HashRing(r: Recorder, front: seq<Sha256Spec.Byte>, bytes: Event -> seq<Sha256Spec.Byte>)
    returns (digest: seq<Sha256Spec.Byte>)
    requires r.buf.Length == SIZE
    ensures digest == Sha256Spec.Digest(front + Image(SealOrder(r.buf[..], r.head), bytes))
  {
    hide *;
    var ctx := new Sha256Stream.Context();
    ctx.Init();
    ctx.Update(front);
    assert ctx.message == front;
    Feed(r, ctx, bytes);
    digest := Finish(ctx);
  }

  method Finish(ctx: Sha256Stream.Context) returns (digest: seq<Sha256Spec.Byte>)
    requires ctx.Valid()
    modifies ctx, ctx.data, ctx.state
    ensures digest == Sha256Spec.Digest(old(ctx.message))
  {
    hide Sha256Spec.Digest, Sha256Stream.Context.Valid;
    var hash := new Sha256Spec.Byte[32];
    ctx.Final(hash);
    return hash[..];
  }

  // The loop over the retained events.
  method Feed(r: Recorder, ctx: Sha256Stream.Context, bytes: Event -> seq<Sha256Spec.Byte>)
    requires r.buf.Length == SIZE && ctx.Valid()
    requires {r as object, r.buf as object} !! {ctx as object, ctx.data as object, ctx.state as object}
    modifies ctx, ctx.data, ctx.state
    ensures ctx.Valid() && ctx.message == old(ctx.message) + Image(SealOrder(r.buf[..], r.head), bytes)
  {
    hide Sha256Stream.Context.Valid, Image, SealOrder, Count;
    ghost var all := SealOrder(r.buf[..], r.head);
    ghost var before := ctx.message;
    NoImage(all[..0], bytes);
    var i, count := 0, Count(r.head);
    while i < count
      invariant 0 <= i <= count && ctx.Valid()
      invariant ctx.message == before + Image(all[..i], bytes)
    {
      var e := r.EventAt(i);
      assert all[..i + 1] == all[..i] + [e];
      ImageSnoc(all[..i], e, bytes);
      ghost var now := ctx.message;
      ctx.Update(bytes(e));
      Associate(before, Image(all[..i], bytes), bytes(e), now, ctx.message);
      i := i + 1;
    }
    assert all[..i] == all;
  }

  function Image(events: seq<Event>, bytes: Event -> seq<Sha256Spec.Byte>): seq<Sha256Spec.Byte> {
    if events == [] then [] else Image(events[..|events| - 1], bytes) + bytes(events[|events| - 1])
  }

  lemma ImageSnoc(events: seq<Event>, e: Event, bytes: Event -> seq<Sha256Spec.Byte>)
    ensures Image(events + [e], bytes) == Image(events, bytes) + bytes(e)
  {
    assert (events + [e])[..|events|] == events;
  }

  lemma Associate(a: seq<Sha256Spec.Byte>, b: seq<Sha256Spec.Byte>, c: seq<Sha256Spec.Byte>,
                  ab: seq<Sha256Spec.Byte>, abc: seq<Sha256Spec.Byte>)
    requires ab == a + b && abc == ab + c
    ensures abc == a + (b + c)
  {
  }

  lemma NoImage(events: seq<Event>, bytes: Event -> seq<Sha256Spec.Byte>)
    requires events == []
    ensures Image(events, bytes) == []
  {
  }
}
