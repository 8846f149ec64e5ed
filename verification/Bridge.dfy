/**
 Kernel and bridge together: the kernel sends on the command ring and polls the response
 ring; the bridge takes one command at a time, dispatches it and answers on the response
 ring (bridge/zenedge_bridge.py, kernel/ipc/ipc.c). send_response silently discards the
 answer when its ring is full.
 */
module Bridge {
  import opened Basics
  import opened IpcRing

  const FIELDS: nat := 4  // cmd, flags, payload_id, timestamp; status, orig_cmd, result, timestamp

  datatype System = System(cmd: Ring, rsp: Ring, hand: Option<Entry>, dropped: nat)

  datatype Event =
    | KernelSend(step: Step)    // ipc_send_flags
    | KernelPoll(step: Step)    // ipc_poll_response
    | BridgePoll(step: Step)    // poll_command
    | BridgeAnswer(status: nat, result: nat, time: nat)  // dispatch, then the check of send_response
    | BridgeWrite(step: Step)   // the rest of send_response

  predicate Produces(s: Step) { s.CheckSpace? || s.WriteField? || s.PublishHead? }

  predicate Consumes(s: Step) { s.CheckData? || s.ReadField? || s.PublishTail? }

  predicate WellFormedSystem(s: System) {
    && WellFormed(s.cmd) && WellFormed(s.rsp) && s.cmd.width == s.rsp.width == FIELDS
    && (s.hand.Some? ==> |s.hand.value| == FIELDS)
    && (s.cmd.consumer.Reading? ==> s.hand.None?)
  }

  /** The answer names the command it answers; status and result are the handler's business. */
  function Response(status: nat, command: Entry, result: nat, time: nat): Entry
    requires |command| == FIELDS
  {
    [status, command[0], result, time]
  }

  function OnCmd(s: System, step: Step): (o: Option<System>)
    requires WellFormedSystem(s)
  {
    match Apply(s.cmd, step)
    case None => None
    case Some(r) => Some(s.(cmd := r))
  }

  function OnRsp(s: System, step: Step): (o: Option<System>)
    requires WellFormedSystem(s)
  {
    match Apply(s.rsp, step)
    case None => None
    case Some(r) => Some(s.(rsp := r))
  }

  function Happen(s: System, e: Event): (o: Option<System>)
    requires WellFormedSystem(s)
    ensures o.Some? ==> WellFormedSystem(o.value) && |o.value.rsp.data| == |s.rsp.data|
  {
    match e
    case KernelSend(step) => if Produces(step) then OnCmd(s, step) else None
    case KernelPoll(step) => if Consumes(step) then OnRsp(s, step) else None
    case BridgePoll(step) =>
      if !Consumes(step) || s.hand.Some? then None
      else if step.PublishTail? then
        (match OnCmd(s, step)
         case None => None
         case Some(t) => Some(t.(hand := Some(s.cmd.consumer.got))))
      else OnCmd(s, step)
    case BridgeAnswer(status, result, time) =>
      if s.hand.None? || s.rsp.producer.Writing? then None
      else
        (match OnRsp(s, CheckSpace(Response(status, s.hand.value, result, time)))
         case None => None
         case Some(t) =>
           // "Response ring is full": the command is forgotten
           if t.rsp.producer.Idle? then Some(t.(hand := None, dropped := s.dropped + 1)) else Some(t))
    case BridgeWrite(step) =>
      if step.WriteField? then OnRsp(s, step)
      else if step.PublishHead? then
        (match OnRsp(s, step)
         case None => None
         case Some(t) => Some(t.(hand := None)))
      else None
  }

  function Play(s: System, events: seq<Event>): (o: Option<System>)
    requires WellFormedSystem(s)
    ensures o.Some? ==> WellFormedSystem(o.value)
  {
    if events == [] then Some(s)
    else
      match Play(s, events[..|events| - 1])
      case None => None
      case Some(t) => Happen(t, events[|events| - 1])
  }

  predicate Start(s: System) {
    WellFormedSystem(s) && Initial(s.cmd) && Initial(s.rsp) && s.hand.None? && s.dropped == 0
  }

  function InHand(s: System): nat { if s.hand.Some? then 1 else 0 }

  /** Commands the kernel has sent, or is sending, without having read an answer. */
  function Outstanding(s: System): int {
    |s.cmd.published| + (if s.cmd.producer.Writing? then 1 else 0) - |s.rsp.taken|
  }

  /** The kernel keeps at most size - 1 commands outstanding, throughout. */
  ghost predicate Disciplined(s: System, events: seq<Event>)
    requires WellFormedSystem(s)
  {
    forall n :: 0 <= n <= |events| && Play(s, events[..n]).Some? ==>
      Outstanding(Play(s, events[..n]).value) <= |s.rsp.data| - 1
  }

  // ----- what every run keeps -----

  ghost predicate HandKept(s: System) {
    && (s.hand.Some? ==> s.cmd.consumer.Waiting? && s.cmd.taken != [] && s.hand.value == s.cmd.taken[|s.cmd.taken| - 1])
    && (s.rsp.producer.Writing? ==>
          s.hand.Some? && |s.rsp.producer.entry| == FIELDS == |s.hand.value| && s.rsp.producer.entry[1] == s.hand.value[0])
  }

  /** While nothing has been dropped, answers are in the order of the commands they name. */
  ghost predicate Matched(s: System) {
    s.dropped == 0 ==>
      && |s.rsp.published| <= |s.cmd.taken|
      && forall i :: 0 <= i < |s.rsp.published| ==>
           |s.rsp.published[i]| == FIELDS == |s.cmd.taken[i]| && s.rsp.published[i][1] == s.cmd.taken[i][0]
  }

  ghost predicate SysInv(s: System) {
    && WellFormedSystem(s) && Inv(s.cmd) && Inv(s.rsp)
    && |s.cmd.taken| == |s.rsp.published| + s.dropped + InHand(s)
    && HandKept(s) && Matched(s)
  }

  lemma TakenWhole(r: Ring, i: nat)
    requires Inv(r) && i < |r.taken|
    ensures r.taken[i] == r.published[i] && |r.taken[i]| == r.width
  {
  }

  /** Steps of the kernel do not concern the bridge's records. */
  lemma KernelKeeps(s: System, e: Event)
    requires SysInv(s) && Happen(s, e).Some? && (e.KernelSend? || e.KernelPoll?)
    ensures SysInv(Happen(s, e).value)
  {
    hide Inv;
    if e.KernelSend? {
      StepKeeps(s.cmd, e.step);
    } else {
      StepKeeps(s.rsp, e.step);
    }
  }

  lemma BridgePollKeeps(s: System, e: Event)
    requires SysInv(s) && Happen(s, e).Some? && e.BridgePoll?
    ensures SysInv(Happen(s, e).value)
  {
    StepKeeps(s.cmd, e.step);
    var t := Happen(s, e).value;
    hide Inv;
    if e.step.PublishTail? {
      assert t.cmd.taken == s.cmd.taken + [s.cmd.consumer.got];
    }
  }

  lemma BridgeAnswerKeeps(s: System, e: Event)
    requires SysInv(s) && Happen(s, e).Some? && e.BridgeAnswer?
    ensures SysInv(Happen(s, e).value)
  {
    hide Inv;
    StepKeeps(s.rsp, CheckSpace(Response(e.status, s.hand.value, e.result, e.time)));
  }

  lemma BridgeWriteKeeps(s: System, e: Event)
    requires SysInv(s) && Happen(s, e).Some? && e.BridgeWrite?
    ensures SysInv(Happen(s, e).value)
  {
    StepKeeps(s.rsp, e.step);
    var n := |s.cmd.taken| - 1;
    if e.step.PublishHead? {
      TakenWhole(s.cmd, n);
    }
    hide Inv;
  }

  lemma EventKeeps(s: System, e: Event)
    requires SysInv(s) && Happen(s, e).Some?
    ensures SysInv(Happen(s, e).value)
  {
    hide SysInv, Happen;
    match e
    case KernelSend(_) => KernelKeeps(s, e);
    case KernelPoll(_) => KernelKeeps(s, e);
    case BridgePoll(_) => BridgePollKeeps(s, e);
    case BridgeAnswer(_, _, _) => BridgeAnswerKeeps(s, e);
    case BridgeWrite(_) => BridgeWriteKeeps(s, e);
  }

  lemma {:induction false} RunKeeps(s: System, events: seq<Event>)
    requires Start(s) && Play(s, events).Some?
    ensures SysInv(Play(s, events).value) && |Play(s, events).value.rsp.data| == |s.rsp.data|
  {
    if events != [] {
      RunKeeps(s, events[..|events| - 1]);
      hide SysInv, Happen;
      EventKeeps(Play(s, events[..|events| - 1]).value, events[|events| - 1]);
    }
  }

  /** Conservation, with or without discipline: every command sent is in the command ring, in
      the bridge's hand, dropped, in the response ring or answered. */
  lemma CommandsConserved(s: System, events: seq<Event>)
    requires Start(s) && Play(s, events).Some?
    ensures var t := Play(s, events).value;
            |t.cmd.published| == Occupancy(t.cmd) + InHand(t) + t.dropped + Occupancy(t.rsp) + |t.rsp.taken|
  {
    RunKeeps(s, events);
  }

  /** An answer is dropped exactly when size - 1 answers are unread. */
  lemma DropIffFull(s: System, e: Event)
    requires SysInv(s) && e.BridgeAnswer? && Happen(s, e).Some?
    ensures Happen(s, e).value.dropped > s.dropped <==> Occupancy(s.rsp) == |s.rsp.data| - 1
  {
    FullIffSizeMinusOne(s.rsp, Response(e.status, s.hand.value, e.result, e.time));
  }

  lemma NoDropStep(s: System, e: Event)
    requires SysInv(s) && Happen(s, e).Some? && Outstanding(s) <= |s.rsp.data| - 1
    ensures Happen(s, e).value.dropped == s.dropped
  {
    if e.BridgeAnswer? {
      DropIffFull(s, e);
    }
  }

  lemma {:induction false} DisciplinedNeverDrops(s: System, events: seq<Event>)
    requires Start(s) && Play(s, events).Some? && Disciplined(s, events)
    ensures Play(s, events).value.dropped == 0
  {
    if events != [] {
      var n := |events| - 1;
      var pre := events[..n];
      forall k | 0 <= k <= n && Play(s, pre[..k]).Some?
        ensures Outstanding(Play(s, pre[..k]).value) <= |s.rsp.data| - 1
      {
        assert pre[..k] == events[..k];
      }
      DisciplinedNeverDrops(s, pre);
      RunKeeps(s, pre);
      NoDropStep(Play(s, pre).value, events[n]);
    }
  }

  /** A disciplined kernel loses no answer: the i-th answer read is the answer to the i-th
      command sent. */
  lemma AnswersMatchCommands(s: System, events: seq<Event>)
    requires Start(s) && Play(s, events).Some? && Disciplined(s, events)
    ensures var t := Play(s, events).value;
            && |t.cmd.published| == Occupancy(t.cmd) + InHand(t) + Occupancy(t.rsp) + |t.rsp.taken|
            && |t.rsp.taken| <= |t.cmd.published|
            && forall i :: 0 <= i < |t.rsp.taken| ==>
                 && |t.rsp.taken[i]| == FIELDS == |t.cmd.published[i]|
                 && t.rsp.taken[i][1] == t.cmd.published[i][0]
  {
    DisciplinedNeverDrops(s, events);
    CommandsConserved(s, events);
    RunKeeps(s, events);
    var t := Play(s, events).value;
    forall i | 0 <= i < |t.rsp.taken|
      ensures |t.rsp.taken[i]| == FIELDS == |t.cmd.published[i]| && t.rsp.taken[i][1] == t.cmd.published[i][0]
    {
      TakenWhole(t.rsp, i);
      TakenWhole(t.cmd, i);
    }
  }

  // ----- without discipline -----

  lemma {:induction false} PlayMore(s: System, a: seq<Event>, b: seq<Event>)
    requires WellFormedSystem(s) && Play(s, a).Some?
    ensures Play(s, a + b) == Play(Play(s, a).value, b)
    decreases |b|
  {
    hide Happen;
    if b == [] {
      assert a + b == a;
    } else {
      assert (a + b)[..|a + b| - 1] == a + b[..|b| - 1];
      PlayMore(s, a, b[..|b| - 1]);
    }
  }

  lemma Then(s: System, e: Event, t: System, more: seq<Event>, u: System)
    requires WellFormedSystem(s) && Happen(s, e) == Some(t) && Play(t, more) == Some(u)
    ensures Play(s, [e] + more) == Some(u)
  {
    hide Happen;
    assert [e][..0] == [];
    PlayMore(s, [e], more);
  }

  /** Between two exchanges: nobody is in the middle of anything. */
  ghost predicate Quiet(s: System) {
    && SysInv(s) && s.cmd.producer.Idle? && s.cmd.consumer.Waiting? && s.rsp.producer.Idle? && s.hand.None?
  }

  /** The kernel finishes sending. */
  lemma {:induction false} FinishSend(s: System) returns (events: seq<Event>, t: System)
    requires SysInv(s) && s.cmd.producer.Writing?
    ensures Play(s, events) == Some(t) && SysInv(t)
    ensures t == s.(cmd := t.cmd) && t.cmd.producer.Idle? && t.cmd.consumer == s.cmd.consumer && t.cmd.taken == s.cmd.taken
    ensures t.cmd.published == s.cmd.published + [s.cmd.producer.entry]
    decreases FIELDS - s.cmd.producer.done
  {
    var e := KernelSend(if s.cmd.producer.done < FIELDS then WriteField else PublishHead);
    var x := Happen(s, e).value;
    EventKeeps(s, e);
    hide SysInv, Play;
    if s.cmd.producer.done < FIELDS {
      var more;
      more, t := FinishSend(x);
      events := [e] + more;
      Then(s, e, x, more, t);
    } else {
      PlayNothing(x);
      events, t := [e] + [], x;
      Then(s, e, x, [], x);
    }
  }

  lemma PlayNothing(s: System)
    requires WellFormedSystem(s)
    ensures Play(s, []) == Some(s)
  {
  }

  /** The bridge finishes taking a command. */
  lemma {:induction false} FinishTake(s: System) returns (events: seq<Event>, t: System)
    requires SysInv(s) && s.cmd.consumer.Reading?
    ensures Play(s, events) == Some(t) && SysInv(t)
    ensures t == s.(cmd := t.cmd, hand := t.hand) && t.hand.Some?
    ensures t.cmd.producer == s.cmd.producer && t.cmd.consumer.Waiting?
    ensures t.cmd.published == s.cmd.published && |t.cmd.taken| == |s.cmd.taken| + 1
    decreases FIELDS - |s.cmd.consumer.got|
  {
    var e := BridgePoll(if |s.cmd.consumer.got| < FIELDS then ReadField else PublishTail);
    var x := Happen(s, e).value;
    EventKeeps(s, e);
    hide SysInv, Play;
    if |s.cmd.consumer.got| < FIELDS {
      var more;
      more, t := FinishTake(x);
      events := [e] + more;
      Then(s, e, x, more, t);
    } else {
      PlayNothing(x);
      events, t := [e] + [], x;
      Then(s, e, x, [], x);
    }
  }

  /** The bridge finishes an answer that found room. */
  lemma {:induction false} FinishAnswer(s: System) returns (events: seq<Event>, t: System)
    requires SysInv(s) && s.rsp.producer.Writing?
    ensures Play(s, events) == Some(t) && SysInv(t)
    ensures t == s.(rsp := t.rsp, hand := None) && t.rsp.producer.Idle? && t.rsp.taken == s.rsp.taken
    ensures t.rsp.consumer == s.rsp.consumer && t.rsp.published == s.rsp.published + [s.rsp.producer.entry]
    ensures Occupancy(t.rsp) == Occupancy(s.rsp) + 1 && |t.rsp.data| == |s.rsp.data|
    decreases FIELDS - s.rsp.producer.done
  {
    var e := BridgeWrite(if s.rsp.producer.done < FIELDS then WriteField else PublishHead);
    var x := Happen(s, e).value;
    EventKeeps(s, e);
    hide SysInv, Play;
    if s.rsp.producer.done < FIELDS {
      var more;
      more, t := FinishAnswer(x);
      events := [e] + more;
      Then(s, e, x, more, t);
    } else {
      PlayNothing(x);
      events, t := [e] + [], x;
      Then(s, e, x, [], x);
    }
  }

  lemma RingsKept(s: System)
    requires SysInv(s)
    ensures Inv(s.cmd) && Inv(s.rsp) && WellFormedSystem(s)
  {
  }

  lemma HandIsLast(s: System)
    requires SysInv(s) && s.hand.Some?
    ensures s.cmd.taken != [] && s.hand.value == s.cmd.taken[|s.cmd.taken| - 1]
  {
  }

  lemma RingCounts(r: Ring)
    requires Inv(r)
    ensures Occupancy(r) == |r.published| - |r.taken| && r.taken == r.published[..|r.taken|]
  {
  }

  /** Progress of the kernel: with room in the ring, any command can be sent. */
  lemma SendOne(s: System, command: Entry) returns (events: seq<Event>, t: System)
    requires SysInv(s) && s.cmd.producer.Idle? && Occupancy(s.cmd) < |s.cmd.data| - 1 && |command| == FIELDS
    ensures Play(s, events) == Some(t) && SysInv(t) && t == s.(cmd := t.cmd)
    ensures t.cmd.producer.Idle? && t.cmd.consumer == s.cmd.consumer && t.cmd.taken == s.cmd.taken
    ensures t.cmd.published == s.cmd.published + [command]
  {
    var e := KernelSend(CheckSpace(command));
    FullIffSizeMinusOne(s.cmd, command);
    var x := Happen(s, e).value;
    EventKeeps(s, e);
    hide SysInv, Play;
    var more;
    more, t := FinishSend(x);
    events := [e] + more;
    Then(s, e, x, more, t);
  }

  lemma BeginTake(s: System)
    requires SysInv(s) && s.hand.None? && s.cmd.consumer.Waiting? && Occupancy(s.cmd) > 0
    ensures Happen(s, BridgePoll(CheckData)) == Some(s.(cmd := s.cmd.(consumer := Reading([]))))
  {
    hide Inv, HandKept, Matched;
  }

  lemma BeginPoll(s: System)
    requires SysInv(s) && s.rsp.consumer.Waiting? && Occupancy(s.rsp) > 0
    ensures Happen(s, KernelPoll(CheckData)) == Some(s.(rsp := s.rsp.(consumer := Reading([]))))
  {
    hide Inv, HandKept, Matched;
  }

  /** Progress of the bridge: a free bridge can take the next command there is. */
  lemma TakeOne(s: System) returns (events: seq<Event>, t: System)
    requires SysInv(s) && s.hand.None? && s.cmd.consumer.Waiting? && |s.cmd.taken| < |s.cmd.published|
    ensures Play(s, events) == Some(t) && SysInv(t) && t == s.(cmd := t.cmd, hand := t.hand)
    ensures t.cmd.producer == s.cmd.producer && t.cmd.consumer.Waiting? && t.cmd.published == s.cmd.published
    ensures var next := s.cmd.published[|s.cmd.taken|]; t.cmd.taken == s.cmd.taken + [next] && t.hand == Some(next)
  {
    RingsKept(s);
    RingCounts(s.cmd);
    var e := BridgePoll(CheckData);
    BeginTake(s);
    hide SysInv, Play, Happen, Inv;
    var x := Happen(s, e).value;
    EventKeeps(s, e);
    var more;
    more, t := FinishTake(x);
    events := [e] + more;
    Then(s, e, x, more, t);
    RingsKept(t);
    RingCounts(t.cmd);
    HandIsLast(t);
    OneMore(s.cmd.published, |s.cmd.taken|);
  }

  lemma OneMore(all: seq<Entry>, n: nat)
    requires n < |all|
    ensures all[..n + 1] == all[..n] + [all[n]]
  {
  }

  lemma AnswerOne(s: System, status: nat, result: nat, time: nat) returns (events: seq<Event>, t: System)
    requires SysInv(s) && s.hand.Some? && s.rsp.producer.Idle?
    ensures Play(s, events) == Some(t) && SysInv(t) && t == s.(rsp := t.rsp, hand := None, dropped := t.dropped)
    ensures t.rsp.producer.Idle? && t.rsp.taken == s.rsp.taken && |t.rsp.data| == |s.rsp.data|
    ensures t.rsp.consumer == s.rsp.consumer
    ensures if Occupancy(s.rsp) == |s.rsp.data| - 1 then t.rsp == s.rsp && t.dropped == s.dropped + 1
            else Occupancy(t.rsp) == Occupancy(s.rsp) + 1 && t.dropped == s.dropped
                 && t.rsp.published == s.rsp.published + [[status, s.hand.value[0], result, time]]
  {
    var e := BridgeAnswer(status, result, time);
    var x := Happen(s, e).value;
    EventKeeps(s, e);
    DropIffFull(s, e);
    hide SysInv, Play;
    if x.rsp.producer.Idle? {
      PlayNothing(x);
      events, t := [e] + [], x;
      Then(s, e, x, [], x);
    } else {
      var more;
      more, t := FinishAnswer(x);
      events := [e] + more;
      Then(s, e, x, more, t);
    }
  }

  /** The kernel finishes reading an answer. */
  lemma {:induction false} FinishPoll(s: System) returns (events: seq<Event>, t: System)
    requires SysInv(s) && s.rsp.consumer.Reading?
    ensures Play(s, events) == Some(t) && SysInv(t) && t == s.(rsp := t.rsp)
    ensures t.rsp.producer == s.rsp.producer && t.rsp.consumer.Waiting?
    ensures t.rsp.published == s.rsp.published && |t.rsp.taken| == |s.rsp.taken| + 1
    decreases FIELDS - |s.rsp.consumer.got|
  {
    var e := KernelPoll(if |s.rsp.consumer.got| < FIELDS then ReadField else PublishTail);
    var x := Happen(s, e).value;
    EventKeeps(s, e);
    hide SysInv, Play;
    if |s.rsp.consumer.got| < FIELDS {
      var more;
      more, t := FinishPoll(x);
      events := [e] + more;
      Then(s, e, x, more, t);
    } else {
      PlayNothing(x);
      events, t := [e] + [], x;
      Then(s, e, x, [], x);
    }
  }

  /** Progress of the kernel: the next answer there is can be read. */
  lemma PollOne(s: System) returns (events: seq<Event>, t: System)
    requires SysInv(s) && s.rsp.consumer.Waiting? && |s.rsp.taken| < |s.rsp.published|
    ensures Play(s, events) == Some(t) && SysInv(t) && t == s.(rsp := t.rsp)
    ensures t.rsp.producer == s.rsp.producer && t.rsp.consumer.Waiting? && t.rsp.published == s.rsp.published
    ensures t.rsp.taken == s.rsp.taken + [s.rsp.published[|s.rsp.taken|]]
  {
    RingsKept(s);
    RingCounts(s.rsp);
    var e := KernelPoll(CheckData);
    BeginPoll(s);
    hide SysInv, Play, Happen, Inv;
    var x := Happen(s, e).value;
    EventKeeps(s, e);
    var more;
    more, t := FinishPoll(x);
    events := [e] + more;
    Then(s, e, x, more, t);
    RingsKept(t);
    RingCounts(t.rsp);
    OneMore(s.rsp.published, |s.rsp.taken|);
  }

  /** Between exchanges, any command can be sent, taken, answered and the answer read, and what
      the kernel reads is what the handler said, with the command's number. */
  lemma Exchange(s: System, command: Entry, status: nat, result: nat, time: nat) returns (events: seq<Event>, t: System)
    requires Quiet(s) && s.rsp.consumer.Waiting? && |command| == FIELDS
    requires s.cmd.taken == s.cmd.published && s.rsp.taken == s.rsp.published
    ensures Play(s, events) == Some(t) && Quiet(t) && t.rsp.consumer.Waiting? && t.dropped == s.dropped
    ensures t.cmd.published == t.cmd.taken == s.cmd.taken + [command]
    ensures t.rsp.published == t.rsp.taken == s.rsp.taken + [[status, command[0], result, time]]
  {
    RingsKept(s);
    RingCounts(s.cmd);
    RingCounts(s.rsp);
    hide SysInv, Play, Happen;
    var a, x := SendOne(s, command);
    var b, y := TakeOne(x);
    var c, z := AnswerOne(y, status, result, time);
    var d;
    d, t := PollOne(z);
    PlayMore(s, a, b);
    PlayMore(s, a + b, c);
    PlayMore(s, a + b + c, d);
    events := a + b + c + d;
  }

  // ----- what the answers carry -----

  /** What the handlers said, in order. */
  function Answers(events: seq<Event>): (r: seq<Event>)
    ensures forall i :: 0 <= i < |r| ==> r[i].BridgeAnswer?
  {
    if events == [] then []
    else
      var last := events[|events| - 1];
      Answers(events[..|events| - 1]) + (if last.BridgeAnswer? then [last] else [])
  }

  /** The answers out and the one under way. */
  function Given(r: Ring): seq<Entry> { r.published + if r.producer.Writing? then [r.producer.entry] else [] }

  /** The i-th answer carries what the i-th handler said and the number of the i-th command. */
  ghost predicate Carried(s: System, said: seq<Event>)
    requires forall i :: 0 <= i < |said| ==> said[i].BridgeAnswer?
  {
    && |said| == |Given(s.rsp)| <= |s.cmd.taken|
    && forall i :: 0 <= i < |said| ==> CarriedAt(Given(s.rsp)[i], s.cmd.taken[i], said[i])
  }

  predicate CarriedAt(answer: Entry, command: Entry, said: Event)
    requires said.BridgeAnswer?
  {
    && |answer| == 4 && |command| == 4
    && answer[0] == said.status && answer[1] == command[0] && answer[2] == said.result && answer[3] == said.time
  }

  lemma CarriedStep(s: System, e: Event, t: System, said: seq<Event>)
    requires SysInv(s) && Happen(s, e) == Some(t) && t.dropped == s.dropped
    requires (forall i :: 0 <= i < |said| ==> said[i].BridgeAnswer?) && Carried(s, said) && s.dropped == 0
    ensures Carried(t, if e.BridgeAnswer? then said + [e] else said)
  {
    if e.BridgeAnswer? {
      CarriedAnswer(s, e, t, said);
    } else {
      GivenSame(s, e, t);
      hide SysInv, Happen, Given;
      TakenStays(s.cmd.taken, t.cmd.taken);
    }
  }

  lemma TakenStays(a: seq<Entry>, b: seq<Entry>)
    requires a <= b
    ensures |a| <= |b| && forall i :: 0 <= i < |a| ==> b[i] == a[i]
  {
  }

  lemma CarriedAnswer(s: System, e: Event, t: System, said: seq<Event>)
    requires SysInv(s) && e.BridgeAnswer? && Happen(s, e) == Some(t) && t.dropped == s.dropped == 0
    requires (forall i :: 0 <= i < |said| ==> said[i].BridgeAnswer?) && Carried(s, said)
    ensures Carried(t, said + [e])
  {
    hide Inv;
    TakenWhole(s.cmd, |s.cmd.taken| - 1) by { HandIsLast(s); }
    assert Given(t.rsp) == Given(s.rsp) + [Response(e.status, s.hand.value, e.result, e.time)];
    assert |said| == |s.cmd.taken| - 1;
  }

  /** Nothing but an answer of the bridge is one. */
  lemma GivenSame(s: System, e: Event, t: System)
    requires SysInv(s) && !e.BridgeAnswer? && Happen(s, e) == Some(t)
    ensures Given(t.rsp) == Given(s.rsp) && s.cmd.taken <= t.cmd.taken
  {
    hide Inv, HandKept, Matched;
  }

  lemma {:induction false} RunCarries(s: System, events: seq<Event>)
    requires Start(s) && Play(s, events).Some? && Play(s, events).value.dropped == 0
    ensures Carried(Play(s, events).value, Answers(events))
  {
    if events != [] {
      var pre, e := events[..|events| - 1], events[|events| - 1];
      RunKeeps(s, pre);
      DroppedGrows(Play(s, pre).value, e);
      RunCarries(s, pre);
      hide SysInv, Happen, Carried;
      CarriedStep(Play(s, pre).value, e, Play(s, events).value, Answers(pre));
      assert Answers(pre) + [] == Answers(pre);
    }
  }

  lemma DroppedGrows(s: System, e: Event)
    requires WellFormedSystem(s) && Happen(s, e).Some?
    ensures Happen(s, e).value.dropped >= s.dropped
  {
  }

  /** Every answer a disciplined kernel reads carries status, result and time as the handler
      gave them for that command. */
  lemma AnswersCarryResults(s: System, events: seq<Event>)
    requires Start(s) && Play(s, events).Some? && Disciplined(s, events)
    ensures var t, said := Play(s, events).value, Answers(events);
            && |t.rsp.taken| <= |said| && |t.rsp.taken| <= |t.cmd.published|
            && forall i :: 0 <= i < |t.rsp.taken| ==> CarriedAt(t.rsp.taken[i], t.cmd.published[i], said[i])
  {
    hide CarriedAt, Play, Happen, Disciplined;
    DisciplinedNeverDrops(s, events);
    RunCarries(s, events);
    RunKeeps(s, events);
    CommandsConserved(s, events);
    AnswersMatchCommands(s, events);
    var t := Play(s, events).value;
    forall i | 0 <= i < |t.rsp.taken| ensures CarriedAt(t.rsp.taken[i], t.cmd.published[i], Answers(events)[i]) {
      TakenWhole(t.rsp, i);
      TakenWhole(t.cmd, i);
      assert Given(t.rsp)[i] == t.rsp.taken[i];
    }
  }

  /** Commands sent, taken and answered one by one, with no answer ever read: the answers
      beyond size - 1 are lost. */
  lemma {:induction false} UnreadAnswersAreLost(s: System, n: nat) returns (events: seq<Event>, t: System)
    requires Start(s)
    ensures Play(s, events) == Some(t) && Quiet(t) && Occupancy(t.cmd) == 0 && |t.rsp.data| == |s.rsp.data|
    ensures |t.cmd.published| == n && t.rsp.taken == []
    ensures var room := |s.rsp.data| - 1;
            if n <= room then t.dropped == 0 && Occupancy(t.rsp) == n else t.dropped == n - room && Occupancy(t.rsp) == room
    decreases n
  {
    if n == 0 {
      RunKeeps(s, []);
      events, t := [], s;
    } else {
      var before, u := UnreadAnswersAreLost(s, n - 1);
      RingCounts(u.cmd);
      hide SysInv, Play, Happen;
      var a, x := SendOne(u, [0, 0, 0, 0]);
      var b, y := TakeOne(x);
      var c;
      c, t := AnswerOne(y, 0, 0, 0);
      PlayMore(s, before, a);
      PlayMore(s, before + a, b);
      PlayMore(s, before + a + b, c);
      events := before + a + b + c;
      RingsKept(t);
      RingCounts(t.cmd);
    }
  }

  /** The bound of the discipline is tight: with as many commands outstanding as the response
      ring has entries, an answer can be lost. */
  lemma OneTooManyLoses(s: System) returns (events: seq<Event>)
    requires Start(s)
    ensures Play(s, events).Some?
    ensures var t := Play(s, events).value; t.dropped == 1 && Outstanding(t) == |s.rsp.data|
  {
    hide Play, SysInv;
    var t;
    events, t := UnreadAnswersAreLost(s, |s.rsp.data|);
  }
}
