/**
 One shared-memory ring with one producer and one consumer, step by step: the command and
 response rings, and the observation and action rings (kernel/ipc/ipc.c,
 bridge/zenedge_bridge.py, bridge/stream.py). An entry is written and read one field at a
 time, and the two parties interleave in every possible way under sequential consistency.
 */
module IpcRing {
  import opened Basics

  type Entry = seq<nat>

  /** Where the producer is: nothing under way, or `done` fields of `entry` written. */
  datatype Producer = Idle | Writing(entry: Entry, done: nat)

  /** Where the consumer is: nothing under way, or the fields read so far. */
  datatype Consumer = Waiting | Reading(got: Entry)

  /** Shared memory (head, tail, data), both parties, and what each has done so far:
      `published` are the entries whose head update is out, `taken` those whose tail update is. */
  datatype Ring = Ring(
    width: nat,
    head: nat,
    tail: nat,
    data: seq<Entry>,
    producer: Producer,
    consumer: Consumer,
    published: seq<Entry>,
    taken: seq<Entry>)

  datatype Step =
    | CheckSpace(entry: Entry)  // read tail; start writing unless full
    | WriteField
    | PublishHead
    | CheckData                 // read head; start reading unless empty
    | ReadField
    | PublishTail

  function Size(r: Ring): nat { |r.data| }

  function NextIndex(i: nat, size: nat): (n: nat)
    requires size > 0
    ensures n < size
  {
    (i + 1) % size
  }

  function Next(r: Ring, i: nat): nat
    requires |r.data| > 0
  {
    NextIndex(i, |r.data|)
  }

  /** The ring's fields are in range: what initialisation and both parties keep. */
  predicate WellFormed(r: Ring) {
    && |r.data| >= 2 && r.head < |r.data| && r.tail < |r.data|
    && (forall i :: 0 <= i < |r.data| ==> |r.data[i]| == r.width)
    && (r.producer.Writing? ==> |r.producer.entry| == r.width && r.producer.done <= r.width)
    && (r.consumer.Reading? ==> |r.consumer.got| <= r.width)
  }

  /** One step of either party; None if that party is elsewhere. A full or an empty ring is no
      obstacle to checking: the call then returns and the party stays idle. */
  function Apply(r: Ring, step: Step): (o: Option<Ring>)
    requires WellFormed(r)
    ensures o.Some? ==> WellFormed(o.value) && |o.value.data| == |r.data| && o.value.width == r.width
  {
    match step
    case CheckSpace(e) =>
      if !r.producer.Idle? || |e| != r.width then None
      else if Next(r, r.head) == r.tail then Some(r)
      else Some(r.(producer := Writing(e, 0)))
    case WriteField =>
      if !r.producer.Writing? || r.producer.done == r.width then None
      else
        var k := r.producer.done;
        Some(r.(data := r.data[r.head := r.data[r.head][k := r.producer.entry[k]]],
                producer := r.producer.(done := k + 1)))
    case PublishHead =>
      if !r.producer.Writing? || r.producer.done != r.width then None
      else Some(r.(head := Next(r, r.head), producer := Idle, published := r.published + [r.producer.entry]))
    case CheckData =>
      if !r.consumer.Waiting? then None
      else if r.head == r.tail then Some(r)
      else Some(r.(consumer := Reading([])))
    case ReadField =>
      if !r.consumer.Reading? || |r.consumer.got| == r.width then None
      else Some(r.(consumer := Reading(r.consumer.got + [r.data[r.tail][|r.consumer.got|]])))
    case PublishTail =>
      if !r.consumer.Reading? || |r.consumer.got| != r.width then None
      else Some(r.(tail := Next(r, r.tail), consumer := Waiting, taken := r.taken + [r.consumer.got]))
  }

  function Run(r: Ring, steps: seq<Step>): (o: Option<Ring>)
    requires WellFormed(r)
    ensures o.Some? ==> WellFormed(o.value)
  {
    if steps == [] then Some(r)
    else
      match Run(r, steps[..|steps| - 1])
      case None => None
      case Some(q) => Apply(q, steps[|steps| - 1])
  }

  /** The ring as ipc_init and ipc_stream_init leave it. */
  predicate Initial(r: Ring) {
    && WellFormed(r) && r.head == r.tail && r.producer.Idle? && r.consumer.Waiting?
    && r.published == [] && r.taken == []
  }

  // ----- the invariant -----

  /** Entries between tail and head. */
  function Occupancy(r: Ring): nat
    requires WellFormed(r)
  {
    if r.head >= r.tail then r.head - r.tail else r.head + |r.data| - r.tail
  }

  /** The slot of the i-th entry from the tail. */
  function Slot(r: Ring, i: nat): nat
    requires WellFormed(r) && i < |r.data|
    ensures Slot(r, i) < |r.data|
  {
    if r.tail + i < |r.data| then r.tail + i else r.tail + i - |r.data|
  }

  function InRing(r: Ring): seq<Entry>
    requires WellFormed(r)
  {
    seq(Occupancy(r), i requires 0 <= i < Occupancy(r) => r.data[Slot(r, i)])
  }

  /** FIFO, no loss, no duplication, no torn entry. */
  ghost predicate Inv(r: Ring) {
    && WellFormed(r)
    && r.published == r.taken + InRing(r)
    && (forall i :: 0 <= i < |r.published| ==> |r.published[i]| == r.width)
    && Occupancy(r) <= |r.data| - 1
    && (r.producer.Writing? ==>
          && Occupancy(r) <= |r.data| - 2
          && r.data[r.head][..r.producer.done] == r.producer.entry[..r.producer.done])
    && (r.consumer.Reading? ==>
          && Occupancy(r) >= 1
          && r.consumer.got == r.data[r.tail][..|r.consumer.got|])
  }

  lemma NextWraps(r: Ring, i: nat)
    requires i < |r.data|
    ensures Next(r, i) == if i + 1 < |r.data| then i + 1 else 0
  {
  }

  lemma WriteKeeps(r: Ring)
    requires Inv(r) && Apply(r, WriteField).Some?
    ensures Inv(Apply(r, WriteField).value)
    ensures InRing(Apply(r, WriteField).value) == InRing(r)
  {
    var q := Apply(r, WriteField).value;
    assert InRing(q) == InRing(r);
  }

  lemma PublishHeadKeeps(r: Ring)
    requires Inv(r) && Apply(r, PublishHead).Some?
    ensures Inv(Apply(r, PublishHead).value)
    ensures InRing(Apply(r, PublishHead).value) == InRing(r) + [r.producer.entry]
  {
    var q := Apply(r, PublishHead).value;
    NextWraps(r, r.head);
    assert r.data[r.head] == r.producer.entry;
    assert InRing(q) == InRing(r) + [r.data[r.head]];
    assert q.published == q.taken + InRing(q);
  }

  lemma PublishTailKeeps(r: Ring)
    requires Inv(r) && Apply(r, PublishTail).Some?
    ensures Inv(Apply(r, PublishTail).value)
    ensures InRing(r) == [r.consumer.got] + InRing(Apply(r, PublishTail).value)
  {
    var q := Apply(r, PublishTail).value;
    NextWraps(r, r.tail);
    assert r.consumer.got == r.data[r.tail] == InRing(r)[0];
    assert InRing(r) == [r.data[r.tail]] + InRing(q);
    assert q.published == q.taken + InRing(q);
  }

  lemma ReadKeeps(r: Ring)
    requires Inv(r) && Apply(r, ReadField).Some?
    ensures Inv(Apply(r, ReadField).value)
    ensures InRing(Apply(r, ReadField).value) == InRing(r)
  {
    var k := |r.consumer.got|;
    assert r.data[r.tail][..k] + [r.data[r.tail][k]] == r.data[r.tail][..k + 1];
    assert InRing(Apply(r, ReadField).value) == InRing(r);
  }

  lemma CheckKeeps(r: Ring, step: Step)
    requires Inv(r) && (step.CheckSpace? || step.CheckData?) && Apply(r, step).Some?
    ensures Inv(Apply(r, step).value)
    ensures InRing(Apply(r, step).value) == InRing(r)
  {
    NextWraps(r, r.head);
    assert InRing(Apply(r, step).value) == InRing(r);
  }

  lemma StepKeeps(r: Ring, step: Step)
    requires Inv(r) && Apply(r, step).Some?
    ensures Inv(Apply(r, step).value)
  {
    hide Inv, Apply;
    match step
    case CheckSpace(_) => CheckKeeps(r, step);
    case WriteField => WriteKeeps(r);
    case PublishHead => PublishHeadKeeps(r);
    case CheckData => CheckKeeps(r, step);
    case ReadField => ReadKeeps(r);
    case PublishTail => PublishTailKeeps(r);
  }

  /** In every interleaving, what was taken followed by what is in the ring is what was
      published, in order and whole. */
  lemma {:induction false} EveryRunIsFifo(r: Ring, steps: seq<Step>)
    requires Initial(r) && Run(r, steps).Some?
    ensures Inv(Run(r, steps).value)
    ensures var t := Run(r, steps).value;
            t.published == t.taken + InRing(t) && Occupancy(t) <= |t.data| - 1
  {
    if steps != [] {
      EveryRunIsFifo(r, steps[..|steps| - 1]);
      StepKeeps(Run(r, steps[..|steps| - 1]).value, steps[|steps| - 1]);
    }
  }

  /** While an entry is being written, its slot is none the consumer may read. */
  lemma WriterAlone(r: Ring, i: nat)
    requires Inv(r) && r.producer.Writing? && i < Occupancy(r)
    ensures Slot(r, i) != r.head
    ensures r.consumer.Reading? ==> r.tail != r.head
  {
  }

  /** A check refuses exactly when size - 1 entries are unread, and finds nothing exactly when
      none is. */
  lemma FullIffSizeMinusOne(r: Ring, e: Entry)
    requires Inv(r) && |e| == r.width
    ensures r.producer.Idle? ==>
      (Apply(r, CheckSpace(e)) == Some(r) <==> Occupancy(r) == |r.data| - 1)
    ensures r.consumer.Waiting? ==> (Apply(r, CheckData) == Some(r) <==> InRing(r) == [])
  {
    NextWraps(r, r.head);
  }

  // ----- whole calls -----

  /** A push or pop call is these steps of one party, with nothing of its own in between. */
  function PushSteps(e: Entry, fields: nat): seq<Step> {
    [CheckSpace(e)] + seq(fields, _ => WriteField)
  }

  function PopSteps(fields: nat): seq<Step> {
    [CheckData] + seq(fields, _ => ReadField)
  }

  lemma RunSnoc(r: Ring, steps: seq<Step>, step: Step)
    requires WellFormed(r)
    ensures Run(r, steps + [step]) ==
      match Run(r, steps)
      case None => None
      case Some(q) => Apply(q, step)
  {
    assert (steps + [step])[..|steps|] == steps;
  }

  lemma CheckSpaceIs(r: Ring, e: Entry)
    requires WellFormed(r) && r.producer.Idle? && |e| == r.width
    ensures Apply(r, CheckSpace(e)) == Some(if Next(r, r.head) == r.tail then r else r.(producer := Writing(e, 0)))
  {
  }

  lemma PublishHeadIs(r: Ring)
    requires WellFormed(r) && r.producer.Writing? && r.producer.done == r.width
    ensures Apply(r, PublishHead)
         == Some(r.(head := Next(r, r.head), producer := Idle, published := r.published + [r.producer.entry]))
  {
  }

  lemma WriteFieldIs(r: Ring, e: Entry, k: nat, data: seq<Entry>)
    requires WellFormed(r) && r.producer == Writing(e, k) && k < r.width
    requires data == r.data[r.head := r.data[r.head][k := e[k]]]
    ensures Apply(r, WriteField) == Some(r.(data := data, producer := Writing(e, k + 1)))
  {
  }

  /** ipc_stream_action_push / StreamRing.push and ipc_stream_obs_pop / StreamRing.pop on the
      shared words; the two ghost fields record the history. */
  class SharedRing {
    const width: nat
    const data: array<Entry>
    var head: nat
    var tail: nat
    ghost var published: seq<Entry>
    ghost var taken: seq<Entry>

    ghost function State(producer: Producer, consumer: Consumer): Ring
      reads this, data
    {
      Ring(width, head, tail, data[..], producer, consumer, published, taken)
    }

    ghost predicate Valid()
      reads this, data
    {
      Inv(State(Idle, Waiting))
    }

    constructor (size: nat, fields: nat)
      requires size >= 2
      ensures Valid() && fresh(data) && Initial(State(Idle, Waiting))
      ensures data.Length == size && width == fields
    {
      width := fields;
      data := new Entry[size](_ => seq(fields, _ => 0));
      head, tail, published, taken := 0, 0, [], [];
    }

    /** Runs the producer's steps to the end; refuses exactly when the ring is full. */
    method Push(e: Entry) returns (ok: bool)
      requires Valid() && |e| == width
      modifies this`head, this`published, data
      ensures Valid()
      ensures ok == (Occupancy(old(State(Idle, Waiting))) < data.Length - 1)
      ensures var steps := if ok then PushSteps(e, width) + [PublishHead] else PushSteps(e, 0);
              Run(old(State(Idle, Waiting)), steps) == Some(State(Idle, Waiting))
      ensures InRing(State(Idle, Waiting)) == old(InRing(State(Idle, Waiting))) + if ok then [e] else []
    {
      ghost var before := State(Idle, Waiting);
      assert WellFormed(before) && Run(before, []) == Some(before);
      assert Occupancy(before) <= data.Length - 1;
      hide Inv, InRing, Run, Occupancy, NextIndex, Apply;
      CheckSpaceIs(before, e);
      FullIffSizeMinusOne(before, e);
      CheckKeeps(before, CheckSpace(e));
      RunSnoc(before, [], CheckSpace(e));
      assert PushSteps(e, 0) == [] + [CheckSpace(e)];
      var next := NextIndex(head, data.Length);
      if next == tail {
        return false;
      }
      WriteEntry(e, before);
      ghost var written := State(Writing(e, width), Waiting);
      RunSnoc(before, PushSteps(e, width), PublishHead);
      PublishHeadIs(written);
      PublishHeadKeeps(written);
      published := published + [e];
      head := next;
      assert State(Idle, Waiting) == Apply(written, PublishHead).value;
      ok := true;
    }

    /** The field-by-field write of the entry at the head. */
    method WriteEntry(e: Entry, ghost before: Ring)
      requires |e| == width && WellFormed(before) && WellFormed(State(Writing(e, 0), Waiting))
      requires Run(before, PushSteps(e, 0)) == Some(State(Writing(e, 0), Waiting))
      requires Inv(State(Writing(e, 0), Waiting)) && InRing(State(Writing(e, 0), Waiting)) == InRing(before)
      modifies data
      ensures WellFormed(State(Writing(e, width), Waiting)) && Inv(State(Writing(e, width), Waiting))
      ensures Run(before, PushSteps(e, width)) == Some(State(Writing(e, width), Waiting))
      ensures InRing(State(Writing(e, width), Waiting)) == InRing(before)
    {
      hide Inv, InRing, Run, NextIndex, Apply;
      var k := 0;
      while k < width
        invariant k <= width && WellFormed(State(Writing(e, k), Waiting)) && Inv(State(Writing(e, k), Waiting))
        invariant Run(before, PushSteps(e, k)) == Some(State(Writing(e, k), Waiting))
        invariant InRing(State(Writing(e, k), Waiting)) == InRing(before)
      {
        ghost var now := State(Writing(e, k), Waiting);
        ghost var after := now.data[head := now.data[head][k := e[k]]];
        WriteFieldIs(now, e, k, after);
        WriteKeeps(now);
        assert PushSteps(e, k + 1) == PushSteps(e, k) + [WriteField];
        RunSnoc(before, PushSteps(e, k), WriteField);
        data[head] := data[head][k := e[k]];
        assert data[..] == after;
        k := k + 1;
      }
    }

    /** Runs the consumer's steps to the end; yields the oldest entry, or None if there is none. */
    method Pop() returns (e: Option<Entry>)
      requires Valid()
      modifies this`tail, this`taken
      ensures Valid()
      ensures var steps := if e.Some? then PopSteps(width) + [PublishTail] else PopSteps(0);
              Run(old(State(Idle, Waiting)), steps) == Some(State(Idle, Waiting))
      ensures old(InRing(State(Idle, Waiting))) == (if e.Some? then [e.value] else []) + InRing(State(Idle, Waiting))
      ensures e.None? <==> old(InRing(State(Idle, Waiting))) == []
    {
      ghost var before := State(Idle, Waiting);
      assert WellFormed(before) && Run(before, []) == Some(before);
      assert tail == head <==> InRing(before) == [];
      hide Inv, InRing, Run, Occupancy, NextIndex;
      CheckKeeps(before, CheckData);
      RunSnoc(before, [], CheckData);
      assert PopSteps(0) == [] + [CheckData];
      if tail == head {
        return None;
      }
      var got := ReadEntry(before);
      ghost var read := State(Idle, Reading(got));
      RunSnoc(before, PopSteps(width), PublishTail);
      PublishTailKeeps(read);
      taken := taken + [got];
      tail := NextIndex(tail, data.Length);
      assert State(Idle, Waiting) == Apply(read, PublishTail).value;
      e := Some(got);
    }

    /** The field-by-field read of the entry at the tail. */
    method ReadEntry(ghost before: Ring) returns (got: Entry)
      requires WellFormed(before)
      requires Run(before, PopSteps(0)) == Some(State(Idle, Reading([])))
      requires Inv(State(Idle, Reading([]))) && InRing(State(Idle, Reading([]))) == InRing(before)
      ensures |got| == width && Inv(State(Idle, Reading(got)))
      ensures Run(before, PopSteps(width)) == Some(State(Idle, Reading(got)))
      ensures InRing(State(Idle, Reading(got))) == InRing(before)
    {
      got := [];
      while |got| < width
        invariant |got| <= width && Inv(State(Idle, Reading(got)))
        invariant Run(before, PopSteps(|got|)) == Some(State(Idle, Reading(got)))
        invariant InRing(State(Idle, Reading(got))) == InRing(before)
        decreases width - |got|
      {
        ghost var now := State(Idle, Reading(got));
        assert WellFormed(now);
        hide Inv, InRing, Run, NextIndex;
        ReadKeeps(now);
        assert PopSteps(|got| + 1) == PopSteps(|got|) + [ReadField];
        RunSnoc(before, PopSteps(|got|), ReadField);
        got := got + [data[tail][|got|]];
        assert State(Idle, Reading(got)) == Apply(now, ReadField).value;
      }
    }
  }
}
