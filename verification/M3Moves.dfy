/**
 CopyStackSlotsR: block results move to their landing slots (kernel/lib/wasm3/m3_compile.c).
 The copies are emitted one at a time but are meant as one simultaneous assignment. They are
 one exactly when no target slot is still wanted by two later sources; the code saves only
 the first it finds.
 */
module M3Moves {
  import opened Words
  import opened Basics
  import opened M3Machine
  import opened M3Compile
  import opened M3Correct

  // ----- what is emitted -----

  /** The first record at or after `j` that names `slot`. */
  function Collision(sources: seq<nat>, slot: nat, j: nat): (r: Option<nat>)
    ensures r.Some? ==> j <= r.value < |sources| && sources[r.value] == slot
    ensures r.Some? ==> forall i :: j <= i < r.value ==> sources[i] != slot
    ensures r.None? ==> forall i :: j <= i < |sources| ==> sources[i] != slot
    decreases |sources| - j
  {
    if j >= |sources| then None
    else if sources[j] == slot then Some(j)
    else Collision(sources, slot, j + 1)
  }

  /** The records after the first source has been dealt with. */
  function Later(sources: seq<nat>, target: nat, temp: nat): seq<nat>
    requires sources != []
  {
    match Collision(sources, target, 1)
    case None => sources[1..]
    case Some(j) => sources[j := temp][1..]
  }

  /** The code that deals with the first source. */
  function Head(sources: seq<nat>, target: nat, temp: nat): seq<Instr>
    requires sources != []
  {
    (if Hit(sources, target) then [CopyTo(temp, target)] else []) + [CopyTo(target, sources[0])]
  }

  predicate Hit(sources: seq<nat>, target: nat) {
    Collision(sources, target, 1).Some?
  }

  function Moves(sources: seq<nat>, targets: seq<nat>, temp: nat): Result<seq<Instr>, Error>
    requires |sources| == |targets|
    decreases |sources|
  {
    if sources == [] then Ok([])
    else if targets[0] == sources[0] then Moves(sources[1..], targets[1..], temp)
    else if Hit(sources, targets[0]) && temp >= MAX_SLOTS then Err(FunctionStackOverflow)
    else
      var rest :- Moves(Later(sources, targets[0], temp), targets[1..], NextTemp(sources, targets[0], temp));
      Ok(Head(sources, targets[0], temp) + rest)
  }

  function NextTemp(sources: seq<nat>, target: nat, temp: nat): nat {
    if Hit(sources, target) then temp + 2 else temp
  }

  // ----- what is wanted -----

  ghost predicate Distinct(targets: seq<nat>) {
    forall i, j :: 0 <= i < j < |targets| ==> targets[i] != targets[j]
  }

  /** Records and targets lie below the temporaries, which lie in the frame. */
  ghost predicate Fits(sources: seq<nat>, targets: seq<nat>, temp: nat, frame: nat) {
    && |sources| == |targets| && temp + 2 * |sources| <= frame && temp < REG
    && (forall i :: 0 <= i < |sources| ==> sources[i] < temp || sources[i] == REG)
    && (forall i :: 0 <= i < |targets| ==> targets[i] < temp)
  }

  /** No target is overwritten while two later sources still need it. */
  ghost predicate Serial(sources: seq<nat>, targets: seq<nat>)
    requires |sources| == |targets|
  {
    forall k, i, j :: 0 <= k < i < j < |sources| && sources[i] == sources[j] == targets[k] ==> sources[k] == targets[k]
  }

  /** Two later sources still need the first target. */
  ghost predicate FirstClash(sources: seq<nat>, targets: seq<nat>) {
    && sources != [] && |sources| == |targets| && sources[0] != targets[0]
    && exists i, j :: 0 < i < j < |sources| && sources[i] == sources[j] == targets[0]
  }

  /** All sources have arrived at their targets, and nothing below the temporaries besides. */
  ghost predicate Assigned(sources: seq<nat>, targets: seq<nat>, temp: nat, m: State, n: State)
    requires m.Running? && Fits(sources, targets, temp, |m.slots|)
  {
    && n.Running? && |n.slots| == |m.slots| && n.r0 == m.r0
    && (forall i :: 0 <= i < |sources| ==> n.slots[targets[i]] == Value(m, sources[i]))
    && (forall s :: 0 <= s < temp && s !in targets ==> n.slots[s] == m.slots[s])
  }

  // ----- one source -----

  lemma HeadStep(alu: Alu, sources: seq<nat>, targets: seq<nat>, temp: nat, m: State)
    requires m.Running? && sources != [] && Fits(sources, targets, temp, |m.slots|)
    ensures var n := Exec(alu, Head(sources, targets[0], temp), m);
            && n.Running? && |n.slots| == |m.slots| && n.r0 == m.r0
            && n.slots[targets[0]] == Value(m, sources[0])
            && (Hit(sources, targets[0]) ==> n.slots[temp] == m.slots[targets[0]])
            && (forall s :: 0 <= s < temp && s != targets[0] ==> n.slots[s] == m.slots[s])
  {
    var last := CopyTo(targets[0], sources[0]);
    if Hit(sources, targets[0]) {
      var first := CopyTo(temp, targets[0]);
      assert Head(sources, targets[0], temp) == ([] + [first]) + [last];
      ExecSnoc(alu, [] + [first], last, m);
      ExecSnoc(alu, [], first, m);
    } else {
      assert Head(sources, targets[0], temp) == [] + [last];
      ExecSnoc(alu, [], last, m);
    }
  }

  /** The rest of the problem fits what the first source left. */
  lemma RestFits(sources: seq<nat>, targets: seq<nat>, temp: nat, frame: nat)
    requires sources != [] && Fits(sources, targets, temp, frame) && Distinct(targets)
    ensures Fits(sources[1..], targets[1..], temp, frame) && Distinct(targets[1..])
    ensures (Hit(sources, targets[0]) ==> temp < MAX_SLOTS) ==>
      Fits(Later(sources, targets[0], temp), targets[1..], NextTemp(sources, targets[0], temp), frame)
  {
  }

  /** A source not in place: its code runs first, then the code of the rest. */
  lemma RunRest(alu: Alu, sources: seq<nat>, targets: seq<nat>, temp: nat, m: State)
    requires |sources| == |targets| && sources != [] && sources[0] != targets[0]
    requires Moves(sources, targets, temp).Ok?
    ensures var rest := Moves(Later(sources, targets[0], temp), targets[1..], NextTemp(sources, targets[0], temp));
            rest.Ok? && Exec(alu, Moves(sources, targets, temp).value, m)
                     == Exec(alu, rest.value, Exec(alu, Head(sources, targets[0], temp), m))
    ensures Hit(sources, targets[0]) ==> temp < MAX_SLOTS
  {
    hide Exec, Head, NextTemp;
    var rest := Moves(Later(sources, targets[0], temp), targets[1..], NextTemp(sources, targets[0], temp));
    ExecAppend(alu, Head(sources, targets[0], temp), rest.value, m);
  }

  /** Whatever the collisions, only targets and temporaries are written. */
  lemma {:induction false} MovesFrame(alu: Alu, sources: seq<nat>, targets: seq<nat>, temp: nat, m: State)
    requires m.Running? && Fits(sources, targets, temp, |m.slots|) && Distinct(targets)
    requires Moves(sources, targets, temp).Ok?
    ensures var n := Exec(alu, Moves(sources, targets, temp).value, m);
            && n.Running? && |n.slots| == |m.slots| && n.r0 == m.r0
            && (forall s :: 0 <= s < temp && s !in targets ==> n.slots[s] == m.slots[s])
    decreases |sources|
  {
    if sources != [] {
      hide Exec, Head;
      RestFits(sources, targets, temp, |m.slots|);
      if targets[0] == sources[0] {
        MovesFrame(alu, sources[1..], targets[1..], temp, m);
      } else {
        var next := Later(sources, targets[0], temp);
        var t := NextTemp(sources, targets[0], temp);
        var head := Head(sources, targets[0], temp);
        HeadStep(alu, sources, targets, temp, m);
        RunRest(alu, sources, targets, temp, m);
        MovesFrame(alu, next, targets[1..], t, Exec(alu, head, m));
      }
    }
  }

  // ----- when the temporaries suffice -----

  /** How many targets are wanted by a later source when their turn comes. */
  function Saves(sources: seq<nat>, targets: seq<nat>): (n: nat)
    requires |sources| == |targets|
    ensures n <= |sources|
  {
    if sources == [] then 0
    else (if sources[0] != targets[0] && targets[0] in sources[1..] then 1 else 0) + Saves(sources[1..], targets[1..])
  }

  /** How many sources are not where they are to go. */
  function Misplaced(sources: seq<nat>, targets: seq<nat>): (n: nat)
    requires |sources| == |targets|
  {
    if sources == [] then 0
    else (if sources[0] != targets[0] then 1 else 0) + Misplaced(sources[1..], targets[1..])
  }

  /** A record that names no target may name another slot that is none. */
  lemma {:induction false} Redirected(sources: seq<nat>, targets: seq<nat>, j: nat, slot: nat)
    requires |sources| == |targets| && j < |sources| && sources[j] !in targets && slot !in targets
    ensures Saves(sources[j := slot], targets) == Saves(sources, targets)
    ensures Misplaced(sources[j := slot], targets) == Misplaced(sources, targets)
  {
    var other := sources[j := slot];
    assert targets[j] in targets;
    if j == 0 {
      assert other[1..] == sources[1..];
    } else {
      assert other[1..] == sources[1..][j - 1 := slot];
      assert targets[0] in targets && targets[0] != sources[j];
      assert targets[0] in other[1..] <==> targets[0] in sources[1..] by { StillThere(sources[1..], j - 1, slot, targets[0]); }
      Redirected(sources[1..], targets[1..], j - 1, slot);
    }
  }

  lemma StillThere(s: seq<nat>, j: nat, slot: nat, x: nat)
    requires j < |s| && s[j] != x && slot != x
    ensures x in s[j := slot] <==> x in s
  {
    var t := s[j := slot];
    if x in s {
      var i :| 0 <= i < |s| && s[i] == x;
      assert t[i] == x;
    }
  }

  lemma HitIff(sources: seq<nat>, target: nat)
    ensures Hit(sources, target) <==> |sources| > 0 && target in sources[1..]
  {
    if |sources| > 0 && target in sources[1..] {
      var i :| 0 <= i < |sources[1..]| && sources[1..][i] == target;
      assert sources[i + 1] == target;
    }
  }

  /**
   * The copies find temporaries if and only if the first free slot leaves room for one
   * register pair per target to be saved; then there is one copy for each source that has to
   * move and one for each target saved.
   */
  lemma {:induction false} MovesFitIff(sources: seq<nat>, targets: seq<nat>, temp: nat)
    requires |sources| == |targets| && Distinct(targets) && forall i :: 0 <= i < |targets| ==> targets[i] < temp
    ensures var n, r := Saves(sources, targets), Moves(sources, targets, temp);
      && (r.Ok? <==> n == 0 || temp + 2 * (n - 1) < 4000)
      && (r.Err? ==> r.error == FunctionStackOverflow)
      && (r.Ok? ==> |r.value| == Misplaced(sources, targets) + n)
    decreases |sources|
  {
    if sources != [] {
      var target := targets[0];
      HitIff(sources, target);
      assert target !in targets[1..] by { assert forall i :: 0 <= i < |targets[1..]| ==> targets[1..][i] == targets[i + 1]; }
      assert temp !in targets[1..];
      hide Distinct, Hit;
      DistinctTail(targets);
      if target == sources[0] {
        MovesFitIff(sources[1..], targets[1..], temp);
      } else {
        var next := Later(sources, target, temp);
        LaterCounts(sources, targets, temp);
        MovesFitIff(next, targets[1..], NextTemp(sources, target, temp));
      }
    }
  }

  lemma DistinctTail(targets: seq<nat>)
    requires targets != [] && Distinct(targets)
    ensures Distinct(targets[1..])
  {
  }

  lemma LaterCounts(sources: seq<nat>, targets: seq<nat>, temp: nat)
    requires sources != [] && |sources| == |targets| && targets[0] !in targets[1..] && temp !in targets[1..]
    ensures var next := Later(sources, targets[0], temp);
      && |next| == |sources| - 1 && Saves(next, targets[1..]) == Saves(sources[1..], targets[1..])
      && Misplaced(next, targets[1..]) == Misplaced(sources[1..], targets[1..])
  {
    match Collision(sources, targets[0], 1)
    case None =>
    case Some(j) =>
      assert sources[j := temp][1..] == sources[1..][j - 1 := temp];
      Redirected(sources[1..], targets[1..], j - 1, temp);
  }

  // ----- serial moves are simultaneous -----

  /** No later record names the first target any more, and each keeps its value. */
  lemma LaterValues(alu: Alu, sources: seq<nat>, targets: seq<nat>, temp: nat, m: State)
    requires m.Running? && sources != [] && Fits(sources, targets, temp, |m.slots|)
    requires sources[0] != targets[0] && !FirstClash(sources, targets)
    ensures var n := Exec(alu, Head(sources, targets[0], temp), m);
            var next := Later(sources, targets[0], temp);
            && n.Running? && |n.slots| == |m.slots| && |next| == |sources| - 1
            && (forall j :: 0 <= j < |next| ==>
                  (next[j] < temp + 1 || next[j] == REG) && next[j] != targets[0]
                  && Value(n, next[j]) == Value(m, sources[j + 1]))
  {
    HeadStep(alu, sources, targets, temp, m);
  }

  lemma SerialLater(sources: seq<nat>, targets: seq<nat>, temp: nat)
    requires sources != [] && |sources| == |targets| && Serial(sources, targets)
    requires forall i :: 0 <= i < |targets| ==> targets[i] < temp
    requires Distinct(targets)
    ensures Serial(sources[1..], targets[1..]) && Serial(Later(sources, targets[0], temp), targets[1..])
  {
    var next, rest := Later(sources, targets[0], temp), targets[1..];
    forall k, i, j | 0 <= k < i < j < |next| && next[i] == next[j] == rest[k] ensures next[k] == rest[k] {
      assert next[i] == sources[i + 1] && next[j] == sources[j + 1] && rest[k] == targets[k + 1];
      assert sources[k + 1] == targets[k + 1];
    }
    forall k, i, j | 0 <= k < i < j < |rest| && sources[1..][i] == sources[1..][j] == rest[k] ensures sources[1..][k] == rest[k] {
      assert sources[k + 1] == targets[k + 1];
    }
  }

  lemma {:induction false} SerialMoves(alu: Alu, sources: seq<nat>, targets: seq<nat>, temp: nat, m: State)
    requires m.Running? && Fits(sources, targets, temp, |m.slots|) && Distinct(targets)
    requires Moves(sources, targets, temp).Ok? && Serial(sources, targets)
    ensures Assigned(sources, targets, temp, m, Exec(alu, Moves(sources, targets, temp).value, m))
    decreases |sources|
  {
    if sources != [] {
      RestFits(sources, targets, temp, |m.slots|);
      SerialLater(sources, targets, temp);
      assert !FirstClash(sources, targets);
      hide Serial, FirstClash, Distinct, Assigned, Head, Later, Exec, Hit, Fits;
      if targets[0] == sources[0] {
        SerialMoves(alu, sources[1..], targets[1..], temp, m);
        AssignedSkip(sources, targets, temp, m, Exec(alu, Moves(sources, targets, temp).value, m));
      } else {
        var next := Later(sources, targets[0], temp);
        var t := NextTemp(sources, targets[0], temp);
        var h := Exec(alu, Head(sources, targets[0], temp), m);
        LaterValues(alu, sources, targets, temp, m);
        SerialMoves(alu, next, targets[1..], t, h);
        HeadThen(alu, sources, targets, temp, next, t, Moves(next, targets[1..], t).value, m, h);
      }
    }
  }

  lemma HeadThen(alu: Alu, sources: seq<nat>, targets: seq<nat>, temp: nat, next: seq<nat>, t: nat,
                 rest: seq<Instr>, m: State, h: State)
    requires m.Running? && sources != [] && Fits(sources, targets, temp, |m.slots|) && Distinct(targets)
    requires sources[0] != targets[0] && !FirstClash(sources, targets)
    requires next == Later(sources, targets[0], temp) && t == NextTemp(sources, targets[0], temp)
    requires h == Exec(alu, Head(sources, targets[0], temp), m) && h.Running? && |h.slots| == |m.slots|
    requires Fits(next, targets[1..], t, |h.slots|) && Assigned(next, targets[1..], t, h, Exec(alu, rest, h))
    ensures Assigned(sources, targets, temp, m, Exec(alu, Head(sources, targets[0], temp) + rest, m))
  {
    hide Exec;
    HeadStep(alu, sources, targets, temp, m);
    LaterValues(alu, sources, targets, temp, m);
    ExecAppend(alu, Head(sources, targets[0], temp), rest, m);
    AssignedHead(sources, targets, temp, next, t, m, h, Exec(alu, rest, h));
  }

  lemma AssignedSkip(sources: seq<nat>, targets: seq<nat>, temp: nat, m: State, n: State)
    requires m.Running? && sources != [] && Fits(sources, targets, temp, |m.slots|) && Distinct(targets)
    requires sources[0] == targets[0]
    requires Fits(sources[1..], targets[1..], temp, |m.slots|) && Assigned(sources[1..], targets[1..], temp, m, n)
    ensures Assigned(sources, targets, temp, m, n)
  {
    assert targets == [targets[0]] + targets[1..];
    forall i | 0 <= i < |sources| ensures n.slots[targets[i]] == Value(m, sources[i]) {
      if i > 0 {
        assert targets[i] == targets[1..][i - 1] && sources[i] == sources[1..][i - 1];
      }
    }
  }

  lemma AssignedHead(sources: seq<nat>, targets: seq<nat>, temp: nat, next: seq<nat>, t: nat, m: State, h: State, n: State)
    requires m.Running? && sources != [] && Fits(sources, targets, temp, |m.slots|) && Distinct(targets)
    requires h.Running? && |h.slots| == |m.slots| && h.r0 == m.r0 && temp <= t
    requires h.slots[targets[0]] == Value(m, sources[0])
    requires forall s :: 0 <= s < temp && s != targets[0] ==> h.slots[s] == m.slots[s]
    requires Fits(next, targets[1..], t, |m.slots|) && Assigned(next, targets[1..], t, h, n)
    requires forall j :: 0 <= j < |next| ==> Value(h, next[j]) == Value(m, sources[j + 1])
    ensures Assigned(sources, targets, temp, m, n)
  {
    assert targets == [targets[0]] + targets[1..];
    forall i | 0 <= i < |sources| ensures n.slots[targets[i]] == Value(m, sources[i]) {
      if i > 0 {
        assert targets[i] == targets[1..][i - 1];
        assert Value(h, next[i - 1]) == Value(m, sources[i]);
      }
    }
  }

  // ----- and only serial ones -----

  /** A later source in a slot that is nobody's target is still to be moved, with its value. */
  lemma LaterUnhit(alu: Alu, sources: seq<nat>, targets: seq<nat>, temp: nat, m: State, j: nat)
    requires m.Running? && Fits(sources, targets, temp, |m.slots|)
    requires 0 < j < |sources| && sources[j] !in targets
    ensures var n := Exec(alu, Head(sources, targets[0], temp), m);
            var next := Later(sources, targets[0], temp);
            && n.Running? && |n.slots| == |m.slots| && |next| == |sources| - 1
            && next[j - 1] == sources[j] && next[j - 1] !in targets[1..]
            && Value(n, next[j - 1]) == Value(m, sources[j])
  {
    hide Exec, Head;
    HeadStep(alu, sources, targets, temp, m);
    assert targets[0] in targets;
  }

  /** What the first source brings to its target stays there. */
  lemma FirstArrives(alu: Alu, sources: seq<nat>, targets: seq<nat>, temp: nat, m: State)
    requires m.Running? && sources != [] && Fits(sources, targets, temp, |m.slots|) && Distinct(targets)
    requires Moves(sources, targets, temp).Ok? && sources[0] != targets[0]
    ensures var n := Exec(alu, Moves(sources, targets, temp).value, m);
            n.Running? && |n.slots| == |m.slots| && n.slots[targets[0]] == Value(m, sources[0])
  {
    RestFits(sources, targets, temp, |m.slots|);
    var next := Later(sources, targets[0], temp);
    var t := NextTemp(sources, targets[0], temp);
    var head := Head(sources, targets[0], temp);
    hide Exec, Head, Later;
    HeadStep(alu, sources, targets, temp, m);
    RunRest(alu, sources, targets, temp, m);
    MovesFrame(alu, next, targets[1..], t, Exec(alu, head, m));
  }

  /** A source in a slot that is nobody's target arrives, however bad the rest is. */
  lemma {:induction false} Arrives(alu: Alu, sources: seq<nat>, targets: seq<nat>, temp: nat, m: State, j: nat)
    requires m.Running? && Fits(sources, targets, temp, |m.slots|) && Distinct(targets)
    requires Moves(sources, targets, temp).Ok? && j < |sources| && sources[j] !in targets
    ensures var n := Exec(alu, Moves(sources, targets, temp).value, m);
            n.Running? && |n.slots| == |m.slots| && n.slots[targets[j]] == Value(m, sources[j])
    decreases |sources|
  {
    if j == 0 {
      FirstArrives(alu, sources, targets, temp, m);
    } else {
      RestFits(sources, targets, temp, |m.slots|);
      hide Exec, Head, Later, Distinct, Value, Hit, NextTemp;
      assert targets[1..][j - 1] == targets[j] && sources[1..][j - 1] == sources[j];
      if targets[0] == sources[0] {
        Arrives(alu, sources[1..], targets[1..], temp, m, j - 1);
      } else {
        var next := Later(sources, targets[0], temp);
        var t := NextTemp(sources, targets[0], temp);
        var head := Head(sources, targets[0], temp);
        LaterUnhit(alu, sources, targets, temp, m, j);
        RunRest(alu, sources, targets, temp, m);
        hide Fits, Moves;
        Arrives(alu, next, targets[1..], t, Exec(alu, head, m), j - 1);
      }
    }
  }

  /** Only the first of two clashing sources is redirected. */
  lemma SecondKept(sources: seq<nat>, targets: seq<nat>, temp: nat) returns (j: nat)
    requires FirstClash(sources, targets) && Distinct(targets)
    ensures sources != [] && |sources| == |targets| && sources[0] != targets[0]
    ensures 0 < j < |sources| && sources[j] == targets[0] && targets[1..][j - 1] == targets[j]
    ensures var next := Later(sources, targets[0], temp);
            |next| == |sources| - 1 && next[j - 1] == targets[0] && targets[0] !in targets[1..]
  {
    var i, k :| 0 < i < k < |sources| && sources[i] == sources[k] == targets[0];
    j := k;
  }

  lemma FirstMoved(alu: Alu, sources: seq<nat>, targets: seq<nat>, temp: nat, m: State)
    requires m.Running? && sources != [] && Fits(sources, targets, temp, |m.slots|)
    ensures var n := Exec(alu, Head(sources, targets[0], temp), m);
            n.Running? && |n.slots| == |m.slots| && Value(n, targets[0]) == Value(m, sources[0])
  {
    hide Exec, Head;
    HeadStep(alu, sources, targets, temp, m);
  }

  /** The second of two clashing sources receives the value of the first source instead. */
  lemma ClashMisses(alu: Alu, sources: seq<nat>, targets: seq<nat>, temp: nat, m: State) returns (j: nat)
    requires m.Running? && Fits(sources, targets, temp, |m.slots|) && Distinct(targets)
    requires Moves(sources, targets, temp).Ok? && FirstClash(sources, targets)
    ensures j < |sources| && sources[j] == targets[0]
    ensures var n := Exec(alu, Moves(sources, targets, temp).value, m);
            n.Running? && |n.slots| == |m.slots| && n.slots[targets[j]] == Value(m, sources[0])
  {
    hide Moves, Exec, Head, Later, Distinct, Hit, NextTemp, FirstClash, Fits, Value;
    j := SecondKept(sources, targets, temp);
    RestFits(sources, targets, temp, |m.slots|);
    RunRest(alu, sources, targets, temp, m);
    var next := Later(sources, targets[0], temp);
    var t := NextTemp(sources, targets[0], temp);
    var head := Head(sources, targets[0], temp);
    FirstMoved(alu, sources, targets, temp, m);
    Arrives(alu, next, targets[1..], t, Exec(alu, head, m), j - 1);
  }

  /** Different records hold different values. */
  ghost predicate Telling(sources: seq<nat>, m: State)
    requires m.Running? && forall i :: 0 <= i < |sources| ==> sources[i] < |m.slots| || sources[i] >= REG
  {
    forall i, j :: 0 <= i < |sources| && 0 <= j < |sources| && sources[i] != sources[j] ==>
      Value(m, sources[i]) != Value(m, sources[j])
  }

  lemma ClashLater(sources: seq<nat>, targets: seq<nat>, temp: nat)
    requires |sources| == |targets| && !Serial(sources, targets) && !FirstClash(sources, targets)
    requires Distinct(targets) && forall i :: 0 <= i < |targets| ==> targets[i] < temp
    ensures sources != [] && !Serial(sources[1..], targets[1..])
    ensures !Serial(Later(sources, targets[0], temp), targets[1..])
  {
    var k, i, j :| 0 <= k < i < j < |sources| && sources[i] == sources[j] == targets[k] && sources[k] != targets[k];
    var next := Later(sources, targets[0], temp);
    assert k > 0;
    assert targets[1..][k - 1] == targets[k];
    assert sources[1..][i - 1] == sources[1..][j - 1] == targets[k] && sources[1..][k - 1] == sources[k];
    assert next[i - 1] == next[j - 1] == targets[k] && next[k - 1] != targets[k];
  }

  lemma TellingLater(sources: seq<nat>, targets: seq<nat>, temp: nat, m: State, h: State)
    requires m.Running? && sources != [] && Fits(sources, targets, temp, |m.slots|)
    requires sources[0] != targets[0] && !FirstClash(sources, targets) && Telling(sources, m)
    requires h.Running? && |h.slots| == |m.slots|
    requires var next := Later(sources, targets[0], temp);
             forall j :: 0 <= j < |next| ==>
               (next[j] < |h.slots| || next[j] == REG) && Value(h, next[j]) == Value(m, sources[j + 1])
    ensures Telling(Later(sources, targets[0], temp), h)
  {
    var next := Later(sources, targets[0], temp);
    forall i, j | 0 <= i < |next| && 0 <= j < |next| && next[i] != next[j]
      ensures Value(h, next[i]) != Value(h, next[j])
    {
      assert sources[i + 1] != sources[j + 1];
    }
  }

  /** On a frame that tells its records apart, a clash leaves some target wrong. */
  lemma {:induction false} ClashingMoves(alu: Alu, sources: seq<nat>, targets: seq<nat>, temp: nat, m: State)
    returns (j: nat)
    requires m.Running? && Fits(sources, targets, temp, |m.slots|) && Distinct(targets)
    requires Moves(sources, targets, temp).Ok? && !Serial(sources, targets) && Telling(sources, m)
    ensures var n := Exec(alu, Moves(sources, targets, temp).value, m);
            j < |sources| && n.Running? && |n.slots| == |m.slots| && n.slots[targets[j]] != Value(m, sources[j])
    decreases |sources|, 1
  {
    hide Exec, Head, Serial;
    if FirstClash(sources, targets) {
      j := ClashMisses(alu, sources, targets, temp, m);
    } else {
      ClashLater(sources, targets, temp);
      RestFits(sources, targets, temp, |m.slots|);
      if targets[0] == sources[0] {
        j := ClashingMoves(alu, sources[1..], targets[1..], temp, m);
        j := j + 1;
      } else {
        RunRest(alu, sources, targets, temp, m);
        hide Moves, FirstClash, Distinct;
        j := ClashingRest(alu, sources, targets, temp, m);
      }
    }
  }

  /** The clash lies after the first source. */
  lemma ClashingRest(alu: Alu, sources: seq<nat>, targets: seq<nat>, temp: nat, m: State) returns (j: nat)
    requires m.Running? && sources != [] && Fits(sources, targets, temp, |m.slots|)
    requires sources[0] != targets[0] && !FirstClash(sources, targets) && Telling(sources, m)
    requires var next, t := Later(sources, targets[0], temp), NextTemp(sources, targets[0], temp);
             && Fits(next, targets[1..], t, |m.slots|) && Distinct(targets[1..])
             && Moves(next, targets[1..], t).Ok? && !Serial(next, targets[1..])
    ensures var rest := Moves(Later(sources, targets[0], temp), targets[1..], NextTemp(sources, targets[0], temp)).value;
            var n := Exec(alu, rest, Exec(alu, Head(sources, targets[0], temp), m));
            j < |sources| && n.Running? && |n.slots| == |m.slots| && n.slots[targets[j]] != Value(m, sources[j])
    decreases |sources|, 0
  {
    hide Exec, Head, Serial, Moves, Distinct;
    var next := Later(sources, targets[0], temp);
    var h := Exec(alu, Head(sources, targets[0], temp), m);
    LaterValues(alu, sources, targets, temp, m);
    TellingLater(sources, targets, temp, m, h);
    hide FirstClash, Later, Hit, Telling;
    j := ClashingMoves(alu, next, targets[1..], NextTemp(sources, targets[0], temp), h);
    j := j + 1;
  }

  /** The emitted copies are one simultaneous assignment on every frame if and only if no
      target is overwritten while two later sources still need it. */
  lemma ParallelMoveIffSerial(alu: Alu, sources: seq<nat>, targets: seq<nat>, temp: nat, frame: nat)
    requires Fits(sources, targets, temp, frame) && Distinct(targets) && frame < TWO32
    requires Moves(sources, targets, temp).Ok?
    ensures Serial(sources, targets) <==>
      forall m: State :: m.Running? && |m.slots| == frame ==>
        Assigned(sources, targets, temp, m, Exec(alu, Moves(sources, targets, temp).value, m))
  {
    var code := Moves(sources, targets, temp).value;
    if Serial(sources, targets) {
      forall m: State | m.Running? && |m.slots| == frame
        ensures Assigned(sources, targets, temp, m, Exec(alu, code, m))
      {
        SerialMoves(alu, sources, targets, temp, m);
      }
    } else {
      var slots: seq<Word> := seq(frame, s requires 0 <= s < frame => s);
      var m := Running(slots, Reg(0, frame));
      var j := ClashingMoves(alu, sources, targets, temp, m);
      assert !Assigned(sources, targets, temp, m, Exec(alu, code, m));
    }
  }

  /** The smallest clash: two results in one preserved slot, swapped over by a third. */
  lemma ClashExample()
    ensures !Serial([10, 11, 11], [11, 12, 13])
    ensures Moves([10, 11, 11], [11, 12, 13], 20)
         == Ok([CopySlot(20, 11), CopySlot(11, 10), CopySlot(12, 20), CopySlot(13, 11)])
  {
    var s, t := [10, 11, 11], [11, 12, 13];
    assert s[1] == s[2] == t[0] && s[0] != t[0];
    var s1, t1 := [20, 11], [12, 13];
    assert Later(s, 11, 20) == s1 && t[1..] == t1;
    var s2, t2 := [11], [13];
    assert Later(s1, 12, 22) == s2 && t1[1..] == t2;
    assert Later(s2, 13, 22) == [] && t2[1..] == [];
    var none: seq<Instr> := [];
    assert Moves(Later(s2, 13, 22), t2[1..], 22) == Ok(none);
    assert Head(s2, 13, 22) + none == [CopySlot(13, 11)];
    assert Moves(s2, t2, 22) == Ok([CopySlot(13, 11)]);
    assert Head(s1, 12, 22) + [CopySlot(13, 11)] == [CopySlot(12, 20), CopySlot(13, 11)];
    assert Moves(s1, t1, 22) == Ok([CopySlot(12, 20), CopySlot(13, 11)]);
    var last := [CopySlot(12, 20), CopySlot(13, 11)];
    assert Head(s, 11, 20) + last == [CopySlot(20, 11), CopySlot(11, 10), CopySlot(12, 20), CopySlot(13, 11)];
    assert Hit(s, 11) && NextTemp(s, 11, 20) == 22;
  }

  // ----- the code itself -----

  lemma MovesStep(sources: seq<nat>, targets: seq<nat>, temp: nat)
    requires |sources| == |targets| && sources != []
    ensures Moves(sources, targets, temp) ==
      if targets[0] == sources[0] then Moves(sources[1..], targets[1..], temp)
      else if Hit(sources, targets[0]) && temp >= MAX_SLOTS then Err(FunctionStackOverflow)
      else match Moves(Later(sources, targets[0], temp), targets[1..], NextTemp(sources, targets[0], temp))
           case Ok(rest) => Ok(Head(sources, targets[0], temp) + rest)
           case Err(e) => Err(e)
  {
  }

  /** Target records lie below the sources, so rewriting sources leaves them alone. */
  lemma SliceTail(ws: seq<nat>, ws': seq<nat>, target: nat, index: nat, end: nat)
    requires index < end <= |ws| && |ws'| == |ws| && target + (end - index) <= index
    requires ws'[..index] == ws[..index]
    ensures ws'[target + 1..target + 1 + (end - (index + 1))] == ws[target..target + (end - index)][1..]
    ensures ws[index..end][1..] == ws[index + 1..end]
    ensures ws[index..end][0] == ws[index] && ws[target..target + (end - index)][0] == ws[target]
  {
    var n := end - index;
    assert ws'[target + 1..target + n] == ws'[..index][target + 1..target + n];
    assert ws[target + 1..target + n] == ws[..index][target + 1..target + n];
  }

  /** Dealing with the source at `index` turned the records `ws` into `mid`, where the record
      at `preserved` had been `collision`. */
  ghost predicate FirstDone(ws: seq<nat>, mid: seq<nat>, target: nat, index: nat, end: nat, temp: nat,
                            preserved: nat, collision: nat)
    requires index < end <= |ws| && target < |ws|
  {
    && |mid| == |ws| && index <= preserved < end
    && mid[index + 1..end] == Later(ws[index..end], ws[target], temp) && mid[..index] == ws[..index]
    && mid[index := ws[index]][preserved := collision] == ws
  }

  lemma Restored(ws: seq<nat>, mid: seq<nat>, target: nat, index: nat, end: nat, temp: nat, preserved: nat,
                 collision: nat)
    requires index < end <= |ws| && target < |ws|
    requires FirstDone(ws, mid, target, index, end, temp, preserved, collision)
    ensures |mid| == |ws| && index <= preserved < end && mid[index := ws[index]][preserved := collision] == ws
  {
  }

  /** The moves of a stretch of records by those of the records its first source leaves. */
  lemma MovesByRest(ws: seq<nat>, mid: seq<nat>, target: nat, index: nat, end: nat, temp: nat, preserved: nat,
                    collision: nat)
    requires index < end <= |ws| && target + (end - index) <= index && ws[target] != ws[index]
    requires FirstDone(ws, mid, target, index, end, temp, preserved, collision)
    requires !(Hit(ws[index..end], ws[target]) && temp >= MAX_SLOTS)
    ensures |mid| == |ws| && Moves(ws[index..end], ws[target..target + (end - index)], temp) ==
      match Moves(mid[index + 1..end], mid[target + 1..target + 1 + (end - (index + 1))],
                  NextTemp(ws[index..end], ws[target], temp))
      case Ok(rest) => Ok(Head(ws[index..end], ws[target], temp) + rest)
      case Err(e) => Err(e)
  {
    MovesStep(ws[index..end], ws[target..target + (end - index)], temp);
    hide Later, Head, Hit, NextTemp, Moves;
    SliceTail(ws, mid, target, index, end);
  }

  lemma MovesFail(ws: seq<nat>, target: nat, index: nat, end: nat, temp: nat)
    requires index < end <= |ws| && target + (end - index) <= index && ws[target] != ws[index]
    requires Hit(ws[index..end], ws[target]) && temp >= MAX_SLOTS
    ensures Moves(ws[index..end], ws[target..target + (end - index)], temp) == Err(FunctionStackOverflow)
  {
  }

  /** The part of M3Compilation that CopyStackSlotsR works on. */
  class MoveRecord {
    var wasmStack: seq<nat>
    var code: seq<Instr>
    var maxStackSlots: nat

    /** Emitted exactly the moves, with the records back as they were; or failed as they do. */
    ghost predicate Did(r: Option<Error>, moves: Result<seq<Instr>, Error>, records: seq<nat>, before: seq<Instr>)
      reads this
    {
      match moves
      case Ok(emitted) => r.None? && wasmStack == records && code == before + emitted
      case Err(e) => r == Some(e)
    }

    /** Emits exactly `Moves` and leaves every stack record as it found it. */
    method CopyStackSlotsR(target: nat, index: nat, end: nat, temp: nat) returns (r: Option<Error>)
      requires index <= end <= |wasmStack| && target + (end - index) <= index
      modifies this
      ensures |wasmStack| == |old(wasmStack)|
      ensures Did(r, Moves(old(wasmStack)[index..end], old(wasmStack)[target..target + (end - index)], temp),
                  old(wasmStack), old(code))
      decreases end - index, 1
    {
      if index >= end {
        return None;
      }
      SliceTail(wasmStack, wasmStack, target, index, end);
      if wasmStack[target] == wasmStack[index] {
        r := CopyStackSlotsR(target + 1, index + 1, end, temp);
      } else {
        r := MoveThenRest(target, index, end, temp);
      }
    }

    /** The case of a source that is not in place: move it, do the rest, restore the records. */
    method MoveThenRest(target: nat, index: nat, end: nat, temp: nat) returns (r: Option<Error>)
      requires index < end <= |wasmStack| && target + (end - index) <= index
      requires wasmStack[target] != wasmStack[index]
      modifies this
      ensures |wasmStack| == |old(wasmStack)|
      ensures Did(r, Moves(old(wasmStack)[index..end], old(wasmStack)[target..target + (end - index)], temp),
                  old(wasmStack), old(code))
      decreases end - index, 0
    {
      hide Later, Head, Hit, NextTemp, Moves, FirstDone;
      var srcSlot := wasmStack[index];
      var preserveIndex, collisionSlot, nextTemp;
      r, preserveIndex, collisionSlot, nextTemp := CopyFirst(target, index, end, temp);
      if r.Some? {
        MovesFail(old(wasmStack), target, index, end, temp);
        return;
      }
      ghost var mid := wasmStack;
      MovesByRest(old(wasmStack), mid, target, index, end, temp, preserveIndex, collisionSlot);
      Restored(old(wasmStack), mid, target, index, end, temp, preserveIndex, collisionSlot);
      r := CopyStackSlotsR(target + 1, index + 1, end, nextTemp);
      if r.None? {
        wasmStack := wasmStack[index := srcSlot];
        wasmStack := wasmStack[preserveIndex := collisionSlot];
      }
    }

    /** Save the colliding source, if any, to a temporary, then copy this source to its target. */
    method CopyFirst(target: nat, index: nat, end: nat, temp: nat)
      returns (r: Option<Error>, preserveIndex: nat, collisionSlot: nat, nextTemp: nat)
      requires target < index < end <= |wasmStack| && wasmStack[target] != wasmStack[index]
      modifies this
      ensures var sources := old(wasmStack)[index..end];
              var slot := old(wasmStack)[target];
              && r == (if Hit(sources, slot) && temp >= MAX_SLOTS then Some(FunctionStackOverflow) else None)
              && |wasmStack| == |old(wasmStack)|
              && (r.None? ==>
                    && code == old(code) + Head(sources, slot, temp)
                    && nextTemp == NextTemp(sources, slot, temp)
                    && FirstDone(old(wasmStack), wasmStack, target, index, end, temp, preserveIndex, collisionSlot))
    {
      var srcSlot, targetSlot := wasmStack[index], wasmStack[target];
      preserveIndex, collisionSlot, nextTemp := index, srcSlot, temp;
      var checkIndex := FindCollision(targetSlot, index, end);
      if checkIndex < end {
        if temp >= MAX_SLOTS {
          r := Some(FunctionStackOverflow);
          return;
        }
        code := code + [CopyTo(temp, wasmStack[checkIndex])];
        preserveIndex, collisionSlot := checkIndex, wasmStack[checkIndex];
        wasmStack := wasmStack[checkIndex := temp];
        nextTemp := temp + 2;
        maxStackSlots := Max(maxStackSlots, nextTemp);
      }
      code := code + [CopyTo(targetSlot, srcSlot)];
      wasmStack := wasmStack[index := targetSlot];
      r := None;
    }

    /** The search loop: the first later record naming the target, or `end`. */
    method FindCollision(slot: nat, index: nat, end: nat) returns (at: nat)
      requires index < end <= |wasmStack|
      ensures match Collision(wasmStack[index..end], slot, 1)
              case None => at == end
              case Some(j) => at == index + j
    {
      at := index + 1;
      while at < end
        invariant index < at <= end
        invariant Collision(wasmStack[index..end], slot, 1) == Collision(wasmStack[index..end], slot, at - index)
      {
        if wasmStack[at] == slot {
          return;
        }
        at := at + 1;
      }
    }
  }
}
