/** Resource contracts (kernel/contracts.c): 32-bit usage counters and a three-state enforcement machine. */
module ContractSpec {
  import opened Words

  const PAGE_KB := 4

  datatype State = Fine | Warned | SafeMode

  datatype Contract = Contract(cpuBudget: Word, memBudget: Word, cpuUsed: Word, memUsed: Word,
                               cpuViolations: Word, memViolations: Word, state: State)

  function Apply(c: Contract): Contract {
    c.(cpuUsed := 0, memUsed := 0, cpuViolations := 0, memViolations := 0, state := Fine)
  }

  // The transition on a violation; `severe` is the limit test of the branch taken.
  function Escalate(s: State, severe: bool): State {
    if s == Fine then Warned else if s == Warned && severe then SafeMode else s
  }

  function ChargeCpu(c: Contract, usec: Word): Contract {
    var d := c.(cpuUsed := Wrap(c.cpuUsed + usec));
    if d.cpuUsed > d.cpuBudget then
      var v := Wrap(d.cpuViolations + 1);
      d.(cpuViolations := v, state := Escalate(d.state, v >= 3))
    else d
  }

  function MemViolation(c: Contract): Contract {
    var v := Wrap(c.memViolations + 1);
    c.(memViolations := v, state := Escalate(c.state, v >= 2))
  }

  function ChargeMemory(c: Contract, kb: Word): Contract {
    var d := c.(memUsed := Wrap(c.memUsed + kb));
    if d.memUsed > d.memBudget then MemViolation(d) else d
  }

  // `granted` says whether the page allocator has a page to give.
  function AllocPage(c: Contract, granted: bool): Contract {
    if c.state == SafeMode then c
    else if Wrap(c.memUsed + PAGE_KB) > c.memBudget then MemViolation(c)
    else if granted then c.(memUsed := Wrap(c.memUsed + PAGE_KB))
    else c
  }

  predicate GetsPage(c: Contract, granted: bool) {
    c.state != SafeMode && Wrap(c.memUsed + PAGE_KB) <= c.memBudget && granted
  }

  function FreePage(c: Contract): Contract {
    if c.memUsed >= PAGE_KB then c.(memUsed := c.memUsed - PAGE_KB) else c
  }

  // ---- Runs -------------------------------------------------------------------

  datatype Call = Cpu(usec: Word) | Memory(kb: Word) | Alloc(granted: bool) | Free

  function Do(c: Contract, call: Call): Contract {
    match call
    case Cpu(usec) => ChargeCpu(c, usec)
    case Memory(kb) => ChargeMemory(c, kb)
    case Alloc(granted) => AllocPage(c, granted)
    case Free => FreePage(c)
  }

  // The contract after it was applied and these calls were made.
  function Run(c: Contract, calls: seq<Call>): Contract {
    if calls == [] then Apply(c) else Do(Run(c, calls[..|calls| - 1]), calls[|calls| - 1])
  }

  // What the state should be, from the violation counts alone.
  function Expected(cpuViolations: nat, memViolations: nat): State {
    if cpuViolations == 0 && memViolations == 0 then Fine
    else if cpuViolations >= 3 || memViolations >= 2 then SafeMode
    else Warned
  }

  // CPU time charged by the calls, as the 32-bit counter shows it.
  function CpuTotal(calls: seq<Call>): Word {
    if calls == [] then 0
    else
      var before, last := CpuTotal(calls[..|calls| - 1]), calls[|calls| - 1];
      if last.Cpu? then Wrap(before + last.usec) else before
  }

  // How many of the charges found the total above the budget.
  function CpuOverruns(calls: seq<Call>, budget: Word): (n: nat) {
    if calls == [] then 0
    else
      CpuOverruns(calls[..|calls| - 1], budget)
      + (if calls[|calls| - 1].Cpu? && CpuTotal(calls) > budget then 1 else 0)
  }

  // Memory in use and memory overruns, from the calls and the two budgets alone.
  datatype Memo = Memo(used: Word, overruns: nat)

  function MemoryAfter(calls: seq<Call>, cpuBudget: Word, memBudget: Word): Memo {
    if calls == [] then Memo(0, 0)
    else
      var front := calls[..|calls| - 1];
      NextMemo(MemoryAfter(front, cpuBudget, memBudget), calls[|calls| - 1], CpuOverruns(front, cpuBudget), memBudget)
  }

  function NextMemo(m: Memo, call: Call, cpuOverruns: nat, memBudget: Word): Memo {
    match call
    case Cpu(_) => m
    case Memory(kb) => Memo(Wrap(m.used + kb), m.overruns + (if Wrap(m.used + kb) > memBudget then 1 else 0))
    case Alloc(granted) =>
      // No page, and no violation either, once three charges or two memory requests were over.
      if cpuOverruns >= 3 || m.overruns >= 2 then m
      else if Wrap(m.used + PAGE_KB) > memBudget then Memo(m.used, m.overruns + 1)
      else Memo(if granted then Wrap(m.used + PAGE_KB) else m.used, m.overruns)
    case Free => Memo(if m.used >= PAGE_KB then m.used - PAGE_KB else m.used, m.overruns)
  }

  // The contract that shows this CPU total, these overruns and this memory use.
  function Showing(c: Contract, total: Word, cpuOverruns: nat, m: Memo): Contract {
    Contract(c.cpuBudget, c.memBudget, total, m.used, Wrap(cpuOverruns), Wrap(m.overruns), Expected(cpuOverruns, m.overruns))
  }

  /**
   * Main theorem: after every run the state is a closed form of the numbers of overruns, the
   * two stored counts are these numbers in 32 bits, and usage is what the calls add up to.
   */
  lemma {:induction false} StateIsClosedForm(c: Contract, calls: seq<Call>)
    ensures Run(c, calls) == Showing(c, CpuTotal(calls), CpuOverruns(calls, c.cpuBudget), MemoryAfter(calls, c.cpuBudget, c.memBudget))
    decreases |calls|
  {
    if calls != [] {
      var front := calls[..|calls| - 1];
      StateIsClosedForm(c, front);
      hide Do, Showing;
      ShowingStep(c, CpuTotal(front), CpuOverruns(front, c.cpuBudget), MemoryAfter(front, c.cpuBudget, c.memBudget), calls[|calls| - 1]);
    }
  }

  lemma ShowingStep(c: Contract, total: Word, cpu: nat, m: Memo, call: Call)
    ensures var total' := if call.Cpu? then Wrap(total + call.usec) else total;
      var cpu' := cpu + (if call.Cpu? && total' > c.cpuBudget then 1 else 0);
      Do(Showing(c, total, cpu, m), call) == Showing(c, total', cpu', NextMemo(m, call, cpu, c.memBudget))
  {
    Successor(cpu);
    Successor(m.overruns);
    hide Wrap;
  }

  lemma Successor(n: nat)
    ensures Wrap(Wrap(n) + 1) == Wrap(n + 1) && (n < 3 ==> Wrap(n + 1) == n + 1)
  {
  }

  // The state agrees with the stored counts exactly if no count that matters has wrapped back below its limit.
  lemma StoredCountsAgreeIff(c: Contract, calls: seq<Call>)
    ensures var d := Run(c, calls);
      var cpu, mem := CpuOverruns(calls, c.cpuBudget), MemoryAfter(calls, c.cpuBudget, c.memBudget).overruns;
      d.state == Expected(d.cpuViolations, d.memViolations)
      <==> ((cpu < 3 && mem < 2) || cpu % TWO32 >= 3 || mem % TWO32 >= 2)
  {
    hide Run, CpuOverruns, MemoryAfter;
    StateIsClosedForm(c, calls);
  }

  // n charges, of which every one finds the budget of 0 exceeded.
  function Overcharged(n: nat): seq<Call> { seq(n, i => Cpu(if i == 0 then 1 else 0)) }

  lemma {:induction false} OverchargedCount(n: nat)
    ensures CpuOverruns(Overcharged(n), 0) == n && CpuTotal(Overcharged(n)) == (if n == 0 then 0 else 1)
    ensures MemoryAfter(Overcharged(n), 0, 0) == Memo(0, 0)
    decreases n
  {
    if n > 0 {
      OverchargedCount(n - 1);
      assert Overcharged(n)[..n - 1] == Overcharged(n - 1);
    }
  }

  // After 2^32 of them the count reads 0 and the state is still safe mode.
  lemma WrapExample()
    ensures var d := Run(Contract(0, 0, 0, 0, 0, 0, Fine), Overcharged(TWO32));
      d.state == SafeMode && d.cpuViolations == 0 && d.memViolations == 0
  {
    hide Run, CpuOverruns, MemoryAfter, Overcharged;
    OverchargedCount(TWO32);
    StateIsClosedForm(Contract(0, 0, 0, 0, 0, 0, Fine), Overcharged(TWO32));
  }

  // From safe mode no sequence of calls leads anywhere else, and none gets a page.
  lemma {:induction false} SafeModeIsFinal(c: Contract, calls: seq<Call>, more: seq<Call>, granted: bool)
    requires Run(c, calls).state == SafeMode
    ensures Run(c, calls + more).state == SafeMode && !GetsPage(Run(c, calls + more), granted)
    decreases |more|
  {
    if more == [] {
      assert calls + more == calls;
    } else {
      var front := more[..|more| - 1];
      SafeModeIsFinal(c, calls, front, granted);
      assert (calls + more)[..|calls + more| - 1] == calls + front;
    }
  }

  // ---- Pages -----------------------------------------------------------------------

  datatype Holder = Holder(c: Contract, pages: nat)

  const MACHINE_PAGES := 65536      // PMM_MAX_PAGES

  // Pages are freed only if held; no allocator has more pages than the machine.
  function Page(h: Holder, alloc: bool, willing: bool): Holder {
    var granted := willing && h.pages < MACHINE_PAGES;
    if alloc then Holder(AllocPage(h.c, granted), h.pages + (if GetsPage(h.c, granted) then 1 else 0))
    else if h.pages > 0 then Holder(FreePage(h.c), h.pages - 1)
    else h
  }

  function Pages(c: Contract, calls: seq<(bool, bool)>): Holder {
    if calls == [] then Holder(Apply(c), 0)
    else Page(Pages(c, calls[..|calls| - 1]), calls[|calls| - 1].0, calls[|calls| - 1].1)
  }

  // With page calls only, usage is 4 KB per page held and never above the budget.
  lemma {:induction false} PagesWithinBudget(c: Contract, calls: seq<(bool, bool)>)
    ensures var h := Pages(c, calls);
      h.pages <= MACHINE_PAGES && h.c.memUsed == PAGE_KB * h.pages && h.c.memUsed <= h.c.memBudget == c.memBudget
    decreases |calls|
  {
    if calls != [] {
      PagesWithinBudget(c, calls[..|calls| - 1]);
      var h := Pages(c, calls[..|calls| - 1]);
      assert Wrap(h.c.memUsed + PAGE_KB) == h.c.memUsed + PAGE_KB;
    }
  }
}

/** The contract record, updated in place by each call. */
module ContractObject {
  import opened Words
  import opened ContractSpec

  class TaskContract {
    var cpuBudget: Word
    var memBudget: Word
    var cpuUsed: Word
    var memUsed: Word
    var cpuViolations: Word
    var memViolations: Word
    var state: State

    ghost function View(): Contract
      reads this
    {
      Contract(cpuBudget, memBudget, cpuUsed, memUsed, cpuViolations, memViolations, state)
    }

    constructor (cpu: Word, memory: Word)
      ensures View() == Contract(cpu, memory, 0, 0, 0, 0, Fine)
    {
      cpuBudget, memBudget, cpuUsed, memUsed := cpu, memory, 0, 0;
      cpuViolations, memViolations, state := 0, 0, Fine;
    }

    method Apply()
      modifies this
      ensures View() == ContractSpec.Apply(old(View()))
    {
      cpuUsed, memUsed, cpuViolations, memViolations := 0, 0, 0, 0;
      state := Fine;
    }

    method SetState(next: State)
      modifies this`state
      ensures state == next
    {
      if state == next { return; }
      state := next;
    }

    method ChargeCpu(usec: Word) returns (violation: bool)
      modifies this
      ensures View() == ContractSpec.ChargeCpu(old(View()), usec)
      ensures violation <==> cpuUsed > cpuBudget
    {
      cpuUsed := Wrap(cpuUsed + usec);
      if cpuUsed > cpuBudget {
        cpuViolations := Wrap(cpuViolations + 1);
        if state == Fine {
          SetState(Warned);
        } else if state == Warned && cpuViolations >= 3 {
          SetState(SafeMode);
        }
        return true;
      }
      return false;
    }

    method RecordMemoryViolation()
      modifies this`memViolations, this`state
      ensures View() == MemViolation(old(View()))
    {
      memViolations := Wrap(memViolations + 1);
      if state == Fine {
        SetState(Warned);
      } else if state == Warned && memViolations >= 2 {
        SetState(SafeMode);
      }
    }

    method ChargeMemory(kb: Word) returns (violation: bool)
      modifies this
      ensures View() == ContractSpec.ChargeMemory(old(View()), kb)
      ensures violation <==> memUsed > memBudget
    {
      memUsed := Wrap(memUsed + kb);
      if memUsed > memBudget {
        RecordMemoryViolation();
        return true;
      }
      return false;
    }

    method AllocPage(granted: bool) returns (got: bool)
      modifies this
      ensures View() == ContractSpec.AllocPage(old(View()), granted)
      ensures got <==> GetsPage(old(View()), granted)
    {
      if state == SafeMode { return false; }
      if Wrap(memUsed + PAGE_KB) > memBudget {
        RecordMemoryViolation();
        return false;
      }
      if granted { memUsed := Wrap(memUsed + PAGE_KB); }
      return granted;
    }

    method FreePage()
      modifies this
      ensures View() == ContractSpec.FreePage(old(View()))
    {
      if memUsed >= PAGE_KB { memUsed := memUsed - PAGE_KB; }
    }
  }
}
