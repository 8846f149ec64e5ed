/**
 * Physical pages (kernel/mm/pmm.c): one bit per 4 KB page, a global free counter and the
 * free/used counters of two simulated NUMA nodes.  Counters are 32-bit and wrap.
 */
module PmmSpec {
  import opened Words
  import opened Bitmap

  const MAX_PAGES := 65536
  const BITMAP_SIZE := 8192
  const PAGE_SIZE := 4096
  const LOW_PAGES := 256            // the first megabyte
  const NODE_ANY := 0xFF

  type Byte = x: int | 0 <= x < 256

  datatype Node = Node(start: Word, end: Word, free: Word, used: Word)

  datatype Pmm = Pmm(bits: Bits, free: Word, highest: Word, nodes: seq<Node>)

  datatype Allocated = Allocated(m: Pmm, addr: nat)

  // Where the two nodes lie: together they cover the pages from 1 MB to the highest one.
  predicate Geometry(m: Pmm) {
    && |m.bits| == BITMAP_SIZE && |m.nodes| == 2
    && LOW_PAGES - 1 <= m.highest < MAX_PAGES
    && m.nodes[0].start == LOW_PAGES
    && m.nodes[0].end == m.nodes[1].start == LOW_PAGES + (m.highest + 1 - LOW_PAGES) / 2
    && m.nodes[1].end == m.highest + 1
  }

  ghost predicate Reserved(m: Pmm) {
    forall p: nat :: p < LOW_PAGES || p > m.highest ==> Test(m.bits, p)
  }

  predicate NodeCounts(b: Bits, n: Node) {
    n.free == FreeIn(b, n.start, n.end) && n.used == n.end - n.start - n.free
  }

  // What every counter means.
  ghost predicate Inv(m: Pmm) {
    && Geometry(m) && Reserved(m)
    && m.free == FreeIn(m.bits, 0, MAX_PAGES)
    && NodeCounts(m.bits, m.nodes[0]) && NodeCounts(m.bits, m.nodes[1])
  }

  // ---- Operations ---------------------------------------------------------

  function Charge(n: Node, count: int): Node {
    n.(free := Wrap(n.free - count), used := Wrap(n.used + count))
  }

  // Mark [s, s + count) used and charge it to one node.
  function Take(m: Pmm, node: nat, s: nat, count: nat): (r: Pmm)
    requires node < |m.nodes|
  {
    m.(bits := SetRange(m.bits, s, count),
       free := Wrap(m.free - count),
       nodes := m.nodes[node := Charge(m.nodes[node], count)])
  }

  function AllocFromNode(m: Pmm, node: nat): (r: Allocated)
    requires Geometry(m)
    ensures Geometry(r.m) && r.m.highest == m.highest
  {
    if node >= 2 then Allocated(m, 0)
    else
      var n := m.nodes[node];
      var s := FirstRun(m.bits, n.start, n.end, 1);
      if s < n.end then Allocated(Take(m, node, s, 1), s * PAGE_SIZE) else Allocated(m, 0)
  }

  // The node tried first; unsupported ids and NODE_ANY fall back to node 0.
  function Preferred(node: Byte): (r: nat)
    ensures r < 2
  {
    if node == 1 then 1 else 0
  }

  function AllocPage(m: Pmm, node: Byte): (r: Allocated)
    requires Geometry(m)
    ensures Geometry(r.m) && r.m.highest == m.highest
  {
    var first := AllocFromNode(m, Preferred(node));
    if first.addr != 0 then first else AllocFromNode(m, 1 - Preferred(node))
  }

  function NodeOf(m: Pmm, pfn: nat): (r: nat)
    requires Geometry(m)
    ensures r < 2
  {
    if m.nodes[1].start <= pfn < m.nodes[1].end then 1 else 0
  }

  // The contiguous search of one node, without the fallback.
  function TakeRun(m: Pmm, node: nat, count: nat): (r: Allocated)
    requires Geometry(m) && node < 2
  {
    var n := m.nodes[node];
    var s := FirstRun(m.bits, n.start, n.end, count);
    if s < n.end then Allocated(Take(m, node, s, count), s * PAGE_SIZE) else Allocated(m, 0)
  }

  // The search over all usable memory; the run is charged to the node of its first page.
  function TakeAnyRun(m: Pmm, count: nat): (r: Allocated)
    requires Geometry(m)
  {
    var s := FirstRun(m.bits, LOW_PAGES, m.highest + 1, count);
    if s < m.highest + 1 then Allocated(Take(m, NodeOf(m, s), s, count), s * PAGE_SIZE) else Allocated(m, 0)
  }

  datatype Outcome = Returned(r: Allocated) | OutOfFuel

  // pmm_alloc_pages, cut off after `fuel` nested calls: a failing node calls itself on the other.
  function AllocPagesWithin(m: Pmm, count: Word, node: Byte, fuel: nat): (o: Outcome)
    requires Geometry(m)
    decreases fuel
  {
    if count == 0 then Returned(Allocated(m, 0))
    else if count == 1 then Returned(AllocPage(m, node))
    else if node == NODE_ANY then Returned(TakeAnyRun(m, count))
    else
      var p := Preferred(node);
      var first := TakeRun(m, p, count);
      if first.addr != 0 then Returned(first)
      else if fuel == 0 then OutOfFuel
      else AllocPagesWithin(m, count, 1 - p, fuel - 1)
  }

  predicate HasRun(m: Pmm, count: nat) requires Geometry(m) {
    exists node: nat, s: nat :: node < 2 && m.nodes[node].start <= s && s + count <= m.nodes[node].end && RunAt(m.bits, s, count)
  }

  function GiveBack(m: Pmm, pfn: nat): (r: Pmm)
    requires Geometry(m)
  {
    var node := NodeOf(m, pfn);
    m.(bits := Clear(m.bits, pfn),
       free := Wrap(m.free + 1),
       nodes := m.nodes[node := Charge(m.nodes[node], -1)])
  }

  function FreePage(m: Pmm, addr: Word): (r: Pmm)
    requires Geometry(m)
    ensures Geometry(r) && r.highest == m.highest
  {
    var pfn := addr / PAGE_SIZE;
    if pfn > m.highest || !Test(m.bits, pfn) then m
    else GiveBackBits(m, pfn); GiveBack(m, pfn)
  }

  function FreePages(m: Pmm, addr: Word, count: nat): (r: Pmm)
    requires Geometry(m)
    ensures Geometry(r) && r.highest == m.highest
  {
    if count == 0 then m
    else FreePage(FreePages(m, addr, count - 1), Wrap(addr + (count - 1) * PAGE_SIZE))
  }

  // ---- The bits determine the counters -------------------------------------

  lemma BitsDetermineState(a: Pmm, b: Pmm)
    requires Inv(a) && Inv(b) && a.highest == b.highest
    requires forall p: nat :: Test(a.bits, p) <==> Test(b.bits, p)
    ensures a == b
  {
    hide Test, FreeIn;
    SameBits(a.bits, b.bits);
    assert a.nodes[0] == b.nodes[0] && a.nodes[1] == b.nodes[1];
    assert a.nodes == b.nodes;
  }

  // The global counter is the sum of the nodes' counters.
  lemma FreeIsSumOfNodes(m: Pmm)
    requires Inv(m)
    ensures m.free == m.nodes[0].free + m.nodes[1].free
  {
    hide Test, FreeIn;
    FreeInSplit(m.bits, 0, LOW_PAGES, MAX_PAGES);
    FreeInSplit(m.bits, LOW_PAGES, m.highest + 1, MAX_PAGES);
    FreeInSplit(m.bits, LOW_PAGES, m.nodes[0].end, m.highest + 1);
    NoneFree(m.bits, 0, LOW_PAGES);
    NoneFree(m.bits, m.highest + 1, MAX_PAGES);
  }

  // ---- Taking pages ----------------------------------------------------------

  // A run of free pages charged to node keeps the counters right exactly if the node holds all of it.
  lemma TakeKeepsIff(m: Pmm, node: nat, s: nat, count: nat)
    requires Inv(m) && node < 2 && 0 < count
    requires m.nodes[node].start <= s < m.nodes[node].end && RunAt(m.bits, s, count)
    ensures Inv(Take(m, node, s, count)) <==> s + count <= m.nodes[node].end
  {
    hide Test, FreeIn, Wrap, RunAt, Reserved;
    var r := Take(m, node, s, count);
    RunInside(m, s, count);
    TakeBits(m, node, s, count);
    FreeInSetRange(m.bits, 0, MAX_PAGES, s, count);
    WrapSmall(m.free - count);
    if s + count <= m.nodes[node].end {
      WrapSmall(m.nodes[node].free - count);
      WrapSmall(m.nodes[node].used + count);
      FreeInSetRange(m.bits, m.nodes[0].start, m.nodes[0].end, s, count);
      FreeInSetRange(m.bits, m.nodes[1].start, m.nodes[1].end, s, count);
    } else {
      CrossingBreaks(m, s, count);
    }
  }

  lemma RunInside(m: Pmm, s: nat, count: nat)
    requires Reserved(m) && RunAt(m.bits, s, count) && 0 < count
    ensures LOW_PAGES <= s && s + count <= m.highest + 1
  {
    hide Test;
    assert !Test(m.bits, s) && !Test(m.bits, s + count - 1);
  }

  lemma TakeBits(m: Pmm, node: nat, s: nat, count: nat)
    requires Geometry(m) && Reserved(m) && node < 2
    ensures Geometry(Take(m, node, s, count)) && Reserved(Take(m, node, s, count))
    ensures forall p: nat :: Test(Take(m, node, s, count).bits, p) <==> (s <= p < s + count || Test(m.bits, p))
  {
    hide Test;
    forall p: nat ensures Test(Take(m, node, s, count).bits, p) <==> (s <= p < s + count || Test(m.bits, p)) {
      TestSetRange(m.bits, s, count, p);
    }
  }

  lemma CrossingBreaks(m: Pmm, s: nat, count: nat)
    requires Inv(m) && RunAt(m.bits, s, count)
    requires s < m.nodes[0].end < s + count <= m.highest + 1 && LOW_PAGES <= s
    ensures !NodeCounts(Take(m, 0, s, count).bits, m.nodes[1])
  {
    hide Test, FreeIn;
    var r := Take(m, 0, s, count);
    var edge, end := m.nodes[1].start, m.nodes[1].end;
    TakeBits(m, 0, s, count);
    FreeInSplit(m.bits, edge, s + count, end);
    FreeInSplit(r.bits, edge, s + count, end);
    NoneFree(r.bits, edge, s + count);
    FreeInSame(m.bits, r.bits, s + count, end);
    NoneFree(m.bits, edge, s + count);
    assert !Test(m.bits, edge);
  }

  lemma AllocFromNodeSpec(m: Pmm, node: nat)
    requires Inv(m) && node < 2
    ensures var r := AllocFromNode(m, node);
      (r.addr == 0 <==> m.nodes[node].free == 0)
      && (r.addr == 0 ==> r.m == m)
      && (r.addr != 0 ==> Granted(m, r, 1) && FirstIn(m, node, r.addr / PAGE_SIZE))
  {
    hide Test, FreeIn, Granted, Take;
    var n := m.nodes[node];
    var s := FirstRun(m.bits, n.start, n.end, 1);
    FirstRunIsLeftmost(m.bits, n.start, n.end, 1);
    NoneFree(m.bits, n.start, n.end);
    hide FirstRun, Reserved;
    forall p: nat | n.start <= p < s ensures Test(m.bits, p) {
      assert !RunAt(m.bits, p, 1);
    }
    if s < n.end {
      assert !Test(m.bits, s);
      TakeGranted(m, node, s, 1);
    }
  }

  // A free run inside one node, taken and charged to it.
  lemma TakeGranted(m: Pmm, node: nat, s: nat, count: nat)
    requires Inv(m) && node < 2 && 0 < count
    requires m.nodes[node].start <= s && s + count <= m.nodes[node].end && RunAt(m.bits, s, count)
    ensures Granted(m, Allocated(Take(m, node, s, count), s * PAGE_SIZE), count)
    ensures s * PAGE_SIZE != 0 && s * PAGE_SIZE / PAGE_SIZE == s
  {
    hide Test, FreeIn, RunAt, Reserved, Take, NodeCounts;
    TakeKeepsIff(m, node, s, count);
    TakeBits(m, node, s, count);
    RunInside(m, s, count);
    assert Take(m, node, s, count).highest == m.highest && m.highest < MAX_PAGES by { TakeHighest(m, node, s, count); }
    PageAddress(s);
    hide Inv;
  }

  lemma TakeHighest(m: Pmm, node: nat, s: nat, count: nat)
    requires Geometry(m) && node < 2
    ensures Take(m, node, s, count).highest == m.highest && m.highest < MAX_PAGES
  {
  }

  lemma PageAddress(s: nat)
    requires 0 < s < MAX_PAGES
    ensures s * PAGE_SIZE / PAGE_SIZE == s && s * PAGE_SIZE % PAGE_SIZE == 0 && 0 < s * PAGE_SIZE < 0x1_0000_0000
  {
  }

  // pfn is the first free page of the node.
  predicate FirstIn(m: Pmm, node: nat, pfn: nat)
    requires Geometry(m) && node < 2
  {
    m.nodes[node].start <= pfn < m.nodes[node].end
    && forall p: nat :: m.nodes[node].start <= p < pfn ==> Test(m.bits, p)
  }

  // r hands out count pages that were free, marks exactly these used and keeps the invariant.
  ghost predicate Granted(m: Pmm, r: Allocated, count: nat) {
    var s := r.addr / PAGE_SIZE;
    && r.addr % PAGE_SIZE == 0 && r.addr < 0x1_0000_0000
    && Inv(r.m) && r.m.highest == m.highest
    && LOW_PAGES <= s && s + count <= m.highest + 1 && RunAt(m.bits, s, count)
    && forall p: nat :: Test(r.m.bits, p) <==> (s <= p < s + count || Test(m.bits, p))
  }

  // The preferred node if it has a free page, else the other.
  function FirstChoice(m: Pmm, node: Byte): (r: nat)
    requires Geometry(m)
    ensures r < 2
  {
    if m.nodes[Preferred(node)].free > 0 then Preferred(node) else 1 - Preferred(node)
  }

  /**
   * pmm_alloc_page fails exactly when no page at all is free, and otherwise hands out the
   * first free page of the preferred node if it has one, else of the other node.
   */
  lemma AllocPageSpec(m: Pmm, node: Byte)
    requires Inv(m)
    ensures var r := AllocPage(m, node);
      (r.addr == 0 <==> m.free == 0)
      && (r.addr == 0 ==> r.m == m)
      && (r.addr != 0 ==>
           Granted(m, r, 1) && FirstIn(m, FirstChoice(m, node), r.addr / PAGE_SIZE))
  {
    hide FreeIn, Granted, FirstIn, Take, Test;
    FreeIsSumOfNodes(m);
    AllocFromNodeSpec(m, Preferred(node));
    AllocFromNodeSpec(m, 1 - Preferred(node));
  }

  lemma TakeRunSpec(m: Pmm, node: nat, count: nat)
    requires Inv(m) && node < 2 && 0 < count
    ensures var r := TakeRun(m, node, count);
      var n := m.nodes[node];
      (r.addr == 0 ==> r.m == m && forall t: nat :: n.start <= t && t + count <= n.end ==> !RunAt(m.bits, t, count))
      && (r.addr != 0 ==>
           Granted(m, r, count) && n.start <= r.addr / PAGE_SIZE && r.addr / PAGE_SIZE + count <= n.end
           && forall t: nat :: n.start <= t < r.addr / PAGE_SIZE ==> !RunAt(m.bits, t, count))
  {
    hide Test, FreeIn, RunAt, Granted, Take, Reserved;
    var n := m.nodes[node];
    var s := FirstRun(m.bits, n.start, n.end, count);
    FirstRunIsLeftmost(m.bits, n.start, n.end, count);
    hide FirstRun;
    if s < n.end { TakeGranted(m, node, s, count); }
  }

  /**
   * Run length two or more on a named node: the call returns, for some recursion depth, if
   * and only if one of the nodes has such a run; it then returns the leftmost run of the
   * preferred node, or else of the other.
   */
  lemma AllocPagesReturnsIffRunExists(m: Pmm, count: Word, node: Byte)
    requires Inv(m) && 2 <= count && node != NODE_ANY
    ensures (exists fuel :: AllocPagesWithin(m, count, node, fuel).Returned?) <==> HasRun(m, count)
    ensures HasRun(m, count) ==>
      var p := Preferred(node);
      var r := if TakeRun(m, p, count).addr != 0 then TakeRun(m, p, count) else TakeRun(m, 1 - p, count);
      AllocPagesWithin(m, count, node, 1) == Returned(r) && r.addr != 0 && Granted(m, r, count)
  {
    hide Inv, Granted, RunAt, TakeRun, FirstRun, Geometry;
    assert Geometry(m) by { InvGeometry(m); }
    var p := Preferred(node);
    TakeRunSpec(m, p, count);
    TakeRunSpec(m, 1 - p, count);
    if HasRun(m, count) {
      var once: nat := 1;
      assert AllocPagesWithin(m, count, node, once).Returned?;
    } else if fuel :| AllocPagesWithin(m, count, node, fuel).Returned? {
      RunsForEver(m, count, node, fuel);
    }
  }

  lemma InvGeometry(m: Pmm)
    requires Inv(m)
    ensures Geometry(m)
  {
  }

  lemma {:induction false} RunsForEver(m: Pmm, count: Word, node: Byte, fuel: nat)
    requires Inv(m) && 2 <= count && node != NODE_ANY && !HasRun(m, count)
    ensures AllocPagesWithin(m, count, node, fuel) == OutOfFuel
    decreases fuel
  {
    hide Inv, RunAt, TakeRun, Geometry, Test;
    assert Geometry(m) by { InvGeometry(m); }
    var p := Preferred(node);
    TakeRunSpec(m, p, count);
    if fuel > 0 { RunsForEver(m, count, 1 - p, fuel - 1); }
  }

  /**
   * NODE_ANY: the leftmost run above 1 MB is granted, if there is one; the counters survive
   * exactly if that run lies in one node.
   */
  lemma AnyRunKeepsIff(m: Pmm, count: Word)
    requires Inv(m) && 2 <= count
    ensures var s := FirstRun(m.bits, LOW_PAGES, m.highest + 1, count);
      var r := TakeAnyRun(m, count);
      var edge := m.nodes[1].start;
      (s == m.highest + 1 <==> forall t: nat :: LOW_PAGES <= t && t + count <= m.highest + 1 ==> !RunAt(m.bits, t, count))
      && (s == m.highest + 1 ==> r == Allocated(m, 0))
      && (s <= m.highest ==> r.addr == s * PAGE_SIZE && RunAt(m.bits, s, count) && forall t: nat :: LOW_PAGES <= t < s ==> !RunAt(m.bits, t, count))
      && (Inv(r.m) <==> s == m.highest + 1 || s + count <= edge || edge <= s)
  {
    hide Test, FreeIn, RunAt;
    var s := FirstRun(m.bits, LOW_PAGES, m.highest + 1, count);
    FirstRunIsLeftmost(m.bits, LOW_PAGES, m.highest + 1, count);
    if s < m.highest + 1 { TakeKeepsIff(m, NodeOf(m, s), s, count); }
  }

  lemma AnyRunGranted(m: Pmm, count: Word)
    requires Inv(m) && 2 <= count
    requires var s := FirstRun(m.bits, LOW_PAGES, m.highest + 1, count);
      s <= m.highest && (s + count <= m.nodes[1].start || m.nodes[1].start <= s)
    ensures TakeAnyRun(m, count).addr != 0 && Granted(m, TakeAnyRun(m, count), count)
  {
    hide Test, FreeIn, RunAt, FirstRun, Granted, Take;
    var s := FirstRun(m.bits, LOW_PAGES, m.highest + 1, count);
    AnyRunKeepsIff(m, count);
    RunInside(m, s, count);
    TakeGranted(m, NodeOf(m, s), s, count);
  }

  // ---- Giving pages back ------------------------------------------------------

  lemma GiveBackKeeps(m: Pmm, pfn: nat)
    requires Inv(m) && LOW_PAGES <= pfn <= m.highest && Test(m.bits, pfn)
    ensures Inv(GiveBack(m, pfn)) && GiveBack(m, pfn).highest == m.highest
    ensures forall p: nat :: Test(GiveBack(m, pfn).bits, p) <==> p != pfn && Test(m.bits, p)
  {
    hide Test, FreeIn, Wrap, Clear;
    var node := NodeOf(m, pfn);
    GiveBackBits(m, pfn);
    FreeInClear(m.bits, 0, MAX_PAGES, pfn);
    FreeInClear(m.bits, m.nodes[0].start, m.nodes[0].end, pfn);
    FreeInClear(m.bits, m.nodes[1].start, m.nodes[1].end, pfn);
    WrapSmall(m.free + 1);
    WrapSmall(m.nodes[node].free + 1);
    WrapSmall(m.nodes[node].used - 1);
  }

  lemma GiveBackBits(m: Pmm, pfn: nat)
    requires Geometry(m) && pfn <= m.highest
    ensures Geometry(GiveBack(m, pfn)) && GiveBack(m, pfn).highest == m.highest
    ensures forall p: nat :: Test(GiveBack(m, pfn).bits, p) <==> p != pfn && Test(m.bits, p)
  {
    hide Test;
    TestClear(m.bits, pfn, pfn);
    forall p: nat ensures Test(GiveBack(m, pfn).bits, p) <==> p != pfn && Test(m.bits, p) {
      TestClear(m.bits, pfn, p);
    }
  }

  // pmm_free_page keeps the invariant exactly for addresses outside the first megabyte.
  lemma FreePageKeepsIff(m: Pmm, addr: Word)
    requires Inv(m)
    ensures Inv(FreePage(m, addr)) <==> addr >= LOW_PAGES * PAGE_SIZE
    ensures LOW_PAGES <= addr / PAGE_SIZE <= m.highest ==> forall p: nat ::
      Test(FreePage(m, addr).bits, p) <==> (Test(m.bits, p) && p != addr / PAGE_SIZE)
  {
    hide Test, FreeIn;
    var pfn := addr / PAGE_SIZE;
    if pfn < LOW_PAGES {
      assert Test(m.bits, pfn);
      GiveBackBits(m, pfn);
      assert !Test(FreePage(m, addr).bits, pfn);
    } else if pfn <= m.highest && Test(m.bits, pfn) {
      GiveBackKeeps(m, pfn);
    }
  }

  lemma {:induction false} FreePagesKeeps(m: Pmm, addr: Word, count: nat)
    requires Inv(m) && LOW_PAGES <= addr / PAGE_SIZE && addr / PAGE_SIZE + count <= m.highest + 1
    ensures Inv(FreePages(m, addr, count))
    ensures forall p: nat :: Test(FreePages(m, addr, count).bits, p)
              <==> (Test(m.bits, p) && !(addr / PAGE_SIZE <= p < addr / PAGE_SIZE + count))
  {
    hide Test, Inv, FreePage;
    if count > 0 {
      assert Geometry(m) by { InvGeometry(m); }
      FreePagesKeeps(m, addr, count - 1);
      FreePageKeepsIff(FreePages(m, addr, count - 1), addr + (count - 1) * PAGE_SIZE);
      assert (addr + (count - 1) * PAGE_SIZE) / PAGE_SIZE == addr / PAGE_SIZE + count - 1;
    } else {
      assert Geometry(m) by { InvGeometry(m); }
    }
  }

  // Freeing what was granted restores bitmap and counters exactly.
  lemma FreeUndoesGrant(m: Pmm, r: Allocated, count: nat)
    requires Inv(m) && Granted(m, r, count)
    ensures FreePages(r.m, r.addr, count) == m
  {
    hide Test, FreeIn, FreePages;
    FreePagesKeeps(r.m, r.addr, count);
    var s := r.addr / PAGE_SIZE;
    var b := FreePages(r.m, r.addr, count);
    assert forall p: nat :: Test(b.bits, p) <==> Test(m.bits, p);
    BitsDetermineState(b, m);
  }
}
