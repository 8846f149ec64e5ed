/**
 * The kernel's side of the shared blob heap (kernel/ipc/heap.c): 64-byte blocks under a
 * bitmap, and a table of the blobs that live in them.
 */
module BlobSpec {
  import opened Words
  import opened Basics
  import opened Bitmap

  const MAX_BLOCKS := 15168        // 0xED000 / 64
  const BITMAP_SIZE := 1896
  const BLOCK := 64
  const HEADER := 32
  const MAX_BLOBS := 256

  datatype Entry = Entry(id: nat, start: nat, blocks: nat)

  datatype Heap = Heap(bits: Bits, free: Word, next: Word, table: seq<Entry>)

  // ---- Sizes -------------------------------------------------------------------

  function BlocksFor(size: Word): nat { Wrap(Wrap(size + HEADER) + BLOCK - 1) / BLOCK }

  // The blocks hold header and data, and no block is wasted, exactly if the 32-bit sums do not wrap.
  lemma BlocksCoverIff(size: Word)
    ensures size + HEADER <= BLOCK * BlocksFor(size) < size + HEADER + BLOCK <==> size + HEADER + BLOCK - 1 < 0x1_0000_0000
  {
  }

  // ---- Operations ----------------------------------------------------------------

  // find_free_blocks; a count of 0 stops at the first free block like a count of 1.
  function FindFree(b: Bits, count: nat): nat { FirstRun(b, 0, MAX_BLOCKS, if count == 0 then 1 else count) }

  datatype Allocated = Allocated(h: Heap, id: nat)

  function Alloc(h: Heap, size: Word): (r: Allocated) {
    var blocks := BlocksFor(size);
    var start := FindFree(h.bits, blocks);
    if start == MAX_BLOCKS then Allocated(h, 0)
    else
      var id := h.next % 0x1_0000;
      var next := if Wrap(h.next + 1) == 0 then 1 else Wrap(h.next + 1);
      var table := if |h.table| < MAX_BLOBS then h.table + [Entry(id, start, blocks)] else h.table;
      Allocated(Heap(SetRange(h.bits, start, blocks), Wrap(h.free - blocks), next, table), id)
  }

  function IndexOf(table: seq<Entry>, id: nat): (k: nat)
    ensures k <= |table|
    ensures k < |table| ==> table[k].id == id
    ensures forall i :: 0 <= i < k ==> table[i].id != id
  {
    if table == [] then 0 else if table[0].id == id then 0 else 1 + IndexOf(table[1..], id)
  }

  // Remove entry k by moving the last one into its place.
  function SwapRemove(table: seq<Entry>, k: nat): (r: seq<Entry>)
    requires k < |table|
    ensures |r| == |table| - 1
  {
    table[k := table[|table| - 1]][..|table| - 1]
  }

  function Free(h: Heap, id: nat): (r: Heap) {
    var k := IndexOf(h.table, id);
    if id == 0 || k == |h.table| then h
    else
      var e := h.table[k];
      h.(bits := ClearRange(h.bits, e.start, e.blocks), free := Wrap(h.free + e.blocks), table := SwapRemove(h.table, k))
  }

  // ---- Invariant -------------------------------------------------------------------

  predicate Holds(e: Entry, p: nat) { e.start <= p < e.start + e.blocks }

  predicate InHeap(table: seq<Entry>) {
    forall i :: 0 <= i < |table| ==> table[i].start + table[i].blocks <= MAX_BLOCKS
  }

  // How many of the blobs hold block p.
  function Holders(table: seq<Entry>, p: nat): nat {
    if table == [] then 0 else Holders(table[..|table| - 1], p) + (if Holds(table[|table| - 1], p) then 1 else 0)
  }

  function Total(table: seq<Entry>): nat {
    if table == [] then 0 else Total(table[..|table| - 1]) + table[|table| - 1].blocks
  }

  function Bit(b: Bits, p: nat): nat { if Test(b, p) then 1 else 0 }

  /**
   * Every block is held by one blob if its bit is set and by none if it is clear; the free
   * counter counts the clear bits; blocks are conserved.  `lost` are the blobs that found
   * the table full: they hold their blocks, but nothing knows them.
   */
  ghost predicate Inv(h: Heap, lost: seq<Entry>) {
    && |h.bits| == BITMAP_SIZE && |h.table| <= MAX_BLOBS && InHeap(h.table) && InHeap(lost)
    && (forall p: nat :: p < MAX_BLOCKS ==> Holders(h.table, p) + Holders(lost, p) == Bit(h.bits, p))
    && h.free == FreeIn(h.bits, 0, MAX_BLOCKS)
    && h.free + Total(h.table) + Total(lost) == MAX_BLOCKS
  }

  predicate Covered(table: seq<Entry>, p: nat) { exists i :: 0 <= i < |table| && Holds(table[i], p) }

  predicate Disjoint(d: Entry, e: Entry) { forall p: nat | d.start <= p < d.start + d.blocks :: !Holds(e, p) }

  // In other words: blobs, known or lost, occupy disjoint blocks, and a bit is set exactly under a blob.
  lemma DisjointAndCovered(h: Heap, lost: seq<Entry>)
    requires Inv(h, lost)
    ensures forall i, j :: 0 <= i < j < |h.table| ==> Disjoint(h.table[i], h.table[j])
    ensures forall i, j :: 0 <= i < |h.table| && 0 <= j < |lost| ==> Disjoint(h.table[i], lost[j])
    ensures forall p: nat :: p < MAX_BLOCKS ==> (Test(h.bits, p) <==> Covered(h.table, p) || Covered(lost, p))
  {
    hide Test, FreeIn, Total, Holders;
    forall i, j | 0 <= i < j < |h.table| ensures Disjoint(h.table[i], h.table[j]) {
      forall p: nat | Holds(h.table[i], p) ensures !Holds(h.table[j], p) {
        if Holds(h.table[j], p) { TwoHolders(h.table, i, j, p); }
      }
    }
    forall i, j | 0 <= i < |h.table| && 0 <= j < |lost| ensures Disjoint(h.table[i], lost[j]) {
      forall p: nat | Holds(h.table[i], p) ensures !Holds(lost[j], p) {
        HeldIffCovered(h.table, p);
        HeldIffCovered(lost, p);
        assert Covered(h.table, p);
        assert Holds(lost[j], p) ==> Covered(lost, p);
      }
    }
    forall p: nat | p < MAX_BLOCKS ensures Test(h.bits, p) <==> Covered(h.table, p) || Covered(lost, p) {
      HeldIffCovered(h.table, p);
      HeldIffCovered(lost, p);
    }
  }

  lemma {:induction false} HeldIffCovered(table: seq<Entry>, p: nat)
    ensures Holders(table, p) > 0 <==> Covered(table, p)
    decreases |table|
  {
    hide Holds;
    if table != [] {
      var front := table[..|table| - 1];
      HeldIffCovered(front, p);
      assert forall i :: 0 <= i < |front| ==> front[i] == table[i];
    }
  }

  lemma {:induction false} TwoHolders(table: seq<Entry>, i: nat, j: nat, p: nat)
    requires i < j < |table| && Holds(table[i], p) && Holds(table[j], p)
    ensures Holders(table, p) >= 2
    decreases |table|
  {
    hide Holds;
    var n := |table| - 1;
    if j < n {
      TwoHolders(table[..n], i, j, p);
    } else {
      assert table[..n][i] == table[i];
      HeldIffCovered(table[..n], p);
    }
  }

  lemma Snoc(table: seq<Entry>, e: Entry, p: nat)
    ensures Holders(table + [e], p) == Holders(table, p) + (if Holds(e, p) then 1 else 0)
    ensures Total(table + [e]) == Total(table) + e.blocks
  {
    assert (table + [e])[..|table|] == table;
  }

  function Initial(): Heap { Heap(seq(BITMAP_SIZE, _ => 0), MAX_BLOCKS, 1, []) }

  lemma InitialFree(p: nat)
    requires p < MAX_BLOCKS
    ensures !Test(Initial().bits, p)
  {
    assert p / 8 < BITMAP_SIZE;
    assert 0 & Mask(p % 8) == 0;
  }

  lemma InitialInv()
    ensures Inv(Initial(), [])
  {
    var h := Initial();
    forall p: nat | p < MAX_BLOCKS ensures !Test(h.bits, p) {
      InitialFree(p);
    }
    hide Test;
    AllFree(h.bits, MAX_BLOCKS);
  }

  lemma {:induction false} AllFree(b: Bits, hi: nat)
    requires forall p: nat :: p < hi ==> !Test(b, p)
    ensures FreeIn(b, 0, hi) == hi
  {
    hide Test;
    if hi > 0 { AllFree(b, hi - 1); }
  }

  // ---- Allocation -------------------------------------------------------------------

  // The blob that an allocation makes, if there is room.
  function NewBlob(h: Heap, size: Word): Entry {
    Entry(h.next % 0x1_0000, FindFree(h.bits, BlocksFor(size)), BlocksFor(size))
  }

  // A blob that finds room and a full table is lost.
  function Lost(h: Heap, lost: seq<Entry>, size: Word): seq<Entry> {
    if FindFree(h.bits, BlocksFor(size)) < MAX_BLOCKS && |h.table| >= MAX_BLOBS then lost + [NewBlob(h, size)] else lost
  }

  /**
   * heap_alloc: it refuses exactly if there is no free run of that length, and otherwise
   * takes the leftmost; whatever its size and id, the account stays right.
   */
  lemma AllocKeeps(h: Heap, lost: seq<Entry>, size: Word)
    requires Inv(h, lost)
    ensures var n := if BlocksFor(size) == 0 then 1 else BlocksFor(size);
      var s := FindFree(h.bits, BlocksFor(size));
      (s == MAX_BLOCKS <==> forall t: nat :: t + n <= MAX_BLOCKS ==> !RunAt(h.bits, t, n))
      && (s < MAX_BLOCKS ==> s + n <= MAX_BLOCKS && RunAt(h.bits, s, n) && forall t: nat :: t < s ==> !RunAt(h.bits, t, n))
      && (s >= MAX_BLOCKS ==> Alloc(h, size) == Allocated(h, 0))
    ensures Inv(Alloc(h, size).h, Lost(h, lost, size))
  {
    hide Test, FreeIn, RunAt, FirstRun, BlocksFor, Holders, Total, InHeap;
    var n := if BlocksFor(size) == 0 then 1 else BlocksFor(size);
    var s := FindFree(h.bits, BlocksFor(size));
    FirstRunIsLeftmost(h.bits, 0, MAX_BLOCKS, n);
    if s < MAX_BLOCKS {
      RunPrefix(h.bits, s, n, BlocksFor(size));
      AllocTaken(h, lost, NewBlob(h, size), Alloc(h, size).h, Lost(h, lost, size));
    }
  }

  lemma RunPrefix(b: Bits, s: nat, n: nat, m: nat)
    requires RunAt(b, s, n) && m <= n
    ensures RunAt(b, s, m)
  {
    hide Test;
  }

  lemma AllocTaken(h: Heap, lost: seq<Entry>, e: Entry, r: Heap, more: seq<Entry>)
    requires Inv(h, lost) && e.start + e.blocks <= MAX_BLOCKS && RunAt(h.bits, e.start, e.blocks)
    requires r.bits == SetRange(h.bits, e.start, e.blocks) && r.free == Wrap(h.free - e.blocks)
    requires if |h.table| < MAX_BLOBS then r.table == h.table + [e] && more == lost else r.table == h.table && more == lost + [e]
    ensures Inv(r, more)
  {
    hide Test, FreeIn, Total, Holders, Wrap, RunAt;
    FreeInSetRange(h.bits, 0, MAX_BLOCKS, e.start, e.blocks);
    Snoc(h.table, e, 0);
    Snoc(lost, e, 0);
    WrapSmall(h.free - e.blocks);
    forall p: nat | p < MAX_BLOCKS ensures Holders(r.table, p) + Holders(more, p) == Bit(r.bits, p) {
      TestSetRange(h.bits, e.start, e.blocks, p);
      Snoc(h.table, e, p);
      Snoc(lost, e, p);
      RunClear(h.bits, e, p);
    }
  }

  lemma RunClear(b: Bits, e: Entry, p: nat)
    requires RunAt(b, e.start, e.blocks)
    ensures Holds(e, p) ==> !Test(b, p)
  {
  }

  // Nothing is lost exactly if the table has a slot, or the blob has no block to lose.
  lemma NothingLostIff(h: Heap, size: Word)
    requires Inv(h, []) && FindFree(h.bits, BlocksFor(size)) < MAX_BLOCKS
    ensures Inv(Alloc(h, size).h, []) <==> |h.table| < MAX_BLOBS || BlocksFor(size) == 0
  {
    hide Test, FreeIn, RunAt, FirstRun, BlocksFor, Holders, Total, Alloc, FindFree;
    AllocKeeps(h, [], size);
    if |h.table| >= MAX_BLOBS {
      var e, r := NewBlob(h, size), Alloc(h, size).h;
      TotalOfOne(e);
      assert Lost(h, [], size) == [e];
      if e.blocks == 0 { TakesNothing(h, size); }
    }
  }

  lemma TotalOfOne(e: Entry)
    ensures Total([]) == 0 && Total([e]) == e.blocks && [] + [e] == [e]
  {
    assert [e][..0] == [];
  }

  lemma TakesNothing(h: Heap, size: Word)
    requires |h.table| >= MAX_BLOBS && BlocksFor(size) == 0
    ensures var r := Alloc(h, size).h;
      r.bits == h.bits && r.table == h.table && r.free == h.free
  {
    hide FirstRun, BlocksFor;
    SetNothing(h.bits, FindFree(h.bits, 0));
    WrapSmall(h.free);
  }

  lemma SetNothing(b: Bits, s: nat) ensures SetRange(b, s, 0) == b { }

  // ---- Headers ---------------------------------------------------------------------------

  // What heap_alloc writes at the start of the blob's first block.
  datatype Header = Header(id: nat, kind: nat, size: Word, offset: nat)

  type Headers = map<nat, Header>

  function WriteHeader(h: Heap, heads: Headers, size: Word, kind: nat): Headers {
    var e := NewBlob(h, size);
    if e.start < MAX_BLOCKS then heads[e.start := Header(e.id, kind, size, e.start * BLOCK + HEADER)] else heads
  }

  // The blob a header describes.
  function EntryAt(heads: Headers, p: nat): Entry
    requires p in heads
  {
    Entry(heads[p].id, p, BlocksFor(heads[p].size))
  }

  // Every one of these blobs that has a block is described by the header there.
  predicate HeadersRight(table: seq<Entry>, heads: Headers) {
    forall i :: 0 <= i < |table| && table[i].blocks > 0 ==> table[i].start in heads && EntryAt(heads, table[i].start) == table[i]
  }

  // The first block of a new blob is nobody's.
  lemma NewStartsFree(h: Heap, lost: seq<Entry>, size: Word)
    requires Inv(h, lost)
    ensures var s := FindFree(h.bits, BlocksFor(size));
      s < MAX_BLOCKS ==>
        (forall i :: 0 <= i < |h.table| && h.table[i].blocks > 0 ==> h.table[i].start != s)
        && (forall i :: 0 <= i < |lost| && lost[i].blocks > 0 ==> lost[i].start != s)
  {
    hide Test, FreeIn, Total, Holders, FirstRun, BlocksFor, RunAt, SetRange;
    AllocKeeps(h, lost, size);
    var s := FindFree(h.bits, BlocksFor(size));
    if s < MAX_BLOCKS {
      var n := if BlocksFor(size) == 0 then 1 else BlocksFor(size);
      RunPrefix(h.bits, s, n, 1);
      RunClear(h.bits, Entry(0, s, 1), s);
      HeldIffCovered(h.table, s);
      HeldIffCovered(lost, s);
      forall i | 0 <= i < |h.table| && h.table[i].blocks > 0 ensures h.table[i].start != s {
        assert !Holds(h.table[i], s);
      }
      forall i | 0 <= i < |lost| && lost[i].blocks > 0 ensures lost[i].start != s {
        assert !Holds(lost[i], s);
      }
    }
  }

  // A new header, even that of a blob without blocks, overwrites none of a known or lost blob.
  lemma AllocKeepsHeaders(h: Heap, lost: seq<Entry>, heads: Headers, size: Word, kind: nat)
    requires Inv(h, lost) && HeadersRight(h.table, heads) && HeadersRight(lost, heads)
    ensures HeadersRight(Alloc(h, size).h.table, WriteHeader(h, heads, size, kind))
    ensures HeadersRight(Lost(h, lost, size), WriteHeader(h, heads, size, kind))
  {
    NewStartsFree(h, lost, size);
    hide Inv, BlocksFor, FindFree, SetRange;
  }

  lemma FreeKeepsHeaders(h: Heap, heads: Headers, id: nat)
    requires HeadersRight(h.table, heads)
    ensures HeadersRight(Free(h, id).table, heads)
  {
    hide EntryAt, ClearRange;
    var k := IndexOf(h.table, id);
    if id != 0 && k < |h.table| { SwapRemoveKeepsOthers(h.table, k); }
  }

  // ---- Looking up ------------------------------------------------------------------------

  // The table entry says where, and the header there still says so.
  predicate Stands(e: Entry, heads: Headers, id: nat) {
    e.id == id && e.start in heads && heads[e.start].id == id
  }

  // The first loop of heap_get_blob.
  function CacheHit(table: seq<Entry>, heads: Headers, id: nat): (r: Option<nat>)
    ensures r.Some? ==> exists i :: 0 <= i < |table| && Stands(table[i], heads, id) && table[i].start == r.value
    ensures r.None? ==> forall i :: 0 <= i < |table| ==> !Stands(table[i], heads, id)
  {
    if table == [] then None
    else if Stands(table[0], heads, id) then Some(table[0].start)
    else CacheHit(table[1..], heads, id)
  }

  // Its second loop: from block p on, jumping by the sizes the headers give.
  function Scan(heads: Headers, id: nat, p: nat): (r: Option<nat>)
    ensures r.Some? ==> p <= r.value < MAX_BLOCKS && r.value in heads && heads[r.value].id == id
    decreases MAX_BLOCKS - p
  {
    if p >= MAX_BLOCKS then None
    else if p !in heads then Scan(heads, id, p + 1)
    else if heads[p].id == id then Some(p)
    else Scan(heads, id, p + Step(heads[p].size))
  }

  function Step(size: Word): (n: nat)
    ensures n >= 1
  {
    if BlocksFor(size) > 1 then BlocksFor(size) else 1
  }

  // heap_get_blob: the block whose header it answers with, if any.
  function Found(h: Heap, heads: Headers, id: nat): Option<nat> {
    if id == 0 then None
    else match CacheHit(h.table, heads, id)
      case Some(p) => Some(p)
      case None => Scan(heads, id, 0)
  }

  // The table entry it adds, if any.
  function Recorded(h: Heap, heads: Headers, id: nat): (r: Option<Entry>)
    ensures r.Some? ==> r.value.id == id && r.value.start in heads && EntryAt(heads, r.value.start) == r.value
    ensures r.Some? ==> |h.table| < MAX_BLOBS && r.value !in h.table
  {
    if id == 0 || |h.table| >= MAX_BLOBS || CacheHit(h.table, heads, id).Some? then None
    else match Scan(heads, id, 0)
      case None => None
      case Some(p) => Some(EntryAt(heads, p))
  }

  function LookUp(h: Heap, heads: Headers, id: nat): Heap {
    match Recorded(h, heads, id)
    case None => h
    case Some(e) => h.(table := h.table + [e])
  }

  // A known blob is found where it lies, and nothing changes.
  lemma KnownIsFound(h: Heap, heads: Headers, e: Entry)
    requires HeadersRight(h.table, heads) && Addressable(h.table) && e in h.table && e.blocks > 0
    ensures Found(h, heads, e.id) == Some(e.start) && LookUp(h, heads, e.id) == h
  {
    var k :| 0 <= k < |h.table| && h.table[k] == e;
    assert Stands(h.table[k], heads, e.id);
  }

  // ---- Ids -----------------------------------------------------------------------------

  // heap_free can reach every blob of the table, and only the one meant.
  predicate Addressable(table: seq<Entry>) {
    (forall i :: 0 <= i < |table| ==> table[i].id != 0)
    && (forall i, j :: 0 <= i < j < |table| ==> table[i].id != table[j].id)
  }

  // The 16-bit id keeps blobs addressable exactly if it is neither 0 nor in use.
  lemma AddressableIff(h: Heap, size: Word)
    requires Addressable(h.table) && |h.table| < MAX_BLOBS && FindFree(h.bits, BlocksFor(size)) < MAX_BLOCKS
    ensures var id := h.next % 0x1_0000;
      Addressable(Alloc(h, size).h.table) <==> id != 0 && IndexOf(h.table, id) == |h.table|
  {
    hide FirstRun, BlocksFor, SetRange;
    var r := Alloc(h, size).h;
    assert forall i :: 0 <= i < |h.table| ==> r.table[i] == h.table[i];
    assert r.table[|h.table|] == NewBlob(h, size);
    var k := IndexOf(h.table, h.next % 0x1_0000);
    assert k < |h.table| ==> r.table[k].id == r.table[|h.table|].id;
  }

  // ---- Freeing ------------------------------------------------------------------------

  // Swap-with-last loses no other entry: exactly the removed one is missing.
  lemma SwapRemoveKeepsOthers(table: seq<Entry>, k: nat)
    requires k < |table|
    ensures multiset(table) == multiset(SwapRemove(table, k)) + multiset{table[k]}
    ensures forall i :: 0 <= i < |table| - 1 ==> SwapRemove(table, k)[i] == if i == k then table[|table| - 1] else table[i]
  {
    var n := |table| - 1;
    if k < n {
      Parts(table, k);
    } else {
      assert SwapRemove(table, k) == table[..n];
      assert table == table[..n] + [table[n]];
    }
  }

  lemma Parts(table: seq<Entry>, k: nat)
    requires k < |table| - 1
    ensures multiset(table) == multiset(SwapRemove(table, k)) + multiset{table[k]}
  {
    var n := |table| - 1;
    var a, b := table[..k], table[k + 1..n];
    assert table == a + [table[k]] + b + [table[n]];
    assert SwapRemove(table, k) == a + [table[n]] + b;
    hide SwapRemove;
    ThreeParts(a, b, table[k], table[n]);
  }

  lemma ThreeParts(a: seq<Entry>, b: seq<Entry>, d: Entry, e: Entry)
    ensures multiset(a + [d] + b + [e]) == multiset(a + [e] + b) + multiset{d}
  {
  }

  lemma Removed(table: seq<Entry>, k: nat, p: nat)
    requires k < |table|
    ensures Total(table) == Total(SwapRemove(table, k)) + table[k].blocks
    ensures Holders(table, p) == Holders(SwapRemove(table, k), p) + (if Holds(table[k], p) then 1 else 0)
  {
    hide Holds;
    var n := |table| - 1;
    if k < n {
      Updated(table[..n], k, table[n], p);
      assert table[k := table[n]][..n] == table[..n][k := table[n]];
    } else {
      assert table[k := table[n]][..n] == table[..n];
    }
  }

  lemma {:induction false} Updated(table: seq<Entry>, k: nat, e: Entry, p: nat)
    requires k < |table|
    ensures Total(table[k := e]) + table[k].blocks == Total(table) + e.blocks
    ensures Holders(table[k := e], p) + (if Holds(table[k], p) then 1 else 0) == Holders(table, p) + (if Holds(e, p) then 1 else 0)
    decreases |table|
  {
    hide Holds;
    var n := |table| - 1;
    if k < n {
      Updated(table[..n], k, e, p);
      assert table[k := e][..n] == table[..n][k := e];
    } else {
      assert table[k := e][..n] == table[..n];
    }
  }

  // heap_free keeps the account, frees exactly the blob's blocks and touches no other blob.
  lemma FreeKeeps(h: Heap, lost: seq<Entry>, id: nat)
    requires Inv(h, lost)
    ensures Inv(Free(h, id), lost)
    ensures id != 0 && IndexOf(h.table, id) < |h.table| ==>
      var e := h.table[IndexOf(h.table, id)];
      multiset(h.table) == multiset(Free(h, id).table) + multiset{e}
      && forall p: nat :: p < MAX_BLOCKS ==> (Test(Free(h, id).bits, p) <==> Test(h.bits, p) && !Holds(e, p))
  {
    hide Test, FreeIn, Total, Holders, Wrap;
    var k := IndexOf(h.table, id);
    if id != 0 && k < |h.table| {
      var e, r := h.table[k], Free(h, id);
      SwapRemoveKeepsOthers(h.table, k);
      forall p: nat | p < MAX_BLOCKS
        ensures Test(r.bits, p) <==> Test(h.bits, p) && !Holds(e, p)
        ensures Holders(r.table, p) + Holders(lost, p) == Bit(r.bits, p)
      {
        TestClearRange(h.bits, e.start, e.blocks, p);
        Removed(h.table, k, p);
      }
      Removed(h.table, k, 0);
      forall p: nat | e.start <= p < e.start + e.blocks ensures Test(h.bits, p) { Removed(h.table, k, p); }
      FreedCountRange(h.bits, e.start, e.blocks);
      WrapSmall(h.free + e.blocks);
    }
  }

  // Clearing a fully set range adds its length to the count.
  lemma {:induction false} FreedCountRange(b: Bits, s: nat, n: nat)
    requires s + n <= MAX_BLOCKS && |b| == BITMAP_SIZE && forall p: nat :: s <= p < s + n ==> Test(b, p)
    ensures FreeIn(ClearRange(b, s, n), 0, MAX_BLOCKS) == FreeIn(b, 0, MAX_BLOCKS) + n
  {
    hide Test, FreeIn, Clear;
    if n > 0 {
      FreedCountRange(b, s, n - 1);
      TestClearRange(b, s, n - 1, s + n - 1);
      FreeInClear(ClearRange(b, s, n - 1), 0, MAX_BLOCKS, s + n - 1);
    }
  }

  // Freeing right after allocating restores bitmap, counter and table; only the id counter moved on.
  lemma FreeUndoesAlloc(h: Heap, lost: seq<Entry>, size: Word)
    requires Inv(h, lost) && |h.table| < MAX_BLOBS && FindFree(h.bits, BlocksFor(size)) < MAX_BLOCKS
    requires h.next % 0x1_0000 != 0 && IndexOf(h.table, h.next % 0x1_0000) == |h.table|
    ensures Free(Alloc(h, size).h, h.next % 0x1_0000) == h.(next := Alloc(h, size).h.next)
  {
    hide Test, FreeIn, RunAt, FirstRun, BlocksFor, Total, Holders, Wrap, SetRange, ClearRange, Bit, InHeap;
    var r, e := Alloc(h, size).h, NewBlob(h, size);
    AllocKeeps(h, lost, size);
    RunPrefix(h.bits, e.start, if e.blocks == 0 then 1 else e.blocks, e.blocks);
    ClearUndoesSet(h.bits, e.start, e.blocks);
    FreeInSetRange(h.bits, 0, MAX_BLOCKS, e.start, e.blocks);
    WrapSmall(h.free - e.blocks);
    WrapSmall(h.free);
    LastIndex(h.table, e);
    hide IndexOf, FindFree;
    assert SwapRemove(h.table + [e], |h.table|) == h.table;
  }

  lemma LastIndex(table: seq<Entry>, e: Entry)
    requires IndexOf(table, e.id) == |table|
    ensures IndexOf(table + [e], e.id) == |table|
  {
    var all := table + [e];
    assert forall i :: 0 <= i < |table| ==> all[i] == table[i];
    assert all[|table|] == e;
  }

  lemma ClearUndoesSet(b: Bits, s: nat, n: nat)
    requires |b| == BITMAP_SIZE && s + n <= MAX_BLOCKS && RunAt(b, s, n)
    ensures ClearRange(SetRange(b, s, n), s, n) == b
  {
    hide Test, Set, Clear;
    var c := ClearRange(SetRange(b, s, n), s, n);
    forall p: nat ensures Test(c, p) <==> Test(b, p) {
      TestClearRange(SetRange(b, s, n), s, n, p);
      TestSetRange(b, s, n, p);
    }
    SameBits(c, b);
  }

  // ---- Runs ---------------------------------------------------------------------------------

  datatype Request = Get(size: Word, kind: nat) | Put(id: nat) | Look(id: nat)

  /**
   * The heap, the headers in its data region, and what no variable of the code says: the blobs
   * lost, those freed at some time, and the blocks recorded again after they were freed.
   */
  datatype World = World(h: Heap, heads: Headers, lost: seq<Entry>, freed: set<Entry>, stale: nat)

  // One occurrence of e less.
  function Without(es: seq<Entry>, e: Entry): seq<Entry> {
    if es == [] then [] else if es[|es| - 1] == e then es[..|es| - 1] else Without(es[..|es| - 1], e) + [es[|es| - 1]]
  }

  function Given(h: Heap, id: nat): set<Entry> {
    var k := IndexOf(h.table, id);
    if id == 0 || k == |h.table| then {} else {h.table[k]}
  }

  function Serve(w: World, q: Request): World {
    match q
    case Get(size, kind) =>
      w.(h := Alloc(w.h, size).h, heads := WriteHeader(w.h, w.heads, size, kind), lost := Lost(w.h, w.lost, size))
    case Put(id) => w.(h := Free(w.h, id), freed := w.freed + Given(w.h, id))
    case Look(id) =>
      match Recorded(w.h, w.heads, id)
      case None => w
      case Some(e) =>
        w.(h := LookUp(w.h, w.heads, id), lost := Without(w.lost, e), stale := w.stale + (if e in w.lost then 0 else e.blocks))
  }

  function ServeAll(w: World, qs: seq<Request>): World {
    if qs == [] then w else Serve(ServeAll(w, qs[..|qs| - 1]), qs[|qs| - 1])
  }

  lemma ServeMore(w: World, qs: seq<Request>, more: seq<Request>)
    ensures ServeAll(w, qs + more) == ServeAll(ServeAll(w, qs), more)
    decreases |more|
  {
    hide Serve;
    if more == [] {
      assert qs + more == qs;
    } else {
      ServeMore(w, qs, more[..|more| - 1]);
      assert (qs + more)[..|qs + more| - 1] == qs + more[..|more| - 1];
    }
  }

  function Start(): World { World(Initial(), map[], [], {}, 0) }

  // ---- What a lookup does ---------------------------------------------------------------------

  // A lookup that takes the header of a freed blob for that of a live one.
  predicate TakesFreed(w: World, q: Request) {
    q.Look? && Recorded(w.h, w.heads, q.id).Some?
    && Recorded(w.h, w.heads, q.id).value.blocks > 0 && Recorded(w.h, w.heads, q.id).value !in w.lost
  }

  lemma {:induction false} WithoutOne(es: seq<Entry>, e: Entry, p: nat)
    ensures if e in es then Total(es) == Total(Without(es, e)) + e.blocks else Without(es, e) == es
    ensures e in es ==> Holders(es, p) == Holders(Without(es, e), p) + (if Holds(e, p) then 1 else 0)
    ensures forall d :: d in Without(es, e) ==> d in es
    ensures forall d :: d in es && d != e ==> d in Without(es, e)
    ensures |Without(es, e)| <= |es|
    decreases |es|
  {
    hide Holds;
    if es != [] {
      var front, last := es[..|es| - 1], es[|es| - 1];
      assert es == front + [last];
      if last != e {
        WithoutOne(front, e, p);
        Snoc(Without(front, e), last, p);
      }
    }
  }

  lemma InHeapIn(es: seq<Entry>, ds: seq<Entry>)
    requires InHeap(es) && forall d :: d in ds ==> d in es
    ensures InHeap(ds)
  {
    forall i | 0 <= i < |ds| ensures ds[i].start + ds[i].blocks <= MAX_BLOCKS {
      assert ds[i] in es;
    }
  }

  /**
   * The account survives a lookup if and only if the header it records is not that of a freed
   * blob: it records nothing, a lost blob, or a blob without blocks.
   */
  lemma LookKeepsIff(w: World, id: nat)
    requires Inv(w.h, w.lost)
    requires Recorded(w.h, w.heads, id).Some? ==> var e := Recorded(w.h, w.heads, id).value; e.start + e.blocks <= MAX_BLOCKS
    ensures var v := Serve(w, Look(id));
      Inv(v.h, v.lost) <==> !TakesFreed(w, Look(id))
  {
    hide Test, FreeIn, Total, Holders, Recorded;
    if Recorded(w.h, w.heads, id).Some? {
      var e := Recorded(w.h, w.heads, id).value;
      WithoutOne(w.lost, e, 0);
      Snoc(w.h.table, e, 0);
      if e.blocks == 0 || e in w.lost {
        InHeapIn(w.lost, Without(w.lost, e));
        forall p: nat | p < MAX_BLOCKS
          ensures Holders(w.h.table + [e], p) + Holders(Without(w.lost, e), p) == Bit(w.h.bits, p)
        {
          WithoutOne(w.lost, e, p);
          Snoc(w.h.table, e, p);
        }
      }
    }
  }

  // Every header was written for a blob that is known, lost or freed, and describes it.
  predicate Genuine(w: World) {
    && (forall p :: p in w.heads ==> p + BlocksFor(w.heads[p].size) <= MAX_BLOCKS && p < MAX_BLOCKS)
    && Described(w.heads, w.h.table, w.lost, w.freed)
  }

  lemma GetGenuine(w: World, size: Word, kind: nat)
    requires Genuine(w)
    ensures Genuine(Serve(w, Get(size, kind)))
  {
    hide FirstRun, BlocksFor, SetRange, RunAt;
    var s := FindFree(w.h.bits, BlocksFor(size));
    var n := if BlocksFor(size) == 0 then 1 else BlocksFor(size);
    FirstRunIsLeftmost(w.h.bits, 0, MAX_BLOCKS, n);
    var v := Serve(w, Get(size, kind));
    if s < MAX_BLOCKS {
      assert EntryAt(v.heads, s) == NewBlob(w.h, size);
      assert NewBlob(w.h, size) in v.h.table || NewBlob(w.h, size) in v.lost;
    }
  }

  lemma PutGenuine(w: World, id: nat)
    requires Genuine(w)
    ensures Genuine(Serve(w, Put(id)))
  {
    hide EntryAt, BlocksFor, ClearRange, SwapRemove;
    var k := IndexOf(w.h.table, id);
    if id != 0 && k < |w.h.table| {
      forall e | e in w.h.table && e != w.h.table[k] ensures e in SwapRemove(w.h.table, k) {
        RemovesOther(w.h.table, k, e);
      }
    }
  }

  lemma LookGenuine(w: World, id: nat)
    requires Genuine(w)
    ensures Genuine(Serve(w, Look(id)))
  {
    hide EntryAt, BlocksFor, Recorded, Without;
    if Recorded(w.h, w.heads, id).Some? {
      var v, e := Serve(w, Look(id)), Recorded(w.h, w.heads, id).value;
      WithoutOne(w.lost, e, 0);
      MoreKnown(w.heads, w.h.table, w.lost, w.freed, e, v.lost);
    }
  }

  predicate Described(heads: Headers, table: seq<Entry>, lost: seq<Entry>, freed: set<Entry>) {
    forall p :: p in heads ==> EntryAt(heads, p) in table || EntryAt(heads, p) in lost || EntryAt(heads, p) in freed
  }

  lemma MoreKnown(heads: Headers, table: seq<Entry>, lost: seq<Entry>, freed: set<Entry>, e: Entry, left: seq<Entry>)
    requires Described(heads, table, lost, freed) && forall d :: d in lost && d != e ==> d in left
    ensures Described(heads, table + [e], left, freed)
  {
    hide EntryAt;
  }

  lemma {:induction false} RunGenuine(w: World, qs: seq<Request>)
    requires Genuine(w)
    ensures Genuine(ServeAll(w, qs))
    decreases |qs|
  {
    hide Genuine, Serve;
    if qs != [] {
      var v := ServeAll(w, qs[..|qs| - 1]);
      RunGenuine(w, qs[..|qs| - 1]);
      match qs[|qs| - 1]
      case Get(size, kind) => GetGenuine(v, size, kind);
      case Put(id) => PutGenuine(v, id);
      case Look(id) => LookGenuine(v, id);
    }
  }

  // Where a lookup spoils the account, the blob whose header it recorded has been freed before.
  lemma TakenWasFreed(w: World, q: Request)
    requires Genuine(w) && TakesFreed(w, q)
    ensures Recorded(w.h, w.heads, q.id).value in w.freed
  {
    hide Scan, CacheHit;
  }

  // ---- Every run --------------------------------------------------------------------------------

  lemma StepKeepsIff(w: World, q: Request)
    requires Inv(w.h, w.lost) && Genuine(w)
    ensures Inv(Serve(w, q).h, Serve(w, q).lost) <==> !TakesFreed(w, q)
  {
    hide Inv, Alloc, Free, Lost, LookUp, TakesFreed, Recorded;
    match q
    case Get(size, kind) =>
      AllocKeeps(w.h, w.lost, size);
      assert !TakesFreed(w, q) by { NotALookup(w, q); }
    case Put(id) =>
      FreeKeeps(w.h, w.lost, id);
      assert !TakesFreed(w, q) by { NotALookup(w, q); }
    case Look(id) =>
      LookKeepsIff(w, id);
  }

  lemma NotALookup(w: World, q: Request)
    requires !q.Look?
    ensures !TakesFreed(w, q)
  {
  }

  // Nowhere on the way has a lookup taken a freed blob for a live one.
  ghost predicate NoneTaken(w: World, qs: seq<Request>) {
    forall k :: 0 <= k < |qs| ==> !TakesFreed(ServeAll(w, qs[..k]), qs[k])
  }

  ghost predicate AlwaysInv(w: World, qs: seq<Request>) {
    forall k :: 0 <= k <= |qs| ==> Inv(ServeAll(w, qs[..k]).h, ServeAll(w, qs[..k]).lost)
  }

  lemma {:induction false} RunKeepsIff(w: World, qs: seq<Request>)
    requires Inv(w.h, w.lost) && Genuine(w)
    ensures AlwaysInv(w, qs) <==> NoneTaken(w, qs)
    decreases |qs|
  {
    hide Inv, Serve, TakesFreed, Genuine;
    if qs == [] {
      assert qs[..0] == [];
    } else {
      var front := qs[..|qs| - 1];
      RunKeepsIff(w, front);
      RunGenuine(w, front);
      assert qs[..|qs|] == qs;
      assert forall k :: 0 <= k <= |front| ==> front[..k] == qs[..k];
      if AlwaysInv(w, front) {
        assert front[..|front|] == front;
        StepKeepsIff(ServeAll(w, front), qs[|qs| - 1]);
      }
    }
  }

  lemma StartInv()
    ensures Inv(Start().h, Start().lost) && Genuine(Start())
  {
    InitialInv();
  }

  /**
   * Main theorem: all through a run of allocations, frees and lookups from an empty heap the
   * account is right if and only if no lookup records the header of a freed blob.
   */
  lemma EveryRunKeepsIff(qs: seq<Request>)
    ensures AlwaysInv(Start(), qs) <==> NoneTaken(Start(), qs)
    ensures forall k :: 0 <= k < |qs| && TakesFreed(ServeAll(Start(), qs[..k]), qs[k]) ==>
      var w := ServeAll(Start(), qs[..k]);
      Recorded(w.h, w.heads, qs[k].id).value in w.freed
  {
    hide Start, Inv, Serve, Genuine;
    StartInv();
    RunKeepsIff(Start(), qs);
    forall k | 0 <= k < |qs| && TakesFreed(ServeAll(Start(), qs[..k]), qs[k])
      ensures var w := ServeAll(Start(), qs[..k]); Recorded(w.h, w.heads, qs[k].id).value in w.freed
    {
      RunGenuine(Start(), qs[..k]);
      TakenWasFreed(ServeAll(Start(), qs[..k]), qs[k]);
    }
  }

  /**
   * What that means: blobs occupy disjoint blocks, a bit is set exactly under a blob,
   * free_blocks counts the clear bits, and free, known and lost blocks add up to the heap.
   */
  lemma EveryRunKeeps(qs: seq<Request>)
    requires NoneTaken(Start(), qs)
    ensures var w := ServeAll(Start(), qs);
      Inv(w.h, w.lost)
      && (forall i, j :: 0 <= i < j < |w.h.table| ==> Disjoint(w.h.table[i], w.h.table[j]))
      && (forall i, j :: 0 <= i < |w.h.table| && 0 <= j < |w.lost| ==> Disjoint(w.h.table[i], w.lost[j]))
      && (forall p: nat :: p < MAX_BLOCKS ==> (Test(w.h.bits, p) <==> Covered(w.h.table, p) || Covered(w.lost, p)))
      && w.h.free == FreeIn(w.h.bits, 0, MAX_BLOCKS)
      && w.h.free + Total(w.h.table) + Total(w.lost) == MAX_BLOCKS
  {
    hide Start, Serve, NoneTaken, TakesFreed, Test, Disjoint, Covered, FreeIn, Total;
    EveryRunKeepsIff(qs);
    assert qs[..|qs|] == qs;
    DisjointAndCovered(ServeAll(Start(), qs).h, ServeAll(Start(), qs).lost);
  }

  // Allocating and freeing alone never spoil it.
  lemma {:induction false} RunKeeps(w: World, qs: seq<Request>)
    requires Inv(w.h, w.lost) && forall k :: 0 <= k < |qs| ==> !qs[k].Look?
    ensures Inv(ServeAll(w, qs).h, ServeAll(w, qs).lost)
    decreases |qs|
  {
    hide Inv, Alloc, Free, Lost;
    if qs != [] {
      var v := ServeAll(w, qs[..|qs| - 1]);
      RunKeeps(w, qs[..|qs| - 1]);
      match qs[|qs| - 1]
      case Get(size, kind) => AllocKeeps(v.h, v.lost, size);
      case Put(id) => FreeKeeps(v.h, v.lost, id);
    }
  }

  // Blocks as the counters see them: what is free and what is held, in 32 bits.
  function Balance(w: World): Word { Wrap(w.h.free + Total(w.h.table) + Total(w.lost)) }

  lemma GetBalances(w: World, size: Word, kind: nat)
    ensures Balance(Serve(w, Get(size, kind))) == Balance(w)
  {
    hide Total, Wrap, FirstRun, BlocksFor, SetRange;
    var e := NewBlob(w.h, size);
    FirstRunIsLeftmost(w.h.bits, 0, MAX_BLOCKS, if e.blocks == 0 then 1 else e.blocks);
    if e.start < MAX_BLOCKS {
      TakenBalances(w.h.free, w.h.table, w.lost, e);
    }
  }

  lemma TakenBalances(free: Word, table: seq<Entry>, lost: seq<Entry>, e: Entry)
    ensures Wrap(Wrap(free - e.blocks) + Total(table + [e]) + Total(lost)) == Wrap(free + Total(table) + Total(lost))
    ensures Wrap(Wrap(free - e.blocks) + Total(table) + Total(lost + [e])) == Wrap(free + Total(table) + Total(lost))
  {
    hide *;
    Snoc(table, e, 0);
    Snoc(lost, e, 0);
    WrapParts(free, e.blocks, Total(table), Total(table + [e]), Total(lost), Total(lost + [e]));
  }

  lemma PutBalances(w: World, id: nat)
    ensures Balance(Serve(w, Put(id))) == Balance(w)
  {
    hide Total, Wrap, Holders, Holds, ClearRange, SwapRemove;
    var k := IndexOf(w.h.table, id);
    if id != 0 && k < |w.h.table| {
      Removed(w.h.table, k, 0);
      WrapGiven(w.h.free, w.h.table[k].blocks, Total(w.h.table), Total(SwapRemove(w.h.table, k)), Total(w.lost));
    }
  }

  lemma LookBalances(w: World, id: nat)
    ensures Balance(Serve(w, Look(id))) == Wrap(Balance(w) + (Serve(w, Look(id)).stale - w.stale))
  {
    hide Total, Wrap, Recorded;
    var d := Serve(w, Look(id)).stale - w.stale;
    WrapMore(w.h.free + Total(w.h.table) + Total(w.lost), d);
    if Recorded(w.h, w.heads, id).Some? {
      var e := Recorded(w.h, w.heads, id).value;
      Snoc(w.h.table, e, 0);
      WithoutOne(w.lost, e, 0);
      assert Total(w.h.table + [e]) + Total(Without(w.lost, e)) == Total(w.h.table) + Total(w.lost) + d;
    }
  }

  lemma OnlyLooksRecord(w: World, q: Request)
    ensures Serve(w, q).stale >= w.stale && (!q.Look? ==> Serve(w, q).stale == w.stale)
  {
    hide Recorded, Alloc, Free, LookUp;
  }

  lemma StepBalances(w: World, q: Request)
    requires Balance(w) == Wrap(MAX_BLOCKS + w.stale)
    ensures Balance(Serve(w, q)) == Wrap(MAX_BLOCKS + Serve(w, q).stale)
  {
    OnlyLooksRecord(w, q);
    hide Serve, Balance, Wrap;
    match q
    case Get(size, kind) => GetBalances(w, size, kind);
    case Put(id) => PutBalances(w, id);
    case Look(id) =>
      LookBalances(w, id);
      WrapMore(MAX_BLOCKS + w.stale, Serve(w, q).stale - w.stale);
  }

  lemma WrapParts(free: int, n: int, a: int, a': int, b: int, b': int)
    requires a' == a + n && b' == b + n
    ensures Wrap(Wrap(free - n) + a' + b) == Wrap(free + a + b)
    ensures Wrap(Wrap(free - n) + a + b') == Wrap(free + a + b)
  {
  }

  lemma WrapGiven(free: int, n: int, a: int, a': int, b: int)
    requires a == a' + n
    ensures Wrap(Wrap(free + n) + a' + b) == Wrap(free + a + b)
  {
  }

  lemma WrapMore(a: int, n: int)
    ensures Wrap(a + n) == Wrap(Wrap(a) + n)
  {
  }

  /**
   * Whatever the lookups do: in every run the free counter and the blocks of known and lost
   * blobs exceed the heap by exactly the blocks of freed blobs recorded again (in 32 bits).
   */
  lemma {:induction false} EveryRunBalances(qs: seq<Request>)
    ensures Balance(ServeAll(Start(), qs)) == Wrap(MAX_BLOCKS + ServeAll(Start(), qs).stale)
    decreases |qs|
  {
    hide Balance, Serve, Wrap;
    if qs == [] {
      StartBalance();
    } else {
      EveryRunBalances(qs[..|qs| - 1]);
      StepBalances(ServeAll(Start(), qs[..|qs| - 1]), qs[|qs| - 1]);
    }
  }

  lemma StartBalance()
    ensures Balance(Start()) == Wrap(MAX_BLOCKS + Start().stale)
  {
    InitialTable();
  }

  // ---- Lost blobs, and how they come back -----------------------------------------------------

  // The account and all headers of blobs that hold a block are right.
  ghost predicate Sound(w: World) {
    Inv(w.h, w.lost) && HeadersRight(w.h.table, w.heads) && HeadersRight(w.lost, w.heads)
  }

  lemma SoundStep(w: World, q: Request)
    requires Sound(w) && Genuine(w) && !TakesFreed(w, q)
    ensures Sound(Serve(w, q))
  {
    hide Inv, Alloc, Free, Lost, TakesFreed, Recorded, EntryAt, WriteHeader, Genuine;
    StepKeepsIff(w, q);
    match q
    case Get(size, kind) => AllocKeepsHeaders(w.h, w.lost, w.heads, size, kind);
    case Put(id) => FreeKeepsHeaders(w.h, w.heads, id);
    case Look(id) =>
      if Recorded(w.h, w.heads, id).Some? {
        WithoutOne(w.lost, Recorded(w.h, w.heads, id).value, 0);
        HeadersIn(w.lost, Without(w.lost, Recorded(w.h, w.heads, id).value), w.heads);
      }
  }

  lemma HeadersIn(es: seq<Entry>, ds: seq<Entry>, heads: Headers)
    requires HeadersRight(es, heads) && forall d :: d in ds ==> d in es
    ensures HeadersRight(ds, heads)
  {
    hide EntryAt;
    forall i | 0 <= i < |ds| && ds[i].blocks > 0 ensures ds[i].start in heads && EntryAt(heads, ds[i].start) == ds[i] {
      assert ds[i] in es;
    }
  }

  lemma {:induction false} RunSound(w: World, qs: seq<Request>)
    requires Sound(w) && Genuine(w) && NoneTaken(w, qs)
    ensures Sound(ServeAll(w, qs))
    decreases |qs|
  {
    hide Sound, Genuine, Serve, TakesFreed;
    if qs != [] {
      var front := qs[..|qs| - 1];
      assert forall k :: 0 <= k <= |front| ==> front[..k] == qs[..k];
      RunSound(w, front);
      RunGenuine(w, front);
      assert front[..|front|] == front;
      SoundStep(ServeAll(w, front), qs[|qs| - 1]);
    }
  }

  lemma LostStands(w: World, e: Entry)
    requires Sound(w) && e in w.lost && e.blocks > 0
    ensures e.start in w.heads && EntryAt(w.heads, e.start) == e
    ensures e !in w.h.table
  {
    hide Inv, EntryAt;
    var j :| 0 <= j < |w.lost| && w.lost[j] == e;
    DisjointAndCovered(w.h, w.lost);
    assert Holds(e, e.start);
    forall i | 0 <= i < |w.h.table| ensures w.h.table[i] != e {
      assert Disjoint(w.h.table[i], w.lost[j]);
    }
  }

  /**
   * A lost blob becomes known exactly by a lookup of its id that misses the table and comes
   * to its header first, while the table has an entry left.
   */
  lemma LostIsFoundIff(w: World, q: Request, e: Entry)
    requires Sound(w) && e in w.lost && e.blocks > 0
    ensures e in Serve(w, q).h.table <==>
      q == Look(e.id) && e.id != 0 && |w.h.table| < MAX_BLOBS
      && CacheHit(w.h.table, w.heads, e.id).None? && Scan(w.heads, e.id, 0) == Some(e.start)
  {
    LostStands(w, e);
    hide Inv, CacheHit, Scan, FindFree, BlocksFor, SetRange, ClearRange, HeadersRight;
    match q
    case Get(size, kind) =>
      NewStartsFree(w.h, w.lost, size);
    case Put(id) =>
      var k := IndexOf(w.h.table, id);
      if id != 0 && k < |w.h.table| { SwapRemoveKeepsOthers(w.h.table, k); }
    case Look(id) =>
  }

  // Found so and then freed, it gives its blocks back.
  lemma FoundIsFreed(w: World, e: Entry)
    requires Sound(w) && e in w.lost && e.blocks > 0 && Recorded(w.h, w.heads, e.id) == Some(e)
    requires IndexOf(w.h.table, e.id) == |w.h.table|
    ensures var v := Serve(Serve(w, Look(e.id)), Put(e.id));
      && Inv(v.h, v.lost) && v.lost == Without(w.lost, e) && v.h.table == w.h.table
      && forall p: nat :: p < MAX_BLOCKS ==> (Test(v.h.bits, p) <==> Test(w.h.bits, p) && !Holds(e, p))
  {
    RoomOf(w, e);
    LookKeepsIff(w, e.id);
    hide Inv, Recorded, Test, FindFree, ClearRange, IndexOf, Without;
    var x := Serve(w, Look(e.id));
    assert x.h.table == w.h.table + [e];
    LastIndex(w.h.table, e);
    FreeKeeps(x.h, x.lost, e.id);
    assert SwapRemove(w.h.table + [e], |w.h.table|) == w.h.table;
  }

  lemma RoomOf(w: World, e: Entry)
    requires Inv(w.h, w.lost) && e in w.lost
    ensures e.start + e.blocks <= MAX_BLOCKS
  {
  }

  lemma LostByLook(v: World, q: Request, e: Entry)
    requires e in v.lost && e !in Serve(v, q).lost
    ensures q == Look(e.id) && Recorded(v.h, v.heads, e.id) == Some(e)
  {
    hide Alloc, Free, Recorded, LookUp, Without, Given, WriteHeader;
    if q.Look? && Recorded(v.h, v.heads, q.id).Some? {
      WithoutOne(v.lost, Recorded(v.h, v.heads, q.id).value, 0);
    }
  }

  // A blob that is lost no more has been found by a lookup on the way.
  lemma {:induction false} LostUntilFound(w: World, qs: seq<Request>, e: Entry) returns (k: nat)
    requires e in w.lost && e !in ServeAll(w, qs).lost
    ensures k < |qs| && qs[k] == Look(e.id)
    ensures var v := ServeAll(w, qs[..k]); Recorded(v.h, v.heads, e.id) == Some(e)
    decreases |qs|
  {
    hide Serve, Recorded;
    var front := qs[..|qs| - 1];
    var v := ServeAll(w, front);
    if e in v.lost {
      k := |front|;
      LostByLook(v, qs[k], e);
    } else {
      k := LostUntilFound(w, front, e);
      assert front[..k] == qs[..k];
    }
  }

  lemma LostIsMarked(w: World, e: Entry, p: nat)
    requires Inv(w.h, w.lost) && e in w.lost && Holds(e, p)
    ensures Test(w.h.bits, p)
  {
    hide Test, FreeIn, Total, Holders;
    HeldIffCovered(w.lost, p);
    var i :| 0 <= i < |w.lost| && w.lost[i] == e;
    assert Covered(w.lost, p);
  }

  // ---- What is never freed ------------------------------------------------------------------

  // A blob with id 0 stays in the table through every later run: no call frees it.
  lemma {:induction false} IdZeroStays(w: World, qs: seq<Request>, e: Entry)
    requires e in w.h.table && e.id == 0
    ensures e in ServeAll(w, qs).h.table
    decreases |qs|
  {
    hide Serve;
    if qs != [] {
      IdZeroStays(w, qs[..|qs| - 1], e);
      IdZeroKept(ServeAll(w, qs[..|qs| - 1]), qs[|qs| - 1], e);
    }
  }

  lemma IdZeroKept(w: World, q: Request, e: Entry)
    requires e in w.h.table && e.id == 0
    ensures e in Serve(w, q).h.table
  {
    hide FindFree, SetRange, ClearRange, Lost, SwapRemove, Recorded;
    match q
    case Get(size, kind) =>
    case Put(id) =>
      var k := IndexOf(w.h.table, id);
      if id != 0 && k < |w.h.table| { RemovesOther(w.h.table, k, e); }
    case Look(id) =>
  }

  lemma RemovesOther(table: seq<Entry>, k: nat, e: Entry)
    requires k < |table| && e in table && e != table[k]
    ensures e in SwapRemove(table, k)
  {
    hide SwapRemove;
    SwapRemoveKeepsOthers(table, k);
    assert e in multiset(table);
    assert e in multiset(SwapRemove(table, k));
  }

  // Block 0 is under a blob of id 0, with its header, and under no other.
  predicate ZeroHeld(w: World) {
    && |w.h.bits| == BITMAP_SIZE && Test(w.h.bits, 0) && 0 in w.heads && w.heads[0].id == 0
    && forall i :: 0 <= i < |w.h.table| && Holds(w.h.table[i], 0) ==> w.h.table[i].id == 0
  }

  lemma {:induction false} ClearKeeps(b: Bits, s: nat, n: nat, q: nat)
    requires !(s <= q < s + n)
    ensures |ClearRange(b, s, n)| == |b| && (Test(ClearRange(b, s, n), q) <==> Test(b, q))
  {
    hide Test, Clear;
    if n > 0 {
      ClearKeeps(b, s, n - 1, q);
      TestClear(ClearRange(b, s, n - 1), s + n - 1, q);
    }
  }

  lemma ZeroStep(w: World, q: Request)
    requires ZeroHeld(w)
    ensures ZeroHeld(Serve(w, q))
  {
    hide Test, FirstRun, BlocksFor, Scan, CacheHit, Lost, RunAt;
    match q
    case Get(size, kind) =>
      var s := FindFree(w.h.bits, BlocksFor(size));
      var n := if BlocksFor(size) == 0 then 1 else BlocksFor(size);
      FirstRunIsLeftmost(w.h.bits, 0, MAX_BLOCKS, n);
      if s < MAX_BLOCKS {
        RunPrefix(w.h.bits, s, n, 1);
        RunClear(w.h.bits, Entry(0, s, 1), s);
        TestSetRange(w.h.bits, s, BlocksFor(size), 0);
      }
    case Put(id) =>
      var k := IndexOf(w.h.table, id);
      if id != 0 && k < |w.h.table| {
        SwapRemoveKeepsOthers(w.h.table, k);
        ClearKeeps(w.h.bits, w.h.table[k].start, w.h.table[k].blocks, 0);
      }
    case Look(id) =>
  }

  lemma {:induction false} ZeroStays(w: World, qs: seq<Request>)
    requires ZeroHeld(w)
    ensures ZeroHeld(ServeAll(w, qs))
    decreases |qs|
  {
    hide Serve, ZeroHeld;
    if qs != [] {
      ZeroStays(w, qs[..|qs| - 1]);
      ZeroStep(ServeAll(w, qs[..|qs| - 1]), qs[|qs| - 1]);
    }
  }

  // A room of one block is found as long as one is free.
  lemma OneBlockFits(h: Heap, lost: seq<Entry>)
    requires Inv(h, lost) && h.free > 0
    ensures BlocksFor(0) == 1 && FindFree(h.bits, 1) < MAX_BLOCKS
  {
    hide Test, FreeIn, FirstRun;
    NoneFree(h.bits, 0, MAX_BLOCKS);
    var p: nat :| p < MAX_BLOCKS && !Test(h.bits, p);
    assert RunAt(h.bits, p, 1);
    FirstRunIsLeftmost(h.bits, 0, MAX_BLOCKS, 1);
  }

  // Allocate and free a blob n times.
  function Cycles(n: nat): seq<Request> {
    if n == 0 then [] else Cycles(n - 1) + [Get(0, 0), Put(n)]
  }

  lemma {:induction false} CyclesReach(n: nat)
    requires n < 0x1_0000
    ensures var w := ServeAll(Start(), Cycles(n));
      w.h == Initial().(next := n + 1) && w.lost == []
    decreases n
  {
    hide Initial, Serve, ServeAll;
    if n == 0 {
      assert ServeAll(Start(), Cycles(0)) == Start() by { ServeNone(Start()); }
      InitialTable();
    } else {
      CyclesReach(n - 1);
      ServeMore(Start(), Cycles(n - 1), [Get(0, 0), Put(n)]);
      EmptyAt(n);
      CycleFrom(ServeAll(Start(), Cycles(n - 1)));
    }
  }

  lemma ServeNone(w: World) ensures ServeAll(w, []) == w { }

  // What is used of an empty heap whose id counter has moved on.
  lemma EmptyAt(n: Word)
    ensures var h := Initial().(next := n);
      Inv(h, []) && h.table == [] && h.free == MAX_BLOCKS && h.next == n && FindFree(h.bits, 1) == 0
  {
    InitialInv();
    InitialTable();
    FirstBlock();
    hide Initial, Test, FreeIn, FirstRun;
  }

  lemma CycleFrom(w: World)
    requires Inv(w.h, []) && w.lost == [] && w.h.table == [] && w.h.free > 0 && 0 < w.h.next < 0x1_0000
    ensures var v := ServeAll(w, [Get(0, 0), Put(w.h.next)]);
      v.h == w.h.(next := w.h.next + 1) && v.lost == []
  {
    var h := w.h;
    hide Inv, Alloc, Free, FindFree, Lost, WriteHeader, Given;
    var qs: seq<Request> := [Get(0, 0), Put(h.next)];
    assert qs[..1] == [Get(0, 0)];
    ServeOne(w, Get(0, 0));
    OneBlockFits(h, []);
    FreeUndoesAlloc(h, [], 0);
    NextId(h);
  }

  lemma NextId(h: Heap)
    requires 0 < h.next < 0x1_0000 && FindFree(h.bits, BlocksFor(0)) < MAX_BLOCKS && h.table == []
    ensures Alloc(h, 0).h.next == h.next + 1 && Lost(h, [], 0) == []
  {
    hide FirstRun, SetRange;
  }

  /**
   * After 65535 blobs allocated and freed, the next allocation answers 0, its failure code,
   * and yet holds a block, which no later run gives back, whatever it looks up.
   */
  lemma IdZeroExample(more: seq<Request>)
    ensures var w := ServeAll(Start(), Cycles(65535));
      Alloc(w.h, 0).id == 0
      && var v := ServeAll(Serve(w, Get(0, 0)), more);
         Entry(0, 0, 1) in v.h.table && Test(v.h.bits, 0)
  {
    hide Initial, Inv, ServeAll, FindFree, Serve, Alloc;
    CyclesReach(65535);
    EmptyAt(0x1_0000);
    IdZeroFrom(ServeAll(Start(), Cycles(65535)), more);
  }

  lemma IdZeroFrom(w: World, more: seq<Request>)
    requires Inv(w.h, []) && w.h.table == [] && w.h.next == 0x1_0000 && FindFree(w.h.bits, 1) == 0
    ensures Alloc(w.h, 0).id == 0
    ensures var v := ServeAll(Serve(w, Get(0, 0)), more);
      Entry(0, 0, 1) in v.h.table && Test(v.h.bits, 0)
  {
    IdZeroTaken(w);
    var v := Serve(w, Get(0, 0));
    hide ServeAll, Serve;
    IdZeroStays(v, more, Entry(0, 0, 1));
    ZeroStays(v, more);
  }

  lemma IdZeroTaken(w: World)
    requires Inv(w.h, []) && w.h.table == [] && w.h.next == 0x1_0000 && FindFree(w.h.bits, 1) == 0
    ensures Alloc(w.h, 0).id == 0 && Serve(w, Get(0, 0)).h.table == [Entry(0, 0, 1)] && ZeroHeld(Serve(w, Get(0, 0)))
  {
    hide FirstRun, Test, Lost, Holders, Total, FreeIn;
    assert BlocksFor(0) == 1;
    assert w.h.table + [Entry(0, 0, 1)] == [Entry(0, 0, 1)];
    TestSetRange(w.h.bits, 0, 1, 0);
  }

  lemma ServeOne(w: World, q: Request)
    ensures ServeAll(w, [q]) == Serve(w, q)
  {
    assert [q][..0] == [];
  }

  lemma FirstBlock()
    ensures FindFree(Initial().bits, 1) == 0
  {
    hide Initial, Test, FindFree;
    InitialFree(0);
    FirstOfFree(Initial().bits);
  }

  lemma FirstOfFree(b: Bits)
    requires !Test(b, 0)
    ensures FindFree(b, 1) == 0
  {
    hide Test;
    assert RunAt(b, 0, 1);
  }

  // ---- A full table, and a size that wraps ---------------------------------------------------

  function Gets(n: nat): seq<Request> { seq(n, _ => Get(0, 0)) }

  // What n allocations of one block each leave: the first 256 known, the last one lost.
  ghost predicate Filled(w: World, n: nat) {
    && Sound(w) && Genuine(w) && w.h.next == n + 1 && w.stale == 0
    && |w.h.table| == (if n <= MAX_BLOBS then n else MAX_BLOBS)
    && (forall k :: 0 <= k < |w.h.table| ==> w.h.table[k] == Entry(k + 1, k, 1))
    && w.lost == (if n <= MAX_BLOBS then [] else [Entry(257, 256, 1)])
    && (forall p: nat :: p < MAX_BLOCKS ==> (Test(w.h.bits, p) <==> p < n))
    && (forall p :: p in w.heads <==> 0 <= p < n)
    && (forall p :: p in w.heads ==> w.heads[p].id == p + 1 && w.heads[p].size == 0)
  }

  lemma {:induction false} GetsFill(n: nat)
    requires n <= 257
    ensures Filled(ServeAll(Start(), Gets(n)), n)
    decreases n
  {
    hide Filled, Serve;
    if n == 0 {
      StartFilled();
    } else {
      GetsFill(n - 1);
      assert Gets(n)[..n - 1] == Gets(n - 1);
      FillStep(ServeAll(Start(), Gets(n - 1)), n - 1);
    }
  }

  lemma StartFilled()
    ensures Filled(Start(), 0)
  {
    hide Initial, Inv, Test;
    StartInv();
    InitialTable();
    forall p: nat | p < MAX_BLOCKS ensures !Test(Initial().bits, p) { InitialFree(p); }
  }

  lemma FillStep(w: World, n: nat)
    requires n <= 256 && Filled(w, n)
    ensures Filled(Serve(w, Get(0, 0)), n + 1)
  {
    hide Inv, FindFree, SetRange, Sound, Genuine, Test, TakesFreed, Lost;
    FilledFirst(w, n);
    NotALookup(w, Get(0, 0));
    SoundStep(w, Get(0, 0));
    GetGenuine(w, 0, 0);
    OneBlock(w, n);
    var v := Serve(w, Get(0, 0));
    forall p: nat | p < MAX_BLOCKS ensures Test(v.h.bits, p) <==> p < n + 1 {
      TestSetRange(w.h.bits, n, 1, p);
    }
  }

  // The state after one more allocation of one block.
  lemma OneBlock(w: World, n: nat)
    requires FindFree(w.h.bits, 1) == n < MAX_BLOCKS && w.h.next == n + 1 && n <= 256
    ensures var v, e := Serve(w, Get(0, 0)), Entry(n + 1, n, 1);
      && v.h.bits == SetRange(w.h.bits, n, 1) && v.h.next == n + 2
      && (if |w.h.table| < MAX_BLOBS then v.h.table == w.h.table + [e] && v.lost == w.lost
          else v.h.table == w.h.table && v.lost == w.lost + [e])
      && v.heads == w.heads[n := Header(n + 1, 0, 0, n * BLOCK + HEADER)] && v.stale == w.stale
  {
    hide FirstRun, SetRange;
    assert BlocksFor(0) == 1;
  }

  // The first free block is the next one.
  lemma FilledFirst(w: World, n: nat)
    requires n < MAX_BLOCKS && Filled(w, n)
    ensures FindFree(w.h.bits, 1) == n && |w.h.bits| == BITMAP_SIZE
  {
    hide Test, FirstRun;
    FirstRunIsLeftmost(w.h.bits, 0, MAX_BLOCKS, 1);
    var s := FindFree(w.h.bits, 1);
    assert RunAt(w.h.bits, n, 1);
    assert s < MAX_BLOCKS ==> !Test(w.h.bits, s);
  }

  // The 257th blob finds the table full: as long as nothing is looked up its block stays taken.
  lemma FullTableExample(more: seq<Request>)
    requires forall k :: 0 <= k < |more| ==> !more[k].Look?
    ensures var w := ServeAll(Start(), Gets(257));
      |w.h.table| == MAX_BLOBS && Entry(257, 256, 1) !in w.h.table && Test(ServeAll(w, more).h.bits, 256)
  {
    GetsFill(257);
    var w, e := ServeAll(Start(), Gets(257)), Entry(257, 256, 1);
    assert w.lost[0] == e;
    hide Serve, ServeAll, Test, Genuine;
    LostStands(w, e);
    hide Inv, Gets;
    RunKeeps(w, more);
    if e !in ServeAll(w, more).lost {
      var k := LostUntilFound(w, more, e);
    }
    LostIsMarked(ServeAll(w, more), e, 256);
  }

  /**
   * But once the table has an entry again, looking the lost blob up records it, and freeing
   * it gives its block back.
   */
  lemma FoundAgainExample()
    ensures var v := ServeAll(ServeAll(Start(), Gets(257)), [Put(1), Look(257), Put(257)]);
      Inv(v.h, v.lost) && v.lost == [] && v.stale == 0 && !Test(v.h.bits, 256) && |v.h.table| == 255
  {
    hide Filled, Serve, ServeAll, Inv, Test, Start, Gets;
    GetsFill(257);
    var w := ServeAll(Start(), Gets(257));
    ServeThree(w, Put(1), Look(257), Put(257));
    FirstGiven(w);
    var x, e := Serve(w, Put(1)), Entry(257, 256, 1);
    FoundIsFreed(x, e);
    LookedUp(x, e);
    assert Without([e], e) == [] by { assert [e][..0] == []; }
  }

  lemma ServeThree(w: World, a: Request, b: Request, c: Request)
    ensures ServeAll(w, [a, b, c]) == Serve(Serve(Serve(w, a), b), c)
  {
    hide Serve;
    ServeOne(w, a);
    assert [a, b][..1] == [a];
    assert ServeAll(w, [a, b]) == Serve(ServeAll(w, [a]), b);
    assert [a, b, c][..2] == [a, b];
    assert ServeAll(w, [a, b, c]) == Serve(ServeAll(w, [a, b]), c);
  }

  lemma LookedUp(w: World, e: Entry)
    requires e in w.lost && Recorded(w.h, w.heads, e.id) == Some(e)
    ensures Serve(Serve(w, Look(e.id)), Put(e.id)).stale == w.stale
  {
    hide Recorded, LookUp, Free, Given;
    var x := Serve(w, Look(e.id));
    assert x.stale == w.stale;
  }

  lemma FirstGiven(w: World)
    requires Filled(w, 257)
    ensures var x, e := Serve(w, Put(1)), Entry(257, 256, 1);
      && Sound(x) && x.lost == [e] && x.stale == 0 && |x.h.table| == 255 && IndexOf(x.h.table, 257) == 255
      && Recorded(x.h, x.heads, 257) == Some(e)
  {
    var x := Serve(w, Put(1));
    assert !TakesFreed(w, Put(1));
    SoundStep(w, Put(1));
    assert w.h.table[0].id == 1;
    hide Sound, Genuine, Test, FreeIn, Scan;
    assert IndexOf(w.h.table, 1) == 0;
    SwapRemoveKeepsOthers(w.h.table, 0);
    assert forall i :: 0 <= i < 255 ==> x.h.table[i].id != 257;
    ScanFilled(w.heads, 0);
    assert BlocksFor(0) == 1;
  }

  lemma {:induction false} ScanFilled(heads: Headers, p: nat)
    requires p <= 256 && (forall q :: 0 <= q < 257 ==> q in heads && heads[q].id == q + 1 && heads[q].size == 0)
    ensures Scan(heads, 257, p) == Some(256)
    decreases 256 - p
  {
    assert BlocksFor(0) == 1;
    if p < 256 { ScanFilled(heads, p + 1); }
  }

  // A freed blob, looked up and freed again, is credited twice: more blocks are free than there are.
  lemma CreditedTwiceExample()
    ensures var v := ServeAll(ServeAll(Start(), Gets(1)), [Put(1), Look(1), Put(1)]);
      v.h.free == MAX_BLOCKS + 1 && v.h.table == [] && !Inv(v.h, v.lost)
  {
    hide Filled, Serve, ServeAll, Inv, Test, Start, Gets;
    GetsFill(1);
    var w := ServeAll(Start(), Gets(1));
    ServeThree(w, Put(1), Look(1), Put(1));
    TakenTwice(w);
  }

  lemma TakenTwice(w: World)
    requires Filled(w, 1)
    ensures var v := Serve(Serve(Serve(w, Put(1)), Look(1)), Put(1));
      v.h.free == MAX_BLOCKS + 1 && v.h.table == [] && !Inv(v.h, v.lost)
  {
    var e := Entry(1, 0, 1);
    assert w.h.table == [e];
    OneTaken(w, e);
    assert BlocksFor(0) == 1 && EntryAt(w.heads, 0) == e;
    hide Sound, Genuine, Test, Serve, Free;
    GivenBack(w, e);
    var x := Serve(w, Put(1));
    RecordedAgain(x, e);
    GivenBack(Serve(x, Look(1)), e);
  }

  lemma OneTaken(w: World, e: Entry)
    requires Sound(w) && w.h.table == [e] && w.lost == [] && e.blocks == 1
    ensures w.h.free == MAX_BLOCKS - 1
  {
    hide Test, FreeIn, Holders, HeadersRight;
    TotalOfOne(e);
  }

  lemma GivenBack(w: World, e: Entry)
    requires w.h.table == [e] && e.id == 1 && e.blocks == 1 && w.h.free <= MAX_BLOCKS
    ensures var v := Serve(w, Put(1));
      v.h.table == [] && v.h.free == w.h.free + 1 && v.heads == w.heads && v.lost == w.lost
  {
    hide ClearRange;
    WrapSmall(w.h.free + 1);
  }

  lemma RecordedAgain(w: World, e: Entry)
    requires w.h.table == [] && e == Entry(1, 0, 1) && 0 in w.heads && EntryAt(w.heads, 0) == e
    ensures Serve(w, Look(1)).h == w.h.(table := [e])
    ensures w.lost == [] ==> Serve(w, Look(1)).lost == []
  {
    hide BlocksFor;
    assert [] + [e] == [e];
  }

  lemma InitialTable() ensures Initial().table == [] && Initial().free == MAX_BLOCKS && Initial().next == 1 { }

  // A request of 2^32 - 32 bytes is served with no block at all.
  lemma WrappedSizeExample()
    ensures var w := ServeAll(Start(), [Get(0xFFFF_FFE0, 0)]);
      w.h.table == [Entry(1, 0, 0)] && w.h.free == MAX_BLOCKS
  {
    FirstBlock();
    InitialTable();
    assert BlocksFor(0xFFFF_FFE0) == 0;
    ServeOne(Start(), Get(0xFFFF_FFE0, 0));
    hide Initial, FirstRun;
    var w := Serve(Start(), Get(0xFFFF_FFE0, 0));
    assert w.h.table == [] + [Entry(1, 0, 0)];
  }
}

/** The kernel's heap object: bitmap, control words and blob table, changed in place. */
module KernelBlobs {
  import opened Words
  import opened Basics
  import opened Bitmap
  import opened BlobSpec

  const DATA_SIZE := 0xED000

  // The blobs that headers describe lie in the data region.
  predicate HeadersFit(heads: Headers) {
    forall p :: p in heads ==> p < MAX_BLOCKS && p + BlocksFor(heads[p].size) <= MAX_BLOCKS
  }

  class BlobHeap {
    const bitmap: array<bv8>
    var freeBlocks: Word
    var nextBlobId: Word
    const blobTable: array<Entry>
    var blobCount: nat
    var headers: Headers          // in the data region, by first block

    ghost predicate Valid()
      reads this, bitmap, blobTable
    {
      bitmap.Length == BITMAP_SIZE && blobTable.Length == MAX_BLOBS && blobCount <= MAX_BLOBS && HeadersFit(headers)
    }

    ghost function View(): Heap
      requires Valid()
      reads this, bitmap, blobTable
    {
      Heap(bitmap[..], freeBlocks, nextBlobId, blobTable[..blobCount])
    }

    constructor ()
      ensures Valid() && View() == Initial() && headers == map[] && fresh(bitmap) && fresh(blobTable)
    {
      bitmap := new bv8[BITMAP_SIZE](_ => 0);
      blobTable := new Entry[MAX_BLOBS](_ => Entry(0, 0, 0));
      freeBlocks, nextBlobId, blobCount, headers := MAX_BLOCKS, 1, 0, map[];
    }

    method BitmapTest(block: nat) returns (used: bool)
      requires Valid()
      ensures used == Test(bitmap[..], block)
    {
      if block >= MAX_BLOCKS { return true; }
      return bitmap[block / 8] & Mask(block % 8) != 0;
    }

    // One pass that remembers the current run; it finds what a search from every start would.
    method FindFreeBlocks(count: nat) returns (start: nat)
      requires Valid()
      ensures start == FindFree(bitmap[..], count)
    {
      hide Test, FirstRun;
      ghost var n := if count == 0 then 1 else count;
      var run, i := 0, 0;
      start := 0;
      while i < MAX_BLOCKS
        invariant 0 <= run <= i <= MAX_BLOCKS && run < n
        invariant run > 0 ==> start == i - run
        invariant RunAt(bitmap[..], i - run, run)
        invariant FirstRun(bitmap[..], 0, MAX_BLOCKS, n) == FirstRun(bitmap[..], i - run, MAX_BLOCKS, n)
      {
        var used := BitmapTest(i);
        if !used {
          if run == 0 { start := i; }
          run := run + 1;
          if run >= count {
            RunFound(bitmap[..], start, MAX_BLOCKS, n);
            return;
          }
        } else {
          RunBroken(bitmap[..], i - run, MAX_BLOCKS, n, i);
          run := 0;
        }
        i := i + 1;
      }
      RunTooShort(bitmap[..], i - run, MAX_BLOCKS, n);
      return MAX_BLOCKS;
    }

    method MarkBlocks(start: nat, blocks: nat)
      modifies bitmap
      ensures bitmap[..] == SetRange(old(bitmap[..]), start, blocks)
    {
      hide Set;
      var i := 0;
      while i < blocks
        invariant 0 <= i <= blocks
        invariant bitmap[..] == SetRange(old(bitmap[..]), start, i)
      {
        SetBit(start + i);
        i := i + 1;
      }
    }

    method SetBit(block: nat)
      modifies bitmap
      ensures bitmap[..] == Set(old(bitmap[..]), block)
    {
      if block / 8 < bitmap.Length { bitmap[block / 8] := bitmap[block / 8] | Mask(block % 8); }
    }

    method ClearBlocks(start: nat, blocks: nat)
      modifies bitmap
      ensures bitmap[..] == ClearRange(old(bitmap[..]), start, blocks)
    {
      hide Clear;
      var i := 0;
      while i < blocks
        invariant 0 <= i <= blocks
        invariant bitmap[..] == ClearRange(old(bitmap[..]), start, i)
      {
        ClearBit(start + i);
        i := i + 1;
      }
    }

    method ClearBit(block: nat)
      modifies bitmap
      ensures bitmap[..] == Clear(old(bitmap[..]), block)
    {
      if block / 8 < bitmap.Length { bitmap[block / 8] := bitmap[block / 8] & !Mask(block % 8); }
    }

    method Alloc(size: Word, kind: nat) returns (id: nat)
      requires Valid()
      modifies this, bitmap, blobTable
      ensures Valid() && Allocated(View(), id) == BlobSpec.Alloc(old(View()), size)
      ensures headers == WriteHeader(old(View()), old(headers), size, kind)
    {
      hide FirstRun, SetRange, BlocksFor, HeadersFit;
      var blocks := BlocksFor(size);
      FreeFits(bitmap[..], headers, size, nextBlobId % 0x1_0000, kind);
      var start := FindFreeBlocks(blocks);
      if start == MAX_BLOCKS { return 0; }
      MarkBlocks(start, blocks);
      freeBlocks := Wrap(freeBlocks - blocks);
      id := nextBlobId % 0x1_0000;
      nextBlobId := Wrap(nextBlobId + 1);
      if nextBlobId == 0 { nextBlobId := 1; }
      if blobCount < MAX_BLOBS {
        blobTable[blobCount] := Entry(id, start, blocks);
        blobCount := blobCount + 1;
        assert blobTable[..blobCount] == old(blobTable[..blobCount]) + [Entry(id, start, blocks)];
      }
      headers := headers[start := Header(id, kind, size, start * BLOCK + HEADER)];
    }

    method Free(id: nat)
      requires Valid()
      modifies this, bitmap, blobTable
      ensures Valid() && View() == BlobSpec.Free(old(View()), id) && headers == old(headers)
    {
      hide ClearRange;
      if id == 0 { return; }
      var i := 0;
      ghost var table := blobTable[..blobCount];
      while i < blobCount
        invariant 0 <= i <= blobCount && View() == old(View()) && headers == old(headers)
        invariant forall j :: 0 <= j < i ==> table[j].id != id
      {
        if blobTable[i].id == id {
          assert IndexOf(table, id) == i;
          var e := blobTable[i];
          ClearBlocks(e.start, e.blocks);
          freeBlocks := Wrap(freeBlocks + e.blocks);
          blobTable[i] := blobTable[blobCount - 1];
          blobCount := blobCount - 1;
          assert blobTable[..blobCount] == SwapRemove(table, i);
          return;
        }
        i := i + 1;
      }
    }

    // The offset loops of heap_get_blob; the block of the header it answers with.
    method GetBlob(id: nat) returns (at: Option<nat>)
      requires Valid()
      modifies this`blobCount, blobTable
      ensures Valid() && at == Found(old(View()), headers, id) && View() == LookUp(old(View()), headers, id)
    {
      hide BlocksFor, Scan, CacheHit, HeadersFit;
      if id == 0 { return None; }
      var i := 0;
      ghost var table := blobTable[..blobCount];
      while i < blobCount
        invariant 0 <= i <= blobCount && Valid() && View() == old(View())
        invariant CacheHit(table, headers, id) == CacheHit(table[i..], headers, id)
      {
        HitStep(table, headers, id, i);
        if blobTable[i].id == id && blobTable[i].start in headers && headers[blobTable[i].start].id == id {
          return Some(blobTable[i].start);
        }
        i := i + 1;
      }
      NoHit(table[i..], headers, id);
      at := ScanBlocks(id);
      if at.Some? && blobCount < MAX_BLOBS {
        blobTable[blobCount] := Entry(id, at.value, BlocksFor(headers[at.value].size));
        blobCount := blobCount + 1;
        assert blobTable[..blobCount] == table + [EntryAt(headers, at.value)];
      }
    }

    // The slow path: block by block, jumping over the blobs that headers describe.
    method ScanBlocks(id: nat) returns (at: Option<nat>)
      requires Valid()
      ensures at == Scan(headers, id, 0)
    {
      hide BlocksFor;
      var offset: Word := 0;
      while offset < DATA_SIZE
        invariant offset % BLOCK == 0 && Scan(headers, id, 0) == Scan(headers, id, offset / BLOCK)
        decreases MAX_BLOCKS - offset / BLOCK
      {
        var p := offset / BLOCK;
        var blocks := 1;
        if p in headers {
          if headers[p].id == id { return Some(p); }
          if BlocksFor(headers[p].size) > 1 { blocks := BlocksFor(headers[p].size); }
        }
        NextOffset(p, blocks);
        offset := Wrap(offset + (blocks - 1) * BLOCK);
        offset := Wrap(offset + BLOCK);
      }
      return None;
    }
  }

  lemma FreeFits(b: Bits, heads: Headers, size: Word, id: nat, kind: nat)
    ensures FindFree(b, BlocksFor(size)) <= MAX_BLOCKS
    ensures var s := FindFree(b, BlocksFor(size));
      HeadersFit(heads) && s < MAX_BLOCKS ==> HeadersFit(heads[s := Header(id, kind, size, s * BLOCK + HEADER)])
  {
    hide FirstRun, BlocksFor, RunAt;
    FirstRunIsLeftmost(b, 0, MAX_BLOCKS, if BlocksFor(size) == 0 then 1 else BlocksFor(size));
  }

  // The next offset of the scan; with headers that fit, the 32-bit sums do not wrap.
  lemma NextOffset(p: nat, blocks: nat)
    requires p + blocks <= MAX_BLOCKS && p < MAX_BLOCKS && 1 <= blocks
    ensures Wrap(p * BLOCK + (blocks - 1) * BLOCK) == (p + blocks - 1) * BLOCK
    ensures Wrap((p + blocks - 1) * BLOCK + BLOCK) == (p + blocks) * BLOCK
  {
  }

  lemma NoHit(table: seq<Entry>, heads: Headers, id: nat)
    requires table == []
    ensures CacheHit(table, heads, id) == None
  {
  }

  lemma HitStep(table: seq<Entry>, heads: Headers, id: nat, i: nat)
    requires i < |table|
    ensures CacheHit(table[i..], heads, id) ==
      if Stands(table[i], heads, id) then Some(table[i].start) else CacheHit(table[i + 1..], heads, id)
  {
    assert table[i..][1..] == table[i + 1..];
  }

  lemma RunFound(b: Bits, lo: nat, hi: nat, n: nat)
    requires RunAt(b, lo, n) && lo + n <= hi
    ensures FirstRun(b, lo, hi, n) == lo
  {
  }

  lemma RunTooShort(b: Bits, lo: nat, hi: nat, n: nat)
    requires lo <= hi < lo + n
    ensures FirstRun(b, lo, hi, n) == hi
  {
  }

  lemma RunBroken(b: Bits, lo: nat, hi: nat, n: nat, p: nat)
    requires lo <= p < hi && p < lo + n && Test(b, p)
    ensures FirstRun(b, lo, hi, n) == FirstRun(b, p + 1, hi, n)
  {
    hide Test;
    if lo + n <= hi {
      SkipPast(b, lo, hi, n, p);
    } else {
      RunTooShort(b, lo, hi, n);
      RunTooShort(b, p + 1, hi, n);
    }
  }
}
