/**
 * The bridge's side of the blob heap (bridge/heap.py): blobs are found by scanning the data
 * region for headers, jumping over each blob by its size, with a cache of offsets in front.
 *
 * What a reader sees at each 64-byte boundary is a header or not; inside a payload it may
 * look like a header by accident.
 */
module BridgeHeapSpec {
  import opened Basics
  import opened Bitmap
  import opened BlobSpec

  datatype Head = NoMagic | Blob(id: nat, size: nat)

  // Directory entry of a live blob.
  datatype Extent = Extent(start: nat, size: nat)

  datatype Shared = Shared(bits: Bits, free: int, next: nat, heads: seq<Head>, cache: map<nat, nat>)

  function Blocks(size: nat): (n: nat)
    ensures n >= 1
  {
    (HEADER + size + BLOCK - 1) / BLOCK
  }

  // Enough for header and data, and no more.
  lemma BlocksFit(size: nat)
    ensures HEADER + size <= BLOCK * Blocks(size) < HEADER + size + BLOCK
  {
  }

  predicate Covers(x: Extent, p: nat) { x.start <= p < x.start + Blocks(x.size) }

  // p lies behind the header block, in the payload.
  predicate Inside(x: Extent, p: nat) { x.start < p < x.start + Blocks(x.size) }

  predicate Disjoint(x: Extent, y: Extent) { x.start + Blocks(x.size) <= y.start || y.start + Blocks(y.size) <= x.start }

  type Directory = map<nat, Extent>

  // Every live blob lies in the heap behind its own header, and blobs do not overlap.
  ghost predicate Laid(heads: seq<Head>, live: Directory) {
    && |heads| == MAX_BLOCKS
    && (forall id :: id in live ==>
          live[id].start + Blocks(live[id].size) <= MAX_BLOCKS && heads[live[id].start] == Blob(id, live[id].size))
    && (forall i, j :: i in live && j in live && i != j ==> Disjoint(live[i], live[j]))
  }

  // Header-like blocks outside payloads are the headers of live blobs.
  ghost predicate NoStrayMagic(heads: seq<Head>, live: Directory) {
    forall p :: 0 <= p < |heads| && heads[p].Blob? ==> OwnedBlock(live, p)
  }

  ghost predicate OwnedBlock(live: Directory, p: int) {
    exists id :: id in live && 0 <= p && Covers(live[id], p)
  }

  // The cache knows only live blobs, at their places.
  predicate Cached(cache: map<nat, nat>, live: Directory) {
    forall id :: id in cache ==> id in live && cache[id] == live[id].start
  }

  ghost predicate Inv(s: Shared, live: Directory) {
    && Laid(s.heads, live) && NoStrayMagic(s.heads, live) && Cached(s.cache, live)
    && |s.bits| == BITMAP_SIZE
    && (forall p: nat :: p < MAX_BLOCKS ==> (Test(s.bits, p) <==> OwnedBlock(live, p)))
    && s.free == FreeIn(s.bits, 0, MAX_BLOCKS)
    && (forall id :: id in live ==> 0 < id < s.next)
  }

  // The buffer after heap_init, with nothing that looks like a header.
  function Empty(heads: seq<Head>): Shared { Shared(Initial().bits, MAX_BLOCKS, 1, heads, map[]) }

  lemma EmptyHeapInv(heads: seq<Head>)
    requires |heads| == MAX_BLOCKS && forall p :: 0 <= p < |heads| ==> heads[p] == NoMagic
    ensures Inv(Empty(heads), map[])
  {
    NothingMarked();
    hide Initial, Test, FreeIn;
  }

  lemma NothingMarked()
    ensures |Initial().bits| == BITMAP_SIZE && FreeIn(Initial().bits, 0, MAX_BLOCKS) == MAX_BLOCKS
    ensures forall p: nat :: p < MAX_BLOCKS ==> !Test(Initial().bits, p)
  {
    InitialInv();
    InitialTable();
    hide Initial, Test, FreeIn;
    forall p: nat | p < MAX_BLOCKS ensures !Test(Initial().bits, p) {
      assert Bit(Initial().bits, p) == 0;
    }
  }

  // ---- Finding a blob ------------------------------------------------------------

  datatype Found = Found(at: Option<nat>, cache: map<nat, nat>)

  // The scan of _find_blob_offset from block p on.
  function Scan(heads: seq<Head>, id: nat, p: nat, cache: map<nat, nat>): (r: Found)
    decreases |heads| - p
  {
    if p >= |heads| then Found(None, cache)
    else match heads[p]
      case NoMagic => Scan(heads, id, p + 1, cache)
      case Blob(i, size) =>
        var known := cache[i := p];
        if i == id then Found(Some(p), known) else Scan(heads, id, p + Blocks(size), known)
  }

  function Find(s: Shared, id: nat): (r: Found) {
    if id in s.cache then Found(Some(s.cache[id]), s.cache) else Scan(s.heads, id, 0, s.cache)
  }

  // The answer a search of the directory gives.
  function Direct(live: Directory, id: nat): Option<nat> {
    if id in live then Some(live[id].start) else None
  }

  // The scan only ever stands between blobs.
  ghost predicate Boundary(live: Directory, p: nat) {
    forall id :: id in live ==> !Inside(live[id], p)
  }

  lemma {:induction false} ScanFollowsDirectory(heads: seq<Head>, live: Directory, id: nat, p: nat, cache: map<nat, nat>)
    requires Laid(heads, live) && NoStrayMagic(heads, live) && Cached(cache, live) && Boundary(live, p)
    ensures var r := Scan(heads, id, p, cache);
      Cached(r.cache, live)
      && r.at == if id in live && p <= live[id].start then Some(live[id].start) else None
    decreases |heads| - p
  {
    hide Laid, Boundary, Blocks, OwnedBlock;
    LaidBound(heads, live);
    if p < |heads| {
      match heads[p]
      case NoMagic =>
        NextBoundary(heads, live, p);
        ScanFollowsDirectory(heads, live, id, p + 1, cache);
      case Blob(i, size) =>
        HeaderIsLive(heads, live, p);
        JumpBoundary(heads, live, p);
        if i != id { ScanFollowsDirectory(heads, live, id, p + Blocks(size), cache[i := p]); }
    }
  }

  lemma LaidBound(heads: seq<Head>, live: Directory)
    requires Laid(heads, live)
    ensures |heads| == MAX_BLOCKS && forall id :: id in live ==> live[id].start < MAX_BLOCKS
  {
    hide Blocks;
  }

  // A header at a boundary is that of the live blob it names.
  lemma HeaderIsLive(heads: seq<Head>, live: Directory, p: nat)
    requires Laid(heads, live) && OwnedBlock(live, p) && Boundary(live, p)
    requires p < |heads| && heads[p].Blob?
    ensures heads[p].id in live && live[heads[p].id] == Extent(p, heads[p].size)
  {
    hide Blocks;
    var id :| id in live && Covers(live[id], p);
    assert !Inside(live[id], p);
  }

  lemma NextBoundary(heads: seq<Head>, live: Directory, p: nat)
    requires Laid(heads, live) && Boundary(live, p) && p < |heads| && heads[p] == NoMagic
    ensures Boundary(live, p + 1)
    ensures forall id :: id in live ==> live[id].start != p
  {
    hide Blocks;
    forall id | id in live ensures live[id].start != p && !Inside(live[id], p + 1) {
      assert !Inside(live[id], p);
    }
  }

  lemma JumpBoundary(heads: seq<Head>, live: Directory, p: nat)
    requires Laid(heads, live) && OwnedBlock(live, p) && Boundary(live, p)
    requires p < |heads| && heads[p].Blob?
    ensures var q := p + Blocks(heads[p].size);
      Boundary(live, q) && forall id :: id in live && id != heads[p].id && p <= live[id].start ==> q <= live[id].start
  {
    hide Blocks;
    HeaderIsLive(heads, live, p);
    var i := heads[p].id;
    var q := p + Blocks(heads[p].size);
    forall id | id in live ensures !Inside(live[id], q) && (id != i && p <= live[id].start ==> q <= live[id].start) {
      if id != i { assert Disjoint(live[id], live[i]); }
    }
  }

  /**
   * Main theorem: the cache and the size-skipping scan behind it give the answer of the
   * directory, and the scan leaves the cache right.
   */
  lemma FindIsDirectory(s: Shared, live: Directory, id: nat)
    requires Inv(s, live)
    ensures Find(s, id).at == Direct(live, id) && Cached(Find(s, id).cache, live)
  {
    hide Test, Blocks, NoStrayMagic, Laid, OwnedBlock;
    if id !in s.cache {
      assert Boundary(live, 0);
      ScanFollowsDirectory(s.heads, live, id, 0, s.cache);
    }
  }

  // ---- Allocation --------------------------------------------------------------------

  datatype Outcome = Given(s: Shared, id: nat) | NoRoom | IdTooLarge

  // allocate_blob; packing an id of 2^16 or more, or a size of 2^32 or more, into the header raises.
  function Allocate(s: Shared, size: nat): (r: Outcome)
    requires |s.heads| == MAX_BLOCKS
  {
    var n := Blocks(size);
    if s.free < n then NoRoom
    else
      var start := FirstRun(s.bits, 0, MAX_BLOCKS, n);
      var id := if s.next == 0 then 1 else s.next;
      if start == MAX_BLOCKS then NoRoom
      else if id >= 0x1_0000 || size >= 0x1_0000_0000 then IdTooLarge
      else Given(Shared(SetRange(s.bits, start, n), s.free - n, id + 1, s.heads[start := Blob(id, size)], s.cache[id := start]), id)
  }

  // It keeps the invariant with the new blob in the directory, at the leftmost room, and fails for room only if there is none.
  lemma AllocateKeeps(s: Shared, live: Directory, size: nat)
    requires Inv(s, live)
    ensures var n := Blocks(size);
      match Allocate(s, size)
      case Given(t, id) =>
        var start := t.cache[id];
        id !in live && Inv(t, live[id := Extent(start, size)]) && RunAt(s.bits, start, n)
        && forall q: nat :: q < start ==> !RunAt(s.bits, q, n)
      case NoRoom => forall q: nat :: q + n <= MAX_BLOCKS ==> !RunAt(s.bits, q, n)
      case IdTooLarge => s.next >= 0x1_0000 || size >= 0x1_0000_0000
  {
    hide Test, FreeIn, RunAt, FirstRun, Blocks, Laid, NoStrayMagic, OwnedBlock;
    LaidBound(s.heads, live);
    var n := Blocks(size);
    FirstRunIsLeftmost(s.bits, 0, MAX_BLOCKS, n);
    if s.free < n {
      forall q: nat | q + n <= MAX_BLOCKS ensures !RunAt(s.bits, q, n) { RunNeedsFree(s.bits, q, n); }
    } else if Allocate(s, size).Given? {
      var start := FirstRun(s.bits, 0, MAX_BLOCKS, n);
      PlaceKeeps(s, live, if s.next == 0 then 1 else s.next, start, size);
    }
  }

  lemma RunNeedsFree(b: Bits, q: nat, n: nat)
    requires q + n <= MAX_BLOCKS
    ensures RunAt(b, q, n) ==> FreeIn(b, 0, MAX_BLOCKS) >= n
  {
    hide Test, FreeIn;
    if RunAt(b, q, n) {
      FreeInSetRange(b, 0, MAX_BLOCKS, q, n);
    }
  }

  lemma PlaceKeeps(s: Shared, live: Directory, id: nat, start: nat, size: nat)
    requires Inv(s, live) && RunAt(s.bits, start, Blocks(size)) && start + Blocks(size) <= MAX_BLOCKS
    requires 0 < id && s.next <= id && id < 0x1_0000
    ensures var n := Blocks(size);
      Inv(Shared(SetRange(s.bits, start, n), s.free - n, id + 1, s.heads[start := Blob(id, size)], s.cache[id := start]),
          live[id := Extent(start, size)])
  {
    hide Test, FreeIn, Blocks, OwnedBlock;
    var n, x := Blocks(size), Extent(start, size);
    var more := live[id := x];
    FreeInSetRange(s.bits, 0, MAX_BLOCKS, start, n);
    FreshExtent(s, live, x);
    forall p: nat ensures OwnedBlock(more, p) <==> OwnedBlock(live, p) || Covers(x, p) { GrownDirectory(live, id, x, p); }
    forall p: nat | p < MAX_BLOCKS ensures Test(SetRange(s.bits, start, n), p) <==> OwnedBlock(more, p) {
      TestSetRange(s.bits, start, n, p);
    }
    PlaceLaid(s.heads, live, id, x);
  }

  lemma GrownDirectory(live: Directory, id: nat, x: Extent, p: nat)
    requires id !in live
    ensures OwnedBlock(live[id := x], p) <==> OwnedBlock(live, p) || Covers(x, p)
  {
    hide Covers;
    var more := live[id := x];
    if OwnedBlock(live, p) {
      var j :| j in live && Covers(live[j], p);
      assert more[j] == live[j];
    }
    assert more[id] == x;
  }

  // Free blocks lie outside every live blob.
  lemma FreshExtent(s: Shared, live: Directory, x: Extent)
    requires Inv(s, live) && RunAt(s.bits, x.start, Blocks(x.size)) && x.start + Blocks(x.size) <= MAX_BLOCKS
    ensures forall id :: id in live ==> Disjoint(live[id], x)
  {
    hide Test, FreeIn, Blocks, NoStrayMagic, Cached, OwnedBlock;
    forall id | id in live ensures Disjoint(live[id], x) {
      var p := if live[id].start < x.start then x.start else live[id].start;
      if Covers(live[id], p) { CoverOwned(live, id, p); }
    }
  }

  lemma CoverOwned(live: Directory, id: nat, p: nat)
    requires id in live && Covers(live[id], p)
    ensures OwnedBlock(live, p)
  {
    hide Covers;
  }

  lemma PlaceLaid(heads: seq<Head>, live: Directory, id: nat, x: Extent)
    requires Laid(heads, live) && id !in live && x.start + Blocks(x.size) <= MAX_BLOCKS
    requires forall j :: j in live ==> Disjoint(live[j], x)
    ensures Laid(heads[x.start := Blob(id, x.size)], live[id := x])
  {
    hide Blocks;
    var more, now := live[id := x], heads[x.start := Blob(id, x.size)];
    forall j | j in more
      ensures more[j].start + Blocks(more[j].size) <= MAX_BLOCKS && now[more[j].start] == Blob(j, more[j].size)
    {
      if j != id { assert Disjoint(live[j], x); }
    }
  }

  // ---- Freeing -------------------------------------------------------------------------

  datatype Freed = Freed(s: Shared, ok: bool)

  function FreeBlob(s: Shared, id: nat): (r: Freed) {
    var f := Find(s, id);
    if f.at == None then Freed(s.(cache := f.cache), false)
    else
      var start := f.at.value;
      if start >= |s.heads| || s.heads[start] == NoMagic then Freed(s.(cache := f.cache), false)
      else
        var n := Blocks(s.heads[start].size);
        Freed(Shared(ClearRange(s.bits, start, n), s.free + n, s.next, s.heads[start := NoMagic], f.cache - {id}), true)
  }

  /**
   * free_blob succeeds exactly on live ids.  Afterwards scans are right again exactly if
   * the freed payload holds nothing that looks like a header at a block boundary: the
   * payload bytes are left as they are, and become visible to the scan.
   */
  lemma FreeKeepsIff(s: Shared, live: Directory, id: nat)
    requires Inv(s, live)
    ensures var r := FreeBlob(s, id);
      (r.ok <==> id in live)
      && (id !in live ==> Inv(r.s, live))
      && (id in live ==> (Inv(r.s, live - {id}) <==> forall p: nat :: Inside(live[id], p) ==> s.heads[p] == NoMagic))
  {
    hide Test, FreeIn, Find, Blocks, NoStrayMagic, OwnedBlock, Inside, ClearRange;
    FindIsDirectory(s, live, id);
    if id in live {
      FreeLive(s, live, id, Find(s, id).cache);
    }
  }

  lemma FreeLive(s: Shared, live: Directory, id: nat, cache: map<nat, nat>)
    requires Inv(s, live) && id in live && Cached(cache, live)
    ensures var x := live[id];
      var n := Blocks(x.size);
      Inv(Shared(ClearRange(s.bits, x.start, n), s.free + n, s.next, s.heads[x.start := NoMagic], cache - {id}), live - {id})
      <==> forall p: nat :: Inside(x, p) ==> s.heads[p] == NoMagic
  {
    hide Test, FreeIn, Blocks, Laid, NoStrayMagic, OwnedBlock, Inside;
    var x := live[id];
    var n := Blocks(x.size);
    var rest := live - {id};
    LiveBits(s, live, id);
    FreedCountRange(s.bits, x.start, n);
    forall p: nat | p < MAX_BLOCKS ensures Test(ClearRange(s.bits, x.start, n), p) <==> OwnedBlock(rest, p) {
      TestClearRange(s.bits, x.start, n, p);
      ShrunkDirectory(s.heads, live, id, p);
    }
    RestLaid(s.heads, live, id);
    StrayIff(s.heads, live, id);
    assert Cached(cache - {id}, rest);
  }

  // A live blob's blocks are all marked.
  lemma LiveBits(s: Shared, live: Directory, id: nat)
    requires Inv(s, live) && id in live
    ensures live[id].start + Blocks(live[id].size) <= MAX_BLOCKS
    ensures forall p: nat :: live[id].start <= p < live[id].start + Blocks(live[id].size) ==> Test(s.bits, p)
  {
    hide Test, FreeIn, Blocks, OwnedBlock, NoStrayMagic;
    forall p: nat | live[id].start <= p < live[id].start + Blocks(live[id].size) ensures Test(s.bits, p) {
      CoverOwned(live, id, p);
    }
  }

  lemma ShrunkDirectory(heads: seq<Head>, live: Directory, id: nat, p: nat)
    requires Laid(heads, live) && id in live
    ensures OwnedBlock(live - {id}, p) <==> OwnedBlock(live, p) && !Covers(live[id], p)
  {
    hide Blocks;
    var rest := live - {id};
    if OwnedBlock(rest, p) {
      var j :| j in rest && Covers(rest[j], p);
      assert Disjoint(live[j], live[id]);
      assert live[j] == rest[j];
    }
    if OwnedBlock(live, p) && !Covers(live[id], p) {
      var j :| j in live && Covers(live[j], p);
      assert rest[j] == live[j];
    }
  }

  lemma RestLaid(heads: seq<Head>, live: Directory, id: nat)
    requires Laid(heads, live) && id in live
    ensures Laid(heads[live[id].start := NoMagic], live - {id})
  {
    hide Blocks;
    var rest := live - {id};
    forall j | j in rest ensures heads[live[id].start := NoMagic][rest[j].start] == Blob(j, rest[j].size) {
      assert Disjoint(live[j], live[id]);
    }
  }

  lemma StrayIff(heads: seq<Head>, live: Directory, id: nat)
    requires Laid(heads, live) && NoStrayMagic(heads, live) && id in live
    ensures NoStrayMagic(heads[live[id].start := NoMagic], live - {id})
            <==> forall p: nat :: Inside(live[id], p) ==> heads[p] == NoMagic
  {
    hide Blocks, Laid, OwnedBlock;
    LaidBound(heads, live);
    var x, rest, now := live[id], live - {id}, heads[live[id].start := NoMagic];
    InsideBound(heads, live, id);
    if forall p: nat :: Inside(x, p) ==> heads[p] == NoMagic {
      forall p | 0 <= p < |now| && now[p].Blob? ensures OwnedBlock(rest, p) {
        assert heads[p].Blob?;
        ShrunkDirectory(heads, live, id, p);
        assert !Inside(x, p);
      }
    } else {
      var p: nat :| Inside(x, p) && heads[p] != NoMagic;
      assert now[p].Blob?;
      ShrunkDirectory(heads, live, id, p);
    }
  }

  lemma InsideBound(heads: seq<Head>, live: Directory, id: nat)
    requires Laid(heads, live) && id in live
    ensures forall p: nat :: Inside(live[id], p) ==> p < |heads|
  {
    hide Blocks;
  }

  // ---- A freed payload that looks like a blob -------------------------------------------

  // The scan walks over the live blobs and free blocks up to the first header-like block left behind.
  lemma {:induction false} ScanToGhost(heads: seq<Head>, live: Directory, x: Extent, q: nat, p: nat, cache: map<nat, nat>)
    requires Laid(heads, live) && Boundary(live, p) && p <= q && Covers(x, q) && q < |heads|
    requires heads[q].Blob? && heads[q].id !in live
    requires forall id :: id in live ==> Disjoint(live[id], x)
    requires forall k :: 0 <= k < x.start && heads[k].Blob? ==> OwnedBlock(live, k)
    requires forall k :: x.start <= k < q ==> heads[k] == NoMagic
    ensures Scan(heads, heads[q].id, p, cache).at == Some(q)
    decreases q - p
  {
    hide Laid, Boundary, Blocks, OwnedBlock;
    if p < q {
      match heads[p]
      case NoMagic =>
        NextBoundary(heads, live, p);
        ScanToGhost(heads, live, x, q, p + 1, cache);
      case Blob(i, size) =>
        HeaderIsLive(heads, live, p);
        JumpBoundary(heads, live, p);
        assert Disjoint(live[i], x);
        ScanToGhost(heads, live, x, q, p + Blocks(size), cache[i := p]);
    }
  }

  /**
   * After a free, a lookup of the id that the first header-like block of the freed payload
   * names finds that block, although no such blob is live.
   */
  lemma GhostBlobFound(s: Shared, live: Directory, id: nat, q: nat)
    requires Inv(s, live) && id in live && Inside(live[id], q) && q < |s.heads| && s.heads[q].Blob?
    requires forall k :: live[id].start < k < q ==> s.heads[k] == NoMagic
    requires s.heads[q].id !in live - {id}
    ensures FreeBlob(s, id).ok && Find(FreeBlob(s, id).s, s.heads[q].id).at == Some(q)
  {
    hide *;
    var x, rest, t := live[id], live - {id}, FreeBlob(s, id).s;
    FreedState(s, live, id);
    RestApart(s.heads, live, id, q);
    forall k | x.start <= k < q ensures t.heads[k] == NoMagic { }
    ScanToGhost(t.heads, rest, x, q, 0, t.cache);
    NotCached(t, rest, s.heads[q].id);
  }

  // What free_blob leaves behind, whatever the payload looks like.
  lemma FreedState(s: Shared, live: Directory, id: nat)
    requires Inv(s, live) && id in live
    ensures Laid(s.heads, live) && NoStrayMagic(s.heads, live) && live[id].start < |s.heads|
    ensures var r := FreeBlob(s, id);
      r.ok && r.s.heads == s.heads[live[id].start := NoMagic] && Cached(r.s.cache, live - {id})
  {
    hide Test, FreeIn, Blocks, Find, ClearRange, NoStrayMagic, OwnedBlock;
    FindIsDirectory(s, live, id);
  }

  lemma RestApart(heads: seq<Head>, live: Directory, id: nat, q: nat)
    requires Laid(heads, live) && NoStrayMagic(heads, live) && id in live && Inside(live[id], q) && q < |heads|
    ensures var x, rest, now := live[id], live - {id}, heads[live[id].start := NoMagic];
      && Laid(now, rest) && Boundary(rest, 0) && Covers(x, q) && now[q] == heads[q]
      && (forall j :: j in rest ==> Disjoint(rest[j], x))
      && (forall k :: 0 <= k < x.start && now[k].Blob? ==> OwnedBlock(rest, k))
  {
    hide Blocks, OwnedBlock;
    var x, rest, now := live[id], live - {id}, heads[live[id].start := NoMagic];
    RestLaid(heads, live, id);
    forall k | 0 <= k < x.start && now[k].Blob? ensures OwnedBlock(rest, k) {
      assert heads[k] == now[k];
      ShrunkDirectory(heads, live, id, k);
    }
  }

  lemma NotCached(s: Shared, live: Directory, id: nat)
    requires Cached(s.cache, live) && id !in live
    ensures Find(s, id) == Scan(s.heads, id, 0, s.cache)
  {
  }

  // A blob of three blocks whose second block reads like the header of blob 7: once freed, blob 7 is found there.
  lemma GhostExample(heads: seq<Head>)
    requires |heads| == MAX_BLOCKS && forall p :: 0 <= p < |heads| ==> heads[p] == NoMagic
    ensures var r := Allocate(Empty(heads), 128);
      r.Given? && r.id == 1 && |r.s.heads| == MAX_BLOCKS
      && var written := r.s.(heads := r.s.heads[1 := Blob(7, 0)]);
         FreeBlob(written, 1).ok && Find(FreeBlob(written, 1).s, 7).at == Some(1)
  {
    EmptyHeapInv(heads);
    AllocateKeeps(Empty(heads), map[], 128);
    FirstBlob(heads);
    assert Blocks(128) == 3;
    var r := Allocate(Empty(heads), 128);
    var live: Directory := map[1 := Extent(0, 128)];
    assert map[][1 := Extent(0, 128)] == live;
    hide Inv, Allocate, FreeBlob, Find, Blocks;
    PayloadWriteKeeps(r.s, live, 1, 1, Blob(7, 0));
    GhostBlobFound(r.s.(heads := r.s.heads[1 := Blob(7, 0)]), live, 1, 1);
  }

  lemma FirstBlob(heads: seq<Head>)
    requires |heads| == MAX_BLOCKS
    ensures var r := Allocate(Empty(heads), 128);
      r.Given? && r.id == 1 && r.s.cache == map[1 := 0] && |r.s.heads| == MAX_BLOCKS
  {
    NothingMarked();
    InitialTable();
    hide Initial, Test, SetRange;
    assert Blocks(128) == 3;
    assert RunAt(Initial().bits, 0, 3);
    assert FirstRun(Initial().bits, 0, MAX_BLOCKS, 3) == 0;
  }

  // Payload writes change nothing the heap relies on, whatever the bytes look like.
  lemma PayloadWriteKeeps(s: Shared, live: Directory, id: nat, p: nat, h: Head)
    requires Inv(s, live) && id in live && Inside(live[id], p)
    ensures p < |s.heads| && Inv(s.(heads := s.heads[p := h]), live)
  {
    hide Test, FreeIn, Blocks, OwnedBlock;
    InsideBound(s.heads, live, id);
    var now := s.heads[p := h];
    forall j | j in live ensures now[live[j].start] == Blob(j, live[j].size) {
      if j != id { assert Disjoint(live[j], live[id]); }
    }
    CoverOwned(live, id, p);
    forall q | 0 <= q < |now| && now[q].Blob? ensures OwnedBlock(live, q) {
      if q != p { assert s.heads[q] == now[q]; }
    }
  }

  // ---- Runs -----------------------------------------------------------------------------------

  datatype Act = Get(size: nat) | Put(id: nat) | Look(id: nat) | Poke(id: nat, p: nat, h: Head)

  datatype Stage = Stage(s: Shared, live: Directory)

  // Clients write inside their payloads.
  ghost function Do(w: Stage, a: Act): (v: Stage)
    requires |w.s.heads| == MAX_BLOCKS
    ensures |v.s.heads| == MAX_BLOCKS
  {
    hide FirstRun, SetRange, ClearRange, Find;
    match a
    case Get(size) =>
      (match Allocate(w.s, size)
       case Given(t, id) => Stage(t, if id in t.cache then w.live[id := Extent(t.cache[id], size)] else w.live)
       case _ => w)
    case Put(id) => Stage(FreeBlob(w.s, id).s, w.live - {id})
    case Look(id) => Stage(w.s.(cache := Find(w.s, id).cache), w.live)
    case Poke(id, p, h) =>
      if id in w.live && Inside(w.live[id], p) && p < MAX_BLOCKS then Stage(w.s.(heads := w.s.heads[p := h]), w.live) else w
  }

  // The freed payload shows a header at a block boundary.
  ghost predicate Spoils(w: Stage, a: Act)
    requires |w.s.heads| == MAX_BLOCKS
  {
    a.Put? && a.id in w.live && exists p: nat :: Inside(w.live[a.id], p) && p < MAX_BLOCKS && w.s.heads[p] != NoMagic
  }

  lemma DoKeepsIff(w: Stage, a: Act)
    requires Inv(w.s, w.live) && |w.s.heads| == MAX_BLOCKS
    ensures Inv(Do(w, a).s, Do(w, a).live) <==> !Spoils(w, a)
  {
    OnlyFreesSpoil(w, a);
    hide *;
    match a
    case Get(size) => GetKeeps(w, size);
    case Put(id) => PutKeepsIff(w, id);
    case Look(id) => LookKeeps(w, id);
    case Poke(id, p, h) => PokeKeeps(w, id, p, h);
  }

  lemma OnlyFreesSpoil(w: Stage, a: Act)
    requires |w.s.heads| == MAX_BLOCKS
    ensures !a.Put? ==> !Spoils(w, a)
  {
  }

  lemma GetKeeps(w: Stage, size: nat)
    requires Inv(w.s, w.live) && |w.s.heads| == MAX_BLOCKS
    ensures Inv(Do(w, Act.Get(size)).s, Do(w, Act.Get(size)).live)
  {
    hide Inv, Allocate;
    AllocateKeeps(w.s, w.live, size);
    if Allocate(w.s, size).Given? { AllocateCaches(w.s, size); }
  }

  lemma PayloadInHeap(w: Stage, id: nat)
    requires Inv(w.s, w.live) && |w.s.heads| == MAX_BLOCKS && id in w.live
    ensures forall p: nat :: Inside(w.live[id], p) ==> p < MAX_BLOCKS
  {
    InsideBound(w.s.heads, w.live, id);
  }

  lemma PutKeepsIff(w: Stage, id: nat)
    requires Inv(w.s, w.live) && |w.s.heads| == MAX_BLOCKS
    ensures Inv(Do(w, Act.Put(id)).s, Do(w, Act.Put(id)).live) <==> !Spoils(w, Act.Put(id))
  {
    hide Inv, FreeBlob, Inside;
    FreeKeepsIff(w.s, w.live, id);
    if id in w.live {
      PayloadInHeap(w, id);
    } else {
      assert w.live - {id} == w.live;
    }
  }

  lemma LookKeeps(w: Stage, id: nat)
    requires Inv(w.s, w.live) && |w.s.heads| == MAX_BLOCKS
    ensures Inv(Do(w, Act.Look(id)).s, Do(w, Act.Look(id)).live)
  {
    hide Test, Find, Laid, NoStrayMagic, OwnedBlock, FreeIn;
    FindIsDirectory(w.s, w.live, id);
  }

  lemma PokeKeeps(w: Stage, id: nat, p: nat, h: Head)
    requires Inv(w.s, w.live) && |w.s.heads| == MAX_BLOCKS
    ensures Inv(Do(w, Poke(id, p, h)).s, Do(w, Poke(id, p, h)).live)
  {
    hide Inv, Inside;
    if id in w.live && Inside(w.live[id], p) { PayloadWriteKeeps(w.s, w.live, id, p, h); }
  }

  lemma AllocateCaches(s: Shared, size: nat)
    requires |s.heads| == MAX_BLOCKS && Allocate(s, size).Given?
    ensures Allocate(s, size).id in Allocate(s, size).s.cache
  {
    hide FirstRun;
  }

  ghost function DoAll(w: Stage, acts: seq<Act>): (v: Stage)
    requires |w.s.heads| == MAX_BLOCKS
    ensures |v.s.heads| == MAX_BLOCKS
    decreases |acts|
  {
    hide Do;
    if acts == [] then w else Do(DoAll(w, acts[..|acts| - 1]), acts[|acts| - 1])
  }

  ghost predicate NoneSpoils(w: Stage, acts: seq<Act>)
    requires |w.s.heads| == MAX_BLOCKS
  {
    forall k :: 0 <= k < |acts| ==> !Spoils(DoAll(w, acts[..k]), acts[k])
  }

  ghost predicate AlwaysInv(w: Stage, acts: seq<Act>)
    requires |w.s.heads| == MAX_BLOCKS
  {
    forall k :: 0 <= k <= |acts| ==> Inv(DoAll(w, acts[..k]).s, DoAll(w, acts[..k]).live)
  }

  lemma DoneMore(w: Stage, acts: seq<Act>)
    requires |w.s.heads| == MAX_BLOCKS && acts != []
    ensures DoAll(w, acts) == Do(DoAll(w, acts[..|acts| - 1]), acts[|acts| - 1])
  {
    hide Do;
  }

  // All through a run headers, bitmap and cache are right if and only if no freed payload shows a header.
  lemma {:induction false} EveryRunKeepsIff(w: Stage, acts: seq<Act>)
    requires Inv(w.s, w.live) && |w.s.heads| == MAX_BLOCKS
    ensures AlwaysInv(w, acts) <==> NoneSpoils(w, acts)
    decreases |acts|
  {
    hide Inv, Do, Spoils;
    if acts == [] {
      assert acts[..0] == [];
    } else {
      var front := acts[..|acts| - 1];
      EveryRunKeepsIff(w, front);
      assert acts[..|acts|] == acts;
      assert forall k :: 0 <= k <= |front| ==> front[..k] == acts[..k];
      assert front[..|front|] == front;
      DoneMore(w, acts);
      hide DoAll;
      if AlwaysInv(w, front) {
        DoKeepsIff(DoAll(w, front), acts[|acts| - 1]);
      }
    }
  }

  // And through every such run lookups answer as the directory would.
  lemma EveryRunFinds(w: Stage, acts: seq<Act>, id: nat)
    requires Inv(w.s, w.live) && |w.s.heads| == MAX_BLOCKS && NoneSpoils(w, acts)
    ensures var v := DoAll(w, acts);
      Inv(v.s, v.live) && Find(v.s, id).at == Direct(v.live, id)
  {
    hide Inv, DoAll, Find, NoneSpoils;
    EveryRunKeepsIff(w, acts);
    assert acts[..|acts|] == acts;
    var v := DoAll(w, acts);
    FindIsDirectory(v.s, v.live, id);
  }

  // ---- Ids are not used again -----------------------------------------------------------------

  lemma IdsStayOut(w: Stage, a: Act)
    requires |w.s.heads| == MAX_BLOCKS && w.s.next >= 0x1_0000
    ensures Do(w, a).s.next == w.s.next
  {
    hide FirstRun, SetRange, ClearRange, Find;
  }

  // Once the id counter has reached 2^16 no later run allocates anything.
  lemma {:induction false} IdsRunOut(w: Stage, acts: seq<Act>, size: nat)
    requires |w.s.heads| == MAX_BLOCKS && w.s.next >= 0x1_0000
    ensures var v := DoAll(w, acts);
      v.s.next == w.s.next && !Allocate(v.s, size).Given?
    decreases |acts|
  {
    hide Do, FirstRun, SetRange;
    if acts != [] {
      IdsRunOut(w, acts[..|acts| - 1], size);
      IdsStayOut(DoAll(w, acts[..|acts| - 1]), acts[|acts| - 1]);
    }
  }

  // Allocate and free an empty blob n times.
  function Cycles(n: nat): seq<Act> {
    if n == 0 then [] else Cycles(n - 1) + [Act.Get(0)] + [Act.Put(n)]
  }

  lemma {:induction false} CyclesReach(w: Stage, n: nat)
    requires Inv(w.s, w.live) && |w.s.heads| == MAX_BLOCKS && w.live == map[] && w.s.next == 1 && n < 0x1_0000
    ensures var v := DoAll(w, Cycles(n)); Inv(v.s, v.live) && v.live == map[] && v.s.next == n + 1
    decreases n
  {
    hide Inv, Do;
    if n > 0 {
      CyclesReach(w, n - 1);
      var got := Cycles(n - 1) + [Act.Get(0)];
      assert got[..|got| - 1] == Cycles(n - 1) && Cycles(n)[..|Cycles(n)| - 1] == got;
      CycleGet(DoAll(w, Cycles(n - 1)), n);
      CyclePut(DoAll(w, got), n);
    }
  }

  lemma EmptyRoom(w: Stage)
    requires Inv(w.s, w.live) && w.live == map[]
    ensures RunAt(w.s.bits, 0, 1)
  {
    hide Test;
    assert !Test(w.s.bits, 0);
  }

  lemma NextGiven(s: Shared)
    requires |s.heads| == MAX_BLOCKS && 0 < s.next < 0x1_0000 && !Allocate(s, 0).NoRoom?
    ensures Allocate(s, 0).Given? && Allocate(s, 0).id == s.next && Allocate(s, 0).s.next == s.next + 1
  {
    hide FirstRun, SetRange;
  }

  lemma CycleGet(w: Stage, n: nat)
    requires Inv(w.s, w.live) && |w.s.heads| == MAX_BLOCKS && w.live == map[] && 0 < w.s.next == n < 0x1_0000
    ensures var v := Do(w, Act.Get(0));
      Inv(v.s, v.live) && v.live.Keys == {n} && v.live[n].size == 0 && v.s.next == n + 1
  {
    assert Blocks(0) == 1;
    hide Inv, RunAt, Allocate, Blocks;
    EmptyRoom(w);
    NextGiven(w.s);
    AllocateKeeps(w.s, w.live, 0);
    AllocateCaches(w.s, 0);
    GetKeeps(w, 0);
  }

  lemma CyclePut(w: Stage, n: nat)
    requires Inv(w.s, w.live) && |w.s.heads| == MAX_BLOCKS && w.live.Keys == {n} && w.live[n].size == 0
    ensures var v := Do(w, Act.Put(n)); Inv(v.s, v.live) && v.live == map[] && v.s.next == w.s.next
  {
    assert Blocks(0) == 1;
    hide Inv, Find, ClearRange;
    assert w.live - {n} == map[];
    PutKeepsIff(w, n);
  }

  // From an empty heap, 65535 blobs allocated and freed leave it empty and useless.
  lemma IdsRunOutExample(heads: seq<Head>, acts: seq<Act>, size: nat)
    requires |heads| == MAX_BLOCKS && forall p :: 0 <= p < |heads| ==> heads[p] == NoMagic
    ensures var v := DoAll(Stage(Empty(heads), map[]), Cycles(65535));
      v.live == map[] && !Allocate(DoAll(v, acts).s, size).Given?
  {
    EmptyHeapInv(heads);
    var w := Stage(Empty(heads), map[]);
    hide Inv, DoAll, Allocate, Cycles;
    CyclesReach(w, 65535);
    IdsRunOut(DoAll(w, Cycles(65535)), acts, size);
  }
}

/** HeapManager of bridge/heap.py: the shared buffer's bitmap, control words and headers, and the offset cache. */
module BridgeHeap {
  import KernelBlobs
  import opened Basics
  import opened Bitmap
  import opened BlobSpec
  import opened BridgeHeapSpec

  class HeapManager {
    var bitmap: Bits
    var freeBlocks: int
    var nextBlobId: nat
    var heads: seq<Head>
    var blobCache: map<nat, nat>

    ghost function View(): Shared
      reads this
    {
      Shared(bitmap, freeBlocks, nextBlobId, heads, blobCache)
    }

    // Attach to a buffer; the cache starts empty.
    constructor (bits: Bits, free: int, next: nat, headers: seq<Head>)
      ensures View() == Shared(bits, free, next, headers, map[])
    {
      bitmap, freeBlocks, nextBlobId, heads, blobCache := bits, free, next, headers, map[];
    }

    method FindBlobOffset(id: nat) returns (at: Option<nat>)
      modifies this`blobCache
      ensures Found(at, blobCache) == Find(old(View()), id)
    {
      if id in blobCache { return Some(blobCache[id]); }
      var p := 0;
      while p < |heads|
        invariant BridgeHeapSpec.Scan(heads, id, 0, old(blobCache)) == BridgeHeapSpec.Scan(heads, id, p, blobCache)
        decreases |heads| - p
      {
        match heads[p]
        case NoMagic => p := p + 1;
        case Blob(i, size) =>
          blobCache := blobCache[i := p];
          if i == id { return Some(p); }
          p := p + Blocks(size);
      }
      return None;
    }

    method FindFreeBlocks(count: nat) returns (start: Option<nat>)
      requires |bitmap| == BITMAP_SIZE && count > 0
      ensures var s := FirstRun(bitmap, 0, MAX_BLOCKS, count);
        start == if s == MAX_BLOCKS then None else Some(s)
    {
      hide Test, FirstRun;
      var runStart: Option<nat> := None;
      var runLength, block := 0, 0;
      while block < MAX_BLOCKS
        invariant 0 <= runLength <= block <= MAX_BLOCKS && runLength < count
        invariant runStart == if runLength == 0 then None else Some(block - runLength)
        invariant RunAt(bitmap, block - runLength, runLength)
        invariant FirstRun(bitmap, 0, MAX_BLOCKS, count) == FirstRun(bitmap, block - runLength, MAX_BLOCKS, count)
      {
        var used := Test(bitmap, block);
        if !used {
          if runStart == None { runStart := Some(block); }
          runLength := runLength + 1;
          if runLength >= count {
            KernelBlobs.RunFound(bitmap, runStart.value, MAX_BLOCKS, count);
            return runStart;
          }
        } else {
          KernelBlobs.RunBroken(bitmap, block - runLength, MAX_BLOCKS, count, block);
          runStart, runLength := None, 0;
        }
        block := block + 1;
      }
      KernelBlobs.RunTooShort(bitmap, block - runLength, MAX_BLOCKS, count);
      return None;
    }

    // The new id, or nothing; an id or size that does not fit the header raises before any write.
    method AllocateBlob(size: nat) returns (r: Outcome)
      requires |heads| == MAX_BLOCKS && |bitmap| == BITMAP_SIZE
      modifies this
      ensures r == Allocate(old(View()), size)
      ensures View() == if r.Given? then r.s else old(View())
    {
      hide FirstRun, SetRange, Blocks;
      var n := Blocks(size);
      if freeBlocks < n { return NoRoom; }
      var start := FindFreeBlocks(n);
      if start == None { return NoRoom; }
      var bits := Marked(bitmap, start.value, n);
      var id := nextBlobId;
      if id == 0 { id := 1; }
      if id >= 0x1_0000 || size >= 0x1_0000_0000 { return IdTooLarge; }
      heads := heads[start.value := Blob(id, size)];
      bitmap := bits;
      freeBlocks, nextBlobId := freeBlocks - n, id + 1;
      blobCache := blobCache[id := start.value];
      return Given(Shared(bitmap, freeBlocks, nextBlobId, heads, blobCache), id);
    }

    method FreeBlob(id: nat) returns (ok: bool)
      modifies this
      ensures Freed(View(), ok) == BridgeHeapSpec.FreeBlob(old(View()), id)
    {
      hide Find, ClearRange, Blocks;
      var at := FindBlobOffset(id);
      if at == None || at.value >= |heads| || heads[at.value] == NoMagic { return false; }
      var start, n := at.value, Blocks(heads[at.value].size);
      var bits := Unmarked(bitmap, start, n);
      heads := heads[start := NoMagic];
      bitmap := bits;
      freeBlocks := freeBlocks + n;
      blobCache := blobCache - {id};
      return true;
    }
  }

  method Marked(bits: Bits, start: nat, n: nat) returns (r: Bits)
    ensures r == SetRange(bits, start, n)
  {
    hide Set;
    r := bits;
    var i := 0;
    while i < n
      invariant 0 <= i <= n && r == SetRange(bits, start, i)
    {
      r := Set(r, start + i);
      i := i + 1;
    }
  }

  method Unmarked(bits: Bits, start: nat, n: nat) returns (r: Bits)
    ensures r == ClearRange(bits, start, n)
  {
    hide Clear;
    r := bits;
    var i := 0;
    while i < n
      invariant 0 <= i <= n && r == ClearRange(bits, start, i)
    {
      r := Clear(r, start + i);
      i := i + 1;
    }
  }
}
