/**
 Whole runs of the allocator from `InitMyMalloc` on: what every reachable heap satisfies, what a
 canonical heap is determined by, and when all memory comes back.
 */
module HeapRuns {
  import opened HeapModel
  import opened Placement
  import opened Release

  // -- Boot -------------------------------------------------------------------------------------

  /** The requested heap size, rounded up to whole pages. */
  function RoundedSize(heapSize: nat): nat {
    if heapSize % PAGE_SIZE != 0 then (1 + heapSize / PAGE_SIZE) * PAGE_SIZE else heapSize
  }

  ghost predicate EnoughForBoot(capacity: int) {
    2 * SIZEOF_NODE + SIZEOF_FREELIST + SIZEOF_MUTEX <= capacity
  }

  function Pages(k: nat): nat {
    k * PAGE_SIZE
  }

  lemma PagesNext(k: nat)
    ensures Pages(k + 1) == Pages(k) + PAGE_SIZE
  {
  }

  lemma WholePages(x: nat)
    ensures x == Pages(x / PAGE_SIZE) + x % PAGE_SIZE
  {
  }

  /** The mapping is the least whole number of pages that holds the requested size, and enough to boot. */
  lemma RoundedSizeIsEnough(heapSize: nat)
    requires 0 < heapSize
    ensures heapSize <= RoundedSize(heapSize) < heapSize + PAGE_SIZE
    ensures exists k :: RoundedSize(heapSize) == Pages(k)
    ensures EnoughForBoot(RoundedSize(heapSize))
  {
    var q, r := heapSize / PAGE_SIZE, heapSize % PAGE_SIZE;
    WholePages(heapSize);
    PagesNext(q);
    assert RoundedSize(heapSize) == Pages(if r != 0 then q + 1 else q);
    if r == 0 {
      assert q > 0;
      PagesNext(q - 1);
    }
  }

  /** The mapping as one free tile. The mapping is zeroed, so no header in it looks valid. */
  ghost function Fresh(capacity: int): Heap
    requires SIZEOF_NODE <= capacity
  {
    Heap(capacity, map[0 := capacity - SIZEOF_NODE], [0], 0, map[], {})
  }

  /** The heap once the FreeList struct and the mutex have been allocated from it. */
  ghost function Booted(capacity: int): Heap
    requires EnoughForBoot(capacity)
  {
    Take(Take(Fresh(capacity), 0, SIZEOF_FREELIST), 0, SIZEOF_MUTEX)
  }

  lemma FreshIsCanonical(capacity: int)
    requires EnoughForBoot(capacity)
    ensures var h := Fresh(capacity);
            && Inv(h) && Canonical(h) && Suitable(h, SIZEOF_FREELIST, 0) && Splits(h, 0, SIZEOF_FREELIST)
            && Suitable(Take(h, 0, SIZEOF_FREELIST), SIZEOF_MUTEX, 0)
  {
    assert End(Fresh(capacity).blocks, 0) == capacity;
  }

  /** `InitMyMalloc` leaves a heap in order, whose only live blocks are the FreeList struct and the mutex. */
  lemma BootedIsCanonical(capacity: int)
    requires EnoughForBoot(capacity)
    ensures var h := Booted(capacity);
            && Inv(h) && Canonical(h) && h.capacity == capacity
            && h.live == map[0 := SIZEOF_FREELIST, SIZEOF_NODE + SIZEOF_FREELIST := SIZEOF_MUTEX]
            && |h.free| <= 1
  {
    var h0 := Fresh(capacity);
    FreshIsCanonical(capacity);
    TakeKeepsInv(h0, 0, SIZEOF_FREELIST);
    TakeKeepsIncreasing(h0, 0, SIZEOF_FREELIST);
    TakeKeepsCoalesced(h0, 0, SIZEOF_FREELIST);
    var h1 := Take(h0, 0, SIZEOF_FREELIST);
    TakeKeepsInv(h1, 0, SIZEOF_MUTEX);
    TakeKeepsIncreasing(h1, 0, SIZEOF_MUTEX);
    TakeKeepsCoalesced(h1, 0, SIZEOF_MUTEX);
  }

  // -- Runs -------------------------------------------------------------------------------------

  /**
   What happens to the heap: a call, or the client writing into memory. A write may turn any bytes
   that are not the header of a tile into something that looks like a header, or no longer does.
   */
  datatype Op =
    | Malloc(size: nat, strategy: Strategy)
    | Free(ptr: int)
    | Write(valid: set<int>)

  /** A pointer the client holds: to a live block that is not one of the allocator's own. */
  ghost predicate UserBlock(boot: Heap, h: Heap, a: int) {
    a in h.live && a !in boot.live
  }

  /** One step of a run. Nothing is assumed of a step from a heap whose list has left the tiles. */
  ghost predicate Step(boot: Heap, h: Heap, op: Op, h': Heap) {
    OnTiles(h) ==>
      match op
      case Malloc(n, strategy) => exists ptr :: Allocates(h, n, strategy, h', ptr)
      case Free(ptr) =>
        var a := ptr - SIZEOF_NODE;
        UserBlock(boot, h, a) && (a in h.blocks ==> !ReadsThroughNull(h, a) && h' == Freed(h, a))
      case Write(valid) => h' == h.(valid := valid) && forall a :: a in h.blocks ==> (a in valid <==> a in h.valid)
  }

  ghost predicate Run(capacity: int, ops: seq<Op>, hs: seq<Heap>)
    requires EnoughForBoot(capacity)
  {
    && |hs| == |ops| + 1
    && hs[0] == Booted(capacity)
    && forall i :: 0 <= i < |ops| ==> Step(Booted(capacity), hs[i], ops[i], hs[i + 1])
  }

  /** The block at `a` is live in both heaps, at the same size and for the same request. */
  ghost predicate SameBlock(h: Heap, h': Heap, a: int) {
    && a in h.live && a in h'.live && h'.live[a] == h.live[a]
    && a in h.blocks && a in h'.blocks && h'.blocks[a] == h.blocks[a]
  }

  lemma WriteKeepsInv(h: Heap, valid: set<int>)
    requires Inv(h) && forall a :: a in h.blocks ==> (a in valid <==> a in h.valid)
    ensures Inv(h.(valid := valid))
  {
    assert forall a :: a in h.live.Keys ==> a in h.live && a in h.blocks && a in valid;
  }

  lemma StepKeepsInv(boot: Heap, h: Heap, op: Op, h': Heap)
    requires Inv(h) && Step(boot, h, op, h')
    ensures Inv(h') && h'.capacity == h.capacity
  {
    hide Inv, Tiling, Distinct, Allocates, Freed, ReadsThroughNull;
    InvShows(h);
    match op
    case Malloc(n, strategy) =>
      var ptr :| Allocates(h, n, strategy, h', ptr);
      AllocationKeepsInv(h, n, strategy, h', ptr);
    case Free(ptr) =>
      FreedKeepsInv(h, ptr - SIZEOF_NODE);
    case Write(valid) =>
      WriteKeepsInv(h, valid);
  }

  lemma AllocationKeepsBlock(h: Heap, n: nat, strategy: Strategy, h': Heap, ptr: int, a: int)
    requires Inv(h) && Allocates(h, n, strategy, h', ptr) && a in h.live
    ensures SameBlock(h, h', a)
  {
    InvShows(h);
    if exists i: nat :: Suitable(h, n, i) {
      var i := TakenIndex(h, n, strategy, h', ptr);
      hide Inv, Allocates, Take;
      assert h.free[i] in h.free;
      AllocationHandsOut(h, n, strategy, h', ptr);
    }
  }

  /** A step leaves every live block alone, unless it is a free of that very block. */
  lemma StepKeepsBlock(boot: Heap, h: Heap, op: Op, h': Heap, a: int)
    requires Inv(h) && Step(boot, h, op, h')
    requires a in h.live && op != Free(a + SIZEOF_NODE)
    ensures SameBlock(h, h', a)
  {
    hide Inv, Tiling, Distinct, Allocates, Freed, ReadsThroughNull;
    InvShows(h);
    match op
    case Malloc(n, strategy) =>
      var ptr :| Allocates(h, n, strategy, h', ptr);
      AllocationKeepsBlock(h, n, strategy, h', ptr, a);
    case Free(ptr) =>
      FreedKeepsLive(h, ptr - SIZEOF_NODE);
    case Write(_) =>
  }

  lemma SameBlockOn(h: Heap, g: Heap, h': Heap, a: int)
    requires SameBlock(h, g, a) && SameBlock(g, h', a)
    ensures SameBlock(h, h', a)
  {
  }

  lemma StepKeepsBootBlocks(boot: Heap, h: Heap, op: Op, h': Heap)
    requires Inv(h) && Step(boot, h, op, h')
    requires forall a :: a in boot.live ==> SameBlock(boot, h, a)
    ensures forall a :: a in boot.live ==> SameBlock(boot, h', a)
  {
    forall a | a in boot.live
      ensures SameBlock(boot, h', a)
    {
      assert SameBlock(boot, h, a);
      StepKeepsBlock(boot, h, op, h', a);
      SameBlockOn(boot, h, h', a);
    }
  }

  lemma BootBlocks(capacity: int)
    requires EnoughForBoot(capacity)
    ensures Inv(Booted(capacity)) && Booted(capacity).capacity == capacity
    ensures forall a :: a in Booted(capacity).live ==> SameBlock(Booted(capacity), Booted(capacity), a)
  {
    BootedIsCanonical(capacity);
  }

  /** Every heap a run reaches satisfies the invariant and still holds the allocator's own two blocks. */
  lemma {:induction false} EveryReachableHeap(capacity: int, ops: seq<Op>, hs: seq<Heap>, i: nat)
    requires EnoughForBoot(capacity) && Run(capacity, ops, hs) && i < |hs|
    ensures Inv(hs[i]) && hs[i].capacity == capacity
    ensures forall a :: a in Booted(capacity).live ==> SameBlock(Booted(capacity), hs[i], a)
  {
    hide Inv, Booted, SameBlock, Step;
    BootBlocks(capacity);
    if i > 0 {
      EveryReachableHeap(capacity, ops, hs, i - 1);
      StepKeepsInv(Booted(capacity), hs[i - 1], ops[i - 1], hs[i]);
      StepKeepsBootBlocks(Booted(capacity), hs[i - 1], ops[i - 1], hs[i]);
    }
  }

  /**
   A block keeps its size, between its request and its request plus one header, from the moment it is
   live until it is freed, whatever else is split or merged meanwhile.
   */
  lemma {:induction false} BlockKeepsSizeUntilFreed(capacity: int, ops: seq<Op>, hs: seq<Heap>, i: nat, j: nat, a: int)
    requires EnoughForBoot(capacity) && Run(capacity, ops, hs) && i <= j < |hs|
    requires a in hs[i].live
    requires forall k :: i <= k < j ==> ops[k] != Free(a + SIZEOF_NODE)
    ensures SameBlock(hs[i], hs[j], a)
    ensures hs[i].live[a] <= hs[j].blocks[a] <= hs[i].live[a] + SIZEOF_NODE
  {
    EveryReachableHeap(capacity, ops, hs, j);
    if i < j {
      EveryReachableHeap(capacity, ops, hs, j - 1);
      BlockKeepsSizeUntilFreed(capacity, ops, hs, i, j - 1, a);
      StepKeepsBlock(Booted(capacity), hs[j - 1], ops[j - 1], hs[j], a);
    } else {
      EveryReachableHeap(capacity, ops, hs, i);
    }
  }

  /** Each free of the run finds the list empty or some free tile above its block. */
  ghost predicate FreesFindTileAbove(ops: seq<Op>, hs: seq<Heap>)
    requires |hs| == |ops| + 1
  {
    forall i :: 0 <= i < |ops| && ops[i].Free? ==> FoundAbove(hs[i], ops[i].ptr - SIZEOF_NODE)
  }

  lemma WriteKeepsCanonical(h: Heap, valid: set<int>)
    requires Inv(h) && Canonical(h) && Inv(h.(valid := valid))
    ensures Canonical(h.(valid := valid))
  {
    var h' := h.(valid := valid);
    assert forall b :: b in h'.free ==> End(h'.blocks, b) == End(h.blocks, b);
  }

  lemma StepKeepsCanonical(boot: Heap, h: Heap, op: Op, h': Heap)
    requires Inv(h) && Canonical(h) && Step(boot, h, op, h')
    requires op.Free? ==> FoundAbove(h, op.ptr - SIZEOF_NODE)
    ensures Inv(h') && Canonical(h')
  {
    hide Inv, Tiling, Distinct, Increasing, Coalesced, Allocates, Freed, ReadsThroughNull, FoundAbove;
    InvShows(h);
    StepKeepsInv(boot, h, op, h');
    match op
    case Malloc(n, strategy) =>
      var ptr :| Allocates(h, n, strategy, h', ptr);
      AllocationKeepsCanonical(h, n, strategy, h', ptr);
    case Free(ptr) =>
      FreeKeepsCanonicalIff(h, ptr - SIZEOF_NODE);
    case Write(valid) =>
      WriteKeepsCanonical(h, valid);
  }

  /** Under that hypothesis the free list stays in address order and maximally merged all along. */
  lemma {:induction false} RunStaysCanonical(capacity: int, ops: seq<Op>, hs: seq<Heap>, i: nat)
    requires EnoughForBoot(capacity) && Run(capacity, ops, hs) && i < |hs|
    requires FreesFindTileAbove(ops, hs)
    ensures Inv(hs[i]) && Canonical(hs[i])
  {
    BootedIsCanonical(capacity);
    if i > 0 {
      RunStaysCanonical(capacity, ops, hs, i - 1);
      StepKeepsCanonical(Booted(capacity), hs[i - 1], ops[i - 1], hs[i]);
    }
  }

  // -- A canonical heap is determined by its live blocks ----------------------------------------

  ghost predicate SameLiveBlocks(h: Heap, h': Heap) {
    && h.capacity == h'.capacity
    && (forall a :: a in h.live <==> a in h'.live)
    && (forall a :: a in h.live && a in h.blocks ==> a in h'.blocks && h'.blocks[a] == h.blocks[a])
  }

  /** Around equal live blocks, what is free in one canonical heap starts a free tile in the other. */
  lemma FreeTileAgrees(h: Heap, h': Heap, a: int)
    requires Inv(h) && Canonical(h) && Inv(h') && Canonical(h') && SameLiveBlocks(h, h')
    requires a in h.free
    ensures a in h'.free && a in h'.blocks && End(h'.blocks, a) >= End(h.blocks, a)
  {
    assert a in h.blocks;
    if a > 0 {
      var p := Predecessor(h.capacity, h.blocks, a);
      assert p in h.live;
      assert End(h'.blocks, p) == a;
    }
    assert a in h'.blocks && a !in h'.live;
    var e := End(h'.blocks, a);
    if e < End(h.blocks, a) {
      assert false;
    }
  }

  lemma {:induction false} SortedSequencesAgree(s: seq<int>, t: seq<int>)
    requires Increasing(s) && Increasing(t)
    requires forall x :: x in s <==> x in t
    ensures s == t
  {
    assert s != [] ==> s[0] in s;
    assert t != [] ==> t[0] in t;
    if s != [] && t != [] {
      var n, m := |s| - 1, |t| - 1;
      assert s[n] in t && t[m] in s;
      assert s[n] == t[m];
      forall x
        ensures x in s[..n] <==> x in t[..m]
      {
        if x in s[..n] {
          assert x in s && x < s[n];
          assert x in t;
        }
        if x in t[..m] {
          assert x in t && x < t[m];
          assert x in s;
        }
      }
      SortedSequencesAgree(s[..n], t[..m]);
      assert s == s[..n] + [s[n]] && t == t[..m] + [t[m]];
    }
  }

  /**
   Two canonical heaps with the same live blocks have the same tiles and the same free list: the order
   in which memory was allocated and freed, and the strategies used, leave no trace.
   */
  lemma CanonicalForm(h: Heap, h': Heap)
    requires Inv(h) && Canonical(h) && Inv(h') && Canonical(h') && SameLiveBlocks(h, h')
    ensures h.free == h'.free && h.blocks == h'.blocks
  {
    forall a
      ensures a in h.free ==> a in h'.free && h.blocks[a] <= h'.blocks[a]
      ensures a in h'.free ==> a in h.free && h'.blocks[a] <= h.blocks[a]
    {
      if a in h.free {
        FreeTileAgrees(h, h', a);
      }
      if a in h'.free {
        FreeTileAgrees(h', h, a);
      }
    }
    SortedSequencesAgree(h.free, h'.free);
    forall a
      ensures a in h.blocks <==> a in h'.blocks
      ensures a in h.blocks ==> h.blocks[a] == h'.blocks[a]
    {
      assert a in h.blocks <==> a in h.live || a in h.free;
      assert a in h'.blocks <==> a in h'.live || a in h'.free;
    }
  }

  /**
   Once no user block is left, whatever the run, the tiles and the free list are again what
   `InitMyMalloc` left exactly when the free list is in address order and maximally merged.
   */
  lemma ReclaimedIffCanonical(capacity: int, ops: seq<Op>, hs: seq<Heap>, i: nat)
    requires EnoughForBoot(capacity) && Run(capacity, ops, hs) && i < |hs|
    requires forall a :: !UserBlock(Booted(capacity), hs[i], a)
    ensures Inv(hs[i])
    ensures hs[i].free == Booted(capacity).free && hs[i].blocks == Booted(capacity).blocks <==> Canonical(hs[i])
  {
    var boot := Booted(capacity);
    BootedIsCanonical(capacity);
    EveryReachableHeap(capacity, ops, hs, i);
    forall a
      ensures a in boot.live <==> a in hs[i].live
      ensures a in boot.live ==> SameBlock(boot, hs[i], a)
    {
      assert !UserBlock(boot, hs[i], a);
    }
    if Canonical(hs[i]) {
      CanonicalForm(boot, hs[i]);
    }
  }

  /**
   Full reclamation: once every user block of such a run is freed, the tiles and the free list are
   again what `InitMyMalloc` left.
   */
  lemma FullReclamation(capacity: int, ops: seq<Op>, hs: seq<Heap>, i: nat)
    requires EnoughForBoot(capacity) && Run(capacity, ops, hs) && i < |hs|
    requires FreesFindTileAbove(ops, hs)
    requires forall a :: !UserBlock(Booted(capacity), hs[i], a)
    ensures hs[i].free == Booted(capacity).free && hs[i].blocks == Booted(capacity).blocks
  {
    RunStaysCanonical(capacity, ops, hs, i);
    ReclaimedIffCanonical(capacity, ops, hs, i);
  }
}
