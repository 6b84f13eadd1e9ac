/**
 What one call undoes and what repeated calls may do: freeing the block just allocated, freeing a
 block twice, and the two runs on which the allocator breaks its promises.
 */
module HeapLaws {
  import opened HeapModel
  import opened Placement
  import opened Release
  import opened HeapRuns

  // -- Allocate, then free ----------------------------------------------------------------------

  /** Freeing a block that is the only difference in live blocks leads back to the same tiles. */
  lemma FreeOfOnlyDifference(h: Heap, h': Heap, a: int)
    requires Inv(h) && Canonical(h) && Inv(h') && Canonical(h') && h.capacity == h'.capacity
    requires a in h'.live && h'.live - {a} == h.live
    requires forall b :: b in h.live && b in h.blocks ==> b in h'.blocks && h'.blocks[b] == h.blocks[b]
    requires FoundAbove(h', a) && !ReadsThroughNull(h', a)
    ensures Freed(h', a).free == h.free && Freed(h', a).blocks == h.blocks
  {
    FreeKeepsCanonicalIff(h', a);
    FreedKeepsLive(h', a);
    CanonicalForm(h, Freed(h', a));
  }

  lemma TakeKeepsCanonical(h: Heap, i: nat, n: nat)
    requires Inv(h) && Canonical(h) && Suitable(h, n, i)
    ensures Inv(Take(h, i, n)) && Canonical(Take(h, i, n))
  {
    TakeKeepsInv(h, i, n);
    TakeKeepsIncreasing(h, i, n);
    TakeKeepsCoalesced(h, i, n);
  }

  lemma TakenBlockIsOnlyDifference(h: Heap, i: nat, n: nat)
    requires Inv(h) && Suitable(h, n, i)
    ensures var (a, h') := (h.free[i], Take(h, i, n));
            && a in h'.live && h'.live - {a} == h.live && a in h'.blocks
            && forall b :: b in h.live && b in h.blocks ==> b in h'.blocks && h'.blocks[b] == h.blocks[b]
  {
    var a, h' := h.free[i], Take(h, i, n);
    assert a in h.free;
    assert h'.live - {a} == h.live;
    TakeMembers(h, i, n);
  }

  /** After a split, or once the head is taken, the block can be freed into its old place. */
  lemma TakenBlockCanReturn(h: Heap, i: nat, n: nat)
    requires Inv(h) && Canonical(h) && Suitable(h, n, i) && (Splits(h, i, n) || i == 0)
    requires Inv(Take(h, i, n)) && Canonical(Take(h, i, n)) && h.free[i] in Take(h, i, n).live
    ensures var (a, h') := (h.free[i], Take(h, i, n));
            FoundAbove(h', a) && !ReadsThroughNull(h', a)
  {
    var a, h' := h.free[i], Take(h, i, n);
    if Splits(h, i, n) {
      assert h'.free[i] == End(h'.blocks, a);
      assert End(h'.blocks, a) in h'.free;
      NextInOrder(h', a);
    } else if h'.free != [] {
      assert h'.free[0] == h.free[1];
      assert h'.free[0] in h'.free;
    }
  }

  lemma RoundTripRestores(h: Heap, i: nat, n: nat)
    requires Inv(h) && Canonical(h) && Suitable(h, n, i) && (Splits(h, i, n) || i == 0)
    ensures var (a, h') := (h.free[i], Take(h, i, n));
            && Inv(h') && a in h'.live && !ReadsThroughNull(h', a)
            && Freed(h', a).free == h.free && Freed(h', a).blocks == h.blocks
  {
    TakeKeepsCanonical(h, i, n);
    TakenBlockIsOnlyDifference(h, i, n);
    TakenBlockCanReturn(h, i, n);
    FreeOfOnlyDifference(h, Take(h, i, n), h.free[i]);
  }

  /** Between two list entries that touch it on neither side, with the roving pointer on the second. */
  lemma BetweenWithRover(h: Heap, a: int, j: nat)
    requires Inv(h) && a in h.live && Increasing(h.free) && 0 < j < |h.free|
    requires h.free[j - 1] < a < h.free[j] && h.nextFree == h.free[j]
    requires End(h.blocks, a) != h.free[j] && End(h.blocks, h.free[j - 1]) != a
    ensures ReadsThroughNull(h, a)
  {
    assert h.free[j] in h.free;
    SearchInOrder(h.free, a);
    assert InsertIndex(h.free, a) == j;
  }

  /** The whole of a tile between two others was handed out: freeing it reads through null. */
  lemma RoundTripFailsBetween(h: Heap, i: nat, n: nat)
    requires Inv(h) && Canonical(h) && Suitable(h, n, i) && !Splits(h, i, n) && 0 < i < |h.free| - 1
    ensures var (a, h') := (h.free[i], Take(h, i, n));
            Inv(h') && a in h'.live && ReadsThroughNull(h', a)
  {
    var a, h' := h.free[i], Take(h, i, n);
    TakeKeepsCanonical(h, i, n);
    TakenBlockIsOnlyDifference(h, i, n);
    assert h'.free[i] == h.free[i + 1] && h'.free[i - 1] == h.free[i - 1];
    assert h.free[i - 1] in h.free && h.free[i] in h.free && h.free[i + 1] in h.free;
    assert End(h.blocks, h.free[i - 1]) !in h.free && End(h.blocks, a) !in h.free;
    assert End(h'.blocks, a) == End(h.blocks, a);
    assert End(h'.blocks, h.free[i - 1]) == End(h.blocks, h.free[i - 1]);
    BetweenWithRover(h', a, i);
  }

  /** The whole of the last tile was handed out: freeing it links it before the tile below it. */
  lemma RoundTripFailsAtEnd(h: Heap, i: nat, n: nat)
    requires Inv(h) && Canonical(h) && Suitable(h, n, i) && !Splits(h, i, n) && 0 < i == |h.free| - 1
    ensures var (a, h') := (h.free[i], Take(h, i, n));
            Inv(h') && a in h'.live && Freed(h', a).free != h.free
  {
    var a, h' := h.free[i], Take(h, i, n);
    TakeKeepsCanonical(h, i, n);
    TakenBlockIsOnlyDifference(h, i, n);
    assert forall k :: 0 <= k < |h'.free| ==> h'.free[k] == h.free[k];
    FreedOutOfOrder(h', a);
  }

  /**
   In a canonical heap, freeing the block just allocated gives back the same tiles and the same free
   list exactly when the allocation split the tile or took the head of the list.
   */
  lemma RoundTripIff(h: Heap, i: nat, n: nat)
    requires Inv(h) && Canonical(h) && Suitable(h, n, i)
    ensures var (a, h') := (h.free[i], Take(h, i, n));
            && Inv(h') && a in h'.live
            && ((!ReadsThroughNull(h', a) && Freed(h', a).free == h.free && Freed(h', a).blocks == h.blocks)
                <==> Splits(h, i, n) || i == 0)
  {
    if Splits(h, i, n) || i == 0 {
      RoundTripRestores(h, i, n);
    } else {
      if i < |h.free| - 1 {
        RoundTripFailsBetween(h, i, n);
      } else {
        RoundTripFailsAtEnd(h, i, n);
      }
    }
  }

  // -- Freeing twice ----------------------------------------------------------------------------

  /** What `MyFree` checks before it touches the heap. */
  ghost predicate Accepts(h: Heap, ptr: int) {
    && ptr != NULL
    && 0 <= ptr - SIZEOF_NODE <= h.capacity
    && ptr - SIZEOF_NODE in h.valid
  }

  /** The client passes no pointer to a forged header, and not the one pointer the merge cannot take. */
  ghost predicate MayFree(h: Heap, ptr: int) {
    Accepts(h, ptr) ==>
      OnTiles(h) && ptr - SIZEOF_NODE in h.live && ptr - SIZEOF_NODE in h.blocks &&
      !ReadsThroughNull(h, ptr - SIZEOF_NODE)
  }

  /** `MyFree(ptr)`: the heap it leaves and the value it returns. */
  ghost function MyFreed(h: Heap, ptr: int): (Heap, int)
    requires MayFree(h, ptr)
  {
    if Accepts(h, ptr) then (Freed(h, ptr - SIZEOF_NODE), 0) else (h, -1)
  }

  /** `MyFree` accepts every pointer the client holds. */
  lemma LivePointersAreAccepted(h: Heap, a: int)
    requires Inv(h) && a in h.live
    ensures Accepts(h, a + SIZEOF_NODE)
  {
    assert a in h.live.Keys && a in h.blocks;
  }

  /**
   On every run, `MyFree` accepts and frees each pointer the client holds, unless freeing it would read
   through the null result of the merge.
   */
  lemma UserPointersAreFreed(capacity: int, ops: seq<Op>, hs: seq<Heap>, i: nat, a: int)
    requires EnoughForBoot(capacity) && Run(capacity, ops, hs) && i < |hs|
    requires UserBlock(Booted(capacity), hs[i], a)
    ensures var (h, ptr) := (hs[i], a + SIZEOF_NODE);
            && Accepts(h, ptr) && OnTiles(h) && a in h.blocks
            && (MayFree(h, ptr) <==> !ReadsThroughNull(h, a))
            && (MayFree(h, ptr) ==> MyFreed(h, ptr) == (Freed(h, a), 0))
  {
    hide ReadsThroughNull, Freed;
    EveryReachableHeap(capacity, ops, hs, i);
    InvShows(hs[i]);
    LivePointersAreAccepted(hs[i], a);
  }

  /** `MyFree` succeeds exactly on the pointers to live blocks, and on any other returns -1 and changes nothing. */
  lemma FreesLiveBlocksOnly(h: Heap, ptr: int)
    requires Inv(h) && MayFree(h, ptr)
    ensures MyFreed(h, ptr).1 == if ptr - SIZEOF_NODE in h.live then 0 else -1
    ensures ptr - SIZEOF_NODE !in h.live ==> MyFreed(h, ptr).0 == h
  {
    if ptr - SIZEOF_NODE in h.live {
      LivePointersAreAccepted(h, ptr - SIZEOF_NODE);
    }
  }

  /** The header at `a` lies inside one free tile, and is that tile's own header or clear of it. */
  ghost predicate HeaderInFreeTile(h: Heap, a: int) {
    exists t :: t in h.free && t in h.blocks &&
                (t == a || (t + SIZEOF_NODE <= a && a + SIZEOF_NODE <= End(h.blocks, t)))
  }

  lemma HeaderStaysInFreeTile(h: Heap, b: int, h': Heap, before: bool, after: bool, m: int, a: int)
    requires Inv(h) && b in h.live && Absorbs(h, b, h', before, after, m)
    requires a == b || HeaderInFreeTile(h, a)
    ensures HeaderInFreeTile(h', a)
  {
    if a == b {
      assert m in h'.free && m in h'.blocks;
    } else {
      var t :| t in h.free && t in h.blocks &&
               (t == a || (t + SIZEOF_NODE <= a && a + SIZEOF_NODE <= End(h.blocks, t)));
      if t == m || (after && t == End(h.blocks, b)) {
        assert m in h'.free && m in h'.blocks;
      } else {
        assert t in h'.free && t in h'.blocks && End(h'.blocks, t) == End(h.blocks, t);
      }
    }
  }

  /** Freeing a block puts its header inside a free tile, and leaves the headers already there inside one. */
  lemma FreedHeaderStaysInFreeTile(h: Heap, b: int, a: int)
    requires Inv(h) && b in h.live && (a == b || HeaderInFreeTile(h, a))
    ensures HeaderInFreeTile(Freed(h, b), a)
  {
    var before, after, m := FreedMerge(h, b);
    HeaderStaysInFreeTile(h, b, Freed(h, b), before, after, m, a);
  }

  /** No header of another tile shares a byte with a header that lies inside a free tile. */
  lemma HeadersInFreeTilesAreUntouched(h: Heap, a: int, b: int)
    requires Inv(h) && HeaderInFreeTile(h, a) && b in h.blocks
    ensures a == b || a + SIZEOF_NODE <= b || b + SIZEOF_NODE <= a
  {
  }

  /** The heaps after a series of `MyFree` calls, none of them interrupted by anything else. */
  ghost predicate Frees(hs: seq<Heap>, ptrs: seq<int>) {
    && |hs| == |ptrs| + 1
    && forall i :: 0 <= i < |ptrs| ==> MayFree(hs[i], ptrs[i]) && hs[i + 1] == MyFreed(hs[i], ptrs[i]).0
  }

  lemma FreedKeepsRejecting(h: Heap, b: int, a: int)
    requires Inv(h) && b in h.live && !ReadsThroughNull(h, b)
    requires a == b || (HeaderInFreeTile(h, a) && a !in h.valid)
    ensures Inv(Freed(h, b)) && HeaderInFreeTile(Freed(h, b), a) && a !in Freed(h, b).valid
  {
    InvShows(h);
    hide Inv, Freed;
    FreedKeepsInv(h, b);
    FreedHeaderStaysInFreeTile(h, b, a);
    FreedRest(h, b);
  }

  lemma FreeKeepsRejecting(h: Heap, q: int, a: int)
    requires Inv(h) && MayFree(h, q) && HeaderInFreeTile(h, a) && a !in h.valid
    ensures var h' := MyFreed(h, q).0;
            Inv(h') && HeaderInFreeTile(h', a) && a !in h'.valid
  {
    if Accepts(h, q) {
      FreedKeepsRejecting(h, q - SIZEOF_NODE, a);
    }
  }

  lemma {:induction false} FreesKeepRejecting(hs: seq<Heap>, ptrs: seq<int>, a: int, i: nat)
    requires Frees(hs, ptrs) && i < |hs|
    requires Inv(hs[0]) && HeaderInFreeTile(hs[0], a) && a !in hs[0].valid
    ensures Inv(hs[i]) && HeaderInFreeTile(hs[i], a) && a !in hs[i].valid
  {
    if i > 0 {
      FreesKeepRejecting(hs, ptrs, a, i - 1);
      FreeKeepsRejecting(hs[i - 1], ptrs[i - 1], a);
    }
  }

  /**
   Once `MyFree(p)` has returned 0, `MyFree(p)` returns -1 and changes nothing, after any number of
   further `MyFree` calls, also when the block's header has long been absorbed by another tile. That
   header still lies within a free tile, clear of the header of every other tile.
   */
  lemma DoubleFreeIsRejected(h: Heap, p: int, hs: seq<Heap>, ptrs: seq<int>, i: nat)
    requires Inv(h) && MayFree(h, p) && MyFreed(h, p).1 == 0
    requires Frees(hs, ptrs) && hs[0] == MyFreed(h, p).0 && i < |hs|
    ensures MayFree(hs[i], p) && MyFreed(hs[i], p) == (hs[i], -1)
    ensures HeaderInFreeTile(hs[i], p - SIZEOF_NODE)
    ensures forall b :: b in hs[i].blocks ==>
              b == p - SIZEOF_NODE || p <= b || b + SIZEOF_NODE <= p - SIZEOF_NODE
  {
    hide Inv, Freed, ReadsThroughNull, HeaderInFreeTile;
    var a := p - SIZEOF_NODE;
    FreedKeepsRejecting(h, a, a);
    FreesKeepRejecting(hs, ptrs, a, i);
    forall b | b in hs[i].blocks {
      HeadersInFreeTilesAreUntouched(hs[i], a, b);
    }
  }

  // -- Runs that go wrong -----------------------------------------------------------------------

  /** Allocating one byte from a heap whose only free tile is long enough to split. */
  lemma OneByteFromTail(h: Heap, t: int)
    requires Inv(h) && Canonical(h) && h.free == [t] && t in h.blocks && h.blocks[t] > SIZEOF_NODE + 1
    ensures var h' := Take(h, 0, 1);
            && Inv(h') && Canonical(h')
            && Allocates(h, 1, FirstFit, h', t + SIZEOF_NODE)
            && h'.free == [t + SIZEOF_NODE + 1] && h'.nextFree == t + SIZEOF_NODE + 1
            && h'.live == h.live[t := 1]
            && h'.blocks == h.blocks[t := 1][t + SIZEOF_NODE + 1 := h.blocks[t] - 1 - SIZEOF_NODE]
  {
    assert Suitable(h, 1, 0) && Splits(h, 0, 1);
    TakeKeepsInv(h, 0, 1);
    TakeKeepsIncreasing(h, 0, 1);
    TakeKeepsCoalesced(h, 0, 1);
    assert Chosen(h, 1, FirstFit, 0);
  }

  /** The tail of a freshly booted heap that is not used up by the allocator's own blocks. */
  lemma BootedTail(capacity: int)
    requires EnoughForBoot(capacity) && capacity > 3 * SIZEOF_NODE + SIZEOF_FREELIST + SIZEOF_MUTEX
    ensures var (h, t) := (Booted(capacity), 2 * SIZEOF_NODE + SIZEOF_FREELIST + SIZEOF_MUTEX);
            && Inv(h) && Canonical(h) && h.free == [t] && t in h.blocks
            && h.blocks[t] == capacity - t - SIZEOF_NODE
            && h.live == map[0 := SIZEOF_FREELIST, SIZEOF_NODE + SIZEOF_FREELIST := SIZEOF_MUTEX]
  {
    BootedIsCanonical(capacity);
  }

  lemma ExtendRun(capacity: int, ops: seq<Op>, hs: seq<Heap>, op: Op, h: Heap)
    requires EnoughForBoot(capacity) && Run(capacity, ops, hs) && Step(Booted(capacity), hs[|ops|], op, h)
    ensures Run(capacity, ops + [op], hs + [h])
  {
  }

  /** The address of the `k`-th one-byte block, when the free tail started at `t`. */
  ghost function At(t: int, k: nat): int {
    if k == 0 then t else At(t, k - 1) + SIZEOF_NODE + 1
  }

  ghost function FirstTail(): int {
    2 * SIZEOF_NODE + SIZEOF_FREELIST + SIZEOF_MUTEX
  }

  /** Room for `k` one-byte blocks after boot, with a free tile left over. */
  ghost predicate RoomFor(capacity: int, k: nat) {
    At(FirstTail(), k) + SIZEOF_NODE < capacity
  }

  /** `k` one-byte blocks lie side by side after the allocator's own, and the rest is one free tile. */
  ghost predicate OneByteBlocks(capacity: int, k: nat, h: Heap)
    requires EnoughForBoot(capacity)
  {
    var t := FirstTail();
    && Inv(h) && Canonical(h) && h.capacity == capacity
    && h.free == [At(t, k)] && h.nextFree == At(t, k)
    && End(h.blocks, h.free[0]) == capacity
    && (forall i :: 0 <= i < k ==>
          At(t, i) in h.live && h.live[At(t, i)] == 1 && End(h.blocks, At(t, i)) == At(t, i + 1))
    && (forall i :: 0 <= i < k ==> At(t, i) !in Booted(capacity).live)
  }

  lemma NoBlocksYet(capacity: int)
    requires EnoughForBoot(capacity) && RoomFor(capacity, 0)
    ensures OneByteBlocks(capacity, 0, Booted(capacity))
  {
    BootedTail(capacity);
  }

  /** A run of `k` one-byte first-fit allocations. */
  lemma {:induction false} AllocateOneByteBlocks(capacity: int, k: nat) returns (ops: seq<Op>, hs: seq<Heap>)
    requires EnoughForBoot(capacity) && RoomFor(capacity, k)
    ensures Run(capacity, ops, hs) && |ops| == k
    ensures forall i :: 0 <= i < k ==> ops[i] == Malloc(1, FirstFit)
    ensures OneByteBlocks(capacity, k, hs[k])
  {
    hide Booted, Inv, Allocates, Take, OneByteBlocks, SameBlock;
    if k == 0 {
      NoBlocksYet(capacity);
      ops, hs := [], [Booted(capacity)];
    } else {
      ops, hs := AllocateOneByteBlocks(capacity, k - 1);
      EveryReachableHeap(capacity, ops, hs, k - 1);
      var h := OneMoreByte(capacity, k, hs[k - 1]);
      ExtendRun(capacity, ops, hs, Malloc(1, FirstFit), h);
      ops, hs := ops + [Malloc(1, FirstFit)], hs + [h];
    }
  }

  lemma OneMoreByte(capacity: int, k: nat, g: Heap) returns (h: Heap)
    requires EnoughForBoot(capacity) && k > 0 && RoomFor(capacity, k) && OneByteBlocks(capacity, k - 1, g)
    requires forall a :: a in Booted(capacity).live ==> SameBlock(Booted(capacity), g, a)
    ensures Allocates(g, 1, FirstFit, h, At(FirstTail(), k - 1) + SIZEOF_NODE)
    ensures OneByteBlocks(capacity, k, h)
  {
    var t := At(FirstTail(), k - 1);
    assert t in g.free;
    OneByteFromTail(g, t);
    h := Take(g, 0, 1);
    assert t !in Booted(capacity).live by {
      assert t !in g.live;
    }
    OneByteMoreIsLive(capacity, k, g, h);
  }

  lemma OneByteMoreIsLive(capacity: int, k: nat, g: Heap, h: Heap)
    requires EnoughForBoot(capacity) && k > 0 && OneByteBlocks(capacity, k - 1, g)
    requires Inv(h) && Canonical(h) && h.capacity == capacity
    requires var t := At(FirstTail(), k - 1);
             && t !in Booted(capacity).live
             && h.free == [t + SIZEOF_NODE + 1] && h.nextFree == t + SIZEOF_NODE + 1
             && h.live == g.live[t := 1]
             && h.blocks == g.blocks[t := 1][t + SIZEOF_NODE + 1 := g.blocks[t] - 1 - SIZEOF_NODE]
    ensures OneByteBlocks(capacity, k, h)
  {
    var t := At(FirstTail(), k - 1);
    assert At(FirstTail(), k) == t + SIZEOF_NODE + 1;
    assert At(FirstTail(), k) !in g.blocks;
    forall i | 0 <= i < k
      ensures var a := At(FirstTail(), i); a in h.live && h.live[a] == 1 && End(h.blocks, a) == At(FirstTail(), i + 1)
    {
      var a := At(FirstTail(), i);
      if i < k - 1 {
        assert a in g.live && a in g.blocks && t in g.free;
      }
    }
  }

  /**
   Four one-byte allocations, then freeing the first and the third: an ordinary run on which the second
   free would read through the null result of the merge.
   */
  lemma ReadThroughNullIsReachable(capacity: int) returns (ops: seq<Op>, hs: seq<Heap>, ptr: int)
    requires EnoughForBoot(capacity) && RoomFor(capacity, 4)
    ensures Run(capacity, ops, hs) && |ops| == 5
    ensures UserBlock(Booted(capacity), hs[5], ptr - SIZEOF_NODE)
    ensures OnTiles(hs[5]) && ptr - SIZEOF_NODE in hs[5].blocks && ReadsThroughNull(hs[5], ptr - SIZEOF_NODE)
  {
    ops, hs := AllocateOneByteBlocks(capacity, 4);
    var t := FirstTail();
    var h := FirstOfFourFreed(capacity, hs[4]);
    assert UserBlock(Booted(capacity), hs[4], At(t, 0));
    ExtendRun(capacity, ops, hs, Free(At(t, 0) + SIZEOF_NODE), h);
    ops, hs, ptr := ops + [Free(At(t, 0) + SIZEOF_NODE)], hs + [h], At(t, 2) + SIZEOF_NODE;
  }

  lemma FirstOfFourFreed(capacity: int, h: Heap) returns (h': Heap)
    requires EnoughForBoot(capacity) && OneByteBlocks(capacity, 4, h)
    ensures var (a, c) := (At(FirstTail(), 0), At(FirstTail(), 2));
            && a in h.live && a in h.blocks && !ReadsThroughNull(h, a) && h' == Freed(h, a)
            && Inv(h') && c in h'.live && c in h'.blocks && ReadsThroughNull(h', c)
            && c !in Booted(capacity).live
  {
    var t := FirstTail();
    var a, b, c, d, e := At(t, 0), At(t, 1), At(t, 2), At(t, 3), At(t, 4);
    assert a in h.live && c in h.live;
    assert End(h.blocks, a) == b && End(h.blocks, c) == d;
    assert a < b < c < d < e;
    h' := FreedBelowAll(h, a, e);
    BetweenWithRover(h', c, 1);
  }

  /** Freeing a block below the only free tile, which it does not touch. */
  lemma FreedBelowAll(h: Heap, a: int, e: int) returns (h': Heap)
    requires Inv(h) && a in h.live && a in h.blocks && h.free == [e] && a < e && End(h.blocks, a) != e
    ensures !ReadsThroughNull(h, a) && h' == Freed(h, a)
    ensures Inv(h') && h'.free == [a, e] && h'.nextFree == h.nextFree
    ensures h'.live == h.live - {a} && h'.blocks == h.blocks
  {
    assert InsertIndex(h.free, a) == 0;
    h' := Freed(h, a);
    FreedKeepsInv(h, a);
  }

  /**
   A one-byte block and a block of all the rest, freed in that order: no user block is live, yet the
   free list holds two touching tiles in the wrong order.
   */
  lemma ReclamationFails(capacity: int) returns (ops: seq<Op>, hs: seq<Heap>)
    requires EnoughForBoot(capacity) && RoomFor(capacity, 1)
    ensures Run(capacity, ops, hs) && |ops| == 4
    ensures forall a :: !UserBlock(Booted(capacity), hs[4], a)
    ensures |hs[4].free| == 2 && hs[4].free[0] > hs[4].free[1]
    ensures hs[4].free[1] in hs[4].blocks && End(hs[4].blocks, hs[4].free[1]) == hs[4].free[0]
  {
    var t, q := FirstTail(), FirstTail() + SIZEOF_NODE + 1;
    ops, hs := AllocateAll(capacity, t, q);
    var h3, h4 := FreeUpwards(hs[2], t, q);
    ExtendByFree(capacity, ops, hs, t, h3);
    ops, hs := ops + [Free(t + SIZEOF_NODE)], hs + [h3];
    ExtendByFree(capacity, ops, hs, q, h4);
    ops, hs := ops + [Free(q + SIZEOF_NODE)], hs + [h4];
  }

  lemma ExtendByFree(capacity: int, ops: seq<Op>, hs: seq<Heap>, a: int, h: Heap)
    requires EnoughForBoot(capacity) && Run(capacity, ops, hs)
    requires var g := hs[|ops|];
             && UserBlock(Booted(capacity), g, a) && OnTiles(g) && a in g.blocks
             && !ReadsThroughNull(g, a) && h == Freed(g, a)
    ensures Run(capacity, ops + [Free(a + SIZEOF_NODE)], hs + [h])
  {
    ExtendRun(capacity, ops, hs, Free(a + SIZEOF_NODE), h);
  }

  /** A run of two allocations that leaves no free tile. */
  lemma AllocateAll(capacity: int, t: int, q: int) returns (ops: seq<Op>, hs: seq<Heap>)
    requires EnoughForBoot(capacity) && RoomFor(capacity, 1)
    requires t == FirstTail() && q == t + SIZEOF_NODE + 1
    ensures Run(capacity, ops, hs) && |ops| == 2
    ensures Inv(hs[2]) && hs[2].free == [] && t in hs[2].blocks && End(hs[2].blocks, t) == q
    ensures t !in Booted(capacity).live && q !in Booted(capacity).live
    ensures forall a :: a in hs[2].live <==> a in Booted(capacity).live || a == t || a == q
  {
    ops, hs := AllocateFirst(capacity, t, q);
    var h1 := hs[1];
    var h2 := TakeAll(h1, q);
    ExtendRun(capacity, ops, hs, Malloc(h1.blocks[q], FirstFit), h2);
    ops, hs := ops + [Malloc(h1.blocks[q], FirstFit)], hs + [h2];
  }

  lemma AllocateFirst(capacity: int, t: int, q: int) returns (ops: seq<Op>, hs: seq<Heap>)
    requires EnoughForBoot(capacity) && RoomFor(capacity, 1)
    requires t == FirstTail() && q == t + SIZEOF_NODE + 1
    ensures Run(capacity, ops, hs) && |ops| == 1
    ensures Inv(hs[1]) && hs[1].free == [q] && q in hs[1].blocks && t in hs[1].blocks && End(hs[1].blocks, t) == q
    ensures t !in Booted(capacity).live && q !in Booted(capacity).live
    ensures hs[1].live == Booted(capacity).live[t := 1]
  {
    hide Booted, Inv, Canonical, Take, Allocates;
    BootedTail(capacity);
    var h := FirstByte(Booted(capacity), t);
    ops, hs := [Malloc(1, FirstFit)], [Booted(capacity), h];
  }

  lemma FirstByte(boot: Heap, t: int) returns (h: Heap)
    requires Inv(boot) && Canonical(boot) && boot.free == [t] && t in boot.blocks
    requires boot.blocks[t] > SIZEOF_NODE + 1
    ensures Step(boot, boot, Malloc(1, FirstFit), h)
    ensures var q := t + SIZEOF_NODE + 1;
            && Inv(h) && h.free == [q] && q in h.blocks && t in h.blocks && End(h.blocks, t) == q
            && t !in boot.live && q !in boot.live
    ensures h.live == boot.live[t := 1]
  {
    OneByteFromTail(boot, t);
    h := Take(boot, 0, 1);
    assert t in boot.free && h.free[0] in h.free;
  }

  /** Handing out the only free tile whole empties the list. */
  lemma TakeAll(h: Heap, q: int) returns (h': Heap)
    requires Inv(h) && h.free == [q] && q in h.blocks
    ensures Allocates(h, h.blocks[q], FirstFit, h', q + SIZEOF_NODE)
    ensures Inv(h') && h'.free == [] && h'.blocks == h.blocks && h'.live == h.live[q := h.blocks[q]]
  {
    var n := h.blocks[q];
    assert Suitable(h, n, 0) && Chosen(h, n, FirstFit, 0);
    h' := Take(h, 0, n);
    TakeKeepsInv(h, 0, n);
  }

  /** Freeing two touching blocks into an empty list, the lower one first. */
  lemma FreeUpwards(h: Heap, t: int, q: int) returns (h': Heap, h'': Heap)
    requires Inv(h) && h.free == [] && t in h.live && q in h.live && t in h.blocks && End(h.blocks, t) == q
    ensures !ReadsThroughNull(h, t) && h' == Freed(h, t)
    ensures Inv(h') && q in h'.live && q in h'.blocks && !ReadsThroughNull(h', q) && h'' == Freed(h', q)
    ensures h''.free == [q, t] && h''.live == h.live - {t} - {q}
    ensures t in h''.blocks && End(h''.blocks, t) == q
  {
    h' := Freed(h, t);
    FreedKeepsInv(h, t);
    assert h'.free == [t] && h'.blocks == h.blocks;
    assert InsertIndex(h'.free, q) == 0;
    h'' := Freed(h', q);
  }
}
