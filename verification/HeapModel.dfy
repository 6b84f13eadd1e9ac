/**
 The state of the shared heap, free of its in-memory encoding: which tiles the byte range is cut
 into, which of them are on the free list and in what order, and what the invariant of the
 allocator says about them.

 An address is a byte offset from the start of the heap; `NULL` is not an offset.
 */
module HeapModel {

  type Positive = n: int | 0 < n witness 1

  const SIZEOF_NODE: Positive      // sizeof(Node)
  const SIZEOF_FREELIST: Positive  // sizeof(FreeList)
  const SIZEOF_MUTEX: Positive     // sizeof(pthread_mutex_t)

  /** A page holds the first header, the FreeList struct, one more header and the mutex. */
  type PageBytes = n: int | 2 * SIZEOF_NODE + SIZEOF_FREELIST + SIZEOF_MUTEX <= n
    witness 2 * SIZEOF_NODE + SIZEOF_FREELIST + SIZEOF_MUTEX

  const PAGE_SIZE: PageBytes

  const NULL := -1

  /**
   `blocks` maps the address of each tile's header to the `size` field of that header; `free` is the
   free list in list order; `nextFree` is the roving pointer. `live` maps the header of each block
   handed out and not yet freed to the size that was requested. `valid` holds the addresses whose
   header carries the magic number and is not marked freed, whether or not a tile starts there.
   */
  datatype Heap = Heap(
    capacity: int,
    blocks: map<int, nat>,
    free: seq<int>,
    nextFree: int,
    live: map<int, nat>,
    valid: set<int>)

  /** The first byte after the tile that starts at `a`. */
  function End(blocks: map<int, nat>, a: int): int
    requires a in blocks
  {
    a + SIZEOF_NODE + blocks[a]
  }

  /** The tiles cut [0, capacity) without gap or overlap. */
  ghost predicate Tiling(capacity: int, blocks: map<int, nat>) {
    && 0 in blocks
    && (forall a :: a in blocks ==> 0 <= a && a + SIZEOF_NODE + blocks[a] <= capacity)
    && (forall a {:trigger End(blocks, a)} :: a in blocks ==> End(blocks, a) == capacity || End(blocks, a) in blocks)
    && (forall a, b :: a in blocks && b in blocks && a < b ==> a + SIZEOF_NODE + blocks[a] <= b)
  }

  ghost predicate Distinct(s: seq<int>) {
    forall i, j :: 0 <= i < j < |s| ==> s[i] != s[j]
  }

  ghost predicate OnTiles(h: Heap) {
    forall i :: 0 <= i < |h.free| ==> h.free[i] in h.blocks
  }

  /** The invariant of the allocator. */
  ghost predicate Inv(h: Heap) {
    && Tiling(h.capacity, h.blocks)
    && Distinct(h.free)
    && OnTiles(h)
    && (forall a :: a in h.live <==> a in h.blocks && a !in h.free)
    && (forall a :: a in h.live ==> h.live[a] <= h.blocks[a] <= h.live[a] + SIZEOF_NODE)
    && h.live.Keys <= h.valid
    && (h.nextFree == NULL || h.nextFree in h.free)
  }

  lemma InvShows(h: Heap)
    requires Inv(h)
    ensures OnTiles(h) && Distinct(h.free) && Tiling(h.capacity, h.blocks)
    ensures forall a :: a in h.live ==> a in h.blocks && a !in h.free
  {
  }

  ghost predicate Increasing(s: seq<int>) {
    forall i, j :: 0 <= i < j < |s| ==> s[i] < s[j]
  }

  /** No free tile is directly followed by a free tile. */
  ghost predicate Coalesced(h: Heap)
    requires OnTiles(h)
  {
    forall a {:trigger End(h.blocks, a)} :: a in h.free ==> End(h.blocks, a) !in h.free
  }

  ghost predicate Canonical(h: Heap)
    requires Inv(h)
  {
    Increasing(h.free) && Coalesced(h)
  }

  /** Byte `x` belongs to a free tile. */
  ghost predicate FreeByte(h: Heap, x: int) {
    exists a :: a in h.free && a in h.blocks && a <= x < End(h.blocks, a)
  }

  // -- What a tiling means ---------------------------------------------------------------------

  /** The tiles met when stepping from `a` to the end of the heap, each time by the tile's extent. */
  ghost function Walk(capacity: int, blocks: map<int, nat>, a: int): (w: seq<int>)
    requires Tiling(capacity, blocks)
    requires a == capacity || a in blocks
    ensures forall i :: 0 <= i < |w| ==> w[i] in blocks
    decreases capacity - a
  {
    if a == capacity then [] else [a] + Walk(capacity, blocks, End(blocks, a))
  }

  ghost function Bytes(blocks: map<int, nat>, w: seq<int>): nat
    requires forall i :: 0 <= i < |w| ==> w[i] in blocks
  {
    if w == [] then 0 else SIZEOF_NODE + blocks[w[0]] + Bytes(blocks, w[1..])
  }

  /** The walk meets every tile from `a` on and no other. */
  lemma {:induction false} WalkMembers(capacity: int, blocks: map<int, nat>, a: int, b: int)
    requires Tiling(capacity, blocks)
    requires a == capacity || a in blocks
    ensures b in Walk(capacity, blocks, a) <==> b in blocks && a <= b
    decreases capacity - a
  {
    if a != capacity {
      WalkMembers(capacity, blocks, End(blocks, a), b);
    }
  }

  /** Each tile the walk meets starts where the one before it ended, and their extents add up. */
  lemma {:induction false} WalkIsContiguous(capacity: int, blocks: map<int, nat>, a: int)
    requires Tiling(capacity, blocks)
    requires a == capacity || a in blocks
    ensures var w := Walk(capacity, blocks, a);
            && Bytes(blocks, w) == capacity - a
            && (a < capacity ==> w != [] && w[0] == a && End(blocks, w[|w| - 1]) == capacity)
            && (forall i {:trigger w[i]} :: 0 <= i && i + 1 < |w| ==> w[i + 1] == End(blocks, w[i]))
    decreases capacity - a
  {
    if a != capacity {
      var e := End(blocks, a);
      WalkIsContiguous(capacity, blocks, e);
      var r := Walk(capacity, blocks, e);
      var w := Walk(capacity, blocks, a);
      assert w == [a] + r;
      assert w[1..] == r;
      forall i | 0 <= i && i + 1 < |w|
        ensures w[i + 1] == End(blocks, w[i])
      {
        if i > 0 {
          assert w[i] == r[i - 1] && w[i + 1] == r[i];
        }
      }
    }
  }

  /**
   The tiles are exactly the ones met by stepping through the heap from its first byte, each starts
   where the one before it ended, and their sizes, headers included, add up to the capacity.
   */
  lemma TilesAddUpToCapacity(h: Heap)
    requires Inv(h)
    ensures var w := Walk(h.capacity, h.blocks, 0);
            && (forall b :: b in w <==> b in h.blocks)
            && (forall i {:trigger w[i]} :: 0 <= i && i + 1 < |w| ==> w[i + 1] == End(h.blocks, w[i]))
            && w != [] && w[0] == 0 && End(h.blocks, w[|w| - 1]) == h.capacity
            && Bytes(h.blocks, w) == h.capacity
  {
    WalkIsContiguous(h.capacity, h.blocks, 0);
    forall b {
      WalkMembers(h.capacity, h.blocks, 0, b);
    }
  }

  /** Every byte lies in some tile, at or after a given tile that does not start beyond it. */
  lemma {:induction false} TileOfByte(capacity: int, blocks: map<int, nat>, x: int, a: int) returns (t: int)
    requires Tiling(capacity, blocks)
    requires a in blocks && a <= x < capacity
    ensures t in blocks && t <= x < End(blocks, t)
    decreases x - a
  {
    if x < End(blocks, a) {
      t := a;
    } else {
      t := TileOfByte(capacity, blocks, x, End(blocks, a));
    }
  }

  /** Each byte of the heap lies in one tile and in no other. */
  lemma EveryByteInOneTile(capacity: int, blocks: map<int, nat>, x: int)
    requires Tiling(capacity, blocks)
    requires 0 <= x < capacity
    ensures exists t :: t in blocks && t <= x < End(blocks, t) &&
                        forall u :: u in blocks && u <= x < End(blocks, u) ==> u == t
  {
    var t := TileOfByte(capacity, blocks, x, 0);
    forall u | u in blocks && u <= x < End(blocks, u)
      ensures u == t
    {
    }
  }

  /** Every tile but the first directly follows another tile. */
  lemma Predecessor(capacity: int, blocks: map<int, nat>, a: int) returns (p: int)
    requires Tiling(capacity, blocks)
    requires a in blocks && 0 < a
    ensures p in blocks && End(blocks, p) == a
  {
    p := TileOfByte(capacity, blocks, a - 1, 0);
  }
}
