/**
 Freeing as a function on heaps: where the freed block enters the free list, what it merges with, and
 what becomes of the roving pointer. The laws say when a free keeps the heap canonical.
 */
module Release {
  import opened HeapModel
  import opened Placement

  /**
   Where the list search stops: at the first tile above `a`, or at the last entry, even when that
   entry lies below `a`.
   */
  ghost function InsertIndex(free: seq<int>, a: int): (j: nat)
    requires free != []
    ensures j < |free|
    ensures forall k :: 0 <= k < j ==> free[k] <= a
    ensures free[j] > a || j == |free| - 1
  {
    if free[0] > a || |free| == 1 then 0 else 1 + InsertIndex(free[1..], a)
  }

  /** The block at `a` ends where the list entry at `j` starts. */
  ghost predicate TouchesNext(h: Heap, a: int, j: nat)
    requires a in h.blocks && j <= |h.free|
  {
    j < |h.free| && End(h.blocks, a) == h.free[j]
  }

  /** The block at `a` starts where the list entry before position `j` ends. */
  ghost predicate TouchesPrev(h: Heap, a: int, j: nat)
    requires OnTiles(h) && j <= |h.free|
  {
    j > 0 && End(h.blocks, h.free[j - 1]) == a
  }

  ghost predicate JoinsNext(h: Heap, a: int)
    requires a in h.blocks && h.free != []
  {
    TouchesNext(h, a, InsertIndex(h.free, a))
  }

  ghost predicate JoinsPrev(h: Heap, a: int)
    requires OnTiles(h) && h.free != []
  {
    TouchesPrev(h, a, InsertIndex(h.free, a))
  }

  /**
   The block enters between two list entries, merges with neither, and the roving pointer stands on
   the second: the code then reads through the null result of the merge.
   */
  ghost predicate ReadsThroughNull(h: Heap, a: int)
    requires OnTiles(h) && a in h.blocks
  {
    && h.free != []
    && InsertIndex(h.free, a) > 0
    && !JoinsNext(h, a) && !JoinsPrev(h, a)
    && h.free[InsertIndex(h.free, a)] == h.nextFree
  }

  /** The block at `a` no longer live, and linked in at list position `j`. */
  ghost function Linked(h: Heap, a: int, j: nat): Heap
    requires j <= |h.free|
  {
    h.(live := h.live - {a}, valid := h.valid - {a}, free := h.free[..j] + [a] + h.free[j..])
  }

  /** The same block merged with the list entries it touches. */
  ghost function MergedAt(h: Heap, a: int, j: nat): Heap
    requires OnTiles(h) && a in h.blocks && j <= |h.free|
  {
    var h1 := h.(live := h.live - {a}, valid := h.valid - {a});
    if TouchesNext(h, a, j) then
      var next := h.free[j];
      if TouchesPrev(h, a, j) then
        var prev := h.free[j - 1];
        var size := h.blocks[prev] + h.blocks[a] + h.blocks[next] + 2 * SIZEOF_NODE;
        h1.(blocks := (h.blocks - {a, next})[prev := size], free := h.free[..j] + h.free[j + 1..])
      else
        var size := h.blocks[a] + h.blocks[next] + SIZEOF_NODE;
        h1.(blocks := (h.blocks - {next})[a := size], free := h.free[j := a])
    else if TouchesPrev(h, a, j) then
      var prev := h.free[j - 1];
      h1.(blocks := (h.blocks - {a})[prev := h.blocks[prev] + h.blocks[a] + SIZEOF_NODE])
    else
      Linked(h, a, j)
  }

  ghost function Freed(h: Heap, a: int): Heap
    requires OnTiles(h) && a in h.blocks && a in h.live
  {
    if h.free == [] then
      MergedAt(h, a, 0)
    else
      var j := InsertIndex(h.free, a);
      var rover :=
        if JoinsNext(h, a) && h.nextFree == h.free[j] then if j == 0 then a else h.free[j - 1]
        else h.nextFree;
      MergedAt(h, a, j).(nextFree := rover)
  }

  /** What a block is after any of the four merges: the tile that now covers it. */
  ghost function Merged(h: Heap, a: int): int
    requires OnTiles(h) && a in h.blocks
  {
    if h.free != [] && JoinsPrev(h, a) then h.free[InsertIndex(h.free, a) - 1] else a
  }

  // -- Merging neighbouring tiles --------------------------------------------------------------

  /** Joining a tile with the one right after it leaves a tiling. */
  lemma JoinKeepsTiling(capacity: int, blocks: map<int, nat>, a: int, size: nat)
    requires Tiling(capacity, blocks) && a in blocks && End(blocks, a) in blocks
    requires size == blocks[a] + blocks[End(blocks, a)] + SIZEOF_NODE
    ensures Tiling(capacity, (blocks - {End(blocks, a)})[a := size])
  {
    var b := End(blocks, a);
    var after := (blocks - {b})[a := size];
    assert End(after, a) == End(blocks, b);
    forall t | t in after
      ensures End(after, t) == capacity || End(after, t) in after
    {
      if t != a {
        assert End(after, t) == End(blocks, t);
      }
    }
  }

  lemma MergedTiling(h: Heap, a: int, j: nat)
    requires Inv(h) && a in h.live && j <= |h.free|
    ensures Tiling(h.capacity, MergedAt(h, a, j).blocks)
  {
    hide Inv, Tiling, Distinct;
    InvShows(h);
    assert j > 0 ==> h.free[j - 1] in h.free;
    assert j < |h.free| ==> h.free[j] in h.free;
    if TouchesNext(h, a, j) {
      var next := h.free[j];
      var size := h.blocks[a] + h.blocks[next] + SIZEOF_NODE;
      var joined := (h.blocks - {next})[a := size];
      JoinKeepsTiling(h.capacity, h.blocks, a, size);
      if TouchesPrev(h, a, j) {
        var prev := h.free[j - 1];
        assert End(joined, prev) == a;
        JoinKeepsTiling(h.capacity, joined, prev, h.blocks[prev] + size + SIZEOF_NODE);
        assert MergedAt(h, a, j).blocks == (joined - {a})[prev := h.blocks[prev] + size + SIZEOF_NODE];
      }
    } else if TouchesPrev(h, a, j) {
      var prev := h.free[j - 1];
      JoinKeepsTiling(h.capacity, h.blocks, prev, h.blocks[prev] + h.blocks[a] + SIZEOF_NODE);
    }
  }

  lemma FreedTiling(h: Heap, a: int)
    requires Inv(h) && a in h.live
    ensures Tiling(h.capacity, Freed(h, a).blocks)
  {
    MergedTiling(h, a, if h.free == [] then 0 else InsertIndex(h.free, a));
  }

  // -- The free list ---------------------------------------------------------------------------

  /** Inserting a new element into a duplicate-free sequence. */
  lemma InsertAt(s: seq<int>, j: nat, a: int)
    requires Distinct(s) && j <= |s| && a !in s
    ensures Distinct(s[..j] + [a] + s[j..])
    ensures forall b :: b in s[..j] + [a] + s[j..] <==> b == a || b in s
  {
    var r := s[..j] + [a] + s[j..];
    assert forall k :: 0 <= k < |r| ==> r[k] == if k < j then s[k] else if k == j then a else s[k - 1];
    assert r[j] == a;
    forall b | b in s
      ensures b in r
    {
      var k := IndexOf(s, b);
      assert r[if k < j then k else k + 1] == b;
    }
  }

  /** Which tiles are free afterwards: all the old ones except those absorbed, and the freed one unless absorbed. */
  lemma FreedMembers(h: Heap, a: int)
    requires Inv(h) && a in h.live
    ensures var h' := Freed(h, a);
            && Distinct(h'.free)
            && (forall b :: b in h'.free <==>
                  (b == a && (h.free == [] || !JoinsPrev(h, a))) ||
                  (b in h.free && !(h.free != [] && JoinsNext(h, a) && b == h.free[InsertIndex(h.free, a)])))
  {
    if h.free != [] {
      var j := InsertIndex(h.free, a);
      if JoinsNext(h, a) {
        if JoinsPrev(h, a) {
          RemoveAt(h.free, j);
        } else {
          ReplaceAt(h.free, j, a);
        }
      } else if !JoinsPrev(h, a) {
        InsertAt(h.free, j, a);
      }
    }
  }

  /**
   `h'` is `h` with the block at `a` free and merged with the free tile before it, after it, both or
   neither. `m` is the tile that now covers the block.
   */
  ghost predicate Absorbs(h: Heap, a: int, h': Heap, before: bool, after: bool, m: int)
    requires a in h.blocks
  {
    var e := End(h.blocks, a);
    && (if before then m in h.free && m in h.blocks && End(h.blocks, m) == a else m == a)
    && (after ==> e in h.free && e in h.blocks)
    && (forall b :: b in h'.blocks <==> b in h.blocks && !(before && b == a) && !(after && b == e))
    && (forall b :: b in h'.blocks && b != m ==> h'.blocks[b] == h.blocks[b])
    && m in h'.blocks && End(h'.blocks, m) == (if after then End(h.blocks, e) else e)
    && (forall b :: b in h'.free <==> b == m || (b in h.free && !(after && b == e)))
  }

  lemma FreedAbsorbsBoth(h: Heap, a: int)
    requires Inv(h) && a in h.live && h.free != [] && JoinsNext(h, a) && JoinsPrev(h, a)
    ensures Absorbs(h, a, Freed(h, a), true, true, Merged(h, a))
  {
    hide Inv, Tiling, Distinct;
    InvShows(h);
    FreedMembers(h, a);
    var j := InsertIndex(h.free, a);
    assert h.free[j] in h.free && h.free[j - 1] in h.free;
  }

  lemma FreedAbsorbsNext(h: Heap, a: int)
    requires Inv(h) && a in h.live && h.free != [] && JoinsNext(h, a) && !JoinsPrev(h, a)
    ensures Absorbs(h, a, Freed(h, a), false, true, a)
  {
    hide Inv, Tiling, Distinct;
    InvShows(h);
    FreedMembers(h, a);
    var j := InsertIndex(h.free, a);
    assert h.free[j] in h.free;
  }

  lemma FreedAbsorbsPrev(h: Heap, a: int)
    requires Inv(h) && a in h.live && h.free != [] && !JoinsNext(h, a) && JoinsPrev(h, a)
    ensures Absorbs(h, a, Freed(h, a), true, false, Merged(h, a))
  {
    hide Inv, Tiling, Distinct;
    InvShows(h);
    FreedMembers(h, a);
    assert h.free[InsertIndex(h.free, a) - 1] in h.free;
  }

  lemma FreedAbsorbsNone(h: Heap, a: int)
    requires Inv(h) && a in h.live && (h.free == [] || (!JoinsNext(h, a) && !JoinsPrev(h, a)))
    ensures Absorbs(h, a, Freed(h, a), false, false, a)
  {
    FreedMembers(h, a);
  }

  /** How the code merges a block. */
  lemma FreedMerge(h: Heap, a: int) returns (before: bool, after: bool, m: int)
    requires Inv(h) && a in h.live
    ensures Absorbs(h, a, Freed(h, a), before, after, m)
    ensures before == (h.free != [] && JoinsPrev(h, a))
    ensures after == (h.free != [] && JoinsNext(h, a))
  {
    if h.free != [] && JoinsNext(h, a) {
      if JoinsPrev(h, a) {
        FreedAbsorbsBoth(h, a);
      } else {
        FreedAbsorbsNext(h, a);
      }
    } else if h.free != [] && JoinsPrev(h, a) {
      FreedAbsorbsPrev(h, a);
    } else {
      FreedAbsorbsNone(h, a);
    }
    before := h.free != [] && JoinsPrev(h, a);
    after := h.free != [] && JoinsNext(h, a);
    m := Merged(h, a);
  }

  lemma LiveAfterMerge(h: Heap, a: int, h': Heap, before: bool, after: bool, m: int)
    requires Inv(h) && a in h.live && Absorbs(h, a, h', before, after, m)
    requires h'.live == h.live - {a}
    ensures forall b :: b in h'.live <==> b in h'.blocks && b !in h'.free
    ensures forall b :: b in h'.live ==> h'.blocks[b] == h.blocks[b]
  {
  }

  /** Exactly the freed block leaves the live ones, and those keep their sizes. */
  lemma FreedKeepsLive(h: Heap, a: int)
    requires Inv(h) && a in h.live
    ensures var h' := Freed(h, a);
            && h'.live == h.live - {a}
            && (forall b :: b in h'.live <==> b in h'.blocks && b !in h'.free)
            && (forall b :: b in h'.live ==> h'.blocks[b] == h.blocks[b])
  {
    var before, after, m := FreedMerge(h, a);
    LiveAfterMerge(h, a, Freed(h, a), before, after, m);
  }

  /** Freeing a live block keeps the invariant, wherever the search stops and whatever merges. */
  lemma FreedKeepsInv(h: Heap, a: int)
    requires Inv(h) && a in h.live && !ReadsThroughNull(h, a)
    ensures Inv(Freed(h, a)) && Freed(h, a).capacity == h.capacity
  {
    InvShows(h);
    hide Inv, Freed, Tiling, Absorbs;
    var h' := Freed(h, a);
    FreedRest(h, a);
    RoverStays(h, a);
    FreedTiling(h, a);
    FreedMembers(h, a);
    var before, after, m := FreedMerge(h, a);
    InvAfterMerge(h, a, h', before, after, m);
  }

  lemma FreedRest(h: Heap, a: int)
    requires OnTiles(h) && a in h.blocks && a in h.live
    ensures var h' := Freed(h, a);
            h'.capacity == h.capacity && h'.live == h.live - {a} && h'.valid == h.valid - {a}
  {
  }

  /** The roving pointer stays on the list, or off it. */
  lemma RoverStays(h: Heap, a: int)
    requires Inv(h) && a in h.live
    ensures Freed(h, a).nextFree == NULL || Freed(h, a).nextFree in Freed(h, a).free
  {
    FreedMembers(h, a);
    if h.free != [] {
      var j := InsertIndex(h.free, a);
      assert j > 0 ==> h.free[j - 1] in h.free && h.free[j - 1] != h.free[j];
    }
  }

  /**
   Where the roving pointer goes. It stays on its tile while that is on the list. When the freed block has
   absorbed the tile, the pointer goes to the list entry before it, or to the block if the tile was the head:
   not always to the tile that now covers it.
   */
  lemma RoverAfterFree(h: Heap, a: int)
    requires Inv(h) && a in h.live
    ensures a in h.blocks && OnTiles(h)
    ensures var (r, h') := (h.nextFree, Freed(h, a));
            && (r == NULL || r in h'.free ==> h'.nextFree == r)
            && (r != NULL && r !in h'.free ==>
                  exists k :: 0 <= k < |h.free| && h.free[k] == r == End(h.blocks, a) &&
                              h'.nextFree == if k == 0 then a else h.free[k - 1])
  {
    InvShows(h);
    FreedMembers(h, a);
    hide Inv, Tiling, Distinct;
    TilesAreNotNull(h);
  }

  lemma TilesAreNotNull(h: Heap)
    requires Inv(h)
    ensures forall x :: x in h.free ==> x in h.blocks && x != NULL
    ensures h.nextFree == NULL || h.nextFree in h.free
  {
  }

  lemma InvAfterMerge(h: Heap, a: int, h': Heap, before: bool, after: bool, m: int)
    requires Inv(h) && a in h.live && Absorbs(h, a, h', before, after, m)
    requires Tiling(h'.capacity, h'.blocks) && Distinct(h'.free)
    requires h'.live == h.live - {a} && h'.valid == h.valid - {a}
    requires h'.nextFree == NULL || h'.nextFree in h'.free
    ensures Inv(h')
  {
    hide Tiling;
    LiveAfterMerge(h, a, h', before, after, m);
    forall i | 0 <= i < |h'.free|
      ensures h'.free[i] in h'.blocks
    {
      assert h'.free[i] in h'.free;
      assert h'.free[i] != m ==> h'.free[i] in h.free;
    }
  }

  // -- Which bytes become free -----------------------------------------------------------------

  lemma MergeKeepsFreeBytes(h: Heap, a: int, h': Heap, before: bool, after: bool, m: int, x: int)
    requires Inv(h) && a in h.live && Absorbs(h, a, h', before, after, m)
    requires FreeByte(h, x) || a <= x < End(h.blocks, a)
    ensures FreeByte(h', x)
  {
    var b :| (b in h.free || b == a) && b in h.blocks && b <= x < End(h.blocks, b);
    if b == m || b == a || (after && b == End(h.blocks, a)) {
      assert m in h'.free && m in h'.blocks && m <= x < End(h'.blocks, m);
    } else {
      assert b in h'.free && b in h'.blocks && x < End(h'.blocks, b);
    }
  }

  lemma MergeAddsOnlyItsBytes(h: Heap, a: int, h': Heap, before: bool, after: bool, m: int, x: int)
    requires Inv(h) && a in h.live && Absorbs(h, a, h', before, after, m)
    requires FreeByte(h', x)
    ensures FreeByte(h, x) || a <= x < End(h.blocks, a)
  {
    var b :| b in h'.free && b in h'.blocks && b <= x < End(h'.blocks, b);
    if b != m {
      assert b in h.free && x < End(h.blocks, b);
    } else if x < a {
      assert m in h.free && x < End(h.blocks, m);
    } else if x >= End(h.blocks, a) {
      var e := End(h.blocks, a);
      assert e in h.free && x < End(h.blocks, e);
    }
  }

  /** Freeing makes exactly the block's bytes free, header included. */
  lemma FreedBytes(h: Heap, a: int, x: int)
    requires Inv(h) && a in h.live
    ensures FreeByte(Freed(h, a), x) <==> FreeByte(h, x) || a <= x < End(h.blocks, a)
  {
    var before, after, m := FreedMerge(h, a);
    if FreeByte(Freed(h, a), x) {
      MergeAddsOnlyItsBytes(h, a, Freed(h, a), before, after, m, x);
    } else if FreeByte(h, x) || a <= x < End(h.blocks, a) {
      MergeKeepsFreeBytes(h, a, Freed(h, a), before, after, m, x);
    }
  }

  // -- When a free keeps address order and maximal coalescing -----------------------------------

  /** The free list is empty, or some free tile lies above `a`. */
  ghost predicate FoundAbove(h: Heap, a: int) {
    h.free == [] || exists b :: b in h.free && b > a
  }

  /** Where the list search stops in an ordered list with a tile above `a`. */
  lemma SearchInOrder(free: seq<int>, a: int)
    requires Increasing(free) && a !in free && exists b :: b in free && b > a
    ensures var j := InsertIndex(free, a);
            && (forall k :: 0 <= k < j ==> free[k] < a)
            && (forall k :: j <= k < |free| ==> a < free[k])
  {
    var b :| b in free && b > a;
    var j := InsertIndex(free, a);
    assert forall k :: 0 <= k < |free| ==> free[k] != a;
  }

  /** Around position `j` of an ordered list: what the three list updates of a free leave. */
  lemma SpliceInOrder(s: seq<int>, j: nat, a: int)
    requires Increasing(s) && j < |s|
    requires forall k :: 0 <= k < j ==> s[k] < a
    requires forall k :: j <= k < |s| ==> a < s[k]
    ensures Increasing(s[..j] + s[j + 1..])
    ensures Increasing(s[j := a])
    ensures Increasing(s[..j] + [a] + s[j..])
  {
    var r, i := s[..j] + s[j + 1..], s[..j] + [a] + s[j..];
    assert forall k :: 0 <= k < |r| ==> r[k] == if k < j then s[k] else s[k + 1];
    assert forall k :: 0 <= k < |i| ==> i[k] == if k < j then s[k] else if k == j then a else s[k - 1];
  }

  lemma TilesApart(h: Heap, a: int, b: int)
    requires Inv(h) && a in h.blocks && b in h.blocks && a <= b
    ensures a == b || End(h.blocks, a) <= b
  {
  }

  lemma FreedStaysIncreasing(h: Heap, a: int)
    requires Inv(h) && a in h.live && Increasing(h.free) && FoundAbove(h, a)
    ensures Increasing(Freed(h, a).free)
  {
    InvShows(h);
    if h.free != [] {
      hide Inv, Tiling, Increasing;
      SearchInOrder(h.free, a);
      SpliceInOrder(h.free, InsertIndex(h.free, a), a);
    }
  }

  /** In an ordered list, the tile right after `a` is the entry the block is inserted before. */
  lemma NextInOrder(h: Heap, a: int)
    requires Inv(h) && a in h.live && Increasing(h.free) && FoundAbove(h, a)
    requires a in h.blocks && End(h.blocks, a) in h.free
    ensures JoinsNext(h, a)
  {
    hide Inv, Tiling;
    InvShows(h);
    SearchInOrder(h.free, a);
    var e, j := End(h.blocks, a), InsertIndex(h.free, a);
    var k := IndexOf(h.free, e);
    assert k < |h.free| && h.free[k] == e;
    TilesApart(h, a, h.free[j]);
  }

  /** In an ordered list, the free tile right before `a` is the entry the block is inserted after. */
  lemma PrevInOrder(h: Heap, a: int, b: int)
    requires Inv(h) && a in h.live && Increasing(h.free) && FoundAbove(h, a)
    requires b in h.free && b in h.blocks && End(h.blocks, b) == a
    ensures OnTiles(h) && JoinsPrev(h, a) && h.free[InsertIndex(h.free, a) - 1] == b
  {
    hide Inv, Tiling;
    InvShows(h);
    SearchInOrder(h.free, a);
    var j := InsertIndex(h.free, a);
    var k := IndexOf(h.free, b);
    assert k < |h.free| && h.free[k] == b;
    assert k < j;
    TilesApart(h, b, h.free[j - 1]);
  }

  lemma CoalescedAfterMerge(h: Heap, a: int, h': Heap, before: bool, after: bool, m: int)
    requires Inv(h) && a in h.live && Coalesced(h) && Inv(h')
    requires Absorbs(h, a, h', before, after, m)
    requires !after ==> End(h.blocks, a) !in h.free
    requires forall b {:trigger End(h.blocks, b)} :: b in h.free && End(h.blocks, b) == a ==> before && b == m
    ensures Coalesced(h')
  {
    forall b | b in h'.free
      ensures End(h'.blocks, b) !in h'.free
    {
      if b != m {
        assert End(h'.blocks, b) == End(h.blocks, b);
      } else if after {
        assert End(h'.blocks, m) == End(h.blocks, End(h.blocks, a));
      }
    }
  }

  lemma FreedStaysCoalesced(h: Heap, a: int)
    requires Inv(h) && a in h.live && Canonical(h) && FoundAbove(h, a) && !ReadsThroughNull(h, a)
    requires Inv(Freed(h, a))
    ensures Coalesced(Freed(h, a))
  {
    var before, after, m := FreedMerge(h, a);
    if End(h.blocks, a) in h.free {
      NextInOrder(h, a);
    }
    forall b {:trigger End(h.blocks, b)} | b in h.free && End(h.blocks, b) == a
      ensures before && b == m
    {
      PrevInOrder(h, a, b);
    }
    CoalescedAfterMerge(h, a, Freed(h, a), before, after, m);
  }

  lemma NothingTouchesAbove(h: Heap, a: int)
    requires Inv(h) && a in h.live && Increasing(h.free) && !FoundAbove(h, a)
    ensures InsertIndex(h.free, a) == |h.free| - 1
    ensures !JoinsNext(h, a) && !JoinsPrev(h, a) && h.free[|h.free| - 1] < a
  {
    var j := InsertIndex(h.free, a);
    assert h.free[j] in h.free && a !in h.free;
    if j > 0 {
      var (p, q) := (h.free[j - 1], h.free[j]);
      assert p < q < a;
      assert p in h.blocks && q in h.blocks && p + SIZEOF_NODE + h.blocks[p] <= q;
    }
  }

  /** When every free tile lies below, the freed block is linked in before the last one, out of order. */
  lemma FreedOutOfOrder(h: Heap, a: int)
    requires Inv(h) && a in h.live && Increasing(h.free) && !FoundAbove(h, a)
    ensures var (n, f) := (|h.free|, Freed(h, a).free);
            && f == h.free[..n - 1] + [a] + h.free[n - 1..]
            && f[n - 1] > f[n]
  {
    NothingTouchesAbove(h, a);
  }

  /**
   A free keeps a canonical heap canonical exactly when the list is empty or some free tile lies
   above the freed block.
   */
  lemma FreeKeepsCanonicalIff(h: Heap, a: int)
    requires Inv(h) && a in h.live && Canonical(h) && !ReadsThroughNull(h, a)
    ensures Inv(Freed(h, a)) && (Canonical(Freed(h, a)) <==> FoundAbove(h, a))
  {
    FreedKeepsInv(h, a);
    if FoundAbove(h, a) {
      FreedStaysIncreasing(h, a);
      FreedStaysCoalesced(h, a);
    } else {
      FreedOutOfOrder(h, a);
    }
  }
}
