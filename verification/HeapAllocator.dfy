/**
 The allocator's entry points: `InitMyMalloc`, `MyMalloc`, `MyFree` and `DumpFreeList`. A call that touches
 the free list runs under the allocator's lock from its first access to the list to its last, so a call
 is one step.
 */
module HeapAllocators {
  import opened HeapModel
  import opened Placement
  import opened Release
  import opened HeapRuns
  import opened HeapLaws
  import opened FreeLists
  import opened HeapMaps

  const INT_MAX := 0x7FFF_FFFF

  const BEST_FIT := 0
  const WORST_FIT := 1
  const FIRST_FIT := 2
  const NEXT_FIT := 3

  // -- Linking a freed block into the list -------------------------------------------------------

  /** What marking and linking the block leave in memory and in the list head. */
  ghost function LinkedMemory(mem: seq<Node>, head: int, a: int, prev: int, next: int): (seq<Node>, int)
    requires 0 <= a < |mem| && (prev == NULL || 0 <= prev < |mem|)
  {
    var m := mem[a := mem[a].(isFreed := 1)];
    if prev == NULL then
      (m[a := m[a].(next := next)], a)
    else
      var m1 := m[prev := m[prev].(next := a)];
      (m1[a := m1[a].(next := next)], head)
  }

  lemma EntriesInMemory(mem: seq<Node>, head: int, nfb: int, h: Heap, a: int, j: nat)
    requires Inv(h) && Represents(mem, head, nfb, h) && a in h.live && j <= |h.free|
    ensures var prev := Entry(h.free, j - 1);
            && OnTiles(h) && a in h.blocks && a !in h.free
            && 0 <= a < |mem| && (if j == 0 then prev == NULL else 0 <= prev < |mem|) && prev != a
            && head == Entry(h.free, 0)
  {
    assert a in h.blocks;
    assert j > 0 ==> h.free[j - 1] in h.blocks && h.free[j - 1] in h.free;
  }

  lemma LinkedLinks(mem: seq<Node>, head: int, free: seq<int>, a: int, j: nat)
    requires Links(mem, head, free) && Distinct(free) && a !in free && j <= |free|
    requires 0 <= a < |mem| && (Entry(free, j - 1) == NULL <==> j == 0)
    ensures var r := LinkedMemory(mem, head, a, Entry(free, j - 1), Entry(free, j));
            Links(r.0, r.1, free[..j] + [a] + free[j..])
  {
    var r := LinkedMemory(mem, head, a, Entry(free, j - 1), Entry(free, j));
    LinkInserted(mem, head, r.0, r.1, free, j, a);
  }

  /** Marking and linking leave sizes and all other marks alone. */
  lemma LinkedMarks(mem: seq<Node>, head: int, a: int, prev: int, next: int, blocks: map<int, nat>, valid: set<int>)
    requires 0 <= a < |mem| && (prev == NULL || 0 <= prev < |mem|) && SizesHold(mem, blocks) && MarksHold(mem, valid)
    ensures var m := LinkedMemory(mem, head, a, prev, next).0;
            |m| == |mem| && SizesHold(m, blocks) && MarksHold(m, valid - {a})
  {
    var m := LinkedMemory(mem, head, a, prev, next).0;
    assert forall b :: 0 <= b < |mem| ==>
             m[b].size == mem[b].size && m[b].magicNumber == mem[b].magicNumber
             && m[b].isFreed == if b == a then 1 else mem[b].isFreed;
  }

  lemma LinkedRepresents(mem: seq<Node>, head: int, nfb: int, h: Heap, a: int, j: nat)
    requires Inv(h) && Represents(mem, head, nfb, h) && a in h.live && j <= |h.free|
    requires 0 <= a < |mem| && (if j == 0 then Entry(h.free, j - 1) == NULL else 0 <= Entry(h.free, j - 1) < |mem|)
    ensures var r := LinkedMemory(mem, head, a, Entry(h.free, j - 1), Entry(h.free, j));
            Represents(r.0, r.1, nfb, Linked(h, a, j))
  {
    InvShows(h);
    hide Inv, SizesHold, MarksHold, Links, LinkedMemory, Distinct;
    LinkedLinks(mem, head, h.free, a, j);
    LinkedMarks(mem, head, a, Entry(h.free, j - 1), Entry(h.free, j), h.blocks, h.valid);
  }

  /** The check `MyFree` makes on a header is the one the heap makes. */
  lemma CapacityIsLength(mem: seq<Node>, head: int, nfb: int, h: Heap)
    requires Represents(mem, head, nfb, h)
    ensures |mem| == h.capacity && nfb == h.nextFree && head == Entry(h.free, 0)
    ensures forall a :: 0 <= a < |mem| ==> (a in h.valid <==> LooksValid(mem[a]))
  {
  }

  /** The search stops at the position the heap's own search yields. */
  lemma SearchStopsAt(free: seq<int>, a: int, j: nat)
    requires j < |free| && (free[j] > a || j == |free| - 1)
    requires forall k :: 0 <= k < j ==> free[k] <= a
    ensures InsertIndex(free, a) == j
  {
  }

  lemma NextPointsOn(mem: seq<Node>, head: int, nfb: int, h: Heap, a: int, j: nat)
    requires Inv(h) && a in h.live && j < |h.free| && Represents(mem, head, nfb, Linked(h, a, j))
    ensures 0 <= h.free[j] < |mem| && mem[h.free[j]].next != h.free[j]
  {
    LinkedFits(mem, head, nfb, h, a, j);
    LinkedList(h, a, j);
    var l := Linked(h, a, j).free;
    assert mem[l[j + 1]].next == Entry(l, j + 2);
  }

  /**
   What the result of the merge points to: when the roving pointer stands on the entry the block was
   inserted before, that result is a header, and points past the entry exactly if the entry was absorbed.
   */
  lemma CoalescedNext(mem: seq<Node>, head: int, nfb: int, h: Heap, a: int, j: nat)
    requires Inv(h) && a in h.live && j < |h.free| && Represents(mem, head, nfb, Linked(h, a, j))
    requires OnTiles(h) && a in h.blocks && j == InsertIndex(h.free, a) && !ReadsThroughNull(h, a)
    requires var (prev, next) := (Entry(h.free, j - 1), Entry(h.free, j));
             0 <= a < |mem| && (prev == NULL || 0 <= prev < |mem|) && (next == NULL || 0 <= next < |mem|)
    ensures var (prev, next) := (Entry(h.free, j - 1), Entry(h.free, j));
            var (mem', r) := CoalescedMemory(mem, a, prev, next);
            h.nextFree == next ==>
              0 <= r < |mem| == |mem'| && (mem'[r].next != next <==> TouchesNext(h, a, j))
  {
    hide Inv, Represents, Linked;
    LinkedFits(mem, head, nfb, h, a, j);
    NextPointsOn(mem, head, nfb, h, a, j);
  }

  /**
   The merge returns null while the roving pointer stands on the entry the block was inserted before, so
   that the next read goes through null, exactly when the heap says so.
   */
  lemma NullReadIff(mem: seq<Node>, head: int, nfb: int, h: Heap, a: int)
    requires Inv(h) && a in h.live && h.free != [] && OnTiles(h) && a in h.blocks
    requires Represents(mem, head, nfb, Linked(h, a, InsertIndex(h.free, a)))
    requires var (prev, next) := (Entry(h.free, InsertIndex(h.free, a) - 1), Entry(h.free, InsertIndex(h.free, a)));
             0 <= a < |mem| && (prev == NULL || 0 <= prev < |mem|) && (next == NULL || 0 <= next < |mem|)
    ensures var (prev, next) := (Entry(h.free, InsertIndex(h.free, a) - 1), Entry(h.free, InsertIndex(h.free, a)));
            (CoalescedMemory(mem, a, prev, next).1 == NULL && nfb == next) <==> ReadsThroughNull(h, a)
  {
    hide Inv, Tiling, Distinct, OnTiles, InsertIndex, CoalescedMemory, Represents, TouchesNext, TouchesPrev;
    var j := InsertIndex(h.free, a);
    MergeIsNullIff(mem, head, nfb, h, a, j);
    RoverInMemory(mem, head, nfb, Linked(h, a, j));
  }

  lemma MergeIsNullIff(mem: seq<Node>, head: int, nfb: int, h: Heap, a: int, j: nat)
    requires Inv(h) && a in h.live && OnTiles(h) && a in h.blocks && j < |h.free|
    requires Represents(mem, head, nfb, Linked(h, a, j))
    requires var (prev, next) := (Entry(h.free, j - 1), Entry(h.free, j));
             0 <= a < |mem| && (prev == NULL || 0 <= prev < |mem|) && (next == NULL || 0 <= next < |mem|)
    ensures CoalescedMemory(mem, a, Entry(h.free, j - 1), Entry(h.free, j)).1 == NULL <==>
              j > 0 && !TouchesNext(h, a, j) && !TouchesPrev(h, a, j)
  {
    hide Inv, Tiling, Distinct, OnTiles, CoalescedMemory, Represents, MergedAt, TouchesNext, TouchesPrev;
    CoalescedRepresents(mem, head, nfb, h, a, j);
    EntriesAreHeaders(h);
  }

  lemma RoverInMemory(mem: seq<Node>, head: int, nfb: int, h: Heap)
    requires Represents(mem, head, nfb, h)
    ensures nfb == h.nextFree
  {
  }

  lemma EntriesAreHeaders(h: Heap)
    requires Inv(h)
    ensures forall k :: 0 <= k < |h.free| ==> h.free[k] != NULL
    ensures forall a :: a in h.live ==> a != NULL
  {
  }

  /** Freeing into an empty list merges with nothing. */
  lemma MergeIntoNothing(h: Heap, a: int)
    requires OnTiles(h) && a in h.blocks && a in h.live && h.free == []
    ensures Freed(h, a) == Linked(h, a, 0)
  {
  }

  /** What the search reads once the block is marked freed. */
  lemma WalkInMarked(mem: seq<Node>, head: int, nfb: int, h: Heap, a: int, i: nat)
    requires Inv(h) && Represents(mem, head, nfb, h) && i < |h.free| && 0 <= a < |mem|
    ensures var m := mem[a := mem[a].(isFreed := 1)];
            && 0 <= h.free[i] < |mem| && m[h.free[i]].next == Entry(h.free, i + 1)
            && (Entry(h.free, i + 1) == NULL <==> i == |h.free| - 1)
  {
    EntryInMemory(mem, head, nfb, h, i);
  }

  /** Marking, linking, merging and moving the roving pointer come to freeing the block. */
  lemma FreedRepresents(mem: seq<Node>, head: int, nfb: int, h: Heap, a: int, j: nat)
    requires Inv(h) && a in h.live && OnTiles(h) && a in h.blocks && !ReadsThroughNull(h, a)
    requires h.free == [] ==> j == 0
    requires h.free != [] ==> j == InsertIndex(h.free, a)
    requires Represents(mem, head, nfb, MergedAt(h, a, j)) && nfb == h.nextFree
    ensures var joins := h.free != [] && TouchesNext(h, a, j) && h.nextFree == h.free[j];
            Represents(mem, head, if !joins then nfb else if j == 0 then a else h.free[j - 1], Freed(h, a))
  {
  }

  // -- Boot ---------------------------------------------------------------------------------------

  lemma FreshRepresents(mem: seq<Node>, capacity: int)
    requires EnoughForBoot(capacity) && |mem| == capacity
    requires mem[0] == Node(capacity - SIZEOF_NODE, NULL, 0, 0)
    requires forall a :: 0 < a < capacity ==> mem[a] == Node(0, NULL, 0, 0)
    ensures Inv(Fresh(capacity)) && Represents(mem, 0, 0, Fresh(capacity))
  {
    FreshIsCanonical(capacity);
  }

  /** First fit on a list of one tile that is large enough takes that tile. */
  lemma FirstFitTakesOnlyTile(h: Heap, n: nat, h': Heap, ptr: int)
    requires Inv(h) && |h.free| == 1 && Suitable(h, n, 0) && Allocates(h, n, FirstFit, h', ptr)
    ensures h' == Take(h, 0, n) && ptr == h.free[0] + SIZEOF_NODE
  {
    var i := TakenIndex(h, n, FirstFit, h', ptr);
  }

  lemma BootSteps(capacity: int)
    requires EnoughForBoot(capacity)
    ensures var (h0, h1) := (Fresh(capacity), Take(Fresh(capacity), 0, SIZEOF_FREELIST));
            && Inv(h0) && Suitable(h0, SIZEOF_FREELIST, 0) && h0.free == [0]
            && Inv(h1) && Suitable(h1, SIZEOF_MUTEX, 0) && h1.free == [SIZEOF_NODE + SIZEOF_FREELIST]
            && Booted(capacity) == Take(h1, 0, SIZEOF_MUTEX) && Booted(capacity).capacity == capacity
  {
    FreshIsCanonical(capacity);
    TakeKeepsInv(Fresh(capacity), 0, SIZEOF_FREELIST);
  }

  /** What a free needs to know of the heap it starts from. */
  lemma BeforeFree(mem: seq<Node>, head: int, nfb: int, h: Heap, a: int)
    requires Inv(h) && Represents(mem, head, nfb, h) && a in h.live
    requires OnTiles(h) && a in h.blocks && !ReadsThroughNull(h, a)
    ensures a !in h.free && 0 <= a < |mem|
    ensures Inv(Freed(h, a)) && Freed(h, a).capacity == h.capacity
    ensures forall k :: 0 <= k < |h.free| ==> h.free[k] != NULL
  {
    assert forall k :: 0 <= k < |h.free| ==> h.free[k] in h.blocks;
    FreedKeepsInv(h, a);
  }

  class HeapAllocator {
    var heapBlockHeader: int          // NULL until the heap is mapped, then the offset of its start
    var heapCapacity: int
    var sharedFreeList: FreeList?
    var freeListPtr: int              // where in the heap the FreeList struct lies
    var mutex: int                    // where in the heap the lock lies

    ghost predicate Valid()
      reads this, sharedFreeList, if sharedFreeList == null then {} else {sharedFreeList.mem}
    {
      heapBlockHeader == NULL ||
      (sharedFreeList != null && sharedFreeList.Valid() && sharedFreeList.heap.capacity == heapCapacity)
    }

    constructor ()
      ensures Valid() && heapBlockHeader == NULL
    {
      heapBlockHeader, heapCapacity, sharedFreeList, freeListPtr, mutex := NULL, 0, null, NULL, NULL;
    }

    /**
     Maps the heap, unless it is mapped already, the size is not positive or the system refuses
     (`mapped` is its answer), and allocates the allocator's own two blocks from it.
     */
    method InitMyMalloc(heapSize: int, mapped: bool) returns (r: int)
      requires Valid()
      requires 0 < heapSize ==> RoundedSize(heapSize) <= INT_MAX  // the rounded size is an int
      modifies this
      ensures Valid()
      ensures r == if old(heapBlockHeader) == NULL && 0 < heapSize && mapped then 0 else -1
      ensures r == -1 ==> unchanged(this)
      ensures r == 0 ==>
                && heapBlockHeader == 0 && heapCapacity == RoundedSize(heapSize) && EnoughForBoot(heapCapacity)
                && fresh(sharedFreeList) && fresh(sharedFreeList.mem)
                && sharedFreeList.heap == Booted(heapCapacity)
                && freeListPtr == SIZEOF_NODE && mutex == 2 * SIZEOF_NODE + SIZEOF_FREELIST
    {
      hide Inv, Represents, Allocates, Suitable, Booted, Take, RoundedSize;
      if heapBlockHeader != NULL {
        return -1;
      }
      if heapSize <= 0 {
        return -1;
      }
      var size := RoundToPages(heapSize);
      RoundedSizeIsEnough(heapSize);
      if !mapped {
        return -1;
      }
      var mem := new Node[size](_ => Node(0, NULL, 0, 0));
      mem[0] := mem[0].(size := size - SIZEOF_NODE);
      mem[0] := mem[0].(next := NULL);
      FreshRepresents(mem[..], size);
      BootSteps(size);
      var freeList := new FreeList(mem, 0, 0, Fresh(size));
      var p := freeList.FirstFit(SIZEOF_FREELIST);
      FirstFitTakesOnlyTile(Fresh(size), SIZEOF_FREELIST, freeList.heap, p);
      var shared := new FreeList(mem, freeList.head, freeList.nextFreeBlock, freeList.heap);
      var m := shared.FirstFit(SIZEOF_MUTEX);
      FirstFitTakesOnlyTile(freeList.heap, SIZEOF_MUTEX, shared.heap, m);
      heapBlockHeader, heapCapacity := 0, size;
      sharedFreeList, freeListPtr, mutex := shared, p, m;
      return 0;
    }

    method RoundToPages(heapSize: nat) returns (size: nat)
      ensures size == RoundedSize(heapSize)
    {
      size := heapSize;
      if size % PAGE_SIZE != 0 {
        size := (1 + size / PAGE_SIZE) * PAGE_SIZE;
      }
    }

    /** Hands out a block under the given strategy; an unknown strategy gets nothing. */
    method MyMalloc(size: nat, strategy: int) returns (ptr: int)
      requires Valid()
      modifies sharedFreeList, if sharedFreeList == null then {} else {sharedFreeList.mem}
      ensures Valid()
      ensures heapBlockHeader == NULL ==> ptr == NULL
      ensures heapBlockHeader != NULL && !(0 <= strategy <= 3) ==>
                ptr == NULL && sharedFreeList.heap == old(sharedFreeList.heap)
      ensures heapBlockHeader != NULL ==>
                var (h, h') := (old(sharedFreeList.heap), sharedFreeList.heap);
                && Inv(h)
                && (strategy == 0 ==> Allocates(h, size, BestFit, h', ptr))
                && (strategy == 1 ==> Allocates(h, size, WorstFit, h', ptr))
                && (strategy == 2 ==> Allocates(h, size, FirstFit, h', ptr))
                && (strategy == 3 ==> Allocates(h, size, NextFit, h', ptr))
    {
      hide Inv, Represents, Allocates;
      if heapBlockHeader == NULL {
        return NULL;
      }
      ghost var h := sharedFreeList.heap;
      ptr := NULL;
      if strategy == BEST_FIT {
        ptr := sharedFreeList.BestFit(size);
        AllocationKeepsInv(h, size, Strategy.BestFit, sharedFreeList.heap, ptr);
      } else if strategy == WORST_FIT {
        ptr := sharedFreeList.WorstFit(size);
        AllocationKeepsInv(h, size, Strategy.WorstFit, sharedFreeList.heap, ptr);
      } else if strategy == FIRST_FIT {
        ptr := sharedFreeList.FirstFit(size);
        AllocationKeepsInv(h, size, Strategy.FirstFit, sharedFreeList.heap, ptr);
      } else if strategy == NEXT_FIT {
        ptr := sharedFreeList.NextFit(size);
        AllocationKeepsInv(h, size, Strategy.NextFit, sharedFreeList.heap, ptr);
      }
    }

    /** Frees a block, or rejects the pointer. */
    method MyFree(ptr: int) returns (r: int)
      requires Valid()
      // the header the call would read lies inside the mapping, or the address is rejected unread
      requires heapBlockHeader != NULL && ptr != NULL ==>
                 ptr <= heapCapacity || heapCapacity < ptr - SIZEOF_NODE
      requires heapBlockHeader != NULL ==> MayFree(sharedFreeList.heap, ptr)
      modifies sharedFreeList, if sharedFreeList == null then {} else {sharedFreeList.mem}
      ensures Valid()
      ensures heapBlockHeader == NULL ==> r == -1
      ensures heapBlockHeader != NULL ==> (sharedFreeList.heap, r) == MyFreed(old(sharedFreeList.heap), ptr)
    {
      hide Inv, Represents, Freed, ReadsThroughNull, MergedAt, Linked, InsertIndex, TouchesNext, TouchesPrev, Distinct;
      if heapBlockHeader == NULL {
        return -1;
      }
      var list := sharedFreeList;
      var mem := list.mem;
      ghost var h, m0, head0, nfb := list.heap, mem[..], list.head, list.nextFreeBlock;
      CapacityIsLength(m0, head0, nfb, h);
      if ptr == NULL {
        return -1;
      }
      var block := ptr - SIZEOF_NODE;
      if block < 0 || block > heapCapacity {
        return -1;
      }
      if mem[block].magicNumber != MAGIC_NUMBER || mem[block].isFreed == 1 {
        return -1;
      }
      BeforeFree(m0, head0, nfb, h, block);
      mem[block] := mem[block].(isFreed := 1);
      if list.head == NULL {
        list.head := block;
        mem[block] := mem[block].(next := NULL);
        LinkedRepresents(m0, head0, nfb, h, block, 0);
        MergeIntoNothing(h, block);
        list.heap := Freed(h, block);
        return 0;
      }
      var current := list.head;
      var previous := NULL;
      ghost var j := 0;
      while current != NULL
        invariant mem[..] == m0[block := m0[block].(isFreed := 1)]
        invariant list.head == head0 && list.nextFreeBlock == nfb && list.heap == h
        invariant AtEntry(h.free, j, current, previous)
        invariant forall k :: 0 <= k < j ==> h.free[k] <= block
        decreases |h.free| - j
      {
        WalkInMarked(m0, head0, nfb, h, block, j);
        if current > block {
          break;
        }
        if mem[current].next == NULL {
          break;
        }
        previous := current;
        current := mem[current].next;
        j := j + 1;
      }
      SearchStopsAt(h.free, block, j);
      EntriesInMemory(m0, head0, nfb, h, block, j);
      LinkedRepresents(m0, head0, nfb, h, block, j);

      if previous == NULL {
        mem[block] := mem[block].(next := list.head);
        list.head := block;
        ghost var m1 := mem[..];
        LinkedFits(m1, list.head, nfb, h, block, j);
        var coalescedBlock := list.CoalesceFreeList(block, previous, current, j);
        CoalescedNext(m1, list.head, nfb, h, block, j);
        FreedRepresents(mem[..], list.head, nfb, h, block, j);
        if current == list.nextFreeBlock && mem[coalescedBlock].next != current {
          list.nextFreeBlock := coalescedBlock;
        }
        list.heap := Freed(h, block);
        return 0;
      }

      // the search never runs off the end of the list, so the source's branch for that is dead
      if current == NULL {
        assert false;
      }

      mem[previous] := mem[previous].(next := block);
      mem[block] := mem[block].(next := current);
      ghost var m1 := mem[..];
      LinkedFits(m1, list.head, nfb, h, block, j);
      var coalescedBlock := list.CoalesceFreeList(block, previous, current, j);
      CoalescedNext(m1, list.head, nfb, h, block, j);
      FreedRepresents(mem[..], list.head, nfb, h, block, j);
      if current == list.nextFreeBlock && mem[coalescedBlock].next != current {
        list.nextFreeBlock := coalescedBlock;
      }
      list.heap := Freed(h, block);
      return 0;
    }

    /** The lines the heap map consists of; none before the heap is mapped. */
    method DumpFreeList() returns (lines: seq<Line>)
      requires Valid()
      ensures heapBlockHeader == NULL ==> lines == []
      ensures heapBlockHeader != NULL ==> OnTiles(sharedFreeList.heap) && lines == HeapMap(sharedFreeList.heap)
    {
      hide Inv, Represents;
      if heapBlockHeader == NULL {
        return [];
      }
      var list, mem := sharedFreeList, sharedFreeList.mem;
      ghost var h := list.heap;
      StartOfWalk(mem[..], list.head, list.nextFreeBlock, h);
      if list.head == NULL {
        return [Line(0, heapCapacity, Full)];
      }
      lines := [];
      if list.head > 0 {
        lines := [Line(0, list.head, Full)];
      }
      var current := list.head;
      ghost var i := 0;
      EntryInMemory(mem[..], list.head, list.nextFreeBlock, h, 0);
      while mem[current].next != NULL
        invariant i < |h.free| && current == h.free[i] && 0 <= current < mem.Length
        invariant mem[current].next == Entry(h.free, i + 1) && mem[current].size == h.blocks[current]
        invariant lines + MapFrom(h, i) == HeapMap(h)
        decreases |h.free| - i
      {
        EntryInMemory(mem[..], list.head, list.nextFreeBlock, h, i);
        EntryInMemory(mem[..], list.head, list.nextFreeBlock, h, i + 1);
        ghost var before := lines;
        var end := current + mem[current].size + SIZEOF_NODE;
        lines := lines + [Line(current, mem[current].size + SIZEOF_NODE, Status.Free)];
        lines := lines + [Line(end, mem[current].next - end, Full)];
        assert before + MapFrom(h, i) == lines + MapFrom(h, i + 1);
        current := mem[current].next;
        i := i + 1;
      }
      EntryInMemory(mem[..], list.head, list.nextFreeBlock, h, i);
      ghost var before := lines;
      lines := lines + [Line(current, mem[current].size + SIZEOF_NODE, Status.Free)];
      var end := current + mem[current].size + SIZEOF_NODE;
      if end < heapCapacity {
        lines := lines + [Line(end, heapCapacity - end, Full)];
      }
      assert lines == before + MapFrom(h, i);
    }
  }
}
