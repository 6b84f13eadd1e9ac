/** The map of the heap that `DumpFreeList` prints, and when it is a true picture. */
module HeapMaps {
  import opened HeapModel
  import opened Placement

  datatype Status = Free | Full

  datatype Line = Line(address: int, size: int, status: Status)

  ghost function FreeLine(h: Heap, a: int): Line
    requires a in h.blocks
  {
    Line(a, h.blocks[a] + SIZEOF_NODE, Free)
  }

  /** The lines from list entry `i` on. */
  ghost function MapFrom(h: Heap, i: nat): seq<Line>
    requires OnTiles(h) && i < |h.free|
    decreases |h.free| - i
  {
    var e := End(h.blocks, h.free[i]);
    [FreeLine(h, h.free[i])] +
    if i + 1 < |h.free| then [Line(e, h.free[i + 1] - e, Full)] + MapFrom(h, i + 1)
    else if e < h.capacity then [Line(e, h.capacity - e, Full)]
    else []
  }

  ghost function HeapMap(h: Heap): seq<Line>
    requires OnTiles(h)
  {
    if h.free == [] then [Line(0, h.capacity, Full)]
    else (if h.free[0] > 0 then [Line(0, h.free[0], Full)] else []) + MapFrom(h, 0)
  }

  /**
   The lines cut [start, capacity) into pieces: the first begins at `start`, each begins where the one
   before it ended, the last ends at `capacity`, all are of positive size, and the status alternates.
   */
  ghost predicate Partition(lines: seq<Line>, start: int, capacity: int) {
    && lines != [] && lines[0].address == start
    && lines[|lines| - 1].address + lines[|lines| - 1].size == capacity
    && (forall k :: 0 <= k < |lines| ==> lines[k].size > 0)
    && (forall k {:trigger lines[k]} :: 0 <= k < |lines| - 1 ==>
          lines[k].address + lines[k].size == lines[k + 1].address && lines[k].status != lines[k + 1].status)
  }

  lemma PartitionPrepend(l: Line, lines: seq<Line>, start: int, capacity: int)
    requires lines != []
    ensures Partition([l] + lines, start, capacity) <==>
              && l.address == start && l.size > 0 && l.status != lines[0].status
              && Partition(lines, start + l.size, capacity)
  {
    var all := [l] + lines;
    assert all[0] == l && all[1] == lines[0] && all[|all| - 1] == lines[|lines| - 1];
    assert forall k {:trigger lines[k]} :: 0 <= k < |lines| ==> lines[k] == all[k + 1];
    if Partition(all, start, capacity) {
      forall k {:trigger lines[k]} | 0 <= k < |lines| - 1
        ensures lines[k].address + lines[k].size == lines[k + 1].address && lines[k].status != lines[k + 1].status
      {
        assert lines[k] == all[k + 1] && lines[k + 1] == all[k + 2];
      }
    }
  }

  /** From entry `i` on, the free tiles lie apart and in address order. */
  ghost predicate ApartFrom(h: Heap, i: nat)
    requires OnTiles(h)
    decreases |h.free| - i
  {
    i + 1 < |h.free| ==> End(h.blocks, h.free[i]) < h.free[i + 1] && ApartFrom(h, i + 1)
  }

  lemma {:induction false} MapFromPartition(h: Heap, i: nat)
    requires OnTiles(h) && i < |h.free|
    requires forall k :: 0 <= k < |h.free| ==> End(h.blocks, h.free[k]) <= h.capacity
    ensures MapFrom(h, i) != [] && MapFrom(h, i)[0] == FreeLine(h, h.free[i])
    ensures Partition(MapFrom(h, i), h.free[i], h.capacity) <==> ApartFrom(h, i)
    decreases |h.free| - i
  {
    hide Partition;
    var a := h.free[i];
    var e := End(h.blocks, a);
    if i + 1 < |h.free| {
      MapFromPartition(h, i + 1);
      var full, rest := Line(e, h.free[i + 1] - e, Full), MapFrom(h, i + 1);
      PartitionPrepend(full, rest, e, h.capacity);
      PartitionPrepend(FreeLine(h, a), [full] + rest, a, h.capacity);
    } else {
      LastLines(h, a);
    }
  }

  lemma LastLines(h: Heap, a: int)
    requires a in h.blocks && End(h.blocks, a) <= h.capacity
    ensures var e := End(h.blocks, a);
            Partition([FreeLine(h, a)] + if e < h.capacity then [Line(e, h.capacity - e, Full)] else [], a, h.capacity)
  {
  }

  lemma {:induction false} ApartIsOrdered(h: Heap, i: nat, j: nat)
    requires OnTiles(h) && i < j < |h.free| && ApartFrom(h, i)
    ensures End(h.blocks, h.free[i]) < h.free[j]
    decreases j - i
  {
    if i + 1 < j {
      ApartIsOrdered(h, i + 1, j);
    }
  }

  lemma {:induction false} ApartSuffix(h: Heap, i: nat)
    requires OnTiles(h) && ApartFrom(h, 0) && i < |h.free|
    ensures ApartFrom(h, i)
  {
    if i > 0 {
      ApartSuffix(h, i - 1);
    }
  }

  lemma ApartIsCanonical(h: Heap)
    requires OnTiles(h) && ApartFrom(h, 0)
    ensures Increasing(h.free) && Coalesced(h)
  {
    forall i, j | 0 <= i < j < |h.free|
      ensures End(h.blocks, h.free[i]) < h.free[j]
    {
      ApartSuffix(h, i);
      ApartIsOrdered(h, i, j);
    }
    forall a {:trigger End(h.blocks, a)} | a in h.free
      ensures End(h.blocks, a) !in h.free
    {
      var i := IndexOf(h.free, a);
      var j := IndexOf(h.free, End(h.blocks, a));
      assert i < |h.free| && h.free[i] == a;
      assert !(j < |h.free|);
    }
  }

  lemma {:induction false} CanonicalIsApart(h: Heap, i: nat)
    requires Inv(h) && Canonical(h)
    ensures ApartFrom(h, i)
    decreases |h.free| - i
  {
    hide Inv, Tiling;
    if i + 1 < |h.free| {
      CanonicalIsApart(h, i + 1);
      NeighboursApart(h, i);
    }
  }

  lemma NeighboursApart(h: Heap, i: nat)
    requires Inv(h) && Canonical(h) && i + 1 < |h.free|
    ensures OnTiles(h) && End(h.blocks, h.free[i]) < h.free[i + 1]
  {
    var (a, b) := (h.free[i], h.free[i + 1]);
    assert a < b && a in h.blocks && b in h.blocks && a in h.free && b in h.free;
    assert End(h.blocks, a) !in h.free;
  }

  lemma TilesInRange(h: Heap)
    requires Inv(h)
    ensures OnTiles(h) && 0 < h.capacity
    ensures forall k :: 0 <= k < |h.free| ==> 0 <= h.free[k] && End(h.blocks, h.free[k]) <= h.capacity
  {
    assert forall k :: 0 <= k < |h.free| ==> h.free[k] in h.blocks;
  }

  /**
   The printed lines cut the heap into pieces of positive size that are free and full in turn exactly
   when the free list is in address order and maximally merged.
   */
  lemma MapIsPartitionIff(h: Heap)
    requires Inv(h)
    ensures OnTiles(h) && (Partition(HeapMap(h), 0, h.capacity) <==> Canonical(h))
  {
    hide Inv, Coalesced, Increasing, ApartFrom, Partition;
    TilesInRange(h);
    if h.free != [] {
      MapFromPartition(h, 0);
      if h.free[0] > 0 {
        PartitionPrepend(Line(0, h.free[0], Full), MapFrom(h, 0), 0, h.capacity);
      } else {
        assert HeapMap(h) == MapFrom(h, 0);
      }
      if ApartFrom(h, 0) {
        ApartIsCanonical(h);
      }
      if Canonical(h) {
        CanonicalIsApart(h, 0);
      }
    } else {
      EmptyMap(h);
    }
  }

  lemma EmptyMap(h: Heap)
    requires Inv(h) && h.free == []
    ensures Canonical(h) && Partition(HeapMap(h), 0, h.capacity)
  {
  }

  /** The free lines of a map, in order. */
  ghost function FreeLines(lines: seq<Line>): seq<Line> {
    if lines == [] then [] else (if lines[0].status == Free then [lines[0]] else []) + FreeLines(lines[1..])
  }

  /** The lines of the free tiles from entry `i` on, in list order. */
  ghost function TileLines(h: Heap, i: nat): seq<Line>
    requires OnTiles(h)
    decreases |h.free| - i
  {
    if i < |h.free| then [FreeLine(h, h.free[i])] + TileLines(h, i + 1) else []
  }

  lemma {:induction false} FreeLinesFrom(h: Heap, i: nat)
    requires OnTiles(h) && i < |h.free|
    ensures FreeLines(MapFrom(h, i)) == TileLines(h, i)
    decreases |h.free| - i
  {
    var m := MapFrom(h, i);
    if i + 1 < |h.free| {
      FreeLinesFrom(h, i + 1);
      assert m[1..][1..] == MapFrom(h, i + 1);
    } else {
      assert |m[1..]| == 1 ==> m[1..][1..] == [];
      assert FreeLines(m[1..]) == [];
      assert TileLines(h, i + 1) == [];
    }
  }

  /** In any state, the free lines are the free tiles in list order, with their addresses and full sizes. */
  lemma FreeLinesAreFreeTiles(h: Heap)
    requires Inv(h)
    ensures FreeLines(HeapMap(h)) == TileLines(h, 0)
  {
    var m := HeapMap(h);
    if h.free == [] {
      assert m[1..] == [] && FreeLines(m) == [];
    } else {
      FreeLinesFrom(h, 0);
      if h.free[0] > 0 {
        assert m[0].status == Full && m[1..] == MapFrom(h, 0);
      } else {
        assert m == MapFrom(h, 0);
      }
    }
  }
}
