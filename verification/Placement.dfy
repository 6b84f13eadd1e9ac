/**
 Allocation as a relation between heaps: which free tile each placement strategy must pick, and what
 handing it out does to the tiles, the free list and the roving pointer.
 */
module Placement {
  import opened HeapModel

  datatype Strategy = BestFit | WorstFit | FirstFit | NextFit

  // -- Which tile is picked --------------------------------------------------------------------

  /** The free tile at list index `i` is large enough for a request of `n` bytes. */
  ghost predicate Suitable(h: Heap, n: nat, i: int)
    requires OnTiles(h)
  {
    0 <= i < |h.free| && h.blocks[h.free[i]] >= n
  }

  /** The position of `x` in `s`, or the length of `s`. */
  ghost function IndexOf(s: seq<int>, x: int): (i: nat)
    ensures i <= |s|
    ensures i < |s| ==> s[i] == x
    ensures forall k :: 0 <= k < i ==> s[k] != x
  {
    if s == [] || s[0] == x then 0 else 1 + IndexOf(s[1..], x)
  }

  /** Next fit starts at the roving pointer, or at the head of the list when there is none. */
  ghost function StartIndex(h: Heap): nat {
    if h.nextFree in h.free then IndexOf(h.free, h.nextFree) else 0
  }

  /** How many tiles a cyclic scan of a list of length `len` from `start` meets before index `i`. */
  ghost function CyclicRank(start: nat, len: nat, i: nat): int {
    if start <= i then i - start else i + len - start
  }

  ghost predicate Prefers(h: Heap, strategy: Strategy, i: nat, j: nat)
    requires OnTiles(h)
    requires i < |h.free| && j < |h.free|
  {
    var (x, y) := (h.blocks[h.free[i]], h.blocks[h.free[j]]);
    match strategy
    case BestFit => x < y || (x == y && i < j)
    case WorstFit => x > y || (x == y && i < j)
    case FirstFit => i < j
    case NextFit => CyclicRank(StartIndex(h), |h.free|, i) < CyclicRank(StartIndex(h), |h.free|, j)
  }

  /** Among the suitable tiles, the strategy prefers the one at index `i` to every other. */
  ghost predicate Chosen(h: Heap, n: nat, strategy: Strategy, i: nat)
    requires OnTiles(h)
  {
    Suitable(h, n, i) && forall j: nat :: j != i && Suitable(h, n, j) ==> Prefers(h, strategy, i, j)
  }

  lemma AtMostOneChosen(h: Heap, n: nat, strategy: Strategy, i: nat, j: nat)
    requires Inv(h)
    requires Chosen(h, n, strategy, i) && Chosen(h, n, strategy, j)
    ensures i == j
  {
    if i != j {
      assert false;
    }
  }

  /** Among the first `k` list entries: a chosen one, if any of them is suitable. */
  lemma {:induction false} ChoosePrefix(h: Heap, n: nat, strategy: Strategy, k: nat) returns (i: int)
    requires Inv(h) && k <= |h.free|
    ensures i == -1 ==> forall j: nat :: j < k ==> !Suitable(h, n, j)
    ensures i != -1 ==> 0 <= i < k && Suitable(h, n, i)
                        && forall j: nat :: j < k && j != i && Suitable(h, n, j) ==> Prefers(h, strategy, i, j)
  {
    InvShows(h);
    hide Inv, StartIndex, Distinct;
    if k == 0 {
      i := -1;
    } else {
      i := ChoosePrefix(h, n, strategy, k - 1);
      if Suitable(h, n, k - 1) && (i == -1 || Prefers(h, strategy, k - 1, i)) {
        i := k - 1;
      }
    }
  }

  /** Whatever the strategy, there is a choice exactly when some free tile is large enough. */
  lemma ChosenIffSuitable(h: Heap, n: nat, strategy: Strategy)
    requires Inv(h)
    ensures (exists i: nat :: Chosen(h, n, strategy, i)) <==> (exists j: nat :: Suitable(h, n, j))
  {
    var i := ChoosePrefix(h, n, strategy, |h.free|);
    if i != -1 {
      assert Chosen(h, n, strategy, i);
      assert Suitable(h, n, i);
    }
  }

  // -- What handing a tile out does ------------------------------------------------------------

  ghost predicate Splits(h: Heap, i: nat, n: nat)
    requires i < |h.free| && h.free[i] in h.blocks
  {
    h.blocks[h.free[i]] > n + SIZEOF_NODE
  }

  ghost function Take(h: Heap, i: nat, n: nat): Heap
    requires i < |h.free| && h.free[i] in h.blocks && n <= h.blocks[h.free[i]]
  {
    var a := h.free[i];
    if Splits(h, i, n) then
      var c := a + SIZEOF_NODE + n;
      h.(blocks := h.blocks[a := n][c := h.blocks[a] - n - SIZEOF_NODE],
         free := h.free[i := c],
         nextFree := c,
         live := h.live[a := n],
         valid := h.valid + {a})
    else
      var rest := h.free[..i] + h.free[i + 1..];
      h.(free := rest,
         nextFree := if i < |rest| then rest[i] else if rest == [] then NULL else rest[0],
         live := h.live[a := n],
         valid := h.valid + {a})
  }

  /** `MyMalloc(n, strategy)` in heap `h` may leave heap `h'` and return the address `ptr`. */
  ghost predicate Allocates(h: Heap, n: nat, strategy: Strategy, h': Heap, ptr: int)
    requires OnTiles(h)
  {
    if exists i: nat :: Suitable(h, n, i) then
      exists i: nat :: Chosen(h, n, strategy, i) && h' == Take(h, i, n) && ptr == h.free[i] + SIZEOF_NODE
    else
      h' == h && ptr == NULL
  }

  // -- What allocation keeps -------------------------------------------------------------------

  /** The tile an allocation took. */
  lemma TakenIndex(h: Heap, n: nat, strategy: Strategy, h': Heap, ptr: int) returns (i: nat)
    requires Inv(h) && Allocates(h, n, strategy, h', ptr) && exists k: nat :: Suitable(h, n, k)
    ensures Suitable(h, n, i) && h' == Take(h, i, n) && ptr == h.free[i] + SIZEOF_NODE
  {
    i :| Chosen(h, n, strategy, i) && h' == Take(h, i, n) && ptr == h.free[i] + SIZEOF_NODE;
  }

  lemma TakeKeepsTiling(h: Heap, i: nat, n: nat)
    requires Inv(h) && Suitable(h, n, i)
    ensures Tiling(Take(h, i, n).capacity, Take(h, i, n).blocks)
  {
    if Splits(h, i, n) {
      var a, h' := h.free[i], Take(h, i, n);
      var c := a + SIZEOF_NODE + n;
      assert End(h'.blocks, c) == End(h.blocks, a);
      assert End(h'.blocks, a) == c;
      assert c !in h.blocks;
      forall b | b in h'.blocks
        ensures End(h'.blocks, b) == h.capacity || End(h'.blocks, b) in h'.blocks
      {
        if b != a && b != c {
          assert End(h'.blocks, b) == End(h.blocks, b);
        }
      }
    }
  }

  /** Replacing one entry of a duplicate-free sequence by a new element. */
  lemma ReplaceAt(s: seq<int>, i: nat, c: int)
    requires Distinct(s) && i < |s| && c !in s
    ensures Distinct(s[i := c])
    ensures forall b :: b in s[i := c] <==> b == c || (b in s && b != s[i])
  {
    var r := s[i := c];
    assert r[i] == c;
    forall b | b in s && b != s[i]
      ensures b in r
    {
      var k := IndexOf(s, b);
      assert k < |s| && r[k] == b;
    }
  }

  /** Removing one entry of a duplicate-free sequence removes exactly that element. */
  lemma RemoveAt(s: seq<int>, i: nat)
    requires Distinct(s) && i < |s|
    ensures Distinct(s[..i] + s[i + 1..])
    ensures forall b :: b in s[..i] + s[i + 1..] <==> b in s && b != s[i]
    ensures Increasing(s) ==> Increasing(s[..i] + s[i + 1..])
  {
    var r := s[..i] + s[i + 1..];
    assert forall k :: 0 <= k < |r| ==> r[k] == if k < i then s[k] else s[k + 1];
    forall b | b in s && b != s[i]
      ensures b in r
    {
      var k := IndexOf(s, b);
      assert k < |s| && k != i;
      assert r[if k < i then k else k - 1] == b;
    }
  }

  /** The free list after taking a tile: its members change in one place only. */
  lemma TakeMembers(h: Heap, i: nat, n: nat)
    requires Inv(h) && Suitable(h, n, i)
    ensures var (a, h') := (h.free[i], Take(h, i, n));
            var c := a + SIZEOF_NODE + n;
            && Distinct(h'.free)
            && (Splits(h, i, n) ==> c !in h.blocks)
            && (forall b :: b in h'.free <==> (b == c && Splits(h, i, n)) || (b in h.free && b != a))
  {
    if Splits(h, i, n) {
      var c := h.free[i] + SIZEOF_NODE + n;
      assert c !in h.blocks;
      ReplaceAt(h.free, i, c);
    } else {
      RemoveAt(h.free, i);
    }
  }

  lemma TakeKeepsInv(h: Heap, i: nat, n: nat)
    requires Inv(h) && Suitable(h, n, i)
    ensures Inv(Take(h, i, n))
  {
    var a, h' := h.free[i], Take(h, i, n);
    TakeKeepsTiling(h, i, n);
    TakeMembers(h, i, n);
    assert OnTiles(h') by {
      assert forall b :: b in h'.free ==> b in h'.blocks;
    }
    if Splits(h, i, n) {
      assert h'.free[i] == h'.nextFree;
    }
  }

  /** Allocation keeps the invariant, under every strategy. */
  lemma AllocationKeepsInv(h: Heap, n: nat, strategy: Strategy, h': Heap, ptr: int)
    requires Inv(h) && Allocates(h, n, strategy, h', ptr)
    ensures Inv(h') && h'.capacity == h.capacity
  {
    if exists i: nat :: Suitable(h, n, i) {
      var i := TakenIndex(h, n, strategy, h', ptr);
      TakeKeepsInv(h, i, n);
    }
  }

  lemma TakeKeepsIncreasing(h: Heap, i: nat, n: nat)
    requires Inv(h) && Suitable(h, n, i) && Increasing(h.free)
    ensures Increasing(Take(h, i, n).free)
  {
    var a := h.free[i];
    if Splits(h, i, n) {
      assert forall k :: i < k < |h.free| ==> a + SIZEOF_NODE + h.blocks[a] <= h.free[k];
    } else {
      RemoveAt(h.free, i);
    }
  }

  lemma TakeKeepsCoalesced(h: Heap, i: nat, n: nat)
    requires Inv(h) && Suitable(h, n, i) && Coalesced(h)
    requires Inv(Take(h, i, n))
    ensures Coalesced(Take(h, i, n))
  {
    var a, h' := h.free[i], Take(h, i, n);
    var c := a + SIZEOF_NODE + n;
    TakeMembers(h, i, n);
    forall b | b in h'.free
      ensures End(h'.blocks, b) !in h'.free
    {
      if b == c && Splits(h, i, n) {
        assert End(h'.blocks, c) == End(h.blocks, a);
      } else {
        assert End(h'.blocks, b) == End(h.blocks, b);
      }
    }
  }

  /** Address order together with maximal coalescing survives allocation under every strategy. */
  lemma AllocationKeepsCanonical(h: Heap, n: nat, strategy: Strategy, h': Heap, ptr: int)
    requires Inv(h) && Allocates(h, n, strategy, h', ptr) && Canonical(h)
    ensures Inv(h') && Canonical(h')
  {
    if exists i: nat :: Suitable(h, n, i) {
      var i := TakenIndex(h, n, strategy, h', ptr);
      TakeKeepsInv(h, i, n);
      TakeKeepsIncreasing(h, i, n);
      TakeKeepsCoalesced(h, i, n);
    }
  }

  lemma TakeShrinksFreeBytes(h: Heap, i: nat, n: nat, x: int)
    requires Inv(h) && Suitable(h, n, i) && FreeByte(h, x)
    ensures var (a, h') := (h.free[i], Take(h, i, n));
            FreeByte(h', x) || a <= x < End(h'.blocks, a)
  {
    var a, h' := h.free[i], Take(h, i, n);
    var b :| b in h.free && b in h.blocks && b <= x < End(h.blocks, b);
    TakeMembers(h, i, n);
    if b != a {
      assert b in h'.free && b in h'.blocks && x < End(h'.blocks, b);
    } else if Splits(h, i, n) && x >= End(h'.blocks, a) {
      var c := a + SIZEOF_NODE + n;
      assert c in h'.free && c in h'.blocks && x < End(h'.blocks, c);
    }
  }

  lemma TakeAddsNoFreeBytes(h: Heap, i: nat, n: nat, x: int)
    requires Inv(h) && Suitable(h, n, i) && FreeByte(Take(h, i, n), x)
    ensures var (a, h') := (h.free[i], Take(h, i, n));
            FreeByte(h, x) && !(a <= x < End(h'.blocks, a))
  {
    var a, h' := h.free[i], Take(h, i, n);
    var b :| b in h'.free && b in h'.blocks && b <= x < End(h'.blocks, b);
    TakeMembers(h, i, n);
    if b in h.free && b != a {
      assert x < End(h.blocks, b);
    } else {
      assert a in h.free && a in h.blocks && x < End(h.blocks, a);
    }
  }

  /** Taking a tile takes exactly its bytes from the free ones. */
  lemma TakeBytes(h: Heap, i: nat, n: nat, x: int)
    requires Inv(h) && Suitable(h, n, i)
    ensures var (a, h') := (h.free[i], Take(h, i, n));
            && (FreeByte(h, x) <==> FreeByte(h', x) || a <= x < End(h'.blocks, a))
            && (FreeByte(h', x) ==> !(a <= x < End(h'.blocks, a)))
  {
    if FreeByte(h, x) {
      TakeShrinksFreeBytes(h, i, n, x);
    }
    if FreeByte(Take(h, i, n), x) {
      TakeAddsNoFreeBytes(h, i, n, x);
    }
    assert h.free[i] in h.free;
  }

  /**
   A successful allocation hands out a block that was not live, with room for the request and at most
   one header's worth of slack, takes exactly its bytes from the free ones, and leaves every other
   live block alone.
   */
  lemma AllocationHandsOut(h: Heap, n: nat, strategy: Strategy, h': Heap, ptr: int)
    requires Inv(h) && Allocates(h, n, strategy, h', ptr) && ptr != NULL
    ensures var a := ptr - SIZEOF_NODE;
            && a in h.free && a !in h.live
            && h'.live == h.live[a := n]
            && a in h'.blocks && n <= h'.blocks[a] <= n + SIZEOF_NODE
            && (forall b :: b in h.live ==> b in h'.blocks && h'.blocks[b] == h.blocks[b])
            && (forall x :: FreeByte(h, x) <==> FreeByte(h', x) || a <= x < End(h'.blocks, a))
            && (forall x :: FreeByte(h', x) ==> !(a <= x < End(h'.blocks, a)))
  {
    var i := TakenIndex(h, n, strategy, h', ptr);
    TakeMembers(h, i, n);
    forall x {
      TakeBytes(h, i, n, x);
    }
  }

  // -- The same in sizes and list positions --------------------------------------------------------

  /** The list index of the block an allocation handed out, and that it was chosen. */
  lemma HandedOutAt(h: Heap, n: nat, strategy: Strategy, h': Heap, ptr: int) returns (i: nat)
    requires Inv(h) && Allocates(h, n, strategy, h', ptr) && ptr != NULL
    ensures Suitable(h, n, i) && ptr == h.free[i] + SIZEOF_NODE && h' == Take(h, i, n) && Chosen(h, n, strategy, i)
  {
    i :| Chosen(h, n, strategy, i) && h' == Take(h, i, n) && ptr == h.free[i] + SIZEOF_NODE;
  }

  /** Allocation fails exactly when every free tile is too small, and then nothing changes. */
  lemma AllocationFailsIff(h: Heap, n: nat, strategy: Strategy, h': Heap, ptr: int)
    requires Inv(h) && Allocates(h, n, strategy, h', ptr)
    ensures OnTiles(h)
    ensures ptr == NULL <==> forall j :: 0 <= j < |h.free| ==> h.blocks[h.free[j]] < n
    ensures ptr == NULL ==> h' == h
  {
    hide Take;
    if j: nat :| Suitable(h, n, j) {
      var i := TakenIndex(h, n, strategy, h', ptr);
      assert h.free[i] in h.blocks;
    } else {
      forall j | 0 <= j < |h.free|
        ensures h.blocks[h.free[j]] < n
      {
        assert !Suitable(h, n, j);
      }
    }
  }

  /** Best fit takes a smallest block that is large enough, and of those the first in the list. */
  lemma BestFitTakesSmallest(h: Heap, n: nat, h': Heap, ptr: int) returns (i: nat)
    requires Inv(h) && Allocates(h, n, BestFit, h', ptr) && ptr != NULL
    ensures OnTiles(h) && i < |h.free| && ptr == h.free[i] + SIZEOF_NODE && h.blocks[h.free[i]] >= n
    ensures forall j :: 0 <= j < |h.free| && h.blocks[h.free[j]] >= n ==>
              h.blocks[h.free[i]] <= h.blocks[h.free[j]] && (j < i ==> h.blocks[h.free[i]] < h.blocks[h.free[j]])
  {
    hide Take;
    i := HandedOutAt(h, n, BestFit, h', ptr);
    forall j: nat | j < |h.free| && j != i && h.blocks[h.free[j]] >= n
      ensures Prefers(h, BestFit, i, j)
    {
      assert Suitable(h, n, j);
    }
  }

  /** Worst fit takes a largest block, if that is large enough, and of the largest the first in the list. */
  lemma WorstFitTakesLargest(h: Heap, n: nat, h': Heap, ptr: int) returns (i: nat)
    requires Inv(h) && Allocates(h, n, WorstFit, h', ptr) && ptr != NULL
    ensures OnTiles(h) && i < |h.free| && ptr == h.free[i] + SIZEOF_NODE && h.blocks[h.free[i]] >= n
    ensures forall j :: 0 <= j < |h.free| ==>
              h.blocks[h.free[i]] >= h.blocks[h.free[j]] && (j < i ==> h.blocks[h.free[i]] > h.blocks[h.free[j]])
  {
    hide Take;
    i := HandedOutAt(h, n, WorstFit, h', ptr);
    forall j: nat | j < |h.free| && j != i && h.blocks[h.free[j]] >= n
      ensures Prefers(h, WorstFit, i, j)
    {
      assert Suitable(h, n, j);
    }
  }

  /** First fit takes a block before which none in the list is large enough. */
  lemma FirstFitTakesFirst(h: Heap, n: nat, h': Heap, ptr: int) returns (i: nat)
    requires Inv(h) && Allocates(h, n, FirstFit, h', ptr) && ptr != NULL
    ensures OnTiles(h) && i < |h.free| && ptr == h.free[i] + SIZEOF_NODE && h.blocks[h.free[i]] >= n
    ensures forall j :: 0 <= j < i ==> h.blocks[h.free[j]] < n
  {
    hide Take;
    i := HandedOutAt(h, n, FirstFit, h', ptr);
    forall j: nat | j < i
      ensures h.blocks[h.free[j]] < n
    {
      assert !Prefers(h, FirstFit, i, j);
      assert !Suitable(h, n, j);
    }
  }

  /**
   Next fit takes a block such that none from the roving pointer on up to it is large enough; when it lies
   before the pointer, none to the end of the list, nor from its head up to it. Without a pointer the head
   takes its place.
   */
  lemma NextFitTakesNext(h: Heap, n: nat, h': Heap, ptr: int) returns (i: nat, start: nat)
    requires Inv(h) && Allocates(h, n, NextFit, h', ptr) && ptr != NULL
    ensures OnTiles(h) && i < |h.free| && ptr == h.free[i] + SIZEOF_NODE && h.blocks[h.free[i]] >= n
    ensures if h.nextFree == NULL then start == 0 else start < |h.free| && h.free[start] == h.nextFree
    ensures start <= i ==> forall j :: start <= j < i ==> h.blocks[h.free[j]] < n
    ensures i < start ==> forall j :: (start <= j < |h.free| || 0 <= j < i) ==> h.blocks[h.free[j]] < n
  {
    hide Take;
    i := HandedOutAt(h, n, NextFit, h', ptr);
    start := StartIndex(h);
    assert forall a :: a in h.free ==> a in h.blocks && a != NULL;
    forall j: nat | j < |h.free| && j != i && h.blocks[h.free[j]] >= n
      ensures Prefers(h, NextFit, i, j)
    {
      assert Suitable(h, n, j);
    }
  }

  /**
   What a successful allocation leaves. A block larger than the request by more than a header is cut: the
   rest, a tile of its own, takes its place in the list and the roving pointer stands on it. Any other block
   leaves the list whole, and the pointer moves to the entry behind it, or to the head when it was the last.
   */
  lemma AllocationLeaves(h: Heap, n: nat, strategy: Strategy, h': Heap, ptr: int) returns (i: nat)
    requires Inv(h) && Allocates(h, n, strategy, h', ptr) && ptr != NULL
    ensures OnTiles(h) && i < |h.free| && ptr == h.free[i] + SIZEOF_NODE
    ensures var (a, rest) := (h.free[i], ptr + n);
            if h.blocks[a] > n + SIZEOF_NODE then
              && h'.free == h.free[i := rest] && h'.nextFree == rest
              && a in h'.blocks && rest in h'.blocks && h'.blocks.Keys == h.blocks.Keys + {rest}
              && h'.blocks[a] == n && End(h'.blocks, rest) == End(h.blocks, a)
            else
              && h'.blocks == h.blocks && h'.free == h.free[..i] + h.free[i + 1..]
              && (if i + 1 < |h.free| then h'.nextFree == h.free[i + 1]
                  else if i > 0 then h'.nextFree == h.free[0]
                  else h'.nextFree == NULL)
  {
    hide Inv, Tiling, Distinct, Chosen, Allocates, Take;
    InvShows(h);
    i := HandedOutAt(h, n, strategy, h', ptr);
    TakeLeaves(h, i, n);
  }

  lemma TakeLeaves(h: Heap, i: nat, n: nat)
    requires OnTiles(h) && Suitable(h, n, i)
    ensures var (a, h') := (h.free[i], Take(h, i, n));
            if h.blocks[a] > n + SIZEOF_NODE then
              var rest := a + SIZEOF_NODE + n;
              && h'.free == h.free[i := rest] && h'.nextFree == rest
              && a in h'.blocks && rest in h'.blocks && h'.blocks.Keys == h.blocks.Keys + {rest}
              && h'.blocks[a] == n && End(h'.blocks, rest) == End(h.blocks, a)
            else
              && h'.blocks == h.blocks && h'.free == h.free[..i] + h.free[i + 1..]
              && h'.nextFree == if i + 1 < |h.free| then h.free[i + 1] else if i > 0 then h.free[0] else NULL
  {
    var s := h.free[..i] + h.free[i + 1..];
    assert i + 1 < |h.free| ==> i < |s| && s[i] == h.free[i + 1];
    assert i > 0 ==> s[0] == h.free[0];
    assert |s| == |h.free| - 1;
  }
}
