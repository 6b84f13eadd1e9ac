/**
 Frees with no allocation in between, as when a program gives everything back at its end: exactly which
 of them leave the free list in order, and when all memory is reclaimed.
 */
module HeapTeardown {
  import opened HeapModel
  import opened Placement
  import opened Release
  import opened HeapRuns

  /** Some entry of the list lies above the last one. */
  ghost predicate LastIsBelow(free: seq<int>) {
    exists k :: 0 <= k < |free| - 1 && free[k] > free[|free| - 1]
  }

  lemma LastIsBelowAt(free: seq<int>, k: nat)
    requires k + 1 < |free| && free[k] > free[|free| - 1]
    ensures LastIsBelow(free)
  {
  }

  /** What lies above a tile that starts below the end of `a`, and is not `a`. */
  lemma BelowEnd(h: Heap, a: int, b: int)
    requires Inv(h) && a in h.blocks && b in h.blocks && b < End(h.blocks, a) && b != a
    ensures b < a
  {
    if a < b {
      TilesApart(h, a, b);
    }
  }

  /** A last entry below the one that follows the block lies below the block, and below a tile before it. */
  lemma LastBelowBlock(h: Heap, a: int, j: nat)
    requires Inv(h) && a in h.live && j + 1 < |h.free| && a in h.blocks && End(h.blocks, a) == h.free[j]
    requires h.free[j] > h.free[|h.free| - 1]
    ensures h.free[|h.free| - 1] < a
    ensures j > 0 && h.free[j - 1] in h.blocks && End(h.blocks, h.free[j - 1]) == a ==>
              h.free[|h.free| - 1] < h.free[j - 1]
  {
    InvShows(h);
    hide Inv, Tiling, Distinct;
    var last := h.free[|h.free| - 1];
    assert last in h.free;
    BelowEnd(h, a, last);
    if j > 0 && End(h.blocks, h.free[j - 1]) == a {
      DistinctAt(h.free, j - 1);
      BelowEnd(h, h.free[j - 1], last);
    }
  }

  /** The search stops before the last entry if that is above the block and below another. */
  lemma StopsBeforeLast(free: seq<int>, a: int, k: nat)
    requires k + 1 < |free| && free[k] > free[|free| - 1] && free[InsertIndex(free, a)] > a
    ensures InsertIndex(free, a) + 1 < |free|
  {
  }

  /** A block that joins the next entry enters before the last one, which lies below what the entry becomes. */
  lemma JoinedBeforeLast(h: Heap, a: int, k: nat)
    requires Inv(h) && a in h.live && h.free != [] && JoinsNext(h, a)
    requires k + 1 < |h.free| && h.free[k] > h.free[|h.free| - 1]
    ensures var (j, last) := (InsertIndex(h.free, a), h.free[|h.free| - 1]);
            && j + 1 < |h.free|
            && (k == j ==> last < a && (OnTiles(h) && JoinsPrev(h, a) ==> last < h.free[j - 1]))
  {
    hide Inv, Tiling, Distinct, OnTiles;
    InvShows(h);
    StopsBeforeLast(h.free, a, k);
    if k == InsertIndex(h.free, a) {
      LastBelowBlock(h, a, k);
    }
  }

  lemma DistinctAt(s: seq<int>, i: nat)
    requires Distinct(s) && i < |s| - 1
    ensures s[i] != s[|s| - 1]
  {
  }

  lemma JoinedBothStaysBelow(h: Heap, a: int, k: nat)
    requires Inv(h) && a in h.live && h.free != [] && JoinsNext(h, a) && JoinsPrev(h, a)
    requires k + 1 < |h.free| && h.free[k] > h.free[|h.free| - 1]
    ensures LastIsBelow(Freed(h, a).free)
  {
    hide Inv, LastIsBelow, InsertIndex, OnTiles, Distinct, Tiling;
    InvShows(h);
    JoinedBeforeLast(h, a, k);
    var (free, j) := (h.free, InsertIndex(h.free, a));
    var f := free[..j] + free[j + 1..];
    assert Freed(h, a).free == f;
    LastIsBelowAt(f, if k < j then k else k - 1);
  }

  lemma JoinedNextStaysBelow(h: Heap, a: int, k: nat)
    requires Inv(h) && a in h.live && h.free != [] && JoinsNext(h, a) && !JoinsPrev(h, a)
    requires k + 1 < |h.free| && h.free[k] > h.free[|h.free| - 1]
    ensures LastIsBelow(Freed(h, a).free)
  {
    hide Inv, LastIsBelow, InsertIndex, OnTiles, Distinct, Tiling;
    InvShows(h);
    JoinedBeforeLast(h, a, k);
    assert Freed(h, a).free == h.free[InsertIndex(h.free, a) := a];
    LastIsBelowAt(Freed(h, a).free, k);
  }

  lemma NotJoinedStaysBelow(h: Heap, a: int, k: nat)
    requires OnTiles(h) && a in h.blocks && a in h.live && h.free != [] && !JoinsNext(h, a)
    requires k + 1 < |h.free| && h.free[k] > h.free[|h.free| - 1]
    ensures LastIsBelow(Freed(h, a).free)
  {
    hide LastIsBelow, InsertIndex;
    var (free, j) := (h.free, InsertIndex(h.free, a));
    if JoinsPrev(h, a) {
      LastIsBelowAt(free, k);
    } else {
      assert Freed(h, a).free == free[..j] + [a] + free[j..];
      LastIsBelowAt(Freed(h, a).free, if k < j then k else k + 1);
    }
  }

  /** Once an entry lies above the last one, no free mends that. */
  lemma FreedStaysBelow(h: Heap, a: int)
    requires Inv(h) && a in h.live && LastIsBelow(h.free)
    ensures OnTiles(h) && a in h.blocks && LastIsBelow(Freed(h, a).free)
  {
    InvShows(h);
    hide Inv, Tiling, Distinct, Freed, JoinsNext, JoinsPrev;
    var k: nat :| k < |h.free| - 1 && h.free[k] > h.free[|h.free| - 1];
    hide LastIsBelow;
    if !JoinsNext(h, a) {
      NotJoinedStaysBelow(h, a, k);
    } else if JoinsPrev(h, a) {
      JoinedBothStaysBelow(h, a, k);
    } else {
      JoinedNextStaysBelow(h, a, k);
    }
  }

  /** From `m` to `i`, each free finds the list empty or some free tile above its block. */
  ghost predicate FindAbove(ops: seq<Op>, hs: seq<Heap>, m: nat, i: nat)
    requires m <= i <= |ops| < |hs|
  {
    forall k :: m <= k < i && ops[k].Free? ==> FoundAbove(hs[k], ops[k].ptr - SIZEOF_NODE)
  }

  ghost predicate NoAllocation(ops: seq<Op>, m: nat, i: nat)
    requires m <= i <= |ops|
  {
    forall k :: m <= k < i ==> !ops[k].Malloc?
  }

  lemma OutOfOrderIsNotCanonical(h: Heap)
    requires Inv(h) && LastIsBelow(h.free)
    ensures !Canonical(h)
  {
  }

  /** A step other than an allocation keeps a canonical list so, or puts its last entry below another for good. */
  lemma StepWithoutAllocation(boot: Heap, h: Heap, op: Op, h': Heap)
    requires Inv(h) && Step(boot, h, op, h') && !op.Malloc? && (Canonical(h) || LastIsBelow(h.free))
    ensures Inv(h') && (Canonical(h') || LastIsBelow(h'.free))
    ensures Canonical(h') <==> Canonical(h) && (op.Free? ==> FoundAbove(h, op.ptr - SIZEOF_NODE))
  {
    hide Inv, Canonical, LastIsBelow, Freed, ReadsThroughNull, FoundAbove;
    InvShows(h);
    StepKeepsInv(boot, h, op, h');
    if Canonical(h) && (op.Free? ==> FoundAbove(h, op.ptr - SIZEOF_NODE)) {
      StepKeepsCanonical(boot, h, op, h');
    } else {
      if Canonical(h) {
        LinkedBelow(h, op.ptr - SIZEOF_NODE);
      } else if op.Free? {
        FreedStaysBelow(h, op.ptr - SIZEOF_NODE);
      }
      OutOfOrderIsNotCanonical(h');
    }
  }

  lemma LinkedBelow(h: Heap, a: int)
    requires Inv(h) && a in h.live && Canonical(h) && !FoundAbove(h, a)
    ensures OnTiles(h) && a in h.blocks && LastIsBelow(Freed(h, a).free)
  {
    FreedOutOfOrder(h, a);
    LastIsBelowAt(Freed(h, a).free, |h.free| - 1);
  }

  /**
   While nothing is allocated, a list that was canonical is so still exactly when each free since then has
   found it empty or found some free tile above its block. Otherwise its last entry lies below another.
   */
  lemma {:induction false} CanonicalIffFoundAbove(capacity: int, ops: seq<Op>, hs: seq<Heap>, m: nat, i: nat)
    requires EnoughForBoot(capacity) && Run(capacity, ops, hs) && m <= i < |hs|
    requires Inv(hs[m]) && Canonical(hs[m]) && NoAllocation(ops, m, i)
    ensures Inv(hs[i]) && (Canonical(hs[i]) || LastIsBelow(hs[i].free))
    ensures Canonical(hs[i]) <==> FindAbove(ops, hs, m, i)
  {
    hide Inv, Canonical, LastIsBelow, Step, FoundAbove;
    if m < i {
      CanonicalIffFoundAbove(capacity, ops, hs, m, i - 1);
      StepWithoutAllocation(Booted(capacity), hs[i - 1], ops[i - 1], hs[i]);
    }
  }

  /**
   Frees that, without an allocation among them, give back every user block of a canonical heap restore the
   tiles and the free list of the freshly booted heap exactly when each of them finds the list empty or some
   free tile above its block.
   */
  lemma TeardownReclaimsIff(capacity: int, ops: seq<Op>, hs: seq<Heap>, m: nat, i: nat)
    requires EnoughForBoot(capacity) && Run(capacity, ops, hs) && m <= i < |hs|
    requires Inv(hs[m]) && Canonical(hs[m]) && NoAllocation(ops, m, i)
    requires forall a :: !UserBlock(Booted(capacity), hs[i], a)
    ensures (hs[i].free == Booted(capacity).free && hs[i].blocks == Booted(capacity).blocks) <==>
              FindAbove(ops, hs, m, i)
  {
    hide Inv, Canonical, Step, FoundAbove;
    CanonicalIffFoundAbove(capacity, ops, hs, m, i);
    ReclaimedIffCanonical(capacity, ops, hs, i);
  }
}
