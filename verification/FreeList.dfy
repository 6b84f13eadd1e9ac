/**
 The free list as it lies in memory: headers linked by address, the four placement strategies, the
 split and the merge. Each method is proved against the heap it stands for.
 */
module FreeLists {
  import opened HeapModel
  import opened Placement
  import opened Release

  const MAGIC_NUMBER := 0x12345678

  /** A header. Memory is an array of headers indexed by byte offset; only the ones at tile starts matter. */
  datatype Node = Node(size: nat, next: int, magicNumber: int, isFreed: int)

  ghost predicate LooksValid(n: Node) {
    n.magicNumber == MAGIC_NUMBER && n.isFreed != 1
  }

  /** The list entry at position `i`, or `NULL` off either end of the list. */
  ghost function Entry(free: seq<int>, i: int): int {
    if 0 <= i < |free| then free[i] else NULL
  }

  ghost predicate SizesHold(mem: seq<Node>, blocks: map<int, nat>) {
    forall a :: a in blocks ==> 0 <= a < |mem| && mem[a].size == blocks[a]
  }

  ghost predicate Links(mem: seq<Node>, head: int, free: seq<int>) {
    && head == Entry(free, 0)
    && (forall i :: 0 <= i < |free| ==> 0 <= free[i] < |mem|)
    && (forall i {:trigger mem[free[i]]} :: 0 <= i < |free| ==> mem[free[i]].next == Entry(free, i + 1))
  }

  ghost predicate MarksHold(mem: seq<Node>, valid: set<int>) {
    forall a :: 0 <= a < |mem| ==> (a in valid <==> LooksValid(mem[a]))
  }

  /** The headers in memory and the two pointers of the free list stand for heap `h`. */
  ghost predicate Represents(mem: seq<Node>, head: int, nextFreeBlock: int, h: Heap) {
    && |mem| == h.capacity
    && SizesHold(mem, h.blocks)
    && Links(mem, head, h.free)
    && nextFreeBlock == h.nextFree
    && MarksHold(mem, h.valid)
  }

  // -- Memory updates ---------------------------------------------------------------------------

  /** The two memories carry the same marks in every header. */
  ghost predicate SameMarks(mem: seq<Node>, mem': seq<Node>) {
    && |mem| == |mem'|
    && forall a :: 0 <= a < |mem| ==> mem[a].magicNumber == mem'[a].magicNumber && mem[a].isFreed == mem'[a].isFreed
  }

  /** The link that leads to list position `i` is now `x`: the head pointer, or that of the entry before. */
  ghost predicate LinkSet(mem: seq<Node>, head: int, mem': seq<Node>, head': int, free: seq<int>, i: nat, x: int)
    requires Links(mem, head, free) && |mem'| == |mem| && i <= |free|
  {
    && head' == (if i == 0 then x else head)
    && (forall k {:trigger mem'[free[k]]} :: 0 <= k < |free| && k != i - 1 ==> mem'[free[k]].next == mem[free[k]].next)
    && (i > 0 ==> mem'[free[i - 1]].next == x)
  }

  lemma LinkReplaced(mem: seq<Node>, head: int, mem': seq<Node>, head': int, free: seq<int>, i: nat, c: int)
    requires Links(mem, head, free) && |mem'| == |mem| && i < |free| && 0 <= c < |mem|
    requires LinkSet(mem, head, mem', head', free, i, c) && mem'[c].next == mem[free[i]].next
    ensures Links(mem', head', free[i := c])
  {
  }

  lemma LinkRemoved(mem: seq<Node>, head: int, mem': seq<Node>, head': int, free: seq<int>, i: nat)
    requires Links(mem, head, free) && |mem'| == |mem| && i < |free|
    requires head' == if i == 0 then mem[free[i]].next else head
    requires forall k {:trigger mem'[free[k]]} :: 0 <= k < |free| && k != i - 1 && k != i ==>
               mem'[free[k]].next == mem[free[k]].next
    requires i > 0 ==> mem'[free[i - 1]].next == mem[free[i]].next
    ensures Links(mem', head', free[..i] + free[i + 1..])
  {
    var r := free[..i] + free[i + 1..];
    assert forall k :: 0 <= k < |r| ==> r[k] == free[if k < i then k else k + 1];
  }

  lemma LinkInserted(mem: seq<Node>, head: int, mem': seq<Node>, head': int, free: seq<int>, i: nat, a: int)
    requires Links(mem, head, free) && |mem'| == |mem| && i <= |free| && 0 <= a < |mem|
    requires LinkSet(mem, head, mem', head', free, i, a) && mem'[a].next == Entry(free, i)
    ensures Links(mem', head', free[..i] + [a] + free[i..])
  {
    var r := free[..i] + [a] + free[i..];
    assert forall k :: 0 <= k < |r| ==> r[k] == if k < i then free[k] else if k == i then a else free[k - 1];
  }

  /** `mem` with the `next` field of the header at `p`, if there is one, set to `x`. */
  ghost function Relinked(mem: seq<Node>, p: int, x: int): seq<Node>
    requires p == NULL || 0 <= p < |mem|
  {
    if p == NULL then mem else mem[p := mem[p].(next := x)]
  }

  lemma RelinkedSetsLink(mem: seq<Node>, head: int, m: seq<Node>, head': int, free: seq<int>, i: nat, x: int)
    requires Links(mem, head, free) && Distinct(free) && |m| == |mem| && i <= |free|
    requires forall k {:trigger m[free[k]]} :: 0 <= k < |free| ==> m[free[k]].next == mem[free[k]].next
    requires head' == if i == 0 then x else head
    ensures LinkSet(mem, head, Relinked(m, Entry(free, i - 1), x), head', free, i, x)
  {
  }

  /** The tile at list position `i` is cut to `n` bytes and its rest, at `c`, takes its place in the list. */
  ghost predicate Cut(mem: seq<Node>, head: int, mem': seq<Node>, head': int, free: seq<int>, i: nat, c: int, n: nat)
    requires Links(mem, head, free) && i < |free| && 0 <= c < |mem|
  {
    var a := free[i];
    && SameMarks(mem, mem')
    && LinkSet(mem, head, mem', head', free, i, c)
    && mem'[c].next == mem[a].next
    && mem'[a].size == n
    && mem'[c].size + n + SIZEOF_NODE == mem[a].size
    && forall b :: 0 <= b < |mem| && b != a && b != c ==> mem'[b].size == mem[b].size
  }

  /** What the assignments of `Split` leave in memory, in the list head and in the roving pointer. */
  ghost function SplitMemory(mem: seq<Node>, head: int, a: int, prev: int, n: nat): (seq<Node>, int, int)
    requires 0 <= a < |mem| && (prev == NULL || 0 <= prev < |mem|)
    requires mem[a].size > n + SIZEOF_NODE ==> a + SIZEOF_NODE + n < |mem|
  {
    if mem[a].size > n + SIZEOF_NODE then
      var c := a + SIZEOF_NODE + n;
      var m := mem[c := mem[c].(size := mem[a].size - n - SIZEOF_NODE, next := mem[a].next)];
      (Relinked(m[a := m[a].(size := n)], prev, c), if prev == NULL then c else head, c)
    else
      var next := mem[a].next;
      var head' := if prev == NULL then next else head;
      (Relinked(mem, prev, next), head', if next == NULL then head' else next)
  }

  lemma CutIsCut(mem: seq<Node>, head: int, free: seq<int>, i: nat, n: nat)
    requires Links(mem, head, free) && Distinct(free) && i < |free| && mem[free[i]].size > n + SIZEOF_NODE
    requires free[i] + SIZEOF_NODE + n < |mem| && free[i] + SIZEOF_NODE + n !in free
    ensures var (m, hd, c) := SplitMemory(mem, head, free[i], Entry(free, i - 1), n);
            Cut(mem, head, m, hd, free, i, c, n)
  {
    var a := free[i];
    var c := a + SIZEOF_NODE + n;
    var m := mem[c := mem[c].(size := mem[a].size - n - SIZEOF_NODE, next := mem[a].next)];
    RelinkedSetsLink(mem, head, m[a := m[a].(size := n)], if i == 0 then c else head, free, i, c);
  }

  lemma CutSizes(mem: seq<Node>, mem': seq<Node>, blocks: map<int, nat>, a: int, c: int, n: nat)
    requires SizesHold(mem, blocks) && a in blocks && n <= blocks[a] - SIZEOF_NODE
    requires |mem'| == |mem| && 0 <= c < |mem| && c != a
    requires mem'[a].size == n && mem'[c].size == blocks[a] - n - SIZEOF_NODE
    requires forall b :: 0 <= b < |mem| && b != a && b != c ==> mem'[b].size == mem[b].size
    ensures SizesHold(mem', blocks[a := n][c := blocks[a] - n - SIZEOF_NODE])
  {
  }

  lemma SameMarksHold(mem: seq<Node>, mem': seq<Node>, valid: set<int>)
    requires SameMarks(mem, mem') && MarksHold(mem, valid)
    ensures MarksHold(mem', valid)
  {
  }

  lemma CutRepresents(mem: seq<Node>, head: int, nfb: int, h: Heap, i: nat, n: nat, mem': seq<Node>, head': int)
    requires Inv(h) && Represents(mem, head, nfb, h) && Suitable(h, n, i) && Splits(h, i, n)
    requires Cut(mem, head, mem', head', h.free, i, h.free[i] + SIZEOF_NODE + n, n)
    ensures var c := h.free[i] + SIZEOF_NODE + n;
            Represents(mem', head', c, Take(h, i, n).(valid := h.valid))
  {
    hide Inv, SizesHold, Links, MarksHold, LinkSet;
    StartOfWalk(mem, head, nfb, h);
    SplitFits(mem, head, nfb, h, i, n);
    var c := h.free[i] + SIZEOF_NODE + n;
    LinkReplaced(mem, head, mem', head', h.free, i, c);
    CutSizes(mem, mem', h.blocks, h.free[i], c, n);
    SameMarksHold(mem, mem', h.valid);
  }

  lemma DropRepresents(mem: seq<Node>, head: int, nfb: int, h: Heap, i: nat, n: nat, mem': seq<Node>, head': int)
    requires Inv(h) && Represents(mem, head, nfb, h) && Suitable(h, n, i) && !Splits(h, i, n)
    requires SameMarks(mem, mem') && LinkSet(mem, head, mem', head', h.free, i, mem[h.free[i]].next)
    requires forall b :: 0 <= b < |mem| ==> mem'[b].size == mem[b].size
    ensures var next := mem[h.free[i]].next;
            Represents(mem', head', if next == NULL then head' else next, Take(h, i, n).(valid := h.valid))
  {
    LinkRemoved(mem, head, mem', head', h.free, i);
    var h' := Take(h, i, n);
    assert i < |h'.free| ==> h'.free[i] == h.free[i + 1];
  }

  lemma SplitFits(mem: seq<Node>, head: int, nfb: int, h: Heap, i: nat, n: nat)
    requires Inv(h) && Represents(mem, head, nfb, h) && Suitable(h, n, i)
    ensures var (a, prev) := (h.free[i], Entry(h.free, i - 1));
            && 0 <= a < |mem| && mem[a].size == h.blocks[a]
            && (prev == NULL <==> i == 0) && (prev == NULL || 0 <= prev < |mem|) && prev != a
            && (mem[a].size > n + SIZEOF_NODE ==>
                  a + SIZEOF_NODE + n < |mem| && a + SIZEOF_NODE + n !in h.blocks && a + SIZEOF_NODE + n !in h.free)
  {
    assert h.free[i] in h.blocks;
    assert i > 0 ==> h.free[i - 1] in h.blocks;
  }

  lemma SplitRepresents(mem: seq<Node>, head: int, nfb: int, h: Heap, i: nat, n: nat, r: (seq<Node>, int, int))
    requires Inv(h) && Represents(mem, head, nfb, h) && Suitable(h, n, i)
    requires var (a, prev) := (h.free[i], Entry(h.free, i - 1));
             && 0 <= a < |mem| && (prev == NULL || 0 <= prev < |mem|)
             && (mem[a].size > n + SIZEOF_NODE ==> a + SIZEOF_NODE + n < |mem|)
             && r == SplitMemory(mem, head, a, prev, n)
    ensures Represents(r.0, r.1, r.2, Take(h, i, n).(valid := h.valid))
  {
    InvShows(h);
    hide Inv, Cut, SizesHold, MarksHold, Take, Distinct;
    StartOfWalk(mem, head, nfb, h);
    SplitFits(mem, head, nfb, h, i, n);
    if Splits(h, i, n) {
      CutIsCut(mem, head, h.free, i, n);
      CutRepresents(mem, head, nfb, h, i, n, r.0, r.1);
    } else {
      RelinkedSetsLink(mem, head, mem, r.1, h.free, i, mem[h.free[i]].next);
      DropRepresents(mem, head, nfb, h, i, n, r.0, r.1);
    }
  }

  ghost function Marked(mem: seq<Node>, a: int): seq<Node>
    requires 0 <= a < |mem|
  {
    var m := mem[a := mem[a].(magicNumber := MAGIC_NUMBER)];
    m[a := m[a].(isFreed := 0)]
  }

  lemma MarkedRepresents(mem: seq<Node>, head: int, nfb: int, h: Heap, a: int)
    requires Represents(mem, head, nfb, h) && 0 <= a < |mem|
    ensures Represents(Marked(mem, a), head, nfb, h.(valid := h.valid + {a}))
  {
  }

  /** Once split off, marking the chosen tile completes what the allocation demands. */
  lemma MarkedIsAllocated(mem: seq<Node>, head: int, nfb: int, h: Heap, strategy: Strategy, i: nat, n: nat)
    returns (h': Heap)
    requires Inv(h) && Chosen(h, n, strategy, i) && 0 <= h.free[i] < |mem|
    requires Represents(mem, head, nfb, Take(h, i, n).(valid := h.valid))
    ensures Inv(h') && Allocates(h, n, strategy, h', h.free[i] + SIZEOF_NODE)
    ensures Represents(Marked(mem, h.free[i]), head, nfb, h')
  {
    hide Inv, Represents, Tiling, Distinct;
    InvShows(h);
    ChosenIsSuitable(h, n, strategy, i);
    h' := Take(h, i, n);
    TakeKeepsInv(h, i, n);
    MarkedRepresents(mem, head, nfb, h'.(valid := h.valid), h.free[i]);
    assert h'.(valid := h.valid).(valid := h.valid + {h.free[i]}) == h';
  }

  // -- What the memory updates of the merge come to ----------------------------------------------

  ghost function Absorb(mem: seq<Node>, into: int, size: nat, next: int): seq<Node>
    requires 0 <= into < |mem|
  {
    var m := mem[into := mem[into].(size := size)];
    m[into := m[into].(next := next)]
  }

  /** What `CoalesceFreeList` leaves in memory, and what it returns. */
  ghost function CoalescedMemory(mem: seq<Node>, freed: int, prev: int, next: int): (seq<Node>, int)
    requires 0 <= freed < |mem| && (prev == NULL || 0 <= prev < |mem|) && (next == NULL || 0 <= next < |mem|)
  {
    var joinsNext := freed + mem[freed].size + SIZEOF_NODE == next;
    var joinsPrev := prev != NULL && prev + mem[prev].size + SIZEOF_NODE == freed;
    var merged :=
      if joinsNext && joinsPrev then
        Absorb(mem, prev, mem[prev].size + (mem[freed].size + mem[next].size + 2 * SIZEOF_NODE), mem[next].next)
      else if joinsNext then
        Absorb(mem, freed, mem[freed].size + (mem[next].size + SIZEOF_NODE), mem[next].next)
      else if joinsPrev then
        Absorb(mem, prev, mem[prev].size + (mem[freed].size + SIZEOF_NODE), mem[freed].next)
      else mem;
    var result :=
      if prev == NULL then freed
      else if next == NULL || joinsNext then prev
      else if joinsPrev then freed
      else NULL;
    (merged, result)
  }

  lemma LinkedFits(mem: seq<Node>, head: int, nfb: int, h: Heap, a: int, j: nat)
    requires Inv(h) && a in h.live && j <= |h.free| && Represents(mem, head, nfb, Linked(h, a, j))
    ensures var (prev, next) := (Entry(h.free, j - 1), Entry(h.free, j));
            && OnTiles(h) && a in h.blocks && 0 <= a < |mem| && mem[a].size == h.blocks[a] && mem[a].next == next
            && (if j == 0 then prev == NULL
                else 0 <= prev < |mem| && prev in h.blocks && mem[prev].size == h.blocks[prev] && mem[prev].next == a)
            && (if j == |h.free| then next == NULL
                else 0 <= next < |mem| && next in h.blocks && mem[next].size == h.blocks[next])
            && prev != a && next != a && (prev == next ==> prev == NULL)
  {
    var l := Linked(h, a, j).free;
    assert l[j] == a && (j > 0 ==> l[j - 1] == h.free[j - 1]) && (j < |h.free| ==> l[j + 1] == h.free[j]);
    assert mem[l[j]].next == Entry(l, j + 1);
    assert j > 0 ==> mem[l[j - 1]].next == a;
    assert j > 0 ==> h.free[j - 1] in h.blocks && h.free[j - 1] in h.free;
    assert j < |h.free| ==> h.free[j] in h.blocks && h.free[j] in h.free;
  }

  /** Unlinking the entry after position `k - 1`. */
  lemma LinksSkip(mem: seq<Node>, head: int, l: seq<int>, k: nat, size: nat)
    requires Links(mem, head, l) && Distinct(l) && 0 < k < |l|
    ensures Links(Absorb(mem, l[k - 1], size, mem[l[k]].next), head, l[..k] + l[k + 1..])
  {
    LinkRemoved(mem, head, Absorb(mem, l[k - 1], size, mem[l[k]].next), head, l, k);
  }

  /** Unlinking the two entries after position `k - 1`. */
  lemma LinksSkipTwo(mem: seq<Node>, head: int, l: seq<int>, k: nat, size: nat)
    requires Links(mem, head, l) && Distinct(l) && 0 < k < |l| - 1
    ensures Links(Absorb(mem, l[k - 1], size, mem[l[k + 1]].next), head, l[..k] + l[k + 2..])
  {
    var next := mem[l[k + 1]].next;
    var mid := mem[l[k] := mem[l[k]].(next := next)];
    LinkRemoved(mem, head, mid, head, l, k + 1);
    var l1 := l[..k + 1] + l[k + 2..];
    assert forall i :: 0 <= i < |l1| ==> l1[i] == l[if i < k + 1 then i else i + 1];
    assert Distinct(l1);
    LinkRemoved(mid, head, Absorb(mem, l[k - 1], size, next), head, l1, k);
    assert l1[..k] + l1[k + 1..] == l[..k] + l[k + 2..];
  }

  /** Absorbing tiles into one that stays, once the list no longer holds them. */
  lemma AbsorbedRepresents(mem: seq<Node>, head: int, nfb: int, g: Heap, into: int, size: nat, next: int,
                           gone: set<int>, free: seq<int>)
    requires Represents(mem, head, nfb, g) && 0 <= into < |mem|
    requires Links(Absorb(mem, into, size, next), head, free)
    ensures Represents(Absorb(mem, into, size, next), head, nfb,
                       g.(blocks := (g.blocks - gone)[into := size], free := free))
  {
    assert SameMarks(mem, Absorb(mem, into, size, next));
  }

  lemma RepresentsLinks(mem: seq<Node>, head: int, nfb: int, h: Heap)
    requires Represents(mem, head, nfb, h)
    ensures Links(mem, head, h.free)
  {
  }

  lemma LinkedList(h: Heap, a: int, j: nat)
    requires Inv(h) && a in h.live && j <= |h.free|
    ensures var l := Linked(h, a, j).free;
            && Distinct(l) && |l| == |h.free| + 1 && l[j] == a
            && (j > 0 ==> l[j - 1] == h.free[j - 1]) && (j < |h.free| ==> l[j + 1] == h.free[j])
            && l[..j] == h.free[..j] && l[j + 1..] == h.free[j..]
  {
    InsertAt(h.free, j, a);
  }

  lemma CoalescedRepresentsNext(mem: seq<Node>, head: int, nfb: int, h: Heap, a: int, j: nat, mem': seq<Node>)
    requires Inv(h) && a in h.live && j < |h.free| && Represents(mem, head, nfb, Linked(h, a, j))
    requires TouchesNext(h, a, j) && !TouchesPrev(h, a, j)
    requires 0 <= a < |mem| && 0 <= h.free[j] < |mem|
    requires mem' == Absorb(mem, a, h.blocks[a] + h.blocks[h.free[j]] + SIZEOF_NODE, mem[h.free[j]].next)
    ensures Represents(mem', head, nfb, MergedAt(h, a, j))
  {
    hide Inv, Represents;
    LinkedFits(mem, head, nfb, h, a, j);
    RepresentsLinks(mem, head, nfb, Linked(h, a, j));
    var g, next := Linked(h, a, j), h.free[j];
    var size := h.blocks[a] + h.blocks[next] + SIZEOF_NODE;
    LinkedList(h, a, j);
    LinksSkip(mem, head, g.free, j + 1, size);
    AbsorbedRepresents(mem, head, nfb, g, a, size, mem[next].next, {next}, g.free[..j + 1] + g.free[j + 2..]);
    assert g.free[..j + 1] + g.free[j + 2..] == h.free[j := a];
  }

  lemma CoalescedRepresentsPrev(mem: seq<Node>, head: int, nfb: int, h: Heap, a: int, j: nat, mem': seq<Node>)
    requires Inv(h) && a in h.live && 0 < j <= |h.free| && Represents(mem, head, nfb, Linked(h, a, j))
    requires !TouchesNext(h, a, j) && TouchesPrev(h, a, j)
    requires 0 <= a < |mem| && 0 <= h.free[j - 1] < |mem|
    requires mem' == Absorb(mem, h.free[j - 1], h.blocks[h.free[j - 1]] + h.blocks[a] + SIZEOF_NODE, mem[a].next)
    ensures Represents(mem', head, nfb, MergedAt(h, a, j))
  {
    hide Inv, Represents;
    LinkedFits(mem, head, nfb, h, a, j);
    RepresentsLinks(mem, head, nfb, Linked(h, a, j));
    var g, prev := Linked(h, a, j), h.free[j - 1];
    var size := h.blocks[prev] + h.blocks[a] + SIZEOF_NODE;
    LinkedList(h, a, j);
    LinksSkip(mem, head, g.free, j, size);
    AbsorbedRepresents(mem, head, nfb, g, prev, size, mem[a].next, {a}, g.free[..j] + g.free[j + 1..]);
    assert g.free[..j] + g.free[j + 1..] == h.free;
  }

  lemma CoalescedRepresentsBoth(mem: seq<Node>, head: int, nfb: int, h: Heap, a: int, j: nat, mem': seq<Node>)
    requires Inv(h) && a in h.live && 0 < j < |h.free| && Represents(mem, head, nfb, Linked(h, a, j))
    requires TouchesNext(h, a, j) && TouchesPrev(h, a, j)
    requires 0 <= a < |mem| && 0 <= h.free[j - 1] < |mem| && 0 <= h.free[j] < |mem|
    requires var size := h.blocks[h.free[j - 1]] + h.blocks[a] + h.blocks[h.free[j]] + 2 * SIZEOF_NODE;
             mem' == Absorb(mem, h.free[j - 1], size, mem[h.free[j]].next)
    ensures Represents(mem', head, nfb, MergedAt(h, a, j))
  {
    hide Inv, Represents;
    LinkedFits(mem, head, nfb, h, a, j);
    RepresentsLinks(mem, head, nfb, Linked(h, a, j));
    var g, prev, next := Linked(h, a, j), h.free[j - 1], h.free[j];
    var size := h.blocks[prev] + h.blocks[a] + h.blocks[next] + 2 * SIZEOF_NODE;
    LinkedList(h, a, j);
    LinksSkipTwo(mem, head, g.free, j, size);
    AbsorbedRepresents(mem, head, nfb, g, prev, size, mem[next].next, {a, next}, g.free[..j] + g.free[j + 2..]);
    assert g.free[..j] + g.free[j + 2..] == h.free[..j] + h.free[j + 1..];
  }

  /** Merging in memory is merging in the heap the memory stands for, in each of the four cases. */
  lemma CoalescedRepresents(mem: seq<Node>, head: int, nfb: int, h: Heap, a: int, j: nat)
    requires Inv(h) && a in h.live && j <= |h.free| && Represents(mem, head, nfb, Linked(h, a, j))
    requires var (prev, next) := (Entry(h.free, j - 1), Entry(h.free, j));
             0 <= a < |mem| && (prev == NULL || 0 <= prev < |mem|) && (next == NULL || 0 <= next < |mem|)
    ensures var (mem', r) := CoalescedMemory(mem, a, Entry(h.free, j - 1), Entry(h.free, j));
            && Represents(mem', head, nfb, MergedAt(h, a, j))
            && r == (if j == 0 then a
                     else if j == |h.free| || TouchesNext(h, a, j) then h.free[j - 1]
                     else if TouchesPrev(h, a, j) then a
                     else NULL)
  {
    LinkedFits(mem, head, nfb, h, a, j);
    var mem' := CoalescedMemory(mem, a, Entry(h.free, j - 1), Entry(h.free, j)).0;
    if TouchesNext(h, a, j) {
      if TouchesPrev(h, a, j) {
        CoalescedRepresentsBoth(mem, head, nfb, h, a, j, mem');
      } else {
        CoalescedRepresentsNext(mem, head, nfb, h, a, j, mem');
      }
    } else if TouchesPrev(h, a, j) {
      CoalescedRepresentsPrev(mem, head, nfb, h, a, j, mem');
    }
  }

  /** What the list walk reads at position `i`. */
  lemma EntryInMemory(mem: seq<Node>, head: int, nfb: int, h: Heap, i: nat)
    requires Inv(h) && Represents(mem, head, nfb, h) && i < |h.free|
    ensures var a := h.free[i];
            && 0 <= a < |mem| && mem[a].size == h.blocks[a] && mem[a].next == Entry(h.free, i + 1)
    ensures Entry(h.free, i + 1) == NULL <==> i == |h.free| - 1
  {
    assert h.free[i] in h.blocks;
    assert i + 1 < |h.free| ==> h.free[i + 1] in h.blocks;
    assert mem[h.free[i]].next == Entry(h.free, i + 1);
  }

  lemma ChosenIsSuitable(h: Heap, n: nat, strategy: Strategy, i: nat)
    requires OnTiles(h) && Chosen(h, n, strategy, i)
    ensures Suitable(h, n, i)
  {
  }

  /** What the list walk starts from. */
  lemma StartOfWalk(mem: seq<Node>, head: int, nfb: int, h: Heap)
    requires Inv(h) && Represents(mem, head, nfb, h)
    ensures OnTiles(h) && head == Entry(h.free, 0) && nfb == h.nextFree
    ensures forall k :: 0 <= k < |h.free| ==> h.free[k] != NULL
  {
  }

  /** A list walk stands at position `i`, its `prev` one behind; an empty list is not walked. */
  ghost predicate AtEntry(free: seq<int>, i: nat, current: int, prev: int) {
    if free == [] then i == 0 && current == NULL
    else i < |free| && current == free[i] && prev == Entry(free, i - 1)
  }

  /** The first minimum (`least`) or first maximum among the suitable ones of the first `k` entries, or -1. */
  ghost function ExtremeIndex(h: Heap, n: nat, least: bool, k: nat): (b: int)
    requires OnTiles(h) && k <= |h.free|
    ensures -1 <= b < k
  {
    if k == 0 then -1 else
      var b := ExtremeIndex(h, n, least, k - 1);
      var size := h.blocks[h.free[k - 1]];
      if size >= n && (b == -1 || if least then size < h.blocks[h.free[b]] else size > h.blocks[h.free[b]])
      then k - 1 else b
  }

  /** That entry is preferred over every other suitable one by best fit, or by worst fit. */
  lemma {:induction false} ExtremeIsPreferred(h: Heap, n: nat, least: bool, k: nat)
    requires OnTiles(h) && k <= |h.free|
    ensures var b := ExtremeIndex(h, n, least, k);
            if b == -1 then
              forall j: nat :: j < k ==> !Suitable(h, n, j)
            else
              Suitable(h, n, b) && forall j: nat :: j < k && j != b && Suitable(h, n, j) ==>
                Prefers(h, if least then Strategy.BestFit else Strategy.WorstFit, b, j)
  {
    if k > 0 {
      ExtremeIsPreferred(h, n, least, k - 1);
    }
  }

  lemma ExtremeIsChosen(h: Heap, n: nat, least: bool)
    requires OnTiles(h)
    ensures var b := ExtremeIndex(h, n, least, |h.free|);
            if b == -1 then !exists i: nat :: Suitable(h, n, i)
            else Chosen(h, n, if least then Strategy.BestFit else Strategy.WorstFit, b)
  {
    ExtremeIsPreferred(h, n, least, |h.free|);
  }

  /** Where the cyclic scan of next fit starts. */
  lemma StartOfScan(h: Heap)
    requires Inv(h)
    ensures h.nextFree == NULL ==> StartIndex(h) == 0
    ensures h.nextFree != NULL ==>
              && h.nextFree in h.free && StartIndex(h) == IndexOf(h.free, h.nextFree)
              && StartIndex(h) < |h.free| && h.free[StartIndex(h)] == h.nextFree
    ensures forall k :: 0 <= k < |h.free| && h.free[k] == h.nextFree ==> k == StartIndex(h)
  {
    assert forall k :: 0 <= k < |h.free| ==> h.free[k] in h.blocks;
  }

  /** The first suitable tile the cyclic scan meets is the one next fit must take. */
  lemma ScanStopsAt(h: Heap, n: nat, i: nat)
    requires Inv(h) && Suitable(h, n, i)
    requires var start := StartIndex(h);
             if start <= i then forall j :: start <= j < i ==> !Suitable(h, n, j)
             else
               && (forall j :: start <= j < |h.free| ==> !Suitable(h, n, j))
               && (forall j :: 0 <= j < i ==> !Suitable(h, n, j))
    ensures Chosen(h, n, Strategy.NextFit, i)
  {
  }

  class FreeList {
    var head: int
    var nextFreeBlock: int
    const mem: array<Node>
    ghost var heap: Heap

    ghost predicate Valid()
      reads this, mem
    {
      Inv(heap) && Represents(mem[..], head, nextFreeBlock, heap)
    }

    constructor (mem: array<Node>, head: int, nextFreeBlock: int, ghost heap: Heap)
      ensures this.mem == mem && this.head == head && this.nextFreeBlock == nextFreeBlock && this.heap == heap
    {
      this.mem, this.head, this.nextFreeBlock, this.heap := mem, head, nextFreeBlock, heap;
    }

    /** Takes `node` off the list, putting back what is left of it beyond the request, if anything. */
    method Split(node: int, prev: int, size: nat, ghost i: nat)
      requires Valid() && Suitable(heap, size, i)
      requires node == heap.free[i] && prev == Entry(heap.free, i - 1)
      modifies this`head, this`nextFreeBlock, mem
      ensures Represents(mem[..], head, nextFreeBlock, Take(heap, i, size).(valid := heap.valid))
    {
      hide Inv, Represents, Suitable, Take;
      ghost var m0 := mem[..];
      SplitFits(m0, head, nextFreeBlock, heap, i, size);
      ghost var after := SplitMemory(m0, head, node, prev, size);
      var newFreeNode := NULL;
      if mem[node].size > size + SIZEOF_NODE {
        newFreeNode := node + SIZEOF_NODE + size;
        mem[newFreeNode] := mem[newFreeNode].(size := mem[node].size - size - SIZEOF_NODE);
        mem[newFreeNode] := mem[newFreeNode].(next := mem[node].next);
        assert mem[..] ==
               m0[newFreeNode := m0[newFreeNode].(size := m0[node].size - size - SIZEOF_NODE, next := m0[node].next)];
        mem[node] := mem[node].(size := size);
        if prev != NULL {
          mem[prev] := mem[prev].(next := newFreeNode);
        } else {
          head := newFreeNode;
        }
      } else {
        if prev != NULL {
          mem[prev] := mem[prev].(next := mem[node].next);
        } else {
          head := mem[node].next;
        }
        newFreeNode := mem[node].next;
      }
      if newFreeNode == NULL {
        nextFreeBlock := head;
      } else {
        nextFreeBlock := newFreeNode;
      }
      assert (mem[..], head, nextFreeBlock) == after;
      SplitRepresents(m0, old(head), old(nextFreeBlock), heap, i, size, after);
    }

    /** The last lines of every strategy: splits the chosen tile, marks it and returns its payload. */
    method HandOut(node: int, prev: int, size: nat, ghost strategy: Strategy, ghost i: nat) returns (ptr: int)
      requires Valid() && Chosen(heap, size, strategy, i)
      requires node == heap.free[i] && prev == Entry(heap.free, i - 1)
      modifies this, mem
      ensures Valid() && Allocates(old(heap), size, strategy, heap, ptr)
    {
      hide Inv, Represents, Allocates, Chosen, Take;
      ghost var h := heap;
      StartOfWalk(mem[..], head, nextFreeBlock, h);
      ChosenIsSuitable(h, size, strategy, i);
      SplitFits(mem[..], head, nextFreeBlock, h, i, size);
      Split(node, prev, size, i);
      ghost var h' := MarkedIsAllocated(mem[..], head, nextFreeBlock, h, strategy, i, size);
      mem[node] := mem[node].(magicNumber := MAGIC_NUMBER);
      mem[node] := mem[node].(isFreed := 0);
      heap := h';
      return node + SIZEOF_NODE;
    }

    method BestFit(size: nat) returns (ptr: int)
      requires Valid()
      modifies this, mem
      ensures Valid() && Allocates(old(heap), size, Strategy.BestFit, heap, ptr)
    {
      hide Inv, Represents;
      ghost var h, m0, head0, nfb := heap, mem[..], head, nextFreeBlock;
      StartOfWalk(m0, head0, nfb, h);
      var current := head;
      var best := NULL;
      var prev := NULL;
      var bestPrev := NULL;
      ghost var i, b := 0, -1;
      while current != NULL
        invariant Valid()
        invariant heap == h && mem[..] == m0 && head == head0 && nextFreeBlock == nfb
        invariant AtEntry(h.free, i, current, prev)
        invariant i <= |h.free| && b == ExtremeIndex(h, size, true, i)
        invariant best == Entry(h.free, b) && bestPrev == Entry(h.free, b - 1)
        invariant best == NULL <==> b == -1
        decreases |h.free| - i
      {
        EntryInMemory(m0, head0, nfb, h, i);
        if b != -1 {
          EntryInMemory(m0, head0, nfb, h, b);
        }
        if mem[current].size >= size {
          if best == NULL || mem[current].size < mem[best].size {
            bestPrev := prev;
            best := current;
            b := i;
          }
        }
        assert b == ExtremeIndex(h, size, true, i + 1);
        if mem[current].next == NULL {
          break;
        }
        prev := current;
        current := mem[current].next;
        i := i + 1;
      }
      assert b == ExtremeIndex(h, size, true, |h.free|);
      ExtremeIsChosen(h, size, true);
      if best != NULL {
        ptr := HandOut(best, bestPrev, size, Strategy.BestFit, b);
        return;
      }
      return NULL;
    }

    method WorstFit(size: nat) returns (ptr: int)
      requires Valid()
      modifies this, mem
      ensures Valid() && Allocates(old(heap), size, Strategy.WorstFit, heap, ptr)
    {
      hide Inv, Represents;
      ghost var h, m0, head0, nfb := heap, mem[..], head, nextFreeBlock;
      StartOfWalk(m0, head0, nfb, h);
      var current := head;
      var worst := NULL;
      var prev := NULL;
      var worstPrev := NULL;
      ghost var i, b := 0, -1;
      while current != NULL
        invariant Valid()
        invariant heap == h && mem[..] == m0 && head == head0 && nextFreeBlock == nfb
        invariant AtEntry(h.free, i, current, prev)
        invariant i <= |h.free| && b == ExtremeIndex(h, size, false, i)
        invariant worst == Entry(h.free, b) && worstPrev == Entry(h.free, b - 1)
        invariant worst == NULL <==> b == -1
        decreases |h.free| - i
      {
        EntryInMemory(m0, head0, nfb, h, i);
        if b != -1 {
          EntryInMemory(m0, head0, nfb, h, b);
        }
        if mem[current].size >= size {
          if worst == NULL || mem[current].size > mem[worst].size {
            worstPrev := prev;
            worst := current;
            b := i;
          }
        }
        assert b == ExtremeIndex(h, size, false, i + 1);
        if mem[current].next == NULL {
          break;
        }
        prev := current;
        current := mem[current].next;
        i := i + 1;
      }
      assert b == ExtremeIndex(h, size, false, |h.free|);
      ExtremeIsChosen(h, size, false);
      if worst != NULL {
        ptr := HandOut(worst, worstPrev, size, Strategy.WorstFit, b);
        return;
      }
      return NULL;
    }

    method FirstFit(size: nat) returns (ptr: int)
      requires Valid()
      modifies this, mem
      ensures Valid() && Allocates(old(heap), size, Strategy.FirstFit, heap, ptr)
    {
      hide Inv, Represents;
      ghost var h, m0, head0, nfb := heap, mem[..], head, nextFreeBlock;
      StartOfWalk(m0, head0, nfb, h);
      var current := head;
      var prev := NULL;
      ghost var i := 0;
      while current != NULL
        invariant Valid()
        invariant heap == h && mem[..] == m0 && head == head0 && nextFreeBlock == nfb
        invariant AtEntry(h.free, i, current, prev)
        invariant forall j :: 0 <= j < i ==> !Suitable(h, size, j)
        decreases |h.free| - i
      {
        EntryInMemory(m0, head0, nfb, h, i);
        if mem[current].size >= size {
          assert Chosen(h, size, Strategy.FirstFit, i);
          ptr := HandOut(current, prev, size, Strategy.FirstFit, i);
          return;
        }
        if mem[current].next == NULL {
          break;
        }
        prev := current;
        current := mem[current].next;
        i := i + 1;
      }
      return NULL;
    }

    /** The predecessor of `node` on the list, or `NULL` if it has none or is not on the list. */
    method FindPrevNode(node: int, listHead: int) returns (prev: int)
      requires Valid() && listHead == head
      ensures prev == if node in heap.free then Entry(heap.free, IndexOf(heap.free, node) - 1) else NULL
    {
      hide Inv, Represents;
      StartOfWalk(mem[..], head, nextFreeBlock, heap);
      var current := listHead;
      prev := NULL;
      ghost var i := 0;
      while current != NULL
        invariant AtEntry(heap.free, i, current, prev)
        invariant forall j :: 0 <= j < i ==> heap.free[j] != node
        decreases |heap.free| - i
      {
        EntryInMemory(mem[..], head, nextFreeBlock, heap, i);
        if current == node {
          return prev;
        }
        if mem[current].next == NULL {
          break;
        }
        prev := current;
        current := mem[current].next;
        i := i + 1;
      }
      return NULL;
    }

    method NextFit(size: nat) returns (ptr: int)
      requires Valid()
      modifies this, mem
      ensures Valid() && Allocates(old(heap), size, Strategy.NextFit, heap, ptr)
    {
      hide Inv, Represents, StartIndex, Chosen, IndexOf;
      ghost var h, m0, head0, nfb := heap, mem[..], head, nextFreeBlock;
      StartOfWalk(m0, head0, nfb, h);
      StartOfScan(h);
      ghost var start := StartIndex(h);
      var current := nextFreeBlock;
      var prev := FindPrevNode(current, head);
      ghost var i := start;
      while current != NULL
        invariant Valid()
        invariant heap == h && mem[..] == m0 && head == head0 && nextFreeBlock == nfb
        invariant nfb == NULL ==> current == NULL
        invariant nfb != NULL ==> start <= i < |h.free| && current == h.free[i] && prev == Entry(h.free, i - 1)
        invariant forall j :: start <= j < i ==> !Suitable(h, size, j)
        decreases |h.free| - i
      {
        EntryInMemory(m0, head0, nfb, h, i);
        if mem[current].size >= size {
          ScanStopsAt(h, size, i);
          ptr := HandOut(current, prev, size, Strategy.NextFit, i);
          return;
        }
        if mem[current].next == NULL {
          break;
        }
        prev := current;
        current := mem[current].next;
        i := i + 1;
      }
      assert nfb != NULL ==> forall j :: start <= j < |h.free| ==> !Suitable(h, size, j);
      current := head;
      prev := NULL;
      i := 0;
      while current != nextFreeBlock
        invariant Valid()
        invariant heap == h && mem[..] == m0 && head == head0 && nextFreeBlock == nfb
        invariant AtEntry(h.free, i, current, prev)
        invariant nfb != NULL ==> i <= start
        invariant forall j :: 0 <= j < i ==> !Suitable(h, size, j)
        decreases |h.free| - i
      {
        EntryInMemory(m0, head0, nfb, h, i);
        if mem[current].size >= size {
          ScanStopsAt(h, size, i);
          ptr := HandOut(current, prev, size, Strategy.NextFit, i);
          return;
        }
        if mem[current].next == NULL {
          break;
        }
        prev := current;
        current := mem[current].next;
        i := i + 1;
      }
      return NULL;
    }

    /**
     Merges the freed block, already linked in between `prev` and `next`, with those it touches. The result
     is null exactly when it lies between two list entries and touches neither.
     */
    method CoalesceFreeList(freedBlock: int, prev: int, next: int, ghost j: nat) returns (merged: int)
      requires Inv(heap) && freedBlock in heap.live && j <= |heap.free|
      requires prev == Entry(heap.free, j - 1) && next == Entry(heap.free, j)
      requires Represents(mem[..], head, nextFreeBlock, Linked(heap, freedBlock, j))
      modifies mem
      ensures OnTiles(heap) && freedBlock in heap.blocks
      ensures Represents(mem[..], head, nextFreeBlock, MergedAt(heap, freedBlock, j))
      ensures merged == NULL <==>
                0 < j < |heap.free| && !TouchesNext(heap, freedBlock, j) && !TouchesPrev(heap, freedBlock, j)
      ensures 0 <= freedBlock < mem.Length
      ensures (prev == NULL || 0 <= prev < mem.Length) && (next == NULL || 0 <= next < mem.Length)
      ensures (mem[..], merged) == CoalescedMemory(old(mem[..]), freedBlock, prev, next)
    {
      hide Inv, Represents, Linked, MergedAt;
      LinkedFits(mem[..], head, nextFreeBlock, heap, freedBlock, j);
      CoalescedRepresents(mem[..], head, nextFreeBlock, heap, freedBlock, j);
      if prev == NULL {
        if freedBlock + mem[freedBlock].size + SIZEOF_NODE == next {
          mem[freedBlock] := mem[freedBlock].(size := mem[freedBlock].size + (mem[next].size + SIZEOF_NODE));
          mem[freedBlock] := mem[freedBlock].(next := mem[next].next);
        }
        return freedBlock;
      }
      if next == NULL {
        if prev + mem[prev].size + SIZEOF_NODE == freedBlock {
          mem[prev] := mem[prev].(size := mem[prev].size + (mem[freedBlock].size + SIZEOF_NODE));
          mem[prev] := mem[prev].(next := mem[freedBlock].next);
        }
        return prev;
      }
      if freedBlock + mem[freedBlock].size + SIZEOF_NODE == next && prev + mem[prev].size + SIZEOF_NODE == freedBlock {
        mem[prev] := mem[prev].(size := mem[prev].size + (mem[freedBlock].size + mem[next].size + 2 * SIZEOF_NODE));
        mem[prev] := mem[prev].(next := mem[next].next);
        return prev;
      } else if freedBlock + mem[freedBlock].size + SIZEOF_NODE == next {
        mem[freedBlock] := mem[freedBlock].(size := mem[freedBlock].size + (mem[next].size + SIZEOF_NODE));
        mem[freedBlock] := mem[freedBlock].(next := mem[next].next);
        return prev;
      } else if prev + mem[prev].size + SIZEOF_NODE == freedBlock {
        mem[prev] := mem[prev].(size := mem[prev].size + (mem[freedBlock].size + SIZEOF_NODE));
        mem[prev] := mem[prev].(next := mem[freedBlock].next);
        return freedBlock;
      }
      return NULL;
    }
  }
}
