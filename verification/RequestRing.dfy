/**
 The bounded request buffer of the web server: a ring of slots, of which a slot whose descriptor is -1
 is empty, and the sequence of requests it stands for.
 */
module RequestRings {

  const LONG_MAX := 0x7FFF_FFFF_FFFF_FFFF

  /**
   A request with the file facts the scheduling policies look at. Descriptors are reused once closed;
   the ticket numbers the accepted connection and is looked at by no policy.
   */
  datatype Request = Request(connfd: int, size: int, mtime: int, ticket: nat)

  datatype Policy = FIFO | SFF | RFF

  datatype Ring = Ring(slots: seq<Request>, head: nat, tail: nat, count: nat)

  /** `i % n` for an index at most one turn too far. */
  function Wrap(i: nat, n: nat): (r: nat)
    requires i < 2 * n
    ensures r < n
  {
    if i < n then i else i - n
  }

  lemma WrapIsMod(i: nat, n: nat)
    requires i < 2 * n
    ensures i % n == Wrap(i, n)
  {
    if i >= n {
      assert i == 1 * n + (i - n);
      assert i / n == 1;
    }
  }

  ghost predicate InRange(ring: Ring) {
    ring.head < |ring.slots| && ring.tail < |ring.slots| && ring.count <= |ring.slots|
  }

  /** The slot at distance `k` from the head. */
  ghost function SlotAt(ring: Ring, k: nat): nat
    requires InRange(ring) && k < |ring.slots|
  {
    Wrap(ring.head + k, |ring.slots|)
  }

  /** The occupied slots are exactly the cyclic range from the head, and hold `q` in order. */
  ghost predicate Holds(ring: Ring, q: seq<Request>) {
    && InRange(ring)
    && ring.count == |q|
    && ring.tail == Wrap(ring.head + |q|, |ring.slots|)
    && (forall k: nat :: k < |q| ==> ring.slots[SlotAt(ring, k)] == q[k])
    && (forall k: nat :: |q| <= k < |ring.slots| ==> ring.slots[SlotAt(ring, k)].connfd == -1)
    && (forall k :: 0 <= k < |q| ==> q[k].connfd != -1)
  }

  function Emptied(r: Request): Request {
    r.(connfd := -1)
  }

  // -- Put ---------------------------------------------------------------------------------------

  ghost function PutRing(ring: Ring, r: Request): Ring
    requires InRange(ring)
  {
    Ring(ring.slots[ring.tail := r], ring.head, Wrap(ring.tail + 1, |ring.slots|), ring.count + 1)
  }

  /** A put into a ring that is not full fills an empty slot and appends. */
  lemma PutAppends(ring: Ring, q: seq<Request>, r: Request)
    requires Holds(ring, q) && |q| < |ring.slots| && r.connfd != -1
    ensures ring.slots[ring.tail].connfd == -1
    ensures Holds(PutRing(ring, r), q + [r])
  {
    var n, ring' := |ring.slots|, PutRing(ring, r);
    assert SlotAt(ring, |q|) == ring.tail;
    forall k: nat | k < n
      ensures SlotAt(ring', k) == SlotAt(ring, k)
      ensures k != |q| ==> SlotAt(ring, k) != ring.tail
    {
    }
  }

  // -- Removal -----------------------------------------------------------------------------------

  /** How many steps lead cyclically from slot `i` to slot `last`. */
  ghost function Distance(i: nat, last: nat, n: nat): nat
    requires i < n && last < n
  {
    if i <= last then last - i else last + n - i
  }

  /** Each slot from `i` to just before `last`, going round, takes over the slot after it. */
  ghost function ShiftSlots(slots: seq<Request>, i: nat, last: nat): (r: seq<Request>)
    requires i < |slots| && last < |slots|
    ensures |r| == |slots|
    decreases Distance(i, last, |slots|)
  {
    if i == last then slots
    else
      var next := Wrap(i + 1, |slots|);
      ShiftSlots(slots[i := slots[next]], next, last)
  }

  ghost function RemoveRing(ring: Ring, target: nat): Ring
    requires InRange(ring) && target < |ring.slots| && ring.count > 0
  {
    var n := |ring.slots|;
    var slots := ring.slots[target := Emptied(ring.slots[target])];
    if target == ring.head then
      Ring(slots, Wrap(ring.head + 1, n), ring.tail, ring.count - 1)
    else
      ShiftRing(ring.(slots := slots), target).(count := ring.count - 1)
  }

  /** What `shift_queue_left` does: it leaves the count alone. */
  ghost function ShiftRing(ring: Ring, start: nat): Ring
    requires InRange(ring) && start < |ring.slots|
  {
    var n := |ring.slots|;
    var last := Wrap(ring.tail - 1 + n, n);
    var shifted := ShiftSlots(ring.slots, start, last);
    Ring(shifted[last := Emptied(shifted[last])],
         if last == ring.head then Wrap(ring.head + 1, n) else ring.head,
         last,
         ring.count)
  }

  /** Shifting moves every request behind position `k` one place towards the head and nothing else. */
  lemma {:induction false} ShiftMovesUp(ring: Ring, slots: seq<Request>, k: nat, m: nat, p: nat)
    requires InRange(ring) && |slots| == |ring.slots| && k <= m < |slots| && p < |slots|
    ensures var r := ShiftSlots(slots, SlotAt(ring, k), SlotAt(ring, m));
            r[SlotAt(ring, p)] == if k <= p < m then slots[SlotAt(ring, p + 1)] else slots[SlotAt(ring, p)]
    decreases m - k
  {
    if k < m {
      var i := SlotAt(ring, k);
      assert SlotAt(ring, k + 1) == Wrap(i + 1, |slots|);
      ShiftMovesUp(ring, slots[i := slots[SlotAt(ring, k + 1)]], k + 1, m, p);
    }
  }

  lemma RemoveHeadHolds(ring: Ring, q: seq<Request>)
    requires Holds(ring, q) && q != []
    ensures Holds(RemoveRing(ring, ring.head), q[1..])
  {
    var n, ring' := |ring.slots|, RemoveRing(ring, ring.head);
    assert SlotAt(ring, 0) == ring.head;
    forall k: nat | k < n
      ensures SlotAt(ring', k) == if k + 1 < n then SlotAt(ring, k + 1) else ring.head
    {
    }
  }

  /** What a removal behind the head leaves at distance `p` from the head. */
  lemma RemovedSlot(ring: Ring, q: seq<Request>, k: nat, p: nat)
    requires Holds(ring, q) && 0 < k < |q| && p < |ring.slots|
    ensures var (t, m) := (SlotAt(ring, k), |q| - 1);
            && Wrap(ring.tail - 1 + |ring.slots|, |ring.slots|) == SlotAt(ring, m)
            && t != ring.head && SlotAt(ring, m) != ring.head
            && var r := ShiftSlots(ring.slots[t := Emptied(ring.slots[t])], t, SlotAt(ring, m));
               && (p < m ==> r[SlotAt(ring, p)] == if p < k then q[p] else q[p + 1])
               && (p > m ==> r[SlotAt(ring, p)].connfd == -1)
               && (p != m ==> SlotAt(ring, p) != SlotAt(ring, m))
  {
    hide ShiftSlots;
    var t := SlotAt(ring, k);
    ShiftMovesUp(ring, ring.slots[t := Emptied(ring.slots[t])], k, |q| - 1, p);
    assert p + 1 < |ring.slots| ==> SlotAt(ring, p + 1) != t || p + 1 == k;
  }

  lemma RemoveLaterHolds(ring: Ring, q: seq<Request>, k: nat)
    requires Holds(ring, q) && 0 < k < |q|
    ensures Holds(RemoveRing(ring, SlotAt(ring, k)), q[..k] + q[k + 1..])
  {
    hide ShiftSlots;
    var ring' := RemoveRing(ring, SlotAt(ring, k));
    var q' := q[..k] + q[k + 1..];
    RemovedSlot(ring, q, k, 0);
    assert ring'.head == ring.head && ring'.count == |q'|;
    forall p: nat | p < |ring.slots|
      ensures p < |q'| ==> ring'.slots[SlotAt(ring', p)] == q'[p]
      ensures p >= |q'| ==> ring'.slots[SlotAt(ring', p)].connfd == -1
    {
      RemovedSlot(ring, q, k, p);
    }
  }

  /** Removing the request at any position keeps the others in order, wherever the ring wraps around. */
  lemma RemoveRemoves(ring: Ring, q: seq<Request>, k: nat)
    requires Holds(ring, q) && k < |q|
    ensures Holds(RemoveRing(ring, SlotAt(ring, k)), q[..k] + q[k + 1..])
  {
    if k == 0 {
      RemoveHeadHolds(ring, q);
      assert SlotAt(ring, k) == ring.head && q[..k] + q[k + 1..] == q[1..];
    } else {
      RemoveLaterHolds(ring, q, k);
    }
  }

  /**
   What the shift alone does to a ring, from any position on: it removes the request there, except that it loses
   track of the slots when that is the only request of a larger ring. The source does not call it then.
   */
  lemma ShiftRemovesIff(ring: Ring, q: seq<Request>, k: nat)
    requires Holds(ring, q) && k < |q|
    ensures Holds(ShiftRing(ring, SlotAt(ring, k)).(count := ring.count - 1), q[..k] + q[k + 1..]) <==>
              |q| > 1 || |ring.slots| == 1
  {
    hide ShiftSlots;
    var ring' := ShiftRing(ring, SlotAt(ring, k)).(count := ring.count - 1);
    var (q', m) := (q[..k] + q[k + 1..], |q| - 1);
    assert Wrap(ring.tail - 1 + |ring.slots|, |ring.slots|) == SlotAt(ring, m);
    if |q| > 1 {
      forall p: nat | p < |ring.slots|
        ensures p < m ==> ring'.slots[SlotAt(ring', p)] == q'[p]
        ensures p >= m ==> ring'.slots[SlotAt(ring', p)].connfd == -1
      {
        ShiftMovesUp(ring, ring.slots, k, m, p);
        assert p != m ==> SlotAt(ring, p) != SlotAt(ring, m);
      }
    } else {
      ShiftDone(ring.slots, SlotAt(ring, 0));
    }
  }

  // -- Selection ---------------------------------------------------------------------------------

  /** The policy can pick this request: its file facts are not the sentinel the scan starts from. */
  ghost predicate Eligible(policy: Policy, r: Request) {
    match policy
    case FIFO => true
    case SFF => r.size < LONG_MAX
    case RFF => r.mtime > -1
  }

  /** Under the policy, `r` in slot `i` goes before `s` in slot `j`: ties go to the lower slot. */
  ghost predicate GoesBefore(policy: Policy, r: Request, i: nat, s: Request, j: nat)
    requires policy != FIFO
  {
    var (x, y) := if policy == SFF then (r.size, s.size) else (-r.mtime, -s.mtime);
    x < y || (x == y && i < j)
  }

  /** The policy picks the request at position `k`. */
  ghost predicate Picks(ring: Ring, q: seq<Request>, policy: Policy, k: nat)
    requires Holds(ring, q)
  {
    && k < |q| && Eligible(policy, q[k])
    && if policy == FIFO then k == 0
       else forall j: nat :: j < |q| && j != k && Eligible(policy, q[j]) ==>
              GoesBefore(policy, q[k], SlotAt(ring, k), q[j], SlotAt(ring, j))
  }

  lemma AtMostOnePicked(ring: Ring, q: seq<Request>, policy: Policy, j: nat, k: nat)
    requires Holds(ring, q) && Picks(ring, q, policy, j) && Picks(ring, q, policy, k)
    ensures j == k
  {
    if j != k {
      assert false;
    }
  }

  /** An occupied slot is the slot of exactly one position. */
  lemma PositionOf(ring: Ring, q: seq<Request>, i: nat) returns (k: nat)
    requires Holds(ring, q) && i < |ring.slots|
    ensures k < |ring.slots| && SlotAt(ring, k) == i
    ensures ring.slots[i].connfd != -1 <==> k < |q|
    ensures k < |q| ==> q[k] == ring.slots[i]
  {
    k := if ring.head <= i then i - ring.head else i + |ring.slots| - ring.head;
  }

  /** Slot `target` is the one a scan of the first `n` slots settles on; -1 if it meets none to pick. */
  ghost predicate ScanPicks(slots: seq<Request>, policy: Policy, n: nat, target: int)
    requires n <= |slots| && policy != FIFO
  {
    if target == -1 then
      forall j: nat :: j < n && slots[j].connfd != -1 ==> !Eligible(policy, slots[j])
    else
      && 0 <= target < n && slots[target].connfd != -1 && Eligible(policy, slots[target])
      && forall j: nat :: j < n && j != target && slots[j].connfd != -1 && Eligible(policy, slots[j]) ==>
           GoesBefore(policy, slots[target], target, slots[j], j)
  }

  /** A scan of all slots settles on the request the policy picks. */
  lemma ScanFindsPick(ring: Ring, q: seq<Request>, policy: Policy, target: int) returns (k: nat)
    requires Holds(ring, q) && policy != FIFO && ScanPicks(ring.slots, policy, |ring.slots|, target)
    requires exists j: nat :: j < |q| && Eligible(policy, q[j])
    ensures 0 <= target && k < |q| && SlotAt(ring, k) == target && Picks(ring, q, policy, k)
  {
    var j: nat :| j < |q| && Eligible(policy, q[j]);
    assert ring.slots[SlotAt(ring, j)] == q[j];
    assert target != -1;
    k := PositionOf(ring, q, target);
    forall j: nat | j < |q| && j != k && Eligible(policy, q[j])
      ensures GoesBefore(policy, q[k], SlotAt(ring, k), q[j], SlotAt(ring, j))
    {
      assert ring.slots[SlotAt(ring, j)] == q[j] && SlotAt(ring, j) != target;
    }
  }

  // -- The same in sizes, times and slots ------------------------------------------------------------

  /** Smallest file first takes a request of least size, and of those the one in the lowest slot. */
  lemma PickIsSmallest(ring: Ring, q: seq<Request>, k: nat)
    requires Holds(ring, q) && Picks(ring, q, SFF, k)
    ensures k < |q| && q[k].size < 0x7FFF_FFFF_FFFF_FFFF
    ensures forall j: nat :: j < |q| ==>
              q[k].size <= q[j].size && (SlotAt(ring, j) < SlotAt(ring, k) ==> q[k].size < q[j].size)
  {
    forall j: nat | j < |q| && j != k && q[j].size < LONG_MAX
      ensures GoesBefore(SFF, q[k], SlotAt(ring, k), q[j], SlotAt(ring, j))
    {
      assert Eligible(SFF, q[j]);
    }
  }

  /** Recent file first takes a request of latest time, and of those the one in the lowest slot. */
  lemma PickIsLatest(ring: Ring, q: seq<Request>, k: nat)
    requires Holds(ring, q) && Picks(ring, q, RFF, k)
    ensures k < |q| && q[k].mtime > -1
    ensures forall j: nat :: j < |q| ==>
              q[k].mtime >= q[j].mtime && (SlotAt(ring, j) < SlotAt(ring, k) ==> q[k].mtime > q[j].mtime)
  {
    forall j: nat | j < |q| && j != k && q[j].mtime > -1
      ensures GoesBefore(RFF, q[k], SlotAt(ring, k), q[j], SlotAt(ring, j))
    {
      assert Eligible(RFF, q[j]);
    }
  }

  /** The occupied slot `target` holds the least size, and no lower slot holds as little. */
  ghost predicate SmallestIn(slots: seq<Request>, target: int) {
    && 0 <= target < |slots| && slots[target].connfd != -1 && slots[target].size < 0x7FFF_FFFF_FFFF_FFFF
    && forall j :: 0 <= j < |slots| && slots[j].connfd != -1 ==>
         slots[target].size <= slots[j].size && (j < target ==> slots[target].size < slots[j].size)
  }

  /** The occupied slot `target` holds the latest time, and no lower slot holds as late a one. */
  ghost predicate LatestIn(slots: seq<Request>, target: int) {
    && 0 <= target < |slots| && slots[target].connfd != -1 && slots[target].mtime > -1
    && forall j :: 0 <= j < |slots| && slots[j].connfd != -1 ==>
         slots[target].mtime >= slots[j].mtime && (j < target ==> slots[target].mtime > slots[j].mtime)
  }

  lemma ScanFindsExtreme(slots: seq<Request>, policy: Policy, target: int)
    requires policy != FIFO && ScanPicks(slots, policy, |slots|, target)
    ensures policy == SFF ==>
              if target != -1 then SmallestIn(slots, target)
              else forall j :: 0 <= j < |slots| && slots[j].connfd != -1 ==> slots[j].size >= 0x7FFF_FFFF_FFFF_FFFF
    ensures policy == RFF ==>
              if target != -1 then LatestIn(slots, target)
              else forall j :: 0 <= j < |slots| && slots[j].connfd != -1 ==> slots[j].mtime <= -1
  {
    forall j: nat | j < |slots| && slots[j].connfd != -1 && !Eligible(policy, slots[j])
      ensures policy == SFF ==> slots[j].size >= LONG_MAX
      ensures policy == RFF ==> slots[j].mtime <= -1
    {
    }
    if target != -1 {
      forall j: nat | j < |slots| && j != target && slots[j].connfd != -1 && Eligible(policy, slots[j])
        ensures GoesBefore(policy, slots[target], target, slots[j], j)
      {
      }
    }
  }

  lemma PickIsThere(ring: Ring, q: seq<Request>, policy: Policy, k: nat)
    requires Holds(ring, q) && Picks(ring, q, policy, k)
    ensures InRange(ring) && k < |q| == ring.count && ring.slots[SlotAt(ring, k)] == q[k]
  {
  }

  lemma HeadIsPick(ring: Ring, q: seq<Request>)
    requires Holds(ring, q) && q != []
    ensures SlotAt(ring, 0) == ring.head && Picks(ring, q, FIFO, 0)
  {
  }

  lemma ShiftOneStep(slots: seq<Request>, i: nat, last: nat)
    requires i < |slots| && last < |slots| && i != last
    ensures var next := Wrap(i + 1, |slots|);
            ShiftSlots(slots, i, last) == ShiftSlots(slots[i := slots[next]], next, last)
  {
  }

  lemma ShiftDone(slots: seq<Request>, last: nat)
    requires last < |slots|
    ensures ShiftSlots(slots, last, last) == slots
  {
  }

  // -- The ring in memory --------------------------------------------------------------------------

  class RequestBuffer {
    const nbuffer: nat
    const queue: array<Request>
    var head: nat
    var tail: nat
    var count: nat
    ghost var contents: seq<Request>

    ghost function AsRing(): Ring
      reads this, queue
    {
      Ring(queue[..], head, tail, count)
    }

    ghost predicate Valid()
      reads this, queue
    {
      queue.Length == nbuffer && Holds(AsRing(), contents)
    }

    constructor (n: nat)
      requires 0 < n
      ensures Valid() && nbuffer == n && contents == [] && fresh(queue)
    {
      nbuffer, head, tail, count, contents := n, 0, 0, 0, [];
      queue := new Request[n](_ => Request(-1, 0, 0, 0));
    }

    /** Appends a request. The slot it fills was empty. */
    method QueuePut(r: Request)
      requires Valid() && |contents| < nbuffer && r.connfd != -1
      modifies this, queue
      ensures Valid() && contents == old(contents) + [r]
      ensures old(queue[tail].connfd) == -1 && AsRing() == PutRing(old(AsRing()), r)
    {
      PutAppends(AsRing(), contents, r);
      WrapIsMod(tail + 1, nbuffer);
      queue[tail] := r;
      tail := (tail + 1) % nbuffer;
      count := count + 1;
      contents := contents + [r];
    }

    /** Moves the slots behind `startIndex` one place towards it and pulls the tail back. */
    method ShiftQueueLeft(startIndex: nat)
      requires queue.Length == nbuffer && InRange(AsRing()) && startIndex < nbuffer
      modifies this`head, this`tail, queue
      ensures AsRing() == ShiftRing(old(AsRing()), startIndex)
    {
      hide ShiftSlots, Emptied;
      var i := startIndex;
      WrapIsMod(tail - 1 + nbuffer, nbuffer);
      ghost var last := Wrap(tail - 1 + nbuffer, nbuffer);
      while i != (tail - 1 + nbuffer) % nbuffer
        invariant 0 <= i < nbuffer && head == old(head) && tail == old(tail)
        invariant ShiftSlots(queue[..], i, last) == ShiftSlots(old(queue[..]), startIndex, last)
        decreases Distance(i, last, nbuffer)
      {
        WrapIsMod(i + 1, nbuffer);
        ShiftOneStep(queue[..], i, last);
        var nextIndex := (i + 1) % nbuffer;
        queue[i] := queue[nextIndex];
        i := (i + 1) % nbuffer;
      }
      ShiftDone(queue[..], last);
      queue[(tail - 1 + nbuffer) % nbuffer] := Emptied(queue[(tail - 1 + nbuffer) % nbuffer]);
      WrapIsMod(head + 1, nbuffer);
      if (tail - 1 + nbuffer) % nbuffer == head {
        head := (head + 1) % nbuffer;
      }
      tail := (tail - 1 + nbuffer) % nbuffer;
    }

    /** The slot the policy picks, or -1 when no request is eligible. */
    method SelectTarget(policy: Policy) returns (target: int)
      requires Valid() && contents != []
      ensures policy == FIFO ==> target == head
      ensures policy != FIFO ==> ScanPicks(queue[..], policy, nbuffer, target)
      ensures policy == SFF ==>
                if target != -1 then SmallestIn(queue[..], target)
                else forall j :: 0 <= j < nbuffer && queue[j].connfd != -1 ==> queue[j].size >= 0x7FFF_FFFF_FFFF_FFFF
      ensures policy == RFF ==>
                if target != -1 then LatestIn(queue[..], target)
                else forall j :: 0 <= j < nbuffer && queue[j].connfd != -1 ==> queue[j].mtime <= -1
    {
      target := -1;
      match policy
      case FIFO =>
        target := head;
      case RFF =>
        var latest := -1;
        for i := 0 to nbuffer
          invariant ScanPicks(queue[..], policy, i, target)
          invariant latest == if target == -1 then -1 else queue[target].mtime
        {
          if queue[i].connfd != -1 && queue[i].mtime > latest {
            latest := queue[i].mtime;
            target := i;
          }
        }
      case SFF =>
        var smallest := LONG_MAX;
        for i := 0 to nbuffer
          invariant ScanPicks(queue[..], policy, i, target)
          invariant smallest == if target == -1 then LONG_MAX else queue[target].size
        {
          if queue[i].connfd != -1 && queue[i].size < smallest {
            smallest := queue[i].size;
            target := i;
          }
        }
      if policy != FIFO {
        ScanFindsExtreme(queue[..], policy, target);
      }
    }

    /**
     Takes out the request the policy picks; the others keep their order. Some request must be eligible,
     or the source would index the queue with -1.
     */
    method TakeRequest(policy: Policy) returns (r: Request, ghost k: nat)
      requires Valid()
      requires exists j: nat :: j < |contents| && Eligible(policy, contents[j])
      modifies this, queue
      ensures Valid() && old(Picks(AsRing(), contents, policy, k)) && r == old(contents)[k]
      ensures policy == FIFO ==> k == 0
      ensures policy == SFF ==> forall j: nat :: j < |old(contents)| ==> r.size <= old(contents)[j].size
      ensures policy == RFF ==> forall j: nat :: j < |old(contents)| ==> r.mtime >= old(contents)[j].mtime
      ensures contents == old(contents)[..k] + old(contents)[k + 1..]
      ensures AsRing() == RemoveRing(old(AsRing()), old(SlotAt(AsRing(), k)))
    {
      hide Holds, ShiftSlots, Picks, ScanPicks, GoesBefore;
      var target := SelectTarget(policy);
      ghost var ring := AsRing();
      if policy == FIFO {
        k := 0;
        HeadIsPick(ring, contents);
      } else {
        k := ScanFindsPick(ring, contents, policy, target);
        if policy == SFF {
          PickIsSmallest(ring, contents, k);
        } else {
          PickIsLatest(ring, contents, k);
        }
      }
      RemoveRemoves(ring, contents, k);
      PickIsThere(ring, contents, policy, k);
      r := queue[target];
      queue[target] := Emptied(queue[target]);
      if target == head {
        WrapIsMod(head + 1, nbuffer);
        head := (head + 1) % nbuffer;
      } else {
        ShiftQueueLeft(target);
      }
      count := count - 1;
      contents := contents[..k] + contents[k + 1..];
    }
  }
}
