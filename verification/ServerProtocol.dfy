/**
 The web server as a step-by-step concurrent state machine: one producer and any number of workers,
 each with its own program counter, around the request ring and three semaphores.
 */
module ServerProtocol {
  import opened RequestRings
  import opened RioReaders
  import opened RequestHeaders

  /** Where the accepting thread stands. `sent` is all that the client ever sends on the connection. */
  datatype Producer =
    | Accepting                                    // in Accept
    | WaitingEmpty(r: Request, sent: seq<Byte>)    // before sem_wait(&empty)
    | WaitingLock(r: Request, sent: seq<Byte>)     // before sem_wait(&mutex), a slot reserved
    | Reading(r: Request, sent: seq<Byte>)         // in the critical section, reading the request and its headers
    | Putting(r: Request)                          // in the critical section, the request not yet in the ring
    | Unlocking                                    // before sem_post(&mutex)
    | PostingFill                                  // before sem_post(&fill)

  /** Where a worker thread stands. */
  datatype Worker =
    | WaitingFill               // before sem_wait(&fill)
    | WaitingMutex              // before sem_wait(&mutex)
    | Taking                    // in the critical section, nothing removed yet
    | Releasing(r: Request)     // before sem_post(&mutex)
    | PostingEmpty(r: Request)  // before sem_post(&empty)
    | Handling(r: Request)      // serving the request; closing it comes last

  /**
   `contents`, `closed` and the two logs only record what happened. `endless` holds the tickets of the
   connections on which serving the request never ends, say because the client does not read the response.
   */
  datatype State = State(
    empty: nat, fill: nat, mutex: nat,
    ring: Ring, contents: seq<Request>,
    producer: Producer, workers: seq<Worker>,
    accepted: nat, closed: seq<nat>,
    puts: seq<Request>, takes: seq<Request>,
    endless: set<nat>)

  ghost predicate Start(n: nat, s: State) {
    && n > 0 && |s.ring.slots| == n
    && (forall i :: 0 <= i < n ==> s.ring.slots[i].connfd == -1)
    && s.ring.head == 0 && s.ring.tail == 0 && s.ring.count == 0 && s.contents == []
    && s.empty == n && s.fill == 0 && s.mutex == 1
    && s.producer == Accepting && (forall i :: 0 <= i < |s.workers| ==> s.workers[i] == WaitingFill)
    && s.accepted == 0 && s.closed == [] && s.puts == [] && s.takes == []
  }

  /** A connection comes in, with the next ticket and some descriptor in use by no one else or reused. */
  ghost predicate AcceptStep(policy: Policy, s: State, s': State) {
    && s.producer == Accepting
    && exists r: Request, sent: seq<Byte> ::
         && r.ticket == s.accepted && r.connfd != -1 && Eligible(policy, r)
         && s' == s.(producer := WaitingEmpty(r, sent), accepted := s.accepted + 1)
  }

  /**
   One step of the producer inside `queue_put`. Reading the headers comes to an end only if what the client
   sends lets it. Nothing is assumed of a put into a broken ring.
   */
  ghost predicate PutStep(s: State, s': State) {
    match s.producer
    case Accepting => false
    case WaitingEmpty(r, sent) => s.empty > 0 && s' == s.(empty := s.empty - 1, producer := WaitingLock(r, sent))
    case WaitingLock(r, sent) => s.mutex > 0 && s' == s.(mutex := s.mutex - 1, producer := Reading(r, sent))
    case Reading(r, sent) => HeadersEnd(sent) && s' == s.(producer := Putting(r))
    case Putting(r) =>
      InRange(s.ring) ==>
        s' == s.(ring := PutRing(s.ring, r), contents := s.contents + [r], puts := s.puts + [r], producer := Unlocking)
    case Unlocking => s' == s.(mutex := s.mutex + 1, producer := PostingFill)
    case PostingFill => s' == s.(fill := s.fill + 1, producer := Accepting)
  }

  /** The removal in `thread_handle`. Nothing is assumed of a take from a broken or an empty ring. */
  ghost predicate TakeStep(policy: Policy, s: State, i: nat, s': State)
    requires i < |s.workers|
  {
    Holds(s.ring, s.contents) && s.contents != [] ==>
      exists k: nat :: Picks(s.ring, s.contents, policy, k) && s' == Taken(s, i, k)
  }

  ghost function Taken(s: State, i: nat, k: nat): State
    requires i < |s.workers| && k < |s.contents| && Holds(s.ring, s.contents)
  {
    s.(ring := RemoveRing(s.ring, SlotAt(s.ring, k)),
       contents := s.contents[..k] + s.contents[k + 1..],
       takes := s.takes + [s.contents[k]],
       workers := s.workers[i := Releasing(s.contents[k])])
  }

  ghost predicate WorkerStep(policy: Policy, s: State, i: nat, s': State)
    requires i < |s.workers|
  {
    match s.workers[i]
    case WaitingFill => s.fill > 0 && s' == s.(fill := s.fill - 1, workers := s.workers[i := WaitingMutex])
    case WaitingMutex => s.mutex > 0 && s' == s.(mutex := s.mutex - 1, workers := s.workers[i := Taking])
    case Taking => TakeStep(policy, s, i, s')
    case Releasing(r) => s' == s.(mutex := s.mutex + 1, workers := s.workers[i := PostingEmpty(r)])
    case PostingEmpty(r) => s' == s.(empty := s.empty + 1, workers := s.workers[i := Handling(r)])
    case Handling(r) =>
      r.ticket !in s.endless && s' == s.(closed := s.closed + [r.ticket], workers := s.workers[i := WaitingFill])
  }

  /** A step of the server's own threads, as against a new connection. */
  ghost predicate ThreadStep(policy: Policy, s: State, s': State) {
    PutStep(s, s') || exists i: nat :: i < |s.workers| && WorkerStep(policy, s, i, s')
  }

  ghost predicate Next(policy: Policy, s: State, s': State) {
    AcceptStep(policy, s, s') || ThreadStep(policy, s, s')
  }

  ghost predicate Run(policy: Policy, n: nat, ss: seq<State>) {
    && ss != [] && Start(n, ss[0])
    && forall i :: 0 <= i < |ss| - 1 ==> Next(policy, ss[i], ss[i + 1])
  }

  // -- Counting over the workers -------------------------------------------------------------------

  ghost function Sum(ws: seq<Worker>, f: Worker -> nat): nat {
    if ws == [] then 0 else f(ws[0]) + Sum(ws[1..], f)
  }

  lemma {:induction false} SumUpdate(ws: seq<Worker>, i: nat, w: Worker, f: Worker -> nat)
    requires i < |ws|
    ensures Sum(ws[i := w], f) + f(ws[i]) == Sum(ws, f) + f(w)
  {
    if i == 0 {
      assert ws[i := w][1..] == ws[1..];
    } else {
      assert ws[i := w][1..] == ws[1..][i - 1 := w];
      SumUpdate(ws[1..], i - 1, w, f);
    }
  }

  lemma {:induction false} SumAtLeast(ws: seq<Worker>, i: nat, f: Worker -> nat)
    requires i < |ws|
    ensures f(ws[i]) <= Sum(ws, f)
  {
    if i > 0 {
      SumAtLeast(ws[1..], i - 1, f);
    }
  }

  lemma {:induction false} SumOfSame(ws: seq<Worker>, f: Worker -> nat)
    requires forall i :: 0 <= i < |ws| ==> f(ws[i]) == 0
    ensures Sum(ws, f) == 0
  {
    if ws != [] {
      SumOfSame(ws[1..], f);
    }
  }

  /** The worker with `f` positive that a positive sum must have. */
  lemma {:induction false} SumWitness(ws: seq<Worker>, f: Worker -> nat) returns (i: nat)
    requires Sum(ws, f) > 0
    ensures i < |ws| && f(ws[i]) > 0
  {
    if f(ws[0]) > 0 {
      i := 0;
    } else {
      i := SumWitness(ws[1..], f);
      i := i + 1;
    }
  }

  function LockedBy(w: Worker): nat { if w.Taking? || w.Releasing? then 1 else 0 }
  function Claimed(w: Worker): nat { if w.WaitingMutex? || w.Taking? then 1 else 0 }
  function Unreturned(w: Worker): nat { if w.Releasing? || w.PostingEmpty? then 1 else 0 }

  function LockedByProducer(p: Producer): nat { if p.Reading? || p.Putting? || p.Unlocking? then 1 else 0 }
  function Reserved(p: Producer): nat { if p.WaitingLock? || p.Reading? || p.Putting? then 1 else 0 }
  function Unposted(p: Producer): nat { if p.Unlocking? || p.PostingFill? then 1 else 0 }

  function HeldBy(w: Worker): multiset<nat> {
    if w.Releasing? || w.PostingEmpty? || w.Handling? then multiset{w.r.ticket} else multiset{}
  }

  ghost function Held(ws: seq<Worker>): multiset<nat> {
    if ws == [] then multiset{} else HeldBy(ws[0]) + Held(ws[1..])
  }

  lemma Regroup(a: multiset<nat>, x: multiset<nat>, b: multiset<nat>, y: multiset<nat>, c: multiset<nat>)
    requires x + b == y + c
    ensures (a + x) + b == (a + y) + c
  {
    assert (a + x) + b == a + (x + b);
  }

  lemma {:induction false} HeldUpdate(ws: seq<Worker>, i: nat, w: Worker)
    requires i < |ws|
    ensures Held(ws[i := w]) + HeldBy(ws[i]) == Held(ws) + HeldBy(w)
  {
    hide HeldBy;
    var (rest, after) := (ws[1..], ws[i := w][1..]);
    if i == 0 {
      assert after == rest;
    } else {
      assert after == rest[i - 1 := w];
      HeldUpdate(rest, i - 1, w);
      Regroup(HeldBy(ws[0]), Held(after), HeldBy(ws[i]), Held(rest), HeldBy(w));
    }
  }

  function HeldByProducer(p: Producer): multiset<nat> {
    if p.WaitingEmpty? || Reserved(p) == 1 then multiset{p.r.ticket} else multiset{}
  }

  ghost function Tickets(q: seq<Request>): multiset<nat> {
    if q == [] then multiset{} else multiset{q[0].ticket} + Tickets(q[1..])
  }

  lemma {:induction false} TicketsOfConcat(p: seq<Request>, q: seq<Request>)
    ensures Tickets(p + q) == Tickets(p) + Tickets(q)
  {
    if p == [] {
      assert p + q == q;
    } else {
      assert (p + q)[1..] == p[1..] + q;
      TicketsOfConcat(p[1..], q);
    }
  }

  lemma TicketsOfAppend(q: seq<Request>, r: Request)
    ensures Tickets(q + [r]) == Tickets(q) + multiset{r.ticket}
  {
    TicketsOfConcat(q, [r]);
    assert Tickets([r]) == multiset{r.ticket};
  }

  lemma TicketsWithout(q: seq<Request>, k: nat)
    requires k < |q|
    ensures Tickets(q[..k] + q[k + 1..]) + multiset{q[k].ticket} == Tickets(q)
  {
    hide Tickets;
    assert q == (q[..k] + [q[k]]) + q[k + 1..];
    TicketsOfConcat(q[..k] + [q[k]], q[k + 1..]);
    TicketsOfAppend(q[..k], q[k]);
    TicketsOfConcat(q[..k], q[k + 1..]);
    Regroup(multiset{}, Tickets(q[..k]) + Tickets(q[k + 1..]), multiset{q[k].ticket},
            Tickets(q[..k]) + multiset{q[k].ticket}, Tickets(q[k + 1..]));
  }

  // -- What every reachable state satisfies --------------------------------------------------------

  /** The lock is free, or exactly one thread is in its critical section. */
  ghost predicate LockAccounts(s: State) {
    s.mutex + LockedByProducer(s.producer) + Sum(s.workers, LockedBy) == 1
  }

  /** Posted requests, claims of workers that have not removed yet, and an unposted put make up the ring. */
  ghost predicate FillAccounts(s: State) {
    s.fill + Sum(s.workers, Claimed) + Unposted(s.producer) == |s.contents|
  }

  /** Free slots, occupied slots, a reserved one and those taken but not yet handed back make up the ring. */
  ghost predicate EmptyAccounts(s: State) {
    s.empty + |s.contents| + Reserved(s.producer) + Sum(s.workers, Unreturned) == |s.ring.slots|
  }

  /** Where the tickets are: with the producer, in the ring, with a worker, or closed. */
  ghost function Places(s: State): multiset<nat> {
    HeldByProducer(s.producer) + Tickets(s.contents) + Held(s.workers) + multiset(s.closed)
  }

  /** Every accepted connection is in exactly one place, once. */
  ghost predicate EachTicketOnce(s: State) {
    forall t: nat :: Places(s)[t] == if t < s.accepted then 1 else 0
  }

  /** What was put is what was taken and what is still there; under FIFO also in that order. */
  ghost predicate LogsAgree(policy: Policy, s: State) {
    && (policy == FIFO ==> s.puts == s.takes + s.contents)
    && multiset(s.puts) == multiset(s.takes) + multiset(s.contents)
  }

  ghost predicate ProducerEligible(policy: Policy, p: Producer) {
    p.WaitingEmpty? || Reserved(p) == 1 ==> p.r.connfd != -1 && Eligible(policy, p.r)
  }

  ghost predicate Inv(policy: Policy, n: nat, s: State) {
    && n > 0 && |s.ring.slots| == n && Holds(s.ring, s.contents)
    && LockAccounts(s) && FillAccounts(s) && EmptyAccounts(s)
    && EachTicketOnce(s) && LogsAgree(policy, s)
    && ProducerEligible(policy, s.producer)
    && (forall k :: 0 <= k < |s.contents| ==> Eligible(policy, s.contents[k]))
  }

  lemma StartHasInv(policy: Policy, n: nat, s: State)
    requires Start(n, s)
    ensures Inv(policy, n, s)
  {
    SumOfSame(s.workers, LockedBy);
    SumOfSame(s.workers, Claimed);
    SumOfSame(s.workers, Unreturned);
    NothingHeld(s.workers);
  }

  lemma {:induction false} NothingHeld(ws: seq<Worker>)
    requires forall i :: 0 <= i < |ws| ==> ws[i] == WaitingFill
    ensures Held(ws) == multiset{}
  {
    if ws != [] {
      NothingHeld(ws[1..]);
    }
  }

  /** Tickets stay where they belong when none moves out of sight and at most one new one appears. */
  lemma TicketsStay(s: State, s': State)
    requires EachTicketOnce(s)
    requires s.accepted <= s'.accepted <= s.accepted + 1
    requires Places(s') == Places(s) + if s.accepted < s'.accepted then multiset{s.accepted} else multiset{}
    ensures EachTicketOnce(s')
  {
  }

  lemma AcceptKeepsInv(policy: Policy, n: nat, s: State, s': State)
    requires Inv(policy, n, s) && AcceptStep(policy, s, s')
    ensures Inv(policy, n, s')
  {
    TicketsStay(s, s');
  }

  /** A put finds a free slot, because the producer reserved one. */
  lemma PutFindsRoom(policy: Policy, n: nat, s: State)
    requires Inv(policy, n, s) && s.producer.Putting?
    ensures |s.contents| < n && s.ring.slots[s.ring.tail].connfd == -1
  {
    PutAppends(s.ring, s.contents, s.producer.r);
  }

  lemma PutKeepsPlaces(s: State, s': State)
    requires PutStep(s, s') && InRange(s.ring)
    ensures Places(s') == Places(s) && s'.accepted == s.accepted
  {
    hide Tickets, Held;
    if s.producer.Putting? {
      var r := s.producer.r;
      TicketsOfAppend(s.contents, r);
      MoveOne(multiset{r.ticket}, Tickets(s.contents), Held(s.workers), multiset(s.closed));
    }
  }

  lemma MoveOne(t: multiset<nat>, q: multiset<nat>, h: multiset<nat>, c: multiset<nat>)
    ensures t + q + h + c == multiset{} + (q + t) + h + c
  {
  }

  lemma PutKeepsAccounts(s: State, s': State)
    requires PutStep(s, s') && InRange(s.ring)
    requires LockAccounts(s) && FillAccounts(s) && EmptyAccounts(s)
    ensures LockAccounts(s') && FillAccounts(s') && EmptyAccounts(s')
  {
    hide Sum;
  }

  lemma PutKeepsLogs(policy: Policy, s: State, s': State)
    requires PutStep(s, s') && InRange(s.ring) && LogsAgree(policy, s)
    ensures LogsAgree(policy, s')
  {
    if s.producer.Putting? {
      var r := s.producer.r;
      assert s.takes + (s.contents + [r]) == (s.takes + s.contents) + [r];
    }
  }

  lemma PutKeepsInv(policy: Policy, n: nat, s: State, s': State)
    requires Inv(policy, n, s) && PutStep(s, s')
    ensures Inv(policy, n, s')
  {
    hide Places, LockAccounts, FillAccounts, EmptyAccounts, LogsAgree, EachTicketOnce;
    PutKeepsPlaces(s, s');
    PutKeepsAccounts(s, s');
    PutKeepsLogs(policy, s, s');
    TicketsStay(s, s');
    if s.producer.Putting? {
      PutFindsRoom(policy, n, s);
      PutAppends(s.ring, s.contents, s.producer.r);
    }
  }

  /** A take finds a request, because the worker claimed one. */
  lemma TakeFindsRequest(policy: Policy, n: nat, s: State, i: nat)
    requires Inv(policy, n, s) && i < |s.workers| && s.workers[i].Taking?
    ensures s.contents != [] && Eligible(policy, s.contents[0])
  {
    SumAtLeast(s.workers, i, Claimed);
  }

  /** How replacing one worker's program counter changes the four sums. */
  lemma WorkerUpdate(ws: seq<Worker>, i: nat, w: Worker)
    requires i < |ws|
    ensures Sum(ws[i := w], LockedBy) + LockedBy(ws[i]) == Sum(ws, LockedBy) + LockedBy(w)
    ensures Sum(ws[i := w], Claimed) + Claimed(ws[i]) == Sum(ws, Claimed) + Claimed(w)
    ensures Sum(ws[i := w], Unreturned) + Unreturned(ws[i]) == Sum(ws, Unreturned) + Unreturned(w)
    ensures Held(ws[i := w]) + HeldBy(ws[i]) == Held(ws) + HeldBy(w)
  {
    SumUpdate(ws, i, w, LockedBy);
    SumUpdate(ws, i, w, Claimed);
    SumUpdate(ws, i, w, Unreturned);
    HeldUpdate(ws, i, w);
  }

  lemma TakenKeepsAccounts(s: State, i: nat, k: nat)
    requires Holds(s.ring, s.contents) && i < |s.workers| && s.workers[i].Taking? && k < |s.contents|
    requires LockAccounts(s) && FillAccounts(s) && EmptyAccounts(s)
    ensures var s' := Taken(s, i, k);
            LockAccounts(s') && FillAccounts(s') && EmptyAccounts(s') && |s'.ring.slots| == |s.ring.slots|
  {
    WorkerUpdate(s.workers, i, Releasing(s.contents[k]));
  }

  lemma TakenKeepsPlaces(s: State, i: nat, k: nat)
    requires Holds(s.ring, s.contents) && i < |s.workers| && s.workers[i].Taking? && k < |s.contents|
    ensures Places(Taken(s, i, k)) == Places(s)
  {
    var s' := Taken(s, i, k);
    WorkerUpdate(s.workers, i, Releasing(s.contents[k]));
    TicketsWithout(s.contents, k);
    assert Held(s'.workers) == Held(s.workers) + multiset{s.contents[k].ticket};
    assert Tickets(s'.contents) + multiset{s.contents[k].ticket} == Tickets(s.contents);
  }

  /** Moving one entry from a queue to the end of a log. */
  lemma MoveToLog(log: seq<Request>, q: seq<Request>, k: nat)
    requires k < |q|
    ensures multiset(log) + multiset(q) == multiset(log + [q[k]]) + multiset(q[..k] + q[k + 1..])
    ensures k == 0 ==> log + q == (log + [q[k]]) + (q[..k] + q[k + 1..])
  {
    assert q == q[..k] + [q[k]] + q[k + 1..];
  }

  lemma TakenKeepsLogs(policy: Policy, s: State, i: nat, k: nat)
    requires Holds(s.ring, s.contents) && i < |s.workers| && Picks(s.ring, s.contents, policy, k)
    requires LogsAgree(policy, s)
    ensures LogsAgree(policy, Taken(s, i, k))
  {
    hide Holds, RemoveRing, SlotAt;
    MoveToLog(s.takes, s.contents, k);
  }

  lemma TakenKeepsInv(policy: Policy, n: nat, s: State, i: nat, k: nat)
    requires Inv(policy, n, s) && i < |s.workers| && s.workers[i].Taking? && Picks(s.ring, s.contents, policy, k)
    ensures Inv(policy, n, Taken(s, i, k))
  {
    hide Places, LogsAgree, LockAccounts, FillAccounts, EmptyAccounts, Holds, EachTicketOnce;
    RemoveRemoves(s.ring, s.contents, k);
    TakenKeepsAccounts(s, i, k);
    TakenKeepsPlaces(s, i, k);
    TakenKeepsLogs(policy, s, i, k);
    TicketsStay(s, Taken(s, i, k));
  }

  /** A worker step other than the removal moves no request into or out of the ring. */
  lemma WorkerKeepsAccounts(policy: Policy, s: State, i: nat, s': State)
    requires i < |s.workers| && WorkerStep(policy, s, i, s') && !s.workers[i].Taking?
    requires LockAccounts(s) && FillAccounts(s) && EmptyAccounts(s)
    ensures LockAccounts(s') && FillAccounts(s') && EmptyAccounts(s')
  {
    WorkerUpdate(s.workers, i, s'.workers[i]);
  }

  lemma SameHeld(x: multiset<nat>, y: multiset<nat>, b: multiset<nat>)
    requires x + b == y + b
    ensures x == y
  {
    forall t
      ensures x[t] == y[t]
    {
      assert (x + b)[t] == (y + b)[t];
    }
  }

  /** A request served moves from its worker to the closed ones. */
  lemma ClosedFromHeld(p: multiset<nat>, q: multiset<nat>, h: multiset<nat>, h': multiset<nat>, c: seq<nat>, t: nat)
    requires h' + multiset{t} == h
    ensures p + q + h' + multiset(c + [t]) == p + q + h + multiset(c)
  {
    assert multiset(c + [t]) == multiset(c) + multiset{t};
  }

  lemma WorkerKeepsPlaces(policy: Policy, s: State, i: nat, s': State)
    requires i < |s.workers| && WorkerStep(policy, s, i, s') && !s.workers[i].Taking?
    ensures Places(s') == Places(s)
  {
    hide Held, Tickets, HeldByProducer;
    var w := s.workers[i];
    HeldUpdate(s.workers, i, s'.workers[i]);
    if w.Handling? {
      assert HeldBy(s'.workers[i]) == multiset{};
      ClosedFromHeld(HeldByProducer(s.producer), Tickets(s.contents), Held(s.workers), Held(s'.workers),
                     s.closed, w.r.ticket);
    } else {
      SameHeld(Held(s'.workers), Held(s.workers), HeldBy(w));
    }
  }

  lemma WorkerKeepsInv(policy: Policy, n: nat, s: State, i: nat, s': State)
    requires Inv(policy, n, s) && i < |s.workers| && WorkerStep(policy, s, i, s')
    ensures Inv(policy, n, s')
  {
    hide Places, LockAccounts, FillAccounts, EmptyAccounts, Holds, EachTicketOnce;
    if s.workers[i].Taking? {
      TakeFindsRequest(policy, n, s, i);
      var k: nat :| Picks(s.ring, s.contents, policy, k) && s' == Taken(s, i, k);
      TakenKeepsInv(policy, n, s, i, k);
    } else {
      WorkerKeepsAccounts(policy, s, i, s');
      WorkerKeepsPlaces(policy, s, i, s');
      TicketsStay(s, s');
    }
  }

  /** Every state of every interleaving satisfies the invariant. */
  lemma {:induction false} EveryReachableState(policy: Policy, n: nat, ss: seq<State>, i: nat)
    requires Run(policy, n, ss) && i < |ss|
    ensures Inv(policy, n, ss[i])
  {
    if i == 0 {
      StartHasInv(policy, n, ss[0]);
    } else {
      EveryReachableState(policy, n, ss, i - 1);
      var (s, s') := (ss[i - 1], ss[i]);
      assert Next(policy, s, s');
      if AcceptStep(policy, s, s') {
        AcceptKeepsInv(policy, n, s, s');
      } else if PutStep(s, s') {
        PutKeepsInv(policy, n, s, s');
      } else {
        var w: nat :| w < |s.workers| && WorkerStep(policy, s, w, s');
        WorkerKeepsInv(policy, n, s, w, s');
      }
    }
  }

  // -- No connection is lost or served twice -------------------------------------------------------

  /**
   In every reachable state, each accepted connection is either with the producer, or once in the ring,
   or with one worker, or closed once; no other ticket is anywhere.
   */
  lemma EachConnectionInOnePlace(policy: Policy, n: nat, ss: seq<State>, i: nat, t: nat)
    requires Run(policy, n, ss) && i < |ss|
    ensures var s := ss[i];
            HeldByProducer(s.producer)[t] + Tickets(s.contents)[t] + Held(s.workers)[t] + multiset(s.closed)[t]
              == if t < s.accepted then 1 else 0
  {
    EveryReachableState(policy, n, ss, i);
    assert Places(ss[i])[t] == if t < ss[i].accepted then 1 else 0;
  }

  lemma {:induction false} HeldAtLeast(ws: seq<Worker>, i: nat, t: nat)
    requires i < |ws|
    ensures HeldBy(ws[i])[t] <= Held(ws)[t]
  {
    if i > 0 {
      HeldAtLeast(ws[1..], i - 1, t);
    }
  }

  lemma HeldByTwo(ws: seq<Worker>, j: nat, k: nat, t: nat)
    requires j < |ws| && k < |ws| && j != k
    ensures HeldBy(ws[j])[t] + HeldBy(ws[k])[t] <= Held(ws)[t]
  {
    HeldAtLeast(ws[j := WaitingFill], k, t);
    HeldUpdate(ws, j, WaitingFill);
    assert (Held(ws[j := WaitingFill]) + HeldBy(ws[j]))[t] == Held(ws)[t];
  }

  /** No request is handed to two workers, and none that a worker holds is still in the ring. */
  lemma HeldByOneWorkerOnly(policy: Policy, n: nat, ss: seq<State>, i: nat, j: nat, k: nat, t: nat)
    requires Run(policy, n, ss) && i < |ss| && j < |ss[i].workers| && t in HeldBy(ss[i].workers[j])
    ensures t !in Tickets(ss[i].contents) && t !in ss[i].closed && t < ss[i].accepted
    ensures k < |ss[i].workers| && t in HeldBy(ss[i].workers[k]) ==> k == j
  {
    var s := ss[i];
    EachConnectionInOnePlace(policy, n, ss, i, t);
    HeldAtLeast(s.workers, j, t);
    if k < |s.workers| && k != j {
      HeldByTwo(s.workers, j, k, t);
    }
  }

  // -- Progress --------------------------------------------------------------------------------------

  /** Among the first `m` requests, all eligible, one that goes before the others. */
  lemma {:induction false} PickOfPrefix(ring: Ring, q: seq<Request>, policy: Policy, m: nat) returns (k: nat)
    requires Holds(ring, q) && policy != FIFO && 0 < m <= |q|
    ensures k < m
    ensures forall j: nat :: j < m && j != k ==> GoesBefore(policy, q[k], SlotAt(ring, k), q[j], SlotAt(ring, j))
  {
    if m == 1 {
      k := 0;
    } else {
      k := PickOfPrefix(ring, q, policy, m - 1);
      if !GoesBefore(policy, q[k], SlotAt(ring, k), q[m - 1], SlotAt(ring, m - 1)) {
        assert SlotAt(ring, k) != SlotAt(ring, m - 1);
        k := m - 1;
      }
    }
  }

  lemma PickExists(ring: Ring, q: seq<Request>, policy: Policy) returns (k: nat)
    requires Holds(ring, q) && q != []
    requires forall j :: 0 <= j < |q| ==> Eligible(policy, q[j])
    ensures Picks(ring, q, policy, k)
  {
    if policy == FIFO {
      k := 0;
    } else {
      k := PickOfPrefix(ring, q, policy, |q|);
    }
  }

  /** The worker serves a request for ever. */
  ghost predicate ServesForEver(s: State, w: Worker) {
    w.Handling? && w.r.ticket in s.endless
  }

  /** Nothing to do: the ring is empty, the producer waits for a connection and the workers that can for work. */
  ghost predicate Quiet(s: State) {
    && s.producer == Accepting && s.contents == []
    && forall i :: 0 <= i < |s.workers| ==> s.workers[i] == WaitingFill || ServesForEver(s, s.workers[i])
  }

  /** Every worker serves a request for ever, and the producer waits for a connection or for room in the full ring. */
  ghost predicate AllServeForEver(s: State) {
    && (forall i :: 0 <= i < |s.workers| ==> ServesForEver(s, s.workers[i]))
    && (s.producer.Accepting? || (s.producer.WaitingEmpty? && |s.contents| == |s.ring.slots|))
  }

  /** The producer holds the lock and reads headers that never end. */
  ghost predicate ReadsForEver(s: State) {
    s.producer.Reading? && !HeadersEnd(s.producer.sent)
  }

  /** The same, and every worker serves for ever or waits for the lock or for work that is not there. */
  ghost predicate Hung(s: State) {
    && ReadsForEver(s)
    && forall i :: 0 <= i < |s.workers| ==>
         s.workers[i].WaitingMutex? || (s.workers[i].WaitingFill? && s.fill == 0) || ServesForEver(s, s.workers[i])
  }

  /** The worker neither waits at a semaphore nor serves for ever. */
  ghost predicate Busy(s: State, w: Worker) {
    !w.WaitingFill? && !w.WaitingMutex? && !ServesForEver(s, w)
  }

  /** The program counters of a state in which no thread holds the lock or is on its way out. */
  ghost predicate AllWait(s: State) {
    && (s.producer.Accepting? || s.producer.WaitingEmpty? || s.producer.WaitingLock?)
    && forall i :: 0 <= i < |s.workers| ==> !Busy(s, s.workers[i])
  }

  /** A worker that does not wait can step. */
  lemma BusyWorkerSteps(policy: Policy, n: nat, s: State, i: nat) returns (s': State)
    requires Inv(policy, n, s) && i < |s.workers| && Busy(s, s.workers[i])
    ensures WorkerStep(policy, s, i, s')
  {
    match s.workers[i] {
      case Taking =>
        TakeFindsRequest(policy, n, s, i);
        var k := PickExists(s.ring, s.contents, policy);
        s' := Taken(s, i, k);
      case Releasing(r) => s' := s.(mutex := s.mutex + 1, workers := s.workers[i := PostingEmpty(r)]);
      case PostingEmpty(r) => s' := s.(empty := s.empty + 1, workers := s.workers[i := Handling(r)]);
      case Handling(r) => s' := s.(closed := s.closed + [r.ticket], workers := s.workers[i := WaitingFill]);
    }
  }

  lemma BusyThreadSteps(policy: Policy, n: nat, s: State) returns (s': State)
    requires Inv(policy, n, s) && !AllWait(s) && !ReadsForEver(s)
    ensures ThreadStep(policy, s, s')
  {
    match s.producer
    case Reading(r, _) => s' := s.(producer := Putting(r));
    case Putting(r) =>
      s' := s.(ring := PutRing(s.ring, r), contents := s.contents + [r], puts := s.puts + [r], producer := Unlocking);
    case Unlocking => s' := s.(mutex := s.mutex + 1, producer := PostingFill);
    case PostingFill => s' := s.(fill := s.fill + 1, producer := Accepting);
    case _ =>
      var i: nat :| i < |s.workers| && Busy(s, s.workers[i]);
      s' := BusyWorkerSteps(policy, n, s, i);
  }

  lemma WaitingThreadSteps(policy: Policy, n: nat, s: State) returns (s': State)
    requires Inv(policy, n, s) && AllWait(s) && !Quiet(s) && !AllServeForEver(s) && |s.workers| > 0
    ensures ThreadStep(policy, s, s')
  {
    hide ServesForEver;
    forall i | 0 <= i < |s.workers|
      ensures LockedBy(s.workers[i]) == 0 && Unreturned(s.workers[i]) == 0
      ensures s.workers[i].WaitingFill? || s.workers[i].WaitingMutex? || ServesForEver(s, s.workers[i])
    {
      assert !Busy(s, s.workers[i]);
      ServingIsHandling(s, s.workers[i]);
    }
    SumOfSame(s.workers, LockedBy);
    SumOfSame(s.workers, Unreturned);
    if s.producer.WaitingLock? {
      s' := s.(mutex := s.mutex - 1, producer := Reading(s.producer.r, s.producer.sent));
    } else if exists i: nat :: i < |s.workers| && s.workers[i].WaitingMutex? {
      var i: nat :| i < |s.workers| && s.workers[i].WaitingMutex?;
      s' := s.(mutex := s.mutex - 1, workers := s.workers[i := Taking]);
      assert WorkerStep(policy, s, i, s');
    } else {
      s' := WaitingForWorkSteps(policy, n, s);
    }
  }

  lemma ServingIsHandling(s: State, w: Worker)
    ensures ServesForEver(s, w) ==> w.Handling?
  {
  }

  /** When nobody waits for the lock, a worker finds work or the producer a free slot. */
  lemma WaitingForWorkSteps(policy: Policy, n: nat, s: State) returns (s': State)
    requires Inv(policy, n, s) && !Quiet(s) && !AllServeForEver(s) && |s.workers| > 0
    requires s.producer.Accepting? || s.producer.WaitingEmpty?
    requires forall i :: 0 <= i < |s.workers| ==> s.workers[i].WaitingFill? || ServesForEver(s, s.workers[i])
    ensures ThreadStep(policy, s, s')
  {
    SumOfSame(s.workers, Claimed);
    SumOfSame(s.workers, Unreturned);
    if s.empty > 0 && s.producer.WaitingEmpty? {
      s' := s.(empty := s.empty - 1, producer := WaitingLock(s.producer.r, s.producer.sent));
    } else {
      var i: nat :| i < |s.workers| && s.workers[i].WaitingFill?;
      s' := s.(fill := s.fill - 1, workers := s.workers[i := WaitingMutex]);
      assert WorkerStep(policy, s, i, s');
    }
  }

  /** Beside a producer that reads for ever, a worker that is not held up can still step. */
  lemma FreeWorkerSteps(policy: Policy, n: nat, s: State) returns (s': State)
    requires Inv(policy, n, s) && ReadsForEver(s) && !Hung(s)
    ensures ThreadStep(policy, s, s')
  {
    var i: nat :| i < |s.workers| && !s.workers[i].WaitingMutex? && !(s.workers[i].WaitingFill? && s.fill == 0)
                  && !ServesForEver(s, s.workers[i]);
    if s.workers[i].WaitingFill? {
      s' := s.(fill := s.fill - 1, workers := s.workers[i := WaitingMutex]);
      assert WorkerStep(policy, s, i, s');
    } else {
      s' := BusyWorkerSteps(policy, n, s, i);
    }
  }

  /** A state in which every thread waits for good. */
  ghost predicate Blocked(s: State) {
    Quiet(s) || AllServeForEver(s) || Hung(s)
  }

  lemma BlockedStays(policy: Policy, n: nat, s: State, s': State)
    requires Inv(policy, n, s) && Blocked(s) && |s.workers| > 0
    ensures !ThreadStep(policy, s, s')
  {
    assert LockAccounts(s) && FillAccounts(s) && EmptyAccounts(s);
    if AllServeForEver(s) {
      SumOfSame(s.workers, Unreturned);
    }
  }

  lemma FreeThreadSteps(policy: Policy, n: nat, s: State) returns (s': State)
    requires Inv(policy, n, s) && !Blocked(s) && |s.workers| > 0
    ensures ThreadStep(policy, s, s')
  {
    if ReadsForEver(s) {
      s' := FreeWorkerSteps(policy, n, s);
    } else if AllWait(s) {
      s' := WaitingThreadSteps(policy, n, s);
    } else {
      s' := BusyThreadSteps(policy, n, s);
    }
  }

  /**
   Deadlock freedom and its exceptions: with at least one worker, some thread can move unless there is nothing
   to do, all workers serve for ever, or the producer reads headers that never end and holds up the others.
   */
  lemma SomeThreadCanStepIff(policy: Policy, n: nat, ss: seq<State>, i: nat)
    requires Run(policy, n, ss) && i < |ss| && |ss[i].workers| > 0
    ensures (exists s' :: ThreadStep(policy, ss[i], s')) <==>
              !Quiet(ss[i]) && !AllServeForEver(ss[i]) && !Hung(ss[i])
  {
    EveryReachableState(policy, n, ss, i);
    if Blocked(ss[i]) {
      forall s' {:trigger ThreadStep(policy, ss[i], s')}
        ensures !ThreadStep(policy, ss[i], s')
      {
        BlockedStays(policy, n, ss[i], s');
      }
    } else {
      var s' := FreeThreadSteps(policy, n, ss[i]);
    }
  }

  lemma StepBesideReader(policy: Policy, n: nat, s: State, s': State)
    requires Inv(policy, n, s) && ReadsForEver(s) && Next(policy, s, s')
    ensures s'.producer == s.producer && s'.takes == s.takes && s'.contents == s.contents && s'.accepted == s.accepted
  {
    var i: nat :| i < |s.workers| && WorkerStep(policy, s, i, s');
    SumAtLeast(s.workers, i, LockedBy);
    assert LockAccounts(s);
  }

  /** Once the producer reads headers that never end, no request is taken and no connection accepted again. */
  lemma {:induction false} NothingMovesBehindReader(policy: Policy, n: nat, ss: seq<State>, i: nat, j: nat)
    requires Run(policy, n, ss) && i <= j < |ss| && ReadsForEver(ss[i])
    ensures ReadsForEver(ss[j]) && ss[j].takes == ss[i].takes && ss[j].contents == ss[i].contents
    ensures ss[j].accepted == ss[i].accepted
  {
    if i < j {
      NothingMovesBehindReader(policy, n, ss, i, j - 1);
      EveryReachableState(policy, n, ss, j - 1);
      StepBesideReader(policy, n, ss[j - 1], ss[j]);
    }
  }

  /** A first client whose headers never end, say because it closes too early, brings any server to that state. */
  lemma OneClientHangsServer(policy: Policy, n: nat, s: State, sent: seq<Byte>) returns (ss: seq<State>)
    requires Start(n, s) && !HeadersEnd(sent)
    ensures Run(policy, n, ss) && ss[0] == s && Hung(ss[|ss| - 1]) && ss[|ss| - 1].producer.sent == sent
  {
    var r := Request(0, 0, 0, 0);
    var s1 := s.(producer := WaitingEmpty(r, sent), accepted := 1);
    var s2 := s1.(empty := n - 1, producer := WaitingLock(r, sent));
    var s3 := s2.(mutex := 0, producer := Reading(r, sent));
    ss := [s, s1, s2, s3];
    assert AcceptStep(policy, s, s1) by {
      assert r.ticket == s.accepted && r.connfd != -1 && Eligible(policy, r);
    }
    assert PutStep(s1, s2) && PutStep(s2, s3);
  }

  /** The client that sends a request line and one header line, and then closes, is such a client. */
  lemma BrokenRequestHangsServer(policy: Policy, n: nat, s: State) returns (ss: seq<State>)
    requires Start(n, s)
    ensures Run(policy, n, ss) && ss[0] == s && Hung(ss[|ss| - 1]) && ss[|ss| - 1].producer.sent == BROKEN_OFF
  {
    BrokenRequestNeverEnds();
    ss := OneClientHangsServer(policy, n, s, BROKEN_OFF);
  }

  // -- Order -------------------------------------------------------------------------------------------

  lemma {:induction false} LogsGrow(policy: Policy, n: nat, ss: seq<State>, i: nat, j: nat)
    requires Run(policy, n, ss) && i <= j < |ss|
    ensures ss[i].puts <= ss[j].puts && ss[i].takes <= ss[j].takes
  {
    if i < j {
      LogsGrow(policy, n, ss, i, j - 1);
      EveryReachableState(policy, n, ss, j - 1);
      LogsGrowByStep(policy, n, ss[j - 1], ss[j]);
    }
  }

  lemma LogsGrowByStep(policy: Policy, n: nat, s: State, s': State)
    requires Inv(policy, n, s) && Next(policy, s, s')
    ensures s.puts <= s'.puts && s.takes <= s'.takes
  {
    if !AcceptStep(policy, s, s') && !PutStep(s, s') {
      var i: nat :| i < |s.workers| && WorkerStep(policy, s, i, s');
      if s.workers[i].Taking? {
        TakeFindsRequest(policy, n, s, i);
        var k: nat :| Picks(s.ring, s.contents, policy, k) && s' == Taken(s, i, k);
      }
    }
  }

  /**
   Under FIFO requests are taken in the order they were put, and a request with `k` requests ahead of it
   in the ring is the (k+1)-th to be taken from then on.
   */
  lemma FifoKeepsOrder(n: nat, ss: seq<State>, i: nat, j: nat, k: nat)
    requires Run(FIFO, n, ss) && i <= j < |ss| && k < |ss[i].contents|
    ensures ss[j].takes <= ss[j].puts
    ensures |ss[j].takes| > |ss[i].takes| + k ==> ss[j].takes[|ss[i].takes| + k] == ss[i].contents[k]
  {
    EveryReachableState(FIFO, n, ss, i);
    EveryReachableState(FIFO, n, ss, j);
    LogsGrow(FIFO, n, ss, i, j);
    assert ss[i].puts[|ss[i].takes| + k] == ss[i].contents[k];
  }

  // -- Everything that was put is taken in time ------------------------------------------------------------

  /** How many steps a worker is away from waiting for work. */
  function Rank(w: Worker): nat {
    match w
    case WaitingFill => 0
    case WaitingMutex => 5
    case Taking => 4
    case Releasing(_) => 3
    case PostingEmpty(_) => 2
    case Handling(_) => 1
  }

  /** How many steps the producer is away from the next connection, and a worker from serving this one. */
  function ProducerRank(p: Producer): nat {
    match p
    case Accepting => 0
    case WaitingEmpty(_, _) => 12
    case WaitingLock(_, _) => 11
    case Reading(_, _) => 10
    case Putting(_) => 9
    case Unlocking => 8
    case PostingFill => 7
  }

  /** At most so many steps are left to do for the connections accepted so far. */
  ghost function Work(s: State): nat {
    ProducerRank(s.producer) + 6 * s.fill + Sum(s.workers, Rank)
  }

  lemma PutStepDoesWork(policy: Policy, n: nat, s: State, s': State)
    requires Inv(policy, n, s) && PutStep(s, s')
    ensures Work(s') < Work(s) && s'.accepted == s.accepted
  {
    hide Sum, Holds, LockAccounts, FillAccounts, EmptyAccounts, EachTicketOnce, LogsAgree, HeadersEnd;
    RingInRange(policy, n, s);
  }

  lemma RingInRange(policy: Policy, n: nat, s: State)
    requires Inv(policy, n, s)
    ensures InRange(s.ring)
  {
  }

  /** A worker moves one rank down, or takes up work that was posted. */
  lemma WorkerStepDoesWork(policy: Policy, n: nat, s: State, i: nat, s': State)
    requires Inv(policy, n, s) && i < |s.workers| && WorkerStep(policy, s, i, s')
    ensures Work(s') < Work(s) && s'.accepted == s.accepted
  {
    hide Inv, Sum, Holds, RemoveRing, SlotAt;
    if s.workers[i].Taking? {
      var k := PickTaken(policy, n, s, i, s');
    }
    SumUpdate(s.workers, i, s'.workers[i], Rank);
  }

  /** A take removes what the policy picks. */
  lemma PickTaken(policy: Policy, n: nat, s: State, i: nat, s': State) returns (k: nat)
    requires Inv(policy, n, s) && i < |s.workers| && WorkerStep(policy, s, i, s') && s.workers[i].Taking?
    ensures Holds(s.ring, s.contents) && k < |s.contents| && s' == Taken(s, i, k)
    ensures Picks(s.ring, s.contents, policy, k)
  {
    TakeFindsRequest(policy, n, s, i);
    k :| Picks(s.ring, s.contents, policy, k) && s' == Taken(s, i, k);
  }

  lemma ThreadStepDoesWork(policy: Policy, n: nat, s: State, s': State)
    requires Inv(policy, n, s) && ThreadStep(policy, s, s')
    ensures Work(s') < Work(s) && s'.accepted == s.accepted
  {
    hide Inv, Work, PutStep, WorkerStep;
    if PutStep(s, s') {
      PutStepDoesWork(policy, n, s, s');
    } else {
      var i: nat :| i < |s.workers| && WorkerStep(policy, s, i, s');
      WorkerStepDoesWork(policy, n, s, i, s');
    }
  }

  /** A run has at most as many steps as there was work, and thirteen for each connection accepted meanwhile. */
  lemma {:induction false} StepsAreWork(policy: Policy, n: nat, ss: seq<State>, i: nat, j: nat)
    requires Run(policy, n, ss) && i <= j < |ss|
    ensures ss[i].accepted <= ss[j].accepted
    ensures j - i + Work(ss[j]) <= Work(ss[i]) + 13 * (ss[j].accepted - ss[i].accepted)
  {
    hide Work, ThreadStep, Start;
    if i < j {
      StepsAreWork(policy, n, ss, i, j - 1);
      EveryReachableState(policy, n, ss, j - 1);
      assert Next(policy, ss[j - 1], ss[j]);
      if ThreadStep(policy, ss[j - 1], ss[j]) {
        ThreadStepDoesWork(policy, n, ss[j - 1], ss[j]);
      } else {
        AcceptStepAddsWork(policy, ss[j - 1], ss[j]);
      }
    }
  }

  lemma AcceptStepAddsWork(policy: Policy, s: State, s': State)
    requires AcceptStep(policy, s, s')
    ensures Work(s') == Work(s) + 12 && s'.accepted == s.accepted + 1
  {
  }

  /** Every connection accepted has been put, but for the one the producer may still hold. */
  ghost predicate AcceptedAccounts(s: State) {
    s.accepted == |s.puts| + if s.producer.WaitingEmpty? || Reserved(s.producer) == 1 then 1 else 0
  }

  lemma {:induction false} AcceptedWerePut(policy: Policy, n: nat, ss: seq<State>, i: nat)
    requires Run(policy, n, ss) && i < |ss|
    ensures AcceptedAccounts(ss[i])
  {
    if i > 0 {
      AcceptedWerePut(policy, n, ss, i - 1);
      EveryReachableState(policy, n, ss, i - 1);
      StepKeepsAccepted(policy, n, ss[i - 1], ss[i]);
    }
  }

  lemma StepKeepsAccepted(policy: Policy, n: nat, s: State, s': State)
    requires Inv(policy, n, s) && Next(policy, s, s') && AcceptedAccounts(s)
    ensures AcceptedAccounts(s')
  {
    if !AcceptStep(policy, s, s') && !PutStep(s, s') {
      var i: nat :| i < |s.workers| && WorkerStep(policy, s, i, s');
      if s.workers[i].Taking? {
        var k := PickTaken(policy, n, s, i, s');
      }
    }
  }

  /** What was accepted is what was taken, what the ring holds, and at most one more. */
  lemma AcceptedBounds(policy: Policy, n: nat, ss: seq<State>, i: nat)
    requires Run(policy, n, ss) && i < |ss|
    ensures |ss[i].takes| + |ss[i].contents| <= ss[i].accepted <= |ss[i].takes| + |ss[i].contents| + 1
    ensures |ss[i].contents| <= n
  {
    var s := ss[i];
    AcceptedWerePut(policy, n, ss, i);
    EveryReachableState(policy, n, ss, i);
    assert |multiset(s.puts)| == |s.puts| && |multiset(s.takes) + multiset(s.contents)| == |s.takes| + |s.contents|;
  }

  /**
   Under every policy the server gets on: within a number of steps that the state alone bounds, as many
   requests are taken as the ring held, whatever the scheduler does and whoever connects meanwhile.
   */
  lemma TakesGoOn(policy: Policy, n: nat, ss: seq<State>, i: nat, j: nat)
    requires Run(policy, n, ss) && i <= j < |ss| && j - i > Work(ss[i]) + 13 * (n + 1)
    ensures |ss[j].takes| >= |ss[i].takes| + |ss[i].contents|
  {
    StepsAreWork(policy, n, ss, i, j);
    AcceptedBounds(policy, n, ss, i);
    AcceptedBounds(policy, n, ss, j);
  }

  /**
   Under FIFO nothing starves: each request in the ring is itself taken within that number of steps, after
   those ahead of it.
   */
  lemma FifoServesEach(n: nat, ss: seq<State>, i: nat, j: nat, k: nat)
    requires Run(FIFO, n, ss) && i <= j < |ss| && k < |ss[i].contents|
    requires j - i > Work(ss[i]) + 13 * (n + 1)
    ensures |ss[j].takes| > |ss[i].takes| + k && ss[j].takes[|ss[i].takes| + k] == ss[i].contents[k]
  {
    TakesGoOn(FIFO, n, ss, i, j);
    FifoKeepsOrder(n, ss, i, j, k);
  }

  /** No client holds up a thread for ever, neither with its headers nor with its response. */
  ghost predicate ClientsBehave(s: State) {
    s.endless == {} &&
    (s.producer.WaitingEmpty? || s.producer.WaitingLock? || s.producer.Reading? ==> HeadersEnd(s.producer.sent))
  }

  lemma BehavesOn(policy: Policy, n: nat, s: State, s': State)
    requires Inv(policy, n, s) && ThreadStep(policy, s, s') && ClientsBehave(s)
    ensures ClientsBehave(s') && |s'.workers| == |s.workers|
  {
    if !PutStep(s, s') {
      var i: nat :| i < |s.workers| && WorkerStep(policy, s, i, s');
      if s.workers[i].Taking? {
        var k := PickTaken(policy, n, s, i, s');
      }
    }
  }

  /**
   When no client holds up a thread and no more connect, the threads alone get everything done, in at most as
   many steps as there is work: every connection accepted has then been closed.
   */
  lemma {:induction false} ServerDrains(policy: Policy, n: nat, ss: seq<State>) returns (more: seq<State>)
    requires Run(policy, n, ss) && |ss[|ss| - 1].workers| > 0 && ClientsBehave(ss[|ss| - 1])
    ensures Run(policy, n, ss + more) && |more| <= Work(ss[|ss| - 1])
    ensures var s := (ss + more)[|ss + more| - 1];
            && Quiet(s) && s.accepted == ss[|ss| - 1].accepted
            && forall t: nat :: t < s.accepted <==> t in s.closed
    decreases Work(ss[|ss| - 1])
  {
    var s := ss[|ss| - 1];
    EveryReachableState(policy, n, ss, |ss| - 1);
    if Blocked(s) {
      more := [];
      assert ss + more == ss;
      WaitingHoldNothing(policy, n, s);
    } else {
      var s' := FreeThreadSteps(policy, n, s);
      ThreadStepDoesWork(policy, n, s, s');
      BehavesOn(policy, n, s, s');
      RunExtends(policy, n, ss, s');
      var rest := ServerDrains(policy, n, ss + [s']);
      more := [s'] + rest;
      assert ss + more == ss + [s'] + rest;
    }
  }

  lemma RunExtends(policy: Policy, n: nat, ss: seq<State>, s': State)
    requires Run(policy, n, ss) && ThreadStep(policy, ss[|ss| - 1], s')
    ensures Run(policy, n, ss + [s'])
  {
  }

  lemma WaitingHoldNothing(policy: Policy, n: nat, s: State)
    requires Inv(policy, n, s) && Blocked(s) && ClientsBehave(s) && |s.workers| > 0
    ensures Quiet(s) && forall t: nat :: t < s.accepted <==> t in s.closed
  {
    assert !ServesForEver(s, s.workers[0]);
    assert Quiet(s);
    NothingHeld(s.workers);
    forall t: nat
      ensures t < s.accepted <==> t in s.closed
    {
      assert Places(s)[t] == if t < s.accepted then 1 else 0;
    }
  }
}
