/** The ring of src/runtime/lockfree_ring.rs under concurrency: any number of threads call `try_send`
    and `try_recv`, and a step is one access to shared memory.  Tickets are unbounded here; what the
    wrapping of the machine's indices does to a call is in `LockFreeRing`. */
module RingProtocol {

  import opened LockFreeRing

  type Val = int

  datatype Outcome = Nothing | Accepted(v: Val) | Refused(v: Val) | Received(v: Val) | FoundNone

  /** Where a thread is.  `Start`: it will read the index.  `Loaded`: it will read the slot's sequence
      number.  `Ready`: that number allowed the ticket, and the compare-exchange is next.  `Claimed`:
      the ticket is its own.  `Written`, `Read`: the value has been moved, and the slot's new number
      is next. */
  datatype Thread =
    | Idle(last: Outcome)
    | SendStart(v: Val)
    | SendLoaded(v: Val, t: nat)
    | SendReady(v: Val, t: nat)
    | SendClaimed(v: Val, t: nat)
    | SendWritten(v: Val, t: nat)
    | RecvStart
    | RecvLoaded(t: nat)
    | RecvReady(t: nat)
    | RecvClaimed(t: nat)
    | RecvRead(v: Val, t: nat)

  /** The life of a ticket that a producer has claimed. */
  datatype Phase = Writing(owner: nat) | Full | Taking(owner: nat) | Freed(v: Val)

  /** `sent` and `phase` are records for the proofs, one entry per claimed ticket; no step reads
      them. */
  datatype State = State(head: nat, tail: nat, seqs: seq<nat>, vals: seq<Val>, threads: seq<Thread>,
                         sent: seq<Val>, phase: seq<Phase>)

  datatype Action = CallSend(i: nat, v: Val) | CallRecv(i: nat) | Go(i: nat, spurious: bool)

  // ─── the steps ──────────────────────────────────────────────────────

  predicate Enabled(s: State, a: Action) {
    && |s.seqs| == |s.vals| > 0 && a.i < |s.threads|
    && (a.Go? <==> !s.threads[a.i].Idle?)
  }

  function Move(s: State, i: nat, th: Thread): State
    requires i < |s.threads|
  {
    s.(threads := s.threads[i := th])
  }

  function SetPhase(s: State, t: nat, p: Phase): State {
    if t < |s.phase| then s.(phase := s.phase[t := p]) else s
  }

  /** The slot of ticket t. */
  function Place(s: State, t: nat): (k: nat)
    requires |s.seqs| > 0
    ensures k < |s.seqs|
  {
    Slot(t, |s.seqs|)
  }

  function Step(s: State, a: Action): State
    requires Enabled(s, a)
  {
    match a
    case CallSend(i, v) => Move(s, i, SendStart(v))
    case CallRecv(i) => Move(s, i, RecvStart)
    case Go(i, spurious) => if Receives(s.threads[i]) then GoRecv(s, i, spurious) else GoSend(s, i, spurious)
  }

  predicate Receives(th: Thread) {
    th.RecvStart? || th.RecvLoaded? || th.RecvReady? || th.RecvClaimed? || th.RecvRead?
  }

  function GoSend(s: State, i: nat, spurious: bool): State
    requires |s.seqs| == |s.vals| > 0 && i < |s.threads| && !s.threads[i].Idle? && !Receives(s.threads[i])
  {
    match s.threads[i]
    case SendStart(v) => Move(s, i, SendLoaded(v, s.tail))
    case SendLoaded(v, t) =>
      var seen := s.seqs[Place(s, t)];
      if seen == t then Move(s, i, SendReady(v, t))
      else if seen < t then Move(s, i, Idle(Refused(v)))
      else Move(s, i, SendStart(v))
    case SendReady(v, t) =>
      if s.tail == t && !spurious then
        Move(s, i, SendClaimed(v, t)).(tail := t + 1, sent := s.sent + [v], phase := s.phase + [Writing(i)])
      else Move(s, i, SendLoaded(v, s.tail))
    case SendClaimed(v, t) => Move(s, i, SendWritten(v, t)).(vals := s.vals[Place(s, t) := v])
    case SendWritten(v, t) => SetPhase(Move(s, i, Idle(Accepted(v))).(seqs := s.seqs[Place(s, t) := t + 1]), t, Full)
  }

  function GoRecv(s: State, i: nat, spurious: bool): State
    requires |s.seqs| == |s.vals| > 0 && i < |s.threads| && Receives(s.threads[i])
  {
    match s.threads[i]
    case RecvStart => Move(s, i, RecvLoaded(s.head))
    case RecvLoaded(t) =>
      var seen := s.seqs[Place(s, t)];
      if seen == t + 1 then Move(s, i, RecvReady(t))
      else if seen < t + 1 then Move(s, i, Idle(FoundNone))
      else Move(s, i, RecvStart)
    case RecvReady(t) =>
      if s.head == t && !spurious then SetPhase(Move(s, i, RecvClaimed(t)).(head := t + 1), t, Taking(i))
      else Move(s, i, RecvLoaded(s.head))
    case RecvClaimed(t) => Move(s, i, RecvRead(s.vals[Place(s, t)], t))
    case RecvRead(v, t) =>
      SetPhase(Move(s, i, Idle(Received(v))).(seqs := s.seqs[Place(s, t) := t + |s.seqs|]), t, Freed(v))
  }

  predicate Init(s: State) {
    && s.head == 0 && s.tail == 0 && s.sent == [] && s.phase == []
    && |s.vals| == |s.seqs| > 0 && (forall k :: 0 <= k < |s.seqs| ==> s.seqs[k] == k)
    && (forall i :: 0 <= i < |s.threads| ==> s.threads[i] == Idle(Nothing))
  }

  // ─── the invariant ──────────────────────────────────────────────────

  /** The number a slot carries while ticket t is the next to use it. */
  function Number(s: State, t: nat): nat {
    var cap := |s.seqs|;
    if t < cap || t - cap >= |s.phase| then t
    else match s.phase[t - cap]
      case Writing(_) => t - cap
      case Full => t - cap + 1
      case Taking(_) => t - cap + 1
      case Freed(_) => t
  }

  predicate Taken(p: Phase) {
    p.Taking? || p.Freed?
  }

  predicate Sizes(s: State) {
    && |s.seqs| == |s.vals| >= 2 && |s.sent| == |s.phase| == s.tail
    && s.head <= s.tail <= s.head + |s.seqs|
  }

  /** A ticket has been taken exactly when `head` has passed it, it delivered what was sent, and its
      slot is not claimed again before it is freed. */
  predicate TicketOk(s: State, t: nat)
    requires Sizes(s) && t < s.tail
  {
    && (t < s.head <==> Taken(s.phase[t]))
    && (s.phase[t].Freed? ==> s.phase[t].v == s.sent[t])
    && (t + |s.seqs| < s.tail ==> s.phase[t].Freed?)
    && (s.phase[t].Full? || s.phase[t].Taking? ==> s.vals[Place(s, t)] == s.sent[t])
    && (s.phase[t].Writing? ==> Sends(s, s.phase[t].owner, t))
    && (s.phase[t].Taking? ==> Takes(s, s.phase[t].owner, t))
  }

  predicate Sends(s: State, i: nat, t: nat) {
    i < |s.threads| && (s.threads[i].SendClaimed? || s.threads[i].SendWritten?) && s.threads[i].t == t
  }

  predicate Takes(s: State, i: nat, t: nat) {
    i < |s.threads| && (s.threads[i].RecvClaimed? || s.threads[i].RecvRead?) && s.threads[i].t == t
  }

  predicate ThreadOk(s: State, i: nat)
    requires Sizes(s) && i < |s.threads|
  {
    match s.threads[i]
    case Idle(_) => true
    case SendStart(_) => true
    case SendLoaded(v, t) => t <= s.tail && (t < s.tail ==> s.seqs[Place(s, t)] >= t)
    case SendReady(v, t) => t <= s.tail && s.seqs[Place(s, t)] >= t
    case SendClaimed(v, t) => t < s.tail && s.phase[t] == Writing(i) && s.sent[t] == v
    case SendWritten(v, t) => t < s.tail && s.phase[t] == Writing(i) && s.sent[t] == v == s.vals[Place(s, t)]
    case RecvStart => true
    case RecvLoaded(t) => t <= s.head && (t < s.head ==> s.seqs[Place(s, t)] >= t + 1)
    case RecvReady(t) => t <= s.head && s.seqs[Place(s, t)] >= t + 1
    case RecvClaimed(t) => t < s.tail && s.phase[t] == Taking(i)
    case RecvRead(v, t) => t < s.tail && s.phase[t] == Taking(i) && v == s.sent[t]
  }

  predicate NumberOk(s: State, t: nat)
    requires Sizes(s)
  {
    s.seqs[Place(s, t)] == Number(s, t)
  }

  ghost predicate Inv(s: State) {
    && Sizes(s)
    && (forall t :: 0 <= t < s.tail ==> TicketOk(s, t))
    && (forall t :: s.tail <= t < s.tail + |s.seqs| ==> NumberOk(s, t))
    && (forall i :: 0 <= i < |s.threads| ==> ThreadOk(s, i))
  }

  lemma InitInv(s: State)
    requires Init(s) && |s.seqs| >= 2
    ensures Inv(s)
  {
  }

  /** The tickets in use share no slot. */
  lemma OtherSlot(s: State, t: nat, u: nat)
    requires |s.seqs| > 0 && t != u && t < u + |s.seqs| && u < t + |s.seqs|
    ensures Place(s, t) != Place(s, u)
  {
    if t < u { DistinctSlots(t, u, |s.seqs|); } else { DistinctSlots(u, t, |s.seqs|); }
  }

  lemma NextLap(s: State, t: nat)
    requires |s.seqs| > 0
    ensures Place(s, t + |s.seqs|) == Place(s, t)
  {
  }

  predicate Owns(th: Thread) {
    th.SendClaimed? || th.SendWritten? || th.RecvClaimed? || th.RecvRead?
  }

  // ─── each kind of step keeps it ─────────────────────────────────────

  /** A thread that owns no ticket goes on without writing to shared memory. */
  lemma MoveInv(s: State, i: nat, th: Thread)
    requires Inv(s) && i < |s.threads| && !Owns(s.threads[i]) && !Owns(th)
    requires ThreadOk(Move(s, i, th), i)
    ensures Inv(Move(s, i, th))
  {
    var s' := Move(s, i, th);
    forall t | 0 <= t < s'.tail ensures TicketOk(s', t) { assert TicketOk(s, t); }
    forall t | s'.tail <= t < s'.tail + |s'.seqs| ensures NumberOk(s', t) { assert NumberOk(s, t); }
    forall j | 0 <= j < |s'.threads| ensures ThreadOk(s', j) { assert ThreadOk(s, j); }
  }

  /** At the compare-exchange of a producer the slot is still free for its ticket. */
  lemma SlotIsFree(s: State, i: nat)
    requires Inv(s) && i < |s.threads| && s.threads[i].SendReady? && s.threads[i].t == s.tail
    ensures s.seqs[Place(s, s.tail)] == s.tail && s.tail < s.head + |s.seqs|
    ensures s.tail >= |s.seqs| ==> s.phase[s.tail - |s.seqs|].Freed?
  {
    var t := s.tail;
    assert ThreadOk(s, i);
    assert NumberOk(s, t);
    if t >= |s.seqs| { assert TicketOk(s, t - |s.seqs|); }
  }

  lemma ClaimSendInv(s: State, i: nat)
    requires Inv(s) && i < |s.threads| && s.threads[i].SendReady? && s.threads[i].t == s.tail
    ensures Inv(GoSend(s, i, false))
  {
    SlotIsFree(s, i);
    var s' := GoSend(s, i, false);
    var n := |s.seqs|;
    forall t | 0 <= t < s'.tail ensures TicketOk(s', t) {
      if t < s.tail {
        assert TicketOk(s, t);
        assert s'.phase[t] == s.phase[t] && s'.sent[t] == s.sent[t];
      }
    }
    forall t | s'.tail <= t < s'.tail + n ensures NumberOk(s', t) {
      if t < s.tail + n { assert NumberOk(s, t); } else { NextLap(s, s.tail); }
    }
    forall j | 0 <= j < |s'.threads| ensures ThreadOk(s', j) { assert ThreadOk(s, j); }
  }

  lemma WriteInv(s: State, i: nat)
    requires Inv(s) && i < |s.threads| && s.threads[i].SendClaimed?
    ensures Inv(GoSend(s, i, false)) && GoSend(s, i, true) == GoSend(s, i, false)
  {
    var s' := GoSend(s, i, false);
    var u := s.threads[i].t;
    assert ThreadOk(s, i) && TicketOk(s, u);
    forall t | 0 <= t < s'.tail ensures TicketOk(s', t) {
      assert TicketOk(s, t);
      if t != u && !s.phase[t].Freed? { OtherSlot(s, t, u); }
    }
    forall t | s'.tail <= t < s'.tail + |s'.seqs| ensures NumberOk(s', t) { assert NumberOk(s, t); }
    forall j | 0 <= j < |s'.threads| ensures ThreadOk(s', j) {
      assert ThreadOk(s, j);
      if s.threads[j].SendWritten? && j != i {
        assert TicketOk(s, s.threads[j].t);
        OtherSlot(s, s.threads[j].t, u);
      }
    }
  }

  /** Thread i stores the number n into the slot of its ticket u, which goes on to phase p. */
  ghost predicate Stores(s: State, i: nat, u: nat, p: Phase, n: nat, s': State) {
    && Inv(s) && i < |s.threads| && Owns(s.threads[i]) && u == s.threads[i].t < s.tail <= u + |s.seqs|
    && s' == s.(threads := s'.threads, seqs := s.seqs[Place(s, u) := n], phase := s.phase[u := p])
    && |s'.threads| == |s.threads| && s'.threads == s.threads[i := s'.threads[i]] && s'.threads[i].Idle?
    && n == Number(s', u + |s.seqs|) >= s.seqs[Place(s, u)]
    && ((p == Full && s.phase[u] == Writing(i) && s.vals[Place(s, u)] == s.sent[u])
        || (p == Freed(s.sent[u]) && s.phase[u] == Taking(i)))
  }

  lemma StoreTickets(s: State, i: nat, u: nat, p: Phase, n: nat, s': State, t: nat)
    requires Stores(s, i, u, p, n, s') && t < s.tail
    ensures Sizes(s') && TicketOk(s', t)
  {
    assert TicketOk(s, t);
    assert TicketOk(s, u);
  }

  lemma StoreNumbers(s: State, i: nat, u: nat, p: Phase, n: nat, s': State, t: nat)
    requires Stores(s, i, u, p, n, s') && s.tail <= t < s.tail + |s.seqs|
    ensures Sizes(s') && NumberOk(s', t)
  {
    assert NumberOk(s, t);
    NextLap(s, u);
    if t != u + |s.seqs| { OtherSlot(s, t, u + |s.seqs|); }
  }

  lemma StoreThreads(s: State, i: nat, u: nat, p: Phase, n: nat, s': State, j: nat)
    requires Stores(s, i, u, p, n, s') && j < |s.threads|
    ensures Sizes(s') && |s'.threads| == |s.threads| && ThreadOk(s', j)
  {
    assert ThreadOk(s, j);
    assert forall k :: 0 <= k < |s.seqs| ==> s'.seqs[k] >= s.seqs[k];
  }

  lemma StoreInv(s: State, i: nat, u: nat, p: Phase, n: nat, s': State)
    requires Stores(s, i, u, p, n, s')
    ensures Inv(s')
  {
    forall t | 0 <= t < s'.tail ensures TicketOk(s', t) { StoreTickets(s, i, u, p, n, s', t); }
    forall t | s'.tail <= t < s'.tail + |s'.seqs| ensures NumberOk(s', t) { StoreNumbers(s, i, u, p, n, s', t); }
    forall j | 0 <= j < |s'.threads| ensures ThreadOk(s', j) { StoreThreads(s, i, u, p, n, s', j); }
  }

  /** The slot of an owned ticket carries the number of its phase. */
  lemma OwnNumber(s: State, i: nat)
    requires Inv(s) && i < |s.threads| && Owns(s.threads[i])
    ensures var t := s.threads[i].t;
      && t < s.tail <= t + |s.seqs|
      && s.seqs[Place(s, t)] == if s.phase[t].Writing? then t else t + 1
  {
    var t := s.threads[i].t;
    assert ThreadOk(s, i) && TicketOk(s, t);
    assert NumberOk(s, t + |s.seqs|);
    NextLap(s, t);
  }

  lemma PublishInv(s: State, i: nat)
    requires Inv(s) && i < |s.threads| && s.threads[i].SendWritten?
    ensures Inv(GoSend(s, i, false)) && GoSend(s, i, true) == GoSend(s, i, false)
  {
    var t := s.threads[i].t;
    OwnNumber(s, i);
    assert ThreadOk(s, i);
    StoreInv(s, i, t, Full, t + 1, GoSend(s, i, false));
  }

  /** At the compare-exchange of a consumer the value of its ticket is there. */
  lemma ValueIsThere(s: State, i: nat)
    requires Inv(s) && i < |s.threads| && s.threads[i].RecvReady? && s.threads[i].t == s.head
    ensures s.head < s.tail && s.phase[s.head] == Full && s.seqs[Place(s, s.head)] == s.head + 1
  {
    var t := s.head;
    assert ThreadOk(s, i) && NumberOk(s, s.tail);
    assert t < s.tail;
    assert TicketOk(s, t) && NumberOk(s, t + |s.seqs|);
    NextLap(s, t);
  }

  lemma ClaimRecvInv(s: State, i: nat)
    requires Inv(s) && i < |s.threads| && s.threads[i].RecvReady? && s.threads[i].t == s.head
    ensures Inv(GoRecv(s, i, false))
  {
    ValueIsThere(s, i);
    var s' := GoRecv(s, i, false);
    forall t | 0 <= t < s'.tail ensures TicketOk(s', t) { assert TicketOk(s, t); }
    forall t | s'.tail <= t < s'.tail + |s'.seqs| ensures NumberOk(s', t) { assert NumberOk(s, t); }
    forall j | 0 <= j < |s'.threads| ensures ThreadOk(s', j) { assert ThreadOk(s, j); }
  }

  lemma ReadInv(s: State, i: nat)
    requires Inv(s) && i < |s.threads| && s.threads[i].RecvClaimed?
    ensures Inv(GoRecv(s, i, false)) && GoRecv(s, i, true) == GoRecv(s, i, false)
  {
    var s' := GoRecv(s, i, false);
    assert ThreadOk(s, i) && TicketOk(s, s.threads[i].t);
    forall t | 0 <= t < s'.tail ensures TicketOk(s', t) { assert TicketOk(s, t); }
    forall t | s'.tail <= t < s'.tail + |s'.seqs| ensures NumberOk(s', t) { assert NumberOk(s, t); }
    forall j | 0 <= j < |s'.threads| ensures ThreadOk(s', j) { assert ThreadOk(s, j); }
  }

  lemma RecycleInv(s: State, i: nat)
    requires Inv(s) && i < |s.threads| && s.threads[i].RecvRead?
    ensures Inv(GoRecv(s, i, false)) && GoRecv(s, i, true) == GoRecv(s, i, false)
  {
    var v, t := s.threads[i].v, s.threads[i].t;
    OwnNumber(s, i);
    assert ThreadOk(s, i);
    StoreInv(s, i, t, Freed(v), t + |s.seqs|, GoRecv(s, i, false));
  }

  lemma GoSendInv(s: State, i: nat, spurious: bool)
    requires Inv(s) && i < |s.threads| && !s.threads[i].Idle? && !Receives(s.threads[i])
    ensures Inv(GoSend(s, i, spurious))
  {
    assert ThreadOk(s, i);
    match s.threads[i]
    case SendStart(v) => MoveInv(s, i, SendLoaded(v, s.tail));
    case SendLoaded(v, t) =>
      var seen := s.seqs[Place(s, t)];
      MoveInv(s, i, if seen == t then SendReady(v, t) else if seen < t then Idle(Refused(v)) else SendStart(v));
    case SendReady(v, t) =>
      if s.tail == t && !spurious { ClaimSendInv(s, i); } else { MoveInv(s, i, SendLoaded(v, s.tail)); }
    case SendClaimed(v, t) => WriteInv(s, i);
    case SendWritten(v, t) => PublishInv(s, i);
  }

  lemma GoRecvInv(s: State, i: nat, spurious: bool)
    requires Inv(s) && i < |s.threads| && Receives(s.threads[i])
    ensures Inv(GoRecv(s, i, spurious))
  {
    assert ThreadOk(s, i);
    match s.threads[i]
    case RecvStart => MoveInv(s, i, RecvLoaded(s.head));
    case RecvLoaded(t) =>
      var seen := s.seqs[Place(s, t)];
      MoveInv(s, i, if seen == t + 1 then RecvReady(t) else if seen < t + 1 then Idle(FoundNone) else RecvStart);
    case RecvReady(t) =>
      if s.head == t && !spurious { ClaimRecvInv(s, i); } else { MoveInv(s, i, RecvLoaded(s.head)); }
    case RecvClaimed(t) => ReadInv(s, i);
    case RecvRead(v, t) => RecycleInv(s, i);
  }

  lemma StepInv(s: State, a: Action)
    requires Inv(s) && Enabled(s, a)
    ensures Inv(Step(s, a))
  {
    match a
    case CallSend(i, v) => MoveInv(s, i, SendStart(v));
    case CallRecv(i) => MoveInv(s, i, RecvStart);
    case Go(i, spurious) =>
      if Receives(s.threads[i]) { GoRecvInv(s, i, spurious); } else { GoSendInv(s, i, spurious); }
  }

  // ─── every run is a run of a bounded queue ──────────────────────────

  /** What the ring holds: the values of the tickets that producers have claimed and consumers have
      not. */
  function Queue(s: State): seq<Val>
    requires Sizes(s)
  {
    s.sent[s.head..s.tail]
  }

  /** A call begins; a compare-exchange is won. */
  datatype Event = Called(i: nat) | Put(i: nat, v: Val) | Get(i: nat, v: Val)

  function EventsOf(s: State, a: Action): seq<Event>
    requires Inv(s) && Enabled(s, a)
  {
    match a
    case CallSend(i, v) => [Called(i)]
    case CallRecv(i) => [Called(i)]
    case Go(i, spurious) =>
      var th := s.threads[i];
      if th.SendReady? && s.tail == th.t && !spurious then [Put(i, th.v)]
      else if th.RecvReady? && s.head == th.t && !spurious && s.head < s.tail then [Get(i, s.sent[s.head])]
      else []
  }

  /** A queue of bounded capacity, one event after the other. */
  predicate QueueRun(q: seq<Val>, evs: seq<Event>, q': seq<Val>, cap: nat)
    decreases |evs|
  {
    if evs == [] then q == q'
    else match evs[0]
      case Called(_) => QueueRun(q, evs[1..], q', cap)
      case Put(_, v) => |q| < cap && QueueRun(q + [v], evs[1..], q', cap)
      case Get(_, v) => q != [] && q[0] == v && QueueRun(q[1..], evs[1..], q', cap)
  }

  lemma {:induction false} QueueRunAppend(q: seq<Val>, es: seq<Event>, m: seq<Val>, fs: seq<Event>, q': seq<Val>,
                                          cap: nat)
    requires QueueRun(q, es, m, cap) && QueueRun(m, fs, q', cap)
    ensures QueueRun(q, es + fs, q', cap)
    decreases |es|
  {
    if es == [] {
      assert es + fs == fs;
    } else {
      assert (es + fs)[0] == es[0] && (es + fs)[1..] == es[1..] + fs;
      var next := match es[0] case Called(_) => q case Put(_, v) => q + [v] case Get(_, v) => q[1..];
      QueueRunAppend(next, es[1..], m, fs, q', cap);
    }
  }

  lemma StepQueues(s: State, a: Action)
    requires Inv(s) && Enabled(s, a)
    ensures Inv(Step(s, a)) && |Step(s, a).seqs| == |s.seqs|
    ensures QueueRun(Queue(s), EventsOf(s, a), Queue(Step(s, a)), |s.seqs|)
  {
    StepInv(s, a);
    if a.Go? && !a.spurious && s.threads[a.i].SendReady? && s.tail == s.threads[a.i].t {
      PutQueues(s, a.i);
    } else if a.Go? && !a.spurious && s.threads[a.i].RecvReady? && s.head == s.threads[a.i].t {
      GetQueues(s, a.i);
    } else {
      QuietStep(s, a);
    }
  }

  lemma PutQueues(s: State, i: nat)
    requires Inv(s) && i < |s.threads| && s.threads[i].SendReady? && s.tail == s.threads[i].t
    ensures var s' := GoSend(s, i, false);
      && Sizes(s') && |s'.seqs| == |s.seqs|
      && QueueRun(Queue(s), [Put(i, s.threads[i].v)], Queue(s'), |s.seqs|)
  {
    SlotIsFree(s, i);
    assert Queue(GoSend(s, i, false)) == Queue(s) + [s.threads[i].v];
  }

  lemma GetQueues(s: State, i: nat)
    requires Inv(s) && i < |s.threads| && s.threads[i].RecvReady? && s.head == s.threads[i].t
    ensures var s' := GoRecv(s, i, false);
      && s.head < s.tail && Sizes(s') && |s'.seqs| == |s.seqs|
      && QueueRun(Queue(s), [Get(i, s.sent[s.head])], Queue(s'), |s.seqs|)
  {
    ValueIsThere(s, i);
    assert Queue(GoRecv(s, i, false)) == Queue(s)[1..];
  }

  /** Every other step leaves the indices alone. */
  lemma QuietStep(s: State, a: Action)
    requires Inv(s) && Enabled(s, a)
    requires !(a.Go? && !a.spurious && s.threads[a.i].SendReady? && s.tail == s.threads[a.i].t)
    requires !(a.Go? && !a.spurious && s.threads[a.i].RecvReady? && s.head == s.threads[a.i].t)
    ensures var s' := Step(s, a);
      s'.head == s.head && s'.tail == s.tail && s'.sent == s.sent && |s'.seqs| == |s.seqs|
  {
  }

  predicate CanRun(s: State, acts: seq<Action>)
    decreases |acts|
  {
    acts == [] || (Enabled(s, acts[0]) && CanRun(Step(s, acts[0]), acts[1..]))
  }

  function Run(s: State, acts: seq<Action>): State
    requires CanRun(s, acts)
    decreases |acts|
  {
    if acts == [] then s else Run(Step(s, acts[0]), acts[1..])
  }

  ghost function Trace(s: State, acts: seq<Action>): seq<Event>
    requires Inv(s) && CanRun(s, acts)
    decreases |acts|
  {
    if acts == [] then [] else
      StepInv(s, acts[0]);
      EventsOf(s, acts[0]) + Trace(Step(s, acts[0]), acts[1..])
  }

  /** Whatever the number of threads and the schedule, the won compare-exchanges are the puts and gets
      of a first-in first-out queue that never holds more than the capacity: nothing is lost,
      duplicated, overwritten or reordered. */
  lemma {:induction false} RunIsQueueRun(s: State, acts: seq<Action>)
    requires Inv(s) && CanRun(s, acts)
    ensures var r := Run(s, acts);
      && Inv(r) && |r.seqs| == |s.seqs|
      && QueueRun(Queue(s), Trace(s, acts), Queue(r), |s.seqs|)
    decreases |acts|
  {
    if acts == [] {
    } else {
      var m := Step(s, acts[0]);
      StepQueues(s, acts[0]);
      RunIsQueueRun(m, acts[1..]);
      QueueRunAppend(Queue(s), EventsOf(s, acts[0]), Queue(m), Trace(m, acts[1..]), Queue(Run(s, acts)), |s.seqs|);
    }
  }

  // ─── what a call returns ────────────────────────────────────────────

  /** The last event of thread i, given the last one before. */
  function After(last: Event, evs: seq<Event>, i: nat): Event
    decreases |evs|
  {
    if evs == [] then last else After(if evs[0].i == i then evs[0] else last, evs[1..], i)
  }

  /** The thread's state and its last event: a call that has not won a ticket has done nothing but
      begin, and a call that has won one returns what that event says. */
  predicate Matches(s: State, i: nat, last: Event)
    requires Sizes(s) && i < |s.threads|
  {
    match s.threads[i]
    case Idle(Nothing) => true
    case Idle(Accepted(v)) => last == Put(i, v)
    case Idle(Received(v)) => last == Get(i, v)
    case SendClaimed(v, t) => last == Put(i, v)
    case SendWritten(v, t) => last == Put(i, v)
    case RecvClaimed(t) => t < s.tail && last == Get(i, s.sent[t])
    case RecvRead(v, t) => last == Get(i, v)
    case _ => last == Called(i)
  }

  lemma OneEvent(last: Event, evs: seq<Event>, i: nat)
    requires |evs| <= 1
    ensures After(last, evs, i) == if evs != [] && evs[0].i == i then evs[0] else last
  {
  }

  /** The steps of other threads do not touch thread i. */
  lemma OthersKeep(s: State, a: Action, i: nat)
    requires Inv(s) && Enabled(s, a) && i < |s.threads| && a.i != i
    ensures var s' := Step(s, a); |s'.threads| == |s.threads| && s'.threads[i] == s.threads[i] && s.sent <= s'.sent
  {
    if a.Go? && Receives(s.threads[a.i]) {
      assert GoRecv(s, a.i, a.spurious).sent == s.sent;
    }
  }

  lemma StepMatches(s: State, a: Action, i: nat, last: Event)
    requires Inv(s) && Enabled(s, a) && i < |s.threads| && Matches(s, i, last)
    ensures Sizes(Step(s, a)) && |Step(s, a).threads| == |s.threads|
    ensures Matches(Step(s, a), i, After(last, EventsOf(s, a), i))
  {
    StepInv(s, a);
    OneEvent(last, EventsOf(s, a), i);
    if a.i != i {
      OthersKeep(s, a, i);
    } else if a.Go? && Receives(s.threads[i]) {
      RecvMatches(s, i, a.spurious, last);
    } else if a.Go? {
      SendMatches(s, i, a.spurious, last);
    }
  }

  lemma SendMatches(s: State, i: nat, spurious: bool, last: Event)
    requires Inv(s) && Enabled(s, Go(i, spurious)) && !Receives(s.threads[i]) && Matches(s, i, last)
    ensures var s', evs := GoSend(s, i, spurious), EventsOf(s, Go(i, spurious));
      && Inv(s') && |s'.threads| == |s.threads|
      && Matches(s', i, if evs == [] then last else evs[0])
  {
    GoSendInv(s, i, spurious);
  }

  lemma RecvMatches(s: State, i: nat, spurious: bool, last: Event)
    requires Inv(s) && Enabled(s, Go(i, spurious)) && Receives(s.threads[i]) && Matches(s, i, last)
    ensures var s', evs := GoRecv(s, i, spurious), EventsOf(s, Go(i, spurious));
      && Inv(s') && |s'.threads| == |s.threads|
      && Matches(s', i, if evs == [] then last else evs[0])
  {
    GoRecvInv(s, i, spurious);
    assert ThreadOk(s, i);
    var th := s.threads[i];
    if th.RecvClaimed? { assert TicketOk(s, th.t); }
    if th.RecvReady? && th.t == s.head { ValueIsThere(s, i); }
  }

  lemma {:induction false} AfterAppend(last: Event, es: seq<Event>, fs: seq<Event>, i: nat)
    ensures After(last, es + fs, i) == After(After(last, es, i), fs, i)
    decreases |es|
  {
    if es == [] {
      assert es + fs == fs;
    } else {
      assert (es + fs)[0] == es[0] && (es + fs)[1..] == es[1..] + fs;
      AfterAppend(if es[0].i == i then es[0] else last, es[1..], fs, i);
    }
  }

  /** In every run: a `try_send` returns Ok exactly when its value was put, a `try_recv` returns
      exactly the value it got, and a call that returns without one has changed nothing.  The event
      falls between the beginning and the end of the call, because it is one of the call's steps. */
  lemma {:induction false} RunMatches(s: State, acts: seq<Action>, i: nat, last: Event)
    requires Inv(s) && CanRun(s, acts) && i < |s.threads| && Matches(s, i, last)
    ensures var r := Run(s, acts);
      && Sizes(r) && i < |r.threads| && Matches(r, i, After(last, Trace(s, acts), i))
    decreases |acts|
  {
    if acts == [] {
    } else {
      StepInv(s, acts[0]);
      StepMatches(s, acts[0], i, last);
      var m, mid := Step(s, acts[0]), After(last, EventsOf(s, acts[0]), i);
      RunMatches(m, acts[1..], i, mid);
      AfterAppend(last, EventsOf(s, acts[0]), Trace(m, acts[1..]), i);
    }
  }

  // ─── when a refusal is right ────────────────────────────────────────

  /** A producer is refused only on the ticket after the last one claimed; the queue is full then, if
      and only if no consumer is between claiming and freeing the slot the producer looks at. */
  lemma RefusedIffFull(s: State, i: nat)
    requires Inv(s) && i < |s.threads| && s.threads[i].SendLoaded?
    requires GoSend(s, i, false).threads[i] == Idle(Refused(s.threads[i].v))
    ensures s.threads[i].t == s.tail >= |s.seqs|
    ensures |Queue(s)| == |s.seqs| <==> !s.phase[s.tail - |s.seqs|].Taking?
  {
    var t := s.threads[i].t;
    assert ThreadOk(s, i);
    assert NumberOk(s, s.tail);
    if s.tail >= |s.seqs| { assert TicketOk(s, s.tail - |s.seqs|); }
  }

  /** A consumer finds nothing only on the ticket at the head; the queue is empty then, if and only if
      no producer is between claiming and publishing that ticket. */
  lemma NoneIffEmpty(s: State, i: nat)
    requires Inv(s) && i < |s.threads| && s.threads[i].RecvLoaded?
    requires GoRecv(s, i, false).threads[i] == Idle(FoundNone)
    ensures s.threads[i].t == s.head
    ensures Queue(s) == [] <==> !(s.head < s.tail && s.phase[s.head].Writing?)
  {
    var t := s.threads[i].t;
    assert ThreadOk(s, i);
    if t < s.tail {
      assert TicketOk(s, t);
      assert NumberOk(s, t + |s.seqs|);
      NextLap(s, t);
    }
  }

  // ─── a refusal that no order of the calls explains ──────────────────

  ghost predicate Reaches(s: State, r: State) {
    exists acts :: CanRun(s, acts) && Run(s, acts) == r
  }

  lemma {:induction false} RunSnoc(s: State, acts: seq<Action>, a: Action)
    requires CanRun(s, acts) && Enabled(Run(s, acts), a)
    ensures CanRun(s, acts + [a]) && Run(s, acts + [a]) == Step(Run(s, acts), a)
    decreases |acts|
  {
    if acts == [] {
      assert acts + [a] == [a];
    } else {
      assert (acts + [a])[0] == acts[0] && (acts + [a])[1..] == acts[1..] + [a];
      RunSnoc(Step(s, acts[0]), acts[1..], a);
    }
  }

  lemma ReachesStep(s: State, m: State, a: Action)
    requires Reaches(s, m) && Enabled(m, a)
    ensures Reaches(s, Step(m, a))
  {
    var acts :| CanRun(s, acts) && Run(s, acts) == m;
    RunSnoc(s, acts, a);
  }

  /** The first half of a call of `try_send`, up to the won compare-exchange. */
  lemma SendClaims(s: State, m: State, i: nat, v: Val) returns (r: State)
    requires Reaches(s, m) && |m.seqs| == |m.vals| > 0 && |m.phase| == m.tail
    requires i < |m.threads| && m.threads[i].Idle? && m.seqs[Place(m, m.tail)] == m.tail
    ensures Reaches(s, r)
    ensures r == m.(tail := m.tail + 1, threads := m.threads[i := SendClaimed(v, m.tail)],
                    sent := m.sent + [v], phase := m.phase + [Writing(i)])
  {
    var t := m.tail;
    ReachesStep(s, m, CallSend(i, v));
    var m1 := Move(m, i, SendStart(v));
    ReachesStep(s, m1, Go(i, false));
    var m2 := Move(m, i, SendLoaded(v, t));
    assert Step(m1, Go(i, false)) == m2;
    ReachesStep(s, m2, Go(i, false));
    var m3 := Move(m, i, SendReady(v, t));
    assert Step(m2, Go(i, false)) == m3;
    ReachesStep(s, m3, Go(i, false));
    r := Step(m3, Go(i, false));
    assert r.threads == m.threads[i := SendClaimed(v, t)];
  }

  /** The second half of a call of `try_send`, after the won compare-exchange. */
  lemma SendReturns(s: State, m: State, i: nat, v: Val, t: nat) returns (r: State)
    requires Reaches(s, m) && |m.seqs| == |m.vals| > 0 && t < |m.phase|
    requires i < |m.threads| && m.threads[i] == SendClaimed(v, t)
    ensures Reaches(s, r)
    ensures r == m.(seqs := m.seqs[Place(m, t) := t + 1], vals := m.vals[Place(m, t) := v],
                    threads := m.threads[i := Idle(Accepted(v))], phase := m.phase[t := Full])
  {
    ReachesStep(s, m, Go(i, false));
    var m1 := Step(m, Go(i, false));
    ReachesStep(s, m1, Go(i, false));
    r := Step(m1, Go(i, false));
    assert r.threads == m.threads[i := Idle(Accepted(v))];
  }

  /** A call of `try_send` that nobody disturbs, on a free slot. */
  lemma SendAlone(s: State, m: State, i: nat, v: Val) returns (r: State)
    requires Reaches(s, m) && |m.seqs| == |m.vals| > 0 && |m.phase| == m.tail
    requires i < |m.threads| && m.threads[i].Idle? && m.seqs[Place(m, m.tail)] == m.tail
    ensures Reaches(s, r)
    ensures r == State(m.head, m.tail + 1, m.seqs[Place(m, m.tail) := m.tail + 1], m.vals[Place(m, m.tail) := v],
                       m.threads[i := Idle(Accepted(v))], m.sent + [v], m.phase + [Full])
  {
    var m1 := SendClaims(s, m, i, v);
    r := SendReturns(s, m1, i, v, m.tail);
    assert r.threads == m.threads[i := Idle(Accepted(v))];
    assert r.phase == m.phase + [Full];
  }

  /** The first half of a call of `try_recv`, up to the won compare-exchange. */
  lemma RecvClaims(s: State, m: State, i: nat) returns (r: State)
    requires Reaches(s, m) && |m.seqs| == |m.vals| > 0 && m.head < |m.phase|
    requires i < |m.threads| && m.threads[i].Idle? && m.seqs[Place(m, m.head)] == m.head + 1
    ensures Reaches(s, r)
    ensures r == m.(head := m.head + 1, threads := m.threads[i := RecvClaimed(m.head)],
                    phase := m.phase[m.head := Taking(i)])
  {
    var t := m.head;
    ReachesStep(s, m, CallRecv(i));
    var m1 := Move(m, i, RecvStart);
    ReachesStep(s, m1, Go(i, false));
    var m2 := Move(m, i, RecvLoaded(t));
    assert Step(m1, Go(i, false)) == m2;
    ReachesStep(s, m2, Go(i, false));
    var m3 := Move(m, i, RecvReady(t));
    assert Step(m2, Go(i, false)) == m3;
    ReachesStep(s, m3, Go(i, false));
    r := Step(m3, Go(i, false));
    assert r.threads == m.threads[i := RecvClaimed(t)];
  }

  /** The rest of it. */
  lemma RecvReturns(s: State, m: State, i: nat, t: nat) returns (r: State)
    requires Reaches(s, m) && |m.seqs| == |m.vals| > 0 && t < |m.phase|
    requires i < |m.threads| && m.threads[i] == RecvClaimed(t)
    ensures Reaches(s, r)
    ensures var v := m.vals[Place(m, t)];
      r == m.(seqs := m.seqs[Place(m, t) := t + |m.seqs|], threads := m.threads[i := Idle(Received(v))],
              phase := m.phase[t := Freed(v)])
  {
    ReachesStep(s, m, Go(i, false));
    var m1 := Step(m, Go(i, false));
    ReachesStep(s, m1, Go(i, false));
    r := Step(m1, Go(i, false));
    assert r.threads == m.threads[i := Idle(Received(m.vals[Place(m, t)]))];
  }

  lemma TwoSent(s: State, x: Val, y: Val) returns (r: State)
    requires Init(s) && |s.seqs| == 2 && |s.threads| == 3
    ensures Reaches(s, r)
    ensures r == State(0, 2, [1, 2], [x, y], [Idle(Accepted(y)), Idle(Nothing), Idle(Nothing)], [x, y], [Full, Full])
  {
    assert CanRun(s, []) && Run(s, []) == s;
    var a := SendAlone(s, s, 0, x);
    r := SendAlone(s, a, 0, y);
  }

  lemma BothTaken(s: State, m: State, x: Val, y: Val) returns (r: State)
    requires Reaches(s, m)
    requires m == State(0, 2, [1, 2], [x, y], [Idle(Accepted(y)), Idle(Nothing), Idle(Nothing)], [x, y], [Full, Full])
    ensures Reaches(s, r)
    ensures r == State(2, 2, [1, 3], [x, y], [Idle(Accepted(y)), RecvClaimed(0), Idle(Received(y))], [x, y],
                       [Taking(1), Freed(y)])
  {
    var c := RecvClaims(s, m, 1);
    var d := RecvClaims(s, c, 2);
    r := RecvReturns(s, d, 2, 1);
  }

  /** A run of a two-slot ring and three threads in which every value sent has been taken from the
      queue, the second one by a call that has returned, and a send is refused as if the ring were
      full: a consumer that has claimed the first ticket has stopped before freeing its slot. */
  lemma RefusedWhileEmpty(s: State, x: Val, y: Val, z: Val) returns (r: State)
    requires Init(s) && |s.seqs| == 2 && |s.threads| == 3
    ensures Reaches(s, r) && Sizes(r) && Queue(r) == [] && r.sent == [x, y] && |r.threads| == 3
    ensures r.threads[0] == Idle(Refused(z)) && r.threads[2] == Idle(Received(y))
  {
    var m := TwoSent(s, x, y);
    var e := BothTaken(s, m, x, y);
    ReachesStep(s, e, CallSend(0, z));
    var f := Move(e, 0, SendStart(z));
    ReachesStep(s, f, Go(0, false));
    var g := Move(e, 0, SendLoaded(z, 2));
    assert Step(f, Go(0, false)) == g;
    ReachesStep(s, g, Go(0, false));
    r := Step(g, Go(0, false));
  }

  /** The same on the other side: a send has returned, nothing has been received, and a receive finds
      nothing, because the producer of the ticket before has stopped between claiming and
      publishing. */
  lemma NoneWhileFilled(s: State, x: Val, y: Val) returns (r: State)
    requires Init(s) && |s.seqs| == 2 && |s.threads| == 3
    ensures Reaches(s, r) && Sizes(r) && Queue(r) == [x, y] && |r.threads| == 3
    ensures r.threads[1] == Idle(Accepted(y)) && r.threads[2] == Idle(FoundNone)
  {
    assert CanRun(s, []) && Run(s, []) == s;
    var a := SendClaims(s, s, 0, x);
    var e := SendAlone(s, a, 1, y);
    ReachesStep(s, e, CallRecv(2));
    var f := Move(e, 2, RecvStart);
    ReachesStep(s, f, Go(2, false));
    var g := Move(e, 2, RecvLoaded(0));
    assert Step(f, Go(2, false)) == g;
    ReachesStep(s, g, Go(2, false));
    r := Step(g, Go(2, false));
  }

  /** All runs of a fresh ring of at least two slots: the puts and gets are those of a bounded
      first-in first-out queue, and every call returns what its own put or get says. */
  lemma RingRuns(s: State, acts: seq<Action>, i: nat)
    requires Init(s) && |s.seqs| >= 2 && CanRun(s, acts) && i < |s.threads|
    ensures Inv(s)
    ensures var r, evs := Run(s, acts), Trace(s, acts);
      && Sizes(r) && QueueRun([], evs, Queue(r), |s.seqs|)
      && i < |r.threads| && Matches(r, i, After(Called(i), evs, i))
  {
    InitInv(s);
    RunIsQueueRun(s, acts);
    RunMatches(s, acts, i, Called(i));
    assert Queue(s) == [];
  }
}
