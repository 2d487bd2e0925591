/** Channels and `select!`: the state machine of src/gochan.rs and src/select_macro.rs.

    One step is one critical section with at most one successful claim: everything a goroutine
    does while it holds the locks of the channels it names (a whole `Send` or `Recv`, pass 1 and
    pass 2 of a `select!`), or one `__cancel_*` call of pass 3.  A `Close` claims many waiters
    under one lock, and wakers on other channels claim in between: it is a step that marks the
    channel, one step per queue entry, and a step that gives the lock back.  Goroutines are
    interleaved arbitrarily between those steps.  Which operation a goroutine issues next is not
    fixed here: the machine runs every program. */
module Channels {

  import opened Bytes

  /** The element type.  `T::default()` is 0. */
  type Val = int

  /** `chan::nil()` or a handle on an allocated channel. */
  datatype Chan = Nil | Ref(id: nat)

  /** One arm of a `select!`; a plain `Send` or `Recv` is a single arm. */
  datatype Case = Send(ch: Chan, v: Val) | Recv(ch: Chan)

  /** The part of a wait-list entry that its owner and its waker share. */
  datatype Sudog = Sudog(value: Option<Val>, success: bool)

  /** A queue entry: the sudog of case `i` of goroutine `g`. */
  datatype Waiter = Waiter(g: nat, i: nat)

  /** A `Close` under way: the goroutine that holds the lock, the queue it walks, its cursor. */
  datatype Closer = Closer(g: nat, send: bool, k: nat)

  datatype Hchan = Hchan(cap: nat, closed: bool, buf: seq<Val>, sendq: seq<Waiter>, recvq: seq<Waiter>,
                         closer: Option<Closer>)

  /** What a waker did to a parked goroutine.  `Some(_)` is `SelectCoord.done`; the fields
      are a record for the proofs that no step reads: a woken `select!` has to find
      its winner by cancelling. */
  datatype Claim = Claim(i: nat, v: Val, ok: bool)

  /** What the last finished operation of a goroutine returned. */
  datatype Outcome = Nothing | Fired(i: nat, v: Val, ok: bool) | DefaultTaken | DidClose

  datatype Goroutine =
    | Ready(last: Outcome)
    | Parked(sel: bool, cases: seq<Case>, sudogs: seq<Sudog>, claim: Option<Claim>)
    | Waking(cases: seq<Case>, sudogs: seq<Sudog>, claim: Option<Claim>, winners: seq<bool>)

  /** `fatal`: the process exited as Go prescribes (send on a closed channel, close of a
      closed or nil channel).  `panicked`: an internal `expect` or sanity check failed. */
  datatype State = State(chans: seq<Hchan>, gs: seq<Goroutine>, fatal: bool, panicked: bool)

  datatype Op =
    | Plain(arm: Case)
    | Select(cases: seq<Case>, hasDefault: bool)
    | Close(ch: Chan)

  datatype Action =
    | Issue(g: nat, op: Op, order: seq<nat>)
    | Unpark(g: nat)
    | Cancel(g: nat)
    | Dispatch(g: nat)
    | Sweep(g: nat, c: nat)

  // ─── helpers on queues and goroutines ───────────────────────────────

  /** `try_claim_sudog`: a plain sudog is always claimed, a select sudog only while
      `done` is still false. */
  predicate CanClaim(gs: seq<Goroutine>, w: Waiter) {
    w.g < |gs| &&
    match gs[w.g]
    case Ready(_) => false
    case Parked(sel, _, _, claim) => !sel || claim.None?
    case Waking(_, _, _, _) => false
  }

  /** The scan from the head: the first entry that can be claimed, or `|q|`. */
  function FirstLive(gs: seq<Goroutine>, q: seq<Waiter>, k: nat): (n: nat)
    requires k <= |q|
    ensures k <= n <= |q|
    ensures n < |q| ==> CanClaim(gs, q[n])
    ensures forall j :: k <= j < n ==> !CanClaim(gs, q[j])
    decreases |q| - k
  {
    if k == |q| then k else if CanClaim(gs, q[k]) then k else FirstLive(gs, q, k + 1)
  }

  /** The write a waker makes into the entry it claimed. */
  function Wake(gs: seq<Goroutine>, w: Waiter, sg: Sudog, claim: Claim): (r: seq<Goroutine>)
    ensures |r| == |gs|
  {
    if w.g < |gs| && gs[w.g].Parked? && w.i < |gs[w.g].sudogs| then
      gs[w.g := Parked(gs[w.g].sel, gs[w.g].cases, gs[w.g].sudogs[w.i := sg], Some(claim))]
    else
      gs
  }

  function SudogOf(gs: seq<Goroutine>, w: Waiter): Sudog {
    if w.g < |gs| && gs[w.g].Parked? && w.i < |gs[w.g].sudogs| then gs[w.g].sudogs[w.i] else Sudog(None, false)
  }

  // ─── __try_recv_locked, __try_send_locked ───────────────────────────

  datatype Attempt = Blocks | Dies | Fires(s: State, v: Val, ok: bool)

  function TryRecv(s: State, c: nat): (r: Attempt)
    requires c < |s.chans|
  {
    var ch := s.chans[c];
    if ch.closed && ch.buf == [] then Fires(s, 0, false)
    else
      var k := FirstLive(s.gs, ch.sendq, 0);
      if k < |ch.sendq| then RecvFromSender(s, c, k)
      else if ch.buf != [] then
        Fires(s.(chans := s.chans[c := ch.(buf := ch.buf[1..])]), ch.buf[0], true)
      else Blocks
  }

  /** A parked sender was claimed: take its value, rotating the buffer if there is one. */
  function RecvFromSender(s: State, c: nat, k: nat): (r: Attempt)
    requires c < |s.chans| && k < |s.chans[c].sendq|
  {
    var ch := s.chans[c];
    var w := ch.sendq[k];
    var sg := SudogOf(s.gs, w);
    if sg.value.None? || (ch.cap > 0 && (ch.buf == [] || |ch.buf| > ch.cap)) then
      Fires(s.(panicked := true), 0, true)
    else
      var sv := sg.value.value;
      var v := if ch.cap == 0 then sv else ch.buf[0];
      var buf := if ch.cap == 0 then ch.buf else ch.buf[1..] + [sv];
      Fires(s.(chans := s.chans[c := ch.(buf := buf, sendq := RemoveAt(ch.sendq, k))],
               gs := Wake(s.gs, w, Sudog(None, true), Claim(w.i, sv, true))), v, true)
  }

  function TrySend(s: State, c: nat, v: Val): (r: Attempt)
    requires c < |s.chans|
  {
    var ch := s.chans[c];
    if ch.closed then Dies
    else
      var k := FirstLive(s.gs, ch.recvq, 0);
      if k < |ch.recvq| then
        var w := ch.recvq[k];
        Fires(s.(chans := s.chans[c := ch.(recvq := RemoveAt(ch.recvq, k))],
                 gs := Wake(s.gs, w, Sudog(Some(v), true), Claim(w.i, v, true))), v, true)
      else if |ch.buf| < ch.cap then
        Fires(s.(chans := s.chans[c := ch.(buf := ch.buf + [v])]), v, true)
      else Blocks
  }

  /** The case names a channel that exists and whose lock can be taken. */
  predicate ValidCase(s: State, cs: Case) {
    cs.ch.Nil? || (cs.ch.id < |s.chans| && s.chans[cs.ch.id].closer.None?)
  }

  function Try(s: State, cs: Case): Attempt
    requires ValidCase(s, cs)
  {
    match cs
    case Send(Nil, _) => Blocks
    case Recv(Nil) => Blocks
    case Send(Ref(c), v) => TrySend(s, c, v)
    case Recv(Ref(c)) => TryRecv(s, c)
  }

  // ─── pass 1: poll the cases in a shuffled order ─────────────────────

  predicate ValidCases(s: State, cases: seq<Case>) {
    forall i :: 0 <= i < |cases| ==> ValidCase(s, cases[i])
  }

  predicate IsOrder(order: seq<nat>, n: nat) {
    && |order| == n
    && (forall j :: 0 <= j < n ==> order[j] < n)
    && (forall i :: 0 <= i < n ==> i in order)
  }

  /** The position in `order` of the first case that does not block, or `|order|`. */
  function Pass1(s: State, cases: seq<Case>, order: seq<nat>, k: nat): (n: nat)
    requires ValidCases(s, cases) && k <= |order|
    requires forall j :: 0 <= j < |order| ==> order[j] < |cases|
    ensures k <= n <= |order|
    ensures n < |order| ==> !Try(s, cases[order[n]]).Blocks?
    ensures forall j :: k <= j < n ==> Try(s, cases[order[j]]).Blocks?
    decreases |order| - k
  {
    if k == |order| then k
    else if !Try(s, cases[order[k]]).Blocks? then k
    else Pass1(s, cases, order, k + 1)
  }

  // ─── pass 2: register one sudog per non-nil case, then park ─────────

  function NewSudog(cs: Case): Sudog {
    match cs
    case Send(_, v) => Sudog(Some(v), false)
    case Recv(_) => Sudog(None, false)
  }

  function RegisterCase(chans: seq<Hchan>, w: Waiter, cs: Case): (r: seq<Hchan>)
    ensures |r| == |chans|
  {
    if cs.ch.Nil? || cs.ch.id >= |chans| then chans
    else
      var c := cs.ch.id;
      if cs.Send? then chans[c := chans[c].(sendq := chans[c].sendq + [w])]
      else chans[c := chans[c].(recvq := chans[c].recvq + [w])]
  }

  /** Registers the first `n` cases of goroutine `g`. */
  function Register(chans: seq<Hchan>, g: nat, cases: seq<Case>, n: nat): (r: seq<Hchan>)
    requires n <= |cases|
    ensures |r| == |chans|
  {
    if n == 0 then chans
    else RegisterCase(Register(chans, g, cases, n - 1), Waiter(g, n - 1), cases[n - 1])
  }

  function Park(s: State, g: nat, sel: bool, cases: seq<Case>): State
    requires g < |s.gs|
  {
    s.(chans := Register(s.chans, g, cases, |cases|),
       gs := s.gs[g := Parked(sel, cases, seq(|cases|, i requires 0 <= i < |cases| => NewSudog(cases[i])), None)])
  }

  // ─── Close ──────────────────────────────────────────────────────────

  function QueueOf(ch: Hchan, send: bool): seq<Waiter> {
    if send then ch.sendq else ch.recvq
  }

  function WithQueue(ch: Hchan, send: bool, q: seq<Waiter>): Hchan {
    if send then ch.(sendq := q) else ch.(recvq := q)
  }

  /** `Close` takes the lock, marks the channel and starts at the head of `recvq`. */
  function MarkClosed(s: State, c: nat, g: nat): State
    requires c < |s.chans|
  {
    s.(chans := s.chans[c := s.chans[c].(closed := true, closer := Some(Closer(g, false, 0)))])
  }

  /** One claim of `Close`: a receiver leaves with (zero, false), a sender wakes with
      `success == false`. */
  function WakeClosed(s: State, c: nat, send: bool, k: nat): State
    requires c < |s.chans| && k < |QueueOf(s.chans[c], send)|
  {
    var q := QueueOf(s.chans[c], send);
    var sg := if send then SudogOf(s.gs, q[k]).(success := false) else Sudog(None, false);
    s.(chans := s.chans[c := WithQueue(s.chans[c], send, RemoveAt(q, k))],
       gs := Wake(s.gs, q[k], sg, Claim(q[k].i, 0, false)))
  }

  function SetCloser(s: State, c: nat, x: Option<Closer>): State
    requires c < |s.chans|
  {
    s.(chans := s.chans[c := s.chans[c].(closer := x)])
  }

  /** The cursor loops over `recvq` and then `sendq`, one entry at a time: an entry that can be
      claimed is woken and leaves, a stale one stays for its owner to cancel.  At the end of
      `sendq` the lock is given back. */
  function DoSweep(s: State, c: nat): State
    requires c < |s.chans| && s.chans[c].closer.Some?
  {
    var x := s.chans[c].closer.value;
    var q := QueueOf(s.chans[c], x.send);
    if x.k < |q| && CanClaim(s.gs, q[x.k]) then WakeClosed(s, c, x.send, x.k)
    else if x.k < |q| then SetCloser(s, c, Some(x.(k := x.k + 1)))
    else if !x.send then SetCloser(s, c, Some(Closer(x.g, true, 0)))
    else SetCloser(s, c, None)
  }

  // ─── the steps ──────────────────────────────────────────────────────

  function Finish(s: State, g: nat, o: Outcome): State
    requires g < |s.gs|
  {
    s.(gs := s.gs[g := Ready(o)])
  }

  function Complete(s: State, g: nat, i: nat, r: Attempt): State
    requires !r.Blocks? && g < |s.gs| && (r.Fires? ==> |r.s.gs| == |s.gs|)
  {
    if r.Dies? then s.(fatal := true) else Finish(r.s, g, Fired(i, r.v, r.ok))
  }

  function DoIssue(s: State, g: nat, op: Op, order: seq<nat>): State
    requires g < |s.gs| && ValidOp(s, op, order)
  {
    match op
    case Plain(arm) =>
      var r := Try(s, arm);
      if r.Blocks? then Park(s, g, false, [arm]) else Complete(s, g, 0, r)
    case Select(cases, hasDefault) =>
      var k := Pass1(s, cases, order, 0);
      if k < |order| then Complete(s, g, order[k], Try(s, cases[order[k]]))
      else if hasDefault then Finish(s, g, DefaultTaken)
      else Park(s, g, true, cases)
    case Close(Nil) => s.(fatal := true)
    case Close(Ref(c)) =>
      if s.chans[c].closed then s.(fatal := true) else MarkClosed(Finish(s, g, DidClose), c, g)
  }

  /** A plain operation resumes from `gopark`; a `select!` enters pass 3. */
  function DoUnpark(s: State, g: nat): State
    requires g < |s.gs| && s.gs[g].Parked?
  {
    var p := s.gs[g];
    if p.sel then s.(gs := s.gs[g := Waking(p.cases, p.sudogs, p.claim, [])])
    else if |p.sudogs| != 1 || |p.cases| != 1 then s.(panicked := true)
    else if p.cases[0].Send? then
      if !p.sudogs[0].success then s.(fatal := true) else Finish(s, g, Fired(0, p.cases[0].v, true))
    else if !p.sudogs[0].success then Finish(s, g, Fired(0, 0, false))
    else if p.sudogs[0].value.None? then s.(panicked := true)
    else Finish(s, g, Fired(0, p.sudogs[0].value.value, true))
  }

  function IndexOf(q: seq<Waiter>, w: Waiter, k: nat): (n: nat)
    requires k <= |q|
    ensures k <= n <= |q|
    ensures n < |q| ==> q[n] == w
    ensures n == |q| ==> w !in q[k..]
    decreases |q| - k
  {
    if k == |q| then k else if q[k] == w then k else IndexOf(q, w, k + 1)
  }

  /** `__cancel_send` / `__cancel_recv`: unlink the entry if it is still queued; the case
      is marked as a winner if it was not. */
  function DoCancel(s: State, g: nat): State
    requires g < |s.gs| && s.gs[g].Waking? && |s.gs[g].winners| < |s.gs[g].cases|
  {
    var p := s.gs[g];
    var i := |p.winners|;
    var cs := p.cases[i];
    if cs.ch.Nil? || cs.ch.id >= |s.chans| then s.(gs := s.gs[g := p.(winners := p.winners + [false])])
    else
      var c := cs.ch.id;
      var ch := s.chans[c];
      var q := QueueOf(ch, cs.Send?);
      var n := IndexOf(q, Waiter(g, i), 0);
      var q' := if n < |q| then RemoveAt(q, n) else q;
      s.(chans := s.chans[c := WithQueue(ch, cs.Send?, q')],
         gs := s.gs[g := p.(winners := p.winners + [n == |q|])])
  }

  function FirstTrue(b: seq<bool>, k: nat): (n: nat)
    requires k <= |b|
    ensures k <= n <= |b|
    ensures n < |b| ==> b[n]
    ensures forall j :: k <= j < n ==> !b[j]
    decreases |b| - k
  {
    if k == |b| then k else if b[k] then k else FirstTrue(b, k + 1)
  }

  /** Pass 3, second half: run the case whose winner bit is set. */
  function DoDispatch(s: State, g: nat): State
    requires g < |s.gs| && s.gs[g].Waking?
  {
    var p := s.gs[g];
    var i := FirstTrue(p.winners, 0);
    if i >= |p.cases| || i >= |p.sudogs| || i >= |p.winners| then s.(panicked := true)
    else if p.cases[i].Send? then
      if !p.sudogs[i].success then s.(fatal := true) else Finish(s, g, Fired(i, p.cases[i].v, true))
    else
      Finish(s, g, Fired(i, if p.sudogs[i].value.Some? then p.sudogs[i].value.value else 0, p.sudogs[i].success))
  }

  predicate ValidOp(s: State, op: Op, order: seq<nat>) {
    match op
    case Plain(arm) => ValidCase(s, arm)
    case Select(cases, _) => ValidCases(s, cases) && IsOrder(order, |cases|)
    case Close(ch) => ch.Nil? || (ch.id < |s.chans| && s.chans[ch.id].closer.None?)
  }

  /** Goroutine `g` is inside a `Close`. */
  predicate InClose(s: State, g: nat) {
    exists c :: 0 <= c < |s.chans| && s.chans[c].closer.Some? && s.chans[c].closer.value.g == g
  }

  predicate CanLock(s: State, ch: Chan) {
    ch.Nil? || ch.id >= |s.chans| || s.chans[ch.id].closer.None?
  }

  predicate Enabled(s: State, a: Action) {
    && !s.fatal && !s.panicked
    && a.g < |s.gs|
    && match a
       case Issue(g, op, order) => s.gs[g].Ready? && !InClose(s, g) && ValidOp(s, op, order)
       case Unpark(g) => s.gs[g].Parked? && s.gs[g].claim.Some?
       case Cancel(g) =>
         s.gs[g].Waking? && |s.gs[g].winners| < |s.gs[g].cases| && CanLock(s, s.gs[g].cases[|s.gs[g].winners|].ch)
       case Dispatch(g) => s.gs[g].Waking? && |s.gs[g].winners| == |s.gs[g].cases|
       case Sweep(g, c) => c < |s.chans| && s.chans[c].closer.Some? && s.chans[c].closer.value.g == g
  }

  function Step(s: State, a: Action): State
    requires Enabled(s, a)
  {
    match a
    case Issue(g, op, order) => DoIssue(s, g, op, order)
    case Unpark(g) => DoUnpark(s, g)
    case Cancel(g) => DoCancel(s, g)
    case Dispatch(g) => DoDispatch(s, g)
    case Sweep(g, c) => DoSweep(s, c)
  }

  predicate Init(s: State) {
    && !s.fatal && !s.panicked
    && (forall c :: 0 <= c < |s.chans| ==>
          var ch := s.chans[c]; !ch.closed && ch.buf == [] && ch.sendq == [] && ch.recvq == [] && ch.closer.None?)
    && (forall g :: 0 <= g < |s.gs| ==> s.gs[g] == Ready(Nothing))
  }

  /** `acts` can be executed from `s`. */
  predicate CanRun(s: State, acts: seq<Action>)
    decreases |acts|
  {
    acts == [] || (Enabled(s, acts[0]) && CanRun(Step(s, acts[0]), acts[1..]))
  }

  function Run(s: State, acts: seq<Action>): State
    requires CanRun(s, acts)
    decreases |acts|
  {
    if acts == [] then s else Run(Step(s, acts[0]), acts[1..])
  }
}
