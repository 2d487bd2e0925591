/** The machine with wait queues, claims and three-pass selects does only what the Go
    specification allows: every run of it is a behaviour of `ChannelSpec`. */
module ChannelRefinement {

  import opened Bytes
  import opened Channels
  import opened ChannelInvariant
  import opened ChannelSpec

  // ─── the abstraction ────────────────────────────────────────────────

  function AbsChan(ch: Hchan): AChan {
    AChan(ch.cap, ch.closed, ch.buf)
  }

  /** A claimed goroutine has communicated, however far its own clean-up has come. */
  function AbsGoroutine(g: Goroutine): AGoroutine {
    match g
    case Ready(o) => Running(o)
    case Parked(_, cases, _, None) => Blocked(cases)
    case Waking(cases, _, None, _) => Blocked(cases)
    case Parked(_, cases, _, Some(cl)) =>
      if cl.i < |cases| then Decided(cases[cl.i], cl.i, cl.v, cl.ok) else Blocked(cases)
    case Waking(cases, _, Some(cl), _) =>
      if cl.i < |cases| then Decided(cases[cl.i], cl.i, cl.v, cl.ok) else Blocked(cases)
  }

  function Abs(s: State): (a: AState)
    ensures |a.chans| == |s.chans| && |a.gs| == |s.gs|
    ensures forall c :: 0 <= c < |s.chans| ==> a.chans[c] == AbsChan(s.chans[c])
    ensures forall g :: 0 <= g < |s.gs| ==> a.gs[g] == AbsGoroutine(s.gs[g])
  {
    AState(seq(|s.chans|, c requires 0 <= c < |s.chans| => AbsChan(s.chans[c])),
           seq(|s.gs|, g requires 0 <= g < |s.gs| => AbsGoroutine(s.gs[g])))
  }

  /** The abstract state in which `g` has just blocked on `cases`. */
  function Blocking(s: State, g: nat, cases: seq<Case>): AState
    requires g < |s.gs|
  {
    Abs(s).(gs := Abs(s).gs[g := Blocked(cases)])
  }

  /** The abstract state in which case `i` of `g` has just communicated. */
  function Deciding(s: State, g: nat, cs: Case, i: nat, v: Val, ok: bool): AState
    requires g < |s.gs|
  {
    Abs(s).(gs := Abs(s).gs[g := Decided(cs, i, v, ok)])
  }

  // ─── no lost wake-up ────────────────────────────────────────────────

  lemma HasOffers(s: State, g: nat, i: nat, cs: Case, c: nat)
    requires Inv(s) && Has(Abs(s), g, i, cs) && cs.ch == Ref(c)
    ensures Offers(s.gs[g], c, cs.Send?)
  {
    assert GoroutineOk(s.gs[g], |s.chans|);
    assert Arm(s.gs[g].cases[i], c, cs.Send?);
  }

  /** In every reachable state, no blocked goroutine could communicate, except to be turned away by a
      `Close` that is still waking the waiters of its channel: whatever else can proceed has already
      been made to. */
  lemma NoLostWakeup(s: State, e: Event)
    requires Inv(s) && Communicates(Abs(s), e)
    ensures (e.RecvClosed? || e.SendClosed?) && s.chans[e.c].closer.Some?
  {
    var a := Abs(s);
    assert ChanOk(s, e.c) && CloserOk(s, e.c);
    match e
    case SendBuf(g, i, c, v) => HasOffers(s, g, i, Send(Ref(c), v), c);
    case RecvBuf(g, i, c, v) => HasOffers(s, g, i, Recv(Ref(c)), c);
    case Meet(g, i, h, j, c, v) => HasOffers(s, g, i, Send(Ref(c), v), c); HasOffers(s, h, j, Recv(Ref(c)), c);
    case RecvClosed(g, i, c) => HasOffers(s, g, i, Recv(Ref(c)), c);
    case SendClosed(g, i, c) => HasOffers(s, g, i, a.gs[g].cases[i], c);
  }

  // ─── one attempt ────────────────────────────────────────────────────

  /** The communications behind a receive that fires. */
  function RecvEvents(s: State, g: nat, i: nat, c: nat): seq<Event>
    requires c < |s.chans|
  {
    var ch := s.chans[c];
    if ch.closed && ch.buf == [] then [RecvClosed(g, i, c)]
    else
      var k := FirstLive(s.gs, ch.sendq, 0);
      if k < |ch.sendq| then
        var w := ch.sendq[k];
        var sg := SudogOf(s.gs, w);
        var sv := if sg.value.Some? then sg.value.value else 0;
        if ch.cap == 0 || ch.buf == [] then [Meet(w.g, w.i, g, i, c, sv)]
        else [RecvBuf(g, i, c, ch.buf[0]), SendBuf(w.g, w.i, c, sv)]
      else if ch.buf != [] then [RecvBuf(g, i, c, ch.buf[0])]
      else []
  }

  function SendEvents(s: State, g: nat, i: nat, c: nat, v: Val): seq<Event>
    requires c < |s.chans|
  {
    var ch := s.chans[c];
    var k := FirstLive(s.gs, ch.recvq, 0);
    if k < |ch.recvq| then [Meet(g, i, ch.recvq[k].g, ch.recvq[k].i, c, v)]
    else [SendBuf(g, i, c, v)]
  }

  function TryEvents(s: State, g: nat, i: nat, cs: Case): seq<Event>
    requires ValidCase(s, cs)
  {
    match cs
    case Send(Ref(c), v) => SendEvents(s, g, i, c, v)
    case Recv(Ref(c)) => RecvEvents(s, g, i, c)
    case _ => []
  }

  lemma RecvRefines(s: State, g: nat, cases: seq<Case>, i: nat, c: nat)
    requires Inv(s) && g < |s.gs| && s.gs[g].Ready? && c < |s.chans| && s.chans[c].closer.None?
    requires i < |cases| && cases[i] == Recv(Ref(c))
    requires TryRecv(s, c).Fires?
    ensures var r := TryRecv(s, c);
      && |r.s.gs| == |s.gs|
      && Behaves(Blocking(s, g, cases), RecvEvents(s, g, i, c), Deciding(r.s, g, cases[i], i, r.v, r.ok))
  {
    var r := TryRecv(s, c);
    var a := Blocking(s, g, cases);
    var b := Deciding(r.s, g, cases[i], i, r.v, r.ok);
    var ch := s.chans[c];
    assert ChanOk(s, c);
    var evs := RecvEvents(s, g, i, c);
    var k := FirstLive(s.gs, ch.sendq, 0);
    if ch.closed && ch.buf == [] {
      assert Next(a, evs[0]) == b;
    } else if k < |ch.sendq| {
      RecvFromSenderRefines(s, g, cases, i, c, k);
    } else {
      assert Next(a, evs[0]) == b;
    }
  }

  /** The sender that a receive is about to claim. */
  lemma ParkedSender(s: State, c: nat, k: nat) returns (w: Waiter, v: Val)
    requires Inv(s) && c < |s.chans| && s.chans[c].closer.None?
    requires k < |s.chans[c].sendq| && CanClaim(s.gs, s.chans[c].sendq[k])
    ensures w == s.chans[c].sendq[k] && w.g < |s.gs| && Live(s.gs[w.g]) && w.i < |s.gs[w.g].cases| == |s.gs[w.g].sudogs|
    ensures s.gs[w.g].cases[w.i] == Send(Ref(c), v) && SudogOf(s.gs, w) == Sudog(Some(v), false)
    ensures !s.chans[c].closed && |s.chans[c].buf| == s.chans[c].cap
  {
    var ch := s.chans[c];
    w := ch.sendq[k];
    assert w in QueueOf(ch, true);
    ClaimableIffLive(s, c, true, w);
    assert GoroutineOk(s.gs[w.g], |s.chans|);
    assert ChanOk(s, c);
    v := s.gs[w.g].cases[w.i].v;
  }

  lemma RecvFromSenderRefines(s: State, g: nat, cases: seq<Case>, i: nat, c: nat, k: nat)
    requires Inv(s) && g < |s.gs| && s.gs[g].Ready? && c < |s.chans| && s.chans[c].closer.None?
    requires i < |cases| && cases[i] == Recv(Ref(c))
    requires !(s.chans[c].closed && s.chans[c].buf == [])
    requires k == FirstLive(s.gs, s.chans[c].sendq, 0) < |s.chans[c].sendq|
    ensures var r := TryRecv(s, c);
      && r.Fires? && |r.s.gs| == |s.gs|
      && Behaves(Blocking(s, g, cases), RecvEvents(s, g, i, c), Deciding(r.s, g, cases[i], i, r.v, r.ok))
  {
    var w, v := ParkedSender(s, c, k);
    if s.chans[c].cap == 0 {
      RecvMeets(s, g, cases, i, c, k, w, v);
    } else {
      RecvRotates(s, g, cases, i, c, k, w, v);
    }
  }

  /** Without a buffer the value goes from hand to hand. */
  lemma RecvMeets(s: State, g: nat, cases: seq<Case>, i: nat, c: nat, k: nat, w: Waiter, v: Val)
    requires g < |s.gs| && s.gs[g].Ready? && c < |s.chans| && i < |cases| && cases[i] == Recv(Ref(c))
    requires k == FirstLive(s.gs, s.chans[c].sendq, 0) < |s.chans[c].sendq| && w == s.chans[c].sendq[k]
    requires w.g < |s.gs| && Live(s.gs[w.g]) && w.i < |s.gs[w.g].cases| == |s.gs[w.g].sudogs|
    requires s.gs[w.g].cases[w.i] == Send(Ref(c), v) && SudogOf(s.gs, w) == Sudog(Some(v), false)
    requires !s.chans[c].closed && s.chans[c].cap == 0 && s.chans[c].buf == []
    ensures var r := TryRecv(s, c);
      && r.Fires? && |r.s.gs| == |s.gs|
      && Behaves(Blocking(s, g, cases), RecvEvents(s, g, i, c), Deciding(r.s, g, cases[i], i, r.v, r.ok))
  {
    var r := TryRecv(s, c);
    var a, b := Blocking(s, g, cases), Deciding(r.s, g, cases[i], i, r.v, r.ok);
    var e := Meet(w.g, w.i, g, i, c, v);
    assert RecvEvents(s, g, i, c) == [e];
    assert Has(a, w.g, w.i, Send(Ref(c), v)) && Has(a, g, i, Recv(Ref(c)));
    assert Next(a, e) == b;
  }

  /** With a full buffer the receive takes its front and the sender's value goes to its end. */
  lemma RecvRotates(s: State, g: nat, cases: seq<Case>, i: nat, c: nat, k: nat, w: Waiter, v: Val)
    requires g < |s.gs| && s.gs[g].Ready? && c < |s.chans| && i < |cases| && cases[i] == Recv(Ref(c))
    requires k == FirstLive(s.gs, s.chans[c].sendq, 0) < |s.chans[c].sendq| && w == s.chans[c].sendq[k]
    requires w.g < |s.gs| && Live(s.gs[w.g]) && w.i < |s.gs[w.g].cases| == |s.gs[w.g].sudogs|
    requires s.gs[w.g].cases[w.i] == Send(Ref(c), v) && SudogOf(s.gs, w) == Sudog(Some(v), false)
    requires !s.chans[c].closed && |s.chans[c].buf| == s.chans[c].cap > 0
    ensures var r := TryRecv(s, c);
      && r.Fires? && |r.s.gs| == |s.gs|
      && Behaves(Blocking(s, g, cases), RecvEvents(s, g, i, c), Deciding(r.s, g, cases[i], i, r.v, r.ok))
  {
    var r := TryRecv(s, c);
    var a, b := Blocking(s, g, cases), Deciding(r.s, g, cases[i], i, r.v, r.ok);
    var e, f := RecvBuf(g, i, c, s.chans[c].buf[0]), SendBuf(w.g, w.i, c, v);
    assert RecvEvents(s, g, i, c) == [e, f];
    assert Has(a, g, i, Recv(Ref(c))) && Has(a, w.g, w.i, Send(Ref(c), v));
    var m := Next(a, e);
    assert Has(m, w.g, w.i, Send(Ref(c), v));
    assert Next(m, f) == b;
    assert [e, f][1..] == [f];
  }

  lemma SendRefines(s: State, g: nat, cases: seq<Case>, i: nat, c: nat, v: Val)
    requires Inv(s) && g < |s.gs| && s.gs[g].Ready? && c < |s.chans| && s.chans[c].closer.None?
    requires i < |cases| && cases[i] == Send(Ref(c), v)
    requires TrySend(s, c, v).Fires?
    ensures var r := TrySend(s, c, v);
      && |r.s.gs| == |s.gs|
      && Behaves(Blocking(s, g, cases), SendEvents(s, g, i, c, v), Deciding(r.s, g, cases[i], i, r.v, r.ok))
  {
    var ch := s.chans[c];
    assert ChanOk(s, c);
    var k := FirstLive(s.gs, ch.recvq, 0);
    if k < |ch.recvq| {
      var w := ch.recvq[k];
      assert w in QueueOf(ch, false);
      ClaimableIffLive(s, c, false, w);
      assert GoroutineOk(s.gs[w.g], |s.chans|);
      SendMeets(s, g, cases, i, c, v, k, w);
    } else {
      SendBuffers(s, g, cases, i, c, v);
    }
  }

  lemma SendMeets(s: State, g: nat, cases: seq<Case>, i: nat, c: nat, v: Val, k: nat, w: Waiter)
    requires g < |s.gs| && s.gs[g].Ready? && c < |s.chans| && i < |cases| && cases[i] == Send(Ref(c), v)
    requires k == FirstLive(s.gs, s.chans[c].recvq, 0) < |s.chans[c].recvq| && w == s.chans[c].recvq[k]
    requires w.g < |s.gs| && Live(s.gs[w.g]) && w.i < |s.gs[w.g].cases| == |s.gs[w.g].sudogs|
    requires s.gs[w.g].cases[w.i] == Recv(Ref(c)) && !s.chans[c].closed && s.chans[c].buf == []
    ensures var r := TrySend(s, c, v);
      && r.Fires? && |r.s.gs| == |s.gs|
      && Behaves(Blocking(s, g, cases), SendEvents(s, g, i, c, v), Deciding(r.s, g, cases[i], i, r.v, r.ok))
  {
    var r := TrySend(s, c, v);
    var a, b := Blocking(s, g, cases), Deciding(r.s, g, cases[i], i, r.v, r.ok);
    var e := Meet(g, i, w.g, w.i, c, v);
    assert SendEvents(s, g, i, c, v) == [e];
    assert Has(a, g, i, Send(Ref(c), v)) && Has(a, w.g, w.i, Recv(Ref(c)));
    assert Next(a, e) == b;
  }

  lemma SendBuffers(s: State, g: nat, cases: seq<Case>, i: nat, c: nat, v: Val)
    requires g < |s.gs| && s.gs[g].Ready? && c < |s.chans| && i < |cases| && cases[i] == Send(Ref(c), v)
    requires FirstLive(s.gs, s.chans[c].recvq, 0) == |s.chans[c].recvq| && TrySend(s, c, v).Fires?
    ensures var r := TrySend(s, c, v);
      && |r.s.gs| == |s.gs|
      && Behaves(Blocking(s, g, cases), SendEvents(s, g, i, c, v), Deciding(r.s, g, cases[i], i, r.v, r.ok))
  {
    var r := TrySend(s, c, v);
    var a, b := Blocking(s, g, cases), Deciding(r.s, g, cases[i], i, r.v, r.ok);
    var e := SendBuf(g, i, c, v);
    assert SendEvents(s, g, i, c, v) == [e];
    assert Has(a, g, i, Send(Ref(c), v));
    assert Next(a, e) == b;
  }

  lemma TryRefines(s: State, g: nat, cases: seq<Case>, i: nat)
    requires Inv(s) && g < |s.gs| && s.gs[g].Ready? && ValidCases(s, cases) && i < |cases| && Try(s, cases[i]).Fires?
    ensures var r := Try(s, cases[i]);
      && |r.s.gs| == |s.gs|
      && Behaves(Abs(s), [Block(g, cases)] + TryEvents(s, g, i, cases[i]) + [Return(g)],
                 Abs(Finish(r.s, g, Fired(i, r.v, r.ok))))
  {
    var r := Try(s, cases[i]);
    if cases[i].Send? {
      SendRefines(s, g, cases, i, cases[i].ch.id, cases[i].v);
    } else {
      RecvRefines(s, g, cases, i, cases[i].ch.id);
    }
    var a, b := Blocking(s, g, cases), Deciding(r.s, g, cases[i], i, r.v, r.ok);
    assert Behaves(Abs(s), [Block(g, cases)], a);
    BehavesAppend(Abs(s), [Block(g, cases)], a, TryEvents(s, g, i, cases[i]), b);
    var d := Abs(Finish(r.s, g, Fired(i, r.v, r.ok)));
    assert Next(b, Return(g)) == d;
    assert Behaves(b, [Return(g)], d);
    BehavesAppend(Abs(s), [Block(g, cases)] + TryEvents(s, g, i, cases[i]), b, [Return(g)], d);
  }

  // ─── default and parking: only when nothing can proceed ─────────────

  lemma BlockingHas(s: State, g: nat, cases: seq<Case>, h: nat, i: nat, cs: Case, c: nat)
    requires Inv(s) && g < |s.gs| && s.gs[g].Ready? && h != g
    requires Has(Blocking(s, g, cases), h, i, cs) && cs.ch == Ref(c)
    ensures Offers(s.gs[h], c, cs.Send?)
  {
    HasOffers(s, h, i, cs, c);
  }

  /** If pass 1 blocks on every case, the specification lets none of them proceed. */
  lemma Pass1Complete(s: State, g: nat, cases: seq<Case>)
    requires Inv(s) && g < |s.gs| && s.gs[g].Ready? && ValidCases(s, cases)
    requires forall i :: 0 <= i < |cases| ==> Try(s, cases[i]).Blocks?
    ensures Stuck(Blocking(s, g, cases), g)
  {
    var a := Blocking(s, g, cases);
    forall e: Event | Communicates(a, e) ensures !Involves(e, g) {
      if Involves(e, g) {
        if e.g == g { BlocksMeans(s, cases[e.i]); } else { BlocksMeans(s, cases[e.j]); }
        if e.Meet? {
          if e.g == g { BlockingHas(s, g, cases, e.h, e.j, Recv(Ref(e.c)), e.c); }
          else { BlockingHas(s, g, cases, e.g, e.i, Send(Ref(e.c), e.v), e.c); }
        }
        assert false;
      }
    }
  }

  lemma ParkRefines(s: State, g: nat, sel: bool, cases: seq<Case>)
    requires g < |s.gs| && s.gs[g].Ready?
    ensures Behaves(Abs(s), [Block(g, cases)], Abs(Park(s, g, sel, cases)))
  {
    var s' := Park(s, g, sel, cases);
    forall d | 0 <= d < |s.chans| ensures AbsChan(s'.chans[d]) == AbsChan(s.chans[d]) {
      RegisterKeeps(s.chans, g, cases, |cases|, d);
    }
    assert Next(Abs(s), Block(g, cases)) == Abs(s');
    assert Behaves(Abs(s'), [Block(g, cases)][1..], Abs(s'));
  }

  // ─── Close ──────────────────────────────────────────────────────────

  lemma MarkRefines(s: State, g: nat, c: nat)
    requires g < |s.gs| && s.gs[g].Ready? && c < |s.chans| && !s.chans[c].closed
    ensures Behaves(Abs(s), [CloseIt(g, c)], Abs(MarkClosed(Finish(s, g, DidClose), c, g)))
  {
    assert Next(Abs(s), CloseIt(g, c)) == Abs(MarkClosed(Finish(s, g, DidClose), c, g));
  }

  /** What one step of a `Close` tells a waiter, if it wakes one. */
  function SweepEvents(s: State, c: nat): seq<Event>
    requires c < |s.chans| && s.chans[c].closer.Some?
  {
    var x := s.chans[c].closer.value;
    var q := QueueOf(s.chans[c], x.send);
    if x.k < |q| && CanClaim(s.gs, q[x.k]) then
      [if x.send then SendClosed(q[x.k].g, q[x.k].i, c) else RecvClosed(q[x.k].g, q[x.k].i, c)]
    else []
  }

  lemma WakeRefines(s: State, c: nat, send: bool, k: nat)
    requires Inv(s) && c < |s.chans| && s.chans[c].closer.Some? && k < |QueueOf(s.chans[c], send)|
    requires CanClaim(s.gs, QueueOf(s.chans[c], send)[k])
    ensures var w := QueueOf(s.chans[c], send)[k];
      Behaves(Abs(s), [if send then SendClosed(w.g, w.i, c) else RecvClosed(w.g, w.i, c)],
              Abs(WakeClosed(s, c, send, k)))
  {
    var w := QueueOf(s.chans[c], send)[k];
    assert w in QueueOf(s.chans[c], send);
    ClaimableIffLive(s, c, send, w);
    assert GoroutineOk(s.gs[w.g], |s.chans|);
    assert ChanOk(s, c) && CloserOk(s, c);
    var e := if send then SendClosed(w.g, w.i, c) else RecvClosed(w.g, w.i, c);
    assert Next(Abs(s), e) == Abs(WakeClosed(s, c, send, k));
  }

  /** A step of a `Close` is the answer to one waiter, or nothing. */
  lemma SweepRefines(s: State, c: nat)
    requires Inv(s) && c < |s.chans| && s.chans[c].closer.Some?
    ensures Behaves(Abs(s), SweepEvents(s, c), Abs(DoSweep(s, c)))
  {
    var x := s.chans[c].closer.value;
    if SweepEvents(s, c) != [] { WakeRefines(s, c, x.send, x.k); } else { SameAbs(s, DoSweep(s, c)); }
  }

  // ─── every step and every run ───────────────────────────────────────

  function IssueEvents(s: State, g: nat, op: Op, order: seq<nat>): seq<Event>
    requires g < |s.gs| && ValidOp(s, op, order)
  {
    match op
    case Plain(arm) =>
      if Try(s, arm).Blocks? then [Block(g, [arm])]
      else [Block(g, [arm])] + TryEvents(s, g, 0, arm) + [Return(g)]
    case Select(cases, hasDefault) =>
      var k := Pass1(s, cases, order, 0);
      if k < |order| then [Block(g, cases)] + TryEvents(s, g, order[k], cases[order[k]]) + [Return(g)]
      else if hasDefault then [Block(g, cases), Default(g)]
      else [Block(g, cases)]
    case Close(Nil) => []
    case Close(Ref(c)) => [CloseIt(g, c)]
  }

  /** The events of the specification that one step of the machine stands for. */
  function EventsOf(s: State, a: Action): seq<Event>
    requires Enabled(s, a)
  {
    match a
    case Issue(g, op, order) => IssueEvents(s, g, op, order)
    case Unpark(g) => if s.gs[g].sel then [] else [Return(g)]
    case Cancel(g) => []
    case Dispatch(g) => [Return(g)]
    case Sweep(g, c) => SweepEvents(s, c)
  }

  lemma IssueRefines(s: State, g: nat, op: Op, order: seq<nat>)
    requires Inv(s) && g < |s.gs| && s.gs[g].Ready? && ValidOp(s, op, order)
    requires !s.fatal && !DoIssue(s, g, op, order).fatal
    ensures Behaves(Abs(s), IssueEvents(s, g, op, order), Abs(DoIssue(s, g, op, order)))
  {
    match op
    case Plain(arm) =>
      if Try(s, arm).Blocks? { ParkRefines(s, g, false, [arm]); } else { TryRefines(s, g, [arm], 0); }
    case Select(cases, hasDefault) =>
      var k := Pass1(s, cases, order, 0);
      if k < |order| {
        TryRefines(s, g, cases, order[k]);
      } else {
        forall i | 0 <= i < |cases| ensures Try(s, cases[i]).Blocks? { assert i in order; }
        if hasDefault {
          Pass1Complete(s, g, cases);
          var a := Blocking(s, g, cases);
          assert Next(a, Default(g)) == Abs(Finish(s, g, DefaultTaken));
          assert [Block(g, cases), Default(g)][1..] == [Default(g)];
        } else {
          ParkRefines(s, g, true, cases);
        }
      }
    case Close(Nil) =>
    case Close(Ref(c)) =>
      MarkRefines(s, g, c);
  }

  /** The value an operation returns after a park is the one its claim recorded. */
  lemma ReturnRefines(s: State, g: nat, s': State)
    requires Inv(s) && g < |s.gs| && !s.gs[g].Ready? && s.gs[g].claim.Some?
    requires var cl := s.gs[g].claim.value; s' == Finish(s, g, Fired(cl.i, cl.v, cl.ok))
    requires var cl := s.gs[g].claim.value; cl.i < |s.gs[g].cases| && (s.gs[g].cases[cl.i].Send? ==> cl.ok)
    ensures Behaves(Abs(s), [Return(g)], Abs(s'))
  {
    assert Next(Abs(s), Return(g)) == Abs(s');
    assert [Return(g)][1..] == [];
  }

  lemma UnparkRefines(s: State, g: nat)
    requires Inv(s) && g < |s.gs| && s.gs[g].Parked? && s.gs[g].claim.Some? && !s.fatal && !DoUnpark(s, g).fatal
    ensures Behaves(Abs(s), if s.gs[g].sel then [] else [Return(g)], Abs(DoUnpark(s, g)))
  {
    var p := s.gs[g];
    assert GoroutineOk(p, |s.chans|);
    if p.sel {
      assert Abs(s) == Abs(DoUnpark(s, g));
    } else {
      ReturnRefines(s, g, DoUnpark(s, g));
    }
  }

  lemma CancelRefines(s: State, g: nat)
    requires Inv(s) && g < |s.gs| && s.gs[g].Waking? && |s.gs[g].winners| < |s.gs[g].cases|
    ensures Abs(s) == Abs(DoCancel(s, g))
  {
    var s' := DoCancel(s, g);
    assert AbsGoroutine(s'.gs[g]) == AbsGoroutine(s.gs[g]);
    assert s'.gs == s.gs[g := s'.gs[g]];
    CancelKeepsChans(s, g);
    SameAbs(s, s');
  }

  lemma CancelKeepsChans(s: State, g: nat)
    requires g < |s.gs| && s.gs[g].Waking? && |s.gs[g].winners| < |s.gs[g].cases|
    ensures var s' := DoCancel(s, g);
      |s'.chans| == |s.chans| && forall c :: 0 <= c < |s.chans| ==> AbsChan(s'.chans[c]) == AbsChan(s.chans[c])
  {
  }

  lemma SameAbs(s: State, s': State)
    requires |s.chans| == |s'.chans| && |s.gs| == |s'.gs|
    requires forall c :: 0 <= c < |s.chans| ==> AbsChan(s'.chans[c]) == AbsChan(s.chans[c])
    requires forall g :: 0 <= g < |s.gs| ==> AbsGoroutine(s'.gs[g]) == AbsGoroutine(s.gs[g])
    ensures Abs(s) == Abs(s')
  {
    assert Abs(s).chans == Abs(s').chans;
    assert Abs(s).gs == Abs(s').gs;
  }

  lemma DispatchRefines(s: State, g: nat)
    requires Inv(s) && g < |s.gs| && s.gs[g].Waking? && |s.gs[g].winners| == |s.gs[g].cases| && !s.fatal
    requires !DoDispatch(s, g).fatal
    ensures Behaves(Abs(s), [Return(g)], Abs(DoDispatch(s, g)))
  {
    assert GoroutineOk(s.gs[g], |s.chans|);
    WinnerIsClaim(s, g);
    ReturnRefines(s, g, DoDispatch(s, g));
  }

  lemma StepRefines(s: State, a: Action)
    requires Inv(s) && Enabled(s, a) && !Step(s, a).fatal
    ensures Behaves(Abs(s), EventsOf(s, a), Abs(Step(s, a)))
  {
    match a
    case Issue(g, op, order) => IssueRefines(s, g, op, order);
    case Unpark(g) => UnparkRefines(s, g);
    case Cancel(g) => CancelRefines(s, g);
    case Dispatch(g) => DispatchRefines(s, g);
    case Sweep(g, c) => SweepRefines(s, c);
  }

  function Trace(s: State, acts: seq<Action>): seq<Event>
    requires CanRun(s, acts)
    decreases |acts|
  {
    if acts == [] then [] else EventsOf(s, acts[0]) + Trace(Step(s, acts[0]), acts[1..])
  }

  /** Refinement: every run of the queueing machine is a behaviour of the specification,
      ending in the abstraction of where the machine ends. */
  lemma {:induction false} RunRefines(s: State, acts: seq<Action>)
    requires Inv(s) && CanRun(s, acts) && !Run(s, acts).fatal
    ensures Behaves(Abs(s), Trace(s, acts), Abs(Run(s, acts)))
    decreases |acts|
  {
    if acts == [] {
    } else {
      var m := Step(s, acts[0]);
      StepInv(s, acts[0]);
      assert !m.fatal by { assert acts[1..] != [] ==> Enabled(m, acts[1..][0]); }
      StepRefines(s, acts[0]);
      RunRefines(m, acts[1..]);
      BehavesAppend(Abs(s), EventsOf(s, acts[0]), Abs(m), Trace(m, acts[1..]), Abs(Run(s, acts)));
    }
  }

  // ─── what clients rely on ───────────────────────────────────────────

  /** In every run from fresh channels, what has been received on a channel is a prefix of
      what has been sent on it, in order, and the rest is what the buffer holds. */
  lemma ReceivedIsPrefixOfSent(s: State, acts: seq<Action>, c: nat)
    requires Init(s) && CanRun(s, acts) && !Run(s, acts).fatal && c < |s.chans|
    ensures var t := Trace(s, acts); var r := Run(s, acts);
      && c < |r.chans| && r.chans[c].cap == s.chans[c].cap
      && Received(t, c) + r.chans[c].buf == Sent(t, c)
      && |r.chans[c].buf| <= r.chans[c].cap
  {
    InitInv(s);
    RunInv(s, acts);
    RunRefines(s, acts);
    Fifo(Abs(s), Trace(s, acts), Abs(Run(s, acts)), c);
    Bounded(Abs(s), Trace(s, acts), Abs(Run(s, acts)), c);
    assert AbsChan(s.chans[c]).fifo == [];
  }

  /** After `Close`, whatever the schedule, the n-th receive on the channel gets the n-th
      buffered value, and (zero, false) once they are used up. */
  lemma ClosedChannelDrains(s: State, acts: seq<Action>, c: nat)
    requires Inv(s) && CanRun(s, acts) && !Run(s, acts).fatal && c < |s.chans| && s.chans[c].closed
    ensures var t := Trace(s, acts); var r := Run(s, acts);
      && Sent(t, c) == []
      && Results(t, c) == Drain(s.chans[c].buf, |Results(t, c)|)
      && c < |r.chans| && r.chans[c].closed && r.chans[c].cap == s.chans[c].cap
  {
    RunRefines(s, acts);
    CloseDrains(Abs(s), Trace(s, acts), Abs(Run(s, acts)), c);
  }

  /** A woken `select!`: exactly one case was claimed, the entries of the losing cases were
      never written to, and the case that pass 3 runs is the claimed one. */
  lemma SelectClaimedOnce(s: State, acts: seq<Action>, g: nat)
    requires Init(s) && CanRun(s, acts)
    requires var r := Run(s, acts); g < |r.gs| && r.gs[g].Waking? && |r.gs[g].winners| == |r.gs[g].cases|
    ensures var p := Run(s, acts).gs[g];
      && p.claim.Some? && p.claim.value.i < |p.cases| == |p.sudogs|
      && FirstTrue(p.winners, 0) == p.claim.value.i
      && (forall i :: 0 <= i < |p.winners| ==> (p.winners[i] <==> i == p.claim.value.i))
      && (forall i :: 0 <= i < |p.cases| && i != p.claim.value.i ==> p.sudogs[i] == NewSudog(p.cases[i]))
  {
    InitInv(s);
    RunInv(s, acts);
    WinnerIsClaim(Run(s, acts), g);
    assert GoroutineOk(Run(s, acts).gs[g], |Run(s, acts).chans|);
  }

  // ─── two Closes at once ─────────────────────────────────────────────

  lemma {:induction false} RunSnoc(s: State, acts: seq<Action>, a: Action)
    requires CanRun(s, acts) && Enabled(Run(s, acts), a)
    ensures CanRun(s, acts + [a]) && Run(s, acts + [a]) == Step(Run(s, acts), a)
    decreases |acts|
  {
    if acts == [] {
      assert acts + [a] == [a];
    } else {
      assert (acts + [a])[0] == acts[0] && (acts + [a])[1..] == acts[1..] + [a];
      RunSnoc(Step(s, acts[0]), acts[1..], a);
    }
  }

  /** Two goroutines that receive from channels 0 and 1, whichever comes first. */
  const BOTH: seq<Case> := [Recv(Ref(0)), Recv(Ref(1))]

  function Waiting(claim: Option<Claim>): Goroutine {
    Parked(true, BOTH, [Sudog(None, false), Sudog(None, false)], claim)
  }

  /** Two unbuffered channels with the same two selects parked on them, and two more goroutines. */
  predicate TwoSelects(s: State) {
    && s.chans == [Hchan(0, false, [], [], [Waiter(0, 0), Waiter(1, 0)], None),
                   Hchan(0, false, [], [], [Waiter(0, 1), Waiter(1, 1)], None)]
    && s.gs == [Waiting(None), Waiting(None), Ready(Nothing), Ready(Nothing)] && !s.fatal && !s.panicked
  }

  /** The claims of two `Close` calls interleave: the first takes one select and the second the other,
      so the two selects return through different cases. */
  lemma ClosesShareSelects(s: State) returns (acts: seq<Action>)
    requires TwoSelects(s)
    ensures CanRun(s, acts)
    ensures var r := Run(s, acts);
      |r.gs| == 4 && r.gs[0] == Waiting(Some(Claim(0, 0, false))) && r.gs[1] == Waiting(Some(Claim(1, 0, false)))
  {
    var first := Issue(2, Close(Ref(0)), []);
    RunSnoc(s, [], first);
    var m := Step(s, first);
    ClaimsFirst(m, 0, 0, Claim(0, 0, false));
    RunSnoc(s, [] + [first], Sweep(2, 0));
    var n := Step(m, Sweep(2, 0));
    var second := Issue(3, Close(Ref(1)), []);
    RunSnoc(s, [] + [first] + [Sweep(2, 0)], second);
    var o := Step(n, second);
    PassesStale(o, 1);
    RunSnoc(s, [] + [first] + [Sweep(2, 0)] + [second], Sweep(3, 1));
    var p := Step(o, Sweep(3, 1));
    ClaimsFirst(p, 1, 1, Claim(1, 0, false));
    acts := [] + [first] + [Sweep(2, 0)] + [second] + [Sweep(3, 1)];
    RunSnoc(s, acts, Sweep(3, 1));
    acts := acts + [Sweep(3, 1)];
  }

  /** The entry under the cursor of a `Close` belongs to select `g`, which nobody has claimed. */
  lemma ClaimsFirst(s: State, c: nat, g: nat, cl: Claim)
    requires c < |s.chans| && s.chans[c].closer.Some? && !s.chans[c].closer.value.send
    requires var k := s.chans[c].closer.value.k; k < |s.chans[c].recvq| && s.chans[c].recvq[k] == Waiter(g, cl.i)
    requires g < |s.gs| && s.gs[g] == Waiting(None) && cl.i < 2 && cl == Claim(cl.i, 0, false)
    ensures DoSweep(s, c).gs == s.gs[g := Waiting(Some(cl))]
    ensures DoSweep(s, c).chans ==
      s.chans[c := s.chans[c].(recvq := RemoveAt(s.chans[c].recvq, s.chans[c].closer.value.k))]
  {
    var sudogs := s.gs[g].sudogs;
    assert sudogs[cl.i := Sudog(None, false)] == sudogs;
  }

  /** The entry under the cursor has been claimed through another channel. */
  lemma PassesStale(s: State, c: nat)
    requires c < |s.chans| && s.chans[c].closer.Some? && !s.chans[c].closer.value.send
    requires var k := s.chans[c].closer.value.k;
      k < |s.chans[c].recvq| && !CanClaim(s.gs, s.chans[c].recvq[k])
    ensures DoSweep(s, c) ==
      SetCloser(s, c, Some(s.chans[c].closer.value.(k := s.chans[c].closer.value.k + 1)))
  {
  }

  // ─── death ──────────────────────────────────────────────────────────

  /** `g` was parked in a send when its channel was closed. */
  predicate TurnedAway(past: seq<Event>, g: nat) {
    LastOf(past, g).Some? && LastOf(past, g).value.SendClosed?
  }

  predicate SendsOnClosed(past: seq<Event>, cs: Case) {
    cs.Send? && cs.ch.Ref? && ClosedIn(past, cs.ch.id)
  }

  /** The three ways to die that Go prescribes, told by what has happened so far: sending on a
      channel that was closed, having been parked in a send when the channel was closed, and closing
      a nil channel or one that was closed. */
  predicate MustDie(past: seq<Event>, s: State, a: Action)
    requires Enabled(s, a)
  {
    match a
    case Issue(_, Plain(arm), _) => SendsOnClosed(past, arm)
    case Issue(_, Select(cases, _), order) =>
      var k := Pass1(s, cases, order, 0);
      k < |order| && SendsOnClosed(past, cases[order[k]])
    case Issue(_, Close(ch), _) => ch.Nil? || ClosedIn(past, ch.id)
    case Unpark(g) => !s.gs[g].sel && TurnedAway(past, g)
    case Cancel(g) => false
    case Dispatch(g) => TurnedAway(past, g)
    case Sweep(g, c) => false
  }

  /** Trying a case of an open or closed channel. */
  lemma TryDies(s: State, cs: Case)
    requires Inv(s) && ValidCase(s, cs)
    ensures Try(s, cs).Dies? <==> cs.Send? && cs.ch.Ref? && s.chans[cs.ch.id].closed
    ensures Try(s, cs).Fires? ==> Try(s, cs).s.fatal == s.fatal
  {
    if cs.ch.Ref? {
      if cs.Send? { TrySendInv(s, cs.ch.id, cs.v); } else { TryRecvInv(s, cs.ch.id); }
    }
  }

  /** The past of a run tells which channels are closed. */
  lemma ClosedInRun(s: State, acts: seq<Action>, c: nat)
    requires Init(s) && CanRun(s, acts) && !Run(s, acts).fatal && c < |Run(s, acts).chans|
    ensures Run(s, acts).chans[c].closed <==> ClosedIn(Trace(s, acts), c)
  {
    InitInv(s);
    RunRefines(s, acts);
    var a, b := Abs(s), Abs(Run(s, acts));
    BehavesSize(a, Trace(s, acts), b);
    ClosedIff(a, Trace(s, acts), b, c);
  }

  lemma CaseDies(s: State, acts: seq<Action>, cs: Case)
    requires Init(s) && CanRun(s, acts) && !Run(s, acts).fatal && ValidCase(Run(s, acts), cs)
    ensures Try(Run(s, acts), cs).Dies? <==> SendsOnClosed(Trace(s, acts), cs)
    ensures Try(Run(s, acts), cs).Fires? ==> !Try(Run(s, acts), cs).s.fatal
  {
    InitInv(s);
    RunInv(s, acts);
    TryDies(Run(s, acts), cs);
    if cs.ch.Ref? { ClosedInRun(s, acts, cs.ch.id); }
  }

  /** A woken goroutine carries the result of the last communication it took part in. */
  lemma WokenByLast(s: State, acts: seq<Action>, g: nat)
    requires Init(s) && CanRun(s, acts) && !Run(s, acts).fatal
    requires var r := Run(s, acts); g < |r.gs| && !r.gs[g].Ready? && r.gs[g].claim.Some?
    ensures var p := Run(s, acts).gs[g]; var cl := p.claim.value; var t := Trace(s, acts);
      && cl.i < |p.cases| && LastOf(t, g).Some?
      && Decides(LastOf(t, g).value, g, p.cases[cl.i], cl.i, cl.v, cl.ok)
      && (TurnedAway(t, g) <==> p.cases[cl.i].Send? && !cl.ok)
  {
    InitInv(s);
    RunInv(s, acts);
    RunRefines(s, acts);
    var r := Run(s, acts);
    var a, b := Abs(s), Abs(r);
    assert GoroutineOk(r.gs[g], |r.chans|);
    BehavesSize(a, Trace(s, acts), b);
    assert a.gs[g].Running? && b.gs[g].Decided?;
    DecidedByLast(a, Trace(s, acts), b, g);
  }

  /** In every run from fresh channels, a step kills the process exactly when its past says that it
      must; and a sender that dies after a park was parked on a channel that has been closed. */
  lemma FatalAsPrescribed(s: State, acts: seq<Action>, a: Action)
    requires Init(s) && CanRun(s, acts) && Enabled(Run(s, acts), a)
    ensures Step(Run(s, acts), a).fatal <==> MustDie(Trace(s, acts), Run(s, acts), a)
    ensures TurnedAway(Trace(s, acts), a.g) ==>
      var c := LastOf(Trace(s, acts), a.g).value.c; c < |Run(s, acts).chans| && Run(s, acts).chans[c].closed
  {
    var r := Run(s, acts);
    InitInv(s);
    RunInv(s, acts);
    RunRefines(s, acts);
    if TurnedAway(Trace(s, acts), a.g) { TurnedAwayByClose(Abs(s), Trace(s, acts), Abs(r), a.g); }
    match a
    case Issue(g, op, order) => IssueFatal(s, acts, g, op, order);
    case Unpark(g) => UnparkFatal(s, acts, g);
    case Cancel(g) =>
    case Dispatch(g) => DispatchFatal(s, acts, g);
    case Sweep(g, c) =>
  }

  lemma IssueFatal(s: State, acts: seq<Action>, g: nat, op: Op, order: seq<nat>)
    requires Init(s) && CanRun(s, acts) && Enabled(Run(s, acts), Issue(g, op, order))
    ensures DoIssue(Run(s, acts), g, op, order).fatal <==> MustDie(Trace(s, acts), Run(s, acts), Issue(g, op, order))
  {
    var r := Run(s, acts);
    InitInv(s);
    RunInv(s, acts);
    match op
    case Plain(arm) => CaseDies(s, acts, arm);
    case Select(cases, _) =>
      var k := Pass1(r, cases, order, 0);
      if k < |order| { CaseDies(s, acts, cases[order[k]]); }
    case Close(ch) =>
      if ch.Ref? {
        ClosedInRun(s, acts, ch.id);
      }
  }

  lemma UnparkFatal(s: State, acts: seq<Action>, g: nat)
    requires Init(s) && CanRun(s, acts) && Enabled(Run(s, acts), Unpark(g))
    ensures DoUnpark(Run(s, acts), g).fatal <==> !Run(s, acts).gs[g].sel && TurnedAway(Trace(s, acts), g)
  {
    var r := Run(s, acts);
    InitInv(s);
    RunInv(s, acts);
    assert GoroutineOk(r.gs[g], |r.chans|);
    WokenByLast(s, acts, g);
  }

  lemma DispatchFatal(s: State, acts: seq<Action>, g: nat)
    requires Init(s) && CanRun(s, acts) && Enabled(Run(s, acts), Dispatch(g))
    ensures DoDispatch(Run(s, acts), g).fatal <==> TurnedAway(Trace(s, acts), g)
  {
    var r := Run(s, acts);
    InitInv(s);
    RunInv(s, acts);
    assert GoroutineOk(r.gs[g], |r.chans|);
    WokenByLast(s, acts, g);
    WinnerIsClaim(r, g);
  }
}
