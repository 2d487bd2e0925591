/** Channels as the Go specification describes them ("Channel types", "Send statements",
    "Select statements", "Close"): a bounded FIFO per channel and goroutines blocked on a
    set of communications, any one of which may happen when it can proceed.  There are
    no queues of waiters, no claims and no cancelling here. */
module ChannelSpec {

  import opened Bytes
  import opened Channels

  datatype AChan = AChan(cap: nat, closed: bool, fifo: seq<Val>)

  /** `Decided`: the communication of case `i` has happened, the goroutine has not yet
      gone on. */
  datatype AGoroutine =
    | Running(last: Outcome)
    | Blocked(cases: seq<Case>)
    | Decided(cs: Case, i: nat, v: Val, ok: bool)

  datatype AState = AState(chans: seq<AChan>, gs: seq<AGoroutine>)

  datatype Event =
    | Block(g: nat, cases: seq<Case>)
    | SendBuf(g: nat, i: nat, c: nat, v: Val)
    | RecvBuf(g: nat, i: nat, c: nat, v: Val)
    | Meet(g: nat, i: nat, h: nat, j: nat, c: nat, v: Val)
    | RecvClosed(g: nat, i: nat, c: nat)
    | SendClosed(g: nat, i: nat, c: nat)
    | Default(g: nat)
    | CloseIt(g: nat, c: nat)
    | Return(g: nat)

  /** Goroutine `g` is blocked and its case `i` is `cs`. */
  predicate Has(a: AState, g: nat, i: nat, cs: Case) {
    g < |a.gs| && a.gs[g].Blocked? && i < |a.gs[g].cases| && a.gs[g].cases[i] == cs
  }

  /** A communication that the specification allows to proceed now. */
  predicate Communicates(a: AState, e: Event) {
    match e
    case SendBuf(g, i, c, v) =>
      c < |a.chans| && Has(a, g, i, Send(Ref(c), v)) && !a.chans[c].closed && |a.chans[c].fifo| < a.chans[c].cap
    case RecvBuf(g, i, c, v) =>
      c < |a.chans| && Has(a, g, i, Recv(Ref(c))) && a.chans[c].fifo != [] && a.chans[c].fifo[0] == v
    case Meet(g, i, h, j, c, v) =>
      && c < |a.chans| && g != h && Has(a, g, i, Send(Ref(c), v)) && Has(a, h, j, Recv(Ref(c)))
      && !a.chans[c].closed && a.chans[c].fifo == []
    case RecvClosed(g, i, c) =>
      c < |a.chans| && Has(a, g, i, Recv(Ref(c))) && a.chans[c].closed && a.chans[c].fifo == []
    case SendClosed(g, i, c) =>
      && c < |a.chans| && g < |a.gs| && a.gs[g].Blocked? && i < |a.gs[g].cases|
      && a.gs[g].cases[i].Send? && a.gs[g].cases[i].ch == Ref(c) && a.chans[c].closed
    case _ => false
  }

  predicate Involves(e: Event, g: nat) {
    e.g == g || (e.Meet? && e.h == g)
  }

  /** No communication of goroutine `g` can proceed. */
  ghost predicate Stuck(a: AState, g: nat) {
    forall e: Event :: Communicates(a, e) ==> !Involves(e, g)
  }

  ghost predicate Allowed(a: AState, e: Event) {
    match e
    case Block(g, cases) => g < |a.gs| && a.gs[g].Running?
    case Default(g) => g < |a.gs| && a.gs[g].Blocked? && Stuck(a, g)
    case CloseIt(g, c) => g < |a.gs| && a.gs[g].Running? && c < |a.chans| && !a.chans[c].closed
    case Return(g) => g < |a.gs| && a.gs[g].Decided? && !(a.gs[g].cs.Send? && !a.gs[g].ok)
    case _ => Communicates(a, e)
  }

  function Decide(a: AState, g: nat, i: nat, v: Val, ok: bool): seq<AGoroutine>
    requires g < |a.gs| && a.gs[g].Blocked? && i < |a.gs[g].cases|
  {
    a.gs[g := Decided(a.gs[g].cases[i], i, v, ok)]
  }

  ghost function Next(a: AState, e: Event): AState
    requires Allowed(a, e)
  {
    match e
    case Block(g, cases) => a.(gs := a.gs[g := Blocked(cases)])
    case SendBuf(g, i, c, v) =>
      AState(a.chans[c := a.chans[c].(fifo := a.chans[c].fifo + [v])], Decide(a, g, i, v, true))
    case RecvBuf(g, i, c, v) =>
      AState(a.chans[c := a.chans[c].(fifo := a.chans[c].fifo[1..])], Decide(a, g, i, v, true))
    case Meet(g, i, h, j, c, v) => a.(gs := Decide(a.(gs := Decide(a, g, i, v, true)), h, j, v, true))
    case RecvClosed(g, i, c) => a.(gs := Decide(a, g, i, 0, false))
    case SendClosed(g, i, c) => a.(gs := Decide(a, g, i, 0, false))
    case Default(g) => a.(gs := a.gs[g := Running(DefaultTaken)])
    case CloseIt(g, c) => AState(a.chans[c := a.chans[c].(closed := true)], a.gs[g := Running(DidClose)])
    case Return(g) => a.(gs := a.gs[g := Running(Fired(a.gs[g].i, a.gs[g].v, a.gs[g].ok))])
  }

  /** `evs` is a behaviour from `a` to `b`. */
  ghost predicate Behaves(a: AState, evs: seq<Event>, b: AState)
    decreases |evs|
  {
    if evs == [] then a == b else Allowed(a, evs[0]) && Behaves(Next(a, evs[0]), evs[1..], b)
  }

  lemma BehavesCons(a: AState, e: Event, evs: seq<Event>, b: AState)
    requires Allowed(a, e) && Behaves(Next(a, e), evs, b)
    ensures Behaves(a, [e] + evs, b)
  {
    assert ([e] + evs)[1..] == evs;
  }

  lemma {:induction false} BehavesAppend(a: AState, es: seq<Event>, b: AState, fs: seq<Event>, d: AState)
    requires Behaves(a, es, b) && Behaves(b, fs, d)
    ensures Behaves(a, es + fs, d)
    decreases |es|
  {
    if es == [] {
      assert es + fs == fs;
    } else {
      BehavesAppend(Next(a, es[0]), es[1..], b, fs, d);
      BehavesCons(a, es[0], es[1..] + fs, d);
      assert es + fs == [es[0]] + (es[1..] + fs);
    }
  }

  // ─── what was sent and received on a channel ────────────────────────

  /** The values sent on `c`, in the order in which the sends happened. */
  function Sent(evs: seq<Event>, c: nat): seq<Val> {
    if evs == [] then []
    else (if (evs[0].SendBuf? || evs[0].Meet?) && evs[0].c == c then [evs[0].v] else []) + Sent(evs[1..], c)
  }

  /** The values received on `c` with `ok`, in the order of the receives. */
  function Received(evs: seq<Event>, c: nat): seq<Val> {
    if evs == [] then []
    else (if (evs[0].RecvBuf? || evs[0].Meet?) && evs[0].c == c then [evs[0].v] else []) + Received(evs[1..], c)
  }

  /** All receives on `c`, as (value, ok). */
  function Results(evs: seq<Event>, c: nat): seq<(Val, bool)> {
    if evs == [] then []
    else (if (evs[0].RecvBuf? || evs[0].Meet?) && evs[0].c == c then [(evs[0].v, true)]
          else if evs[0].RecvClosed? && evs[0].c == c then [(0, false)] else []) + Results(evs[1..], c)
  }

  /** What one event takes from and puts into `c`. */
  function Taken(e: Event, c: nat): seq<Val> {
    if (e.RecvBuf? || e.Meet?) && e.c == c then [e.v] else []
  }

  function Given(e: Event, c: nat): seq<Val> {
    if (e.SendBuf? || e.Meet?) && e.c == c then [e.v] else []
  }

  lemma EventFifo(a: AState, e: Event, c: nat)
    requires Allowed(a, e) && c < |a.chans|
    ensures var b := Next(a, e);
      && |b.chans| == |a.chans| && b.chans[c].cap == a.chans[c].cap
      && Taken(e, c) + b.chans[c].fifo == a.chans[c].fifo + Given(e, c)
  {
    var f := a.chans[c].fifo;
    if e.RecvBuf? && e.c == c { assert [e.v] + f[1..] == f; }
  }

  lemma Chained(x: seq<Val>, r: seq<Val>, last: seq<Val>, mid: seq<Val>, t: seq<Val>, first: seq<Val>, y: seq<Val>)
    requires r + last == mid + t && x + mid == first + y
    ensures (x + r) + last == first + (y + t)
  {
    assert (x + r) + last == x + (r + last);
    assert x + (mid + t) == (x + mid) + t;
    assert (first + y) + t == first + (y + t);
  }

  /** FIFO and conservation: what was received, followed by what is buffered, is what was
      buffered at the start followed by what was sent. */
  lemma {:induction false} Fifo(a: AState, evs: seq<Event>, b: AState, c: nat)
    requires Behaves(a, evs, b) && c < |a.chans|
    ensures c < |b.chans| && a.chans[c].cap == b.chans[c].cap
    ensures Received(evs, c) + b.chans[c].fifo == a.chans[c].fifo + Sent(evs, c)
    decreases |evs|
  {
    if evs == [] {
    } else {
      var e := evs[0];
      var m := Next(a, e);
      EventFifo(a, e, c);
      Fifo(m, evs[1..], b, c);
      Chained(Taken(e, c), Received(evs[1..], c), b.chans[c].fifo, m.chans[c].fifo, Sent(evs[1..], c),
              a.chans[c].fifo, Given(e, c));
    }
  }

  /** The buffer never holds more than `cap` values. */
  lemma {:induction false} Bounded(a: AState, evs: seq<Event>, b: AState, c: nat)
    requires Behaves(a, evs, b) && c < |a.chans| && |a.chans[c].fifo| <= a.chans[c].cap
    ensures c < |b.chans| && |b.chans[c].fifo| <= b.chans[c].cap
    decreases |evs|
  {
    if evs == [] {
    } else {
      Bounded(Next(a, evs[0]), evs[1..], b, c);
    }
  }

  /** What a closed channel with these buffered values answers to its first `n` receives. */
  function Drain(fifo: seq<Val>, n: nat): (r: seq<(Val, bool)>)
    ensures |r| == n
  {
    seq(n, k requires 0 <= k < n => if k < |fifo| then (fifo[k], true) else (0, false))
  }

  /** A closed channel drains and then answers (zero, false) for ever; nothing more is
      sent on it, its capacity stays, and it stays closed. */
  lemma {:induction false} CloseDrains(a: AState, evs: seq<Event>, b: AState, c: nat)
    requires Behaves(a, evs, b) && c < |a.chans| && a.chans[c].closed
    ensures Sent(evs, c) == []
    ensures Results(evs, c) == Drain(a.chans[c].fifo, |Results(evs, c)|)
    ensures c < |b.chans| && b.chans[c].closed && b.chans[c].cap == a.chans[c].cap
    decreases |evs|
  {
    if evs == [] {
    } else {
      var e := evs[0];
      var m := Next(a, e);
      CloseDrains(m, evs[1..], b, c);
      var rest := Results(evs[1..], c);
      if e.RecvBuf? && e.c == c {
        assert Results(evs, c) == [(e.v, true)] + rest;
      } else if e.RecvClosed? && e.c == c {
        assert Results(evs, c) == [(0, false)] + rest;
      } else {
        assert Results(evs, c) == rest;
      }
    }
  }

  // ─── what the past says about the present ───────────────────────────

  /** The last event in which goroutine `g` took part. */
  function LastOf(evs: seq<Event>, g: nat): Option<Event> {
    if evs == [] then None
    else if LastOf(evs[1..], g).Some? then LastOf(evs[1..], g)
    else if Involves(evs[0], g) then Some(evs[0])
    else None
  }

  /** Channel `c` was closed. */
  predicate ClosedIn(evs: seq<Event>, c: nat) {
    evs != [] && ((evs[0].CloseIt? && evs[0].c == c) || ClosedIn(evs[1..], c))
  }

  /** Event `e` is the communication of case `i` of goroutine `g`, with this result. */
  predicate Decides(e: Event, g: nat, cs: Case, i: nat, v: Val, ok: bool) {
    match e
    case SendBuf(h, k, c, x) => h == g && k == i && cs == Send(Ref(c), x) && v == x && ok
    case RecvBuf(h, k, c, x) => h == g && k == i && cs == Recv(Ref(c)) && v == x && ok
    case Meet(h, k, h', k', c, x) =>
      v == x && ok && ((h == g && k == i && cs == Send(Ref(c), x)) || (h' == g && k' == i && cs == Recv(Ref(c))))
    case RecvClosed(h, k, c) => h == g && k == i && cs == Recv(Ref(c)) && v == 0 && !ok
    case SendClosed(h, k, c) => h == g && k == i && cs.Send? && cs.ch == Ref(c) && v == 0 && !ok
    case _ => false
  }

  /** A goroutine changes only in events that involve it, and is decided by its communication. */
  lemma EventDecides(a: AState, e: Event, g: nat)
    requires Allowed(a, e) && g < |a.gs|
    ensures var b := Next(a, e);
      && |b.gs| == |a.gs| && |b.chans| == |a.chans|
      && (!Involves(e, g) ==> b.gs[g] == a.gs[g])
      && (Involves(e, g) && b.gs[g].Decided? ==> Decides(e, g, b.gs[g].cs, b.gs[g].i, b.gs[g].v, b.gs[g].ok))
  {
  }

  lemma {:induction false} BehavesSize(a: AState, evs: seq<Event>, b: AState)
    requires Behaves(a, evs, b)
    ensures |b.gs| == |a.gs| && |b.chans| == |a.chans|
    decreases |evs|
  {
    if evs == [] {
    } else {
      BehavesSize(Next(a, evs[0]), evs[1..], b);
    }
  }

  /** A decided goroutine was decided by the last event it took part in. */
  lemma {:induction false} DecidedByLast(a: AState, evs: seq<Event>, b: AState, g: nat)
    requires Behaves(a, evs, b) && g < |a.gs|
    ensures g < |b.gs|
    ensures LastOf(evs, g).None? ==> b.gs[g] == a.gs[g]
    ensures LastOf(evs, g).Some? && b.gs[g].Decided? ==>
      Decides(LastOf(evs, g).value, g, b.gs[g].cs, b.gs[g].i, b.gs[g].v, b.gs[g].ok)
    decreases |evs|
  {
    if evs == [] {
    } else {
      EventDecides(a, evs[0], g);
      DecidedByLast(Next(a, evs[0]), evs[1..], b, g);
    }
  }

  /** A channel is closed exactly when it was or somebody closed it. */
  lemma {:induction false} ClosedIff(a: AState, evs: seq<Event>, b: AState, c: nat)
    requires Behaves(a, evs, b) && c < |a.chans|
    ensures c < |b.chans| && (b.chans[c].closed <==> a.chans[c].closed || ClosedIn(evs, c))
    decreases |evs|
  {
    if evs == [] {
    } else {
      ClosedIff(Next(a, evs[0]), evs[1..], b, c);
    }
  }

  /** A parked sender is turned away only by a closed channel. */
  lemma {:induction false} TurnedAwayByClose(a: AState, evs: seq<Event>, b: AState, g: nat)
    requires Behaves(a, evs, b) && LastOf(evs, g).Some? && LastOf(evs, g).value.SendClosed?
    ensures var c := LastOf(evs, g).value.c; c < |a.chans| && c < |b.chans| && b.chans[c].closed
    decreases |evs|
  {
    if LastOf(evs[1..], g).Some? {
      TurnedAwayByClose(Next(a, evs[0]), evs[1..], b, g);
    } else {
      ClosedIff(Next(a, evs[0]), evs[1..], b, evs[0].c);
    }
  }
}
