/** First come, first served: on each side of a channel, goroutines communicate in the order in which
    they blocked.  The Go specification does not ask for this; the queues of src/gochan.rs give it. */
module ChannelOrder {

  import opened Bytes
  import opened Channels
  import opened ChannelInvariant
  import opened ChannelSpec
  import opened ChannelRefinement

  // ─── when a goroutine last took part ────────────────────────────────

  /** The position of the last event of goroutine `g`, or -1. */
  function Since(evs: seq<Event>, g: nat): (n: int)
    ensures -1 <= n < |evs|
    ensures n < 0 <==> LastOf(evs, g).None?
    ensures n >= 0 ==> LastOf(evs, g) == Some(evs[n])
  {
    if evs == [] then -1
    else
      var r := Since(evs[1..], g);
      if r >= 0 then r + 1 else if Involves(evs[0], g) then 0 else -1
  }

  lemma {:induction false} SinceAppend(a: seq<Event>, b: seq<Event>, g: nat)
    ensures Since(a + b, g) == if Since(b, g) >= 0 then |a| + Since(b, g) else Since(a, g)
  {
    if a == [] {
      assert a + b == b;
    } else {
      assert (a + b)[1..] == a[1..] + b;
      SinceAppend(a[1..], b, g);
    }
  }

  /** Goroutine `g` takes no part. */
  predicate Absent(evs: seq<Event>, g: nat) {
    forall k :: 0 <= k < |evs| ==> !Involves(evs[k], g)
  }

  lemma {:induction false} AbsentSince(evs: seq<Event>, g: nat)
    requires Absent(evs, g)
    ensures Since(evs, g) == -1
  {
    if evs == [] {
    } else {
      forall k | 0 <= k < |evs[1..]| ensures !Involves(evs[1..][k], g) { assert evs[1..][k] == evs[k + 1]; }
      AbsentSince(evs[1..], g);
    }
  }

  lemma StillSince(a: seq<Event>, b: seq<Event>, g: nat)
    requires Absent(b, g)
    ensures Since(a + b, g) == Since(a, g) && LastOf(a + b, g) == LastOf(a, g)
  {
    AbsentSince(b, g);
    SinceAppend(a, b, g);
  }

  lemma JustNow(a: seq<Event>, e: Event, g: nat)
    requires Involves(e, g)
    ensures Since(a + [e], g) == |a|
  {
    assert [e][1..] == [];
    SinceAppend(a, [e], g);
  }

  /** Goroutine `g` has blocked with a case on this side of `c`, and nothing has happened to it since. */
  ghost predicate StandsBy(evs: seq<Event>, g: nat, c: nat, send: bool) {
    LastOf(evs, g).Some? && LastOf(evs, g).value.Block? &&
    exists i :: 0 <= i < |LastOf(evs, g).value.cases| && Arm(LastOf(evs, g).value.cases[i], c, send)
  }

  /** Event `e` is a communication of goroutine `h` on this side of `c`, or its refusal by a close. */
  predicate Serves(e: Event, h: nat, c: nat, send: bool) {
    match e
    case SendBuf(g, _, d, _) => g == h && d == c && send
    case RecvBuf(g, _, d, _) => g == h && d == c && !send
    case Meet(g, _, g', _, d, _) => d == c && h == if send then g else g'
    case RecvClosed(g, _, d) => g == h && d == c && !send
    case SendClosed(g, _, d) => g == h && d == c && send
    case _ => false
  }

  // ─── the past tells who is blocked ──────────────────────────────────

  lemma EventBlocks(a: AState, e: Event, g: nat)
    requires Allowed(a, e) && g < |a.gs|
    ensures var b := Next(a, e);
      && |b.gs| == |a.gs|
      && (!Involves(e, g) ==> b.gs[g] == a.gs[g])
      && (Involves(e, g) ==> (b.gs[g].Blocked? <==> e.Block?))
      && (Involves(e, g) && e.Block? ==> b.gs[g] == Blocked(e.cases))
  {
  }

  lemma {:induction false} BlockedByLast(a: AState, evs: seq<Event>, b: AState, g: nat)
    requires Behaves(a, evs, b) && g < |a.gs|
    ensures g < |b.gs|
    ensures LastOf(evs, g).None? ==> b.gs[g] == a.gs[g]
    ensures LastOf(evs, g).Some? ==> (b.gs[g].Blocked? <==> LastOf(evs, g).value.Block?)
    ensures LastOf(evs, g).Some? && LastOf(evs, g).value.Block? ==> b.gs[g] == Blocked(LastOf(evs, g).value.cases)
    decreases |evs|
  {
    if evs == [] {
    } else {
      EventBlocks(a, evs[0], g);
      BlockedByLast(Next(a, evs[0]), evs[1..], b, g);
    }
  }

  /** The trace of a run that started with everybody running. */
  ghost predicate Past(t: seq<Event>, s: State) {
    exists a: AState :: Behaves(a, t, Abs(s)) && forall g :: 0 <= g < |a.gs| ==> a.gs[g].Running?
  }

  /** Who stands by is parked, and its cases are there. */
  lemma StandingOffers(t: seq<Event>, s: State, g: nat, c: nat, send: bool)
    requires Inv(s) && Past(t, s) && StandsBy(t, g, c, send) && g < |s.gs|
    ensures Offers(s.gs[g], c, send)
  {
    var a: AState :| Behaves(a, t, Abs(s)) && forall h :: 0 <= h < |a.gs| ==> a.gs[h].Running?;
    BehavesSize(a, t, Abs(s));
    BlockedByLast(a, t, Abs(s), g);
    assert GoroutineOk(s.gs[g], |s.chans|);
    var i :| 0 <= i < |LastOf(t, g).value.cases| && Arm(LastOf(t, g).value.cases[i], c, send);
    assert s.gs[g].cases[i] == LastOf(t, g).value.cases[i];
  }

  lemma StandersExist(t: seq<Event>, s: State, g: nat)
    requires Past(t, s) && LastOf(t, g).Some? && LastOf(t, g).value.Block?
    ensures g < |s.gs|
  {
    var a: AState :| Behaves(a, t, Abs(s)) && forall h :: 0 <= h < |a.gs| ==> a.gs[h].Running?;
    BehavesSize(a, t, Abs(s));
    BlockExists(a, t, Abs(s), g);
  }

  lemma {:induction false} BlockExists(a: AState, evs: seq<Event>, b: AState, g: nat)
    requires Behaves(a, evs, b) && LastOf(evs, g).Some? && LastOf(evs, g).value.Block?
    ensures g < |a.gs|
    decreases |evs|
  {
    if LastOf(evs[1..], g).Some? {
      EventBlocks(a, evs[0], 0);
      BlockExists(Next(a, evs[0]), evs[1..], b, g);
    }
  }

  // ─── queues are in the order of blocking ────────────────────────────

  /** Of two live entries of different goroutines, the one in front blocked first. */
  predicate InLine(gs: seq<Goroutine>, q: seq<Waiter>, t: seq<Event>) {
    forall i, j :: 0 <= i < j < |q| && Apart(gs, q[i], q[j]) ==> Since(t, q[i].g) < Since(t, q[j].g)
  }

  /** Live entries of different goroutines. */
  predicate Apart(gs: seq<Goroutine>, v: Waiter, w: Waiter) {
    v.g < |gs| && w.g < |gs| && v.g != w.g && Live(gs[v.g]) && Live(gs[w.g])
  }

  ghost predicate Lines(s: State, t: seq<Event>) {
    forall c, send :: 0 <= c < |s.chans| ==> InLine(s.gs, QueueOf(s.chans[c], send), t)
  }

  /** A queue that may have lost one entry. */
  ghost predicate Shrunk<T>(q: seq<T>, r: seq<T>) {
    r == q || exists k :: 0 <= k < |q| && r == RemoveAt(q, k)
  }

  /** Who is live was live before and took no part. */
  predicate Bystanders(gs: seq<Goroutine>, gs': seq<Goroutine>, evs: seq<Event>) {
    |gs'| == |gs| && forall h :: 0 <= h < |gs'| && Live(gs'[h]) ==> Live(gs[h]) && Absent(evs, h)
  }

  lemma LineShrinks(gs: seq<Goroutine>, q: seq<Waiter>, t: seq<Event>, gs': seq<Goroutine>, r: seq<Waiter>,
                    evs: seq<Event>)
    requires InLine(gs, q, t) && Shrunk(q, r) && Bystanders(gs, gs', evs)
    ensures InLine(gs', r, t + evs)
  {
    var k := if r == q then |q| else var k :| 0 <= k < |q| && r == RemoveAt(q, k); k;
    forall i, j | 0 <= i < j < |r| && Apart(gs', r[i], r[j])
      ensures Since(t + evs, r[i].g) < Since(t + evs, r[j].g)
    {
      assert r[i] == q[if i < k then i else i + 1] && r[j] == q[if j < k then j else j + 1];
      StillSince(t, evs, r[i].g);
      StillSince(t, evs, r[j].g);
    }
  }

  /** A step that parks nobody. */
  ghost predicate Quiet(s: State, s': State, evs: seq<Event>) {
    && |s'.chans| == |s.chans| && Bystanders(s.gs, s'.gs, evs)
    && forall c, send :: 0 <= c < |s.chans| ==> Shrunk(QueueOf(s.chans[c], send), QueueOf(s'.chans[c], send))
  }

  lemma QuietLines(s: State, s': State, t: seq<Event>, evs: seq<Event>)
    requires Lines(s, t) && Quiet(s, s', evs)
    ensures Lines(s', t + evs)
  {
    forall c, send | 0 <= c < |s'.chans| ensures InLine(s'.gs, QueueOf(s'.chans[c], send), t + evs) {
      LineShrinks(s.gs, QueueOf(s.chans[c], send), t, s'.gs, QueueOf(s'.chans[c], send), evs);
    }
  }

  lemma {:induction false} ArmsAreMine(g: nat, cases: seq<Case>, n: nat, c: nat, send: bool)
    requires n <= |cases|
    ensures forall w :: w in Arms(g, cases, n, c, send) ==> w.g == g
  {
    if n == 0 {
    } else {
      ArmsAreMine(g, cases, n - 1, c, send);
    }
  }

  /** Parking: the newcomer goes to the end of the lines. */
  lemma ParkLines(s: State, t: seq<Event>, g: nat, sel: bool, cases: seq<Case>)
    requires Inv(s) && g < |s.gs| && s.gs[g].Ready? && Lines(s, t)
    ensures Lines(Park(s, g, sel, cases), t + [Block(g, cases)])
  {
    var s', e := Park(s, g, sel, cases), Block(g, cases);
    forall c, send | 0 <= c < |s'.chans| ensures InLine(s'.gs, QueueOf(s'.chans[c], send), t + [e]) {
      RegisterAppends(s.chans, g, cases, |cases|, c, send);
      ArmsAreMine(g, cases, |cases|, c, send);
      assert QueueOk(s, c, send);
      NewcomerLast(s.gs, QueueOf(s.chans[c], send), t, s'.gs, Arms(g, cases, |cases|, c, send), g, e);
    }
  }

  lemma NewcomerLast(gs: seq<Goroutine>, q: seq<Waiter>, t: seq<Event>, gs': seq<Goroutine>, arms: seq<Waiter>,
                     g: nat, e: Event)
    requires InLine(gs, q, t) && g < |gs| == |gs'| && gs' == gs[g := gs'[g]] && e.Block? && e.g == g
    requires (forall w :: w in arms ==> w.g == g) && forall w :: w in q ==> w.g != g
    ensures InLine(gs', q + arms, t + [e])
  {
    var r := q + arms;
    forall i, j | 0 <= i < j < |r| && Apart(gs', r[i], r[j])
      ensures Since(t + [e], r[i].g) < Since(t + [e], r[j].g)
    {
      assert i < |q|;
      assert r[i] == q[i] && q[i] in q;
      StillSince(t, [e], r[i].g);
      if j < |q| {
        assert r[j] == q[j] && q[j] in q;
        StillSince(t, [e], r[j].g);
      } else {
        assert r[j] == arms[j - |q|];
        JustNow(t, e, g);
      }
    }
  }

  // ─── who is served stands first ─────────────────────────────────────

  /** The first live entry of a queue blocked before everybody else who stands by there. */
  lemma FirstInLine(s: State, t: seq<Event>, c: nat, send: bool, k: nat, g: nat)
    requires Inv(s) && Lines(s, t) && c < |s.chans| && k < |QueueOf(s.chans[c], send)|
    requires var q := QueueOf(s.chans[c], send);
      q[k].g < |s.gs| && Live(s.gs[q[k].g]) && g != q[k].g && forall j :: 0 <= j < k ==> !CanClaim(s.gs, q[j])
    requires g < |s.gs| && Offers(s.gs[g], c, send)
    ensures Since(t, QueueOf(s.chans[c], send)[k].g) < Since(t, g)
  {
    var j := PlaceOf(s, c, send, g);
    LineAt(s.gs, QueueOf(s.chans[c], send), t, k, j);
  }

  lemma LineAt(gs: seq<Goroutine>, q: seq<Waiter>, t: seq<Event>, k: nat, j: nat)
    requires InLine(gs, q, t) && k < |q| && j < |q| && Apart(gs, q[k], q[j]) && CanClaim(gs, q[j])
    requires forall i :: 0 <= i < k ==> !CanClaim(gs, q[i])
    ensures Since(t, q[k].g) < Since(t, q[j].g)
  {
  }

  /** Who offers stands in the queue. */
  lemma PlaceOf(s: State, c: nat, send: bool, g: nat) returns (j: nat)
    requires Inv(s) && c < |s.chans| && g < |s.gs| && Offers(s.gs[g], c, send)
    ensures var q := QueueOf(s.chans[c], send); j < |q| && q[j].g == g && CanClaim(s.gs, q[j])
  {
    var q := QueueOf(s.chans[c], send);
    var i :| 0 <= i < |s.gs[g].cases| && Arm(s.gs[g].cases[i], c, send);
    var w := Waiter(g, i);
    assert QueueOk(s, c, send);
    assert Waits(s.gs[w.g], w.i, c, send);
    assert w in q;
    ClaimableIffLive(s, c, send, w);
    j :| 0 <= j < |q| && q[j] == w;
  }

  /** When a newcomer is served by `e`, nobody else stands by on its side, unless as its partner. */
  lemma NobodyBefore(s: State, g: nat, i: nat, cs: Case, k: nat, send: bool, x: nat)
    requires Inv(s) && ValidCase(s, cs) && cs.ch.Ref? && g < |s.gs| && s.gs[g].Ready? && Try(s, cs).Fires?
    requires k < |TryEvents(s, g, i, cs)| && Serves(TryEvents(s, g, i, cs)[k], g, cs.ch.id, send)
    requires x < |s.gs| && Offers(s.gs[x], cs.ch.id, send)
    ensures Involves(TryEvents(s, g, i, cs)[k], x)
  {
    var c := cs.ch.id;
    assert ChanOk(s, c);
    var other := QueueOf(s.chans[c], !cs.Send?);
    var j := FirstLive(s.gs, other, 0);
    if j < |other| {
      assert other[j] in other;
      ClaimableIffLive(s, c, !cs.Send?, other[j]);
    }
  }

  /** Before the k-th event of an attempt only the newcomer has taken part. */
  lemma OnlyNewcomer(s: State, g: nat, i: nat, cs: Case, k: nat, y: nat)
    requires ValidCase(s, cs) && k < |TryEvents(s, g, i, cs)| && y != g
    ensures Absent(TryEvents(s, g, i, cs)[..k], y)
  {
  }

  /** Who is claimed by an attempt stands first. */
  lemma ClaimedFirst(s: State, t: seq<Event>, g: nat, i: nat, cs: Case, k: nat, h: nat, c: nat, send: bool, x: nat)
    requires Inv(s) && Lines(s, t) && ValidCase(s, cs) && g < |s.gs| && s.gs[g].Ready? && Try(s, cs).Fires?
    requires k < |TryEvents(s, g, i, cs)| && Serves(TryEvents(s, g, i, cs)[k], h, c, send) && h != g
    ensures h < |s.gs| && Since(t, h) < |t|
    ensures x < |s.gs| && x != h && Offers(s.gs[x], c, send) ==> Since(t, h) < Since(t, x)
  {
    var q := QueueOf(s.chans[c], send);
    var j := FirstLive(s.gs, q, 0);
    assert q[j] in q && q[j].g == h;
    ClaimableIffLive(s, c, send, q[j]);
    if x < |s.gs| && x != h && Offers(s.gs[x], c, send) { FirstInLine(s, t, c, send, j, x); }
  }

  lemma TryInOrder(s: State, t: seq<Event>, g: nat, cases: seq<Case>, i: nat, k: nat, h: nat, c: nat, send: bool,
                   x: nat)
    requires Inv(s) && Past(t, s) && Lines(s, t) && g < |s.gs| && s.gs[g].Ready? && ValidCases(s, cases)
    requires i < |cases| && Try(s, cases[i]).Fires? && k < |TryEvents(s, g, i, cases[i])|
    requires var e, evs := TryEvents(s, g, i, cases[i])[k], [Block(g, cases)] + TryEvents(s, g, i, cases[i])[..k];
      Serves(e, h, c, send) && StandsBy(t + evs, x, c, send) && !Involves(e, x)
    ensures var evs := [Block(g, cases)] + TryEvents(s, g, i, cases[i])[..k];
      Since(t + evs, h) < Since(t + evs, x)
  {
    var cs, front := cases[i], TryEvents(s, g, i, cases[i])[..k];
    var evs := [Block(g, cases)] + front;
    if x != g {
      OnlyNewcomer(s, g, i, cs, k, x);
      StillSince(t, evs, x);
      StandersExist(t, s, x);
      StandingOffers(t, s, x, c, send);
    } else {
      FirstOfAll(t, Block(g, cases), front, g);
    }
    if h == g {
      NobodyBefore(s, g, i, cs, k, send, x);
    } else {
      OnlyNewcomer(s, g, i, cs, k, h);
      StillSince(t, evs, h);
      ClaimedFirst(s, t, g, i, cs, k, h, c, send, x);
    }
  }

  /** If the last event of `g` is a `Block`, and there is one now, it is the last that was. */
  lemma FirstOfAll(t: seq<Event>, e: Event, front: seq<Event>, g: nat)
    requires Involves(e, g)
    ensures Since(t + ([e] + front), g) >= |t|
  {
    SinceAppend([e], front, g);
    SinceAppend(t, [e] + front, g);
    assert [e][1..] == [];
  }

  // ─── every step ─────────────────────────────────────────────────────

  lemma FiredInOrder(s: State, t: seq<Event>, g: nat, cases: seq<Case>, i: nat, evs: seq<Event>, k: nat, h: nat, c: nat,
                     send: bool, x: nat)
    requires Inv(s) && Past(t, s) && Lines(s, t) && g < |s.gs| && s.gs[g].Ready? && ValidCases(s, cases)
    requires i < |cases| && Try(s, cases[i]).Fires?
    requires evs == [Block(g, cases)] + TryEvents(s, g, i, cases[i]) + [Return(g)] && k < |evs|
    requires Serves(evs[k], h, c, send) && StandsBy(t + evs[..k], x, c, send) && !Involves(evs[k], x)
    ensures Since(t + evs[..k], h) < Since(t + evs[..k], x)
  {
    var tries := TryEvents(s, g, i, cases[i]);
    assert 0 < k <= |tries|;
    assert evs[k] == tries[k - 1] && evs[..k] == [Block(g, cases)] + tries[..k - 1];
    TryInOrder(s, t, g, cases, i, k - 1, h, c, send, x);
  }

  lemma IssueInOrder(s: State, t: seq<Event>, g: nat, op: Op, order: seq<nat>, k: nat, h: nat, c: nat, send: bool,
                     x: nat)
    requires Inv(s) && Past(t, s) && Lines(s, t) && g < |s.gs| && s.gs[g].Ready? && ValidOp(s, op, order)
    requires !s.fatal && !DoIssue(s, g, op, order).fatal && k < |IssueEvents(s, g, op, order)|
    requires var evs := IssueEvents(s, g, op, order);
      Serves(evs[k], h, c, send) && StandsBy(t + evs[..k], x, c, send) && !Involves(evs[k], x)
    ensures var evs := IssueEvents(s, g, op, order); Since(t + evs[..k], h) < Since(t + evs[..k], x)
  {
    var evs := IssueEvents(s, g, op, order);
    match op
    case Plain(arm) => FiredInOrder(s, t, g, [arm], 0, evs, k, h, c, send, x);
    case Select(cases, hasDefault) =>
      var n := Pass1(s, cases, order, 0);
      FiredInOrder(s, t, g, cases, order[n], evs, k, h, c, send, x);
    case Close(_) =>
  }

  lemma SweepInOrder(s: State, t: seq<Event>, d: nat, h: nat, c: nat, send: bool, x: nat)
    requires Inv(s) && Past(t, s) && Lines(s, t) && d < |s.chans| && s.chans[d].closer.Some? && SweepEvents(s, d) != []
    requires var e := SweepEvents(s, d)[0]; Serves(e, h, c, send) && StandsBy(t, x, c, send) && !Involves(e, x)
    ensures Since(t, h) < Since(t, x)
  {
    var y := s.chans[d].closer.value;
    var q := QueueOf(s.chans[d], y.send);
    assert CloserOk(s, d);
    assert q[y.k] in q;
    ClaimableIffLive(s, d, y.send, q[y.k]);
    forall j | 0 <= j < y.k ensures !CanClaim(s.gs, q[j]) {
      assert q[j] in q;
      ClaimableIffLive(s, d, y.send, q[j]);
    }
    StandersExist(t, s, x);
    StandingOffers(t, s, x, c, send);
    FirstInLine(s, t, d, y.send, y.k, x);
  }

  lemma StepInOrder(s: State, t: seq<Event>, a: Action, k: nat, h: nat, c: nat, send: bool, x: nat)
    requires Inv(s) && Past(t, s) && Lines(s, t) && Enabled(s, a) && !Step(s, a).fatal && k < |EventsOf(s, a)|
    requires var evs := EventsOf(s, a);
      Serves(evs[k], h, c, send) && StandsBy(t + evs[..k], x, c, send) && !Involves(evs[k], x)
    ensures var evs := EventsOf(s, a); Since(t + evs[..k], h) < Since(t + evs[..k], x)
  {
    match a
    case Issue(g, op, order) => IssueInOrder(s, t, g, op, order, k, h, c, send, x);
    case Sweep(g, d) =>
      assert t + EventsOf(s, a)[..0] == t;
      SweepInOrder(s, t, d, h, c, send, x);
    case _ =>
  }

  /** A claim takes one entry from one queue, and its goroutine is live no more. */
  lemma ClaimQuiet(s: State, s': State, c: nat, send: bool, k: nat, evs: seq<Event>)
    requires Inv(s) && c < |s.chans| && k < |QueueOf(s.chans[c], send)| && |s'.chans| == |s.chans|
    requires QueueOf(s'.chans[c], send) == RemoveAt(QueueOf(s.chans[c], send), k)
    requires forall d, b :: 0 <= d < |s.chans| && (d != c || b != send) ==>
      QueueOf(s'.chans[d], b) == QueueOf(s.chans[d], b)
    requires var w := QueueOf(s.chans[c], send)[k];
      && w.g < |s.gs| == |s'.gs| && s'.gs == s.gs[w.g := s'.gs[w.g]] && !Live(s'.gs[w.g])
      && forall h :: 0 <= h < |s.gs| && Live(s.gs[h]) && h != w.g ==> Absent(evs, h)
    ensures Quiet(s, s', evs)
  {
    var q := QueueOf(s.chans[c], send);
    assert Shrunk(q, RemoveAt(q, k));
    forall d, b | 0 <= d < |s.chans| ensures Shrunk(QueueOf(s.chans[d], b), QueueOf(s'.chans[d], b)) {
    }
  }

  lemma SendQuiet(s: State, g: nat, i: nat, c: nat, v: Val)
    requires Inv(s) && g < |s.gs| && s.gs[g].Ready? && c < |s.chans| && s.chans[c].closer.None?
    requires TrySend(s, c, v).Fires?
    ensures Quiet(s, TrySend(s, c, v).s, SendEvents(s, g, i, c, v))
  {
    var q := s.chans[c].recvq;
    var k := FirstLive(s.gs, q, 0);
    if k < |q| {
      assert q[k] in QueueOf(s.chans[c], false);
      ClaimableIffLive(s, c, false, q[k]);
      assert GoroutineOk(s.gs[q[k].g], |s.chans|);
      ClaimQuiet(s, TrySend(s, c, v).s, c, false, k, SendEvents(s, g, i, c, v));
    }
  }

  lemma RecvQuiet(s: State, g: nat, i: nat, c: nat)
    requires Inv(s) && g < |s.gs| && s.gs[g].Ready? && c < |s.chans| && s.chans[c].closer.None? && TryRecv(s, c).Fires?
    ensures Quiet(s, TryRecv(s, c).s, RecvEvents(s, g, i, c))
  {
    var q := s.chans[c].sendq;
    var k := FirstLive(s.gs, q, 0);
    assert ChanOk(s, c);
    if !(s.chans[c].closed && s.chans[c].buf == []) && k < |q| {
      var w, v := ParkedSender(s, c, k);
      ClaimQuiet(s, TryRecv(s, c).s, c, true, k, RecvEvents(s, g, i, c));
    }
  }

  lemma TryQuiet(s: State, g: nat, i: nat, cs: Case)
    requires Inv(s) && g < |s.gs| && s.gs[g].Ready? && ValidCase(s, cs) && Try(s, cs).Fires?
    ensures Quiet(s, Try(s, cs).s, TryEvents(s, g, i, cs))
  {
    if cs.Send? { SendQuiet(s, g, i, cs.ch.id, cs.v); } else { RecvQuiet(s, g, i, cs.ch.id); }
  }

  lemma CompleteQuiet(s: State, g: nat, cases: seq<Case>, i: nat)
    requires Inv(s) && g < |s.gs| && s.gs[g].Ready? && ValidCases(s, cases) && i < |cases| && Try(s, cases[i]).Fires?
    ensures |Try(s, cases[i]).s.gs| == |s.gs|
    ensures Quiet(s, Complete(s, g, i, Try(s, cases[i])),
                  [Block(g, cases)] + TryEvents(s, g, i, cases[i]) + [Return(g)])
  {
    TryQuiet(s, g, i, cases[i]);
  }

  lemma IssueLines(s: State, t: seq<Event>, g: nat, op: Op, order: seq<nat>)
    requires Inv(s) && Lines(s, t) && g < |s.gs| && s.gs[g].Ready? && ValidOp(s, op, order)
    requires !s.fatal && !DoIssue(s, g, op, order).fatal
    ensures Lines(DoIssue(s, g, op, order), t + IssueEvents(s, g, op, order))
  {
    var s', evs := DoIssue(s, g, op, order), IssueEvents(s, g, op, order);
    match op
    case Plain(arm) =>
      if Try(s, arm).Blocks? {
        ParkLines(s, t, g, false, [arm]);
      } else {
        CompleteQuiet(s, g, [arm], 0);
        QuietLines(s, s', t, evs);
      }
    case Select(cases, hasDefault) =>
      var k := Pass1(s, cases, order, 0);
      if k < |order| {
        CompleteQuiet(s, g, cases, order[k]);
        QuietLines(s, s', t, evs);
      } else if hasDefault {
        QuietLines(s, s', t, evs);
      } else {
        ParkLines(s, t, g, true, cases);
      }
    case Close(_) => QuietLines(s, s', t, evs);
  }

  lemma CancelQuiet(s: State, g: nat)
    requires g < |s.gs| && s.gs[g].Waking? && |s.gs[g].winners| < |s.gs[g].cases|
    ensures Quiet(s, DoCancel(s, g), [])
  {
    var s' := DoCancel(s, g);
    CancelOnlyWakes(s, g, s');
    forall c, send | 0 <= c < |s.chans| ensures Shrunk(QueueOf(s.chans[c], send), QueueOf(s'.chans[c], send)) {
      CancelShrinks(s, g, s', c, send);
    }
  }

  lemma CancelOnlyWakes(s: State, g: nat, s': State)
    requires g < |s.gs| && s.gs[g].Waking? && |s.gs[g].winners| < |s.gs[g].cases| && s' == DoCancel(s, g)
    ensures |s'.chans| == |s.chans| && Bystanders(s.gs, s'.gs, [])
  {
  }

  lemma CancelShrinks(s: State, g: nat, s': State, c: nat, send: bool)
    requires g < |s.gs| && s.gs[g].Waking? && |s.gs[g].winners| < |s.gs[g].cases| && s' == DoCancel(s, g)
    requires c < |s.chans| == |s'.chans|
    ensures Shrunk(QueueOf(s.chans[c], send), QueueOf(s'.chans[c], send))
  {
    var cs, q := s.gs[g].cases[|s.gs[g].winners|], QueueOf(s.chans[c], send);
    if Arm(cs, c, send) {
      var n := IndexOf(q, Waiter(g, |s.gs[g].winners|), 0);
      if n < |q| { assert QueueOf(s'.chans[c], send) == RemoveAt(q, n); }
    } else {
      assert QueueOf(s'.chans[c], send) == q;
    }
  }

  lemma SweepQuiet(s: State, c: nat)
    requires Inv(s) && c < |s.chans| && s.chans[c].closer.Some?
    ensures Quiet(s, DoSweep(s, c), SweepEvents(s, c))
  {
    var x := s.chans[c].closer.value;
    var q := QueueOf(s.chans[c], x.send);
    if x.k < |q| && CanClaim(s.gs, q[x.k]) {
      assert q[x.k] in q;
      ClaimableIffLive(s, c, x.send, q[x.k]);
      assert GoroutineOk(s.gs[q[x.k].g], |s.chans|);
      ClaimQuiet(s, DoSweep(s, c), c, x.send, x.k, SweepEvents(s, c));
    }
  }

  lemma StepLines(s: State, t: seq<Event>, a: Action)
    requires Inv(s) && Lines(s, t) && Enabled(s, a) && !Step(s, a).fatal
    ensures Lines(Step(s, a), t + EventsOf(s, a))
  {
    match a
    case Issue(g, op, order) => IssueLines(s, t, g, op, order);
    case Cancel(g) => CancelQuiet(s, g); QuietLines(s, Step(s, a), t, []);
    case Sweep(g, c) => SweepQuiet(s, c); QuietLines(s, Step(s, a), t, SweepEvents(s, c));
    case _ => QuietLines(s, Step(s, a), t, EventsOf(s, a));
  }

  // ─── every run ──────────────────────────────────────────────────────

  lemma PastStep(t: seq<Event>, s: State, evs: seq<Event>, s': State)
    requires Past(t, s) && Behaves(Abs(s), evs, Abs(s'))
    ensures Past(t + evs, s')
  {
    var a: AState :| Behaves(a, t, Abs(s)) && forall g :: 0 <= g < |a.gs| ==> a.gs[g].Running?;
    BehavesAppend(a, t, Abs(s), evs, Abs(s'));
  }

  /** The step behind the n-th event of a run, and everything known when it is taken. */
  lemma {:induction false} EventAt(s: State, t: seq<Event>, acts: seq<Action>, n: nat)
    returns (m: State, past: seq<Event>, a: Action, k: nat)
    requires Inv(s) && Past(t, s) && Lines(s, t) && CanRun(s, acts) && !Run(s, acts).fatal
    requires |t| <= n < |t + Trace(s, acts)|
    ensures Inv(m) && Past(past, m) && Lines(m, past) && Enabled(m, a) && !Step(m, a).fatal && k < |EventsOf(m, a)|
    ensures var u := t + Trace(s, acts); u[n] == EventsOf(m, a)[k] && u[..n] == past + EventsOf(m, a)[..k]
    decreases |acts|
  {
    a := acts[0];
    var next, evs := Step(s, a), EventsOf(s, a);
    assert !next.fatal by { assert acts[1..] != [] ==> Enabled(next, acts[1..][0]); }
    var rest := Trace(next, acts[1..]);
    assert t + (evs + rest) == t + evs + rest;
    k := n - |t|;
    if k < |evs| {
      m, past := s, t;
      InFront(t, evs, rest, n);
    } else {
      StepInv(s, a);
      StepRefines(s, a);
      StepLines(s, t, a);
      PastStep(t, s, evs, next);
      m, past, a, k := EventAt(next, t + evs, acts[1..], n);
    }
  }

  lemma InFront(t: seq<Event>, evs: seq<Event>, rest: seq<Event>, n: nat)
    requires |t| <= n < |t| + |evs|
    ensures var u := t + evs + rest; u[n] == evs[n - |t|] && u[..n] == t + evs[..n - |t|]
  {
  }

  /** In every run from fresh channels, whenever goroutine `h` communicates on one side of a channel,
      or is turned away there by a close, it blocked before every goroutine that stands by on that
      side and is left standing.  Selects count on each channel they name. */
  lemma FirstComeFirstServed(s: State, acts: seq<Action>, n: nat, h: nat, c: nat, send: bool, x: nat)
    requires Init(s) && CanRun(s, acts) && !Run(s, acts).fatal && n < |Trace(s, acts)|
    requires var u := Trace(s, acts); Serves(u[n], h, c, send) && StandsBy(u[..n], x, c, send) && !Involves(u[n], x)
    ensures var u := Trace(s, acts); Since(u[..n], h) < Since(u[..n], x)
  {
    InitInv(s);
    InitPast(s);
    assert [] + Trace(s, acts) == Trace(s, acts);
    var m, past, a, k := EventAt(s, [], acts, n);
    StepInOrder(m, past, a, k, h, c, send, x);
  }

  /** A close takes receivers first: who is turned away as a sender has no case that receives from the
      same channel. */
  lemma ReceiversFirst(s: State, acts: seq<Action>, n: nat)
    requires Init(s) && CanRun(s, acts) && !Run(s, acts).fatal && n < |Trace(s, acts)| && Trace(s, acts)[n].SendClosed?
    ensures var u := Trace(s, acts); !StandsBy(u[..n], u[n].g, u[n].c, false)
  {
    InitInv(s);
    InitPast(s);
    assert [] + Trace(s, acts) == Trace(s, acts);
    var m, past, a, k := EventAt(s, [], acts, n);
    TurnedAwayInSweep(m, a, k);
    assert past + EventsOf(m, a)[..0] == past;
    TurnedAwayOffersNothing(m, past, a.c);
  }

  lemma TurnedAwayInSweep(s: State, a: Action, k: nat)
    requires Enabled(s, a) && k < |EventsOf(s, a)| && EventsOf(s, a)[k].SendClosed?
    ensures a.Sweep? && k == 0
  {
  }

  lemma TurnedAwayOffersNothing(s: State, t: seq<Event>, c: nat)
    requires Inv(s) && Past(t, s) && c < |s.chans| && s.chans[c].closer.Some?
    requires SweepEvents(s, c) != [] && SweepEvents(s, c)[0].SendClosed?
    ensures var e := SweepEvents(s, c)[0]; e.c == c && !StandsBy(t, e.g, c, false)
  {
    var g := SweepEvents(s, c)[0].g;
    assert CloserOk(s, c);
    if StandsBy(t, g, c, false) {
      StandersExist(t, s, g);
      StandingOffers(t, s, g, c, false);
      SweptMeansNoOffers(s, c, false);
    }
  }

  lemma InitPast(s: State)
    requires Init(s)
    ensures Past([], s) && Lines(s, [])
  {
    assert Behaves(Abs(s), [], Abs(s));
  }
}
