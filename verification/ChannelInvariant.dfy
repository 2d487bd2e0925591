/** The invariant of every reachable state of the channel machine: who is queued where,
    who has been claimed by whom, and that nothing that could proceed is left waiting. */
module ChannelInvariant {

  import opened Bytes
  import opened Channels

  // ─── who waits where ────────────────────────────────────────────────

  predicate Arm(cs: Case, c: nat, send: bool) {
    cs.ch == Ref(c) && cs.Send? == send
  }

  /** Case `i` of this goroutine has an entry on queue (`c`, `send`): it was registered,
      was not claimed by a waker, and pass 3 has not cancelled it yet. */
  predicate Waits(g: Goroutine, i: nat, c: nat, send: bool) {
    && !g.Ready?
    && i < |g.cases|
    && Arm(g.cases[i], c, send)
    && (g.claim.Some? ==> i != g.claim.value.i)
    && (g.Waking? ==> |g.winners| <= i)
  }

  predicate NoDups<T(==)>(q: seq<T>) {
    forall i, j :: 0 <= i < j < |q| ==> q[i] != q[j]
  }

  ghost predicate QueueOk(s: State, c: nat, send: bool)
    requires c < |s.chans|
  {
    var q := QueueOf(s.chans[c], send);
    && NoDups(q)
    && forall w :: w in q <==> (w.g < |s.gs| && Waits(s.gs[w.g], w.i, c, send))
  }

  // ─── a goroutine and its sudogs ─────────────────────────────────────

  /** Parked and not yet claimed: the goroutine still offers all its cases. */
  predicate Live(g: Goroutine) {
    g.Parked? && g.claim.None?
  }

  /** The entry of the claimed case holds what the claim says was communicated. */
  predicate ClaimOk(cs: Case, sg: Sudog, cl: Claim) {
    && cs.ch.Ref?
    && sg.success == cl.ok
    && (cs.Send? && cl.ok ==> cl.v == cs.v && sg.value.None?)
    && (cs.Recv? ==> sg.value == if cl.ok then Some(cl.v) else None)
    && (cs.Recv? && !cl.ok ==> cl.v == 0)
  }

  predicate GoroutineOk(g: Goroutine, n: nat) {
    g.Ready? ||
    (&& |g.sudogs| == |g.cases|
     && (forall i :: 0 <= i < |g.cases| ==> g.cases[i].ch.Nil? || g.cases[i].ch.id < n)
     && (forall i :: 0 <= i < |g.cases| && g.claim != None && i != g.claim.value.i ==>
           g.sudogs[i] == NewSudog(g.cases[i]))
     && (g.claim.None? ==> forall i :: 0 <= i < |g.cases| ==> g.sudogs[i] == NewSudog(g.cases[i]))
     && (g.claim.Some? ==>
           g.claim.value.i < |g.cases| && ClaimOk(g.cases[g.claim.value.i], g.sudogs[g.claim.value.i], g.claim.value))
     && (g.Parked? && !g.sel ==> |g.cases| == 1)
     && (g.Waking? ==>
           && g.claim.Some?
           && |g.winners| <= |g.cases|
           && forall i :: 0 <= i < |g.winners| ==> (g.winners[i] <==> i == g.claim.value.i)))
  }

  // ─── nothing that could proceed is left waiting ─────────────────────

  predicate Offers(g: Goroutine, c: nat, send: bool) {
    Live(g) && exists i :: 0 <= i < |g.cases| && Arm(g.cases[i], c, send)
  }

  /** Closed, and its `Close` has woken everybody. */
  predicate Shut(ch: Hchan) {
    ch.closed && ch.closer.None?
  }

  /** A live sender means a full buffer, a live receiver an empty one, and never both from
      different goroutines. */
  predicate ChanOk(s: State, c: nat)
    requires c < |s.chans|
  {
    var ch := s.chans[c];
    && |ch.buf| <= ch.cap
    && (forall g :: 0 <= g < |s.gs| && Offers(s.gs[g], c, true) ==> !Shut(ch) && |ch.buf| == ch.cap)
    && (forall g :: 0 <= g < |s.gs| && Offers(s.gs[g], c, false) ==> !Shut(ch) && ch.buf == [])
    && (forall g, h :: 0 <= g < |s.gs| && 0 <= h < |s.gs| && Offers(s.gs[g], c, true) && Offers(s.gs[h], c, false) ==>
          g == h)
  }

  /** The first `k` entries of `q` are stale. */
  predicate Swept(gs: seq<Goroutine>, q: seq<Waiter>, k: nat) {
    k <= |q| && forall j :: 0 <= j < k ==> q[j].g < |gs| && !Live(gs[q[j].g])
  }

  /** A `Close` under way: the channel is marked, and what the cursor has passed is stale. */
  predicate CloserOk(s: State, c: nat)
    requires c < |s.chans|
  {
    var ch := s.chans[c];
    ch.closer.Some? ==>
      && ch.closed && ch.closer.value.g < |s.gs| && s.gs[ch.closer.value.g].Ready?
      && Swept(s.gs, QueueOf(ch, ch.closer.value.send), ch.closer.value.k)
      && (ch.closer.value.send ==> Swept(s.gs, ch.recvq, |ch.recvq|))
  }

  ghost predicate Inv(s: State) {
    && !s.panicked
    && (forall c :: 0 <= c < |s.chans| ==> CloserOk(s, c))
    && (forall c, send :: 0 <= c < |s.chans| ==> QueueOk(s, c, send))
    && (forall g :: 0 <= g < |s.gs| ==> GoroutineOk(s.gs[g], |s.chans|))
    && (forall c :: 0 <= c < |s.chans| ==> ChanOk(s, c))
  }

  lemma InitInv(s: State)
    requires Init(s)
    ensures Inv(s)
  {
  }

  // ─── claiming ───────────────────────────────────────────────────────

  /** A queued entry can be claimed exactly when its goroutine is live: a plain entry
      leaves the queue when it is claimed, a stale select entry fails the CAS. */
  lemma ClaimableIffLive(s: State, c: nat, send: bool, w: Waiter)
    requires Inv(s) && c < |s.chans| && w in QueueOf(s.chans[c], send)
    ensures w.g < |s.gs| && Waits(s.gs[w.g], w.i, c, send)
    ensures CanClaim(s.gs, w) <==> Live(s.gs[w.g])
    ensures Live(s.gs[w.g]) ==> Offers(s.gs[w.g], c, send)
  {
    assert QueueOk(s, c, send);
    assert GoroutineOk(s.gs[w.g], |s.chans|);
  }

  /** No goroutine that waits for its clean-up becomes live again. */
  predicate NoRevival(gs: seq<Goroutine>, gs': seq<Goroutine>) {
    |gs'| == |gs| && forall h :: 0 <= h < |gs| && !gs[h].Ready? && !Live(gs[h]) ==> !Live(gs'[h])
  }

  /** The channels that a `Close` holds are left alone, and nobody takes or gives back a lock. */
  predicate LocksKept(s: State, s': State) {
    && |s'.chans| == |s.chans|
    && (forall d :: 0 <= d < |s.chans| ==>
          s'.chans[d].closer == s.chans[d].closer && (s.chans[d].closer.Some? ==> s'.chans[d] == s.chans[d]))
    && (forall h :: 0 <= h < |s.gs| && s.gs[h].Ready? && InClose(s, h) ==> h < |s'.gs| && s'.gs[h].Ready?)
  }

  lemma SweptKept(s: State, s': State, c: nat, send: bool, k: nat)
    requires c < |s.chans| && QueueOk(s, c, send) && Swept(s.gs, QueueOf(s.chans[c], send), k) && NoRevival(s.gs, s'.gs)
    ensures Swept(s'.gs, QueueOf(s.chans[c], send), k)
  {
    var q := QueueOf(s.chans[c], send);
    forall j | 0 <= j < k ensures q[j].g < |s'.gs| && !Live(s'.gs[q[j].g]) {
      assert q[j] in q;
    }
  }

  /** Steps outside a `Close` leave every `Close` under way where it is. */
  lemma ClosersKept(s: State, s': State)
    requires Inv(s) && LocksKept(s, s') && NoRevival(s.gs, s'.gs)
    ensures forall d :: 0 <= d < |s'.chans| ==> CloserOk(s', d)
  {
    forall d | 0 <= d < |s'.chans| ensures CloserOk(s', d) {
      assert CloserOk(s, d);
      if s.chans[d].closer.Some? {
        var x := s.chans[d].closer.value;
        assert QueueOk(s, d, x.send) && QueueOk(s, d, false);
        assert InClose(s, x.g);
        SweptKept(s, s', d, x.send, x.k);
        if x.send { SweptKept(s, s', d, false, |s.chans[d].recvq|); }
      }
    }
  }

  lemma RemoveAtMembers<T>(q: seq<T>, k: nat)
    requires k < |q| && NoDups(q)
    ensures NoDups(RemoveAt(q, k))
    ensures forall x :: x in RemoveAt(q, k) <==> x in q && x != q[k]
  {
    var r := RemoveAt(q, k);
    forall x ensures x in r <==> x in q && x != q[k] {
      if x in r {
        var j :| 0 <= j < |r| && r[j] == x;
        assert x == q[if j < k then j else j + 1];
      }
      if x in q && x != q[k] {
        var j :| 0 <= j < |q| && q[j] == x;
        assert x == r[if j < k then j else j - 1];
      }
    }
    forall i, j | 0 <= i < j < |r| ensures r[i] != r[j] {
      assert r[i] == q[if i < k then i else i + 1];
      assert r[j] == q[if j < k then j else j + 1];
    }
  }

  /** Claiming the live entry `w` of queue (`c`, `send`): the goroutine leaves the live
      ones, the entry leaves its queue, and every other entry stays where it was. */
  lemma ClaimKeepsQueues(s: State, c: nat, send: bool, k: nat, sg: Sudog, cl: Claim, s': State)
    requires Inv(s) && c < |s.chans| && k < |QueueOf(s.chans[c], send)|
    requires var w := QueueOf(s.chans[c], send)[k];
      && CanClaim(s.gs, w) && cl.i == w.i
      && s'.gs == Wake(s.gs, w, sg, cl)
      && (w.g < |s.gs| && s.gs[w.g].Parked? && w.i < |s.gs[w.g].cases| ==> ClaimOk(s.gs[w.g].cases[w.i], sg, cl))
    requires |s'.chans| == |s.chans|
    requires forall d, b :: 0 <= d < |s.chans| && (d != c || b != send) ==>
      QueueOf(s'.chans[d], b) == QueueOf(s.chans[d], b)
    requires QueueOf(s'.chans[c], send) == RemoveAt(QueueOf(s.chans[c], send), k)
    ensures forall d, b :: 0 <= d < |s'.chans| ==> QueueOk(s', d, b)
    ensures forall h :: 0 <= h < |s'.gs| ==> GoroutineOk(s'.gs[h], |s'.chans|)
    ensures var w := QueueOf(s.chans[c], send)[k];
      && w.g < |s.gs| && Live(s.gs[w.g]) && Offers(s.gs[w.g], c, send)
      && s'.gs == s.gs[w.g := s'.gs[w.g]] && s'.gs[w.g].Parked? && s'.gs[w.g].claim == Some(cl)
      && s'.gs[w.g].cases == s.gs[w.g].cases
  {
    var q := QueueOf(s.chans[c], send);
    var w := q[k];
    ClaimableIffLive(s, c, send, w);
    assert GoroutineOk(s.gs[w.g], |s.chans|);
    assert QueueOk(s, c, send);
    RemoveAtMembers(q, k);
    forall d, b | 0 <= d < |s'.chans| ensures QueueOk(s', d, b) {
      assert QueueOk(s, d, b);
      ClaimedQueue(s, s', w, d, b);
    }
  }

  /** A claim takes the claimed entry off its queue and leaves every other entry waiting. */
  lemma ClaimedQueue(s: State, s': State, w: Waiter, d: nat, b: bool)
    requires d < |s.chans| == |s'.chans| && QueueOk(s, d, b) && w.g < |s.gs| == |s'.gs| && Live(s.gs[w.g])
    requires s'.gs == s.gs[w.g := s'.gs[w.g]] && s'.gs[w.g].Parked? && s'.gs[w.g].cases == s.gs[w.g].cases
    requires s'.gs[w.g].claim.Some? && s'.gs[w.g].claim.value.i == w.i
    requires NoDups(QueueOf(s'.chans[d], b))
    requires forall x :: x in QueueOf(s'.chans[d], b) <==> x in QueueOf(s.chans[d], b) && x != w
    ensures QueueOk(s', d, b)
  {
    forall x: Waiter ensures x in QueueOf(s'.chans[d], b) <==> (x.g < |s'.gs| && Waits(s'.gs[x.g], x.i, d, b)) {
      assert x in QueueOf(s.chans[d], b) <==> (x.g < |s.gs| && Waits(s.gs[x.g], x.i, d, b));
      assert x == w <==> x.g == w.g && x.i == w.i;
    }
  }

  // ─── a receive or a send that fires ─────────────────────────────────

  lemma TryRecvInv(s: State, c: nat)
    requires Inv(s) && c < |s.chans| && s.chans[c].closer.None?
    ensures var r := TryRecv(s, c);
      && !r.Dies?
      && (r.Fires? ==>
            && Inv(r.s) && r.s.fatal == s.fatal && |r.s.gs| == |s.gs| && |r.s.chans| == |s.chans|
            && (forall g :: 0 <= g < |s.gs| && s.gs[g].Ready? ==> r.s.gs[g] == s.gs[g]))
  {
    var ch := s.chans[c];
    assert ChanOk(s, c);
    var k := FirstLive(s.gs, ch.sendq, 0);
    if ch.closed && ch.buf == [] {
    } else if k < |ch.sendq| {
      RecvFromSenderInv(s, c, k);
    } else if ch.buf != [] {
      RecvFromBufferInv(s, c);
    }
  }

  lemma RecvFromSenderInv(s: State, c: nat, k: nat)
    requires Inv(s) && c < |s.chans| && s.chans[c].closer.None?
    requires k < |s.chans[c].sendq| && CanClaim(s.gs, s.chans[c].sendq[k])
    ensures var r := RecvFromSender(s, c, k);
      && r.Fires? && Inv(r.s) && r.s.fatal == s.fatal && |r.s.gs| == |s.gs| && |r.s.chans| == |s.chans|
      && (forall g :: 0 <= g < |s.gs| && s.gs[g].Ready? ==> r.s.gs[g] == s.gs[g])
  {
    var ch := s.chans[c];
    var w := ch.sendq[k];
    assert ChanOk(s, c);
    assert w in QueueOf(ch, true);
    ClaimableIffLive(s, c, true, w);
    assert GoroutineOk(s.gs[w.g], |s.chans|);
    var sg := SudogOf(s.gs, w);
    assert sg == NewSudog(s.gs[w.g].cases[w.i]);
    var r := RecvFromSender(s, c, k);
    var s' := r.s;
    ClaimKeepsQueues(s, c, true, k, Sudog(None, true), Claim(w.i, sg.value.value, true), s');
    ClosersKept(s, s');
    forall d | 0 <= d < |s'.chans| ensures ChanOk(s', d) {
      assert ChanOk(s, d);
      ClaimKeepsOffers(s, s', w.g, d);
    }
  }

  /** Claiming a goroutine only takes offers away. */
  lemma ClaimKeepsOffers(s: State, s': State, h: nat, d: nat)
    requires h < |s.gs| == |s'.gs| && s'.gs == s.gs[h := s'.gs[h]] && !Live(s'.gs[h])
    ensures forall g, send :: 0 <= g < |s'.gs| && Offers(s'.gs[g], d, send) ==>
      g != h && s'.gs[g] == s.gs[g] && Offers(s.gs[g], d, send)
  {
  }

  lemma RecvFromBufferInv(s: State, c: nat)
    requires Inv(s) && c < |s.chans| && s.chans[c].closer.None?
    requires s.chans[c].buf != []
    requires FirstLive(s.gs, s.chans[c].sendq, 0) == |s.chans[c].sendq|
    ensures Inv(s.(chans := s.chans[c := s.chans[c].(buf := s.chans[c].buf[1..])]))
  {
    var s' := s.(chans := s.chans[c := s.chans[c].(buf := s.chans[c].buf[1..])]);
    NoLiveInQueue(s, c, true);
    SameQueuesInv(s, s');
    ClosersKept(s, s');
    forall d | 0 <= d < |s'.chans| ensures ChanOk(s', d) {
      assert ChanOk(s, d);
    }
  }

  /** If the scan finds no claimable entry, no goroutine offers on that side. */
  lemma NoLiveInQueue(s: State, c: nat, send: bool)
    requires Inv(s) && c < |s.chans|
    requires var q := QueueOf(s.chans[c], send); FirstLive(s.gs, q, 0) == |q|
    ensures forall g :: 0 <= g < |s.gs| ==> !Offers(s.gs[g], c, send)
  {
    var q := QueueOf(s.chans[c], send);
    forall g | 0 <= g < |s.gs| ensures !Offers(s.gs[g], c, send) {
      if Offers(s.gs[g], c, send) {
        var i :| 0 <= i < |s.gs[g].cases| && Arm(s.gs[g].cases[i], c, send);
        var w := Waiter(g, i);
        assert Waits(s.gs[w.g], w.i, c, send);
        assert QueueOk(s, c, send);
        assert w in q;
        ClaimableIffLive(s, c, send, w);
      }
    }
  }

  lemma SameQueuesInv(s: State, s': State)
    requires Inv(s) && s'.gs == s.gs && |s'.chans| == |s.chans|
    requires forall d, b :: 0 <= d < |s.chans| ==> QueueOf(s'.chans[d], b) == QueueOf(s.chans[d], b)
    ensures forall d, b :: 0 <= d < |s'.chans| ==> QueueOk(s', d, b)
    ensures forall h :: 0 <= h < |s'.gs| ==> GoroutineOk(s'.gs[h], |s'.chans|)
  {
    forall d, b | 0 <= d < |s'.chans| ensures QueueOk(s', d, b) {
      assert QueueOk(s, d, b);
    }
  }

  lemma TrySendInv(s: State, c: nat, v: Val)
    requires Inv(s) && c < |s.chans| && s.chans[c].closer.None?
    ensures var r := TrySend(s, c, v);
      && (r.Dies? <==> s.chans[c].closed)
      && (r.Fires? ==>
            && Inv(r.s) && r.s.fatal == s.fatal && |r.s.gs| == |s.gs| && |r.s.chans| == |s.chans|
            && (forall g :: 0 <= g < |s.gs| && s.gs[g].Ready? ==> r.s.gs[g] == s.gs[g]))
  {
    var k := FirstLive(s.gs, s.chans[c].recvq, 0);
    assert ChanOk(s, c);
    if s.chans[c].closed {
    } else if k < |s.chans[c].recvq| {
      SendToReceiverInv(s, c, v, k);
    } else if |s.chans[c].buf| < s.chans[c].cap {
      SendToBufferInv(s, c, v);
    }
  }

  lemma SendToReceiverInv(s: State, c: nat, v: Val, k: nat)
    requires Inv(s) && c < |s.chans| && !s.chans[c].closed && s.chans[c].closer.None?
    requires k == FirstLive(s.gs, s.chans[c].recvq, 0) < |s.chans[c].recvq|
    ensures var s' := TrySend(s, c, v).s;
      && Inv(s') && s'.fatal == s.fatal && |s'.gs| == |s.gs| && |s'.chans| == |s.chans|
      && (forall g :: 0 <= g < |s.gs| && s.gs[g].Ready? ==> s'.gs[g] == s.gs[g])
  {
    var s' := TrySend(s, c, v).s;
    var w := s.chans[c].recvq[k];
    assert w in QueueOf(s.chans[c], false);
    ClaimableIffLive(s, c, false, w);
    ClaimKeepsQueues(s, c, false, k, Sudog(Some(v), true), Claim(w.i, v, true), s');
    ClosersKept(s, s');
    forall d | 0 <= d < |s'.chans| ensures ChanOk(s', d) {
      assert ChanOk(s, d);
      FewerOffers(s, s', w.g, d);
    }
  }

  lemma SendToBufferInv(s: State, c: nat, v: Val)
    requires Inv(s) && c < |s.chans| && s.chans[c].closer.None? && |s.chans[c].buf| < s.chans[c].cap
    requires FirstLive(s.gs, s.chans[c].recvq, 0) == |s.chans[c].recvq|
    ensures Inv(s.(chans := s.chans[c := s.chans[c].(buf := s.chans[c].buf + [v])]))
  {
    var s' := s.(chans := s.chans[c := s.chans[c].(buf := s.chans[c].buf + [v])]);
    NoLiveInQueue(s, c, false);
    SameQueuesInv(s, s');
    ClosersKept(s, s');
    forall d | 0 <= d < |s'.chans| ensures ChanOk(s', d) { assert ChanOk(s, d); }
  }

  // ─── parking ────────────────────────────────────────────────────────

  /** What it means that an attempt would block: no room or no value, and nobody to
      meet. */
  lemma BlocksMeans(s: State, cs: Case)
    requires Inv(s) && ValidCase(s, cs) && cs.ch.Ref? && Try(s, cs).Blocks?
    ensures var ch := s.chans[cs.ch.id];
      && !ch.closed
      && (cs.Send? ==> |ch.buf| == ch.cap)
      && (cs.Recv? ==> ch.buf == [])
      && (forall h :: 0 <= h < |s.gs| ==> !Offers(s.gs[h], cs.ch.id, !cs.Send?))
  {
    assert ChanOk(s, cs.ch.id);
    NoLiveInQueue(s, cs.ch.id, !cs.Send?);
  }

  lemma AppendMembers<T>(q: seq<T>, w: T)
    requires NoDups(q) && w !in q
    ensures NoDups(q + [w])
    ensures forall x :: x in q + [w] <==> x in q || x == w
  {
  }

  /** A queue after the first n cases of g were registered on it. */
  ghost predicate Registered(before: seq<Waiter>, q: seq<Waiter>, g: nat, cases: seq<Case>, n: nat, d: nat, send: bool)
    requires n <= |cases|
  {
    && NoDups(q)
    && forall w :: w in q <==> w in before || (w.g == g && w.i < n && Arm(cases[w.i], d, send))
  }

  /** Registration appends exactly one entry per non-nil case and changes nothing else. */
  lemma {:induction false} RegisterQueues(chans: seq<Hchan>, g: nat, cases: seq<Case>, n: nat, d: nat, send: bool)
    requires n <= |cases| && d < |chans|
    requires NoDups(QueueOf(chans[d], send))
    requires forall w :: w in QueueOf(chans[d], send) ==> w.g != g
    ensures Registered(QueueOf(chans[d], send), QueueOf(Register(chans, g, cases, n)[d], send), g, cases, n, d, send)
  {
    var before := QueueOf(chans[d], send);
    if n == 0 {
      RegisteredNone(before, g, cases, d, send);
    } else {
      RegisterQueues(chans, g, cases, n - 1, d, send);
      RegisterOneMore(before, Register(chans, g, cases, n - 1), Register(chans, g, cases, n), g, cases, n - 1, d, send);
    }
  }

  lemma RegisteredNone(q: seq<Waiter>, g: nat, cases: seq<Case>, d: nat, send: bool)
    requires NoDups(q)
    ensures Registered(q, q, g, cases, 0, d, send)
  {
  }

  lemma RegisterOneMore(before: seq<Waiter>, chans: seq<Hchan>, chans': seq<Hchan>, g: nat, cases: seq<Case>, n: nat,
                        d: nat, send: bool)
    requires n < |cases| && chans' == RegisterCase(chans, Waiter(g, n), cases[n])
    requires d < |chans| && Registered(before, QueueOf(chans[d], send), g, cases, n, d, send)
    requires forall w :: w in before ==> w.g != g
    ensures Registered(before, QueueOf(chans'[d], send), g, cases, n + 1, d, send)
  {
    RegisterCaseQueue(chans, Waiter(g, n), cases[n], d, send);
    RegisteredOneMore(before, QueueOf(chans[d], send), g, cases, n, d, send);
  }

  lemma RegisterCaseQueue(chans: seq<Hchan>, w: Waiter, cs: Case, d: nat, send: bool)
    requires d < |chans|
    ensures QueueOf(RegisterCase(chans, w, cs)[d], send) ==
      if Arm(cs, d, send) then QueueOf(chans[d], send) + [w] else QueueOf(chans[d], send)
  {
  }

  /** The entries of the first n cases of goroutine g on one side of channel c. */
  function Arms(g: nat, cases: seq<Case>, n: nat, c: nat, send: bool): seq<Waiter>
    requires n <= |cases|
  {
    if n == 0 then []
    else Arms(g, cases, n - 1, c, send) + if Arm(cases[n - 1], c, send) then [Waiter(g, n - 1)] else []
  }

  /** New entries go behind those that are queued, in the order of the cases. */
  lemma {:induction false} RegisterAppends(chans: seq<Hchan>, g: nat, cases: seq<Case>, n: nat, d: nat, send: bool)
    requires n <= |cases| && d < |chans|
    ensures QueueOf(Register(chans, g, cases, n)[d], send) == QueueOf(chans[d], send) + Arms(g, cases, n, d, send)
  {
    var before := QueueOf(chans[d], send);
    if n == 0 {
      assert before + [] == before;
    } else {
      RegisterAppends(chans, g, cases, n - 1, d, send);
      RegisterCaseQueue(Register(chans, g, cases, n - 1), Waiter(g, n - 1), cases[n - 1], d, send);
      var arms := Arms(g, cases, n - 1, d, send);
      assert before + arms + [Waiter(g, n - 1)] == before + (arms + [Waiter(g, n - 1)]);
      assert arms + [] == arms;
    }
  }

  lemma RegisteredOneMore(before: seq<Waiter>, q: seq<Waiter>, g: nat, cases: seq<Case>, n: nat, d: nat, send: bool)
    requires n < |cases| && Registered(before, q, g, cases, n, d, send)
    requires forall w :: w in before ==> w.g != g
    ensures Registered(before, if Arm(cases[n], d, send) then q + [Waiter(g, n)] else q, g, cases, n + 1, d, send)
  {
    var last := Waiter(g, n);
    assert last !in q;
    AppendMembers(q, last);
    forall w: Waiter ensures w.g == g && w.i < n + 1 <==> (w.g == g && w.i < n) || w == last {
    }
  }

  lemma {:induction false} RegisterKeeps(chans: seq<Hchan>, g: nat, cases: seq<Case>, n: nat, d: nat)
    requires n <= |cases| && d < |chans|
    ensures var r := Register(chans, g, cases, n)[d];
      && r.cap == chans[d].cap && r.closed == chans[d].closed && r.buf == chans[d].buf
      && r.closer == chans[d].closer
      && ((forall i :: 0 <= i < n ==> cases[i].ch != Ref(d)) ==> r == chans[d])
  {
    if n == 0 {
    } else {
      RegisterKeeps(chans, g, cases, n - 1, d);
    }
  }

  lemma ParkInv(s: State, g: nat, sel: bool, cases: seq<Case>)
    requires Inv(s) && g < |s.gs| && s.gs[g].Ready? && !InClose(s, g) && ValidCases(s, cases)
    requires !sel ==> |cases| == 1
    requires forall i :: 0 <= i < |cases| ==> Try(s, cases[i]).Blocks?
    ensures Inv(Park(s, g, sel, cases))
  {
    var s' := Park(s, g, sel, cases);
    forall d, b | 0 <= d < |s'.chans| ensures QueueOk(s', d, b) {
      assert QueueOk(s, d, b);
      RegisterQueues(s.chans, g, cases, |cases|, d, b);
      forall w: Waiter ensures w in QueueOf(s'.chans[d], b) <==> (w.g < |s'.gs| && Waits(s'.gs[w.g], w.i, d, b)) {
        assert w in QueueOf(s.chans[d], b) <==> (w.g < |s.gs| && Waits(s.gs[w.g], w.i, d, b));
      }
    }
    forall d | 0 <= d < |s'.chans| ensures ChanOk(s', d) {
      ParkChanOk(s, g, sel, cases, d);
    }
    ParkKeepsLocks(s, g, sel, cases);
    ClosersKept(s, s');
  }

  lemma ParkKeepsLocks(s: State, g: nat, sel: bool, cases: seq<Case>)
    requires g < |s.gs| && !InClose(s, g) && ValidCases(s, cases)
    ensures LocksKept(s, Park(s, g, sel, cases))
  {
    var s' := Park(s, g, sel, cases);
    forall d | 0 <= d < |s.chans|
      ensures s'.chans[d].closer == s.chans[d].closer && (s.chans[d].closer.Some? ==> s'.chans[d] == s.chans[d])
    {
      RegisterKeeps(s.chans, g, cases, |cases|, d);
    }
  }

  lemma ParkChanOk(s: State, g: nat, sel: bool, cases: seq<Case>, d: nat)
    requires Inv(s) && g < |s.gs| && s.gs[g].Ready? && ValidCases(s, cases) && d < |s.chans|
    requires forall i :: 0 <= i < |cases| ==> Try(s, cases[i]).Blocks?
    ensures ChanOk(Park(s, g, sel, cases), d)
  {
    var s' := Park(s, g, sel, cases);
    assert ChanOk(s, d);
    assert QueueOk(s, d, true);
    RegisterKeeps(s.chans, g, cases, |cases|, d);
    assert forall h, b :: 0 <= h < |s'.gs| && h != g ==> (Offers(s'.gs[h], d, b) <==> Offers(s.gs[h], d, b));
    forall b | Offers(s'.gs[g], d, b)
      ensures !Shut(s.chans[d])
      ensures b ==> |s.chans[d].buf| == s.chans[d].cap
      ensures !b ==> s.chans[d].buf == []
      ensures forall h :: 0 <= h < |s.gs| ==> !Offers(s.gs[h], d, !b)
    {
      var i :| 0 <= i < |cases| && Arm(cases[i], d, b);
      BlocksMeans(s, cases[i]);
    }
  }

  // ─── waking up ──────────────────────────────────────────────────────

  /** One `__cancel_*` finds the entry exactly when no waker has removed it. */
  lemma CancelFinds(s: State, g: nat)
    requires Inv(s) && g < |s.gs| && s.gs[g].Waking? && |s.gs[g].winners| < |s.gs[g].cases|
    requires s.gs[g].cases[|s.gs[g].winners|].ch.Ref?
    ensures var p := s.gs[g]; var i := |p.winners|; var cs := p.cases[i]; var w := Waiter(g, i);
      && cs.ch.id < |s.chans| && p.claim.Some?
      && var q := QueueOf(s.chans[cs.ch.id], cs.Send?); var n := IndexOf(q, w, 0);
         && (n == |q| <==> i == p.claim.value.i)
         && (n == |q| ==> w !in q)
         && (n < |q| ==> NoDups(RemoveAt(q, n)) && forall x :: x in RemoveAt(q, n) <==> x in q && x != w)
  {
    var p := s.gs[g];
    var i := |p.winners|;
    var cs := p.cases[i];
    assert GoroutineOk(p, |s.chans|);
    var q := QueueOf(s.chans[cs.ch.id], cs.Send?);
    var w := Waiter(g, i);
    assert QueueOk(s, cs.ch.id, cs.Send?);
    assert w in q <==> Waits(s.gs[w.g], w.i, cs.ch.id, cs.Send?);
    var n := IndexOf(q, w, 0);
    if n < |q| { RemoveAtMembers(q, n); } else { assert q[0..] == q; }
  }

  lemma CancelQueueOk(s: State, g: nat, d: nat, b: bool)
    requires Inv(s) && g < |s.gs| && s.gs[g].Waking? && |s.gs[g].winners| < |s.gs[g].cases| && d < |s.chans|
    ensures |DoCancel(s, g).chans| == |s.chans| && QueueOk(DoCancel(s, g), d, b)
  {
    var s' := DoCancel(s, g);
    var p := s.gs[g];
    var i := |p.winners|;
    var w := Waiter(g, i);
    assert QueueOk(s, d, b);
    assert w in QueueOf(s.chans[d], b) <==> Waits(s.gs[w.g], w.i, d, b);
    if p.cases[i].ch.Ref? { CancelFinds(s, g); }
    assert s'.gs == s.gs[g := p.(winners := s'.gs[g].winners)];
    CancelledQueue(s, s', g, d, b);
  }

  /** Cancelling takes one entry of g off its queue and leaves every other entry waiting. */
  lemma CancelledQueue(s: State, s': State, g: nat, d: nat, b: bool)
    requires d < |s.chans| == |s'.chans| && QueueOk(s, d, b) && g < |s.gs| == |s'.gs| && s.gs[g].Waking?
    requires s'.gs == s.gs[g := s'.gs[g]] && s'.gs[g].Waking? && s'.gs[g] == s.gs[g].(winners := s'.gs[g].winners)
    requires |s'.gs[g].winners| == |s.gs[g].winners| + 1 && NoDups(QueueOf(s'.chans[d], b))
    requires forall x :: x in QueueOf(s'.chans[d], b) <==>
               x in QueueOf(s.chans[d], b) && x != Waiter(g, |s.gs[g].winners|)
    ensures QueueOk(s', d, b)
  {
    var i := |s.gs[g].winners|;
    forall x: Waiter ensures x in QueueOf(s'.chans[d], b) <==> (x.g < |s'.gs| && Waits(s'.gs[x.g], x.i, d, b)) {
      assert x in QueueOf(s.chans[d], b) <==> (x.g < |s.gs| && Waits(s.gs[x.g], x.i, d, b));
      assert x == Waiter(g, i) <==> x.g == g && x.i == i;
    }
  }

  lemma CancelInv(s: State, g: nat)
    requires Inv(s) && g < |s.gs| && s.gs[g].Waking? && |s.gs[g].winners| < |s.gs[g].cases|
    requires CanLock(s, s.gs[g].cases[|s.gs[g].winners|].ch)
    ensures Inv(DoCancel(s, g))
  {
    var s' := DoCancel(s, g);
    var p := s.gs[g];
    assert GoroutineOk(p, |s.chans|);
    if p.cases[|p.winners|].ch.Ref? { CancelFinds(s, g); }
    forall d, b | 0 <= d < |s'.chans| ensures QueueOk(s', d, b) {
      CancelQueueOk(s, g, d, b);
    }
    forall d | 0 <= d < |s'.chans| ensures ChanOk(s', d) {
      CancelChanOk(s, g, d);
    }
    CancelKeepsLocks(s, g);
    ClosersKept(s, s');
  }

  lemma CancelKeepsLocks(s: State, g: nat)
    requires g < |s.gs| && s.gs[g].Waking? && |s.gs[g].winners| < |s.gs[g].cases|
    requires CanLock(s, s.gs[g].cases[|s.gs[g].winners|].ch)
    ensures LocksKept(s, DoCancel(s, g)) && NoRevival(s.gs, DoCancel(s, g).gs)
  {
  }

  lemma CancelChanOk(s: State, g: nat, d: nat)
    requires Inv(s) && g < |s.gs| && s.gs[g].Waking? && |s.gs[g].winners| < |s.gs[g].cases| && d < |s.chans|
    ensures |DoCancel(s, g).chans| == |s.chans| && ChanOk(DoCancel(s, g), d)
  {
    assert ChanOk(s, d);
    CancelKeepsContents(s, g, d);
    FewerOffers(s, DoCancel(s, g), g, d);
  }

  lemma CancelKeepsContents(s: State, g: nat, d: nat)
    requires g < |s.gs| && s.gs[g].Waking? && |s.gs[g].winners| < |s.gs[g].cases| && d < |s.chans|
    ensures var s' := DoCancel(s, g);
      && |s'.chans| == |s.chans| && |s'.gs| == |s.gs|
      && s'.gs == s.gs[g := s'.gs[g]] && !Live(s'.gs[g])
      && s'.chans[d].buf == s.chans[d].buf && s'.chans[d].cap == s.chans[d].cap
      && s'.chans[d].closed == s.chans[d].closed && s'.chans[d].closer == s.chans[d].closer
  {
    var s' := DoCancel(s, g);
    var ch := s.gs[g].cases[|s.gs[g].winners|].ch;
    if ch.Ref? && ch.id < |s.chans| && ch.id != d { assert s'.chans[d] == s.chans[d]; }
  }

  /** Nothing can go wrong on a channel whose contents stay when a goroutine stops offering. */
  lemma FewerOffers(s: State, s': State, h: nat, d: nat)
    requires d < |s.chans| == |s'.chans| && ChanOk(s, d)
    requires h < |s.gs| == |s'.gs| && s'.gs == s.gs[h := s'.gs[h]] && !Live(s'.gs[h])
    requires s'.chans[d].buf == s.chans[d].buf && s'.chans[d].cap == s.chans[d].cap
    requires Shut(s'.chans[d]) == Shut(s.chans[d])
    ensures ChanOk(s', d)
  {
    ClaimKeepsOffers(s, s', h, d);
  }

  /** A goroutine that has no entry left in any queue may go on. */
  lemma LeaveInv(s: State, g: nat, x: Goroutine)
    requires Inv(s) && g < |s.gs| && !Live(s.gs[g]) && !Live(x) && GoroutineOk(x, |s.chans|)
    requires s.gs[g].Ready? ==> x.Ready?
    requires forall i, c, send :: Waits(s.gs[g], i, c, send) <==> Waits(x, i, c, send)
    ensures Inv(s.(gs := s.gs[g := x]))
  {
    var s' := s.(gs := s.gs[g := x]);
    forall d, b | 0 <= d < |s'.chans| ensures QueueOk(s', d, b) {
      assert QueueOk(s, d, b);
      forall w: Waiter ensures w in QueueOf(s'.chans[d], b) <==> (w.g < |s'.gs| && Waits(s'.gs[w.g], w.i, d, b)) {
        assert w in QueueOf(s.chans[d], b) <==> (w.g < |s.gs| && Waits(s.gs[w.g], w.i, d, b));
      }
    }
    forall d | 0 <= d < |s'.chans| ensures ChanOk(s', d) {
      assert ChanOk(s, d);
      ClaimKeepsOffers(s, s', g, d);
    }
    ClosersKept(s, s');
  }

  /** The winner a `select!` finds by cancelling is the case its waker claimed. */
  lemma WinnerIsClaim(s: State, g: nat)
    requires Inv(s) && g < |s.gs| && s.gs[g].Waking? && |s.gs[g].winners| == |s.gs[g].cases|
    ensures s.gs[g].claim.Some? && FirstTrue(s.gs[g].winners, 0) == s.gs[g].claim.value.i < |s.gs[g].cases|
    ensures forall i :: 0 <= i < |s.gs[g].winners| ==> (s.gs[g].winners[i] <==> i == s.gs[g].claim.value.i)
  {
    assert GoroutineOk(s.gs[g], |s.chans|);
    var i := s.gs[g].claim.value.i;
    assert s.gs[g].winners[i];
  }

  // ─── closing ────────────────────────────────────────────────────────

  /** A step of a `Close` that changes nothing but the lock and the mark of channel `c`. */
  lemma LockInv(s: State, c: nat, s': State)
    requires Inv(s) && c < |s.chans| == |s'.chans| && s'.gs == s.gs && !s'.panicked
    requires s'.chans == s.chans[c := s.chans[c].(closed := s'.chans[c].closed, closer := s'.chans[c].closer)]
    requires CloserOk(s', c)
    requires Shut(s'.chans[c]) ==> forall h, b :: 0 <= h < |s.gs| ==> !Offers(s.gs[h], c, b)
    ensures Inv(s')
  {
    SameQueuesInv(s, s');
    forall d | 0 <= d < |s'.chans| ensures ChanOk(s', d) && CloserOk(s', d) {
      assert ChanOk(s, d) && CloserOk(s, d);
    }
  }

  lemma MarkInv(s: State, c: nat, g: nat)
    requires Inv(s) && c < |s.chans| && g < |s.gs| && s.gs[g].Ready?
    ensures Inv(MarkClosed(s, c, g))
  {
    LockInv(s, c, MarkClosed(s, c, g));
  }

  /** An entry of a queue that a cursor has passed to the end belongs to nobody who still offers. */
  lemma SweptMeansNoOffers(s: State, c: nat, send: bool)
    requires Inv(s) && c < |s.chans| && Swept(s.gs, QueueOf(s.chans[c], send), |QueueOf(s.chans[c], send)|)
    ensures forall h :: 0 <= h < |s.gs| ==> !Offers(s.gs[h], c, send)
  {
    var q := QueueOf(s.chans[c], send);
    forall j | 0 <= j < |q| ensures !CanClaim(s.gs, q[j]) {
      assert q[j] in q;
      ClaimableIffLive(s, c, send, q[j]);
    }
    NoLiveInQueue(s, c, send);
  }

  /** One claim of a `Close`. */
  lemma WakeClosedInv(s: State, c: nat, send: bool, k: nat)
    requires Inv(s) && c < |s.chans| && s.chans[c].closer.Some?
    requires s.chans[c].closer.value.send == send && s.chans[c].closer.value.k == k
    requires k < |QueueOf(s.chans[c], send)| && CanClaim(s.gs, QueueOf(s.chans[c], send)[k])
    ensures var s' := WakeClosed(s, c, send, k); var w := QueueOf(s.chans[c], send)[k];
      && Inv(s') && w.g < |s.gs| && Live(s.gs[w.g]) && s'.gs == s.gs[w.g := s'.gs[w.g]]
  {
    var s' := WakeClosed(s, c, send, k);
    var w := QueueOf(s.chans[c], send)[k];
    var sg := if send then SudogOf(s.gs, w).(success := false) else Sudog(None, false);
    assert w in QueueOf(s.chans[c], send);
    ClaimableIffLive(s, c, send, w);
    assert GoroutineOk(s.gs[w.g], |s.chans|);
    ClaimKeepsQueues(s, c, send, k, sg, Claim(w.i, 0, false), s');
    forall d | 0 <= d < |s'.chans| ensures ChanOk(s', d) {
      assert ChanOk(s, d);
      FewerOffers(s, s', w.g, d);
    }
    forall d | 0 <= d < |s'.chans| ensures CloserOk(s', d) {
      WakeKeepsCloser(s, c, send, k, s', d);
    }
  }

  /** The claim takes an entry out from under the cursor, and leaves every other `Close` alone. */
  lemma WakeKeepsCloser(s: State, c: nat, send: bool, k: nat, s': State, d: nat)
    requires Inv(s) && c < |s.chans| == |s'.chans| && d < |s.chans| && NoRevival(s.gs, s'.gs)
    requires forall h :: 0 <= h < |s.gs| && s.gs[h].Ready? ==> s'.gs[h].Ready?
    requires s.chans[c].closer.Some? && s.chans[c].closer.value.send == send && s.chans[c].closer.value.k == k
    requires k < |QueueOf(s.chans[c], send)|
    requires s'.chans == s.chans[c := WithQueue(s.chans[c], send, RemoveAt(QueueOf(s.chans[c], send), k))]
    ensures CloserOk(s', d)
  {
    assert CloserOk(s, d);
    if s.chans[d].closer.Some? {
      var x := s.chans[d].closer.value;
      assert QueueOk(s, d, x.send) && QueueOk(s, d, false);
      SweptKept(s, s', d, x.send, x.k);
      if x.send { SweptKept(s, s', d, false, |s.chans[d].recvq|); }
    }
  }

  /** Every step of a `Close` keeps the invariant; the last one gives the lock back when nobody offers
      on the channel any more. */
  lemma SweepInv(s: State, c: nat)
    requires Inv(s) && c < |s.chans| && s.chans[c].closer.Some?
    ensures Inv(DoSweep(s, c))
    ensures DoSweep(s, c).chans[c].closer.None? ==> forall h, b :: 0 <= h < |s.gs| ==> !Offers(s.gs[h], c, b)
  {
    var x := s.chans[c].closer.value;
    var q := QueueOf(s.chans[c], x.send);
    assert CloserOk(s, c);
    if x.k < |q| && CanClaim(s.gs, q[x.k]) {
      WakeClosedInv(s, c, x.send, x.k);
    } else if x.k < |q| {
      assert q[x.k] in q;
      ClaimableIffLive(s, c, x.send, q[x.k]);
      LockInv(s, c, DoSweep(s, c));
    } else if !x.send {
      LockInv(s, c, DoSweep(s, c));
    } else {
      SweptMeansNoOffers(s, c, true);
      SweptMeansNoOffers(s, c, false);
      LockInv(s, c, DoSweep(s, c));
    }
  }

  /** The steps a `Close` has still to make. */
  function CloseWork(ch: Hchan): int {
    match ch.closer
    case None => 0
    case Some(x) => if x.send then |ch.sendq| - x.k + 1 else |ch.recvq| - x.k + |ch.sendq| + 2
  }

  /** A `Close` never waits for anybody, and each of its steps does one unit of its work. */
  lemma CloseGoesOn(s: State, c: nat)
    requires Inv(s) && !s.fatal && c < |s.chans| && s.chans[c].closer.Some?
    ensures Enabled(s, Sweep(s.chans[c].closer.value.g, c)) && CloseWork(s.chans[c]) > 0
    ensures CloseWork(DoSweep(s, c).chans[c]) == CloseWork(s.chans[c]) - 1
  {
    assert CloserOk(s, c);
  }

  // ─── every step, every run ──────────────────────────────────────────

  /** A goroutine that is running keeps no entry anywhere, whatever it did last. */
  lemma FinishInv(s: State, g: nat, o: Outcome)
    requires Inv(s) && g < |s.gs| && !Live(s.gs[g])
    requires forall i, c, send :: !Waits(s.gs[g], i, c, send)
    ensures Inv(Finish(s, g, o))
  {
    LeaveInv(s, g, Ready(o));
  }

  lemma TryInv(s: State, g: nat, i: nat, cs: Case)
    requires Inv(s) && g < |s.gs| && s.gs[g].Ready? && ValidCase(s, cs) && !Try(s, cs).Blocks?
    ensures var r := Try(s, cs); (r.Fires? ==> |r.s.gs| == |s.gs|) && Inv(Complete(s, g, i, r))
  {
    if cs.Send? { TrySendInv(s, cs.ch.id, cs.v); } else { TryRecvInv(s, cs.ch.id); }
    var r := Try(s, cs);
    if r.Fires? {
      FinishInv(r.s, g, Fired(i, r.v, r.ok));
    } else {
      FatalInv(s);
    }
  }

  lemma FatalInv(s: State)
    requires Inv(s)
    ensures Inv(s.(fatal := true))
  {
    var s' := s.(fatal := true);
    SameQueuesInv(s, s');
    ClosersKept(s, s');
    forall d | 0 <= d < |s'.chans| ensures ChanOk(s', d) {
      assert ChanOk(s, d);
    }
  }

  lemma IssueInv(s: State, g: nat, op: Op, order: seq<nat>)
    requires Inv(s) && g < |s.gs| && s.gs[g].Ready? && !InClose(s, g) && ValidOp(s, op, order)
    ensures Inv(DoIssue(s, g, op, order))
  {
    match op
    case Plain(arm) =>
      if Try(s, arm).Blocks? { ParkInv(s, g, false, [arm]); } else { TryInv(s, g, 0, arm); }
    case Select(cases, hasDefault) =>
      var k := Pass1(s, cases, order, 0);
      if k < |order| {
        TryInv(s, g, order[k], cases[order[k]]);
      } else if hasDefault {
        FinishInv(s, g, DefaultTaken);
      } else {
        forall i | 0 <= i < |cases| ensures Try(s, cases[i]).Blocks? {
          assert i in order;
        }
        ParkInv(s, g, true, cases);
      }
    case Close(Nil) => FatalInv(s);
    case Close(Ref(c)) =>
      if s.chans[c].closed {
        FatalInv(s);
      } else {
        FinishInv(s, g, DidClose);
        MarkInv(Finish(s, g, DidClose), c, g);
      }
  }

  lemma UnparkInv(s: State, g: nat)
    requires Inv(s) && g < |s.gs| && s.gs[g].Parked? && s.gs[g].claim.Some?
    ensures Inv(DoUnpark(s, g))
  {
    var p := s.gs[g];
    assert GoroutineOk(p, |s.chans|);
    if p.sel {
      LeaveInv(s, g, Waking(p.cases, p.sudogs, p.claim, []));
    } else if p.cases[0].Send? && !p.sudogs[0].success {
      FatalInv(s);
    } else {
      FinishInv(s, g, DoUnpark(s, g).gs[g].last);
    }
  }

  lemma DispatchInv(s: State, g: nat)
    requires Inv(s) && g < |s.gs| && s.gs[g].Waking? && |s.gs[g].winners| == |s.gs[g].cases|
    ensures Inv(DoDispatch(s, g))
  {
    assert GoroutineOk(s.gs[g], |s.chans|);
    WinnerIsClaim(s, g);
    var i := s.gs[g].claim.value.i;
    if s.gs[g].cases[i].Send? && !s.gs[g].sudogs[i].success {
      FatalInv(s);
    } else {
      FinishInv(s, g, DoDispatch(s, g).gs[g].last);
    }
  }

  lemma StepInv(s: State, a: Action)
    requires Inv(s) && Enabled(s, a)
    ensures Inv(Step(s, a))
  {
    match a
    case Issue(g, op, order) => IssueInv(s, g, op, order);
    case Unpark(g) => UnparkInv(s, g);
    case Cancel(g) => CancelInv(s, g);
    case Dispatch(g) => DispatchInv(s, g);
    case Sweep(g, c) => SweepInv(s, c);
  }

  /** An attempt leaves the channels that a `Close` holds alone, and no channel's mark or lock changes. */
  lemma TryKeepsMarks(s: State, cs: Case, c: nat)
    requires Inv(s) && ValidCase(s, cs) && c < |s.chans| && Try(s, cs).Fires?
    ensures var s' := Try(s, cs).s;
      && |s'.chans| == |s.chans| && s'.chans[c].closed == s.chans[c].closed && s'.chans[c].closer == s.chans[c].closer
      && (s.chans[c].closer.Some? ==> s'.chans[c] == s.chans[c])
  {
    if cs.Send? { TrySendInv(s, cs.ch.id, cs.v); } else { TryRecvInv(s, cs.ch.id); }
  }

  /** A step other than a step of the `Close` of `c` itself: if the channel is locked nothing happens
      to it, and once it is shut it stays shut. */
  ghost predicate Undisturbed(s: State, s': State, c: nat)
    requires c < |s.chans|
  {
    && c < |s'.chans|
    && (s.chans[c].closer.Some? ==> s'.chans[c] == s.chans[c])
    && (Shut(s.chans[c]) ==> Shut(s'.chans[c]))
  }

  lemma CompleteUndisturbed(s: State, g: nat, i: nat, cs: Case, c: nat)
    requires Inv(s) && g < |s.gs| && s.gs[g].Ready? && ValidCase(s, cs) && c < |s.chans| && !Try(s, cs).Blocks?
    ensures var r := Try(s, cs); (r.Fires? ==> |r.s.gs| == |s.gs|) && Undisturbed(s, Complete(s, g, i, r), c)
  {
    TryInv(s, g, i, cs);
    if Try(s, cs).Fires? { TryKeepsMarks(s, cs, c); }
  }

  lemma ParkUndisturbed(s: State, g: nat, sel: bool, cases: seq<Case>, c: nat)
    requires g < |s.gs| && !InClose(s, g) && ValidCases(s, cases) && c < |s.chans|
    ensures Undisturbed(s, Park(s, g, sel, cases), c)
  {
    ParkKeepsLocks(s, g, sel, cases);
    RegisterKeeps(s.chans, g, cases, |cases|, c);
  }

  lemma IssueUndisturbed(s: State, g: nat, op: Op, order: seq<nat>, c: nat)
    requires Inv(s) && Enabled(s, Issue(g, op, order)) && c < |s.chans|
    ensures Undisturbed(s, DoIssue(s, g, op, order), c)
  {
    match op
    case Plain(arm) =>
      if Try(s, arm).Blocks? { ParkUndisturbed(s, g, false, [arm], c); } else { CompleteUndisturbed(s, g, 0, arm, c); }
    case Select(cases, hasDefault) =>
      var k := Pass1(s, cases, order, 0);
      if k < |order| {
        CompleteUndisturbed(s, g, order[k], cases[order[k]], c);
      } else if !hasDefault {
        ParkUndisturbed(s, g, true, cases, c);
      }
    case Close(ch) =>
  }

  /** While a `Close` holds the lock of a channel, only its own steps touch the channel, and a shut
      channel stays shut. */
  lemma LockedAlone(s: State, a: Action, c: nat)
    requires Inv(s) && Enabled(s, a) && c < |s.chans| && !(a.Sweep? && a.c == c)
    ensures Undisturbed(s, Step(s, a), c)
  {
    match a
    case Issue(g, op, order) => IssueUndisturbed(s, g, op, order, c);
    case Unpark(g) =>
    case Cancel(g) => CancelKeepsLocks(s, g); CancelKeepsContents(s, g, c);
    case Dispatch(g) =>
    case Sweep(g, d) =>
  }

  /** Every run of every program keeps the invariant; in particular no internal
      `expect` ever fails. */
  lemma {:induction false} RunInv(s: State, acts: seq<Action>)
    requires Inv(s) && CanRun(s, acts)
    ensures Inv(Run(s, acts))
    decreases |acts|
  {
    if acts == [] {
    } else {
      StepInv(s, acts[0]);
      RunInv(Step(s, acts[0]), acts[1..]);
    }
  }

  /** Steps of the `Close` of channel `c` in a schedule. */
  function SweepsOf(acts: seq<Action>, c: nat): nat {
    if acts == [] then 0 else (if acts[0].Sweep? && acts[0].c == c then 1 else 0) + SweepsOf(acts[1..], c)
  }

  /** In every run, whatever the others do in between: a `Close` gives its lock back after exactly as
      many steps of its own as it has work, and then the channel stays shut. */
  lemma {:induction false} CloseEnds(s: State, acts: seq<Action>, c: nat)
    requires Inv(s) && CanRun(s, acts) && c < |s.chans| && s.chans[c].closed
    ensures var r := Run(s, acts);
      && c < |r.chans| && r.chans[c].closed
      && CloseWork(r.chans[c]) == CloseWork(s.chans[c]) - SweepsOf(acts, c)
      && (r.chans[c].closer.Some? <==> SweepsOf(acts, c) < CloseWork(s.chans[c]))
    decreases |acts|
  {
    assert CloserOk(s, c);
    if acts == [] {
    } else {
      var a, m := acts[0], Step(s, acts[0]);
      StepInv(s, a);
      if a.Sweep? && a.c == c {
        CloseGoesOn(s, c);
      } else {
        LockedAlone(s, a, c);
      }
      CloseEnds(m, acts[1..], c);
    }
  }
}
