/** The goroutine programs of examples/chan_micro_*.rs and examples/chan_select_stress.rs,
    for any number of channels, any capacities, any number of goroutines and any quotas:
    each goroutine only sends or only receives, has a quota per channel, and either
    selects over all channels on which it has quota left (retiring the others to nil) or
    works on one channel with plain operations. */
module Workload {

  import opened Bytes
  import opened Channels
  import opened ChannelInvariant

  /** `home` is the channel of a goroutine that does not select. */
  datatype Worker = Worker(sends: bool, sel: bool, home: nat)

  /** `rem[g][c]`: operations goroutine `g` still has to do on channel `c`; `sent` and
      `received` are the atomic totals of the programs. */
  datatype Prog = Prog(s: State, rem: seq<seq<nat>>, sent: nat, received: nat)

  // ─── sums ───────────────────────────────────────────────────────────

  function Sum(xs: seq<int>): int {
    if xs == [] then 0 else xs[0] + Sum(xs[1..])
  }

  lemma {:induction false} SumUpdate(xs: seq<int>, i: nat, v: int)
    requires i < |xs|
    ensures Sum(xs[i := v]) == Sum(xs) - xs[i] + v
  {
    if i == 0 {
      assert xs[0 := v][1..] == xs[1..];
    } else {
      SumUpdate(xs[1..], i - 1, v);
      assert xs[i := v][1..] == xs[1..][i - 1 := v];
    }
  }

  lemma {:induction false} SumNonNegative(xs: seq<int>)
    requires forall i :: 0 <= i < |xs| ==> xs[i] >= 0
    ensures Sum(xs) >= 0
    ensures forall i :: 0 <= i < |xs| ==> xs[i] <= Sum(xs)
  {
    if xs == [] {
    } else {
      SumNonNegative(xs[1..]);
      forall i | 0 <= i < |xs| ensures xs[i] <= Sum(xs) {
        if i > 0 { assert xs[i] == xs[1..][i - 1]; }
      }
    }
  }

  lemma {:induction false} SumZero(xs: seq<int>)
    requires forall i :: 0 <= i < |xs| ==> xs[i] == 0
    ensures Sum(xs) == 0
  {
    if xs == [] {
    } else {
      SumZero(xs[1..]);
    }
  }

  // ─── one worker ─────────────────────────────────────────────────────

  function Total(r: seq<nat>): int {
    Sum(r)
  }

  predicate Idle(r: seq<nat>) {
    forall c :: 0 <= c < |r| ==> r[c] == 0
  }

  /** The arms worker `w` offers with quota `r` left: in a `select!`, arm `c` is on channel
      `c`, and is nil once that quota is used up. */
  predicate Arms(w: Worker, r: seq<nat>, sel: bool, cases: seq<Case>) {
    && sel == w.sel
    && (forall i :: 0 <= i < |cases| ==> cases[i].Send? == w.sends)
    && (if sel then
          |cases| == |r| && forall i :: 0 <= i < |cases| ==> cases[i].ch == if r[i] > 0 then Ref(i) else Nil
        else
          |cases| == 1 && w.home < |r| && r[w.home] > 0 && cases[0].ch == Ref(w.home))
  }

  predicate OpOk(w: Worker, r: seq<nat>, op: Op) {
    match op
    case Plain(arm) => Arms(w, r, false, [arm])
    case Select(cases, hasDefault) => !hasDefault && Arms(w, r, true, cases)
    case Close(_) => false
  }

  function OpCases(op: Op): seq<Case> {
    match op
    case Plain(arm) => [arm]
    case Select(cases, _) => cases
    case Close(_) => []
  }

  // ─── the program's steps ────────────────────────────────────────────

  predicate Can(ws: seq<Worker>, p: Prog, a: Action) {
    && Enabled(p.s, a)
    && a.g < |ws| && a.g < |p.rem|
    && (a.Issue? ==> !Idle(p.rem[a.g]) && OpOk(ws[a.g], p.rem[a.g], a.op))
  }

  /** The cases of the operation that action `a` belongs to. */
  function CasesOf(s: State, a: Action): seq<Case>
    requires a.g < |s.gs|
  {
    if a.Issue? then OpCases(a.op) else if s.gs[a.g].Ready? then [] else s.gs[a.g].cases
  }

  /** The body of the arm that fired: count it and retire a unit of quota. */
  function Book(ws: seq<Worker>, p: Prog, g: nat, cases: seq<Case>, s': State): Prog
    requires g < |ws| && g < |p.rem|
  {
    if g < |s'.gs| && s'.gs[g].Ready? && s'.gs[g].last.Fired? && s'.gs[g].last.i < |cases|
       && cases[s'.gs[g].last.i].ch.Ref? then
      var c := cases[s'.gs[g].last.i].ch.id;
      var r := p.rem[g];
      var r' := if c < |r| && r[c] > 0 then r[c := r[c] - 1] else r;
      Prog(s', p.rem[g := r'], if ws[g].sends then p.sent + 1 else p.sent,
           if ws[g].sends then p.received else p.received + 1)
    else
      p.(s := s')
  }

  function Advance(ws: seq<Worker>, p: Prog, a: Action): Prog
    requires Can(ws, p, a)
  {
    Book(ws, p, a.g, CasesOf(p.s, a), Step(p.s, a))
  }

  predicate CanRunAll(ws: seq<Worker>, p: Prog, acts: seq<Action>)
    decreases |acts|
  {
    acts == [] || (Can(ws, p, acts[0]) && CanRunAll(ws, Advance(ws, p, acts[0]), acts[1..]))
  }

  function RunAll(ws: seq<Worker>, p: Prog, acts: seq<Action>): Prog
    requires CanRunAll(ws, p, acts)
    decreases |acts|
  {
    if acts == [] then p else RunAll(ws, Advance(ws, p, acts[0]), acts[1..])
  }

  predicate Finished(p: Prog) {
    forall g :: 0 <= g < |p.s.gs| ==> p.s.gs[g].Ready? && (g < |p.rem| ==> Idle(p.rem[g]))
  }

  // ─── quotas and balance ─────────────────────────────────────────────

  /** Quota of one goroutine on `c`, not counting an operation that has already
      communicated and is on its way back. */
  function Left(g: Goroutine, r: seq<nat>, c: nat): int {
    var quota: int := if c < |r| then r[c] else 0;
    if !g.Ready? && g.claim.Some? && g.claim.value.i < |g.cases| && g.cases[g.claim.value.i].ch == Ref(c) then quota - 1
    else quota
  }

  function Term(w: Worker, g: Goroutine, r: seq<nat>, c: nat): int {
    if w.sends then Left(g, r, c) else -Left(g, r, c)
  }

  /** What senders still have to send on `c`, less what receivers still have to receive. */
  function Terms(ws: seq<Worker>, p: Prog, c: nat): (t: seq<int>)
    requires |ws| == |p.s.gs| == |p.rem|
    ensures |t| == |ws|
  {
    seq(|ws|, g requires 0 <= g < |ws| => Term(ws[g], p.s.gs[g], p.rem[g], c))
  }

  predicate WorkerOk(w: Worker, g: Goroutine, r: seq<nat>) {
    && (g.Ready? ||
        (&& !Idle(r)
         && Arms(w, r, if g.Parked? then g.sel else true, g.cases)
         && (g.claim.Some? ==> g.claim.value.ok)))
    && (!w.sel ==> w.home < |r| && forall c :: 0 <= c < |r| && c != w.home ==> r[c] == 0)
  }

  /** Totals of a side, done plus still to do. */
  function SideTotals(ws: seq<Worker>, rem: seq<seq<nat>>, sends: bool): (t: seq<int>)
    requires |ws| == |rem|
    ensures |t| == |ws|
  {
    seq(|ws|, g requires 0 <= g < |ws| => if ws[g].sends == sends then Total(rem[g]) else 0)
  }

  ghost predicate ProgInv(ws: seq<Worker>, p: Prog, sends: int, receives: int) {
    && Inv(p.s) && !p.s.fatal
    && |ws| == |p.s.gs| == |p.rem|
    && (forall g :: 0 <= g < |p.rem| ==> |p.rem[g]| == |p.s.chans|)
    && (forall g :: 0 <= g < |p.rem| ==> WorkerOk(ws[g], p.s.gs[g], p.rem[g]))
    && AllOpen(p.s)
    && (forall c :: 0 <= c < |p.s.chans| ==> Sum(Terms(ws, p, c)) + |p.s.chans[c].buf| == 0)
    && p.sent + Sum(SideTotals(ws, p.rem, true)) == sends
    && p.received + Sum(SideTotals(ws, p.rem, false)) == receives
  }

  // ─── what one attempt changes ───────────────────────────────────────

  /** An attempt that fires on an open channel either moves one value into or out of the
      buffer, or meets exactly one live goroutine that offers the other side. */
  lemma FireEffect(s: State, cs: Case) returns (met: bool, h: nat, i: nat)
    requires Inv(s) && ValidCase(s, cs) && cs.ch.Ref? && !s.chans[cs.ch.id].closed && Try(s, cs).Fires?
    ensures var r := Try(s, cs); var c := cs.ch.id;
      && Inv(r.s) && r.s.fatal == s.fatal && r.ok
      && |r.s.chans| == |s.chans| && |r.s.gs| == |s.gs|
      && (forall d :: 0 <= d < |s.chans| ==> r.s.chans[d].closed == s.chans[d].closed)
      && (forall d :: 0 <= d < |s.chans| && d != c ==> r.s.chans[d].buf == s.chans[d].buf)
      && (if met then
            && h < |s.gs| && Live(s.gs[h]) && i < |s.gs[h].cases| && Arm(s.gs[h].cases[i], c, !cs.Send?)
            && r.s.gs == s.gs[h := r.s.gs[h]]
            && r.s.gs[h].Parked? && r.s.gs[h].cases == s.gs[h].cases && r.s.gs[h].sel == s.gs[h].sel
            && r.s.gs[h].claim.Some? && r.s.gs[h].claim.value.i == i && r.s.gs[h].claim.value.ok
            && |r.s.chans[c].buf| == |s.chans[c].buf|
          else
            && r.s.gs == s.gs
            && |r.s.chans[c].buf| == |s.chans[c].buf| + if cs.Send? then 1 else -1)
  {
    var c := cs.ch.id;
    var ch := s.chans[c];
    var r := Try(s, cs);
    assert ChanOk(s, c);
    met, h, i := false, 0, 0;
    if cs.Send? {
      TrySendInv(s, c, cs.v);
      var k := FirstLive(s.gs, ch.recvq, 0);
      if k < |ch.recvq| {
        met, h, i := true, ch.recvq[k].g, ch.recvq[k].i;
        assert ch.recvq[k] in QueueOf(ch, false);
        ClaimableIffLive(s, c, false, ch.recvq[k]);
        assert GoroutineOk(s.gs[h], |s.chans|);
      }
    } else {
      TryRecvInv(s, c);
      var k := FirstLive(s.gs, ch.sendq, 0);
      if k < |ch.sendq| {
        met, h, i := true, ch.sendq[k].g, ch.sendq[k].i;
        assert ch.sendq[k] in QueueOf(ch, true);
        ClaimableIffLive(s, c, true, ch.sendq[k]);
        assert GoroutineOk(s.gs[h], |s.chans|);
      }
    }
  }

  // ─── the five things a step can do ──────────────────────────────────

  datatype Shape =
    | Parks
    | Buffers(i: nat)
    | Meets(i: nat, h: nat, j: nat)
    | Resumes
    | Proceeds

  predicate SameBuffers(s: State, s': State) {
    |s'.chans| == |s.chans| && forall d :: 0 <= d < |s.chans| ==> |s'.chans[d].buf| == |s.chans[d].buf|
  }

  ghost predicate ShapeOk(s: State, s': State, g: nat, cases: seq<Case>, sel: bool, sh: Shape) {
    && Inv(s') && !s'.fatal
    && |s'.chans| == |s.chans| && |s'.gs| == |s.gs| && g < |s.gs|
    && (forall d :: 0 <= d < |s.chans| ==> s'.chans[d].closed == s.chans[d].closed)
    && match sh
       case Parks =>
         && s.gs[g].Ready? && SameBuffers(s, s') && s'.gs == s.gs[g := s'.gs[g]]
         && Live(s'.gs[g]) && s'.gs[g].cases == cases && s'.gs[g].sel == sel
       case Buffers(i) =>
         && s.gs[g].Ready? && i < |cases| && cases[i].ch.Ref? && cases[i].ch.id < |s.chans|
         && s'.gs == s.gs[g := s'.gs[g]] && s'.gs[g].Ready? && s'.gs[g].last.Fired? && s'.gs[g].last.i == i
         && |s'.chans[cases[i].ch.id].buf| == |s.chans[cases[i].ch.id].buf| + (if cases[i].Send? then 1 else -1)
         && (forall d :: 0 <= d < |s.chans| && d != cases[i].ch.id ==> |s'.chans[d].buf| == |s.chans[d].buf|)
       case Meets(i, h, j) =>
         && s.gs[g].Ready? && i < |cases| && cases[i].ch.Ref? && cases[i].ch.id < |s.chans|
         && h < |s.gs| && h != g && Live(s.gs[h]) && j < |s.gs[h].cases|
         && Arm(s.gs[h].cases[j], cases[i].ch.id, !cases[i].Send?)
         && s'.gs == s.gs[h := s'.gs[h]][g := s'.gs[g]] && s'.gs[g].Ready? && s'.gs[g].last.Fired?
         && s'.gs[g].last.i == i
         && s'.gs[h].Parked? && s'.gs[h].cases == s.gs[h].cases && s'.gs[h].sel == s.gs[h].sel
         && s'.gs[h].claim.Some? && s'.gs[h].claim.value.i == j && s'.gs[h].claim.value.ok
         && SameBuffers(s, s')
       case Resumes =>
         && !s.gs[g].Ready? && s.gs[g].claim.Some? && s.gs[g].claim.value.i < |s.gs[g].cases|
         && s.gs[g].cases[s.gs[g].claim.value.i].ch.Ref?
         && s.gs[g].cases == cases
         && s'.gs == s.gs[g := s'.gs[g]] && s'.gs[g].Ready? && s'.gs[g].last.Fired?
         && s'.gs[g].last.i == s.gs[g].claim.value.i
         && SameBuffers(s, s')
       case Proceeds =>
         && !s.gs[g].Ready? && s.gs[g].claim.Some? && (s.gs[g].Parked? ==> s.gs[g].sel)
         && s'.gs == s.gs[g := s'.gs[g]] && s'.gs[g].Waking? && s'.gs[g].cases == s.gs[g].cases
         && s'.gs[g].claim == s.gs[g].claim
         && |s'.gs[g].winners| == (if s.gs[g].Parked? then 0 else |s.gs[g].winners| + 1)
         && |s'.gs[g].winners| <= |s'.gs[g].cases|
         && SameBuffers(s, s')
  }

  predicate AllOpen(s: State) {
    forall c :: 0 <= c < |s.chans| ==> !s.chans[c].closed
  }

  /** Where nobody closes, no `Close` holds a lock. */
  lemma AllUnlocked(s: State)
    requires Inv(s) && AllOpen(s)
    ensures forall c :: 0 <= c < |s.chans| ==> s.chans[c].closer.None?
    ensures forall g :: !InClose(s, g)
  {
    forall c | 0 <= c < |s.chans| ensures s.chans[c].closer.None? { assert CloserOk(s, c); }
  }

  lemma ClassifyFire(s: State, g: nat, cases: seq<Case>, sel: bool, i: nat) returns (sh: Shape)
    requires Inv(s) && !s.fatal && g < |s.gs| && s.gs[g].Ready? && ValidCases(s, cases) && i < |cases|
    requires AllOpen(s)
    requires !Try(s, cases[i]).Blocks?
    ensures Try(s, cases[i]).Fires? && |Try(s, cases[i]).s.gs| == |s.gs|
    ensures ShapeOk(s, Complete(s, g, i, Try(s, cases[i])), g, cases, sel, sh)
    ensures (sh.Buffers? || sh.Meets?) && sh.i == i
  {
    var met, h, j := FireEffect(s, cases[i]);
    TryInv(s, g, i, cases[i]);
    sh := if met then Meets(i, h, j) else Buffers(i);
  }

  lemma ClassifyPark(s: State, g: nat, cases: seq<Case>, sel: bool)
    requires Inv(s) && !s.fatal && g < |s.gs| && s.gs[g].Ready? && ValidCases(s, cases) && (!sel ==> |cases| == 1)
    requires AllOpen(s) && forall i :: 0 <= i < |cases| ==> Try(s, cases[i]).Blocks?
    ensures ShapeOk(s, Park(s, g, sel, cases), g, cases, sel, Parks)
  {
    AllUnlocked(s);
    ParkInv(s, g, sel, cases);
    forall d | 0 <= d < |s.chans|
      ensures var r := Park(s, g, sel, cases).chans[d]; r.buf == s.chans[d].buf && r.closed == s.chans[d].closed
    {
      RegisterKeeps(s.chans, g, cases, |cases|, d);
    }
  }

  lemma ClassifyIssue(s: State, g: nat, op: Op, order: seq<nat>) returns (sh: Shape)
    requires Inv(s) && !s.fatal && g < |s.gs| && s.gs[g].Ready? && ValidOp(s, op, order)
    requires op.Plain? || (op.Select? && !op.hasDefault)
    requires AllOpen(s)
    ensures ShapeOk(s, DoIssue(s, g, op, order), g, OpCases(op), op.Select?, sh) && !sh.Resumes? && !sh.Proceeds?
  {
    var cases := OpCases(op);
    if op.Plain? {
      assert cases[0] == op.arm;
      if Try(s, op.arm).Blocks? {
        ClassifyPark(s, g, cases, false);
        sh := Parks;
      } else {
        sh := ClassifyFire(s, g, cases, false, 0);
      }
    } else {
      var k := Pass1(s, cases, order, 0);
      if k < |order| {
        sh := ClassifyFire(s, g, cases, true, order[k]);
      } else {
        forall i | 0 <= i < |cases| ensures Try(s, cases[i]).Blocks? { assert i in order; }
        ClassifyPark(s, g, cases, true);
        sh := Parks;
      }
    }
  }

  lemma ClassifyWake(s: State, a: Action, sel: bool) returns (sh: Shape)
    requires Inv(s) && Enabled(s, a) && !a.Issue? && !a.Sweep?
    requires s.gs[a.g].claim.Some? ==> s.gs[a.g].claim.value.ok
    ensures ShapeOk(s, Step(s, a), a.g, s.gs[a.g].cases, sel, sh) && (sh.Resumes? || sh.Proceeds?)
  {
    match a
    case Unpark(_) => sh := ClassifyUnpark(s, a, sel);
    case Cancel(_) => ClassifyCancel(s, a, sel); sh := Proceeds;
    case Dispatch(_) => ClassifyDispatch(s, a, sel); sh := Resumes;
  }

  lemma ClassifyUnpark(s: State, a: Action, sel: bool) returns (sh: Shape)
    requires Inv(s) && Enabled(s, a) && a.Unpark?
    requires s.gs[a.g].claim.Some? ==> s.gs[a.g].claim.value.ok
    ensures ShapeOk(s, Step(s, a), a.g, s.gs[a.g].cases, sel, sh) && (sh.Resumes? || sh.Proceeds?)
  {
    StepInv(s, a);
    assert GoroutineOk(s.gs[a.g], |s.chans|);
    sh := if s.gs[a.g].sel then Proceeds else Resumes;
  }

  lemma ClassifyCancel(s: State, a: Action, sel: bool)
    requires Inv(s) && Enabled(s, a) && a.Cancel?
    requires s.gs[a.g].claim.Some? ==> s.gs[a.g].claim.value.ok
    ensures ShapeOk(s, Step(s, a), a.g, s.gs[a.g].cases, sel, Proceeds)
  {
    CancelInv(s, a.g);
    assert GoroutineOk(s.gs[a.g], |s.chans|);
    var s' := DoCancel(s, a.g);
    forall d | 0 <= d < |s.chans|
      ensures |s'.chans| == |s.chans| && s'.chans[d].buf == s.chans[d].buf && s'.chans[d].closed == s.chans[d].closed
    {
      CancelKeepsContents(s, a.g, d);
    }
  }

  lemma ClassifyDispatch(s: State, a: Action, sel: bool)
    requires Inv(s) && Enabled(s, a) && a.Dispatch?
    requires s.gs[a.g].claim.Some? ==> s.gs[a.g].claim.value.ok
    ensures ShapeOk(s, Step(s, a), a.g, s.gs[a.g].cases, sel, Resumes)
  {
    StepInv(s, a);
    assert GoroutineOk(s.gs[a.g], |s.chans|);
    WinnerIsClaim(s, a.g);
  }

  lemma Classify(ws: seq<Worker>, p: Prog, a: Action, sends: int, receives: int) returns (sh: Shape)
    requires ProgInv(ws, p, sends, receives) && Can(ws, p, a)
    ensures ShapeOk(p.s, Step(p.s, a), a.g, CasesOf(p.s, a), ws[a.g].sel, sh)
    ensures sh.Resumes? || sh.Proceeds? <==> !a.Issue?
  {
    assert WorkerOk(ws[a.g], p.s.gs[a.g], p.rem[a.g]);
    AllUnlocked(p.s);
    if a.Issue? {
      sh := ClassifyIssue(p.s, a.g, a.op, a.order);
    } else {
      sh := ClassifyWake(p.s, a, ws[a.g].sel);
    }
  }

  // ─── each of them keeps the program invariant ───────────────────────

  /** Case `i` of a worker's operation is on a channel where it has quota left. */
  lemma ArmHasQuota(w: Worker, r: seq<nat>, sel: bool, cases: seq<Case>, i: nat)
    requires Arms(w, r, sel, cases) && i < |cases| && cases[i].ch.Ref?
    ensures cases[i].ch.id < |r| && r[cases[i].ch.id] > 0 && cases[i].Send? == w.sends
  {
  }

  lemma OpArms(w: Worker, r: seq<nat>, op: Op)
    requires OpOk(w, r, op)
    ensures Arms(w, r, w.sel, OpCases(op))
  {
  }

  lemma SpendQuota(ws: seq<Worker>, rem: seq<seq<nat>>, g: nat, c: nat, sends: bool)
    requires |ws| == |rem| && g < |ws| && c < |rem[g]| && rem[g][c] > 0
    ensures Total(rem[g][c := rem[g][c] - 1]) == Total(rem[g]) - 1
    ensures Sum(SideTotals(ws, rem[g := rem[g][c := rem[g][c] - 1]], sends)) ==
      Sum(SideTotals(ws, rem, sends)) - if ws[g].sends == sends then 1 else 0
  {
    var r' := rem[g][c := rem[g][c] - 1];
    SumUpdate(rem[g], c, rem[g][c] - 1);
    var t := SideTotals(ws, rem, sends);
    var v := if ws[g].sends == sends then Total(r') else 0;
    SumUpdate(t, g, v);
    assert SideTotals(ws, rem[g := r'], sends) == t[g := v];
  }

  lemma TermsUpdate(ws: seq<Worker>, p: Prog, p': Prog, g: nat, c: nat)
    requires |ws| == |p.s.gs| == |p.rem| == |p'.s.gs| == |p'.rem| && g < |ws|
    requires forall h :: 0 <= h < |ws| && h != g ==>
      Term(ws[h], p'.s.gs[h], p'.rem[h], c) == Term(ws[h], p.s.gs[h], p.rem[h], c)
    ensures Sum(Terms(ws, p', c)) ==
      Sum(Terms(ws, p, c)) - Term(ws[g], p.s.gs[g], p.rem[g], c) + Term(ws[g], p'.s.gs[g], p'.rem[g], c)
  {
    var v := Term(ws[g], p'.s.gs[g], p'.rem[g], c);
    SumUpdate(Terms(ws, p, c), g, v);
    assert Terms(ws, p', c) == Terms(ws, p, c)[g := v];
  }

  /** A step of `g`, with operation `cases`, that has shape `sh` and leads to `s'`. */
  ghost predicate Shaped(ws: seq<Worker>, p: Prog, g: nat, cases: seq<Case>, s': State, sh: Shape, sends: int,
                         receives: int) {
    && ProgInv(ws, p, sends, receives) && g < |ws|
    && ShapeOk(p.s, s', g, cases, ws[g].sel, sh)
    && (p.s.gs[g].Ready? ==> !Idle(p.rem[g]) && Arms(ws[g], p.rem[g], ws[g].sel, cases))
  }

  /** Steps in which no operation finishes. */
  lemma QuietKeeps(ws: seq<Worker>, p: Prog, g: nat, cases: seq<Case>, s': State, sh: Shape, sends: int, receives: int)
    requires Shaped(ws, p, g, cases, s', sh, sends, receives) && (sh.Parks? || sh.Proceeds?)
    ensures var p' := Book(ws, p, g, cases, s');
      ProgInv(ws, p', sends, receives) && Measure(p') < Measure(p)
  {
    var p' := Book(ws, p, g, cases, s');
    assert WorkerOk(ws[g], p.s.gs[g], p.rem[g]);
    forall h | 0 <= h < |p'.rem| ensures WorkerOk(ws[h], p'.s.gs[h], p'.rem[h]) {
      assert WorkerOk(ws[h], p.s.gs[h], p.rem[h]);
    }
    forall c | 0 <= c < |p'.s.chans| ensures Sum(Terms(ws, p', c)) + |p'.s.chans[c].buf| == 0 {
      TermsUpdate(ws, p, p', g, c);
    }
    WeightsUpdate(p, p', g);
  }

  /** The book-keeping of a finished operation. */
  lemma FiredSpends(ws: seq<Worker>, p: Prog, g: nat, cases: seq<Case>, s': State, i: nat, sends: int, receives: int)
    requires |ws| == |p.s.gs| == |p.rem| == |s'.gs| && g < |ws|
    requires p.sent + Sum(SideTotals(ws, p.rem, true)) == sends
    requires p.received + Sum(SideTotals(ws, p.rem, false)) == receives
    requires s'.gs[g].Ready? && s'.gs[g].last.Fired? && s'.gs[g].last.i == i < |cases| && cases[i].ch.Ref?
    requires Arms(ws[g], p.rem[g], ws[g].sel, cases)
    ensures var p' := Book(ws, p, g, cases, s'); var c := cases[i].ch.id;
      && c < |p.rem[g]| && p.rem[g][c] > 0 && cases[i].Send? == ws[g].sends
      && p'.s == s'
      && p'.rem == p.rem[g := p.rem[g][c := p.rem[g][c] - 1]]
      && Weight(|s'.chans|, s'.gs[g], p'.rem[g]) == (|s'.chans| + 4) * Total(p.rem[g]) - (|s'.chans| + 4)
      && p'.sent + Sum(SideTotals(ws, p'.rem, true)) == sends
      && p'.received + Sum(SideTotals(ws, p'.rem, false)) == receives
  {
    ArmHasQuota(ws[g], p.rem[g], ws[g].sel, cases, i);
    var c := cases[i].ch.id;
    SpendQuota(ws, p.rem, g, c, true);
    SpendQuota(ws, p.rem, g, c, false);
    WeightDrops(|s'.chans|, s'.gs[g], p.rem[g], p.rem[g][c := p.rem[g][c] - 1]);
  }

  lemma WeightDrops(k: nat, g: Goroutine, r: seq<nat>, r': seq<nat>)
    requires g.Ready? && Total(r') == Total(r) - 1
    ensures Weight(k, g, r') == (k + 4) * Total(r) - (k + 4)
  {
    LessOne(k + 4, Total(r), Total(r'));
  }

  lemma LessOne(k: int, t: int, t': int)
    requires t' == t - 1
    ensures k * t' == k * t - k
  {
  }

  /** Coming back from a park: the unit of quota was already discounted. */
  lemma ResumeKeeps(ws: seq<Worker>, p: Prog, g: nat, cases: seq<Case>, s': State, sends: int, receives: int)
    requires Shaped(ws, p, g, cases, s', Resumes, sends, receives)
    ensures var p' := Book(ws, p, g, cases, s');
      ProgInv(ws, p', sends, receives) && Measure(p') < Measure(p)
  {
    var p' := Book(ws, p, g, cases, s');
    var x := p.s.gs[g];
    assert WorkerOk(ws[g], x, p.rem[g]);
    assert GoroutineOk(x, |p.s.chans|);
    var i := x.claim.value.i;
    FiredSpends(ws, p, g, cases, s', i, sends, receives);
    OthersStayOk(ws, p, p', g, g, cases[i].ch.id);
    forall c | 0 <= c < |p'.s.chans| ensures Sum(Terms(ws, p', c)) + |p'.s.chans[c].buf| == 0 {
      ResumeBalances(ws, p, p', g, c, cases[i].ch.id);
    }
    ResumeMeasure(p, p', g);
  }

  lemma ResumeMeasure(p: Prog, p': Prog, g: nat)
    requires |p.s.gs| == |p.rem| == |p'.s.gs| == |p'.rem| && g < |p.rem| && |p.s.chans| == |p'.s.chans|
    requires p'.s.gs == p.s.gs[g := p'.s.gs[g]] && p'.rem == p.rem[g := p'.rem[g]] && !p.s.gs[g].Ready?
    requires p.s.gs[g].Waking? ==> |p.s.gs[g].winners| <= |p.s.chans|
    requires Weight(|p.s.chans|, p'.s.gs[g], p'.rem[g]) == (|p.s.chans| + 4) * Total(p.rem[g]) - (|p.s.chans| + 4)
    ensures Measure(p') < Measure(p)
  {
    WeightsUpdate(p, p', g);
  }

  /** When the finished operation of g has been written off, everybody is still in order; h is the
      partner it may have met. */
  lemma OthersStayOk(ws: seq<Worker>, p: Prog, p': Prog, g: nat, h: nat, c: nat)
    requires |ws| == |p.s.gs| == |p.rem| == |p'.s.gs| == |p'.rem| && g < |ws| && h < |ws|
    requires c < |p.rem[g]| && p.rem[g][c] > 0 && p'.rem == p.rem[g := p.rem[g][c := p.rem[g][c] - 1]]
    requires p'.s.gs[g].Ready? && forall x :: 0 <= x < |ws| && x != g && x != h ==> p'.s.gs[x] == p.s.gs[x]
    requires h != g ==> WorkerOk(ws[h], p'.s.gs[h], p.rem[h])
    requires forall x :: 0 <= x < |ws| ==> WorkerOk(ws[x], p.s.gs[x], p.rem[x])
    ensures forall x :: 0 <= x < |ws| ==> |p'.rem[x]| == |p.rem[x]| && WorkerOk(ws[x], p'.s.gs[x], p'.rem[x])
  {
    forall x | 0 <= x < |ws| ensures WorkerOk(ws[x], p'.s.gs[x], p'.rem[x]) {
      assert WorkerOk(ws[x], p.s.gs[x], p.rem[x]);
    }
  }

  /** The balance does not change when a finished operation is written off. */
  lemma ResumeBalances(ws: seq<Worker>, p: Prog, p': Prog, g: nat, c: nat, c0: nat)
    requires |ws| == |p.s.gs| == |p.rem| == |p'.s.gs| == |p'.rem| && g < |ws|
    requires c0 < |p.rem[g]| && p.rem[g][c0] > 0
    requires p'.rem == p.rem[g := p.rem[g][c0 := p.rem[g][c0] - 1]] && p'.s.gs == p.s.gs[g := p'.s.gs[g]]
    requires p'.s.gs[g].Ready? && !p.s.gs[g].Ready? && p.s.gs[g].claim.Some?
    requires p.s.gs[g].claim.value.i < |p.s.gs[g].cases| && p.s.gs[g].cases[p.s.gs[g].claim.value.i].ch == Ref(c0)
    ensures Sum(Terms(ws, p', c)) == Sum(Terms(ws, p, c))
  {
    TermsUpdate(ws, p, p', g, c);
  }

  /** An operation that communicates at once, through the buffer. */
  lemma BufferKeeps(ws: seq<Worker>, p: Prog, g: nat, cases: seq<Case>, s': State, i: nat, sends: int, receives: int)
    requires Shaped(ws, p, g, cases, s', Buffers(i), sends, receives)
    ensures var p' := Book(ws, p, g, cases, s');
      ProgInv(ws, p', sends, receives) && Measure(p') < Measure(p)
  {
    var p' := Book(ws, p, g, cases, s');
    FiredSpends(ws, p, g, cases, s', i, sends, receives);
    OthersStayOk(ws, p, p', g, g, cases[i].ch.id);
    BufferBalanced(ws, p, p', g, cases, s', i, sends, receives);
    WeightsUpdate(p, p', g);
  }

  lemma BufferBalanced(ws: seq<Worker>, p: Prog, p': Prog, g: nat, cases: seq<Case>, s': State, i: nat, sends: int,
                       receives: int)
    requires Shaped(ws, p, g, cases, s', Buffers(i), sends, receives)
    requires var c := cases[i].ch.id;
      && p'.s == s' && c < |p.rem[g]| && p.rem[g][c] > 0 && p'.rem == p.rem[g := p.rem[g][c := p.rem[g][c] - 1]]
      && cases[i].Send? == ws[g].sends
    ensures forall c :: 0 <= c < |s'.chans| ==> Sum(Terms(ws, p', c)) + |s'.chans[c].buf| == 0
  {
    forall c | 0 <= c < |s'.chans| ensures Sum(Terms(ws, p', c)) + |s'.chans[c].buf| == 0 {
      TermsUpdate(ws, p, p', g, c);
    }
  }

  /** An operation that communicates at once, with a parked partner. */
  lemma MeetKeeps(ws: seq<Worker>, p: Prog, g: nat, cases: seq<Case>, s': State, i: nat, h: nat, j: nat,
                  sends: int, receives: int)
    requires Shaped(ws, p, g, cases, s', Meets(i, h, j), sends, receives)
    ensures var p' := Book(ws, p, g, cases, s');
      ProgInv(ws, p', sends, receives) && Measure(p') < Measure(p)
  {
    var p' := Book(ws, p, g, cases, s');
    FiredSpends(ws, p, g, cases, s', i, sends, receives);
    MeetWorkers(ws, p, p', g, cases, s', i, h, j, sends, receives);
    MeetBalanced(ws, p, p', g, cases, s', i, h, j, sends, receives);
    MeetMeasure(p, p', g, h);
  }

  lemma MeetWorkers(ws: seq<Worker>, p: Prog, p': Prog, g: nat, cases: seq<Case>, s': State, i: nat, h: nat, j: nat,
                    sends: int, receives: int)
    requires Shaped(ws, p, g, cases, s', Meets(i, h, j), sends, receives)
    requires var c := cases[i].ch.id;
      p'.s == s' && c < |p.rem[g]| && p.rem[g][c] > 0 && p'.rem == p.rem[g := p.rem[g][c := p.rem[g][c] - 1]]
    ensures forall x :: 0 <= x < |ws| ==> |p'.rem[x]| == |p.rem[x]| && WorkerOk(ws[x], p'.s.gs[x], p'.rem[x])
  {
    assert WorkerOk(ws[h], p.s.gs[h], p.rem[h]);
    OthersStayOk(ws, p, p', g, h, cases[i].ch.id);
  }

  lemma MeetBalanced(ws: seq<Worker>, p: Prog, p': Prog, g: nat, cases: seq<Case>, s': State, i: nat, h: nat, j: nat,
                     sends: int, receives: int)
    requires Shaped(ws, p, g, cases, s', Meets(i, h, j), sends, receives)
    requires var c := cases[i].ch.id;
      && p'.s == s' && c < |p.rem[g]| && p.rem[g][c] > 0 && p'.rem == p.rem[g := p.rem[g][c := p.rem[g][c] - 1]]
      && cases[i].Send? == ws[g].sends
    ensures forall c :: 0 <= c < |s'.chans| ==> Sum(Terms(ws, p', c)) + |s'.chans[c].buf| == 0
  {
    assert WorkerOk(ws[h], p.s.gs[h], p.rem[h]);
    forall c | 0 <= c < |s'.chans| ensures Sum(Terms(ws, p', c)) + |s'.chans[c].buf| == 0 {
      MeetBalances(ws, p, p', g, h, c, cases[i].ch.id);
    }
  }

  lemma MeetMeasure(p: Prog, p': Prog, g: nat, h: nat)
    requires |p.s.gs| == |p.rem| == |p'.s.gs| == |p'.rem| && g < |p.rem| && h < |p.rem| && g != h
    requires |p.s.chans| == |p'.s.chans| && p'.rem == p.rem[g := p'.rem[g]]
    requires p'.s.gs == p.s.gs[h := p'.s.gs[h]][g := p'.s.gs[g]]
    requires p.s.gs[g].Ready? && Live(p.s.gs[h]) && p'.s.gs[h].Parked? && p'.s.gs[h].claim.Some?
    requires Weight(|p.s.chans|, p'.s.gs[g], p'.rem[g]) == (|p.s.chans| + 4) * Total(p.rem[g]) - (|p.s.chans| + 4)
    ensures Measure(p') < Measure(p)
  {
    var m := Prog(p.s.(gs := p.s.gs[h := p'.s.gs[h]]), p.rem, p.sent, p.received);
    WeightsUpdate(p, m, h);
    WeightsUpdate(m, p', g);
  }

  /** A meeting takes one from each side of the balance. */
  lemma MeetBalances(ws: seq<Worker>, p: Prog, p': Prog, g: nat, h: nat, c: nat, c0: nat)
    requires |ws| == |p.s.gs| == |p.rem| == |p'.s.gs| == |p'.rem| && g < |ws| && h < |ws| && g != h
    requires c0 < |p.rem[g]| && p.rem[g][c0] > 0
    requires p'.rem == p.rem[g := p.rem[g][c0 := p.rem[g][c0] - 1]]
    requires p'.s.gs == p.s.gs[h := p'.s.gs[h]][g := p'.s.gs[g]]
    requires p.s.gs[g].Ready? && p'.s.gs[g].Ready? && Live(p.s.gs[h]) && p'.s.gs[h].Parked?
    requires p'.s.gs[h].cases == p.s.gs[h].cases
    requires p'.s.gs[h].claim.Some? && p'.s.gs[h].claim.value.i < |p.s.gs[h].cases|
    requires Arm(p.s.gs[h].cases[p'.s.gs[h].claim.value.i], c0, !ws[g].sends)
    requires WorkerOk(ws[h], p.s.gs[h], p.rem[h])
    ensures Sum(Terms(ws, p', c)) == Sum(Terms(ws, p, c))
  {
    var m := Prog(p.s.(gs := p.s.gs[h := p'.s.gs[h]]), p.rem, p.sent, p.received);
    TermsUpdate(ws, p, m, h, c);
    TermsUpdate(ws, m, p', g, c);
    assert ws[h].sends == !ws[g].sends;
  }

  /** Every step keeps the program invariant and brings the program strictly closer to
      its end. */
  lemma AdvanceKeeps(ws: seq<Worker>, p: Prog, a: Action, sends: int, receives: int)
    requires ProgInv(ws, p, sends, receives) && Can(ws, p, a)
    ensures ProgInv(ws, Advance(ws, p, a), sends, receives) && Measure(Advance(ws, p, a)) < Measure(p)
  {
    var sh := Classify(ws, p, a, sends, receives);
    var g, cases, s' := a.g, CasesOf(p.s, a), Step(p.s, a);
    if a.Issue? { OpArms(ws[g], p.rem[g], a.op); }
    match sh
    case Parks => QuietKeeps(ws, p, g, cases, s', sh, sends, receives);
    case Proceeds => QuietKeeps(ws, p, g, cases, s', sh, sends, receives);
    case Resumes => ResumeKeeps(ws, p, g, cases, s', sends, receives);
    case Buffers(i) => BufferKeeps(ws, p, g, cases, s', i, sends, receives);
    case Meets(i, h, j) => MeetKeeps(ws, p, g, cases, s', i, h, j, sends, receives);
  }

  // ─── no deadlock ────────────────────────────────────────────────────

  /** A goroutine with quota left on `c` and nothing in flight is live and offers `c`. */
  lemma QuotaMeansOffer(ws: seq<Worker>, p: Prog, g: nat, c: nat, sends: int, receives: int)
    requires ProgInv(ws, p, sends, receives) && g < |ws| && c < |p.s.chans|
    requires p.rem[g][c] > 0 && Live(p.s.gs[g])
    ensures Offers(p.s.gs[g], c, ws[g].sends)
  {
    var x := p.s.gs[g];
    assert WorkerOk(ws[g], x, p.rem[g]);
    if x.sel { assert Arm(x.cases[c], c, ws[g].sends); } else { assert Arm(x.cases[0], c, ws[g].sends); }
  }

  predicate CanMove(p: Prog, g: nat)
    requires g < |p.s.gs| == |p.rem|
  {
    if p.s.gs[g].Ready? then !Idle(p.rem[g]) else !Live(p.s.gs[g])
  }

  /** If everybody were parked or done, the balance of a channel would give the parked one
      a parked partner, which the channel invariant excludes. */
  lemma SomeoneCanMove(ws: seq<Worker>, p: Prog, sends: int, receives: int)
    requires ProgInv(ws, p, sends, receives) && !Finished(p)
    ensures exists g :: 0 <= g < |ws| && CanMove(p, g)
  {
    if forall g :: 0 <= g < |ws| ==> !CanMove(p, g) {
      var g :| 0 <= g < |ws| && !(p.s.gs[g].Ready? && Idle(p.rem[g]));
      assert !CanMove(p, g);
      assert WorkerOk(ws[g], p.s.gs[g], p.rem[g]);
      var c :| 0 <= c < |p.rem[g]| && p.rem[g][c] != 0;
      Unbalanced(ws, p, g, c, sends, receives);
    }
  }

  /** A parked goroutine with quota left, and nobody able to move, would tip the balance of its
      channel against what its buffer holds. */
  lemma Unbalanced(ws: seq<Worker>, p: Prog, g: nat, c: nat, sends: int, receives: int)
    requires ProgInv(ws, p, sends, receives) && g < |ws| && c < |p.s.chans| && p.rem[g][c] > 0 && Live(p.s.gs[g])
    ensures exists h :: 0 <= h < |ws| && CanMove(p, h)
  {
    if forall h :: 0 <= h < |ws| ==> !CanMove(p, h) {
      assert ChanOk(p.s, c);
      var t := Terms(ws, p, c);
      SumFlipped(t);
      QuotaMeansOffer(ws, p, g, c, sends, receives);
      OthersAreDone(ws, p, g, c, sends, receives);
      SumAtLeast(if ws[g].sends then t else Flipped(t), g);
      assert false;
    }
  }

  lemma {:induction false} SumAtLeast(t: seq<int>, g: nat)
    requires g < |t| && forall h :: 0 <= h < |t| ==> t[h] >= 0
    ensures Sum(t) >= t[g]
  {
    SumUpdate(t, g, 0);
    SumNonNegative(t[g := 0]);
  }

  /** With nobody able to move, the side opposite to a parked goroutine has nothing left
      to do on its channel. */
  lemma OthersAreDone(ws: seq<Worker>, p: Prog, g: nat, c: nat, sends: int, receives: int)
    requires ProgInv(ws, p, sends, receives) && g < |ws| && c < |p.s.chans| && p.rem[g][c] > 0 && Live(p.s.gs[g])
    requires forall h :: 0 <= h < |ws| ==> !CanMove(p, h)
    ensures forall h :: 0 <= h < |ws| ==>
      (if ws[h].sends == ws[g].sends then
         && (ws[h].sends ==> Term(ws[h], p.s.gs[h], p.rem[h], c) == p.rem[h][c])
         && (!ws[h].sends ==> Term(ws[h], p.s.gs[h], p.rem[h], c) + p.rem[h][c] == 0)
       else Term(ws[h], p.s.gs[h], p.rem[h], c) == 0)
  {
    QuotaMeansOffer(ws, p, g, c, sends, receives);
    assert ChanOk(p.s, c);
    forall h | 0 <= h < |ws| && ws[h].sends != ws[g].sends ensures p.rem[h][c] == 0 {
      assert !CanMove(p, h);
      if p.rem[h][c] > 0 {
        QuotaMeansOffer(ws, p, h, c, sends, receives);
        assert false;
      }
    }
    forall h | 0 <= h < |ws| ensures Left(p.s.gs[h], p.rem[h], c) == p.rem[h][c] {
      assert !CanMove(p, h);
    }
  }

  function Flipped(t: seq<int>): (u: seq<int>)
    ensures |u| == |t| && forall h :: 0 <= h < |t| ==> u[h] == -t[h]
  {
    seq(|t|, h requires 0 <= h < |t| => -t[h])
  }

  lemma {:induction false} SumFlipped(t: seq<int>)
    ensures Sum(Flipped(t)) == -Sum(t)
  {
    if t == [] {
    } else {
      SumFlipped(t[1..]);
      assert Flipped(t)[1..] == Flipped(t[1..]);
    }
  }

  /** An operation a worker with quota left can issue. */
  function OpFor(w: Worker, r: seq<nat>): Op {
    if w.sel then
      Select(seq(|r|, i requires 0 <= i < |r| =>
        var ch := if r[i] > 0 then Ref(i) else Nil;
        if w.sends then Send(ch, 0) else Recv(ch)), false)
    else
      Plain(if w.sends then Send(Ref(w.home), 0) else Recv(Ref(w.home)))
  }

  /** Deadlock freedom: as long as some goroutine is not done, some step is possible. */
  lemma DeadlockFree(ws: seq<Worker>, p: Prog, sends: int, receives: int) returns (a: Action)
    requires ProgInv(ws, p, sends, receives) && !Finished(p)
    ensures Can(ws, p, a)
  {
    SomeoneCanMove(ws, p, sends, receives);
    var g :| 0 <= g < |ws| && CanMove(p, g);
    assert WorkerOk(ws[g], p.s.gs[g], p.rem[g]);
    AllUnlocked(p.s);
    if p.s.gs[g].Ready? { a := CanIssue(ws, p, g); } else { a := CanResume(ws, p, g); }
  }

  lemma CanResume(ws: seq<Worker>, p: Prog, g: nat) returns (a: Action)
    requires Inv(p.s) && |ws| == |p.s.gs| == |p.rem| && g < |ws| && !p.s.fatal
    requires forall c :: 0 <= c < |p.s.chans| ==> p.s.chans[c].closer.None?
    requires !p.s.gs[g].Ready? && !Live(p.s.gs[g])
    ensures Can(ws, p, a)
  {
    var x := p.s.gs[g];
    assert GoroutineOk(x, |p.s.chans|);
    a := if x.Parked? then Unpark(g) else if |x.winners| < |x.cases| then Cancel(g) else Dispatch(g);
  }

  lemma CanIssue(ws: seq<Worker>, p: Prog, g: nat) returns (a: Action)
    requires |ws| == |p.s.gs| == |p.rem| && g < |ws| && |p.rem[g]| == |p.s.chans| && !p.s.fatal && !p.s.panicked
    requires p.s.gs[g].Ready? && !Idle(p.rem[g]) && WorkerOk(ws[g], p.s.gs[g], p.rem[g])
    requires forall c :: 0 <= c < |p.s.chans| ==> p.s.chans[c].closer.None?
    ensures Can(ws, p, a)
  {
    var k := |p.s.chans|;
    var order := seq(k, i requires 0 <= i < k => i);
    forall i | 0 <= i < k ensures i in order { assert order[i] == i; }
    a := Issue(g, OpFor(ws[g], p.rem[g]), order);
    assert OpOk(ws[g], p.rem[g], a.op);
  }

  // ─── termination ────────────────────────────────────────────────────

  /** Steps one goroutine can still take or have taken on it. */
  function Weight(k: nat, g: Goroutine, r: seq<nat>): int {
    var base := (k + 4) * Total(r);
    match g
    case Ready(_) => base
    case Parked(_, _, _, claim) => if claim.None? then base - 1 else base - 2
    case Waking(_, _, _, winners) => base - 3 - |winners|
  }

  function Weights(p: Prog): (t: seq<int>)
    requires |p.s.gs| == |p.rem|
    ensures |t| == |p.rem|
  {
    seq(|p.rem|, g requires 0 <= g < |p.rem| => Weight(|p.s.chans|, p.s.gs[g], p.rem[g]))
  }

  function Measure(p: Prog): int
    requires |p.s.gs| == |p.rem|
  {
    Sum(Weights(p))
  }

  lemma NotIdleTotal(r: seq<nat>)
    ensures Total(r) >= 0
    ensures !Idle(r) ==> Total(r) >= 1
  {
    SumNonNegative(r);
  }

  lemma MeasureNonNegative(ws: seq<Worker>, p: Prog, sends: int, receives: int)
    requires ProgInv(ws, p, sends, receives)
    ensures Measure(p) >= 0
  {
    forall g | 0 <= g < |p.rem| ensures Weights(p)[g] >= 0 {
      assert WorkerOk(ws[g], p.s.gs[g], p.rem[g]);
      assert GoroutineOk(p.s.gs[g], |p.s.chans|);
      NotIdleTotal(p.rem[g]);
      var k, t := |p.s.chans|, Total(p.rem[g]);
      assert t >= 1 ==> (k + 4) * t >= k + 4;
    }
    SumNonNegative(Weights(p));
  }

  lemma WeightsUpdate(p: Prog, p': Prog, g: nat)
    requires |p.s.gs| == |p.rem| == |p'.s.gs| == |p'.rem| && g < |p.rem| && |p.s.chans| == |p'.s.chans|
    requires forall h :: 0 <= h < |p.rem| && h != g ==>
      Weight(|p.s.chans|, p'.s.gs[h], p'.rem[h]) == Weight(|p.s.chans|, p.s.gs[h], p.rem[h])
    ensures Measure(p') ==
      Measure(p) - Weight(|p.s.chans|, p.s.gs[g], p.rem[g]) + Weight(|p.s.chans|, p'.s.gs[g], p'.rem[g])
  {
    var v := Weight(|p.s.chans|, p'.s.gs[g], p'.rem[g]);
    SumUpdate(Weights(p), g, v);
    assert Weights(p') == Weights(p)[g := v];
  }

  // ─── the main results ───────────────────────────────────────────────

  /** Fresh channels, fresh goroutines, and on every channel as much to send as to
      receive. */
  ghost predicate Start(ws: seq<Worker>, p: Prog) {
    && Init(p.s) && p.sent == 0 && p.received == 0
    && |ws| == |p.s.gs| == |p.rem|
    && (forall g :: 0 <= g < |p.rem| ==> |p.rem[g]| == |p.s.chans|)
    && (forall g :: 0 <= g < |ws| && !ws[g].sel ==>
          && ws[g].home < |p.s.chans|
          && forall c :: 0 <= c < |p.rem[g]| && c != ws[g].home ==> p.rem[g][c] == 0)
    && (forall c :: 0 <= c < |p.s.chans| ==> Sum(Terms(ws, p, c)) == 0)
  }

  lemma {:induction false} RunAllInv(ws: seq<Worker>, p: Prog, acts: seq<Action>, sends: int, receives: int)
    requires ProgInv(ws, p, sends, receives) && CanRunAll(ws, p, acts)
    ensures ProgInv(ws, RunAll(ws, p, acts), sends, receives)
    ensures |acts| <= Measure(p) - Measure(RunAll(ws, p, acts))
    decreases |acts|
  {
    if acts == [] {
    } else {
      AdvanceKeeps(ws, p, acts[0], sends, receives);
      RunAllInv(ws, Advance(ws, p, acts[0]), acts[1..], sends, receives);
    }
  }

  /** Every schedule of every balanced workload: no run is longer than the bound, a run can
      always be continued until every goroutine is done, and then the totals are the
      sums of the quotas and every buffer is empty. */
  lemma EveryRunCompletes(ws: seq<Worker>, p: Prog, acts: seq<Action>)
    requires Start(ws, p) && CanRunAll(ws, p, acts)
    ensures |acts| <= Measure(p)
    ensures var r := RunAll(ws, p, acts);
      && !r.s.fatal && !r.s.panicked
      && (!Finished(r) ==> exists a :: Can(ws, r, a))
      && (Finished(r) ==>
            && r.sent == Sum(SideTotals(ws, p.rem, true))
            && r.received == Sum(SideTotals(ws, p.rem, false))
            && forall c :: 0 <= c < |r.s.chans| ==> r.s.chans[c].buf == [])
  {
    var sends, receives := Sum(SideTotals(ws, p.rem, true)), Sum(SideTotals(ws, p.rem, false));
    InitInv(p.s);
    assert ProgInv(ws, p, sends, receives);
    RunAllInv(ws, p, acts, sends, receives);
    var r := RunAll(ws, p, acts);
    MeasureNonNegative(ws, r, sends, receives);
    if !Finished(r) {
      var a := DeadlockFree(ws, r, sends, receives);
    } else {
      NothingLeft(ws, r, sends, receives);
    }
  }

  lemma NothingLeft(ws: seq<Worker>, r: Prog, sends: int, receives: int)
    requires ProgInv(ws, r, sends, receives) && Finished(r)
    ensures r.sent == sends && r.received == receives
    ensures forall c :: 0 <= c < |r.s.chans| ==> r.s.chans[c].buf == []
  {
    forall g, b | 0 <= g < |ws| ensures SideTotals(ws, r.rem, b)[g] == 0 { SumZero(r.rem[g]); }
    SumZero(SideTotals(ws, r.rem, true));
    SumZero(SideTotals(ws, r.rem, false));
    forall c | 0 <= c < |r.s.chans| ensures r.s.chans[c].buf == [] {
      SumZero(Terms(ws, r, c));
    }
  }
}
