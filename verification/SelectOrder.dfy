/** The two orders a `select!` computes before it touches a channel: the order in which it
    takes the channel locks, and the order in which it polls the cases. */
module SelectOrder {

  // ─── lock order: sort the lock addresses, drop duplicates ───────────

  predicate Ascending(s: seq<nat>) {
    forall i, j :: 0 <= i < j < |s| ==> s[i] < s[j]
  }

  predicate SortedSeq(s: seq<nat>) {
    forall i, j :: 0 <= i < j < |s| ==> s[i] <= s[j]
  }

  /** The insertion sort. */
  method SortAtoms(atoms: array<nat>)
    modifies atoms
    ensures SortedSeq(atoms[..])
    ensures multiset(atoms[..]) == multiset(old(atoms[..]))
  {
    var i := 1;
    while i < atoms.Length
      invariant atoms.Length > 0 ==> 1 <= i <= atoms.Length
      invariant atoms.Length == 0 ==> i == 1
      invariant forall a, b :: 0 <= a < b < i && b < atoms.Length ==> atoms[a] <= atoms[b]
      invariant multiset(atoms[..]) == multiset(old(atoms[..]))
    {
      SiftDown(atoms, i);
      i := i + 1;
    }
  }

  /** The inner loop: entry i moves down to its place among the sorted entries before it. */
  method SiftDown(atoms: array<nat>, i: nat)
    requires i < atoms.Length && forall a, b :: 0 <= a < b < i ==> atoms[a] <= atoms[b]
    modifies atoms
    ensures forall a, b :: 0 <= a < b <= i ==> atoms[a] <= atoms[b]
    ensures multiset(atoms[..]) == multiset(old(atoms[..]))
  {
    var j := i;
    while j > 0 && atoms[j - 1] > atoms[j]
      invariant 0 <= j <= i < atoms.Length
      invariant SortedBut(atoms[..], i, j)
      invariant multiset(atoms[..]) == multiset(old(atoms[..]))
    {
      ghost var before := atoms[..];
      atoms[j - 1], atoms[j] := atoms[j], atoms[j - 1];
      Sifted(before, i, j, atoms[..]);
      j := j - 1;
    }
    assert forall k :: 0 <= k <= i ==> atoms[..][k] == atoms[k];
  }

  /** The entries up to i are in order, except that entry j may be too small for its place. */
  predicate SortedBut(s: seq<nat>, i: nat, j: nat) {
    i < |s| && forall a, b :: 0 <= a < b <= i && b != j ==> s[a] <= s[b]
  }

  lemma Sifted(s: seq<nat>, i: nat, j: nat, t: seq<nat>)
    requires SortedBut(s, i, j) && 0 < j <= i && s[j - 1] > s[j] && t == s[j - 1 := s[j]][j := s[j - 1]]
    ensures SortedBut(t, i, j - 1) && multiset(t) == multiset(s)
  {
  }

  /** The compaction of a sorted array: its distinct elements, once each, at the front. */
  method CompactAtoms(atoms: array<nat>) returns (unique: nat)
    requires SortedSeq(atoms[..])
    modifies atoms
    ensures unique <= atoms.Length
    ensures Ascending(atoms[..unique])
    ensures forall x :: x in atoms[..unique] <==> x in old(atoms[..])
  {
    if atoms.Length == 0 {
      return 0;
    }
    unique := 1;
    var i := 1;
    while i < atoms.Length
      invariant 1 <= unique <= i <= atoms.Length
      invariant forall k :: i <= k < atoms.Length ==> atoms[k] == old(atoms[k])
      invariant Ascending(atoms[..unique])
      invariant atoms[unique - 1] == old(atoms[i - 1])
      invariant forall x :: x in atoms[..unique] <==> x in old(atoms[..])[..i]
    {
      ghost var before := atoms[..unique];
      if atoms[i] != atoms[unique - 1] {
        assert old(atoms[..])[i - 1] <= old(atoms[..])[i];
        atoms[unique] := atoms[i];
        unique := unique + 1;
        assert atoms[..unique] == before + [old(atoms[i])];
      } else {
        assert old(atoms[i]) in before by { assert before[|before| - 1] == old(atoms[i]); }
      }
      assert old(atoms[..])[..i + 1] == old(atoms[..])[..i] + [old(atoms[i])];
      i := i + 1;
    }
    assert old(atoms[..])[..i] == old(atoms[..]);
  }

  /** Both together: the locks of a `select!`, each once, by ascending address. */
  method LockOrder(atoms: array<nat>) returns (unique: nat)
    modifies atoms
    ensures unique <= atoms.Length && Ascending(atoms[..unique])
    ensures forall x :: x in atoms[..unique] <==> x in old(atoms[..])
  {
    SortAtoms(atoms);
    ghost var mid := atoms[..];
    unique := CompactAtoms(atoms);
    forall x ensures x in mid <==> x in old(atoms[..]) {
      assert x in mid <==> x in multiset(mid);
      assert x in old(atoms[..]) <==> x in multiset(old(atoms[..]));
    }
  }

  /** The locks behind these addresses, in order; a nil channel has the null address and no lock. */
  function NonNull(s: seq<nat>): (r: seq<nat>)
    ensures forall x :: x in r <==> x in s && x != 0
  {
    if s == [] then []
    else if s[|s| - 1] == 0 then NonNull(s[..|s| - 1])
    else NonNull(s[..|s| - 1]) + [s[|s| - 1]]
  }

  lemma {:induction false} NonNullAscending(s: seq<nat>)
    requires Ascending(s)
    ensures Ascending(NonNull(s))
  {
    if s == [] {
    } else {
      var n := |s| - 1;
      NonNullAscending(s[..n]);
      forall x | x in NonNull(s[..n]) ensures x < s[n] {
        var k :| 0 <= k < n && s[..n][k] == x;
      }
      AscendingSnoc(NonNull(s[..n]), s[n]);
    }
  }

  lemma AscendingSnoc(s: seq<nat>, x: nat)
    requires Ascending(s) && forall y :: y in s ==> y < x
    ensures Ascending(s + [x])
  {
    assert forall i :: 0 <= i < |s| ==> s[i] in s;
  }

  /** The acquire loop, as the sequence of its lock calls. */
  method AcquireAll(atoms: array<nat>, unique: nat) returns (calls: seq<nat>)
    requires unique <= atoms.Length
    ensures calls == NonNull(atoms[..unique])
  {
    calls := [];
    var i := 0;
    while i < unique
      invariant 0 <= i <= unique && calls == NonNull(atoms[..i])
    {
      assert atoms[..i + 1][..i] == atoms[..i];
      if atoms[i] != 0 { calls := calls + [atoms[i]]; }
      i := i + 1;
    }
  }

  /** What a `select!` does before pass 1: it locks every channel among its cases exactly once, by
      ascending address, and no nil channel. */
  method LockChannels(atoms: array<nat>) returns (calls: seq<nat>)
    modifies atoms
    ensures Ascending(calls)
    ensures forall x :: x in calls <==> x in old(atoms[..]) && x != 0
  {
    var unique := LockOrder(atoms);
    calls := AcquireAll(atoms, unique);
    NonNullAscending(atoms[..unique]);
  }

  // ─── poll order: the inside-out shuffle ─────────────────────────────

  predicate Covers(s: seq<nat>, n: nat) {
    forall x :: 0 <= x < n ==> x in s
  }

  /** Every case is in it, and so each exactly once. */
  predicate Permutation(s: seq<nat>) {
    Covers(s, |s|) && forall i :: 0 <= i < |s| ==> s[i] < |s|
  }

  /** What `cheaprandn` can draw: in round `i` a number up to `i`. */
  predicate Admissible(draws: seq<nat>) {
    forall i :: 0 <= i < |draws| ==> draws[i] <= i
  }

  /** One round: entry `j` moves to the new end and makes room for the new case. */
  function InsideOut(s: seq<nat>, j: nat): (t: seq<nat>)
    requires j <= |s|
    ensures |t| == |s| + 1
  {
    if j == |s| then s + [|s|] else s[j := |s|] + [s[j]]
  }

  function Shuffled(draws: seq<nat>): (order: seq<nat>)
    requires Admissible(draws)
    ensures |order| == |draws|
  {
    if draws == [] then [] else InsideOut(Shuffled(draws[..|draws| - 1]), draws[|draws| - 1])
  }

  lemma {:induction false} ShuffledIsPermutation(draws: seq<nat>)
    requires Admissible(draws)
    ensures Permutation(Shuffled(draws))
  {
    if draws == [] {
    } else {
      var n := |draws| - 1;
      var j, s, t := draws[n], Shuffled(draws[..n]), Shuffled(draws);
      ShuffledIsPermutation(draws[..n]);
      assert t[j] == n;
      forall x | 0 <= x < n ensures x in t {
        assert x in s;
        var p :| 0 <= p < n && s[p] == x;
        assert t[if p == j then n else p] == x;
      }
    }
  }

  /** Different draws give different orders: the last case stands where the last draw says. */
  lemma {:induction false} DrawsDetermined(d: seq<nat>, e: seq<nat>)
    requires Admissible(d) && Admissible(e) && Shuffled(d) == Shuffled(e)
    ensures d == e
  {
    if d == [] {
    } else {
      var n := |d| - 1;
      var s, r := Shuffled(d[..n]), Shuffled(e[..n]);
      ShuffledIsPermutation(d[..n]);
      ShuffledIsPermutation(e[..n]);
      RoundUndone(s, d[n], r, e[n]);
      DrawsDetermined(d[..n], e[..n]);
      assert d == d[..n] + [d[n]] && e == e[..n] + [e[n]];
    }
  }

  lemma RoundUndone(s: seq<nat>, j: nat, r: seq<nat>, k: nat)
    requires |s| == |r| && j <= |s| && k <= |r| && InsideOut(s, j) == InsideOut(r, k)
    requires Permutation(s) && Permutation(r)
    ensures j == k && s == r
  {
    var t := InsideOut(s, j);
    assert t[j] == |s| && t[k] == |s|;
    assert j == k;
    forall i | 0 <= i < |s| ensures s[i] == r[i] {
      assert s[i] == t[if i == j then |s| else i];
    }
  }

  /** Every order of the cases is drawn, so by exactly one sequence of draws. */
  lemma {:induction false} EveryOrderIsDrawn(p: seq<nat>) returns (draws: seq<nat>)
    requires Permutation(p)
    ensures Admissible(draws) && Shuffled(draws) == p
    decreases |p|
  {
    if p == [] {
      draws := [];
    } else {
      var n := |p| - 1;
      assert n in p;
      var j :| 0 <= j < |p| && p[j] == n;
      var s := if j == n then p[..n] else p[..n][j := p[n]];
      WithoutLast(p, j, s);
      var before := EveryOrderIsDrawn(s);
      OneMoreDraw(before, j);
      draws := before + [j];
      assert InsideOut(s, j) == p;
    }
  }

  lemma OneMoreDraw(draws: seq<nat>, j: nat)
    requires Admissible(draws) && j <= |draws|
    ensures Admissible(draws + [j]) && Shuffled(draws + [j]) == InsideOut(Shuffled(draws), j)
  {
    assert (draws + [j])[..|draws|] == draws;
  }

  lemma WithoutLast(p: seq<nat>, j: nat, s: seq<nat>)
    requires Permutation(p) && j < |p| && p[j] == |p| - 1
    requires s == if j == |p| - 1 then p[..|p| - 1] else p[..|p| - 1][j := p[|p| - 1]]
    ensures Permutation(s)
  {
    var n := |p| - 1;
    OnlyOnce(p);
    forall x | 0 <= x < n ensures x in s {
      assert x in p;
      var i :| 0 <= i < |p| && p[i] == x;
      assert s[if i == n then j else i] == x;
    }
    forall i | 0 <= i < n ensures s[i] < n {
      assert s[i] == p[if i == j then n else i];
    }
  }

  lemma OnlyOnce(p: seq<nat>)
    requires Permutation(p)
    ensures forall i, j :: 0 <= i < j < |p| ==> p[i] != p[j]
  {
    forall i, j | 0 <= i < j < |p| ensures p[i] != p[j] {
      if p[i] == p[j] {
        var r := p[..j] + p[j + 1..];
        forall x | 0 <= x < |p| ensures x in r {
          assert x in p;
          var k :| 0 <= k < |p| && p[k] == x;
          assert x == r[if k < j then k else if k == j then i else k - 1];
        }
        CoverIsLong(r, |p|);
      }
    }
  }

  lemma {:induction false} CoverIsLong(s: seq<nat>, n: nat)
    requires Covers(s, n)
    ensures |s| >= n
  {
    if n == 0 {
    } else {
      assert n - 1 in s;
      var k :| 0 <= k < |s| && s[k] == n - 1;
      var r := s[..k] + s[k + 1..];
      forall x | 0 <= x < n - 1 ensures x in r {
        assert x in s;
        var i :| 0 <= i < |s| && s[i] == x;
        assert x == r[if i < k then i else i - 1];
      }
      CoverIsLong(r, n - 1);
    }
  }

  /** The shuffle of the draws, in place: a permutation of the cases, whatever `cheaprandn` draws. */
  method PollOrder(n: nat, draws: seq<nat>) returns (order: array<nat>)
    requires |draws| == n && Admissible(draws)
    ensures fresh(order) && order.Length == n
    ensures order[..] == Shuffled(draws) && Permutation(order[..])
  {
    order := new nat[n](i => 0);
    var i := 0;
    assert draws[..0] == [];
    while i < n
      invariant 0 <= i <= n
      invariant order[..i] == Shuffled(draws[..i])
    {
      var j := draws[i];
      ghost var before := order[..i];
      assert draws[..i + 1][..i] == draws[..i];
      order[i] := order[j];
      order[j] := i;
      assert order[..i + 1] == InsideOut(before, j);
      i := i + 1;
    }
    assert order[..n] == order[..] && draws[..n] == draws;
    ShuffledIsPermutation(draws);
  }

  // ─── taking several locks in ascending order cannot deadlock ────────

  /** A goroutine that goes through critical sections.  In the first of `rounds` it takes the locks
      listed there in turn, `got` of them so far, and then releases them in turn, `freed` of them so
      far. */
  datatype Taker = Taker(rounds: seq<seq<nat>>, got: nat, freed: nat)

  predicate Done(t: Taker) {
    t.rounds == []
  }

  predicate Wants(t: Taker) {
    !Done(t) && t.got < |t.rounds[0]|
  }

  predicate TakerOk(t: Taker) {
    && (forall k :: 0 <= k < |t.rounds| ==> Ascending(t.rounds[k]))
    && (if Done(t) then t.got == t.freed == 0 else t.freed <= t.got <= |t.rounds[0]|)
    && (Wants(t) ==> t.freed == 0)
  }

  function Held(t: Taker): seq<nat> {
    if !Done(t) && t.freed <= t.got <= |t.rounds[0]| then t.rounds[0][t.freed..t.got] else []
  }

  /** A lock is held from the turn that takes it up to the turn that frees it. */
  lemma HeldIff(t: Taker, l: nat)
    requires TakerOk(t)
    ensures l in Held(t) <==> !Done(t) && exists k :: t.freed <= k < t.got && t.rounds[0][k] == l
  {
    if !Done(t) {
      var held := t.rounds[0][t.freed..t.got];
      forall k | t.freed <= k < t.got ensures t.rounds[0][k] in held { assert held[k - t.freed] == t.rounds[0][k]; }
      if l in held {
        var i :| 0 <= i < |held| && held[i] == l;
        assert t.rounds[0][t.freed + i] == l;
      }
    }
  }

  /** Every taker is in order, and no lock is held by two. */
  ghost predicate TakersOk(ts: seq<Taker>) {
    && (forall i :: 0 <= i < |ts| ==> TakerOk(ts[i]))
    && (forall i, j, l :: 0 <= i < |ts| && 0 <= j < |ts| && i != j && l in Held(ts[i]) ==> l !in Held(ts[j]))
  }

  predicate Free(ts: seq<Taker>, lock: nat) {
    forall j :: 0 <= j < |ts| ==> lock !in Held(ts[j])
  }

  /** Taker `i` can go on unless the lock it wants is held. */
  predicate CanStep(ts: seq<Taker>, i: nat)
    requires i < |ts|
  {
    !Done(ts[i]) && (Wants(ts[i]) ==> Free(ts, ts[i].rounds[0][ts[i].got]))
  }

  function StepOne(t: Taker): Taker
    requires !Done(t)
  {
    if t.got < |t.rounds[0]| then t.(got := t.got + 1)
    else if t.freed < |t.rounds[0]| then t.(freed := t.freed + 1)
    else Taker(t.rounds[1..], 0, 0)
  }

  function TakerStep(ts: seq<Taker>, i: nat): (r: seq<Taker>)
    requires i < |ts| && CanStep(ts, i)
    ensures |r| == |ts|
  {
    ts[i := StepOne(ts[i])]
  }

  lemma StepOneOk(t: Taker)
    requires TakerOk(t) && !Done(t)
    ensures TakerOk(StepOne(t))
    ensures forall l :: l in Held(StepOne(t)) ==> l in Held(t) || (Wants(t) && l == t.rounds[0][t.got])
  {
    var cur := t.rounds[0];
    if t.got < |cur| {
      assert cur[t.freed..t.got + 1] == cur[t.freed..t.got] + [cur[t.got]];
    } else if t.freed < |cur| {
      assert cur[t.freed..t.got] == [cur[t.freed]] + cur[t.freed + 1..t.got];
    } else {
      assert forall k :: 0 <= k < |t.rounds[1..]| ==> t.rounds[1..][k] == t.rounds[k + 1];
    }
  }

  lemma TakerStepOk(ts: seq<Taker>, i: nat)
    requires TakersOk(ts) && i < |ts| && CanStep(ts, i)
    ensures TakersOk(TakerStep(ts, i))
  {
    StepOneOk(ts[i]);
  }

  // ─── progress ───────────────────────────────────────────────────────

  /** Of two blocked takers, the one that holds what the other wants waits for a higher
      lock: following the holders ends at one that is not blocked. */
  lemma {:induction false} FollowHolder(ts: seq<Taker>, i: nat, bound: nat) returns (k: nat)
    requires i < |ts| && !Done(ts[i]) && forall j :: 0 <= j < |ts| ==> TakerOk(ts[j])
    requires forall j :: 0 <= j < |ts| && Wants(ts[j]) ==> ts[j].rounds[0][ts[j].got] < bound
    ensures k < |ts| && CanStep(ts, k)
    decreases if Wants(ts[i]) then bound - ts[i].rounds[0][ts[i].got] else 0
  {
    if CanStep(ts, i) {
      k := i;
    } else {
      var l := ts[i].rounds[0][ts[i].got];
      var j :| 0 <= j < |ts| && l in Held(ts[j]);
      HolderWantsHigher(ts[j], l);
      k := FollowHolder(ts, j, bound);
    }
  }

  lemma HolderWantsHigher(t: Taker, l: nat)
    requires TakerOk(t) && l in Held(t)
    ensures !Done(t) && (Wants(t) ==> t.rounds[0][t.got] > l)
  {
    assert Ascending(t.rounds[0]);
    var p :| 0 <= p < |Held(t)| && Held(t)[p] == l;
    assert t.rounds[0][t.freed + p] == l;
  }

  function Bound(ts: seq<Taker>): (b: nat)
    ensures forall j :: 0 <= j < |ts| && Wants(ts[j]) ==> ts[j].rounds[0][ts[j].got] < b
  {
    if ts == [] then 0
    else
      var r := Bound(ts[1..]);
      assert forall j :: 1 <= j < |ts| ==> ts[j] == ts[1..][j - 1];
      if Wants(ts[0]) && ts[0].rounds[0][ts[0].got] >= r then ts[0].rounds[0][ts[0].got] + 1 else r
  }

  /** The steps a taker still has to make: two for every lock, one to end each round. */
  function WorkOf(rounds: seq<seq<nat>>): nat {
    if rounds == [] then 0 else 2 * |rounds[0]| + 1 + WorkOf(rounds[1..])
  }

  function Work(t: Taker): int {
    WorkOf(t.rounds) - t.got - t.freed
  }

  function TotalWork(ts: seq<Taker>): int {
    if ts == [] then 0 else Work(ts[0]) + TotalWork(ts[1..])
  }

  lemma {:induction false} TotalWorkUpdate(ts: seq<Taker>, i: nat, t: Taker)
    requires i < |ts|
    ensures TotalWork(ts[i := t]) == TotalWork(ts) - Work(ts[i]) + Work(t)
  {
    if i == 0 {
      assert ts[0 := t][1..] == ts[1..];
    } else {
      TotalWorkUpdate(ts[1..], i - 1, t);
      assert ts[i := t][1..] == ts[1..][i - 1 := t];
    }
  }

  lemma StepOneWork(t: Taker)
    requires TakerOk(t) && !Done(t)
    ensures Work(StepOne(t)) == Work(t) - 1
  {
  }

  lemma {:induction false} TotalWorkNonNegative(ts: seq<Taker>)
    requires forall i :: 0 <= i < |ts| ==> TakerOk(ts[i])
    ensures TotalWork(ts) >= 0
    ensures TotalWork(ts) == 0 <==> forall i :: 0 <= i < |ts| ==> Done(ts[i])
  {
    if ts == [] {
    } else {
      assert Work(ts[0]) >= 0 && (Work(ts[0]) == 0 <==> Done(ts[0]));
      TotalWorkNonNegative(ts[1..]);
      assert forall i :: 1 <= i < |ts| ==> ts[i] == ts[1..][i - 1];
    }
  }

  // ─── every run ──────────────────────────────────────────────────────

  /** Nobody has taken a lock yet; every critical section will take its locks in ascending order, as
      LockChannels does. */
  predicate Start(ts: seq<Taker>) {
    forall i :: 0 <= i < |ts| ==>
      ts[i].got == ts[i].freed == 0 && forall k :: 0 <= k < |ts[i].rounds| ==> Ascending(ts[i].rounds[k])
  }

  /** `picks` is a schedule: which taker goes on, step by step. */
  predicate CanTake(ts: seq<Taker>, picks: seq<nat>)
    decreases |picks|
  {
    picks == [] || (picks[0] < |ts| && CanStep(ts, picks[0]) && CanTake(TakerStep(ts, picks[0]), picks[1..]))
  }

  function TakeRun(ts: seq<Taker>, picks: seq<nat>): (r: seq<Taker>)
    requires CanTake(ts, picks)
    ensures |r| == |ts|
    decreases |picks|
  {
    if picks == [] then ts else TakeRun(TakerStep(ts, picks[0]), picks[1..])
  }

  lemma {:induction false} TakeRunOk(ts: seq<Taker>, picks: seq<nat>)
    requires TakersOk(ts) && CanTake(ts, picks)
    ensures TakersOk(TakeRun(ts, picks)) && TotalWork(TakeRun(ts, picks)) + |picks| == TotalWork(ts)
    decreases |picks|
  {
    if picks == [] {
    } else {
      var i := picks[0];
      TakerStepOk(ts, i);
      StepOneWork(ts[i]);
      TotalWorkUpdate(ts, i, StepOne(ts[i]));
      TakeRunOk(TakerStep(ts, i), picks[1..]);
    }
  }

  /** For every number of goroutines, every list of critical sections and every schedule: no lock is
      ever held by two, somebody can go on until everybody is done, and the schedule is as long as
      the work, so no run is endless and every run that cannot go on has finished. */
  lemma NoLockDeadlock(ts: seq<Taker>, picks: seq<nat>)
    requires Start(ts) && CanTake(ts, picks)
    ensures var r := TakeRun(ts, picks);
      && TakersOk(r)
      && |picks| <= TotalWork(ts)
      && ((exists k :: 0 <= k < |r| && CanStep(r, k)) <==> |picks| < TotalWork(ts))
      && (|picks| == TotalWork(ts) <==> forall i :: 0 <= i < |r| ==> Done(r[i]))
  {
    var r := TakeRun(ts, picks);
    TakeRunOk(ts, picks);
    TotalWorkNonNegative(r);
    if i :| 0 <= i < |r| && !Done(r[i]) {
      var k := FollowHolder(r, i, Bound(r));
    }
  }
}
