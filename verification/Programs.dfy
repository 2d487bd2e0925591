/** The concrete programs: examples/chan_micro_select_only.rs, chan_micro_select_send_only.rs,
    chan_micro_select_recv_only.rs, chan_micro_no_select.rs and chan_select_stress.rs, with
    the number of channels, their capacities and `N` as parameters. */
module Programs {
  import opened Bytes
  import opened Channels
  import opened Workload

  /** Which groups of goroutines have work: one selecting sender, one selecting receiver,
      one plain sender per channel, one plain receiver per channel. */
  datatype Mix = Mix(selSend: bool, selRecv: bool, plainSend: bool, plainRecv: bool)

  const SELECT_ONLY := Mix(true, true, false, false)
  const SELECT_SEND_ONLY := Mix(true, false, false, true)
  const SELECT_RECV_ONLY := Mix(false, true, true, false)
  const NO_SELECT := Mix(false, false, true, true)
  const SELECT_STRESS := Mix(true, true, true, true)

  function Bit(b: bool): nat {
    if b then 1 else 0
  }

  predicate Balanced(m: Mix) {
    Bit(m.selSend) + Bit(m.plainSend) == Bit(m.selRecv) + Bit(m.plainRecv)
  }

  // ─── goroutines 0 and 1 select, then k plain senders, then k plain receivers ──

  function WorkerAt(k: nat, g: nat): Worker
    requires g < 2 + 2 * k
  {
    if g < 2 then Worker(g == 0, true, 0)
    else if g < 2 + k then Worker(true, false, g - 2)
    else Worker(false, false, g - 2 - k)
  }

  /** What goroutine `g` has to do on channel `c`; a group without work has quota 0. */
  function QuotaAt(m: Mix, k: nat, n: nat, g: nat, c: nat): nat
    requires g < 2 + 2 * k
  {
    if g == 0 then Bit(m.selSend) * n
    else if g == 1 then Bit(m.selRecv) * n
    else if g < 2 + k then (if c == g - 2 then Bit(m.plainSend) * n else 0)
    else (if c == g - 2 - k then Bit(m.plainRecv) * n else 0)
  }

  /** Who has work: the selecting goroutines of the mix on every channel, and the plain ones each on
      its own. */
  lemma WorkIsMixed(m: Mix, k: nat, n: nat, g: nat, c: nat)
    requires g < 2 + 2 * k && c < k
    ensures var w := WorkerAt(k, g);
      QuotaAt(m, k, n, g, c) == if (if w.sel then (if w.sends then m.selSend else m.selRecv)
                                    else w.home == c && (if w.sends then m.plainSend else m.plainRecv)) then n else 0
  {
  }

  function Workers(k: nat): (ws: seq<Worker>)
    ensures |ws| == 2 + 2 * k && forall g :: 0 <= g < |ws| ==> ws[g] == WorkerAt(k, g)
  {
    seq(2 + 2 * k, g requires 0 <= g < 2 + 2 * k => WorkerAt(k, g))
  }

  function QuotaRow(m: Mix, k: nat, n: nat, g: nat): (r: seq<nat>)
    requires g < 2 + 2 * k
    ensures |r| == k && forall c :: 0 <= c < k ==> r[c] == QuotaAt(m, k, n, g, c)
  {
    seq(k, c requires 0 <= c < k => QuotaAt(m, k, n, g, c))
  }

  function Quotas(m: Mix, k: nat, n: nat): (rem: seq<seq<nat>>)
    ensures |rem| == 2 + 2 * k && forall g :: 0 <= g < |rem| ==> rem[g] == QuotaRow(m, k, n, g)
  {
    seq(2 + 2 * k, g requires 0 <= g < 2 + 2 * k => QuotaRow(m, k, n, g))
  }

  function Program(m: Mix, caps: seq<nat>, n: nat): Prog {
    var k := |caps|;
    var chans := seq(k, c requires 0 <= c < k => Hchan(caps[c], false, [], [], [], None));
    var gs := seq(2 + 2 * k, g requires 0 <= g < 2 + 2 * k => Ready(Nothing));
    Prog(State(chans, gs, false, false), Quotas(m, k, n), 0, 0)
  }

  // ─── sums ───────────────────────────────────────────────────────────

  lemma {:induction false} SumRange(xs: seq<int>, lo: nat, hi: nat, v: int)
    requires lo <= hi <= |xs|
    requires forall i :: 0 <= i < |xs| ==> xs[i] == if lo <= i < hi then v else 0
    ensures Sum(xs) == (hi - lo) * v
    decreases hi - lo
  {
    if lo == hi {
      SumZero(xs);
    } else {
      SumRange(xs[lo := 0], lo + 1, hi, v);
      SumUpdate(xs, lo, 0);
    }
  }

  lemma ChannelBalance(m: Mix, caps: seq<nat>, n: nat, c: nat)
    requires c < |caps|
    ensures Sum(Terms(Workers(|caps|), Program(m, caps, n), c)) ==
      Bit(m.selSend) * n - Bit(m.selRecv) * n + Bit(m.plainSend) * n - Bit(m.plainRecv) * n
  {
    var k := |caps|;
    var t := Terms(Workers(k), Program(m, caps, n), c);
    SelectorTerms(m, caps, n, c);
    PlainTerms(m, caps, n, c);
    forall g | 0 <= g < |t| && g != 0 && g != 1 && g != 2 + c && g != 2 + k + c ensures t[g] == 0 {
      OtherTerm(m, caps, n, c, g);
    }
    SumOfFour(t, 0, 1, 2 + c, 2 + k + c);
  }

  lemma SumOfFour(t: seq<int>, a: nat, b: nat, c: nat, d: nat)
    requires a < b < c < d < |t|
    requires forall i :: 0 <= i < |t| && i != a && i != b && i != c && i != d ==> t[i] == 0
    ensures Sum(t) == t[a] + t[b] + t[c] + t[d]
  {
    var t1 := t[a := 0];
    var t2 := t1[b := 0];
    var t3 := t2[c := 0];
    SumUpdate(t, a, 0);
    SumUpdate(t1, b, 0);
    SumUpdate(t2, c, 0);
    SumUpdate(t3, d, 0);
    SumZero(t3[d := 0]);
  }

  lemma SelectorTerms(m: Mix, caps: seq<nat>, n: nat, c: nat)
    requires c < |caps|
    ensures var t := Terms(Workers(|caps|), Program(m, caps, n), c);
      t[0] == Bit(m.selSend) * n && t[1] == -(Bit(m.selRecv) * n)
  {
  }

  lemma PlainTerms(m: Mix, caps: seq<nat>, n: nat, c: nat)
    requires c < |caps|
    ensures var t := Terms(Workers(|caps|), Program(m, caps, n), c);
      t[2 + c] == Bit(m.plainSend) * n && t[2 + |caps| + c] == -(Bit(m.plainRecv) * n)
  {
  }

  /** Only the select pair and the plain pair of `c` have work on `c`. */
  lemma OtherTerm(m: Mix, caps: seq<nat>, n: nat, c: nat, g: nat)
    requires c < |caps| && 2 <= g < 2 + 2 * |caps| && g != 2 + c && g != 2 + |caps| + c
    ensures Terms(Workers(|caps|), Program(m, caps, n), c)[g] == 0
  {
    assert Program(m, caps, n).rem[g][c] == QuotaAt(m, |caps|, n, g, c) == 0;
  }

  lemma ProgramStarts(m: Mix, caps: seq<nat>, n: nat)
    requires Balanced(m)
    ensures Start(Workers(|caps|), Program(m, caps, n))
  {
    forall c | 0 <= c < |caps| ensures Sum(Terms(Workers(|caps|), Program(m, caps, n), c)) == 0 {
      ChannelBalance(m, caps, n, c);
      Distribute(Bit(m.selSend), Bit(m.plainSend), n);
      Distribute(Bit(m.selRecv), Bit(m.plainRecv), n);
    }
  }

  lemma Distribute(a: nat, b: nat, n: nat)
    ensures (a + b) * n == a * n + b * n
  {
  }

  lemma RowTotal(m: Mix, k: nat, n: nat, g: nat)
    requires g < 2 + 2 * k
    ensures Total(QuotaRow(m, k, n, g)) ==
      if g == 0 then k * (Bit(m.selSend) * n) else if g == 1 then k * (Bit(m.selRecv) * n)
      else if g < 2 + k then Bit(m.plainSend) * n else Bit(m.plainRecv) * n
  {
    var r := QuotaRow(m, k, n, g);
    if g < 2 {
      SumRange(r, 0, k, QuotaAt(m, k, n, g, 0));
    } else if g < 2 + k {
      SumRange(r, g - 2, g - 1, Bit(m.plainSend) * n);
    } else {
      SumRange(r, g - 2 - k, g - 1 - k, Bit(m.plainRecv) * n);
    }
  }

  /** Operations of one side, over all its goroutines. */
  function SideCount(m: Mix, k: nat, n: nat, sends: bool): nat {
    if sends then k * (Bit(m.selSend) * n) + k * (Bit(m.plainSend) * n)
    else k * (Bit(m.selRecv) * n) + k * (Bit(m.plainRecv) * n)
  }

  lemma ProgramTotals(m: Mix, k: nat, n: nat, sends: bool)
    ensures Sum(SideTotals(Workers(k), Quotas(m, k, n), sends)) == SideCount(m, k, n, sends)
  {
    var t := SideTotals(Workers(k), Quotas(m, k, n), sends);
    forall g | 0 <= g < 2 + 2 * k
      ensures Quotas(m, k, n)[g] == QuotaRow(m, k, n, g) && Workers(k)[g] == WorkerAt(k, g)
    {
    }
    forall g | 0 <= g < 2 + 2 * k
      ensures Total(Quotas(m, k, n)[g]) == Total(QuotaRow(m, k, n, g))
    {
      RowTotal(m, k, n, g);
    }
    RowTotal(m, k, n, 0);
    RowTotal(m, k, n, 1);
    var i := if sends then 0 else 1;
    var t' := t[i := 0];
    SumUpdate(t, i, 0);
    if sends {
      forall g | 0 <= g < |t'|
        ensures t'[g] == if 2 <= g < 2 + k then Bit(m.plainSend) * n else 0
      {
        RowTotal(m, k, n, g);
      }
      SumRange(t', 2, 2 + k, Bit(m.plainSend) * n);
    } else {
      forall g | 0 <= g < |t'|
        ensures t'[g] == if 2 + k <= g < 2 + 2 * k then Bit(m.plainRecv) * n else 0
      {
        RowTotal(m, k, n, g);
      }
      SumRange(t', 2 + k, 2 + 2 * k, Bit(m.plainRecv) * n);
    }
  }

  /** For every number of channels, all capacities, every N and every schedule: the program
      cannot deadlock, cannot run for ever, and when it is over every goroutine is
      done, all buffers are empty and both totals are what the program checks for. */
  lemma ProgramCompletes(m: Mix, caps: seq<nat>, n: nat, acts: seq<Action>)
    requires Balanced(m) && CanRunAll(Workers(|caps|), Program(m, caps, n), acts)
    ensures var ws := Workers(|caps|); var p := Program(m, caps, n); var r := RunAll(ws, p, acts);
      && |p.s.gs| == |p.rem| && |acts| <= Measure(p)
      && !r.s.fatal && !r.s.panicked
      && (!Finished(r) ==> exists a :: Can(ws, r, a))
      && (Finished(r) ==>
            && r.sent == SideCount(m, |caps|, n, true)
            && r.received == SideCount(m, |caps|, n, false)
            && forall c :: 0 <= c < |r.s.chans| ==> r.s.chans[c].buf == [])
  {
    ProgramStarts(m, caps, n);
    ProgramTotals(m, |caps|, n, true);
    ProgramTotals(m, |caps|, n, false);
    EveryRunCompletes(Workers(|caps|), Program(m, caps, n), acts);
  }

  /** The totals the five programs check at the end: 4N, 3N, 3N, 4N and 8N, that is k*N or
      2*k*N. */
  lemma CheckedTotals(k: nat, n: nat, sends: bool)
    ensures forall m :: m in {SELECT_ONLY, SELECT_SEND_ONLY, SELECT_RECV_ONLY, NO_SELECT} ==>
      Balanced(m) && SideCount(m, k, n, sends) == k * n
    ensures Balanced(SELECT_STRESS) && SideCount(SELECT_STRESS, k, n, sends) == 2 * (k * n)
  {
  }
}
