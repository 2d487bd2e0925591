/** The sequence-numbered ring of src/runtime/lockfree_ring.rs, as channels use it: under
    the channel lock, so one call at a time.  Indices are 64-bit words that wrap. */
module LockFreeRing {

  import opened Bytes
  import opened Arithmetic

  /** `usize` wraps at 2^64; `isize` is negative from 2^63 up. */
  const WRAP: nat := 0x1_0000_0000_0000_0000
  const HALF: nat := 0x8000_0000_0000_0000

  /** An index as the 64-bit word that holds it. */
  function Wrap(x: nat): (w: nat)
    ensures w < WRAP
  {
    Slot(x, WRAP)
  }

  lemma WrapIsRemainder(x: nat)
    ensures Wrap(x) == x % WRAP
  {
    SlotIsRemainder(x, WRAP);
  }

  /** `wrapping_add` on the word of an unwrapped index. */
  lemma WrapAdd(x: nat, k: nat)
    ensures Wrap(Wrap(x) + k) == Wrap(x + k)
  {
    WrapIsRemainder(x);
    WrapIsRemainder(x + k);
    WrapIsRemainder(Wrap(x) + k);
  }

  /** `a.wrapping_sub(b) as isize` */
  function Diff(a: nat, b: nat): int {
    var d := (a - b) % WRAP;
    if d < HALF then d else d - WRAP
  }

  lemma WrapDiff(a: nat, b: nat)
    requires 0 - HALF <= a - b < HALF
    ensures Diff(Wrap(a), Wrap(b)) == a - b
  {
    WrapIsRemainder(a);
    WrapIsRemainder(b);
    assert (a % WRAP - b % WRAP) % WRAP == (a - b) % WRAP;
  }

  // ─── slots ──────────────────────────────────────────────────────────

  /** A power of two that a 64-bit word can hold with a bit to spare. */
  ghost predicate GoodCapacity(cap: nat) {
    0 < cap <= HALF && exists k: nat :: k <= 63 && cap == Pow2(k)
  }

  /** The slot of a ticket: `ticket & cap_mask`, which for a power of two is the remainder. */
  function Slot(t: nat, cap: nat): (k: nat)
    requires cap > 0
    ensures k < cap
  {
    if t < cap then t else Slot(t - cap, cap)
  }

  lemma {:induction false} SlotIsRemainder(t: nat, cap: nat)
    requires cap > 0
    ensures Slot(t, cap) == t % cap
  {
    if t < cap {
      DivModUnique(t, cap, 0, t);
    } else {
      SlotIsRemainder(t - cap, cap);
      ModAddMultiple(t - cap, 1, cap);
    }
  }

  lemma CapacityDivides(cap: nat)
    requires GoodCapacity(cap)
    ensures WRAP % cap == 0
  {
    var k: nat :| k <= 63 && cap == Pow2(k);
    Pow2Words();
    Pow2Add(k, 64 - k);
    DivModUnique(WRAP, cap, Pow2(64 - k), 0);
  }

  /** A slot can be found from the wrapped index, because the capacity divides 2^64. */
  lemma SlotOfWrapped(x: nat, cap: nat)
    requires GoodCapacity(cap)
    ensures Slot(Wrap(x), cap) == Slot(x, cap)
  {
    WrapIsRemainder(x);
    CapacityDivides(cap);
    var q := WRAP / cap;
    var k := x / WRAP;
    assert x == x % WRAP + cap * (q * k) by {
      assert WRAP == cap * q + WRAP % cap;
      assert cap * (q * k) == (cap * q) * k;
    }
    ModAddMultiple(x % WRAP, q * k, cap);
    SlotIsRemainder(x % WRAP, cap);
    SlotIsRemainder(x, cap);
  }

  /** Tickets less than a lap apart use different slots. */
  lemma {:induction false} DistinctSlots(a: nat, b: nat, cap: nat)
    requires a < b < a + cap
    ensures Slot(a, cap) != Slot(b, cap)
  {
    if a < cap {
    } else {
      DistinctSlots(a - cap, b - cap, cap);
    }
  }

  /** `cap.max(1).next_power_of_two()` */
  method RoundUp(n: nat) returns (cap: nat)
    requires n <= HALF
    ensures GoodCapacity(cap) && n <= cap
    ensures if n <= 1 then cap == 1 else cap < 2 * n
    ensures exists k: nat :: cap == Pow2(k)
  {
    cap := 1;
    ghost var k: nat := 0;
    while cap < n
      invariant k <= 63 && cap == Pow2(k)
      invariant if n <= 1 then cap == 1 else cap < 2 * n
      decreases n - cap
    {
      Pow2Words();
      if k < 63 { Pow2Monotone(k, 63); }
      cap, k := cap * 2, k + 1;
    }
    Pow2Words();
    if k < 63 { Pow2Monotone(k, 63); }
  }

  // ─── what one look at a slot tells a producer or a consumer ─────────

  datatype Verdict = Claim | Refuse | Retry

  function Judge(diff: int): Verdict {
    if diff == 0 then Claim else if diff < 0 then Refuse else Retry
  }

  /** The branch `try_send` takes, from the slot's sequence number and `tail`. */
  function SendVerdict(slot: nat, tail: nat): Verdict {
    Judge(Diff(slot, tail))
  }

  /** The branch `try_recv` takes, from the slot's sequence number and `head`. */
  function RecvVerdict(slot: nat, head: nat): Verdict {
    Judge(Diff(slot, Wrap(head + 1)))
  }

  /** The sequence number of ticket t's slot when tickets [hd, tl) hold values. */
  function Stamp(t: nat, tl: nat): nat {
    if t < tl then Wrap(t + 1) else Wrap(t)
  }

  /** What a producer sees.  `tl` is its ticket; on a full ring its slot still carries the stamp
      of ticket `hd = tl - cap`.  A producer refuses a full ring exactly when the ring has at
      least two slots: with one slot "full" and "ready" have the same stamp. */
  lemma SendVerdicts(hd: nat, tl: nat, cap: nat)
    requires GoodCapacity(cap) && hd <= tl <= hd + cap
    ensures tl < hd + cap ==> SendVerdict(Stamp(tl, tl), Wrap(tl)) == Claim
    ensures tl == hd + cap ==> SendVerdict(Stamp(hd, tl), Wrap(tl)) == (if cap >= 2 then Refuse else Claim)
  {
    if tl < hd + cap {
      WrapDiff(tl, tl);
    } else {
      WrapDiff(hd + 1, tl);
    }
  }

  /** What a consumer sees: a value exactly when there is one. */
  lemma RecvVerdicts(hd: nat, tl: nat)
    requires hd <= tl
    ensures RecvVerdict(Stamp(hd, tl), Wrap(hd)) == if hd < tl then Claim else Refuse
  {
    WrapAdd(hd, 1);
    if hd < tl { WrapDiff(hd + 1, hd + 1); } else { WrapDiff(hd, hd + 1); }
  }

  /** The one-slot ring after a send that should have been refused: the old value is overwritten,
      and a consumer is told to retry, now and every time it looks again. */
  lemma OneSlotOverrun(hd: nat)
    ensures SendVerdict(Stamp(hd, hd + 1), Wrap(hd + 1)) == Claim
    ensures RecvVerdict(Wrap(hd + 2), Wrap(hd)) == Retry
  {
    WrapDiff(hd + 1, hd + 1);
    WrapDiff(hd + 2, hd + 1);
    WrapAdd(hd, 1);
  }

  // ─── the slots as a whole ───────────────────────────────────────────

  /** Every slot carries the stamp of the ticket of this lap that maps to it. */
  ghost predicate Stamped(seqs: seq<nat>, hd: nat, tl: nat) {
    |seqs| > 0 && forall t {:trigger Stamp(t, tl)} :: hd <= t < hd + |seqs| ==> seqs[Slot(t, |seqs|)] == Stamp(t, tl)
  }

  /** The values of tickets [hd, tl), oldest first. */
  ghost function Window<T>(vals: seq<T>, hd: nat, tl: nat): (s: seq<T>)
    requires |vals| > 0 && hd <= tl
  {
    seq(tl - hd, i requires 0 <= i => vals[Slot(hd + i, |vals|)])
  }

  /** Filling ticket `tl` leaves the other slots' stamps right and appends the value. */
  lemma FillSlot<T>(seqs: seq<nat>, vals: seq<T>, hd: nat, tl: nat, v: T)
    requires Stamped(seqs, hd, tl) && |vals| == |seqs| && hd <= tl < hd + |seqs|
    ensures Stamped(seqs[Slot(tl, |seqs|) := Wrap(tl + 1)], hd, tl + 1)
    ensures Window(vals[Slot(tl, |seqs|) := v], hd, tl + 1) == Window(vals, hd, tl) + [v]
  {
    var n := |seqs|;
    forall t {:trigger Stamp(t, tl + 1)} | hd <= t < hd + n && t != tl
      ensures Slot(t, n) != Slot(tl, n) && Stamp(t, tl + 1) == Stamp(t, tl)
    {
      if t < tl { DistinctSlots(t, tl, n); } else { DistinctSlots(tl, t, n); }
    }
    forall t | hd <= t < tl
      ensures Slot(t, n) != Slot(tl, n)
    {
      DistinctSlots(t, tl, n);
    }
  }

  /** Emptying ticket `hd` stamps its slot for the ticket one lap later. */
  lemma EmptySlot<T>(seqs: seq<nat>, vals: seq<T>, hd: nat, tl: nat)
    requires Stamped(seqs, hd, tl) && |vals| == |seqs| && hd < tl <= hd + |seqs|
    ensures Stamped(seqs[Slot(hd, |seqs|) := Wrap(hd + |seqs|)], hd + 1, tl)
    ensures Window(vals, hd, tl) == [vals[Slot(hd, |seqs|)]] + Window(vals, hd + 1, tl)
  {
    var n := |seqs|;
    assert Slot(hd + n, n) == Slot(hd, n);
    forall t {:trigger Stamp(t, tl)} | hd + 1 <= t < hd + n
      ensures Slot(t, n) != Slot(hd, n)
    {
      DistinctSlots(hd, t, n);
    }
  }

  // ─── the ring ───────────────────────────────────────────────────────

  class Ring<T(0)> {
    var head: nat
    var tail: nat
    const seqs: array<nat>
    const vals: array<T>
    /** The tickets that `head` and `tail` wrap. */
    ghost var hd: nat
    ghost var tl: nat

    ghost predicate Valid()
      reads this, seqs, vals
    {
      && GoodCapacity(seqs.Length) && vals.Length == seqs.Length && seqs as object != vals
      && hd <= tl <= hd + seqs.Length
      && head == Wrap(hd) && tail == Wrap(tl)
      && Stamped(seqs[..], hd, tl)
    }

    /** The queued values, oldest first. */
    ghost function Contents(): (s: seq<T>)
      requires Valid()
      reads this, seqs, vals
    {
      Window(vals[..], hd, tl)
    }

    constructor (cap: nat)
      requires cap <= HALF
      ensures Valid() && Contents() == []
      ensures cap <= seqs.Length && (if cap <= 1 then seqs.Length == 1 else seqs.Length < 2 * cap)
      ensures fresh(seqs) && fresh(vals)
    {
      var n := RoundUp(cap);
      seqs := new nat[n](i => i);
      vals := new T[n];
      head, tail, hd, tl := 0, 0, 0, 0;
    }

    /** `len`: the distance between the wrapped indices is the number of queued values. */
    method Len() returns (n: nat)
      requires Valid()
      ensures n == |Contents()|
    {
      n := (tail - head) % WRAP;
      WrapIsRemainder(hd);
      WrapIsRemainder(tl);
    }

    /** A one-slot ring after a send that should have been refused (see OneSlotOverrun). */
    ghost predicate Overrun()
      reads this, seqs
    {
      seqs.Length == 1 && tl == hd + 2 && head == Wrap(hd) && tail == Wrap(tl) && seqs[0] == Wrap(tl)
    }

    /** `try_send`.  `spurious` bounds how often the weak compare-exchange fails for no reason.  A full
        ring refuses exactly if it has at least two slots; a full ring of one slot takes the value
        over the one it holds. */
    method TrySend(v: T, spurious: nat) returns (ok: bool)
      requires Valid()
      modifies this, seqs, vals
      ensures ok == (|old(Contents())| < seqs.Length || seqs.Length == 1)
      ensures !ok ==> Valid() && Contents() == old(Contents())
      ensures |old(Contents())| < seqs.Length ==> Valid() && Contents() == old(Contents()) + [v]
      ensures |old(Contents())| == seqs.Length == 1 ==> Overrun() && vals.Length == 1 && vals[0] == v
    {
      var fails := spurious;
      var t := tail;
      while true
        invariant t == tail && unchanged(this) && unchanged(seqs) && unchanged(vals)
        decreases fails
      {
        var k := Slot(t, seqs.Length);
        ProducerLooks();
        var verdict := SendVerdict(seqs[k], t);
        if verdict == Claim && fails == 0 {
          Publish(k, v);
          return true;
        } else if verdict == Claim {
          fails, t := fails - 1, tail;
        } else if verdict == Refuse {
          return false;
        } else {
          assert false;
        }
      }
    }

    /** The won compare-exchange: advance `tail`, write the value, publish the slot. */
    method Publish(k: nat, v: T)
      requires Valid() && k == Slot(tl, seqs.Length) && (|Contents()| < seqs.Length || seqs.Length == 1)
      modifies this, seqs, vals
      ensures |old(Contents())| < seqs.Length ==> Valid() && Contents() == old(Contents()) + [v]
      ensures |old(Contents())| == seqs.Length ==> Overrun() && vals.Length == 1 && vals[0] == v
    {
      if |Contents()| < seqs.Length { FillSlot(seqs[..], vals[..], hd, tl, v); }
      WrapAdd(tl, 1);
      ghost var s: seq<nat> := seqs[..];
      ghost var w := vals[..];
      tail := Wrap(tail + 1);
      vals[k] := v;
      seqs[k] := tail;
      tl := tl + 1;
      assert seqs[..] == s[k := tail];
      assert vals[..] == w[k := v];
    }

    lemma ProducerLooks()
      requires Valid()
      ensures Slot(tail, seqs.Length) == Slot(tl, seqs.Length)
      ensures var verdict := SendVerdict(seqs[Slot(tail, seqs.Length)], tail);
        if |Contents()| < seqs.Length || seqs.Length == 1 then verdict == Claim else verdict == Refuse
    {
      SlotOfWrapped(tl, seqs.Length);
      SendVerdicts(hd, tl, seqs.Length);
      if tl == hd + seqs.Length {
        assert Slot(tl, seqs.Length) == Slot(hd, seqs.Length);
        assert seqs[..][Slot(hd, seqs.Length)] == Stamp(hd, tl);
      } else {
        assert seqs[..][Slot(tl, seqs.Length)] == Stamp(tl, tl);
      }
    }

    /** `try_recv` */
    method TryRecv(spurious: nat) returns (r: Option<T>)
      requires Valid()
      modifies this, seqs
      ensures Valid()
      ensures r.None? <==> old(Contents()) == []
      ensures r.None? ==> Contents() == old(Contents())
      ensures r.Some? ==> old(Contents()) == [r.value] + Contents()
    {
      var fails := spurious;
      var h := head;
      while true
        invariant h == head && unchanged(this) && unchanged(seqs)
        decreases fails
      {
        var k := Slot(h, seqs.Length);
        ConsumerLooks();
        var verdict := RecvVerdict(seqs[k], h);
        if verdict == Claim && fails == 0 {
          var v := Take(k);
          return Some(v);
        } else if verdict == Claim {
          fails, h := fails - 1, head;
        } else if verdict == Refuse {
          return None;
        } else {
          assert false;
        }
      }
    }

    /** The won compare-exchange: advance `head`, read the value, recycle the slot. */
    method Take(k: nat) returns (v: T)
      requires Valid() && |Contents()| > 0 && k == Slot(hd, seqs.Length)
      modifies this, seqs
      ensures Valid() && old(Contents()) == [v] + Contents()
    {
      v := vals[k];
      EmptySlot(seqs[..], vals[..], hd, tl);
      WrapAdd(hd, 1);
      WrapAdd(hd, seqs.Length);
      ghost var s: seq<nat> := seqs[..];
      seqs[k] := Wrap(head + seqs.Length);
      head := Wrap(head + 1);
      hd := hd + 1;
      assert seqs[..] == s[k := seqs[k]];
    }

    lemma ConsumerLooks()
      requires Valid()
      ensures Slot(head, seqs.Length) == Slot(hd, seqs.Length)
      ensures RecvVerdict(seqs[Slot(head, seqs.Length)], head) == if |Contents()| > 0 then Claim else Refuse
    {
      SlotOfWrapped(hd, seqs.Length);
      RecvVerdicts(hd, tl);
      assert seqs[..][Slot(hd, seqs.Length)] == Stamp(hd, tl);
    }
  }
}
