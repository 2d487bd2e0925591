/** What `Decode` of src/encoding/ascii85/ascii85.rs makes of every text, accepted or not, with and
    without flush: the groups it reads, how much it consumes, and how a caller goes on with the rest. */
module Ascii85Text {

  import opened Arithmetic
  import opened Bytes
  import opened Ascii85

  // ─── the meaning of a text ──────────────────────────────────────────

  /** Digits in base 85, the first one counting most. */
  function Value85(d: seq<Byte>): int {
    if d == [] then 0 else Value85(d[..|d| - 1]) * 85 + (d[|d| - 1] - BANG)
  }

  /** Five digits are a 32-bit word; what is above is lost. */
  function GroupBytes(d: seq<Byte>): seq<Byte> {
    TopBytes(Value85(d) % WORD, 4)
  }

  /** The bytes of the groups that are complete in a text without white space. */
  function Whole(t: seq<Byte>): seq<Byte> {
    if t == [] then []
    else if t[0] == ZERO_GROUP then [0, 0, 0, 0] + Whole(t[1..])
    else if |t| < 5 then []
    else GroupBytes(t[..5]) + Whole(t[5..])
  }

  /** The digits of the group that is still open at its end. */
  function Open(t: seq<Byte>): (d: seq<Byte>)
    ensures |d| <= 4
  {
    if t == [] then []
    else if t[0] == ZERO_GROUP then Open(t[1..])
    else if |t| < 5 then t
    else Open(t[5..])
  }

  /** An open group is filled up with the largest digit and gives one byte less than it has digits. */
  function Tail(d: seq<Byte>): seq<Byte>
    requires 2 <= |d| <= 4
  {
    GroupBytes(d + seq(5 - |d|, i => LAST))[..|d| - 1]
  }

  /** The bytes of a word are its base-256 digits, the first one counting most. */
  lemma TopIsBigEndian(w: nat, n: nat)
    requires w < WORD && 1 <= n <= 4
    ensures Word(TopBytes(w, 4)) == w && TopBytes(w, n) == TopBytes(w, 4)[..n]
  {
    var q1 := w / 256;
    assert w == q1 * 256 + w % 256;
    assert q1 == q1 / 256 * 256 + q1 % 256;
  }

  lemma ValueSnoc(d: seq<Byte>, c: Byte)
    ensures Value85(d + [c]) == Value85(d) * 85 + (c - BANG)
  {
    assert (d + [c])[..|d|] == d;
  }

  /** What one character more does to a text. */
  predicate Extends(t: seq<Byte>, c: Byte, u: seq<Byte>) {
    if Open(t) == [] && c == ZERO_GROUP then Whole(u) == Whole(t) + [0, 0, 0, 0] && Open(u) == []
    else if |Open(t)| == 4 then Whole(u) == Whole(t) + GroupBytes(Open(t) + [c]) && Open(u) == []
    else Whole(u) == Whole(t) && Open(u) == Open(t) + [c]
  }

  lemma ExtendsBehind(t: seq<Byte>, c: Byte, u: seq<Byte>, front: seq<Byte>, t': seq<Byte>, u': seq<Byte>)
    requires Extends(t, c, u) && Open(t') == Open(t) && Open(u') == Open(u)
    requires Whole(t') == front + Whole(t) && Whole(u') == front + Whole(u)
    ensures Extends(t', c, u')
  {
    Associate(front, Whole(t), [0, 0, 0, 0]);
    Associate(front, Whole(t), GroupBytes(Open(t) + [c]));
  }

  lemma ShortExtends(t: seq<Byte>, c: Byte)
    requires t == [] || (t[0] != ZERO_GROUP && |t| < 5)
    ensures Extends(t, c, t + [c])
  {
    if t == [] {
      assert t + [c] == [c];
      if c == ZERO_GROUP { assert [c][1..] == []; }
    } else if |t| == 4 {
      assert (t + [c])[..5] == t + [c] && (t + [c])[5..] == [];
    }
  }

  lemma {:induction false} TextSnoc(t: seq<Byte>, c: Byte)
    ensures Extends(t, c, t + [c])
  {
    if t == [] || (t[0] != ZERO_GROUP && |t| < 5) {
      ShortExtends(t, c);
    } else if t[0] == ZERO_GROUP {
      assert (t + [c])[1..] == t[1..] + [c];
      TextSnoc(t[1..], c);
      ExtendsBehind(t[1..], c, t[1..] + [c], [0, 0, 0, 0], t, t + [c]);
    } else {
      assert (t + [c])[..5] == t[..5] && (t + [c])[5..] == t[5..] + [c];
      TextSnoc(t[5..], c);
      ExtendsBehind(t[5..], c, t[5..] + [c], GroupBytes(t[..5]), t, t + [c]);
    }
  }

  // ─── the loop, character by character ───────────────────────────────

  /** The variables of the loop. */
  datatype Held = Held(v: nat, nb: nat, out: seq<Byte>, nsrc: nat)

  /** One character, which ends at k. */
  function Take(h: Held, b: Byte, k: nat): Held {
    if b == ZERO_GROUP && h.nb == 0 then Held(0, 0, h.out + TopBytes(0, 4), k)
    else if !Digit(b) then h
    else
      var v := (h.v * 85 + (b - BANG)) % WORD;
      if h.nb == 4 then Held(0, 0, h.out + TopBytes(v, 4), k) else h.(v := v, nb := h.nb + 1)
  }

  /** After the first k characters, as long as there is room and no stray character. */
  function Fold(s: seq<Byte>, k: nat): (h: Held)
    requires k <= |s|
    ensures h.v < WORD && h.nb < 5 && h.nsrc <= k
  {
    if k == 0 then Held(0, 0, [], 0) else Take(Fold(s, k - 1), s[k - 1], k)
  }

  lemma {:induction false} FoldPlace(s: seq<Byte>, k: nat)
    requires k <= |s|
    ensures var h := Fold(s, k); After(s, k).nb == h.nb && 4 * After(s, k).groups == |h.out|
    ensures Fold(s, k).nb == 0 ==> Fold(s, k).v == 0
  {
    if k == 0 {
    } else {
      FoldPlace(s, k - 1);
    }
  }

  /** Room for one more group after the first k characters. */
  predicate Room(cap: nat, s: seq<Byte>, k: nat)
    requires k <= |s|
  {
    cap >= 4 * After(s, k).groups + 4
  }

  /** The loop gets as far as the character at k. */
  predicate Reaches(cap: nat, s: seq<Byte>, k: nat)
    requires k <= |s|
  {
    NoStray(s, k) && forall j :: 0 <= j < k ==> Room(cap, s, j)
  }

  /** The loop ends at k. */
  predicate EndsAt(cap: nat, s: seq<Byte>, k: nat) {
    k <= |s| && Reaches(cap, s, k) && (k < |s| ==> !Room(cap, s, k) || Stray(s, k))
  }

  /** Where that is depends on the text and on the room alone. */
  lemma {:induction false} SomewhereEnds(cap: nat, s: seq<Byte>, from: nat) returns (k: nat)
    requires from <= |s| && Reaches(cap, s, from)
    ensures EndsAt(cap, s, k)
    decreases |s| - from
  {
    if from == |s| || !Room(cap, s, from) || Stray(s, from) {
      k := from;
    } else {
      k := SomewhereEnds(cap, s, from + 1);
    }
  }

  function At(cap: nat, s: seq<Byte>, k: nat): Outcome
    requires k <= |s|
  {
    var h := Fold(s, k);
    Scan(cap, s, k, h.v, h.nb, h.out, h.nsrc)
  }

  lemma ScanStep(cap: nat, s: seq<Byte>, k: nat)
    requires k < |s| && Room(cap, s, k) && !Stray(s, k)
    ensures At(cap, s, k) == At(cap, s, k + 1)
  {
    FoldPlace(s, k);
  }

  lemma {:induction false} ScanReaches(cap: nat, s: seq<Byte>, k: nat)
    requires k <= |s| && Reaches(cap, s, k)
    ensures Scan(cap, s, 0, 0, 0, [], 0) == At(cap, s, k)
  {
    if k == 0 {
    } else {
      ScanReaches(cap, s, k - 1);
      ScanStep(cap, s, k - 1);
    }
  }

  /** What every call answers: at the end of the text what was read, where the room runs out the
      whole groups so far, at a stray character its place. */
  lemma DecodesAt(cap: nat, s: seq<Byte>, flush: bool, k: nat)
    requires EndsAt(cap, s, k)
    ensures var h := Fold(s, k);
      DecodeInto(cap, s, flush) ==
        if k == |s| then Finish(Ended(h.v, h.nb, h.out, h.nsrc), |s|, flush)
        else if !Room(cap, s, k) then Decoded(h.out, h.nsrc)
        else Corrupt(k)
  {
    ScanReaches(cap, s, k);
    FoldPlace(s, k);
  }

  // ─── the variables mean the text ────────────────────────────────────

  lemma {:induction false} VisibleSnoc(s: seq<Byte>, pos: nat, k: nat)
    requires pos <= k < |s|
    ensures Visible(s[..k + 1], pos) == Visible(s[..k], pos) + if Blank(s[k]) then [] else [s[k]]
    decreases k - pos
  {
    var a, b := s[..k], s[..k + 1];
    if pos == k {
      assert Visible(b, k + 1) == [] && Visible(a, k) == [];
    } else {
      VisibleSnoc(s, pos + 1, k);
      assert a[pos] == b[pos];
      var first := if Blank(b[pos]) then [] else [b[pos]];
      var last := if Blank(s[k]) then [] else [s[k]];
      Associate(first, Visible(a, pos + 1), last);
    }
  }

  lemma ReducedStep(x: int, c: int)
    ensures (x % WORD * 85 + c) % WORD == (x * 85 + c) % WORD
  {
    ModAddMultiple(x % WORD * 85 + c, x / WORD * 85, WORD);
    assert x % WORD * 85 + c + WORD * (x / WORD * 85) == x * 85 + c;
  }

  /** The variables hold the text t. */
  predicate Holds(h: Held, t: seq<Byte>) {
    h.out == Whole(t) && h.nb == |Open(t)| && h.v == Value85(Open(t)) % WORD
  }

  lemma TakeMeans(h: Held, t: seq<Byte>, b: Byte, k: nat)
    requires Holds(h, t) && (Digit(b) || (b == ZERO_GROUP && h.nb == 0))
    ensures Holds(Take(h, b, k), t + [b])
  {
    TextSnoc(t, b);
    if Digit(b) {
      ValueSnoc(Open(t), b);
      ReducedStep(Value85(Open(t)), b - BANG);
    }
  }

  lemma {:induction false} FoldMeans(s: seq<Byte>, k: nat)
    requires k <= |s| && NoStray(s, k)
    ensures Holds(Fold(s, k), Visible(s[..k], 0))
  {
    if k == 0 {
    } else {
      FoldMeans(s, k - 1);
      VisibleSnoc(s, 0, k - 1);
      FoldPlace(s, k - 1);
      assert !Stray(s, k - 1);
      var t, b := Visible(s[..k - 1], 0), s[k - 1];
      if Blank(b) {
        assert t + [] == t;
      } else {
        TakeMeans(Fold(s, k - 1), t, b, k);
      }
    }
  }

  /** The bytes read are those of the complete groups, and what is consumed ends just behind the
      last of them. */
  lemma {:induction false} ConsumedGroups(s: seq<Byte>, k: nat)
    requires k <= |s|
    ensures var n := Fold(s, k).nsrc;
      && After(s, n) == Place(0, After(s, k).groups)
      && (n > 0 ==> After(s, n - 1).groups < After(s, n).groups)
      && Fold(s, n) == Held(0, 0, Fold(s, k).out, n)
  {
    FoldPlace(s, k);
    if k == 0 {
    } else {
      FoldPlace(s, k - 1);
      ConsumedGroups(s, k - 1);
    }
  }

  lemma {:induction false} Filled(d: seq<Byte>, v: nat)
    requires |d| <= 5 && v == Value85(d) % WORD
    ensures Padded(v, |d|) == Value85(d + seq(5 - |d|, i => LAST)) % WORD
    decreases 5 - |d|
  {
    var us := seq(5 - |d|, i => LAST);
    if |d| == 5 {
      assert d + us == d;
    } else {
      var e := d + [LAST];
      ValueSnoc(d, LAST);
      ReducedStep(Value85(d), 84);
      Filled(e, (v * 85 + 84) % WORD);
      assert d + us == e + seq(5 - |e|, i => LAST);
    }
  }

  /** What a text means: its complete groups, then the open one. */
  function Meaning(t: seq<Byte>): seq<Byte> {
    Whole(t) + if |Open(t)| < 2 then [] else Tail(Open(t))
  }

  lemma FinishMeans(h: Held, t: seq<Byte>, len: nat)
    requires Holds(h, t) && h.v < WORD && h.nb < 5
    ensures Finish(Ended(h.v, h.nb, h.out, h.nsrc), len, true) ==
      if |Open(t)| == 1 then Corrupt(len) else Decoded(Meaning(t), len)
  {
    if |Open(t)| < 2 {
      assert Whole(t) + [] == Whole(t);
    } else {
      Filled(Open(t), h.v);
      TopIsBigEndian(Padded(h.v, h.nb), h.nb - 1);
    }
  }

  /** With room for everything and no stray character, what Decode reads is what the text means: with
      flush to its end, without flush up to and including its last complete group. */
  lemma DecodesMeaning(dstLen: nat, s: seq<Byte>)
    requires Room(Capacity(dstLen, |s|), s, |s|) && NoStray(s, |s|)
    ensures var t := Visible(s, 0);
      && Decode(dstLen, s, false) == Decoded(Whole(t), Fold(s, |s|).nsrc)
      && Decode(dstLen, s, true) == if |Open(t)| == 1 then Corrupt(|s|) else Decoded(Meaning(t), |s|)
  {
    var cap := Capacity(dstLen, |s|);
    RoomBefore(cap, s, |s|);
    DecodesAt(cap, s, false, |s|);
    DecodesAt(cap, s, true, |s|);
    assert s[..|s|] == s;
    FoldMeans(s, |s|);
    FinishMeans(Fold(s, |s|), Visible(s, 0), |s|);
  }

  /** Without flush, what is consumed ends just behind the last complete group. */
  lemma ConsumedWithoutFlush(dstLen: nat, s: seq<Byte>)
    requires Room(Capacity(dstLen, |s|), s, |s|) && NoStray(s, |s|)
    ensures var r := Decode(dstLen, s, false);
      && r.Decoded? && r.nsrc <= |s| && After(s, r.nsrc) == Place(0, After(s, |s|).groups)
      && (r.nsrc > 0 ==> After(s, r.nsrc - 1).groups < After(s, r.nsrc).groups)
  {
    DecodesMeaning(dstLen, s);
    ConsumedGroups(s, |s|);
  }

  /** Where the room runs out, the answer is that for the text up to there, without flush. */
  lemma OutOfRoom(dstLen: nat, s: seq<Byte>, flush: bool, k: nat)
    requires k < |s| && EndsAt(Capacity(dstLen, |s|), s, k) && !Room(Capacity(dstLen, |s|), s, k)
    ensures Decode(dstLen, s, flush) == Decoded(Whole(Visible(s[..k], 0)), Fold(s, k).nsrc)
  {
    DecodesAt(Capacity(dstLen, |s|), s, flush, k);
    FoldMeans(s, k);
  }

  lemma RoomBefore(cap: nat, s: seq<Byte>, k: nat)
    requires k <= |s| && Room(cap, s, k)
    ensures forall j :: 0 <= j < k ==> Room(cap, s, j)
  {
    forall j | 0 <= j < k ensures Room(cap, s, j) { GroupsGrow(s, j, k); }
  }

  // ─── going on with the rest ─────────────────────────────────────────

  lemma {:induction false} PrefixPlace(s: seq<Byte>, m: nat, k: nat)
    requires k <= m <= |s|
    ensures After(s[..m], k) == After(s, k) && Fold(s[..m], k) == Fold(s, k)
  {
    if k == 0 {
    } else {
      PrefixPlace(s, m, k - 1);
    }
  }

  /** The same state, n characters and some output further on. */
  function Shift(h: Held, n: nat, out: seq<Byte>): Held {
    Held(h.v, h.nb, out + h.out, n + h.nsrc)
  }

  lemma TakeShifted(h: Held, n: nat, out: seq<Byte>, b: Byte, k: nat)
    ensures Take(Shift(h, n, out), b, n + k) == Shift(Take(h, b, k), n, out)
  {
    Associate(out, h.out, TopBytes(0, 4));
    Associate(out, h.out, TopBytes((h.v * 85 + (b - BANG)) % WORD, 4));
  }

  /** Behind a complete group everything is as at the start. */
  lemma {:induction false} RestFold(s: seq<Byte>, n: nat, k: nat)
    requires n + k <= |s| && Fold(s, n).nb == 0 && Fold(s, n).nsrc == n
    ensures Fold(s, n + k) == Shift(Fold(s[n..], k), n, Fold(s, n).out)
  {
    if k == 0 {
      FoldPlace(s, n);
      assert Fold(s, n).out + [] == Fold(s, n).out;
    } else {
      RestFold(s, n, k - 1);
      assert s[n..][k - 1] == s[n + k - 1];
      TakeShifted(Fold(s[n..], k - 1), n, Fold(s, n).out, s[n + k - 1], k);
    }
  }

  lemma RestPlace(s: seq<Byte>, n: nat, k: nat)
    requires n + k <= |s| && Fold(s, n).nb == 0 && Fold(s, n).nsrc == n
    ensures After(s, n + k).nb == After(s[n..], k).nb
  {
    RestFold(s, n, k);
    FoldPlace(s, n + k);
    FoldPlace(s[n..], k);
  }

  /** A caller who decodes the first part without flush, and later the text from where that stopped
      with flush, gets what decoding all of it gives; refusals included. */
  lemma Resumed(dstLen: nat, s: seq<Byte>, m: nat)
    requires m <= |s| && NoStray(s, m)
    requires Room(Capacity(dstLen, m), s, m) && Room(Capacity(dstLen, |s|), s, |s|)
    ensures var first := Decode(dstLen, s[..m], false);
      && first.Decoded? && first.nsrc <= m
      && (Room(Capacity(dstLen, |s| - first.nsrc), s[first.nsrc..], |s| - first.nsrc) ==>
            var second := Decode(dstLen, s[first.nsrc..], true);
            Decode(dstLen, s, true) ==
              if second.Corrupt? then Corrupt(first.nsrc + second.offset)
              else Decoded(first.out + second.out, first.nsrc + second.nsrc))
  {
    var n := Fold(s, m).nsrc;
    FirstPart(dstLen, s, m);
    ConsumedGroups(s, m);
    if Room(Capacity(dstLen, |s| - n), s[n..], |s| - n) { SecondPart(dstLen, s, n); }
  }

  lemma FirstPart(dstLen: nat, s: seq<Byte>, m: nat)
    requires m <= |s| && NoStray(s, m) && Room(Capacity(dstLen, m), s, m)
    ensures Decode(dstLen, s[..m], false) == Decoded(Fold(s, m).out, Fold(s, m).nsrc)
  {
    var p := s[..m];
    forall j | 0 <= j < m ensures !Stray(p, j) {
      assert !Stray(s, j);
      PrefixPlace(s, m, j);
    }
    PrefixPlace(s, m, m);
    RoomBefore(Capacity(dstLen, m), p, m);
    DecodesAt(Capacity(dstLen, m), p, false, m);
  }

  lemma SecondPart(dstLen: nat, s: seq<Byte>, n: nat)
    requires n <= |s| && Fold(s, n).nb == 0 && Fold(s, n).nsrc == n && NoStray(s, n)
    requires Room(Capacity(dstLen, |s|), s, |s|) && Room(Capacity(dstLen, |s| - n), s[n..], |s| - n)
    ensures var second := Decode(dstLen, s[n..], true);
      Decode(dstLen, s, true) ==
        if second.Corrupt? then Corrupt(n + second.offset) else Decoded(Fold(s, n).out + second.out, n + second.nsrc)
  {
    var rest, cap, cap' := s[n..], Capacity(dstLen, |s|), Capacity(dstLen, |s| - n);
    RoomBefore(cap', rest, |rest|);
    var k := SomewhereEnds(cap', rest, 0);
    DecodesAt(cap', rest, true, k);
    RestEnds(cap, s, cap', n, k);
    RoomBefore(cap, s, |s|);
    DecodesAt(cap, s, true, n + k);
    RestFold(s, n, k);
    BothParts(s, n, Fold(rest, k), Fold(s, n).out);
  }

  lemma RestEnds(cap: nat, s: seq<Byte>, cap': nat, n: nat, k: nat)
    requires n <= |s| && Fold(s, n).nb == 0 && Fold(s, n).nsrc == n && NoStray(s, n)
    requires Room(cap, s, |s|) && Room(cap', s[n..], |s| - n) && EndsAt(cap', s[n..], k)
    ensures EndsAt(cap, s, n + k) && (n + k < |s| ==> Stray(s, n + k))
  {
    RoomBefore(cap, s, |s|);
    RoomBefore(cap', s[n..], |s| - n);
    forall j | 0 <= j < n + k ensures !Stray(s, j) {
      if j >= n {
        RestPlace(s, n, j - n);
        assert !Stray(s[n..], j - n);
      }
    }
    RestPlace(s, n, k);
  }

  lemma BothParts(s: seq<Byte>, n: nat, h: Held, out: seq<Byte>)
    requires n <= |s| && h.v < WORD && h.nb < 5
    ensures var second := Finish(Ended(h.v, h.nb, h.out, h.nsrc), |s| - n, true);
      Finish(Ended(h.v, h.nb, out + h.out, n + h.nsrc), |s|, true) ==
        if second.Corrupt? then Corrupt(n + second.offset) else Decoded(out + second.out, n + second.nsrc)
  {
    if h.nb >= 2 { Associate(out, h.out, TopBytes(Padded(h.v, h.nb), h.nb - 1)); }
  }
}
