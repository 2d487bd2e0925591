/** The ascii85 codec of src/encoding/ascii85/ascii85.rs. */
module Ascii85 {

  import opened Arithmetic
  import opened Bytes

  const WORD: nat := 0x1_0000_0000
  const BANG: Byte := 33
  const LAST: Byte := 117
  const ZERO_GROUP: Byte := 122
  const SPACE: Byte := 32

  // ─── one group ──────────────────────────────────────────────────────

  /** The 32-bit big-endian value of one to four bytes, padded with zeros. */
  function Word(b: seq<Byte>): (w: nat)
    requires 1 <= |b| <= 4
    ensures w < WORD
  {
    b[0] as int * 0x1000000
    + (if |b| >= 2 then b[1] as int * 0x10000 else 0)
    + (if |b| >= 3 then b[2] as int * 0x100 else 0)
    + (if |b| >= 4 then b[3] else 0)
  }

  /** The top n bytes of a 32-bit word. */
  function TopBytes(w: nat, n: nat): (b: seq<Byte>)
    requires w < WORD && n <= 4
    ensures |b| == n
  {
    var q1 := w / 256;
    var q2 := q1 / 256;
    [q2 / 256, q2 % 256, q1 % 256, w % 256][..n]
  }

  /** The value of the first k of the five base-85 digits of w. */
  function Part(w: nat, k: nat): (p: nat)
    requires w < WORD && k <= 5
    ensures p <= w
    decreases 5 - k
  {
    if k == 5 then w else Part(w, k + 1) / 85
  }

  /** Digit k of w, as a character. */
  function Char(w: nat, k: nat): (c: Byte)
    requires w < WORD && k < 5
    ensures BANG <= c <= LAST
  {
    BANG + Part(w, k + 1) % 85
  }

  function Chars(w: nat): (s: seq<Byte>)
    requires w < WORD
    ensures |s| == 5 && forall k :: 0 <= k < 5 ==> s[k] == Char(w, k)
  {
    [Char(w, 0), Char(w, 1), Char(w, 2), Char(w, 3), Char(w, 4)]
  }

  lemma PartStep(w: nat, k: nat)
    requires w < WORD && k < 5
    ensures Part(w, k + 1) == Part(w, k) * 85 + (Char(w, k) - BANG)
  {
  }

  lemma PartStart(w: nat)
    requires w < WORD
    ensures Part(w, 0) == 0
  {
    assert Part(w, 5) < WORD;
    assert Part(w, 4) <= 50529027;
    assert Part(w, 3) <= 594459;
    assert Part(w, 2) <= 6993;
    assert Part(w, 1) <= 82;
  }

  /** The code for one to four bytes: 'z' for a full group of zeros, otherwise one character more
      than there are bytes. */
  function EncodeGroup(b: seq<Byte>): (s: seq<Byte>)
    requires 1 <= |b| <= 4
    ensures 1 <= |s| <= |b| + 1
  {
    if Word(b) == 0 && |b| == 4 then [ZERO_GROUP] else Chars(Word(b))[..|b| + 1]
  }

  function Encode(src: seq<Byte>): (s: seq<Byte>) {
    if src == [] then []
    else if |src| < 4 then EncodeGroup(src)
    else EncodeGroup(src[..4]) + Encode(src[4..])
  }

  function MaxEncodedLen(n: nat): nat {
    (n + 3) / 4 * 5
  }

  lemma EncodedLen(src: seq<Byte>)
    ensures |Encode(src)| <= MaxEncodedLen(|src|)
    ensures Encode(src) == [] <==> src == []
  {
    EncodedGroups(src, (|src| + 3) / 4);
  }

  lemma {:induction false} EncodedGroups(src: seq<Byte>, groups: nat)
    requires |src| <= 4 * groups
    ensures |Encode(src)| <= 5 * groups
  {
    if |src| < 4 {
    } else {
      EncodedGroups(src[4..], groups - 1);
    }
  }

  /** The bound is reached by inputs of whole groups, and by no others. */
  lemma MaxReached(n: nat, src: seq<Byte>)
    requires |src| == n
    ensures |Encode(src)| == MaxEncodedLen(n) ==> n % 4 == 0
    ensures n % 4 == 0 && (forall i :: 0 <= i < n ==> src[i] == 255) ==> |Encode(src)| == MaxEncodedLen(n)
  {
    MaxByGroups(n, n / 4, n % 4);
    if n % 4 != 0 {
      ShortTail(src, n / 4, n % 4);
    } else if forall i :: 0 <= i < n ==> src[i] == 255 {
      FullGroups(src, n / 4);
    }
  }

  lemma MaxByGroups(n: nat, k: nat, r: nat)
    requires n == 4 * k + r && r < 4
    ensures MaxEncodedLen(n) == if r == 0 then 5 * k else 5 * k + 5
  {
  }

  lemma {:induction false} ShortTail(src: seq<Byte>, k: nat, r: nat)
    requires |src| == 4 * k + r && 1 <= r <= 3
    ensures |Encode(src)| <= 5 * k + r + 1
  {
    if k == 0 {
    } else {
      ShortTail(src[4..], k - 1, r);
    }
  }

  lemma {:induction false} FullGroups(src: seq<Byte>, k: nat)
    requires |src| == 4 * k && forall i :: 0 <= i < |src| ==> src[i] == 255
    ensures |Encode(src)| == 5 * k
  {
    if k == 0 {
    } else {
      FullGroups(src[4..], k - 1);
    }
  }

  /** Whole groups encode on their own. */
  lemma {:induction false} EncodeAppend(a: seq<Byte>, b: seq<Byte>)
    requires |a| % 4 == 0
    ensures Encode(a + b) == Encode(a) + Encode(b)
  {
    if a == [] {
      assert a + b == b;
    } else {
      assert (a + b)[..4] == a[..4] && (a + b)[4..] == a[4..] + b;
      EncodeAppend(a[4..], b);
      assert EncodeGroup(a[..4]) + (Encode(a[4..]) + Encode(b)) == EncodeGroup(a[..4]) + Encode(a[4..]) + Encode(b);
    }
  }

  // ─── the encoder ────────────────────────────────────────────────────

  /** `encode_into`, over a destination with room for every group. */
  method EncodeInto(dst: array<Byte>, src: seq<Byte>) returns (n: nat)
    requires dst.Length >= MaxEncodedLen(|src|)
    modifies dst
    ensures n <= dst.Length && dst[..n] == Encode(src)
  {
    n := EncodeGroups(dst, src, (|src| + 3) / 4);
  }

  method EncodeGroups(dst: array<Byte>, src: seq<Byte>, ghost groups: nat) returns (n: nat)
    requires |src| <= 4 * groups && 5 * groups <= dst.Length
    modifies dst
    ensures n <= dst.Length && dst[..n] == Encode(src)
  {
    n := 0;
    var rest := src;
    ghost var done: seq<Byte> := [];
    ghost var k: nat := 0;
    while rest != []
      invariant src == done + rest && (rest != [] ==> |done| == 4 * k)
      invariant n <= 5 * k && k <= groups && |rest| <= 4 * (groups - k)
      invariant dst[..n] == Encode(done)
      decreases |rest|
    {
      var b := if |rest| < 4 then rest else rest[..4];
      n := WriteGroup(dst, n, b, done);
      rest := rest[|b|..];
      done, k := done + b, k + 1;
    }
    assert done == src;
  }

  /** One group behind the code of the whole groups in `done`. */
  method WriteGroup(dst: array<Byte>, at: nat, b: seq<Byte>, ghost done: seq<Byte>) returns (n: nat)
    requires at + 5 <= dst.Length && 1 <= |b| <= 4
    requires |done| % 4 == 0 && dst[..at] == Encode(done)
    modifies dst
    ensures at < n <= at + 5 && dst[..n] == Encode(done + b)
  {
    GroupAppended(done, b);
    n := WriteCode(dst, at, b);
  }

  method WriteCode(dst: array<Byte>, at: nat, b: seq<Byte>) returns (n: nat)
    requires at + 5 <= dst.Length && 1 <= |b| <= 4
    modifies dst
    ensures at < n <= at + 5 && dst[..n] == old(dst[..at]) + EncodeGroup(b)
  {
    if Word(b) == 0 && |b| == 4 {
      dst[at] := ZERO_GROUP;
      n := at + 1;
    } else {
      WriteDigits(dst, at, Word(b));
      n := at + |b| + 1;
      assert dst[..n] == dst[..at] + dst[at..at + 5][..|b| + 1];
    }
  }

  lemma GroupAppended(done: seq<Byte>, b: seq<Byte>)
    requires |done| % 4 == 0 && 1 <= |b| <= 4
    ensures Encode(done + b) == Encode(done) + EncodeGroup(b)
  {
    EncodeAppend(done, b);
    if |b| == 4 { assert b[..4] == b && Encode(b[4..]) == []; }
  }

  /** The digit loop, from the last character to the first. */
  method WriteDigits(dst: array<Byte>, at: nat, w: nat)
    requires at + 5 <= dst.Length && w < WORD
    modifies dst
    ensures dst[at..at + 5] == Chars(w)
    ensures dst[..at] == old(dst[..at]) && dst[at + 5..] == old(dst[at + 5..])
  {
    var i, v := 5, w;
    while i > 0
      invariant 0 <= i <= 5 && v == Part(w, i)
      invariant forall k :: i <= k < 5 ==> dst[at + k] == Char(w, k)
      invariant dst[..at] == old(dst[..at]) && dst[at + 5..] == old(dst[at + 5..])
    {
      i := i - 1;
      dst[at + i] := BANG + v % 85;
      v := v / 85;
    }
  }

  // ─── the decoder, character by character ────────────────────────────

  datatype Outcome =
    | Ended(v: nat, nb: nat, out: seq<Byte>, nsrc: nat)
    | Stopped(out: seq<Byte>, nsrc: nat)
    | Bad(offset: nat)

  predicate Blank(b: Byte) {
    b <= SPACE
  }

  /** The decoding loop from position `pos`, with `nb` digits of the current group read. */
  function Scan(cap: nat, s: seq<Byte>, pos: nat, v: nat, nb: nat, out: seq<Byte>, nsrc: nat): (r: Outcome)
    requires pos <= |s| && v < WORD && nb < 5
    ensures r.Ended? ==> r.v < WORD && r.nb < 5
    decreases |s| - pos
  {
    if pos == |s| then Ended(v, nb, out, nsrc)
    else if cap < |out| + 4 then Stopped(out, nsrc)
    else if Blank(s[pos]) then Scan(cap, s, pos + 1, v, nb, out, nsrc)
    else if s[pos] == ZERO_GROUP && nb == 0 then Scan(cap, s, pos + 1, 0, 0, out + TopBytes(0, 4), pos + 1)
    else if BANG <= s[pos] <= LAST then
      var v' := (v * 85 + (s[pos] - BANG)) % WORD;
      if nb == 4 then Scan(cap, s, pos + 1, 0, 0, out + TopBytes(v', 4), pos + 1)
      else Scan(cap, s, pos + 1, v', nb + 1, out, nsrc)
    else Bad(pos)
  }

  /** Padding a short group with the largest digit. */
  function Padded(v: nat, nb: nat): (w: nat)
    requires v < WORD && nb <= 5
    ensures w < WORD
    decreases 5 - nb
  {
    if nb == 5 then v else Padded((v * 85 + 84) % WORD, nb + 1)
  }

  datatype Decoded = Decoded(out: seq<Byte>, nsrc: nat) | Corrupt(offset: nat)

  /** What follows the loop. */
  function Finish(r: Outcome, len: nat, flush: bool): Decoded
    requires r.Ended? ==> r.v < WORD && r.nb < 5
  {
    match r
    case Bad(offset) => Corrupt(offset)
    case Stopped(out, nsrc) => Decoded(out, nsrc)
    case Ended(v, nb, out, nsrc) =>
      if !flush then Decoded(out, nsrc)
      else if nb == 0 then Decoded(out, len)
      else if nb == 1 then Corrupt(len)
      else Decoded(out + TopBytes(Padded(v, nb), nb - 1), len)
  }

  /** `decode_into` over a destination of `cap` bytes. */
  function DecodeInto(cap: nat, src: seq<Byte>, flush: bool): Decoded {
    Finish(Scan(cap, src, 0, 0, 0, [], 0), |src|, flush)
  }

  /** The destination `Decode` works with: the caller's, or a larger one sized from the input. */
  function Capacity(dstLen: nat, srcLen: nat): nat {
    var need := srcLen / 5 * 4 + 8;
    if dstLen < need then need else dstLen
  }

  function Decode(dstLen: nat, src: seq<Byte>, flush: bool): Decoded {
    DecodeInto(Capacity(dstLen, |src|), src, flush)
  }

  /** `decode_into`: the loop and the flush, in place on the destination. */
  method DecodeBytes(dst: array<Byte>, src: seq<Byte>, flush: bool) returns (r: Decoded)
    modifies dst
    ensures r == DecodeInto(dst.Length, src, flush)
    ensures r.Decoded? ==> |r.out| <= dst.Length && dst[..|r.out|] == r.out
  {
    var v, nb, ndst, nsrc, i := 0, 0, 0, 0, 0;
    while i < |src|
      invariant 0 <= i <= |src| && 0 <= v < WORD && 0 <= nb < 5 && 0 <= ndst <= dst.Length
      invariant nb > 0 ==> ndst + 4 <= dst.Length
      invariant nsrc >= 0
      invariant Scan(dst.Length, src, 0, 0, 0, [], 0) == Scan(dst.Length, src, i, v, nb, dst[..ndst], nsrc)
    {
      if dst.Length - ndst < 4 {
        return Decoded(dst[..ndst], nsrc);
      }
      var b := src[i];
      if b <= SPACE {
        i := i + 1;
        continue;
      } else if b == ZERO_GROUP && nb == 0 {
        nb, v := 5, 0;
      } else if BANG <= b <= LAST {
        v, nb := (v * 85 + (b - BANG)) % WORD, nb + 1;
      } else {
        return Corrupt(i);
      }
      if nb == 5 {
        nsrc := i + 1;
        Store(dst, ndst, v, 4);
        ndst, nb, v := ndst + 4, 0, 0;
      }
      i := i + 1;
    }
    if flush {
      nsrc := |src|;
      if nb > 0 {
        if nb == 1 { return Corrupt(|src|); }
        var w := Pad(v, nb);
        Store(dst, ndst, w, nb - 1);
        ndst := ndst + nb - 1;
      }
    }
    r := Decoded(dst[..ndst], nsrc);
  }

  method Store(dst: array<Byte>, at: nat, w: nat, n: nat)
    requires w < WORD && n <= 4 && at + n <= dst.Length
    modifies dst
    ensures dst[..at + n] == old(dst[..at]) + TopBytes(w, n)
  {
    ghost var before := dst[..at];
    var i := 0;
    while i < n
      invariant 0 <= i <= n && dst[..at] == before
      invariant forall k :: 0 <= k < i ==> dst[at + k] == TopBytes(w, n)[k]
    {
      dst[at + i] := TopBytes(w, n)[i];
      i := i + 1;
    }
  }

  method Pad(v: nat, nb: nat) returns (w: nat)
    requires v < WORD && nb <= 5
    ensures w == Padded(v, nb)
  {
    w := v;
    var k := nb;
    while k < 5
      invariant nb <= k <= 5 && w < WORD && Padded(w, k) == Padded(v, nb)
    {
      w, k := (w * 85 + 84) % WORD, k + 1;
    }
  }

  // ─── decoding undoes encoding ───────────────────────────────────────

  /** The characters from `pos` on that are not white space. */
  function Visible(s: seq<Byte>, pos: nat): seq<Byte>
    requires pos <= |s|
    decreases |s| - pos
  {
    if pos == |s| then [] else (if Blank(s[pos]) then [] else [s[pos]]) + Visible(s, pos + 1)
  }

  /** The bytes a destination needs before the last group of n bytes is reached. */
  function Need(n: nat): nat {
    (n + 3) / 4 * 4
  }

  /** The groups in a text without white space: one for every z, one for five digits, one for a short
      tail. */
  function Groups(text: seq<Byte>): nat {
    if text == [] then 0
    else if text[0] == ZERO_GROUP then 1 + Groups(text[1..])
    else if |text| <= 5 then 1
    else 1 + Groups(text[5..])
  }

  lemma {:induction false} GroupsOfEncoding(src: seq<Byte>)
    ensures 4 * Groups(Encode(src)) == Need(|src|)
  {
    if src == [] {
    } else if |src| < 4 {
      assert Groups(EncodeGroup(src)) == 1;
    } else {
      GroupsOfEncoding(src[4..]);
      FirstGroup(src[..4], Encode(src[4..]));
      NeedStep(|src| - 4);
    }
  }

  lemma NeedStep(n: nat)
    ensures Need(n + 4) == Need(n) + 4
  {
  }

  lemma FirstGroup(b: seq<Byte>, rest: seq<Byte>)
    requires |b| == 4
    ensures Groups(EncodeGroup(b) + rest) == 1 + Groups(rest)
  {
    var code := EncodeGroup(b);
    if Word(b) == 0 {
      assert (code + rest)[1..] == rest;
    } else {
      assert code[0] == Char(Word(b), 0) != ZERO_GROUP;
      if rest == [] { assert code + rest == code; } else { assert (code + rest)[5..] == rest; }
    }
  }

  function Pending(r: Outcome): seq<Byte>
    requires r.Ended? && r.v < WORD && r.nb < 5
  {
    if r.nb == 0 then [] else TopBytes(Padded(r.v, r.nb), r.nb - 1)
  }

  /** A number of whole groups. */
  predicate Whole(n: nat) {
    n == 0 || (n >= 4 && Whole(n - 4))
  }

  lemma {:induction false} WholeIsMultiple(n: nat)
    ensures Whole(n) <==> n % 4 == 0
  {
    if n < 4 {
    } else {
      WholeIsMultiple(n - 4);
    }
  }

  /** The loop delivers `total`, or as many whole groups of it as the destination holds. */
  predicate Delivers(r: Outcome, cap: nat, total: seq<Byte>, s: seq<Byte>) {
    match r
    case Bad(_) => false
    case Ended(v, nb, out, _) =>
      && v < WORD && nb < 5 && nb != 1 && total == out + Pending(r)
      && Whole(|out|) && |out| + (if nb == 0 then 0 else 4) <= cap
    case Stopped(out, _) =>
      && out <= total && Whole(|out|) && |out| <= cap < |out| + 4
      && (out == total ==> s != [] && Blank(s[|s| - 1]))
  }

  lemma {:induction false} AllBlank(s: seq<Byte>, pos: nat)
    requires pos < |s| && Visible(s, pos) == []
    ensures Blank(s[|s| - 1])
    decreases |s| - pos
  {
    if pos + 1 >= |s| {
    } else {
      AllBlank(s, pos + 1);
    }
  }

  /** Zero padding on the way in, 84 padding on the way out: the kept bytes survive, because
      85^k < 256^k. */
  lemma PaddedTail(b: seq<Byte>)
    requires 1 <= |b| <= 3
    ensures TopBytes(Padded(Part(Word(b), |b| + 1), |b| + 1), |b|) == b
  {
    var w, k := Word(b), |b| + 1;
    assert Grown(0, 4) == 84 && Grown(0, 3) == 7224 && Grown(0, 2) == 614124;
    PadGrows(w, k, Part(w, k), 0);
    TopOf(b, Padded(Part(w, k), k));
  }

  /** How far padding can carry a value above the word it came from. */
  function Grown(u: nat, k: nat): (g: nat)
    requires k <= 5
    ensures g >= u
    decreases 5 - k
  {
    if k == 5 then u else Grown(85 * u + 84, k + 1)
  }

  lemma {:induction false} PadGrows(w: nat, k: nat, x: nat, u: nat)
    requires k <= 5 && w + Grown(u, k) < WORD && Part(w, k) <= x <= Part(w, k) + u
    ensures x < WORD && w <= Padded(x, k) <= w + Grown(u, k)
    decreases 5 - k
  {
    if k == 5 {
    } else {
      PartBounds(w, k);
      GrowStep(Part(w, k), Part(w, k + 1), x, u);
      PadStep(x, k);
      PadGrows(w, k + 1, x * 85 + 84, 85 * u + 84);
    }
  }

  lemma GrowStep(p: nat, p': nat, x: nat, u: nat)
    requires p * 85 <= p' <= p * 85 + 84 && p <= x <= p + u
    ensures p' <= x * 85 + 84 <= p' + (85 * u + 84)
  {
  }

  lemma PartBounds(w: nat, k: nat)
    requires w < WORD && k < 5
    ensures Part(w, k) * 85 <= Part(w, k + 1) <= Part(w, k) * 85 + 84
  {
    PartStep(w, k);
  }

  lemma PadStep(x: nat, k: nat)
    requires k < 5 && x * 85 + 84 < WORD
    ensures Padded(x, k) == Padded(x * 85 + 84, k + 1)
  {
    ModBelow(x * 85 + 84, WORD);
  }

  /** A word that differs from Word(b) only below the bytes of b. */
  lemma TopOf(b: seq<Byte>, w: nat)
    requires 1 <= |b| <= 4 && w < WORD
    requires Word(b) <= w <= Word(b) + Slack(|b|)
    ensures TopBytes(w, |b|) == b
  {
    var q1 := w / 256;
    var q2 := q1 / 256;
    assert b[0] as int * 256 <= q2 < (b[0] as int + 1) * 256;
    if |b| >= 2 { assert q2 == b[0] as int * 256 + b[1]; }
    if |b| >= 3 { assert q1 == q2 * 256 + b[2]; }
    if |b| >= 4 { assert w == q1 * 256 + b[3]; }
  }

  function Slack(n: nat): nat {
    if n >= 4 then 0 else if n == 3 then 255 else if n == 2 then 65535 else 0xFFFFFF
  }

  /** A word whose digits, all five or one more than there are bytes, decode to b. */
  predicate Carries(w: nat, b: seq<Byte>) {
    && w < WORD && 1 <= |b| <= 4
    && b == if |b| == 4 then TopBytes(w, 4) else TopBytes(Padded(Part(w, |b| + 1), |b| + 1), |b|)
  }

  lemma WordCarries(b: seq<Byte>)
    requires 1 <= |b| <= 4
    ensures Carries(Word(b), b)
  {
    if |b| == 4 { TopOf(b, Word(b)); } else { PaddedTail(b); }
  }

  /** Inside a group: nb of its characters have been read. */
  lemma {:induction false} ScanGroup(cap: nat, s: seq<Byte>, pos: nat, w: nat, b: seq<Byte>, nb: nat, out: seq<Byte>,
                                     nsrc: nat, after: seq<Byte>)
    requires pos <= |s| && Carries(w, b) && nb < 5 && nb <= |b| + 1 && (|b| < 4 ==> after == [])
    requires Visible(s, pos) == Chars(w)[nb..|b| + 1] + Encode(after)
    requires Whole(|out|) && |out| <= cap && (nb > 0 ==> |out| + 4 <= cap)
    ensures Delivers(Scan(cap, s, pos, Part(w, nb), nb, out, nsrc), cap, out + b + after, s)
    decreases |s| - pos, 1
  {
    if pos == |s| {
      EncodedLen(after);
      assert out + b + after == out + b;
    } else if cap < |out| + 4 {
      assert out <= out + b + after;
    } else if Blank(s[pos]) {
      ScanGroup(cap, s, pos + 1, w, b, nb, out, nsrc, after);
    } else {
      ScanDigit(cap, s, pos, w, b, nb, out, nsrc, after);
    }
  }

  lemma {:induction false} ScanDigit(cap: nat, s: seq<Byte>, pos: nat, w: nat, b: seq<Byte>, nb: nat, out: seq<Byte>,
                                     nsrc: nat, after: seq<Byte>)
    requires pos < |s| && Carries(w, b) && nb < 5 && nb <= |b| + 1 && (|b| < 4 ==> after == [])
    requires !Blank(s[pos]) && Visible(s, pos) == Chars(w)[nb..|b| + 1] + Encode(after)
    requires Whole(|out|) && |out| + 4 <= cap
    ensures Delivers(Scan(cap, s, pos, Part(w, nb), nb, out, nsrc), cap, out + b + after, s)
    decreases |s| - pos, 0
  {
    GroupChar(w, nb, |b| + 1, Encode(after), s[pos], Visible(s, pos + 1));
    ReadDigit(cap, s, pos, w, nb, out, nsrc);
    if nb == 4 {
      assert Chars(w)[5..5] + Encode(after) == Encode(after);
      ScanStart(cap, s, pos + 1, out + b, pos + 1, after);
    } else {
      ScanGroup(cap, s, pos + 1, w, b, nb + 1, out, nsrc, after);
    }
  }

  /** One digit of w through the loop. */
  lemma ReadDigit(cap: nat, s: seq<Byte>, pos: nat, w: nat, nb: nat, out: seq<Byte>, nsrc: nat)
    requires pos < |s| && w < WORD && nb < 5 && |out| + 4 <= cap && s[pos] == Char(w, nb)
    requires (Part(w, nb) * 85 + (s[pos] - BANG)) % WORD == Part(w, nb + 1)
    ensures Scan(cap, s, pos, Part(w, nb), nb, out, nsrc) ==
      if nb == 4 then Scan(cap, s, pos + 1, 0, 0, out + TopBytes(w, 4), pos + 1)
      else Scan(cap, s, pos + 1, Part(w, nb + 1), nb + 1, out, nsrc)
  {
    assert Part(w, 5) == w;
  }

  /** The next visible character is the next digit, and reading it does not wrap. */
  lemma GroupChar(w: nat, nb: nat, m: nat, tail: seq<Byte>, c: Byte, rest: seq<Byte>)
    requires w < WORD && nb < 5 && nb <= m <= 5 && (m < 5 ==> tail == [])
    requires [c] + rest == Chars(w)[nb..m] + tail
    ensures nb < m && c == Char(w, nb) && rest == Chars(w)[nb + 1..m] + tail
    ensures (Part(w, nb) * 85 + (c - BANG)) % WORD == Part(w, nb + 1)
  {
    FrontOf(Chars(w), nb, m, tail, c, rest);
    DigitStep(w, nb);
  }

  lemma FrontOf(cs: seq<Byte>, nb: nat, m: nat, tail: seq<Byte>, c: Byte, rest: seq<Byte>)
    requires nb < |cs| && nb <= m <= |cs| && (m < |cs| ==> tail == [])
    requires [c] + rest == cs[nb..m] + tail
    ensures nb < m && c == cs[nb] && rest == cs[nb + 1..m] + tail
  {
    assert nb < m;
    assert c == ([c] + rest)[0] && rest == ([c] + rest)[1..];
    assert (cs[nb..m] + tail)[1..] == cs[nb + 1..m] + tail;
  }

  lemma DigitStep(w: nat, k: nat)
    requires w < WORD && k < 5
    ensures (Part(w, k) * 85 + (Char(w, k) - BANG)) % WORD == Part(w, k + 1)
  {
    PartStep(w, k);
    ModBelow(Part(w, k + 1), WORD);
  }

  /** Between groups: what is left is the encoding of `rest`. */
  lemma {:induction false} ScanStart(cap: nat, s: seq<Byte>, pos: nat, out: seq<Byte>, nsrc: nat, rest: seq<Byte>)
    requires pos <= |s| && Visible(s, pos) == Encode(rest) && Whole(|out|) && |out| <= cap
    ensures Delivers(Scan(cap, s, pos, 0, 0, out, nsrc), cap, out + rest, s)
    decreases |s| - pos, 3
  {
    EncodedLen(rest);
    if pos == |s| {
      assert out + rest == out + [];
    } else if cap < |out| + 4 {
      if rest == [] { AllBlank(s, pos); }
    } else if Blank(s[pos]) {
      ScanStart(cap, s, pos + 1, out, nsrc, rest);
    } else {
      var b, after := if |rest| < 4 then rest else rest[..4], if |rest| < 4 then [] else rest[4..];
      assert Encode(rest) == EncodeGroup(b) + Encode(after);
      assert out + rest == out + b + after;
      ScanFirst(cap, s, pos, b, out, nsrc, after);
    }
  }

  lemma {:induction false} ScanFirst(cap: nat, s: seq<Byte>, pos: nat, b: seq<Byte>, out: seq<Byte>, nsrc: nat,
                                     after: seq<Byte>)
    requires pos < |s| && 1 <= |b| <= 4 && (|b| < 4 ==> after == [])
    requires !Blank(s[pos]) && Visible(s, pos) == EncodeGroup(b) + Encode(after)
    requires Whole(|out|) && |out| + 4 <= cap
    ensures Delivers(Scan(cap, s, pos, 0, 0, out, nsrc), cap, out + b + after, s)
    decreases |s| - pos, 2
  {
    var rest := Visible(s, pos + 1);
    assert Visible(s, pos) == [s[pos]] + rest;
    if Word(b) == 0 && |b| == 4 {
      assert s[pos] == (EncodeGroup(b) + Encode(after))[0] == ZERO_GROUP;
      assert rest == (EncodeGroup(b) + Encode(after))[1..] == Encode(after);
      ReadZeroGroup(cap, s, pos, b, out, nsrc);
      ScanStart(cap, s, pos + 1, out + b, pos + 1, after);
    } else {
      PartStart(Word(b));
      WordCarries(b);
      ScanDigit(cap, s, pos, Word(b), b, 0, out, nsrc, after);
    }
  }

  lemma ReadZeroGroup(cap: nat, s: seq<Byte>, pos: nat, b: seq<Byte>, out: seq<Byte>, nsrc: nat)
    requires pos < |s| && |out| + 4 <= cap && s[pos] == ZERO_GROUP && |b| == 4 && Word(b) == 0
    ensures Scan(cap, s, pos, 0, 0, out, nsrc) == Scan(cap, s, pos + 1, 0, 0, out + b, pos + 1)
  {
    TopOf(b, 0);
  }

  // ─── the theorems ───────────────────────────────────────────────────

  /** For every byte string, with white space anywhere in its encoding: decoding reports no error
      and gives the string back exactly when the destination has four bytes for each group of the
      text; otherwise it gives the whole groups that fit, still without an error. */
  lemma RoundTrip(dstLen: nat, s: seq<Byte>, src: seq<Byte>)
    requires Visible(s, 0) == Encode(src)
    ensures var r := Decode(dstLen, s, true);
      && r.Decoded?
      && (r.out == src <==> Capacity(dstLen, |s|) >= 4 * Groups(Visible(s, 0)))
      && r.out <= src
      && (|src| + 7 <= Capacity(dstLen, |s|) ==> r.nsrc == |s|)
  {
    var cap := Capacity(dstLen, |s|);
    GroupsOfEncoding(src);
    ScanStart(cap, s, 0, [], 0, src);
    assert [] + src == src;
    Reached(Scan(cap, s, 0, 0, 0, [], 0), cap, src, s);
  }

  lemma Reached(r: Outcome, cap: nat, src: seq<Byte>, s: seq<Byte>)
    requires Delivers(r, cap, src, s)
    ensures var d := Finish(r, |s|, true);
      && d.Decoded?
      && (d.out == src <==> cap >= Need(|src|))
      && d.out <= src
      && (r.Ended? || |src| + 7 <= cap ==> d.nsrc == |s|)
  {
    WholeIsMultiple(|r.out|);
  }

  lemma {:induction false} EncodingVisible(s: seq<Byte>, pos: nat)
    requires pos <= |s| && forall i :: 0 <= i < |s| ==> !Blank(s[i])
    ensures Visible(s, pos) == s[pos..]
    decreases |s| - pos
  {
    if pos >= |s| {
    } else {
      EncodingVisible(s, pos + 1);
    }
  }

  lemma {:induction false} NoBlanks(src: seq<Byte>)
    ensures forall i :: 0 <= i < |Encode(src)| ==> !Blank(Encode(src)[i])
  {
    if |src| < 4 {
    } else {
      NoBlanks(src[4..]);
    }
  }

  /** Decode undoes Encode, consuming every character, exactly when the destination is large
      enough. */
  lemma DecodeUndoesEncode(dstLen: nat, src: seq<Byte>)
    ensures Decode(dstLen, Encode(src), true) == Decoded(src, |Encode(src)|)
      <==> Capacity(dstLen, |Encode(src)|) >= 4 * Groups(Encode(src))
  {
    var e := Encode(src);
    NoBlanks(src);
    EncodingVisible(e, 0);
    assert e[0..] == e;
    RoundTrip(dstLen, e, src);
    ScanStart(Capacity(dstLen, |e|), e, 0, [], 0, src);
    assert [] + src == src;
  }

  // ─── what the decoder refuses ───────────────────────────────────────

  /** How far a reader has come in a text: digits of the open group, and groups completed. */
  datatype Place = Place(nb: nat, groups: nat)

  predicate Digit(b: Byte) {
    BANG <= b <= LAST
  }

  /** After the first k characters, white space not counted and strays passed over. */
  function After(s: seq<Byte>, k: nat): (r: Place)
    requires k <= |s|
    ensures r.nb < 5
  {
    if k == 0 then Place(0, 0)
    else
      var p, b := After(s, k - 1), s[k - 1];
      if b == ZERO_GROUP && p.nb == 0 then Place(0, p.groups + 1)
      else if !Digit(b) then p
      else if p.nb == 4 then Place(0, p.groups + 1)
      else Place(p.nb + 1, p.groups)
  }

  /** A visible character that is no digit, and no z between groups. */
  predicate Stray(s: seq<Byte>, k: nat)
    requires k < |s|
  {
    !Blank(s[k]) && !Digit(s[k]) && !(s[k] == ZERO_GROUP && After(s, k).nb == 0)
  }

  predicate NoStray(s: seq<Byte>, k: nat)
    requires k <= |s|
  {
    forall j :: 0 <= j < k ==> !Stray(s, j)
  }

  lemma {:induction false} GroupsGrow(s: seq<Byte>, j: nat, k: nat)
    requires j <= k <= |s|
    ensures After(s, j).groups <= After(s, k).groups
    decreases k
  {
    if j == k {
    } else {
      GroupsGrow(s, j, k - 1);
    }
  }

  /** The loop stops at the first stray character, or comes to the end with the digits of an open
      group. */
  predicate Finds(r: Outcome, s: seq<Byte>) {
    match r
    case Bad(k) => k < |s| && Stray(s, k) && NoStray(s, k)
    case Ended(_, nb, _, _) => NoStray(s, |s|) && nb == After(s, |s|).nb
    case Stopped(_, _) => false
  }

  lemma {:induction false} ScanFinds(cap: nat, s: seq<Byte>, pos: nat, v: nat, nb: nat, out: seq<Byte>, nsrc: nat)
    requires pos <= |s| && v < WORD && nb < 5 && NoStray(s, pos)
    requires nb == After(s, pos).nb && |out| == 4 * After(s, pos).groups && cap >= 4 * After(s, |s|).groups + 4
    ensures Finds(Scan(cap, s, pos, v, nb, out, nsrc), s)
    decreases |s| - pos
  {
    if pos == |s| {
    } else {
      GroupsGrow(s, pos, |s|);
      if Stray(s, pos) {
      } else if Blank(s[pos]) {
        ScanFinds(cap, s, pos + 1, v, nb, out, nsrc);
      } else if s[pos] == ZERO_GROUP {
        ScanFinds(cap, s, pos + 1, 0, 0, out + TopBytes(0, 4), pos + 1);
      } else {
        var v' := (v * 85 + (s[pos] - BANG)) % WORD;
        if nb == 4 {
          ScanFinds(cap, s, pos + 1, 0, 0, out + TopBytes(v', 4), pos + 1);
        } else {
          ScanFinds(cap, s, pos + 1, v', nb + 1, out, nsrc);
        }
      }
    }
  }

  /** With room for every group and one more, Decode refuses a text at k if and only if k is its first
      stray character, or there is none, k is the length and the last group is a single digit. */
  lemma RefusedIff(dstLen: nat, s: seq<Byte>, k: nat)
    requires Capacity(dstLen, |s|) >= 4 * After(s, |s|).groups + 4
    ensures Decode(dstLen, s, true) == Corrupt(k) <==>
      || (k < |s| && Stray(s, k) && NoStray(s, k))
      || (k == |s| && NoStray(s, |s|) && After(s, |s|).nb == 1)
  {
    ScanFinds(Capacity(dstLen, |s|), s, 0, 0, 0, [], 0);
  }

  // ─── sizing ─────────────────────────────────────────────────────────

  lemma {:induction false} LengthWithoutZeroGroups(src: seq<Byte>, k: nat)
    requires ZERO_GROUP !in Encode(src) && 4 * k <= |src|
    ensures |Encode(src)| >= 5 * k
  {
    if k == 0 {
    } else {
      var code, rest := EncodeGroup(src[..4]), Encode(src[4..]);
      assert Encode(src) == code + rest;
      assert ZERO_GROUP !in rest && ZERO_GROUP !in code;
      assert |code| == 5;
      LengthWithoutZeroGroups(src[4..], k - 1);
    }
  }

  /** Without a group of four zero bytes the automatic sizing is always enough. */
  lemma SizedWithoutZeroGroups(dstLen: nat, src: seq<Byte>)
    requires ZERO_GROUP !in Encode(src)
    ensures Decode(dstLen, Encode(src), true) == Decoded(src, |Encode(src)|)
  {
    LengthWithoutZeroGroups(src, |src| / 4);
    RoomEnough(dstLen, |Encode(src)|, |src|);
    GroupsOfEncoding(src);
    DecodeUndoesEncode(dstLen, src);
  }

  lemma RoomEnough(dstLen: nat, len: nat, n: nat)
    requires len >= 5 * (n / 4)
    ensures Capacity(dstLen, len) >= Need(n)
  {
  }

  /** With zero groups it need not be: of k groups of zeros, k / 5 + 2 come back, without an error. */
  lemma ZerosAreTruncated(src: seq<Byte>, k: nat)
    requires |src| == 4 * k && forall i :: 0 <= i < |src| ==> src[i] == 0
    ensures var r := Decode(0, Encode(src), true);
      && r.Decoded? && r.out <= src
      && |r.out| == 4 * (if k < k / 5 + 2 then k else k / 5 + 2)
      && (r.out == src <==> k <= 2)
  {
    var e := Encode(src);
    NoBlanks(src);
    EncodingVisible(e, 0);
    assert e[0..] == e;
    ZerosCode(src, k);
    RoundTrip(0, e, src);
    ZerosScan(k / 5 + 2, e, 0, []);
  }

  lemma {:induction false} ZerosScan(m: nat, e: seq<Byte>, pos: nat, out: seq<Byte>)
    requires pos <= |e| && pos <= m && |out| == 4 * pos && forall i :: 0 <= i < |e| ==> e[i] == ZERO_GROUP
    ensures var r := Scan(4 * m, e, pos, 0, 0, out, pos);
      !r.Bad? && (r.Ended? ==> r.nb == 0) && |r.out| == 4 * if |e| < m then |e| else m
    decreases |e| - pos
  {
    if pos == |e| || pos == m {
    } else {
      ZerosScan(m, e, pos + 1, out + TopBytes(0, 4));
    }
  }

  lemma {:induction false} ZerosCode(src: seq<Byte>, k: nat)
    requires |src| == 4 * k && forall i :: 0 <= i < |src| ==> src[i] == 0
    ensures |Encode(src)| == k && forall i :: 0 <= i < k ==> Encode(src)[i] == ZERO_GROUP
  {
    if k == 0 {
    } else {
      ZerosCode(src[4..], k - 1);
    }
  }
}
