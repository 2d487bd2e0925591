/** The loops of src/encoding/base64/base64.rs: encoding and decoding in place, with the fast paths
    over eight and four symbols. */
module Base64Code {

  import opened Bytes
  import opened Base64
  import opened Base64Decode

  // ─── lengths ────────────────────────────────────────────────────────

  function EncodedLen(e: Encoding, n: nat): nat {
    if e.Padded() then (n + 2) / 3 * 4 else (n * 8 + 5) / 6
  }

  function DecodedLen(e: Encoding, n: nat): nat {
    if e.Padded() then n / 4 * 3 else n * 6 / 8
  }

  lemma {:induction false} PaddingLen(e: Encoding, k: nat)
    requires e.Valid() && k <= 4
    ensures |Padding(e, k)| == if e.Padded() then 4 - k else 0
    decreases 4 - k
  {
    if k >= 4 {
    } else {
      PaddingLen(e, k + 1);
    }
  }

  /** `EncodedLen` is the length of the encoding. */
  lemma {:induction false} EncodedLenIsExact(e: Encoding, src: seq<Byte>)
    requires e.Valid()
    ensures |Encode(e, src)| == EncodedLen(e, |src|)
  {
    if src == [] {
    } else {
      var b := if |src| < 3 then src else src[..3];
      PaddingLen(e, |b| + 1);
      if |src| >= 3 {
        EncodedLenIsExact(e, src[3..]);
        EncodedLenStep(e, |src| - 3);
      }
    }
  }

  lemma EncodedLenStep(e: Encoding, n: nat)
    ensures EncodedLen(e, n + 3) == EncodedLen(e, n) + 4
  {
  }

  // ─── encoding in place ──────────────────────────────────────────────

  lemma {:induction false} EncodeAppend(e: Encoding, a: seq<Byte>, b: seq<Byte>)
    requires e.Valid() && Tailless(a)
    ensures Encode(e, a + b) == Encode(e, a) + Encode(e, b)
  {
    if a == [] {
      assert a + b == b;
    } else {
      assert (a + b)[..3] == a[..3] && (a + b)[3..] == a[3..] + b;
      EncodeAppend(e, a[3..], b);
    }
  }

  lemma {:induction false} TaillessAppend(a: seq<Byte>, b: seq<Byte>)
    requires Tailless(a) && Tailless(b)
    ensures Tailless(a + b)
  {
    if a == [] {
      assert a + b == b;
    } else {
      assert (a + b)[3..] == a[3..] + b;
      TaillessAppend(a[3..], b);
    }
  }

  /** One more group behind whole groups. */
  lemma GroupAppended(e: Encoding, done: seq<Byte>, b: seq<Byte>)
    requires e.Valid() && Tailless(done) && 1 <= |b| <= 3
    ensures Encode(e, done + b) == Encode(e, done) + Group(e, b)
    ensures |b| == 3 ==> Tailless(done + b)
  {
    EncodeAppend(e, done, b);
    if |b| == 3 {
      assert b[..3] == b && b[3..] == [] && Encode(e, []) == [];
      TaillessAppend(done, b);
    }
  }

  /** `encode_into` */
  method EncodeInto(e: Encoding, dst: array<Byte>, src: seq<Byte>)
    requires e.Valid() && dst.Length >= EncodedLen(e, |src|)
    modifies dst
    ensures dst[..EncodedLen(e, |src|)] == Encode(e, src)
  {
    EncodedLenIsExact(e, src);
    var n := EncodeGroups(e, dst, src);
  }

  method EncodeGroups(e: Encoding, dst: array<Byte>, src: seq<Byte>) returns (n: nat)
    requires e.Valid() && dst.Length >= |Encode(e, src)|
    modifies dst
    ensures n <= dst.Length && dst[..n] == Encode(e, src)
  {
    n := 0;
    var rest := src;
    ghost var done: seq<Byte> := [];
    while |rest| >= 3
      invariant src == done + rest && Tailless(done) && n <= dst.Length && dst[..n] == Encode(e, done)
      decreases |rest|
    {
      RoomForGroup(e, done, rest, rest[..3]);
      MoveFront(done, rest, 3);
      n := PutGroup(e, dst, n, rest[..3], done);
      done, rest := done + rest[..3], rest[3..];
    }
    if rest != [] {
      RoomForGroup(e, done, rest, rest);
      n := PutGroup(e, dst, n, rest, done);
    } else {
      assert done == src;
    }
  }

  lemma RoomForGroup(e: Encoding, done: seq<Byte>, rest: seq<Byte>, b: seq<Byte>)
    requires e.Valid() && Tailless(done) && rest != [] && b == if |rest| < 3 then rest else rest[..3]
    ensures |Encode(e, done)| + |Group(e, b)| <= |Encode(e, done + rest)|
    ensures |b| == 3 ==> Tailless(done + b)
  {
    EncodeAppend(e, done, rest);
    GroupAppended(e, done, b);
  }

  /** One group behind the code of the whole groups in `done`. */
  method PutGroup(e: Encoding, dst: array<Byte>, at: nat, b: seq<Byte>, ghost done: seq<Byte>) returns (n: nat)
    requires e.Valid() && Tailless(done) && 1 <= |b| <= 3
    requires at + |Group(e, b)| <= dst.Length && dst[..at] == Encode(e, done)
    modifies dst
    ensures n <= dst.Length && dst[..n] == Encode(e, done + b)
  {
    GroupAppended(e, done, b);
    n := PutChars(e, dst, at, Digits(b));
    n := PutPadding(e, dst, n, |b| + 1);
  }

  method PutChars(e: Encoding, dst: array<Byte>, at: nat, d: seq<Digit>) returns (n: nat)
    requires e.Valid() && at + |d| <= dst.Length
    modifies dst
    ensures n == at + |d| && dst[..n] == old(dst[..at]) + Chars(e, d)
  {
    ghost var before := dst[..at];
    n := at;
    var i := 0;
    while i < |d|
      invariant 0 <= i <= |d| && n == at + i && dst[..n] == before + Chars(e, d[..i])
    {
      dst[n] := e.alphabet[d[i]];
      assert d[..i + 1] == d[..i] + [d[i]];
      CharsAppend(e, d[..i], [d[i]]);
      assert Chars(e, [d[i]]) == [e.alphabet[d[i]]];
      n, i := n + 1, i + 1;
    }
    assert d[..i] == d;
  }

  method PutPadding(e: Encoding, dst: array<Byte>, at: nat, k: nat) returns (n: nat)
    requires e.Valid() && k <= 4 && at + |Padding(e, k)| <= dst.Length
    modifies dst
    ensures n == at + |Padding(e, k)| && dst[..n] == old(dst[..at]) + Padding(e, k)
    decreases 4 - k
  {
    n := at;
    if e.Padded() && k < 4 {
      assert Padding(e, k) == [e.pad] + Padding(e, k + 1);
      dst[at] := e.pad;
      n := PutPadding(e, dst, at + 1, k + 1);
    }
  }

  // ─── decoding in place ──────────────────────────────────────────────

  method SkipLineEnds(s: seq<Byte>, si: nat) returns (r: nat)
    requires si <= |s|
    ensures r == SkipNewlines(s, si)
  {
    r := si;
    while r < |s| && Newline(s[r])
      invariant si <= r <= |s| && SkipNewlines(s, r) == SkipNewlines(s, si)
    {
      r := r + 1;
    }
  }

  /** The digit loop of `decodeQuantum`. */
  method GatherDigits(e: Encoding, s: seq<Byte>, si0: nat) returns (g: Gathered)
    requires e.Valid() && si0 <= |s|
    ensures g == Gather(e, s, si0, [])
  {
    var si := si0;
    var d: seq<Digit> := [];
    while |d| < 4
      invariant si0 <= si <= |s| && |d| <= 4 && |d| <= si
      invariant Gather(e, s, si, d) == Gather(e, s, si0, [])
      decreases |s| - si, 4 - |d|
    {
      if si == |s| {
        if |d| == 0 { return Nothing(si); }
        if |d| == 1 || e.Padded() { return Failed(si, si - |d|); }
        return Complete(si, d, None);
      }
      var c := s[si];
      si := si + 1;
      if e.decodeMap[c] != INVALID {
        d := d + [e.decodeMap[c]];
        continue;
      }
      if Newline(c) { continue; }
      g := ReadPadding(e, s, si - 1, d);
      return;
    }
    g := Complete(si, d, None);
  }

  /** A character that is neither a symbol nor a line end: padding in its place, or corrupt input. */
  method ReadPadding(e: Encoding, s: seq<Byte>, at: nat, d: seq<Digit>) returns (g: Gathered)
    requires e.Valid() && at < |s| && |d| < 4 && |d| <= at && e.decodeMap[s[at]] == INVALID && !Newline(s[at])
    ensures g == Gather(e, s, at, d)
  {
    var si := at + 1;
    if s[at] != e.pad { return Failed(si, at); }
    if |d| < 2 { return Failed(si, at); }
    if |d| == 2 {
      si := SkipLineEnds(s, si);
      if si == |s| { return Failed(si, |s|); }
      if s[si] != e.pad { return Failed(si, si - 1); }
      si := si + 1;
    }
    si := SkipLineEnds(s, si);
    g := Complete(si, d, if si < |s| then Some(si) else None);
  }

  /** How much input a quantum takes for the digits it delivers. */
  lemma {:induction false} GatherConsumes(e: Encoding, s: seq<Byte>, si: nat, d: seq<Digit>)
    requires e.Valid() && si <= |s| && |d| <= 4 && |d| <= si && Gather(e, s, si, d).Complete?
    ensures var g := Gather(e, s, si, d);
      && g.si - si >= |g.digits| - |d|
      && (e.Padded() ==> g.si - si >= 4 - |d|)
    decreases |s| - si
  {
    if |d| >= 4 || si >= |s| {
    } else {
      if e.decodeMap[s[si]] != INVALID {
        GatherConsumes(e, s, si + 1, d + [e.decodeMap[s[si]]]);
      } else if Newline(s[si]) {
        GatherConsumes(e, s, si + 1, d);
      }
    }
  }

  /** What a quantum delivers and what the rest can still deliver fit in `DecodedLen`. */
  lemma QuantumFits(e: Encoding, s: seq<Byte>, si: nat)
    requires e.Valid() && si <= |s|
    ensures var q := DecodeQuantum(e, s, si);
      |q.out| + (if q.err.None? then DecodedLen(e, |s| - q.si) else 0) <= DecodedLen(e, |s| - si)
  {
    var g := Gather(e, s, si, []);
    if g.Complete? {
      GatherConsumes(e, s, si, []);
      LengthsFit(e, |s| - si, |s| - g.si, |g.digits|);
      if |g.digits| < 4 && g.err.None? { GatherInverse(e, s, si, []); }
    }
  }

  lemma LengthsFit(e: Encoding, k: nat, k': nat, digits: nat)
    requires 2 <= digits <= 4 && k >= k' + digits && (e.Padded() ==> k >= k' + 4)
    ensures digits - 1 <= DecodedLen(e, k)
    ensures digits == 4 || k' == 0 ==> digits - 1 + DecodedLen(e, k') <= DecodedLen(e, k)
    ensures DecodedLen(e, k') <= DecodedLen(e, k)
  {
  }

  /** `DecodedLen` is the maximum: some text of that length decodes to so many bytes. */
  lemma DecodedLenReached(e: Encoding, n: nat) returns (s: seq<Byte>)
    requires e.Valid()
    ensures |s| == n && Decode(e, s).err.None? && |Decode(e, s).out| == DecodedLen(e, n)
  {
    var src: seq<Byte> := seq(DecodedLen(e, n), i => 0);
    var t := Encode(e, src);
    EncodedLenIsExact(e, src);
    CodeFits(e, n, |src|);
    s := t + seq(n - |t|, i => LF);
    EncodingIsVisible(e, src);
    NewlinesBehind(t, n - |t|, 0);
    TaillessIsMultiple(src);
    DecodeReads(e, s, 0, [], src);
    assert [] + src == src;
  }

  lemma CodeFits(e: Encoding, n: nat, m: nat)
    requires e.Valid() && m == DecodedLen(e, n)
    ensures EncodedLen(e, m) <= n && (e.PadApart() || m % 3 == 0)
  {
  }

  lemma {:induction false} NewlinesBehind(t: seq<Byte>, k: nat, si: nat)
    requires si <= |t| + k
    ensures Visible(t + seq(k, i => LF), si) == if si <= |t| then Visible(t, si) else []
    decreases |t| + k - si
  {
    var s := t + seq(k, i => LF);
    if si == |s| {
    } else {
      NewlinesBehind(t, k, si + 1);
    }
  }

  method Put(dst: array<Byte>, at: nat, b: seq<Byte>)
    requires at + |b| <= dst.Length
    modifies dst
    ensures dst[..at + |b|] == old(dst[..at]) + b
  {
    ghost var before := dst[..at];
    var i := 0;
    while i < |b|
      invariant 0 <= i <= |b| && dst[..at + i] == before + b[..i]
    {
      dst[at + i] := b[i];
      i := i + 1;
    }
  }

  /** `decodeQuantum`, writing at `n`. */
  method QuantumInto(e: Encoding, dst: array<Byte>, n: nat, s: seq<Byte>, si: nat) returns (q: Quantum)
    requires e.Valid() && si <= |s| && n + DecodedLen(e, |s| - si) <= dst.Length
    modifies dst
    ensures q == DecodeQuantum(e, s, si)
    ensures n + |q.out| + (if q.err.None? then DecodedLen(e, |s| - q.si) else 0) <= dst.Length
    ensures dst[..n + |q.out|] == old(dst[..n]) + q.out
  {
    QuantumFits(e, s, si);
    var g := GatherDigits(e, s, si);
    match g {
      case Nothing(end) => return Quantum(end, [], None);
      case Failed(end, offset) => return Quantum(end, [], Some(offset));
      case Complete(end, d, err) =>
        var v := Join(d);
        if e.strict && |d| == 3 && v % 256 != 0 { return Quantum(end, [], Some(end - 1)); }
        if e.strict && |d| == 2 && v % 65536 != 0 { return Quantum(end, [], Some(end - 2)); }
        Put(dst, n, Unpack(v, |d| - 1));
        return Quantum(end, Unpack(v, |d| - 1), err);
    }
  }

  /** Four symbols of the alphabet in a row. */
  predicate Clean(e: Encoding, s: seq<Byte>, si: nat)
    requires e.Valid()
  {
    && si + 4 <= |s|
    && e.decodeMap[s[si]] != INVALID && e.decodeMap[s[si + 1]] != INVALID
    && e.decodeMap[s[si + 2]] != INVALID && e.decodeMap[s[si + 3]] != INVALID
  }

  /** The digits `assemble32` joins. */
  function Quad(e: Encoding, s: seq<Byte>, si: nat): (d: seq<Digit>)
    requires e.Valid() && Clean(e, s, si)
    ensures |d| == 4
  {
    [e.decodeMap[s[si]], e.decodeMap[s[si + 1]], e.decodeMap[s[si + 2]], e.decodeMap[s[si + 3]]]
  }

  /** The fast path does what a quantum does. */
  lemma FastQuantum(e: Encoding, s: seq<Byte>, si: nat)
    requires e.Valid() && Clean(e, s, si)
    ensures DecodeQuantum(e, s, si) == Quantum(si + 4, Unpack(Join(Quad(e, s, si)), 3), None)
  {
    var d := Quad(e, s, si);
    assert Gather(e, s, si, []) == Gather(e, s, si + 1, [d[0]]) by { assert [] + [d[0]] == [d[0]]; }
    assert Gather(e, s, si + 1, [d[0]]) == Gather(e, s, si + 2, [d[0], d[1]]) by {
      assert [d[0]] + [d[1]] == [d[0], d[1]];
    }
    assert Gather(e, s, si + 2, [d[0], d[1]]) == Gather(e, s, si + 3, [d[0], d[1], d[2]]) by {
      assert [d[0], d[1]] + [d[2]] == [d[0], d[1], d[2]];
    }
    assert Gather(e, s, si + 3, [d[0], d[1], d[2]]) == Gather(e, s, si + 4, d) by {
      assert [d[0], d[1], d[2]] + [d[3]] == d;
    }
  }

  /** Where the loops stand: what is decoded, and room for the rest. */
  ghost predicate AtQuantum(e: Encoding, s: seq<Byte>, si: nat, dst: array<Byte>, n: nat)
    requires e.Valid()
    reads dst
  {
    && si <= |s| && n + DecodedLen(e, |s| - si) <= dst.Length
    && DecodeFrom(e, s, si, dst[..n]) == Decode(e, s)
  }

  /** `decode_into`: eight symbols at a time, then four, then by quantum; each fast loop falls back
      to a quantum.  The result is that of decoding by quanta alone. */
  method DecodeInto(e: Encoding, dst: array<Byte>, s: seq<Byte>) returns (n: nat, err: Option<nat>)
    requires e.Valid() && dst.Length >= DecodedLen(e, |s|)
    modifies dst
    ensures n <= dst.Length && Decoded(dst[..n], err) == Decode(e, s)
  {
    n, err := 0, None;
    var si := 0;
    assert dst[..0] == [];
    while |s| - si >= 8 && dst.Length - n >= 8
      invariant AtQuantum(e, s, si, dst, n)
      decreases |s| - si
    {
      if Clean(e, s, si) && Clean(e, s, si + 4) {
        FastEight(e, dst, n, s, si);
        n, si := n + 6, si + 8;
      } else {
        var failed;
        n, si, failed := OneQuantum(e, dst, n, s, si);
        if failed.Some? { return n, failed; }
      }
    }
    n, err := DecodeTail(e, dst, n, s, si);
  }

  /** The second and third loops: four characters at a time, then one quantum at a time. */
  method DecodeTail(e: Encoding, dst: array<Byte>, start: nat, s: seq<Byte>, from: nat)
    returns (n: nat, err: Option<nat>)
    requires e.Valid() && start <= dst.Length && AtQuantum(e, s, from, dst, start)
    modifies dst
    ensures n <= dst.Length && Decoded(dst[..n], err) == Decode(e, s)
  {
    var si := from;
    n, err := start, None;
    while |s| - si >= 4 && dst.Length - n >= 4
      invariant AtQuantum(e, s, si, dst, n)
      decreases |s| - si
    {
      if Clean(e, s, si) {
        FastFour(e, dst, n, s, si);
        n, si := n + 3, si + 4;
      } else {
        var failed;
        n, si, failed := OneQuantum(e, dst, n, s, si);
        if failed.Some? { return n, failed; }
      }
    }
    while si < |s|
      invariant AtQuantum(e, s, si, dst, n)
      decreases |s| - si
    {
      var failed;
      n, si, failed := OneQuantum(e, dst, n, s, si);
      if failed.Some? { return n, failed; }
    }
  }

  method FastEight(e: Encoding, dst: array<Byte>, n: nat, s: seq<Byte>, si: nat)
    requires e.Valid() && AtQuantum(e, s, si, dst, n) && n + 8 <= dst.Length
    requires Clean(e, s, si) && Clean(e, s, si + 4)
    modifies dst
    ensures AtQuantum(e, s, si + 8, dst, n + 6)
  {
    FastTwice(e, s, si, dst[..n]);
    FastQuantum(e, s, si);
    FastQuantum(e, s, si + 4);
    QuantumFits(e, s, si);
    QuantumFits(e, s, si + 4);
    Put8(dst, n, Unpack(Join(Quad(e, s, si)), 3) + Unpack(Join(Quad(e, s, si + 4)), 3));
  }

  method FastFour(e: Encoding, dst: array<Byte>, n: nat, s: seq<Byte>, si: nat)
    requires e.Valid() && AtQuantum(e, s, si, dst, n) && n + 4 <= dst.Length && Clean(e, s, si)
    modifies dst
    ensures AtQuantum(e, s, si + 4, dst, n + 3)
  {
    FastQuantum(e, s, si);
    QuantumFits(e, s, si);
    Put4(dst, n, Unpack(Join(Quad(e, s, si)), 3));
  }

  lemma FastTwice(e: Encoding, s: seq<Byte>, si: nat, out: seq<Byte>)
    requires e.Valid() && Clean(e, s, si) && Clean(e, s, si + 4)
    ensures DecodeFrom(e, s, si, out)
         == DecodeFrom(e, s, si + 8, out + (Unpack(Join(Quad(e, s, si)), 3) + Unpack(Join(Quad(e, s, si + 4)), 3)))
  {
    FastQuantum(e, s, si);
    FastQuantum(e, s, si + 4);
    var b, c := Unpack(Join(Quad(e, s, si)), 3), Unpack(Join(Quad(e, s, si + 4)), 3);
    assert out + b + c == out + (b + c);
  }

  /** The big-endian word of six bytes and two bytes that will be overwritten. */
  method Put8(dst: array<Byte>, n: nat, b: seq<Byte>)
    requires |b| == 6 && n + 8 <= dst.Length
    modifies dst
    ensures dst[..n + 6] == old(dst[..n]) + b
  {
    Put(dst, n, b + [0, 0]);
    assert dst[..n + 6] == dst[..n + 8][..n + 6];
  }

  method Put4(dst: array<Byte>, n: nat, b: seq<Byte>)
    requires |b| == 3 && n + 4 <= dst.Length
    modifies dst
    ensures dst[..n + 3] == old(dst[..n]) + b
  {
    Put(dst, n, b + [0]);
    assert dst[..n + 3] == dst[..n + 4][..n + 3];
  }

  /** One turn of the last loop, and the fallback of the other two. */
  method OneQuantum(e: Encoding, dst: array<Byte>, n: nat, s: seq<Byte>, si: nat)
    returns (n': nat, si': nat, err: Option<nat>)
    requires e.Valid() && si < |s| && AtQuantum(e, s, si, dst, n)
    modifies dst
    ensures n' <= dst.Length
    ensures err.None? ==> si < si' && AtQuantum(e, s, si', dst, n')
    ensures err.Some? ==> Decoded(dst[..n'], err) == Decode(e, s)
  {
    var q := QuantumInto(e, dst, n, s, si);
    n', si', err := n + |q.out|, q.si, q.err;
  }
}
