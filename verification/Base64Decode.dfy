/** The base64 decoder of src/encoding/base64/base64.rs, one quantum at a time, and what it undoes. */
module Base64Decode {

  import opened Bytes
  import opened Base64

  predicate Newline(c: Byte) {
    c == LF || c == CR
  }

  /** The characters from `si` on, without CR and LF. */
  function Visible(s: seq<Byte>, si: nat): seq<Byte>
    requires si <= |s|
    decreases |s| - si
  {
    if si == |s| then [] else (if Newline(s[si]) then [] else [s[si]]) + Visible(s, si + 1)
  }

  function SkipNewlines(s: seq<Byte>, si: nat): (r: nat)
    requires si <= |s|
    ensures si <= r <= |s| && (r < |s| ==> !Newline(s[r]))
    ensures Visible(s, r) == Visible(s, si)
    decreases |s| - si
  {
    if si < |s| && Newline(s[si]) then SkipNewlines(s, si + 1) else si
  }

  // ─── one quantum ────────────────────────────────────────────────────

  /** What the digit loop of `decodeQuantum` leaves: the digits read and a trailing-garbage error,
      a refusal, or nothing because the input ended. */
  datatype Gathered =
    | Complete(si: nat, digits: seq<Digit>, err: Option<nat>)
    | Failed(si: nat, offset: nat)
    | Nothing(si: nat)

  function Gather(e: Encoding, s: seq<Byte>, si: nat, d: seq<Digit>): (g: Gathered)
    requires e.Valid() && si <= |s| && |d| <= 4 && |d| <= si
    ensures si <= g.si <= |s|
    ensures g.Complete? ==> 2 <= |g.digits| <= 4 && d <= g.digits && (g.digits != d ==> si < g.si)
    ensures g.Nothing? ==> g.si == |s|
    ensures |d| < 4 && si < |s| ==> si < g.si
    decreases |s| - si
  {
    if |d| == 4 then Complete(si, d, None)
    else if si == |s| then
      if |d| == 0 then Nothing(si)
      else if |d| == 1 || e.Padded() then Failed(si, si - |d|)
      else Complete(si, d, None)
    else if e.decodeMap[s[si]] != INVALID then Gather(e, s, si + 1, d + [e.decodeMap[s[si]]])
    else if Newline(s[si]) then Gather(e, s, si + 1, d)
    else if s[si] != e.pad then Failed(si + 1, si)
    else if |d| < 2 then Failed(si + 1, si)
    else if |d| == 2 then
      var p := SkipNewlines(s, si + 1);
      if p == |s| then Failed(p, |s|)
      else if s[p] != e.pad then Failed(p, p - 1)
      else AfterPadding(s, p + 1, d)
    else AfterPadding(s, si + 1, d)
  }

  /** Only newlines may follow the padding. */
  function AfterPadding(s: seq<Byte>, si: nat, d: seq<Digit>): Gathered
    requires si <= |s|
  {
    var q := SkipNewlines(s, si);
    Complete(q, d, if q < |s| then Some(q) else None)
  }

  datatype Quantum = Quantum(si: nat, out: seq<Byte>, err: Option<nat>)

  /** `decodeQuantum` */
  function DecodeQuantum(e: Encoding, s: seq<Byte>, si: nat): (q: Quantum)
    requires e.Valid() && si <= |s|
    ensures si <= q.si <= |s| && (si < |s| ==> si < q.si)
  {
    match Gather(e, s, si, [])
    case Nothing(end) => Quantum(end, [], None)
    case Failed(end, offset) => Quantum(end, [], Some(offset))
    case Complete(end, d, err) =>
      var v := Join(d);
      if e.strict && |d| == 3 && v % 256 != 0 then Quantum(end, [], Some(end - 1))
      else if e.strict && |d| == 2 && v % 65536 != 0 then Quantum(end, [], Some(end - 2))
      else Quantum(end, Unpack(v, |d| - 1), err)
  }

  datatype Decoded = Decoded(out: seq<Byte>, err: Option<nat>)

  /** `decode_into` as its last loop has it: quantum after quantum. */
  function DecodeFrom(e: Encoding, s: seq<Byte>, si: nat, out: seq<Byte>): Decoded
    requires e.Valid() && si <= |s|
    decreases |s| - si
  {
    if si == |s| then Decoded(out, None)
    else
      var q := DecodeQuantum(e, s, si);
      if q.err.Some? then Decoded(out + q.out, q.err) else DecodeFrom(e, s, q.si, out + q.out)
  }

  function Decode(e: Encoding, s: seq<Byte>): Decoded
    requires e.Valid()
  {
    DecodeFrom(e, s, 0, [])
  }

  // ─── reading digits ─────────────────────────────────────────────────

  /** Digits that are there are read, and nothing else is. */
  lemma {:induction false} GatherReads(e: Encoding, s: seq<Byte>, si: nat, d: seq<Digit>, more: seq<Digit>,
                                       rest: seq<Byte>)
    returns (si': nat)
    requires e.Valid() && si <= |s| && |d| + |more| <= 4 && |d| <= si
    requires Visible(s, si) == Chars(e, more) + rest
    ensures si <= si' <= |s| && |d| + |more| <= si' && Visible(s, si') == rest
    ensures Gather(e, s, si, d) == Gather(e, s, si', d + more)
    decreases |s| - si
  {
    if more == [] {
      si' := si;
      assert d + more == d;
      assert Chars(e, more) + rest == rest;
    } else {
      var c := e.alphabet[more[0]];
      assert Chars(e, more) + rest == [c] + (Chars(e, more[1..]) + rest);
      assert si < |s|;
      if Newline(s[si]) {
        si' := GatherReads(e, s, si + 1, d, more, rest);
      } else {
        assert s[si] == ([s[si]] + Visible(s, si + 1))[0] == c;
        assert Visible(s, si + 1) == ([s[si]] + Visible(s, si + 1))[1..];
        assert Visible(s, si + 1) == Chars(e, more[1..]) + rest;
        si' := GatherReads(e, s, si + 1, d + [more[0]], more[1..], rest);
        assert d + [more[0]] + more[1..] == d + more;
      }
    }
  }

  lemma {:induction false} NothingVisible(s: seq<Byte>, si: nat)
    requires si <= |s| && Visible(s, si) == []
    ensures SkipNewlines(s, si) == |s|
    decreases |s| - si
  {
    if si >= |s| {
    } else {
      NothingVisible(s, si + 1);
    }
  }

  /** At the end of the input the digits of an unpadded tail are complete. */
  lemma {:induction false} GatherEnds(e: Encoding, s: seq<Byte>, si: nat, d: seq<Digit>)
    requires e.Valid() && si <= |s| && |d| <= 3 && |d| <= si && Visible(s, si) == []
    requires |d| == 0 || (|d| >= 2 && !e.Padded())
    ensures Gather(e, s, si, d) == if |d| == 0 then Nothing(|s|) else Complete(|s|, d, None)
    decreases |s| - si
  {
    if si >= |s| {
    } else {
      GatherEnds(e, s, si + 1, d);
    }
  }

  /** A complete padding, and nothing visible after it, ends the quantum. */
  lemma {:induction false} GatherPadding(e: Encoding, s: seq<Byte>, si: nat, d: seq<Digit>)
    requires e.Valid() && si <= |s| && 2 <= |d| <= 3 && |d| <= si && e.Padded() && e.PadApart()
    requires Visible(s, si) == Padding(e, |d|)
    ensures Gather(e, s, si, d) == Complete(|s|, d, None)
    decreases |s| - si
  {
    assert Padding(e, |d|) == [e.pad] + Padding(e, |d| + 1);
    if Newline(s[si]) {
      GatherPadding(e, s, si + 1, d);
    } else {
      assert Visible(s, si) == [s[si]] + Visible(s, si + 1);
      assert s[si] == Visible(s, si)[0] == e.pad;
      assert Visible(s, si + 1) == Visible(s, si)[1..] == Padding(e, |d| + 1);
      if |d| == 2 {
        var p := SkipNewlines(s, si + 1);
        assert Padding(e, 3) == [e.pad] + Padding(e, 4) == [e.pad];
        assert p < |s| && Visible(s, p) == [s[p]] + Visible(s, p + 1);
        assert s[p] == Visible(s, p)[0] == e.pad;
        assert Visible(s, p + 1) == Visible(s, p)[1..] == [];
        NothingVisible(s, p + 1);
      } else {
        assert Padding(e, 4) == [];
        NothingVisible(s, si + 1);
      }
    }
  }

  // ─── decoding undoes encoding ───────────────────────────────────────

  /** Whole groups of three bytes. */
  predicate Tailless(src: seq<Byte>) {
    src == [] || (|src| >= 3 && Tailless(src[3..]))
  }

  lemma {:induction false} TaillessIsMultiple(src: seq<Byte>)
    ensures Tailless(src) <==> |src| % 3 == 0
  {
    if |src| < 3 {
    } else {
      TaillessIsMultiple(src[3..]);
    }
  }

  lemma EncodeEmpty(e: Encoding, src: seq<Byte>)
    requires e.Valid()
    ensures Encode(e, src) == [] <==> src == []
  {
  }

  /** The quantum that holds a whole group. */
  lemma ReadGroup(e: Encoding, s: seq<Byte>, si: nat, b: seq<Byte>, rest: seq<Byte>) returns (si': nat)
    requires e.Valid() && si < |s| && |b| == 3 && Visible(s, si) == Chars(e, Digits(b)) + rest
    ensures si < si' <= |s| && Visible(s, si') == rest && DecodeQuantum(e, s, si) == Quantum(si', b, None)
  {
    DigitsForward(b);
    si' := GatherReads(e, s, si, [], Digits(b), rest);
    assert [] + Digits(b) == Digits(b);
  }

  /** The quantum that holds the last one or two bytes. */
  lemma ReadTail(e: Encoding, s: seq<Byte>, si: nat, b: seq<Byte>)
    requires e.Valid() && si < |s| && 1 <= |b| <= 2 && e.PadApart()
    requires Visible(s, si) == Chars(e, Digits(b)) + Padding(e, |b| + 1)
    ensures DecodeQuantum(e, s, si) == Quantum(|s|, b, None)
  {
    var si' := GatherReads(e, s, si, [], Digits(b), Padding(e, |b| + 1));
    assert [] + Digits(b) == Digits(b);
    if e.Padded() { GatherPadding(e, s, si', Digits(b)); } else { GatherEnds(e, s, si', Digits(b)); }
    TailQuantum(e, s, si, b);
  }

  lemma TailQuantum(e: Encoding, s: seq<Byte>, si: nat, b: seq<Byte>)
    requires e.Valid() && si < |s| && 1 <= |b| <= 2 && Gather(e, s, si, []) == Complete(|s|, Digits(b), None)
    ensures DecodeQuantum(e, s, si) == Quantum(|s|, b, None)
  {
    DigitsForward(b);
  }

  lemma {:induction false} DecodeReads(e: Encoding, s: seq<Byte>, si: nat, out: seq<Byte>, src: seq<Byte>)
    requires e.Valid() && si <= |s| && Visible(s, si) == Encode(e, src)
    requires e.PadApart() || Tailless(src)
    ensures DecodeFrom(e, s, si, out) == Decoded(out + src, None)
    decreases |s| - si
  {
    EncodeEmpty(e, src);
    if si == |s| || src == [] {
      assert out + src == out;
      if si < |s| { GatherEnds(e, s, si, []); }
    } else if |src| < 3 {
      ReadTail(e, s, si, src);
    } else {
      var b, after := src[..3], src[3..];
      assert Padding(e, 4) == [];
      assert Group(e, b) + Encode(e, after) == Chars(e, Digits(b)) + Encode(e, after);
      var si' := ReadGroup(e, s, si, b, Encode(e, after));
      DecodeReads(e, s, si', out + b, after);
      assert out + b + after == out + src;
    }
  }

  lemma {:induction false} NoNewlines(e: Encoding, src: seq<Byte>)
    requires e.Valid()
    ensures forall c :: c in Encode(e, src) ==> !Newline(c)
  {
    if src == [] {
    } else {
      var b := if |src| < 3 then src else src[..3];
      CharsAreSymbols(e, Digits(b));
      PaddingIsPad(e, |b| + 1);
      if |src| >= 3 { NoNewlines(e, src[3..]); }
    }
  }

  lemma {:induction false} CharsAreSymbols(e: Encoding, d: seq<Digit>)
    requires e.Valid()
    ensures forall c :: c in Chars(e, d) ==> !Newline(c)
  {
    if d == [] {
    } else {
      assert e.decodeMap[e.alphabet[d[0]]] == d[0];
      CharsAreSymbols(e, d[1..]);
    }
  }

  lemma {:induction false} PaddingIsPad(e: Encoding, k: nat)
    requires e.Valid() && k <= 4
    ensures forall c :: c in Padding(e, k) ==> c == e.pad && !Newline(c)
    decreases 4 - k
  {
    if k >= 4 {
    } else {
      PaddingIsPad(e, k + 1);
    }
  }

  lemma {:induction false} AllVisible(s: seq<Byte>, si: nat)
    requires si <= |s| && forall c :: c in s ==> !Newline(c)
    ensures Visible(s, si) == s[si..]
    decreases |s| - si
  {
    if si >= |s| {
    } else {
      AllVisible(s, si + 1);
    }
  }

  lemma EncodingIsVisible(e: Encoding, src: seq<Byte>)
    requires e.Valid()
    ensures Visible(Encode(e, src), 0) == Encode(e, src)
  {
    NoNewlines(e, src);
    AllVisible(Encode(e, src), 0);
  }

  /** An encoding whose padding is also a symbol writes a tail that is the code of a longer input. */
  lemma {:induction false} Confused(e: Encoding, src: seq<Byte>) returns (longer: seq<Byte>)
    requires e.Valid() && !e.PadApart() && !Tailless(src)
    ensures Tailless(longer) && |longer| > |src| && Encode(e, longer) == Encode(e, src)
  {
    if |src| >= 3 {
      var rest := Confused(e, src[3..]);
      longer := src[..3] + rest;
      assert longer[3..] == rest && longer[..3] == src[..3];
    } else {
      var p: Digit := e.decodeMap[e.pad];
      var d: seq<Digit> := Digits(src) + seq(3 - |src|, i => p);
      longer := Unpack(Join(d), 3);
      DigitsBackward(d);
      ConfusedTail(e, Digits(src), p);
      assert longer[..3] == longer && longer[3..] == [];
      assert Padding(e, 4) == [];
    }
  }

  /** NewEncoding builds such an encoding: the sixty-four characters from `(` to `g`, which include
      the padding `=`.  One byte does not survive it. */
  method ConfusedEncoding(src: seq<Byte>) returns (e: Encoding)
    ensures e.Valid() && !e.PadApart() && e.alphabet == seq(64, i => i + 40)
    ensures |src| == 1 ==> Decode(e, Encode(e, src)) != Decoded(src, None)
  {
    var a: seq<Byte> := seq(64, i => i + 40);
    var r := NewEncoding(a);
    e := r.value;
    assert a[21] == STD_PADDING;
    RoundTrip(e, src);
  }

  lemma {:induction false} ConfusedTail(e: Encoding, d: seq<Digit>, p: Digit)
    requires e.Valid() && e.Padded() && e.alphabet[p] == e.pad && 2 <= |d| <= 3
    ensures Chars(e, d + seq(4 - |d|, i => p)) == Chars(e, d) + Padding(e, |d|)
  {
    CharsAppend(e, d, seq(4 - |d|, i => p));
    assert Padding(e, 4) == [] && Padding(e, 3) == [e.pad] + Padding(e, 4);
    var one: seq<Digit> := seq(1, i => p);
    if |d| == 2 {
      var two: seq<Digit> := seq(2, i => p);
      assert two[1..] == one && one[1..] == [];
      assert Padding(e, 2) == [e.pad] + Padding(e, 3);
    } else {
      assert one[1..] == [];
    }
  }

  lemma {:induction false} CharsAppend(e: Encoding, d: seq<Digit>, f: seq<Digit>)
    requires e.Valid()
    ensures Chars(e, d + f) == Chars(e, d) + Chars(e, f)
  {
    if d == [] {
      assert d + f == f;
    } else {
      assert (d + f)[1..] == d[1..] + f;
      CharsAppend(e, d[1..], f);
    }
  }

  /** For every alphabet and padding, decoding undoes encoding exactly when the padding character
      is not a symbol of the alphabet or there is nothing to pad. */
  lemma RoundTrip(e: Encoding, src: seq<Byte>)
    requires e.Valid()
    ensures Decode(e, Encode(e, src)) == Decoded(src, None) <==> e.PadApart() || |src| % 3 == 0
  {
    var s := Encode(e, src);
    TaillessIsMultiple(src);
    EncodingIsVisible(e, src);
    if e.PadApart() || Tailless(src) {
      DecodeReads(e, s, 0, [], src);
      assert [] + src == src;
    } else {
      var longer := Confused(e, src);
      DecodeReads(e, s, 0, [], longer);
      assert [] + longer == longer;
    }
  }

  // ─── strict decoding is canonical ───────────────────────────────────

  /** What a completed digit loop that started with the digits d says about the input. */
  predicate Explains(e: Encoding, s: seq<Byte>, si: nat, d: seq<Digit>, g: Gathered)
    requires e.Valid() && si <= |s|
  {
    && g.Complete? && d <= g.digits && |g.digits| <= 4 && g.si <= |s|
    && (|g.digits| == 4 ==> Visible(s, si) == Chars(e, g.digits[|d|..]) + Visible(s, g.si))
    && (|g.digits| < 4 && g.err.None? ==>
          g.si == |s| && Visible(s, si) == Chars(e, g.digits[|d|..]) + Padding(e, |g.digits|))
  }

  lemma {:induction false} GatherInverse(e: Encoding, s: seq<Byte>, si: nat, d: seq<Digit>)
    requires e.Valid() && si <= |s| && |d| <= 4 && |d| <= si && Gather(e, s, si, d).Complete?
    ensures Explains(e, s, si, d, Gather(e, s, si, d))
    decreases |s| - si
  {
    var g := Gather(e, s, si, d);
    if |d| == 4 || si == |s| {
      GatherStops(e, s, si, d);
    } else if e.decodeMap[s[si]] != INVALID {
      GatherInverse(e, s, si + 1, d + [e.decodeMap[s[si]]]);
      OneMoreDigit(e, s, si, d, e.decodeMap[s[si]], g);
    } else if Newline(s[si]) {
      GatherInverse(e, s, si + 1, d);
    } else {
      GatherPads(e, s, si, d);
    }
  }

  lemma GatherStops(e: Encoding, s: seq<Byte>, si: nat, d: seq<Digit>)
    requires e.Valid() && si <= |s| && |d| <= 4 && |d| <= si && Gather(e, s, si, d).Complete? && (|d| == 4 || si == |s|)
    ensures Explains(e, s, si, d, Gather(e, s, si, d))
  {
    assert d[|d|..] == [];
  }

  lemma GatherPads(e: Encoding, s: seq<Byte>, si: nat, d: seq<Digit>)
    requires e.Valid() && si < |s| && |d| < 4 && |d| <= si && Gather(e, s, si, d).Complete?
    requires e.decodeMap[s[si]] == INVALID && !Newline(s[si])
    ensures Explains(e, s, si, d, Gather(e, s, si, d))
  {
    assert d[|d|..] == [];
    if Gather(e, s, si, d).err.None? { PaddingEnds(e, s, si, d); }
  }

  lemma OneMoreDigit(e: Encoding, s: seq<Byte>, si: nat, d: seq<Digit>, x: Digit, g: Gathered)
    requires e.Valid() && si < |s| && e.decodeMap[s[si]] == x && Explains(e, s, si + 1, d + [x], g)
    ensures Explains(e, s, si, d, g)
  {
    var ds, rest := g.digits[|d|..], g.digits[|d + [x]|..];
    assert g.digits[|d|] == (d + [x])[|d|] == x;
    assert ds == [x] + rest;
    CharsCons(e, x, rest);
    assert Visible(s, si) == [e.alphabet[x]] + Visible(s, si + 1);
    Regroup(e.alphabet[x], Chars(e, rest), Visible(s, g.si));
    Regroup(e.alphabet[x], Chars(e, rest), Padding(e, |g.digits|));
  }

  lemma CharsCons(e: Encoding, x: Digit, rest: seq<Digit>)
    requires e.Valid()
    ensures Chars(e, [x] + rest) == [e.alphabet[x]] + Chars(e, rest)
  {
    assert ([x] + rest)[1..] == rest;
  }

  lemma Regroup(c: Byte, a: seq<Byte>, b: seq<Byte>)
    ensures [c] + a + b == [c] + (a + b)
  {
  }

  lemma PaddingEnds(e: Encoding, s: seq<Byte>, si: nat, d: seq<Digit>)
    requires e.Valid() && si < |s| && 2 <= |d| <= 3 && |d| <= si && s[si] == e.pad
    requires e.decodeMap[s[si]] == INVALID && !Newline(s[si])
    requires Gather(e, s, si, d).Complete? && Gather(e, s, si, d).err.None?
    ensures Gather(e, s, si, d).si == |s| && Visible(s, si) == Padding(e, |d|)
  {
    assert Padding(e, 4) == [] && Padding(e, 3) == [e.pad] + Padding(e, 4);
    assert Visible(s, |s|) == [];
    assert Visible(s, si) == [e.pad as Byte] + Visible(s, si + 1);
    if |d| == 2 {
      assert Padding(e, 2) == [e.pad] + Padding(e, 3);
      SecondPadding(e, s, si, d);
    }
  }

  lemma SecondPadding(e: Encoding, s: seq<Byte>, si: nat, d: seq<Digit>)
    requires e.Valid() && si < |s| && |d| == 2 <= si && s[si] == e.pad
    requires e.decodeMap[s[si]] == INVALID && !Newline(s[si])
    requires Gather(e, s, si, d).Complete? && Gather(e, s, si, d).err.None?
    ensures Gather(e, s, si, d).si == |s| && Visible(s, si + 1) == [e.pad]
  {
    var p := SkipNewlines(s, si + 1);
    assert Visible(s, p) == [s[p]] + Visible(s, p + 1);
    assert Visible(s, |s|) == [];
  }

  /** A strict quantum without an error is the code of its bytes. */
  lemma StrictQuantum(e: Encoding, s: seq<Byte>, si: nat)
    requires e.Valid() && e.strict && si < |s| && DecodeQuantum(e, s, si).err.None?
    ensures var q := DecodeQuantum(e, s, si);
      && (q.out == [] ==> q.si == |s| && Visible(s, si) == [])
      && (1 <= |q.out| <= 2 ==> q.si == |s| && Visible(s, si) == Group(e, q.out))
      && (|q.out| >= 3 ==> |q.out| == 3 && Visible(s, si) == Group(e, q.out) + Visible(s, q.si))
  {
    var g := Gather(e, s, si, []);
    if g.Nothing? {
      NothingGathered(e, s, si);
    } else if g.Complete? {
      GatherInverse(e, s, si, []);
      assert g.digits[0..] == g.digits;
      var n := |g.digits| - 1;
      assert TailClear(Join(g.digits), n);
      DigitsBackward(g.digits);
      if n == 3 { assert Padding(e, 4) == []; }
    }
  }

  lemma {:induction false} NothingGathered(e: Encoding, s: seq<Byte>, si: nat)
    requires e.Valid() && si <= |s| && Gather(e, s, si, []).Nothing?
    ensures Visible(s, si) == []
    decreases |s| - si
  {
    if si >= |s| {
    } else {
      if e.decodeMap[s[si]] != INVALID {
        NotNothing(e, s, si + 1, [] + [e.decodeMap[s[si]]]);
      } else if Newline(s[si]) {
        NothingGathered(e, s, si + 1);
      }
    }
  }

  lemma {:induction false} NotNothing(e: Encoding, s: seq<Byte>, si: nat, d: seq<Digit>)
    requires e.Valid() && si <= |s| && 1 <= |d| <= 4 && |d| <= si
    ensures !Gather(e, s, si, d).Nothing?
    decreases |s| - si
  {
    if |d| >= 4 || si >= |s| {
    } else {
      if e.decodeMap[s[si]] != INVALID {
        NotNothing(e, s, si + 1, d + [e.decodeMap[s[si]]]);
      } else if Newline(s[si]) {
        NotNothing(e, s, si + 1, d);
      }
    }
  }

  lemma {:induction false} StrictReads(e: Encoding, s: seq<Byte>, si: nat, out: seq<Byte>)
    requires e.Valid() && e.strict && si <= |s| && DecodeFrom(e, s, si, out).err.None?
    ensures var r := DecodeFrom(e, s, si, out).out;
      out <= r && Visible(s, si) == Encode(e, r[|out|..])
    decreases |s| - si
  {
    var r := DecodeFrom(e, s, si, out).out;
    if si == |s| {
      assert r[|out|..] == [];
    } else {
      var q := DecodeQuantum(e, s, si);
      StrictQuantum(e, s, si);
      StrictReads(e, s, q.si, out + q.out);
      if |q.out| < 3 {
        assert r == out + q.out;
        assert r[|out|..] == q.out;
      } else {
        assert r[|out|..][..3] == q.out && r[|out|..][3..] == r[|out + q.out|..];
      }
    }
  }

  /** In strict mode, every accepted string without its CRs and LFs is the encoding of what it
      decodes to.  With the padding outside the alphabet, strict decoding accepts nothing else:
      it is the inverse of encoding. */
  lemma StrictIsCanonical(e: Encoding, s: seq<Byte>, b: seq<Byte>)
    requires e.Valid() && e.strict
    ensures Decode(e, s) == Decoded(b, None) ==> Visible(s, 0) == Encode(e, b)
    ensures e.PadApart() && Visible(s, 0) == Encode(e, b) ==> Decode(e, s) == Decoded(b, None)
  {
    if Decode(e, s) == Decoded(b, None) {
      StrictReads(e, s, 0, []);
      assert b[0..] == b;
    }
    if e.PadApart() && Visible(s, 0) == Encode(e, b) {
      DecodeReads(e, s, 0, [], b);
      assert [] + b == b;
    }
  }
}
