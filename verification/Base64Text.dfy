/** What `Decode` of src/encoding/base64/base64.rs makes of every text, told from the text, the
    alphabet and place values: which texts are accepted, what they mean, and which error and how many
    bytes a refused one gives. */
module Base64Text {

  import opened Arithmetic
  import opened Bytes
  import opened Base64
  import opened Base64Decode

  // ─── place values ───────────────────────────────────────────────────

  function Value64(d: seq<Digit>): nat {
    if d == [] then 0 else Value64(d[..|d| - 1]) * 64 + d[|d| - 1]
  }

  function Value256(b: seq<Byte>): nat {
    if b == [] then 0 else Value256(b[..|b| - 1]) * 256 + b[|b| - 1]
  }

  /** The digits of the last group, if it is not whole. */
  function Last(d: seq<Digit>): (t: seq<Digit>)
    ensures |t| < 4
  {
    if |d| < 4 then d else Last(d[4..])
  }

  lemma {:induction false} LastLength(d: seq<Digit>)
    ensures |Last(d)| == |d| % 4
  {
    if |d| < 4 {
    } else {
      LastLength(d[4..]);
    }
  }

  /** The bits that do not fill a byte: four of two digits, two of three. */
  function Spare(t: seq<Digit>): nat {
    if |t| == 2 then 4 else if |t| == 3 then 2 else 0
  }

  /** The bytes are the first bits of the digits, as many as there are whole bytes of them. */
  predicate Carries(b: seq<Byte>, d: seq<Digit>) {
    8 * |b| + Spare(Last(d)) == 6 * |d| && Value256(b) == Value64(d) / Pow2(Spare(Last(d)))
  }

  /** The bits that do not fill a byte are zero. */
  predicate Clear(d: seq<Digit>) {
    Value64(d) % Pow2(Spare(Last(d))) == 0
  }

  lemma {:induction false} Value64Append(a: seq<Digit>, b: seq<Digit>)
    ensures Value64(a + b) == Value64(a) * Pow2(6 * |b|) + Value64(b)
  {
    if b == [] {
      assert a + b == a;
    } else {
      var c, x := b[..|b| - 1], b[|b| - 1];
      assert (a + b)[..|a + b| - 1] == a + c;
      Value64Append(a, c);
      Pow2Add(6, 6 * |c|);
      assert Pow2(6) == 64;
      Shifted(Value64(a), Pow2(6 * |c|), 64, Value64(c));
    }
  }

  lemma {:induction false} Value256Append(a: seq<Byte>, b: seq<Byte>)
    ensures Value256(a + b) == Value256(a) * Pow2(8 * |b|) + Value256(b)
  {
    if b == [] {
      assert a + b == a;
    } else {
      var c, x := b[..|b| - 1], b[|b| - 1];
      assert (a + b)[..|a + b| - 1] == a + c;
      Value256Append(a, c);
      Pow2Add(8, 8 * |c|);
      assert Pow2(8) == 256;
      Shifted(Value256(a), Pow2(8 * |c|), 256, Value256(c));
    }
  }

  lemma Shifted(x: nat, p: nat, base: nat, y: nat)
    ensures (x * p + y) * base == x * (base * p) + y * base
  {
  }

  /** The digits of a number in a base are determined by it. */
  lemma {:induction false} Value256Unique(a: seq<Byte>, b: seq<Byte>)
    requires |a| == |b| && Value256(a) == Value256(b)
    ensures a == b
  {
    if a == [] {
    } else {
      var n := |a| - 1;
      DivModUnique(Value256(a), 256, Value256(a[..n]), a[n]);
      DivModUnique(Value256(a), 256, Value256(b[..n]), b[n]);
      Value256Unique(a[..n], b[..n]);
      assert a == a[..n] + [a[n]] && b == b[..n] + [b[n]];
    }
  }

  // ─── the bytes of digits ────────────────────────────────────────────

  /** Four digits at a time. */
  function Front(d: seq<Digit>): seq<Byte> {
    if |d| < 4 then [] else Unpack(Join(d[..4]), 3) + Front(d[4..])
  }

  /** A last group of two or three gives one byte less than it has digits. */
  function TailBytes(t: seq<Digit>): seq<Byte>
    requires |t| < 4
  {
    if |t| < 2 then [] else Unpack(Join(t), |t| - 1)
  }

  lemma JoinIsValue(d: seq<Digit>)
    requires 2 <= |d| <= 4
    ensures Join(d) == Value64(d) * Pow2(6 * (4 - |d|))
  {
    assert Pow2(6) == 64 && Pow2(12) == 0x1000 && Pow2(0) == 1;
    var d1, d2 := d[..1], d[..2];
    assert d1[..0] == [] && Value64(d1) == d[0];
    assert d2[..1] == d1 && Value64(d2) == d[0] as int * 64 + d[1];
    if |d| == 2 {
      assert d2 == d;
    } else {
      var d3 := d[..3];
      assert d3[..2] == d2 && Value64(d3) == (d[0] as int * 64 + d[1]) * 64 + d[2];
      if |d| == 3 { assert d3 == d; } else { assert d[..3] == d3; }
    }
  }

  lemma UnpackIsValue(v: nat, n: nat)
    requires v < 0x1000000 && 1 <= n <= 3
    ensures Value256(Unpack(v, n)) == v / Pow2(24 - 8 * n)
  {
    assert Pow2(16) == 0x10000 && Pow2(8) == 256 && Pow2(0) == 1;
    var b, q := Unpack(v, 3), v / 256;
    var b1, b2 := b[..1], b[..2];
    assert b1[..0] == [] && Value256(b1) == b[0] == q / 256;
    assert b2[..1] == b1 && Value256(b2) == b[0] as int * 256 + b[1] == q;
    assert b[..2] == b2 && Value256(b) == q * 256 + v % 256 == v;
    assert Unpack(v, n) == b[..n];
    assert v / 0x10000 == q / 256;
    if n == 3 { assert b[..3] == b; }
  }

  lemma TwoDigits(v: nat)
    ensures v * 0x1000 / 0x10000 == v / 16 && (v * 0x1000 % 0x10000 == 0 <==> v % 16 == 0)
  {
    assert v == 16 * (v / 16) + v % 16;
    DivModUnique(v * 0x1000, 0x10000, v / 16, v % 16 * 0x1000);
  }

  lemma ThreeDigits(v: nat)
    ensures v * 0x40 / 0x100 == v / 4 && (v * 0x40 % 0x100 == 0 <==> v % 4 == 0)
  {
    assert v == 4 * (v / 4) + v % 4;
    DivModUnique(v * 0x40, 0x100, v / 4, v % 4 * 0x40);
  }

  /** A last group. */
  lemma TailCarries(t: seq<Digit>)
    requires 2 <= |t| <= 3
    ensures Carries(TailBytes(t), t) && (Clear(t) <==> TailClear(Join(t), |t| - 1))
  {
    JoinIsValue(t);
    UnpackIsValue(Join(t), |t| - 1);
    assert Pow2(2) == 4 && Pow2(4) == 16 && Pow2(6) == 64 && Pow2(8) == 256;
    assert Pow2(12) == 0x1000 && Pow2(16) == 0x10000;
    if |t| == 2 { TwoDigits(Value64(t)); } else { ThreeDigits(Value64(t)); }
  }

  /** A whole group. */
  lemma GroupCarries(g: seq<Digit>)
    requires |g| == 4
    ensures Value256(Unpack(Join(g), 3)) == Value64(g)
  {
    JoinIsValue(g);
    UnpackIsValue(Join(g), 3);
    assert Pow2(0) == 1;
  }

  lemma {:induction false} BytesCarry(d: seq<Digit>)
    requires |Last(d)| != 1
    ensures Carries(Front(d) + TailBytes(Last(d)), d)
    ensures Clear(d) <==> Clear(Last(d))
  {
    if |d| < 4 {
      assert [] + TailBytes(d) == TailBytes(d);
      if d == [] { assert Pow2(0) == 1; } else { TailCarries(d); }
    } else {
      BytesCarry(d[4..]);
      GroupsCarry(d, Front(d[4..]) + TailBytes(Last(d)));
      assert Front(d) + TailBytes(Last(d)) == Unpack(Join(d[..4]), 3) + (Front(d[4..]) + TailBytes(Last(d)));
    }
  }

  lemma GroupsCarry(d: seq<Digit>, b: seq<Byte>)
    requires |d| >= 4 && Carries(b, d[4..])
    ensures Carries(Unpack(Join(d[..4]), 3) + b, d) && (Clear(d) <==> Clear(d[4..]))
  {
    var g, rest, r := d[..4], d[4..], Spare(Last(d));
    assert d == g + rest;
    GroupCarries(g);
    Value64Append(g, rest);
    Value256Append(Unpack(Join(g), 3), b);
    Pow2Add(8 * |b|, r);
    Divided(Value64(g), Pow2(8 * |b|), Pow2(r), Value64(rest));
  }

  lemma Divided(x: nat, p: nat, q: nat, y: nat)
    requires q > 0
    ensures (x * (p * q) + y) / q == x * p + y / q && (x * (p * q) + y) % q == y % q
  {
    ModAddMultiple(y, x * p, q);
    assert q * (x * p) == x * (p * q);
  }

  // ─── one pass over the text ─────────────────────────────────────────

  predicate Symbol(e: Encoding, c: Byte)
    requires e.Valid()
  {
    e.decodeMap[c] != INVALID
  }

  /** The first character from si on that is neither a symbol nor a newline. */
  function FirstOdd(e: Encoding, s: seq<Byte>, si: nat): (k: nat)
    requires e.Valid() && si <= |s|
    ensures si <= k <= |s| && (k < |s| ==> !Symbol(e, s[k]) && !Newline(s[k]))
    ensures forall i :: si <= i < k ==> Symbol(e, s[i]) || Newline(s[i])
    decreases |s| - si
  {
    if si == |s| || (!Symbol(e, s[si]) && !Newline(s[si])) then si else FirstOdd(e, s, si + 1)
  }

  /** The symbols before it. */
  function Symbols(e: Encoding, s: seq<Byte>, si: nat): seq<Digit>
    requires e.Valid() && si <= |s|
    decreases |s| - si
  {
    if si == |s| then []
    else if Symbol(e, s[si]) then [e.decodeMap[s[si]]] + Symbols(e, s, si + 1)
    else if Newline(s[si]) then Symbols(e, s, si + 1)
    else []
  }

  /** A last group of two or three digits that ends at `end`. */
  function Closed(e: Encoding, s: seq<Byte>, t: seq<Digit>, end: nat, out: seq<Byte>): Decoded
    requires 2 <= |t| <= 3 && end + |t| >= 4
  {
    if e.strict && !Clear(t) then Decoded(out, Some(end - (4 - |t|)))
    else Decoded(out + TailBytes(t), if end < |s| then Some(end) else None)
  }

  /** The open group t ends at k, where the text ends or has a character that is no symbol. */
  function Ending(e: Encoding, s: seq<Byte>, k: nat, t: seq<Digit>, out: seq<Byte>): Decoded
    requires e.Valid() && k <= |s| && |t| < 4 && |t| <= k
  {
    if k == |s| then
      if t == [] then Decoded(out, None)
      else if |t| == 1 || e.Padded() then Decoded(out, Some(|s| - |t|))
      else Closed(e, s, t, |s|, out)
    else if s[k] != e.pad || |t| < 2 then Decoded(out, Some(k))
    else if |t| == 3 then Closed(e, s, t, SkipNewlines(s, k + 1), out)
    else
      var p := SkipNewlines(s, k + 1);
      if p == |s| then Decoded(out, Some(|s|))
      else if s[p] != e.pad then Decoded(out, Some(p - 1))
      else Closed(e, s, t, SkipNewlines(s, p + 1), out)
  }

  /** The whole groups before the first odd character, and how the open one ends there. */
  function Verdict(e: Encoding, s: seq<Byte>, si: nat, out: seq<Byte>): Decoded
    requires e.Valid() && si <= |s|
  {
    var d, k := Symbols(e, s, si), FirstOdd(e, s, si);
    SymbolsFit(e, s, si);
    LastFits(d);
    Ending(e, s, k, Last(d), out + Front(d))
  }

  lemma {:induction false} LastFits(d: seq<Digit>)
    ensures |Last(d)| <= |d|
  {
    if |d| < 4 {
    } else {
      LastFits(d[4..]);
    }
  }

  lemma {:induction false} SymbolsFit(e: Encoding, s: seq<Byte>, si: nat)
    requires e.Valid() && si <= |s|
    ensures si + |Symbols(e, s, si)| <= FirstOdd(e, s, si)
    decreases |s| - si
  {
    if si == |s| {
    } else if Symbol(e, s[si]) || Newline(s[si]) {
      SymbolsFit(e, s, si + 1);
    }
  }

  // ─── a quantum reads the next four symbols, or the end ──────────────

  /** The symbols ahead do not fill the group. */
  lemma {:induction false} GatherOpen(e: Encoding, s: seq<Byte>, si: nat, d: seq<Digit>)
    requires e.Valid() && si <= |s| && |d| <= si && |d| + |Symbols(e, s, si)| < 4
    ensures var k := FirstOdd(e, s, si);
      |d + Symbols(e, s, si)| <= k && Gather(e, s, si, d) == Gather(e, s, k, d + Symbols(e, s, si))
    decreases |s| - si
  {
    SymbolsFit(e, s, si);
    if si == |s| || (!Symbol(e, s[si]) && !Newline(s[si])) {
      assert d + [] == d;
    } else if Symbol(e, s[si]) {
      var x := e.decodeMap[s[si]];
      GatherOpen(e, s, si + 1, d + [x]);
      assert d + [x] + Symbols(e, s, si + 1) == d + ([x] + Symbols(e, s, si + 1));
    } else {
      GatherOpen(e, s, si + 1, d);
    }
  }

  /** They fill it. */
  lemma {:induction false} GatherFull(e: Encoding, s: seq<Byte>, si: nat, d: seq<Digit>) returns (si': nat)
    requires e.Valid() && si <= |s| && |d| <= si && |d| <= 4 && |d| + |Symbols(e, s, si)| >= 4
    ensures si <= si' <= |s| && (|d| < 4 ==> si < si')
    ensures var ds := Symbols(e, s, si);
      && Gather(e, s, si, d) == Complete(si', d + ds[..4 - |d|], None)
      && FirstOdd(e, s, si') == FirstOdd(e, s, si) && Symbols(e, s, si') == ds[4 - |d|..]
    decreases |s| - si
  {
    var ds := Symbols(e, s, si);
    if |d| == 4 {
      si' := si;
      assert d + ds[..0] == d;
    } else if Symbol(e, s[si]) {
      var x, rest := e.decodeMap[s[si]], Symbols(e, s, si + 1);
      si' := GatherFull(e, s, si + 1, d + [x]);
      FullStep(d, x, rest, 3 - |d|);
    } else {
      si' := GatherFull(e, s, si + 1, d);
    }
  }

  lemma FullStep(d: seq<Digit>, x: Digit, rest: seq<Digit>, m: nat)
    requires m <= |rest|
    ensures d + [x] + rest[..m] == d + ([x] + rest)[..m + 1] && rest[m..] == ([x] + rest)[m + 1..]
  {
  }

  lemma FailedQuantum(e: Encoding, s: seq<Byte>, si: nat, out: seq<Byte>, g: Gathered)
    requires e.Valid() && si < |s| && g == Gather(e, s, si, []) && g.Failed?
    ensures DecodeFrom(e, s, si, out) == Decoded(out, Some(g.offset))
  {
    assert out + [] == out;
  }

  lemma ClosedQuantum(e: Encoding, s: seq<Byte>, si: nat, out: seq<Byte>, t: seq<Digit>, end: nat)
    requires e.Valid() && si < |s| && 2 <= |t| <= 3 && 4 <= end + |t| && end <= |s|
    requires Gather(e, s, si, []) == Complete(end, t, if end < |s| then Some(end) else None)
    ensures DecodeFrom(e, s, si, out) == Closed(e, s, t, end, out)
  {
    TailCarries(t);
    assert out + [] == out;
  }

  /** The last quantum. */
  lemma QuantumEnds(e: Encoding, s: seq<Byte>, si: nat, out: seq<Byte>, k: nat, t: seq<Digit>)
    requires e.Valid() && si < |s| && |t| < 4 && |t| <= k
    requires k == FirstOdd(e, s, si) && t == Symbols(e, s, si)
    ensures DecodeFrom(e, s, si, out) == Ending(e, s, k, t, out)
  {
    GatherOpen(e, s, si, []);
    assert [] + t == t;
    var g := Gather(e, s, k, t);
    if g.Failed? {
      FailedQuantum(e, s, si, out, g);
    } else if g.Complete? {
      ClosedQuantum(e, s, si, out, t, g.si);
    } else {
      assert out + [] == out;
    }
  }

  lemma FullQuantum(e: Encoding, s: seq<Byte>, si: nat, out: seq<Byte>, si': nat, g: seq<Digit>)
    requires e.Valid() && si < si' <= |s| && |g| == 4 && Gather(e, s, si, []) == Complete(si', g, None)
    ensures DecodeFrom(e, s, si, out) == DecodeFrom(e, s, si', out + Unpack(Join(g), 3))
  {
  }

  /** For every encoding and every text, decoding quantum after quantum gives the verdict. */
  lemma {:induction false} DecodeIsVerdict(e: Encoding, s: seq<Byte>, si: nat, out: seq<Byte>)
    requires e.Valid() && si <= |s|
    ensures DecodeFrom(e, s, si, out) == Verdict(e, s, si, out)
    decreases |s| - si
  {
    var d := Symbols(e, s, si);
    SymbolsFit(e, s, si);
    if si == |s| {
      assert out + [] == out;
    } else if |d| < 4 {
      assert out + [] == out;
      QuantumEnds(e, s, si, out, FirstOdd(e, s, si), d);
    } else {
      var si' := GatherFull(e, s, si, []);
      assert [] + d[..4] == d[..4];
      var b := Unpack(Join(d[..4]), 3);
      FullQuantum(e, s, si, out, si', d[..4]);
      DecodeIsVerdict(e, s, si', out + b);
      VerdictStep(e, s, si, out, si', d);
    }
  }

  lemma VerdictStep(e: Encoding, s: seq<Byte>, si: nat, out: seq<Byte>, si': nat, d: seq<Digit>)
    requires e.Valid() && si <= si' <= |s| && d == Symbols(e, s, si) && |d| >= 4
    requires FirstOdd(e, s, si') == FirstOdd(e, s, si) && Symbols(e, s, si') == d[4..]
    ensures Verdict(e, s, si, out) == Verdict(e, s, si', out + Unpack(Join(d[..4]), 3))
  {
    var b := Unpack(Join(d[..4]), 3);
    assert out + (b + Front(d[4..])) == out + b + Front(d[4..]);
  }

  // ─── what is accepted ───────────────────────────────────────────────

  /** The text is these symbols in groups of four, the last one whole or of two or three symbols with
      the padding that completes it. */
  predicate Spells(e: Encoding, t: seq<Byte>, d: seq<Digit>)
    requires e.Valid()
  {
    Ends(e, Last(d)) && t == Chars(e, d) + Padded(e, Last(d))
  }

  /** A text may end with this last group.  Padding that is a symbol would be read as one. */
  predicate Ends(e: Encoding, t: seq<Digit>)
    requires e.Valid()
  {
    t == [] || (|t| >= 2 && e.PadApart())
  }

  function Padded(e: Encoding, t: seq<Digit>): seq<Byte>
    requires e.Valid() && |t| < 4
  {
    if t == [] then [] else Padding(e, |t|)
  }

  lemma {:induction false} SymbolsVisible(e: Encoding, s: seq<Byte>, si: nat)
    requires e.Valid() && si <= |s|
    ensures Visible(s, si) == Chars(e, Symbols(e, s, si)) + Visible(s, FirstOdd(e, s, si))
    decreases |s| - si
  {
    if si == |s| || (!Symbol(e, s[si]) && !Newline(s[si])) {
      assert [] + Visible(s, si) == Visible(s, si);
    } else if Symbol(e, s[si]) {
      SymbolsVisible(e, s, si + 1);
      CharsCons(e, e.decodeMap[s[si]], Symbols(e, s, si + 1));
      Regroup(s[si], Chars(e, Symbols(e, s, si + 1)), Visible(s, FirstOdd(e, s, si)));
    } else {
      SymbolsVisible(e, s, si + 1);
    }
  }

  /** Symbols up to the end or to a character that is none are found again. */
  lemma {:induction false} SymbolsFound(e: Encoding, s: seq<Byte>, si: nat, d: seq<Digit>, rest: seq<Byte>)
    requires e.Valid() && si <= |s| && Visible(s, si) == Chars(e, d) + rest
    requires rest != [] ==> !Symbol(e, rest[0])
    ensures Symbols(e, s, si) == d && Visible(s, FirstOdd(e, s, si)) == rest
    decreases |s| - si
  {
    if si == |s| {
      assert d == [] && rest == [];
    } else if Newline(s[si]) {
      SymbolsFound(e, s, si + 1, d, rest);
    } else {
      var v := Visible(s, si + 1);
      assert Visible(s, si) == [s[si]] + v;
      if d == [] {
        assert Chars(e, d) + rest == rest;
        assert s[si] == rest[0];
      } else {
        CharsCons(e, d[0], d[1..]);
        assert d == [d[0]] + d[1..];
        Regroup(e.alphabet[d[0]], Chars(e, d[1..]), rest);
        assert s[si] == ([s[si]] + v)[0] == e.alphabet[d[0]] && v == ([s[si]] + v)[1..] == Chars(e, d[1..]) + rest;
        SymbolsFound(e, s, si + 1, d[1..], rest);
      }
    }
  }

  /** The open group t closes the text without an error exactly when the rest is its padding. */
  lemma EndingAccepts(e: Encoding, s: seq<Byte>, k: nat, t: seq<Digit>, out: seq<Byte>)
    requires e.Valid() && k <= |s| && |t| < 4 && |t| <= k && (k < |s| ==> !Symbol(e, s[k]) && !Newline(s[k]))
    ensures var r := Ending(e, s, k, t, out);
      && (r.err.None? <==> Ends(e, t) && (t != [] && e.strict ==> Clear(t)) && Visible(s, k) == Padded(e, t))
      && (r.err.None? ==> r.out == out + TailBytes(t))
  {
    assert out + [] == out && Padding(e, 4) == [];
    if k == |s| {
    } else {
      assert Visible(s, k) == [s[k]] + Visible(s, k + 1);
      if s[k] != e.pad || |t| < 2 {
        assert Visible(s, k)[0] == s[k];
        if |t| >= 2 && e.Padded() {
          assert Padding(e, |t|) == [e.pad] + Padding(e, |t| + 1);
          assert Padding(e, |t|)[0] == e.pad;
        }
      } else if |t| == 2 {
        TwoClose(e, s, k, t, out);
      } else {
        ThreeClose(e, s, k, t, out);
      }
    }
  }

  lemma ThreeClose(e: Encoding, s: seq<Byte>, k: nat, t: seq<Digit>, out: seq<Byte>)
    requires e.Valid() && k < |s| && |t| == 3 <= k && !Symbol(e, s[k]) && !Newline(s[k]) && s[k] == e.pad
    ensures var r := Ending(e, s, k, t, out);
      && (r.err.None? <==> (e.strict ==> Clear(t)) && Visible(s, k) == Padding(e, 3))
      && (r.err.None? ==> r.out == out + TailBytes(t))
  {
    assert Padding(e, 4) == [] && Padding(e, 3) == [e.pad] + Padding(e, 4);
    assert Visible(s, k) == [s[k]] + Visible(s, k + 1);
    SkippedAll(s, k + 1);
  }

  lemma TwoClose(e: Encoding, s: seq<Byte>, k: nat, t: seq<Digit>, out: seq<Byte>)
    requires e.Valid() && k < |s| && |t| == 2 <= k && !Symbol(e, s[k]) && !Newline(s[k]) && s[k] == e.pad
    ensures var r := Ending(e, s, k, t, out);
      && (r.err.None? <==> (e.strict ==> Clear(t)) && Visible(s, k) == Padding(e, 2))
      && (r.err.None? ==> r.out == out + TailBytes(t))
  {
    TwoPads(e, s, k);
  }

  lemma TwoPads(e: Encoding, s: seq<Byte>, k: nat)
    requires e.Valid() && k < |s| && !Newline(s[k]) && s[k] == e.pad
    ensures Visible(s, k) == Padding(e, 2) <==>
      var p := SkipNewlines(s, k + 1); p < |s| && s[p] == e.pad && SkipNewlines(s, p + 1) == |s|
  {
    PadTwice(e, s[k]);
    FirstVisible(s, k);
    Behind(s[k], Visible(s, k + 1), [s[k]]);
    OneVisible(s, k + 1, s[k]);
  }

  lemma PadTwice(e: Encoding, pad: Byte)
    requires e.Valid() && e.pad == pad
    ensures Padding(e, 2) == [pad] + [pad]
  {
    assert Padding(e, 4) == [];
    assert Padding(e, 3) == [pad];
  }

  lemma FirstVisible(s: seq<Byte>, k: nat)
    requires k < |s| && !Newline(s[k])
    ensures Visible(s, k) == [s[k]] + Visible(s, k + 1)
  {
  }

  /** Nothing but one more padding character is visible. */
  lemma OneVisible(s: seq<Byte>, si: nat, pad: Byte)
    requires si <= |s|
    ensures Visible(s, si) == [pad] <==>
      var p := SkipNewlines(s, si); p < |s| && s[p] == pad && SkipNewlines(s, p + 1) == |s|
  {
    var p := SkipNewlines(s, si);
    if p < |s| {
      FirstVisible(s, p);
      Alone(s[p], Visible(s, p + 1), pad);
      SkippedAll(s, p + 1);
    } else {
      SkippedAll(s, si);
    }
  }

  lemma Behind(a: Byte, v: seq<Byte>, w: seq<Byte>)
    ensures [a] + v == [a] + w <==> v == w
  {
    assert v == ([a] + v)[1..] && w == ([a] + w)[1..];
  }

  lemma Alone(a: Byte, v: seq<Byte>, b: Byte)
    ensures [a] + v == [b] <==> a == b && v == []
  {
    assert ([a] + v)[0] == a && |[a] + v| == 1 + |v|;
    if v == [] { assert [a] + v == [a]; }
  }

  lemma SkippedAll(s: seq<Byte>, si: nat)
    requires si <= |s|
    ensures SkipNewlines(s, si) == |s| <==> Visible(s, si) == []
  {
    if Visible(s, si) == [] { NothingVisible(s, si); }
  }

  /** Decoding succeeds with b exactly when the text without its newlines spells digits that carry b,
      whatever their spare bits; a strict encoding wants those to be zero. */
  lemma AcceptedIff(e: Encoding, s: seq<Byte>, b: seq<Byte>)
    requires e.Valid()
    ensures Decode(e, s) == Decoded(b, None) <==>
      exists d: seq<Digit> :: Spells(e, Visible(s, 0), d) && Carries(b, d) && (e.strict ==> Clear(d))
  {
    if Decode(e, s) == Decoded(b, None) {
      var d := Symbols(e, s, 0);
      Accepted(e, s, b, d);
    }
    forall d: seq<Digit> | Spells(e, Visible(s, 0), d) && Carries(b, d) && (e.strict ==> Clear(d))
      ensures Decode(e, s) == Decoded(b, None)
    {
      Spelled(e, s, b, d);
    }
  }

  lemma Accepted(e: Encoding, s: seq<Byte>, b: seq<Byte>, d: seq<Digit>)
    requires e.Valid() && Decode(e, s) == Decoded(b, None) && d == Symbols(e, s, 0)
    ensures Spells(e, Visible(s, 0), d) && Carries(b, d) && (e.strict ==> Clear(d))
  {
    DecodeIsVerdict(e, s, 0, []);
    SymbolsFit(e, s, 0);
    LastFits(d);
    EndingAccepts(e, s, FirstOdd(e, s, 0), Last(d), [] + Front(d));
    assert [] + Front(d) == Front(d);
    SymbolsVisible(e, s, 0);
    BytesCarry(d);
    EmptyClear(Last(d));
  }

  lemma EmptyClear(t: seq<Digit>)
    ensures t == [] ==> Clear(t)
  {
    assert Pow2(0) == 1;
  }

  lemma Spelled(e: Encoding, s: seq<Byte>, b: seq<Byte>, d: seq<Digit>)
    requires e.Valid() && Spells(e, Visible(s, 0), d) && Carries(b, d) && (e.strict ==> Clear(d))
    ensures Decode(e, s) == Decoded(b, None)
  {
    var rest := Padded(e, Last(d));
    if rest != [] { assert Padding(e, |Last(d)|) == [e.pad] + Padding(e, |Last(d)| + 1); }
    SymbolsFound(e, s, 0, d, rest);
    DecodeIsVerdict(e, s, 0, []);
    SymbolsFit(e, s, 0);
    LastFits(d);
    BytesCarry(d);
    EndingAccepts(e, s, FirstOdd(e, s, 0), Last(d), [] + Front(d));
    assert [] + Front(d) == Front(d);
    Value256Unique(b, Front(d) + TailBytes(Last(d)));
  }
}
