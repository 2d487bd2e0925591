/** DER INTEGER contents (X.690 section 8.3): shortest two's complement, after
    src/encoding/asn1/mod.rs and src/encoding/asn1/marshal.rs. */
module DerInteger {

  import opened Bytes
  import opened Arithmetic

  const MAX64: int := 0x7FFF_FFFF_FFFF_FFFF
  const MIN64: int := -0x8000_0000_0000_0000
  const MAX32: int := 0x7FFF_FFFF
  const MIN32: int := -0x8000_0000

  // ─── two's complement byte strings ──────────────────────────────────

  /** The number a big-endian two's complement string stands for. */
  function Value(s: seq<Byte>): int
    requires s != []
  {
    if |s| == 1 then (if s[0] < 128 then s[0] else s[0] - 256)
    else Value(s[..|s| - 1]) * 256 + s[|s| - 1]
  }

  /** The encoder's string for x. */
  function Content(x: int): (s: seq<Byte>)
    ensures s != []
    decreases if x < 0 then -x else x
  {
    if -128 <= x <= 127 then [x % 256] else Content(x / 256) + [x % 256]
  }

  lemma ValueSnoc(s: seq<Byte>, b: Byte)
    requires s != []
    ensures Value(s + [b]) == Value(s) * 256 + b
  {
    assert (s + [b])[..|s|] == s;
  }

  lemma {:induction false} ValueOfContent(x: int)
    ensures Value(Content(x)) == x
    decreases if x < 0 then -x else x
  {
    if -128 <= x <= 127 {
    } else {
      ValueOfContent(x / 256);
      ValueSnoc(Content(x / 256), x % 256);
    }
  }

  // ─── CheckInteger ───────────────────────────────────────────────────

  /** A first byte that only repeats the sign of the second. */
  predicate Redundant(s: seq<Byte>) {
    |s| >= 2 && ((s[0] == 0 && s[1] < 128) || (s[0] == 0xff && s[1] >= 128))
  }

  datatype Error = Empty | NotMinimal | TooLarge
  datatype Result<T> = Ok(value: T) | Err(error: Error)

  function CheckInteger(s: seq<Byte>): (r: Option<Error>) {
    if s == [] then Some(Empty)
    else if |s| == 1 then None
    else if Redundant(s) then Some(NotMinimal)
    else None
  }

  /** Outside -128..127 the second byte keeps a string of two or more from being redundant. */
  lemma {:induction false} ContentNotRedundant(x: int)
    ensures !Redundant(Content(x))
    decreases if x < 0 then -x else x
  {
    if -128 <= x <= 127 {
    } else {
      var h := Content(x / 256);
      ContentNotRedundant(x / 256);
      if |h| >= 2 {
        assert Content(x)[0] == h[0] && Content(x)[1] == h[1];
      } else {
        SingleByte(x / 256);
        assert Content(x)[0] == x / 256 % 256 && Content(x)[1] == x % 256;
      }
    }
  }

  lemma SingleByte(x: int)
    requires |Content(x)| == 1
    ensures -128 <= x <= 127
  {
    assert -128 <= x <= 127 || |Content(x)| >= 2;
  }

  /** A string that is not redundant is the encoder's string for its value. */
  lemma {:induction false} ContentOfValue(s: seq<Byte>)
    requires s != [] && !Redundant(s)
    ensures Content(Value(s)) == s
    ensures |s| >= 2 ==> !(-128 <= Value(s) <= 127)
  {
    if |s| < 2 {
    } else {
      var t, b := s[..|s| - 1], s[|s| - 1];
      assert s == t + [b];
      ValueSnoc(t, b);
      ContentOfValue(t);
      ContentSnoc(Value(t), b);
    }
  }

  lemma ContentSnoc(v: int, b: Byte)
    requires (v == 0 ==> b >= 128) && (v == -1 ==> b < 128)
    ensures !(-128 <= v * 256 + b <= 127) && Content(v * 256 + b) == Content(v) + [b]
  {
    var x := v * 256 + b;
    assert x / 256 == v && x % 256 == b;
  }

  /** CheckInteger accepts exactly the encoder's strings. */
  lemma CheckIff(s: seq<Byte>)
    ensures CheckInteger(s).None? <==> s != [] && s == Content(Value(s))
  {
    if s != [] {
      if !Redundant(s) { ContentOfValue(s); } else { ContentNotRedundant(Value(s)); }
    }
  }

  /** No string for the same number is shorter, and the only one as short is the encoder's. */
  lemma {:induction false} ShortestAndUnique(s: seq<Byte>)
    requires s != []
    ensures |Content(Value(s))| <= |s|
    ensures |Content(Value(s))| == |s| ==> Content(Value(s)) == s
  {
    if !Redundant(s) {
      ContentOfValue(s);
    } else {
      DropSign(s);
      ShortestAndUnique(s[1..]);
    }
  }

  /** A redundant sign byte can be dropped. */
  lemma {:induction false} DropSign(s: seq<Byte>)
    requires Redundant(s)
    ensures Value(s[1..]) == Value(s)
  {
    var n := |s|;
    if n == 2 {
      assert s[..1] == [s[0]] && s[1..] == [s[1]];
    } else {
      DropSign(s[..n - 1]);
      assert s[1..][..n - 2] == s[..n - 1][1..];
    }
  }

  // ─── the 64-bit range is eight bytes ────────────────────────────────

  function Half(n: nat): nat
    requires n >= 1
  {
    Pow2(8 * n - 1)
  }

  lemma {:induction false} ValueRange(s: seq<Byte>)
    requires s != []
    ensures -(Half(|s|) as int) <= Value(s) < Half(|s|)
  {
    assert Pow2(7) == 128;
    if |s| <= 1 {
    } else {
      var k := |s| - 1;
      ValueRange(s[..k]);
      Pow2Add(8, 8 * k - 1);
      assert Pow2(8) == 256;
    }
  }

  lemma {:induction false} ContentFits(x: int, n: nat)
    requires n >= 1 && -(Half(n) as int) <= x < Half(n)
    ensures |Content(x)| <= n
    decreases n
  {
    assert Pow2(7) == 128 && Pow2(8) == 256;
    if n <= 1 || -128 <= x <= 127 {
    } else {
      Pow2Add(8, 8 * (n - 1) - 1);
      ContentFits(x / 256, n - 1);
    }
  }

  /** Eight bytes hold exactly the 64-bit numbers. */
  lemma EightBytes(x: int)
    ensures |Content(x)| <= 8 <==> MIN64 <= x <= MAX64
  {
    assert Half(8) == 0x8000_0000_0000_0000 by { Pow2Words(); }
    if MIN64 <= x <= MAX64 { ContentFits(x, 8); }
    if |Content(x)| <= 8 { ContentBounds(x, 8); }
  }

  lemma ContentBounds(x: int, n: nat)
    requires |Content(x)| <= n
    ensures -(Half(n) as int) <= x < Half(n)
  {
    var k := |Content(x)|;
    ValueOfContent(x);
    ValueRange(Content(x));
    if k < n { Pow2Monotone(8 * k - 1, 8 * n - 1); }
  }

  // ─── ParseInt64 ─────────────────────────────────────────────────────

  function ParseSpec(s: seq<Byte>): (r: Result<int>) {
    match CheckInteger(s)
    case Some(e) => Err(e)
    case None => if |s| > 8 then Err(TooLarge) else Ok(Value(s))
  }

  /** Parsing and encoding are inverse to each other on the 64-bit numbers: a string parses to x
      exactly when it is the encoder's string for a 64-bit x. */
  lemma ParseIff(s: seq<Byte>, x: int)
    ensures ParseSpec(s) == Ok(x) <==> MIN64 <= x <= MAX64 && s == Content(x)
  {
    CheckIff(s);
    EightBytes(x);
    ValueOfContent(x);
    ContentNotRedundant(x);
  }

  /** Which refusal a string gets: nothing there, not the shortest string for its number, or a number
      of more than 64 bits. */
  lemma RefusedIff(s: seq<Byte>)
    ensures ParseSpec(s) == Err(Empty) <==> s == []
    ensures ParseSpec(s) == Err(NotMinimal) <==> s != [] && s != Content(Value(s))
    ensures ParseSpec(s) == Err(TooLarge) <==>
      s != [] && s == Content(Value(s)) && !(MIN64 <= Value(s) <= MAX64)
  {
    CheckIff(s);
    if s != [] { EightBytes(Value(s)); }
  }

  function Unsigned(s: seq<Byte>): nat {
    if s == [] then 0 else Unsigned(s[..|s| - 1]) * 256 + s[|s| - 1]
  }

  lemma {:induction false} UnsignedValue(s: seq<Byte>)
    requires s != []
    ensures Unsigned(s) == Value(s) + (if Value(s) < 0 then Pow2(8 * |s|) else 0)
  {
    assert Pow2(8) == 256;
    if |s| == 1 {
      assert Unsigned(s[..0]) == 0;
    } else {
      UnsignedValue(s[..|s| - 1]);
      Pow2Add(8, 8 * (|s| - 1));
    }
  }

  const WORD64: nat := 0x1_0000_0000_0000_0000

  /** A 64-bit register read as a signed number. */
  function Wrap64(x: int): int {
    var u := x % WORD64;
    if u > MAX64 then u - WORD64 else u
  }

  lemma WrapSmall(x: int)
    requires MIN64 <= x <= MAX64
    ensures Wrap64(x) == x && Wrap64(x + WORD64) == x
  {
  }

  /** `ParseInt64`: accumulate, then sign-extend with a left and an arithmetic right shift. */
  method ParseInt64(s: seq<Byte>) returns (r: Result<int>)
    ensures r == ParseSpec(s)
  {
    var e := CheckInteger(s);
    if e.Some? { return Err(e.value); }
    if |s| > 8 { return Err(TooLarge); }
    var ret: int := 0;
    var i := 0;
    while i < |s|
      invariant 0 <= i <= |s| && ret == Wrap64(Unsigned(s[..i]))
    {
      Accumulate(s, i);
      ret := Wrap64(ret * 256) + s[i];
      i := i + 1;
    }
    assert s[..i] == s;
    var shift := 64 - 8 * |s|;
    SignExtended(s);
    if shift > 0 {
      ret := Wrap64(ret * Pow2(shift)) / Pow2(shift);
    }
    r := Ok(ret);
  }

  lemma {:induction false} UnsignedBound(s: seq<Byte>)
    ensures Unsigned(s) < Pow2(8 * |s|)
  {
    if s == [] {
    } else {
      UnsignedBound(s[..|s| - 1]);
      assert Pow2(8) == 256;
      Pow2Add(8, 8 * (|s| - 1));
    }
  }

  lemma Accumulate(s: seq<Byte>, i: nat)
    requires i < |s| <= 8
    ensures Wrap64(Wrap64(Unsigned(s[..i])) * 256) + s[i] == Wrap64(Unsigned(s[..i + 1]))
  {
    assert s[..i + 1][..i] == s[..i];
    var u := Unsigned(s[..i]);
    UnsignedBound(s[..i]);
    SmallBytes(i);
    WrapSmall(u);
    OneByteIn(u, s[i]);
  }

  lemma SmallBytes(i: nat)
    requires i <= 7
    ensures Pow2(8 * i) <= 0x100_0000_0000_0000
  {
    assert Pow2(8) == 256;
    Pow2Words();
    Pow2Add(8, 56);
    if i < 7 { Pow2Monotone(8 * i, 56); }
  }

  lemma OneByteIn(u: nat, b: Byte)
    requires u < 0x100_0000_0000_0000
    ensures Wrap64(u * 256) + b == Wrap64(u * 256 + b)
  {
  }

  lemma SignExtended(s: seq<Byte>)
    requires 1 <= |s| <= 8
    ensures var ret, shift := Wrap64(Unsigned(s)), 64 - 8 * |s|;
      Value(s) == if shift > 0 then Wrap64(ret * Pow2(shift)) / Pow2(shift) else ret
  {
    var n := |s|;
    UnsignedValue(s);
    ValueRange(s);
    if n == 8 {
      Pow2Words();
      WrapSmall(Value(s));
    } else {
      UnsignedBound(s);
      SmallBytes(n);
      WrapSmall(Unsigned(s));
      ShiftWeights(n);
      Shifted(Value(s), Half(n), Pow2(8 * n), Pow2(64 - 8 * n));
    }
  }

  lemma ShiftWeights(n: nat)
    requires 1 <= n <= 7
    ensures Half(n) * Pow2(64 - 8 * n) == 0x8000_0000_0000_0000 && Pow2(8 * n) * Pow2(64 - 8 * n) == WORD64
  {
    Pow2Words();
    Pow2Add(8 * n, 64 - 8 * n);
    Pow2Add(8 * n - 1, 64 - 8 * n);
  }

  lemma Shifted(v: int, half: nat, full: nat, t: nat)
    requires -(half as int) <= v < half && half * t == 0x8000_0000_0000_0000 && full * t == WORD64 && t > 0
    ensures Wrap64((v + (if v < 0 then full else 0)) * t) / t == v
  {
    assert MIN64 <= v * t <= MAX64 by {
      if v >= 0 { MulMonotone(v + 1, t, half, t); assert (v + 1) * t == v * t + t; }
      else { MulMonotone(-v, t, half, t); assert (-v) * t == -(v * t); }
    }
    assert (v + full) * t == v * t + full * t;
    WrapSmall(v * t);
    assert v * t == t * v;
    DivModUnique(v * t, t, v, 0);
  }

  /** `ParseInt32` */
  method ParseInt32(s: seq<Byte>) returns (r: Result<int>)
    ensures forall x :: r == Ok(x) <==> MIN32 <= x <= MAX32 && s == Content(x)
    ensures r == Err(Empty) <==> s == []
    ensures r == Err(NotMinimal) <==> s != [] && s != Content(Value(s))
  {
    RefusedIff(s);
    var r64 := ParseInt64(s);
    forall x ensures ParseSpec(s) == Ok(x) <==> MIN64 <= x <= MAX64 && s == Content(x) { ParseIff(s, x); }
    if r64.Err? { return Err(r64.error); }
    var u := r64.value % 0x1_0000_0000;
    var truncated := if u > MAX32 then u - 0x1_0000_0000 else u;
    if r64.value != truncated { return Err(TooLarge); }
    r := Ok(truncated);
  }

  // ─── the encoder ────────────────────────────────────────────────────

  /** `int64Encoder.Len` */
  method ContentLen(x: int) returns (n: nat)
    ensures n == |Content(x)|
  {
    n := 1;
    var i := x;
    while i > 127
      invariant |Content(x)| == n - 1 + |Content(i)| && n >= 1
      decreases i
    {
      n, i := n + 1, i / 256;
    }
    while i < -128
      invariant |Content(x)| == n - 1 + |Content(i)| && n >= 1 && i <= 127
      decreases -i
    {
      n, i := n + 1, i / 256;
    }
  }

  /** `x >> 8k`, an arithmetic shift. */
  function ShiftDown(x: int, k: nat): int
    decreases k
  {
    if k == 0 then x else ShiftDown(x / 256, k - 1)
  }

  lemma {:induction false} ContentAt(x: int, j: nat)
    requires j < |Content(x)|
    ensures Content(x)[j] == ShiftDown(x, |Content(x)| - 1 - j) % 256
    decreases if x < 0 then -x else x
  {
    if -128 <= x <= 127 || j >= |Content(x)| - 1 {
    } else {
      ContentAt(x / 256, j);
    }
  }

  /** `int64Encoder.Encode`, in place. */
  method EncodeInt64(dst: array<Byte>, x: int)
    requires dst.Length >= |Content(x)|
    modifies dst
    ensures dst[..|Content(x)|] == Content(x)
    ensures dst[|Content(x)|..] == old(dst[|Content(x)|..])
  {
    var n := ContentLen(x);
    var j := 0;
    while j < n
      invariant 0 <= j <= n && dst[..j] == Content(x)[..j]
      invariant dst[n..] == old(dst[n..])
    {
      ContentAt(x, j);
      dst[j] := ShiftDown(x, n - 1 - j) % 256;
      j := j + 1;
    }
  }
}
