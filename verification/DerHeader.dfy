/** DER identifier and length octets (X.690 sections 8.1 and 10.1): the parser of
    src/encoding/asn1/mod.rs and the encoder of src/encoding/asn1/marshal.rs. */
module DerHeader {

  import opened Arithmetic
  import opened Bytes

  const MAX_INT32: nat := 0x7FFF_FFFF

  /** The fields are machine integers; nothing keeps a caller from negative ones. */
  datatype Header = Header(cls: int, tag: int, length: int, isCompound: bool)

  datatype Error =
    | Internal | Truncated | NotMinimal | Base128TooLarge | TruncatedBase128
    | NonMinimalTag | Indefinite | LengthTooLarge | LeadingZeros | NonMinimalLength

  datatype Parsed<T> = Ok(value: T, offset: nat) | Err(error: Error, offset: nat)

  // ─── big-endian numbers ─────────────────────────────────────────────

  /** The bytes lo..hi as digits in base b, most significant first, behind the value a. */
  function Horner(bytes: seq<Byte>, lo: nat, hi: nat, a: nat, b: nat): nat
    requires lo <= hi <= |bytes| && b > 0
  {
    if lo == hi then a else Horner(bytes, lo, hi - 1, a, b) * b + bytes[hi - 1] % b
  }

  lemma {:induction false} HornerFirst(bytes: seq<Byte>, lo: nat, hi: nat, a: nat, b: nat)
    requires lo < hi <= |bytes| && b > 0
    ensures Horner(bytes, lo, hi, a, b) == Horner(bytes, lo + 1, hi, a * b + bytes[lo] % b, b)
    decreases hi
  {
    if lo + 1 < hi {
      HornerFirst(bytes, lo, hi - 1, a, b);
    } else {
      assert Horner(bytes, lo, lo, a, b) == a;
    }
  }

  // ─── base 128 ───────────────────────────────────────────────────────

  /** Seven bits to a byte, the top bit set on every byte. */
  function Continued(n: nat): seq<Byte> {
    if n < 128 then [n + 128] else Continued(n / 128) + [n % 128 + 128]
  }

  /** Minimal base 128: the top bit clear on the last byte only. */
  function Base128(n: nat): (s: seq<Byte>)
    ensures |s| >= 1
  {
    if n < 128 then [n] else Continued(n / 128) + [n % 128]
  }

  /** `base128IntLength` */
  method Base128Len(n: nat) returns (l: nat)
    ensures l == |Base128(n)|
  {
    if n == 0 { return 1; }
    l := 0;
    var i := n;
    while i > 0
      invariant i >= 0 && |Base128(n)| == l + (if i == 0 then 0 else |Continued(i)|)
      decreases i
    {
      ContinuedLength(i);
      l, i := l + 1, i / 128;
    }
  }

  /** `appendBase128Int` */
  method AppendBase128(dst: seq<Byte>, n: nat) returns (out: seq<Byte>)
    ensures out == dst + Base128(n)
  {
    var l := Base128Len(n);
    out := dst;
    var k := l;
    while k > 0
      invariant 0 <= k <= l && out == dst + Base128(n)[..l - k]
    {
      k := k - 1;
      DigitAt(n, l - 1 - k);
      out := out + [Shift7(n, k) % 128 + (if k != 0 then 128 else 0)];
    }
  }

  lemma ContinuedLength(i: nat)
    requires i > 0
    ensures |Continued(i)| == 1 + (if i / 128 == 0 then 0 else |Continued(i / 128)|)
  {
  }

  /** `n >> 7k` */
  function Shift7(n: nat, k: nat): nat {
    if k == 0 then n else Shift7(n / 128, k - 1)
  }

  lemma {:induction false} ContinuedAt(n: nat, j: nat)
    requires j < |Continued(n)|
    ensures Continued(n)[j] == Shift7(n, |Continued(n)| - 1 - j) % 128 + 128
  {
    if n < 128 || j >= |Continued(n)| - 1 {
    } else {
      ContinuedAt(n / 128, j);
    }
    if n < 128 { assert |Continued(n)| == 1; }
  }

  lemma DigitAt(n: nat, j: nat)
    requires j < |Base128(n)|
    ensures Base128(n)[j] == Shift7(n, |Base128(n)| - 1 - j) % 128 + (if j != |Base128(n)| - 1 then 128 else 0)
  {
    if n >= 128 && j < |Base128(n)| - 1 { ContinuedAt(n / 128, j); }
  }

  /** The parser's view: bytes lo..hi continue up to the last one. */
  predicate Run(bytes: seq<Byte>, lo: nat, hi: nat) {
    && lo < hi <= |bytes| && bytes[hi - 1] < 128
    && forall i :: lo <= i < hi - 1 ==> bytes[i] >= 128
  }

  /** `parseBase128Int` with `shifted` bytes already read into `acc`. */
  function ParseBase128(bytes: seq<Byte>, offset: nat, shifted: nat, acc: nat): (r: Parsed<nat>)
    decreases |bytes| - offset
  {
    if offset >= |bytes| then Err(TruncatedBase128, offset)
    else if shifted == 5 then Err(Base128TooLarge, offset)
    else if shifted == 0 && bytes[offset] == 0x80 then Err(NotMinimal, offset)
    else
      var acc' := acc * 128 + bytes[offset] % 128;
      if bytes[offset] < 128 then
        if acc' > MAX_INT32 then Err(Base128TooLarge, offset + 1) else Ok(acc', offset + 1)
      else ParseBase128(bytes, offset + 1, shifted + 1, acc')
  }

  /** Exactly which byte runs the parser accepts, and their values. */
  lemma {:induction false} ParseBase128Iff(bytes: seq<Byte>, offset: nat, shifted: nat, acc: nat, n: nat, end: nat)
    requires shifted <= 5
    ensures ParseBase128(bytes, offset, shifted, acc) == Ok(n, end) <==>
      && Run(bytes, offset, end) && shifted + (end - offset) <= 5 && (shifted == 0 ==> bytes[offset] != 0x80)
      && n == Horner(bytes, offset, end, acc, 128) && n <= MAX_INT32
    decreases |bytes| - offset
  {
    if offset >= |bytes| {
    } else {
      var acc' := acc * 128 + bytes[offset] % 128;
      if bytes[offset] < 128 {
        assert Horner(bytes, offset, offset + 1, acc, 128) == acc' by {
          assert Horner(bytes, offset, offset, acc, 128) == acc;
        }
      } else if shifted < 5 {
        ParseBase128Iff(bytes, offset + 1, shifted + 1, acc', n, end);
        if offset + 1 < end <= |bytes| {
          HornerFirst(bytes, offset, end, acc, 128);
          RunFirst(bytes, offset, end);
        }
      }
    }
  }

  lemma RunFirst(bytes: seq<Byte>, lo: nat, hi: nat)
    requires lo + 1 < hi <= |bytes| && bytes[lo] >= 128
    ensures Run(bytes, lo, hi) <==> Run(bytes, lo + 1, hi)
  {
  }

  /** The value of a whole string of digits. */
  function Digits(s: seq<Byte>, b: nat): nat
    requires b > 0
  {
    if s == [] then 0 else Digits(s[..|s| - 1], b) * b + s[|s| - 1] % b
  }

  lemma {:induction false} HornerDigits(bytes: seq<Byte>, lo: nat, hi: nat, b: nat)
    requires lo <= hi <= |bytes| && b > 0
    ensures Horner(bytes, lo, hi, 0, b) == Digits(bytes[lo..hi], b)
  {
    if lo >= hi {
    } else {
      HornerDigits(bytes, lo, hi - 1, b);
      assert bytes[lo..hi][..hi - lo - 1] == bytes[lo..hi - 1];
    }
  }

  lemma DigitsSnoc(s: seq<Byte>, x: Byte, b: nat)
    requires b > 0
    ensures Digits(s + [x], b) == Digits(s, b) * b + x % b
  {
    assert (s + [x])[..|s|] == s;
  }

  predicate AllHigh(s: seq<Byte>) {
    forall i :: 0 <= i < |s| ==> s[i] >= 128
  }

  lemma {:induction false} ContinuedForward(n: nat)
    requires n > 0
    ensures Digits(Continued(n), 128) == n && Continued(n)[0] != 0x80 && AllHigh(Continued(n))
  {
    if n < 128 {
      assert Digits([], 128) == 0;
      DigitsSnoc([], n + 128, 128);
      assert [] + [(n + 128) as Byte] == [(n + 128) as Byte];
    } else {
      ContinuedForward(n / 128);
      ContinuedStep(Continued(n / 128), n / 128, n % 128, n);
    }
  }

  lemma ContinuedStep(s: seq<Byte>, q: nat, r: nat, n: nat)
    requires s != [] && s[0] != 0x80 && AllHigh(s) && Digits(s, 128) == q && r < 128 && n == q * 128 + r
    ensures var t := s + [r + 128]; Digits(t, 128) == n && t[0] != 0x80 && AllHigh(t)
  {
    DigitsSnoc(s, r + 128, 128);
  }

  lemma {:induction false} ContinuedBackward(s: seq<Byte>)
    requires s != [] && s[0] != 0x80 && AllHigh(s)
    ensures Digits(s, 128) > 0 && Continued(Digits(s, 128)) == s
  {
    var t, x := s[..|s| - 1], s[|s| - 1];
    assert s == t + [x];
    DigitsSnoc(t, x, 128);
    if t == [] {
    } else {
      ContinuedBackward(t);
    }
    GroupValue(Digits(t, 128), Digits(s, 128), x);
  }

  /** One more digit at the end, with its top bit set or clear. */
  lemma GroupValue(m: nat, v: nat, x: Byte)
    requires v == m * 128 + x % 128
    ensures x >= 128 && m > 0 ==> v > 0 && Continued(v) == Continued(m) + [x]
    ensures x > 128 && m == 0 ==> v > 0 && Continued(v) == [x]
    ensures x < 128 && m > 0 ==> Base128(v) == Continued(m) + [x]
    ensures x < 128 && m == 0 ==> Base128(v) == [x]
  {
    assert v / 128 == m && v % 128 == x % 128;
  }

  /** A run without a leading 0x80 is the minimal encoding of its value. */
  lemma Base128Forward(n: nat)
    ensures var s := Base128(n);
      Run(s, 0, |s|) && s[0] != 0x80 && Digits(s, 128) == n
  {
    if n < 128 {
      assert [] + [n as Byte] == [n as Byte];
      DigitsSnoc([], n, 128);
    } else {
      var c := Continued(n / 128);
      ContinuedForward(n / 128);
      DigitsSnoc(c, n % 128, 128);
    }
  }

  lemma Base128Backward(t: seq<Byte>, x: Byte)
    requires x < 128 && AllHigh(t) && (t != [] ==> t[0] != 0x80)
    ensures Base128(Digits(t + [x], 128)) == t + [x]
  {
    DigitsSnoc(t, x, 128);
    if t != [] { ContinuedBackward(t); }
    GroupValue(Digits(t, 128), Digits(t + [x], 128), x);
  }

  lemma Base128Iff(bytes: seq<Byte>, lo: nat, hi: nat, n: nat)
    requires lo < hi <= |bytes|
    ensures Run(bytes, lo, hi) && bytes[lo] != 0x80 && n == Horner(bytes, lo, hi, 0, 128) <==>
      bytes[lo..hi] == Base128(n)
  {
    var s := bytes[lo..hi];
    HornerDigits(bytes, lo, hi, 128);
    RunOfSlice(bytes, lo, hi);
    if s == Base128(n) { Base128Forward(n); }
    if Run(bytes, lo, hi) && bytes[lo] != 0x80 {
      assert s == s[..|s| - 1] + [s[|s| - 1]];
      Base128Backward(s[..|s| - 1], s[|s| - 1]);
    }
  }

  lemma RunOfSlice(bytes: seq<Byte>, lo: nat, hi: nat)
    requires lo < hi <= |bytes|
    ensures Run(bytes, lo, hi) <==> Run(bytes[lo..hi], 0, hi - lo)
  {
    var s := bytes[lo..hi];
    assert forall i :: 0 <= i < |s| ==> s[i] == bytes[lo + i];
    if Run(s, 0, hi - lo) {
      forall i | lo <= i < hi - 1 ensures bytes[i] >= 128 { assert s[i - lo] >= 128; }
    }
  }

  lemma Base128Short(n: nat)
    requires n <= MAX_INT32
    ensures |Base128(n)| <= 5
  {
    var n1 := n / 128;
    var n2 := n1 / 128;
    var n3 := n2 / 128;
    assert n3 / 128 < 128;
    assert |Continued(n3 / 128)| == 1 && |Continued(n3)| <= 2 && |Continued(n2)| <= 3 && |Continued(n1)| <= 4;
  }

  /** The tag parser accepts exactly the minimal encodings of numbers up to 2^31 - 1. */
  lemma TagIff(bytes: seq<Byte>, offset: nat, n: nat, end: nat)
    ensures ParseBase128(bytes, offset, 0, 0) == Ok(n, end) <==>
      offset < end <= |bytes| && bytes[offset..end] == Base128(n) && n <= MAX_INT32
  {
    ParseBase128Iff(bytes, offset, 0, 0, n, end);
    if offset < end <= |bytes| {
      Base128Iff(bytes, offset, end, n);
      if n <= MAX_INT32 { Base128Short(n); }
    }
  }

  // ─── long-form lengths ──────────────────────────────────────────────

  /** Minimal base 256. */
  function Base256(n: nat): (s: seq<Byte>)
    ensures |s| >= 1
  {
    if n < 256 then [n] else Base256(n / 256) + [n % 256]
  }

  /** `lengthLength` */
  method LengthLength(n: nat) returns (l: nat)
    ensures l == |Base256(n)|
  {
    l := 1;
    var i := n;
    while i > 255
      invariant i >= 0 && |Base256(n)| == l - 1 + |Base256(i)|
    {
      l, i := l + 1, i / 256;
    }
  }

  /** `n >> 8k` */
  function Shift8(n: nat, k: nat): nat {
    if k == 0 then n else Shift8(n / 256, k - 1)
  }

  lemma {:induction false} Base256At(n: nat, j: nat)
    requires j < |Base256(n)|
    ensures Base256(n)[j] == Shift8(n, |Base256(n)| - 1 - j) % 256
  {
    if n < 256 || j >= |Base256(n)| - 1 {
    } else {
      Base256At(n / 256, j);
    }
    if n < 256 { assert |Base256(n)| == 1; }
  }

  /** `appendLength` */
  method AppendLength(dst: seq<Byte>, n: nat) returns (out: seq<Byte>)
    ensures out == dst + Base256(n)
  {
    var l := LengthLength(n);
    out := dst;
    var k := l;
    while k > 0
      invariant 0 <= k <= l && out == dst + Base256(n)[..l - k]
    {
      Base256At(n, l - k);
      out := out + [Shift8(n, k - 1) % 256];
      k := k - 1;
    }
  }

  /** The loop over the length bytes of `parseTagAndLength`. */
  function ParseLength(bytes: seq<Byte>, offset: nat, count: nat, acc: nat): (r: Parsed<nat>)
    decreases count
  {
    if count == 0 then Ok(acc, offset)
    else if offset >= |bytes| then Err(Truncated, offset)
    else if acc >= 0x80_0000 then Err(LengthTooLarge, offset + 1)
    else
      var acc' := acc * 256 + bytes[offset];
      if acc' == 0 then Err(LeadingZeros, offset + 1) else ParseLength(bytes, offset + 1, count - 1, acc')
  }

  lemma {:induction false} HornerGrows(bytes: seq<Byte>, lo: nat, hi: nat, a: nat)
    requires lo <= hi <= |bytes|
    ensures Horner(bytes, lo, hi, a, 256) >= a
  {
    if lo >= hi {
    } else {
      HornerGrows(bytes, lo, hi - 1, a);
    }
  }

  /** Exactly which length bytes the loop accepts. */
  lemma {:induction false} ParseLengthIff(bytes: seq<Byte>, offset: nat, count: nat, acc: nat, n: nat, end: nat)
    requires count > 0 && acc * 256 <= 0x7FFF_FFFF_FFFF
    ensures ParseLength(bytes, offset, count, acc) == Ok(n, end) <==>
      && end == offset + count <= |bytes| && (acc == 0 ==> bytes[offset] != 0)
      && n == Horner(bytes, offset, end, acc, 256) && n < 0x8000_0000
    decreases count
  {
    if offset >= |bytes| {
    } else {
      var acc' := acc * 256 + bytes[offset];
      assert Horner(bytes, offset, offset, acc, 256) == acc;
      assert Horner(bytes, offset, offset + 1, acc, 256) == acc';
      if offset + count <= |bytes| {
        HornerFirst(bytes, offset, offset + count, acc, 256);
        HornerGrows(bytes, offset + 1, offset + count, acc');
      }
      if acc < 0x80_0000 && acc' != 0 && count > 1 {
        ParseLengthIff(bytes, offset + 1, count - 1, acc', n, end);
      }
    }
  }

  lemma {:induction false} Base256Forward(n: nat)
    requires n > 0
    ensures Digits(Base256(n), 256) == n && Base256(n)[0] != 0
  {
    if n < 256 {
      assert [] + [n as Byte] == [n as Byte];
      DigitsSnoc([], n, 256);
    } else {
      Base256Forward(n / 256);
      Base256Step(Base256(n / 256), n / 256, n % 256, n);
    }
  }

  lemma Base256Step(s: seq<Byte>, q: nat, r: Byte, n: nat)
    requires s != [] && s[0] != 0 && Digits(s, 256) == q && n == q * 256 + r
    ensures Digits(s + [r], 256) == n && (s + [r])[0] != 0
  {
    DigitsSnoc(s, r, 256);
  }

  lemma {:induction false} Base256Backward(s: seq<Byte>)
    requires s != [] && s[0] != 0
    ensures Digits(s, 256) > 0 && Base256(Digits(s, 256)) == s
  {
    var t, x := s[..|s| - 1], s[|s| - 1];
    assert s == t + [x];
    DigitsSnoc(t, x, 256);
    if t == [] {
      Base256Group(0, Digits(s, 256), x);
    } else {
      Base256Backward(t);
      Base256Group(Digits(t, 256), Digits(s, 256), x);
    }
  }

  lemma Base256Group(m: nat, v: nat, x: Byte)
    requires v == m * 256 + x % 256
    ensures m > 0 ==> v > 0 && Base256(v) == Base256(m) + [x]
    ensures m == 0 && x > 0 ==> v > 0 && Base256(v) == [x]
  {
    ModBelow(x, 256);
    DivModUnique(v, 256, m, x);
  }

  /** Length bytes without a leading zero are the minimal encoding of their value. */
  lemma Base256Iff(bytes: seq<Byte>, lo: nat, hi: nat, n: nat)
    requires lo < hi <= |bytes| && n > 0
    ensures bytes[lo] != 0 && n == Horner(bytes, lo, hi, 0, 256) <==> bytes[lo..hi] == Base256(n)
  {
    HornerDigits(bytes, lo, hi, 256);
    if bytes[lo..hi] == Base256(n) { Base256Forward(n); }
    if bytes[lo] != 0 { Base256Backward(bytes[lo..hi]); }
  }

  lemma Base256Short(n: nat)
    requires n < 0x8000_0000
    ensures |Base256(n)| <= 4
  {
    assert |Base256(n / 256 / 256)| <= 2;
    assert |Base256(n / 256)| <= 3;
  }

  // ─── headers ────────────────────────────────────────────────────────

  /** The low k bits of x | y. */
  function Or(x: nat, y: nat, k: nat): (r: nat)
    ensures r < Pow2(k)
  {
    if k == 0 then 0 else (if x % 2 == 1 || y % 2 == 1 then 1 else 0) + 2 * Or(x / 2, y / 2, k - 1)
  }

  function OrByte(x: Byte, y: Byte): Byte {
    assert Pow2(8) == 256;
    Or(x, y, 8)
  }

  lemma {:induction false} OrZero(x: nat, k: nat)
    requires x < Pow2(k)
    ensures Or(x, 0, k) == x
  {
    if k == 0 {
    } else {
      OrZero(x / 2, k - 1);
    }
  }

  /** Bits that do not overlap add up. */
  lemma {:induction false} OrApart(a: nat, y: nat, j: nat, k: nat)
    requires j <= k && y < Pow2(j) && a < Pow2(k - j)
    ensures Or(a * Pow2(j), y, k) == a * Pow2(j) + y
  {
    if j == 0 {
      OrZero(a, k);
    } else {
      var p := Pow2(j - 1);
      assert a * Pow2(j) == 2 * (a * p);
      OrApart(a, y / 2, j - 1, k - 1);
    }
  }

  lemma OrLow(b: Byte, y: Byte)
    requires b % 32 == 0 && y < 32
    ensures OrByte(b, y) == b + y
  {
    assert Pow2(5) == 32 && Pow2(3) == 8 && Pow2(8) == 256;
    assert b == b / 32 * 32;
    OrApart(b / 32, y, 5, 8);
  }

  /** Class and constructed bit. */
  function Leading(h: Header): (b: Byte)
    ensures b % 32 == 0
  {
    h.cls % 4 * 64 + (if h.isCompound then 32 else 0)
  }

  /** The identifier octets; only the low byte of a tag below 31 goes in, whatever its sign. */
  function Identifier(h: Header): seq<Byte> {
    if h.tag >= 31 then [Leading(h) + 31] + Base128(h.tag) else [OrByte(Leading(h), h.tag % 256)]
  }

  /** The length octets; as in the code, only the low byte of the count is kept, and of a length
      below 128. */
  function LengthOctets(n: int): seq<Byte> {
    if n >= 128 then [128 + |Base256(n)| % 128] + Base256(n) else [n % 256]
  }

  function Octets(h: Header): seq<Byte> {
    Identifier(h) + LengthOctets(h.length)
  }

  /** The first identifier octet of a header that fits. */
  function First(h: Header): int {
    h.cls * 64 + (if h.isCompound then 32 else 0) + (if h.tag >= 31 then 31 else h.tag)
  }

  lemma IdentifierOctets(h: Header)
    requires 0 <= h.cls < 4 && 0 <= h.tag
    ensures 0 <= First(h) < 256
    ensures Identifier(h) == [First(h)] + if h.tag >= 31 then Base128(h.tag) else []
  {
    ModBelow(h.cls, 4);
    if h.tag < 31 { ShortTag(Leading(h), h.tag); }
  }

  lemma ShortTag(b: Byte, tag: nat)
    requires b % 32 == 0 && tag < 31
    ensures OrByte(b, tag % 256) == b + tag
  {
    ModBelow(tag, 256);
    OrLow(b, tag);
  }

  /** `appendTagAndLength`, for all values of the fields. */
  method AppendTagAndLength(dst: seq<Byte>, h: Header) returns (out: seq<Byte>)
    ensures out == dst + Octets(h)
  {
    var b: Byte := h.cls % 4 * 64;
    if h.isCompound {
      b := b + 0x20;
    }
    if h.tag >= 31 {
      out := AppendBase128(dst + [b + 0x1f], h.tag);
    } else {
      out := dst + [OrByte(b, h.tag % 256)];
    }
    assert out == dst + Identifier(h);
    out := AppendLengthOctets(out, h.length);
  }

  method AppendLengthOctets(dst: seq<Byte>, n: int) returns (out: seq<Byte>)
    ensures out == dst + LengthOctets(n)
  {
    if n >= 128 {
      var l := LengthLength(n);
      out := AppendLength(dst + [0x80 + l % 128], n);
    } else {
      out := dst + [n % 256];
    }
  }

  /** `parseTagAndLength` */
  function Parse(bytes: seq<Byte>, offset: nat): Parsed<Header> {
    if offset >= |bytes| then Err(Internal, offset)
    else
      var b := bytes[offset];
      if b % 32 == 31 then
        match ParseBase128(bytes, offset + 1, 0, 0)
        case Err(e, o) => Err(e, o)
        case Ok(tag, o) =>
          if tag < 31 then Err(NonMinimalTag, o) else ParseRest(bytes, o, b / 64, tag, b / 32 % 2 == 1)
      else ParseRest(bytes, offset + 1, b / 64, b % 32, b / 32 % 2 == 1)
  }

  /** The length, after the tag. */
  function ParseRest(bytes: seq<Byte>, offset: nat, cls: nat, tag: nat, isCompound: bool): Parsed<Header> {
    if offset >= |bytes| then Err(Truncated, offset)
    else
      var b := bytes[offset];
      if b < 128 then Ok(Header(cls, tag, b, isCompound), offset + 1)
      else if b == 128 then Err(Indefinite, offset + 1)
      else
        match ParseLength(bytes, offset + 1, b - 128, 0)
        case Err(e, o) => Err(e, o)
        case Ok(n, o) => if n < 128 then Err(NonMinimalLength, o) else Ok(Header(cls, tag, n, isCompound), o)
  }

  /** The headers DER can carry and this parser reads. */
  predicate Fits(h: Header) {
    0 <= h.cls < 4 && 0 <= h.tag <= MAX_INT32 && 0 <= h.length < 0x8000_0000
  }

  /** Exactly which length octets are accepted. */
  lemma RestIff(bytes: seq<Byte>, offset: nat, cls: nat, tag: nat, isCompound: bool, n: nat, end: nat)
    ensures ParseRest(bytes, offset, cls, tag, isCompound) == Ok(Header(cls, tag, n, isCompound), end) <==>
      offset < end <= |bytes| && n < 0x8000_0000 && bytes[offset..end] == LengthOctets(n)
  {
    if offset < |bytes| {
      if bytes[offset] > 128 {
        LongFormIff(bytes, offset, n, end);
      } else {
        ShortFormIff(bytes, offset, n, end);
      }
    }
  }

  lemma ShortFormIff(bytes: seq<Byte>, offset: nat, n: nat, end: nat)
    requires offset < |bytes| && bytes[offset] <= 128
    ensures offset < end <= |bytes| && n < 0x8000_0000 && bytes[offset..end] == LengthOctets(n)
      <==> bytes[offset] < 128 && n == bytes[offset] && end == offset + 1
  {
    if offset < end <= |bytes| && n < 0x8000_0000 && bytes[offset..end] == LengthOctets(n) {
      assert bytes[offset] == LengthOctets(n)[0];
      ShortFirst(n);
    }
  }

  /** The first length octet tells the short form from the long one. */
  lemma ShortFirst(n: nat)
    requires n < 0x8000_0000 && LengthOctets(n)[0] <= 128
    ensures n < 128
  {
    Base256Short(n);
  }

  lemma LongFormIff(bytes: seq<Byte>, offset: nat, n: nat, end: nat)
    requires offset < |bytes| && bytes[offset] > 128
    ensures offset < end <= |bytes| && n < 0x8000_0000 && bytes[offset..end] == LengthOctets(n)
      <==> n >= 128 && ParseLength(bytes, offset + 1, bytes[offset] - 128, 0) == Ok(n, end)
  {
    if offset < end <= |bytes| && n < 0x8000_0000 && bytes[offset..end] == LengthOctets(n) {
      assert bytes[offset] == LengthOctets(n)[0];
      LongForward(bytes, offset, n, end);
    }
    if n >= 128 && ParseLength(bytes, offset + 1, bytes[offset] - 128, 0) == Ok(n, end) {
      LongBackward(bytes, offset, n, end);
    }
  }

  lemma LongForward(bytes: seq<Byte>, offset: nat, n: nat, end: nat)
    requires offset < end <= |bytes| && 128 <= n < 0x8000_0000 && bytes[offset..end] == LengthOctets(n)
    ensures bytes[offset] > 128 && ParseLength(bytes, offset + 1, bytes[offset] - 128, 0) == Ok(n, end)
  {
    Base256Short(n);
    LongParts(bytes, offset, Base256(n), end);
    Base256Iff(bytes, offset + 1, end, n);
    ParseLengthIff(bytes, offset + 1, bytes[offset] - 128, 0, n, end);
  }

  lemma LongParts(bytes: seq<Byte>, offset: nat, s: seq<Byte>, end: nat)
    requires |s| <= 4 && offset < end <= |bytes| && bytes[offset..end] == [128 + |s|] + s
    ensures bytes[offset] == 128 + |s| && bytes[offset + 1..end] == s
  {
    assert bytes[offset] == bytes[offset..end][0];
    assert bytes[offset + 1..end] == bytes[offset..end][1..];
  }

  lemma LongBackward(bytes: seq<Byte>, offset: nat, n: nat, end: nat)
    requires offset < |bytes| && bytes[offset] > 128 && n >= 128
    requires ParseLength(bytes, offset + 1, bytes[offset] - 128, 0) == Ok(n, end)
    ensures offset < end <= |bytes| && n < 0x8000_0000 && bytes[offset..end] == LengthOctets(n)
  {
    var b := bytes[offset];
    ParseLengthIff(bytes, offset + 1, b - 128, 0, n, end);
    Base256Iff(bytes, offset + 1, end, n);
    LongOctets(bytes, offset, b, n, end);
  }

  lemma LongOctets(bytes: seq<Byte>, offset: nat, b: Byte, n: nat, end: nat)
    requires offset < end <= |bytes| && b == bytes[offset] == 128 + (end - offset - 1)
    requires n >= 128 && bytes[offset + 1..end] == Base256(n)
    ensures bytes[offset..end] == LengthOctets(n)
  {
    assert bytes[offset..end] == [b] + bytes[offset + 1..end];
  }

  lemma IdentifierBits(b: Byte)
    ensures b == b / 64 * 64 + (if b / 32 % 2 == 1 then 32 else 0) + b % 32
  {
  }

  /** Parsing a header gives h and consumes up to `end` exactly when the bytes consumed are the
      ones the encoder writes for h, and h fits. */
  lemma HeaderIff(bytes: seq<Byte>, offset: nat, h: Header, end: nat)
    ensures Parse(bytes, offset) == Ok(h, end) <==>
      Fits(h) && offset < end <= |bytes| && bytes[offset..end] == Octets(h)
  {
    if Parse(bytes, offset) == Ok(h, end) { HeaderBackward(bytes, offset, h, end); }
    if Fits(h) && offset < end <= |bytes| && bytes[offset..end] == Octets(h) { HeaderForward(bytes, offset, h, end); }
  }

  lemma HeaderForward(bytes: seq<Byte>, offset: nat, h: Header, end: nat)
    requires Fits(h) && offset < end <= |bytes| && bytes[offset..end] == Octets(h)
    ensures Parse(bytes, offset) == Ok(h, end)
  {
    var id := Identifier(h);
    var mid := offset + |id|;
    CutParts(bytes, offset, end, id, LengthOctets(h.length));
    IdentifierForward(bytes, offset, h, mid);
    RestIff(bytes, mid, h.cls, h.tag, h.isCompound, h.length, end);
  }

  lemma CutParts(bytes: seq<Byte>, offset: nat, end: nat, id: seq<Byte>, rest: seq<Byte>)
    requires offset <= end <= |bytes| && bytes[offset..end] == id + rest
    ensures var mid := offset + |id|; mid <= end && bytes[offset..mid] == id && bytes[mid..end] == rest
  {
    var mid := offset + |id|;
    assert bytes[offset..end][..|id|] == bytes[offset..mid];
    assert bytes[offset..end][|id|..] == bytes[mid..end];
  }

  lemma IdentifierForward(bytes: seq<Byte>, offset: nat, h: Header, mid: nat)
    requires Fits(h) && offset < mid <= |bytes| && bytes[offset..mid] == Identifier(h)
    ensures Parse(bytes, offset) == ParseRest(bytes, mid, h.cls, h.tag, h.isCompound)
  {
    IdentifierOctets(h);
    CutParts(bytes, offset, mid, [First(h)], if h.tag >= 31 then Base128(h.tag) else []);
    assert bytes[offset] == bytes[offset..offset + 1][0];
    IdentifierParts(h, bytes[offset]);
    if h.tag >= 31 { TagIff(bytes, offset + 1, h.tag, mid); }
  }

  lemma IdentifierParts(h: Header, b: Byte)
    requires 0 <= h.cls < 4 && 0 <= h.tag && b == First(h)
    ensures b / 64 == h.cls && b % 32 == (if h.tag >= 31 then 31 else h.tag) && (b / 32 % 2 == 1) == h.isCompound
  {
  }

  lemma HeaderBackward(bytes: seq<Byte>, offset: nat, h: Header, end: nat)
    requires Parse(bytes, offset) == Ok(h, end)
    ensures Fits(h) && offset < end <= |bytes| && bytes[offset..end] == Octets(h)
  {
    var mid := IdentifierEnd(bytes, offset, h, end);
    RestIff(bytes, mid, h.cls, h.tag, h.isCompound, h.length, end);
    BothParts(bytes, offset, mid, end, h);
  }

  /** Where the identifier octets end and the length octets begin. */
  lemma IdentifierEnd(bytes: seq<Byte>, offset: nat, h: Header, end: nat) returns (mid: nat)
    requires Parse(bytes, offset) == Ok(h, end)
    ensures offset < mid <= |bytes| && 0 <= h.cls < 4 && 0 <= h.tag <= MAX_INT32 && bytes[offset..mid] == Identifier(h)
    ensures ParseRest(bytes, mid, h.cls, h.tag, h.isCompound) == Ok(h, end)
  {
    var b := bytes[offset];
    mid := if b % 32 == 31 then ParseBase128(bytes, offset + 1, 0, 0).offset else offset + 1;
    RestHeader(bytes, mid, b / 64, h.tag, b / 32 % 2 == 1);
    if b % 32 == 31 { TagIff(bytes, offset + 1, h.tag, mid); }
    IdentifierOf(bytes, offset, mid, h);
  }

  lemma BothParts(bytes: seq<Byte>, offset: nat, mid: nat, end: nat, h: Header)
    requires offset <= mid <= end <= |bytes|
    requires bytes[offset..mid] == Identifier(h) && bytes[mid..end] == LengthOctets(h.length)
    ensures bytes[offset..end] == Octets(h)
  {
    assert bytes[offset..end] == bytes[offset..mid] + bytes[mid..end];
  }

  lemma IdentifierOf(bytes: seq<Byte>, offset: nat, mid: nat, h: Header)
    requires offset < mid <= |bytes| && h.cls == bytes[offset] / 64 && h.isCompound == (bytes[offset] / 32 % 2 == 1)
    requires if bytes[offset] % 32 == 31 then h.tag >= 31 && bytes[offset + 1..mid] == Base128(h.tag)
             else h.tag == bytes[offset] % 32 && mid == offset + 1
    ensures bytes[offset..mid] == Identifier(h) && 0 <= h.cls < 4
  {
    IdentifierBits(bytes[offset]);
    IdentifierOctets(h);
    assert bytes[offset..mid] == [bytes[offset]] + bytes[offset + 1..mid];
  }

  lemma RestHeader(bytes: seq<Byte>, offset: nat, cls: nat, tag: nat, isCompound: bool)
    ensures var r := ParseRest(bytes, offset, cls, tag, isCompound);
      r.Ok? ==> r.value.cls == cls && r.value.tag == tag && r.value.isCompound == isCompound
  {
  }

  /** For every header, whatever is around it: parsing what was appended gives the same fields and
      consumes exactly those bytes, if and only if the fields fit. */
  lemma HeaderRoundTrip(before: seq<Byte>, h: Header, after: seq<Byte>)
    ensures Parse(before + Octets(h) + after, |before|) == Ok(h, |before + Octets(h)|) <==> Fits(h)
  {
    var bytes, end := before + Octets(h) + after, |before + Octets(h)|;
    HeaderIff(bytes, |before|, h, end);
    assert bytes[|before|..end] == Octets(h);
  }

  // ─── the parsers' loops ─────────────────────────────────────────────

  method ParseBase128Int(bytes: seq<Byte>, init: nat) returns (r: Parsed<nat>)
    ensures r == ParseBase128(bytes, init, 0, 0)
  {
    var offset, acc, shifted := init, 0, 0;
    while offset < |bytes|
      invariant init <= offset && 0 <= shifted <= 5 && acc >= 0
      invariant ParseBase128(bytes, offset, shifted, acc) == ParseBase128(bytes, init, 0, 0)
    {
      if shifted == 5 { return Err(Base128TooLarge, offset); }
      var b := bytes[offset];
      if shifted == 0 && b == 0x80 { return Err(NotMinimal, offset); }
      acc := acc * 128 + b % 128;
      offset := offset + 1;
      if b < 128 {
        return if acc > MAX_INT32 then Err(Base128TooLarge, offset) else Ok(acc, offset);
      }
      shifted := shifted + 1;
    }
    r := Err(TruncatedBase128, offset);
  }

  method ParseTagAndLength(bytes: seq<Byte>, init: nat) returns (r: Parsed<Header>)
    ensures r == Parse(bytes, init)
  {
    if init >= |bytes| { return Err(Internal, init); }
    var b := bytes[init];
    var offset := init + 1;
    var cls, isCompound, tag: nat := b / 64, b / 32 % 2 == 1, b % 32;
    if tag == 31 {
      var t := ParseBase128Int(bytes, offset);
      if t.Err? { return Err(t.error, t.offset); }
      tag, offset := t.value, t.offset;
      if tag < 31 { return Err(NonMinimalTag, offset); }
    }
    if offset >= |bytes| { return Err(Truncated, offset); }
    b := bytes[offset];
    offset := offset + 1;
    if b < 128 { return Ok(Header(cls, tag, b, isCompound), offset); }
    if b == 128 { return Err(Indefinite, offset); }
    var n := ReadLength(bytes, offset, b - 128);
    if n.Err? { return Err(n.error, n.offset); }
    if n.value < 128 { return Err(NonMinimalLength, n.offset); }
    r := Ok(Header(cls, tag, n.value, isCompound), n.offset);
  }

  method ReadLength(bytes: seq<Byte>, init: nat, count: nat) returns (r: Parsed<nat>)
    ensures r == ParseLength(bytes, init, count, 0)
  {
    var offset, length: int, i := init, 0, 0;
    while i < count
      invariant 0 <= i <= count && offset >= 0 && length >= 0
      invariant ParseLength(bytes, offset, count - i, length) == ParseLength(bytes, init, count, 0)
    {
      if offset >= |bytes| { return Err(Truncated, offset); }
      var b := bytes[offset];
      offset := offset + 1;
      if length >= 0x80_0000 { return Err(LengthTooLarge, offset); }
      length := length * 256 + b;
      if length == 0 { return Err(LeadingZeros, offset); }
      i := i + 1;
    }
    r := Ok(length, offset);
  }
}
