/** Variable-length integers of src/encoding/binary/varint.rs: seven bits to a byte, least
    significant first, at most ten bytes. */
module Varint {

  import opened Bytes
  import opened Arithmetic

  const MAX_LEN: nat := 10
  const WORD: nat := 0x1_0000_0000_0000_0000
  const MAX64: int := 0x7FFF_FFFF_FFFF_FFFF
  const MIN64: int := -0x8000_0000_0000_0000

  // ─── unsigned ───────────────────────────────────────────────────────

  function Encode(x: nat): (s: seq<Byte>)
    ensures |s| >= 1
  {
    if x < 128 then [x] else [x % 128 + 128] + Encode(x / 128)
  }

  /** `AppendUvarint` */
  method AppendUvarint(buf: seq<Byte>, x: nat) returns (out: seq<Byte>)
    ensures out == buf + Encode(x)
  {
    out := buf;
    var y := x;
    while y >= 128
      invariant y >= 0 && out + Encode(y) == buf + Encode(x)
    {
      assert out + [y % 128 + 128] + Encode(y / 128) == out + Encode(y);
      out, y := out + [y % 128 + 128], y / 128;
    }
    out := out + [y];
  }

  /** `PutUvarint`, in place; a buffer that is too small panics. */
  method PutUvarint(buf: array<Byte>, x: nat) returns (n: nat)
    requires buf.Length >= |Encode(x)|
    modifies buf
    ensures n == |Encode(x)| && buf[..n] == Encode(x)
    ensures buf[n..] == old(buf[n..])
  {
    var y, i := x, 0;
    while y >= 128
      invariant y >= 0 && 0 <= i && i + |Encode(y)| == |Encode(x)| && buf[..i] + Encode(y) == Encode(x)
      invariant buf[|Encode(x)|..] == old(buf[|Encode(x)|..])
    {
      assert buf[..i] + Encode(y) == (buf[..i] + [y % 128 + 128]) + Encode(y / 128);
      buf[i] := y % 128 + 128;
      y, i := y / 128, i + 1;
    }
    buf[i] := y;
    n := i + 1;
  }

  /** A value and the bytes read, an input that ends too early, or an overflow found at byte n. */
  datatype Decoded = Got(x: nat, n: nat) | TooShort | Overflow(n: nat)

  /** `Uvarint`, from byte i on, with the value so far and the weight of the next digit. */
  function Decode(buf: seq<Byte>, i: nat, acc: nat, weight: nat): Decoded
    decreases |buf| - i
  {
    if i >= |buf| then TooShort
    else if i == MAX_LEN then Overflow(i + 1)
    else if buf[i] < 128 then
      if i == MAX_LEN - 1 && buf[i] > 1 then Overflow(i + 1) else Got((acc + buf[i] * weight) % WORD, i + 1)
    else Decode(buf, i + 1, (acc + buf[i] % 128 * weight) % WORD, weight * 128 % WORD)
  }

  function Uvarint(buf: seq<Byte>): Decoded {
    Decode(buf, 0, 0, 1)
  }

  /** The loop of `Uvarint`. */
  method DecodeUvarint(buf: seq<Byte>) returns (r: Decoded)
    ensures r == Uvarint(buf)
  {
    var i, x, weight := 0, 0, 1;
    while i < |buf|
      invariant 0 <= i <= |buf| && x >= 0 && weight >= 0 && Decode(buf, i, x, weight) == Uvarint(buf)
    {
      var b: int := buf[i];
      if i == MAX_LEN { return Overflow(i + 1); }
      if b < 128 {
        if i == MAX_LEN - 1 && b > 1 { return Overflow(i + 1); }
        return Got((x + b * weight) % WORD, i + 1);
      }
      x, weight, i := (x + b % 128 * weight) % WORD, weight * 128 % WORD, i + 1;
    }
    r := TooShort;
  }

  /** The weight of digit i. */
  function Weight(i: nat): nat {
    Pow2(7 * i)
  }

  lemma WeightStep(i: nat)
    ensures Weight(i + 1) == Weight(i) * 128 && Weight(0) == 1
  {
    assert Pow2(7) == 128;
    Pow2Add(7 * i, 7);
  }

  lemma WeightFits(i: nat)
    ensures i <= 9 <==> Weight(i) < WORD
    ensures i <= 8 <==> Weight(i) * 128 < WORD
  {
    Pow2Words();
    if 7 * i < 63 { Pow2Monotone(7 * i, 63); }
    if 7 * i > 64 { Pow2Monotone(64, 7 * i); }
    if 7 * (i + 1) < 63 { Pow2Monotone(7 * (i + 1), 63); }
    if 7 * (i + 1) > 64 { Pow2Monotone(64, 7 * (i + 1)); }
    WeightStep(i);
  }

  predicate Holds(buf: seq<Byte>, i: nat, e: seq<Byte>) {
    i + |e| <= |buf| && buf[i..i + |e|] == e
  }

  lemma HoldsRest(buf: seq<Byte>, i: nat, c: Byte, e: seq<Byte>)
    requires Holds(buf, i, [c] + e)
    ensures buf[i] == c && Holds(buf, i + 1, e)
  {
    assert buf[i] == buf[i..i + 1 + |e|][0];
    assert buf[i + 1..i + 1 + |e|] == buf[i..i + 1 + |e|][1..];
  }

  /** Decoding the rest of an encoded number adds it in at its weight. */
  lemma {:induction false} DecodeDigits(buf: seq<Byte>, i: nat, acc: nat, y: nat, w: nat, x: nat)
    requires i <= 9 && Holds(buf, i, Encode(y))
    requires w == Weight(i) && acc < w && x == acc + y * w && x < WORD
    ensures Decode(buf, i, acc, w) == Got(x, i + |Encode(y)|)
    decreases y, 1
  {
    if y < 128 {
      assert buf[i] == Encode(y)[0];
      LastDigit(buf, i, acc, y, w);
    } else {
      DecodeLonger(buf, i, acc, y, y % 128, y / 128, w, x);
    }
  }

  lemma {:induction false} DecodeLonger(buf: seq<Byte>, i: nat, acc: nat, y: nat, d: nat, q: nat, w: nat, x: nat)
    requires y >= 128 && d == y % 128 && q == y / 128 && i <= 9 && Holds(buf, i, [d + 128] + Encode(q))
    requires w == Weight(i) && acc < w && x == acc + y * w && x < WORD
    ensures Decode(buf, i, acc, w) == Got(x, i + 1 + |Encode(q)|)
    decreases y, 0
  {
    HoldsRest(buf, i, d + 128, Encode(q));
    var acc', w' := NextDigit(i, acc, y, d, q, w, x);
    MiddleDigit(buf, i, acc, d, w, acc', w');
    DecodeDigits(buf, i + 1, acc', q, w', x);
  }

  lemma NextDigit(i: nat, acc: nat, y: nat, d: nat, q: nat, w: nat, x: nat) returns (acc': nat, w': nat)
    requires w == Weight(i) && acc < w && x == acc + y * w && x < WORD && y >= 128 && d < 128 && y == d + q * 128
    ensures i <= 8 && w' == w * 128 == Weight(i + 1) && w' < WORD
    ensures acc' == acc + d * w && acc' < w' && x == acc' + q * w'
  {
    acc', w' := acc + d * w, w * 128;
    TakeDigit(acc, y, d, q, w, w');
    WeightStep(i);
    WeightFits(i);
  }

  lemma TakeDigit(acc: nat, y: nat, d: nat, q: nat, w: nat, w': nat)
    requires acc < w && y >= 128 && d < 128 && y == d + q * 128 && w' == w * 128
    ensures acc + d * w < w' <= acc + y * w == acc + d * w + q * w'
  {
    SplitDigit(y, d, q, w, w');
    MulMonotone(128, w, y, w);
    LowDigit(acc, d, w);
  }

  lemma LastDigit(buf: seq<Byte>, i: nat, acc: nat, y: nat, w: nat)
    requires i <= 9 && i < |buf| && buf[i] == y < 128 && w == Weight(i) && acc + y * w < WORD
    ensures Decode(buf, i, acc, w) == Got(acc + y * w, i + 1)
  {
    if i == 9 { TenthDigit(acc, y, w); }
    var x := acc + y * w;
    ModBelow(x, WORD);
  }

  lemma TenthDigit(acc: nat, y: nat, w: nat)
    requires w == Weight(9) && acc + y * w < WORD
    ensures y <= 1
  {
    assert w == 0x8000_0000_0000_0000 by { Pow2Words(); }
    AtMostOne(y);
  }

  lemma MiddleDigit(buf: seq<Byte>, i: nat, acc: nat, d: nat, w: nat, acc': nat, w': nat)
    requires i <= 8 && i < |buf| && d < 128 && buf[i] == d + 128
    requires acc' == acc + d * w && acc' < WORD && w' == w * 128 && w' < WORD
    ensures Decode(buf, i, acc, w) == Decode(buf, i + 1, acc', w')
  {
    assert buf[i] % 128 == d;
    ModBelow(acc', WORD);
    ModBelow(w', WORD);
  }

  lemma AtMostOne(y: nat)
    requires y * 0x8000_0000_0000_0000 < WORD
    ensures y <= 1
  {
  }

  lemma SplitDigit(y: nat, d: nat, q: nat, w: nat, w': nat)
    requires y == d + q * 128 && w' == w * 128
    ensures y * w == d * w + q * w'
  {
    assert (d + q * 128) * w == d * w + (q * 128) * w;
    assert (q * 128) * w == q * (w * 128);
  }

  lemma LowDigit(acc: nat, d: nat, w: nat)
    requires acc < w && d < 128
    ensures acc + d * w < w * 128
  {
    MulMonotone(d + 1, w, 128, w);
    assert (d + 1) * w == d * w + w;
  }

  /** Decoding what was encoded, with anything after it, gives the value and its length. */
  lemma RoundTrip(x: nat, rest: seq<Byte>)
    requires x < WORD
    ensures Uvarint(Encode(x) + rest) == Got(x, |Encode(x)|)
  {
    var buf := Encode(x) + rest;
    WeightStep(0);
    assert Holds(buf, 0, Encode(x));
    DecodeDigits(buf, 0, 0, x, 1, x);
  }

  /** No 64-bit number takes more than ten bytes, and the largest takes ten. */
  lemma {:induction false} EncodedLength(x: nat, n: nat)
    requires x < Pow2(7 * n) && n >= 1
    ensures |Encode(x)| <= n
  {
    assert Pow2(7) == 128;
    if x < 128 {
    } else {
      Pow2Add(7, 7 * (n - 1));
      assert n > 1;
      EncodedLength(x / 128, n - 1);
    }
  }

  lemma AtMostTenBytes(x: nat)
    requires x < WORD
    ensures |Encode(x)| <= MAX_LEN
  {
    Pow2Words();
    Pow2Monotone(64, 70);
    EncodedLength(x, 10);
  }

  /** The first n bytes all continue. */
  predicate Continues(buf: seq<Byte>, n: nat) {
    n <= |buf| && forall i :: 0 <= i < n ==> buf[i] >= 128
  }

  lemma {:induction false} DecodeVerdict(buf: seq<Byte>, i: nat, acc: nat, weight: nat)
    requires i <= MAX_LEN && Continues(buf, i)
    ensures var r := Decode(buf, i, acc, weight);
      && (r == Overflow(10) <==> |buf| >= 10 && Continues(buf, 9) && 1 < buf[9] < 128)
      && (r == Overflow(11) <==> |buf| > 10 && Continues(buf, 10))
      && (r == TooShort <==> |buf| <= 10 && Continues(buf, |buf|))
      && (r.Overflow? ==> r.n == 10 || r.n == 11)
    decreases |buf| - i
  {
    if i >= |buf| || i >= MAX_LEN || buf[i] < 128 {
    } else {
      DecodeVerdict(buf, i + 1, (acc + buf[i] % 128 * weight) % WORD, weight * 128 % WORD);
    }
  }

  /** Overflow is reported exactly when the tenth byte ends the number and exceeds 1, or when a
      byte follows ten that continue; the input is too short exactly when at most ten bytes all
      continue. */
  lemma Verdicts(buf: seq<Byte>)
    ensures Uvarint(buf) == Overflow(10) <==> |buf| >= 10 && Continues(buf, 9) && 1 < buf[9] < 128
    ensures Uvarint(buf) == Overflow(11) <==> |buf| > 10 && Continues(buf, 10)
    ensures Uvarint(buf) == TooShort <==> |buf| <= 10 && Continues(buf, |buf|)
    ensures Uvarint(buf).Overflow? ==> Uvarint(buf).n in {10, 11}
  {
    DecodeVerdict(buf, 0, 0, 1);
  }

  // ─── signed: zig-zag ────────────────────────────────────────────────

  /** `uint64(x) << 1`, complemented when x is negative. */
  function ZigZag(x: int): (u: nat)
    requires MIN64 <= x <= MAX64
    ensures u < WORD
  {
    var u := x % WORD * 2 % WORD;
    if x < 0 then WORD - 1 - u else u
  }

  /** `int64(u >> 1)`, complemented when u is odd. */
  function UnZigZag(u: nat): (x: int)
    requires u < WORD
    ensures MIN64 <= x <= MAX64
  {
    if u % 2 == 1 then -(u / 2) - 1 else u / 2
  }

  /** Zig-zag is a bijection between the signed and the unsigned 64-bit numbers. */
  lemma ZigZagBijection(x: int, u: nat)
    requires MIN64 <= x <= MAX64 && u < WORD
    ensures UnZigZag(ZigZag(x)) == x
    ensures ZigZag(UnZigZag(u)) == u
    ensures ZigZag(x) == if x < 0 then -2 * x - 1 else 2 * x
  {
    ZigZagValue(x);
    ZigZagValue(UnZigZag(u));
  }

  lemma ZigZagValue(x: int)
    requires MIN64 <= x <= MAX64
    ensures ZigZag(x) == if x < 0 then -2 * x - 1 else 2 * x
  {
    if x < 0 {
      assert x % WORD == x + WORD;
      assert (x + WORD) * 2 % WORD == x * 2 + WORD;
    }
  }

  datatype Signed = GotSigned(x: int, n: nat) | Failed(why: Decoded)

  /** `Varint` */
  function DecodeSigned(buf: seq<Byte>): Signed {
    var r := Uvarint(buf);
    if r.Got? && r.x < WORD then GotSigned(UnZigZag(r.x), r.n) else Failed(r)
  }

  lemma SignedRoundTrip(x: int, rest: seq<Byte>)
    requires MIN64 <= x <= MAX64
    ensures DecodeSigned(Encode(ZigZag(x)) + rest) == GotSigned(x, |Encode(ZigZag(x))|)
    ensures |Encode(ZigZag(x))| <= MAX_LEN
  {
    RoundTrip(ZigZag(x), rest);
    AtMostTenBytes(ZigZag(x));
    ZigZagBijection(x, 0);
  }

  // ─── from a reader ──────────────────────────────────────────────────

  /** The number these bytes stand for, read as digits of seven bits. */
  function Digits(s: seq<Byte>): nat {
    if s == [] then 0 else s[0] % 128 + 128 * Digits(s[1..])
  }

  lemma {:induction false} DigitsSnoc(s: seq<Byte>, b: Byte)
    ensures Digits(s + [b]) == Digits(s) + b % 128 * Weight(|s|)
  {
    if s == [] {
      WeightStep(0);
    } else {
      assert (s + [b])[1..] == s[1..] + [b];
      DigitsSnoc(s[1..], b);
      WeightStep(|s| - 1);
      Distribute(s[0] % 128, Digits(s[1..]), b % 128, Weight(|s| - 1), Weight(|s|));
    }
  }

  lemma Distribute(a: int, x: int, d: int, w: int, w': int)
    requires w' == w * 128
    ensures a + 128 * (x + d * w) == a + 128 * x + d * w'
  {
  }

  lemma {:induction false} DigitsBound(s: seq<Byte>)
    ensures Digits(s) < Weight(|s|)
  {
    WeightStep(0);
    if s == [] {
    } else {
      DigitsBound(s[1..]);
      WeightStep(|s| - 1);
    }
  }

  /** One turn of the loop: up to nine digits nothing wraps. */
  lemma OneDigit(data: seq<Byte>, i: nat)
    requires i < |data| && i < MAX_LEN
    ensures Digits(data[..i + 1]) == Digits(data[..i]) + data[i] % 128 * Weight(i)
    ensures i < 9 ==> Digits(data[..i + 1]) < WORD && Weight(i + 1) == Weight(i) * 128 < WORD
  {
    assert data[..i + 1] == data[..i] + [data[i]];
    DigitsSnoc(data[..i], data[i]);
    DigitsBound(data[..i + 1]);
    WeightStep(i);
    WeightFits(i + 1);
  }

  lemma TenDigits(data: seq<Byte>)
    requires |data| >= 10 && data[9] % 128 <= 1
    ensures Digits(data[..10]) < WORD
  {
    OneDigit(data, 9);
    DigitsBound(data[..9]);
    assert Weight(9) == 0x8000_0000_0000_0000 by { Pow2Words(); }
  }

  datatype ReadError = EOF | UnexpectedEOF | Overflowed | Other

  /** A value, or an error and the value of the digits read before it. */
  datatype Read = Value(x: nat) | Error(err: ReadError, partial: nat)

  /** The state of the loop after i bytes that continue. */
  predicate Reading(data: seq<Byte>, i: nat, x: nat, weight: nat) {
    && i <= MAX_LEN && Continues(data, i)
    && Decode(data, i, x, weight) == Uvarint(data)
    && x == Digits(data[..i]) % WORD
    && (i < MAX_LEN ==> weight == Weight(i) && x == Digits(data[..i]))
  }

  lemma ReadMore(data: seq<Byte>, i: nat, x: nat, weight: nat, b: nat)
    requires Reading(data, i, x, weight) && i < MAX_LEN && i < |data| && data[i] == b >= 128
    ensures Reading(data, i + 1, (x + b % 128 * weight) % WORD, weight * 128 % WORD)
  {
    OneDigit(data, i);
    if i < MAX_LEN - 1 {
      ModBelow(Digits(data[..i + 1]), WORD);
      ModBelow(Weight(i + 1), WORD);
    }
  }

  lemma ReadLast(data: seq<Byte>, i: nat, x: nat, weight: nat, b: nat)
    requires Reading(data, i, x, weight) && i < MAX_LEN && i < |data| && data[i] == b < 128
    requires i == MAX_LEN - 1 ==> b <= 1
    ensures Uvarint(data) == Got((x + b * weight) % WORD, i + 1)
    ensures (x + b * weight) % WORD == Digits(data[..i + 1])
  {
    LastSum(data, i, x, weight, b);
    ModBelow(x + b * weight, WORD);
  }

  lemma LastSum(data: seq<Byte>, i: nat, x: nat, weight: nat, b: nat)
    requires i < MAX_LEN && i < |data| && data[i] == b < 128 && (i == MAX_LEN - 1 ==> b <= 1)
    requires weight == Weight(i) && x == Digits(data[..i])
    ensures x + b * weight == Digits(data[..i + 1]) < WORD
  {
    OneDigit(data, i);
    SameProduct(data[i] % 128, b, weight);
    if i == MAX_LEN - 1 { TenDigits(data); }
  }

  lemma SameProduct(d: nat, b: nat, w: nat)
    requires d == b % 128 && b < 128
    ensures d * w == b * w
  {
  }

  /** What ReadUvarint returns for these data, having used so many bytes.  The value beside an error
      is that of all bytes read, but without a tenth byte that ends the number and is too large. */
  predicate Answers(data: seq<Byte>, end: ReadError, r: Read, used: nat) {
    && used <= MAX_LEN && used <= |data|
    && match Uvarint(data)
       case Got(x, n) => r == Value(x) && used == n && x == Digits(data[..n])
       case Overflow(n) =>
         && used == MAX_LEN && r.Error? && r.err == Overflowed
         && r.partial == Digits(data[..if n == 10 then 9 else 10]) % WORD
       case TooShort =>
         && used == |data| && r.Error? && r.partial == Digits(data[..used]) % WORD
         && r.err == if |data| == MAX_LEN then Overflowed else if |data| > 0 && end == EOF then UnexpectedEOF else end
  }

  lemma ReadStops(data: seq<Byte>, end: ReadError, i: nat, x: nat, weight: nat)
    requires Reading(data, i, x, weight)
    ensures i == MAX_LEN ==> Answers(data, end, Error(Overflowed, x), i)
    ensures i < MAX_LEN && i == |data| ==>
      Answers(data, end, Error(if i > 0 && end == EOF then UnexpectedEOF else end, x), i)
    ensures i == MAX_LEN - 1 && i < |data| && 1 < data[i] < 128 ==> Answers(data, end, Error(Overflowed, x), i + 1)
  {
    Verdicts(data);
  }

  /** `ReadUvarint` over a reader that delivers `data` and then fails with `end`.  It agrees with
      `Uvarint`, but calls ten continuing bytes an overflow without asking for an eleventh. */
  method ReadUvarint(data: seq<Byte>, end: ReadError) returns (r: Read, used: nat)
    ensures Answers(data, end, r, used)
  {
    WeightStep(0);
    var x: nat, weight: nat, i := 0, 1, 0;
    while i < MAX_LEN
      invariant 0 <= i <= MAX_LEN && Reading(data, i, x, weight)
    {
      if i >= |data| {
        ReadStops(data, end, i, x, weight);
        return Error(if i > 0 && end == EOF then UnexpectedEOF else end, x), i;
      }
      var b: int := data[i];
      if b < 128 {
        if i == MAX_LEN - 1 && b > 1 {
          ReadStops(data, end, i, x, weight);
          return Error(Overflowed, x), i + 1;
        }
        ReadLast(data, i, x, weight, b);
        return Value((x + b * weight) % WORD), i + 1;
      }
      ReadMore(data, i, x, weight, b);
      x, weight, i := (x + b % 128 * weight) % WORD, weight * 128 % WORD, i + 1;
    }
    ReadStops(data, end, i, x, weight);
    return Error(Overflowed, x), i;
  }
}
