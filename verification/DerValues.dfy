/** The parsers of src/encoding/asn1/mod.rs that read back what the encoders of marshal.rs write:
    object identifiers, bit strings, and elements one after the other. */
module DerValues {

  import opened Arithmetic
  import opened Bytes
  import opened DerHeader
  import opened DerSet
  import DerInteger

  datatype Read<+T> = Got(value: T) | ZeroLength | Malformed(error: Error) | BadPadding | Short

  // ─── sequences keep the order of their parts ────────────────────────

  lemma {:induction false} JoinedAppend(a: seq<seq<Byte>>, b: seq<seq<Byte>>)
    ensures Joined(a + b) == Joined(a) + Joined(b)
  {
    if a == [] {
      assert a + b == b;
    } else {
      assert (a + b)[1..] == a[1..] + b;
      JoinedAppend(a[1..], b);
    }
  }

  /** The parts of a sequence are written one behind the other. */
  lemma MultiAppend(a: seq<Encoder>, b: seq<Encoder>)
    requires WellFormed(MultiEncoder(a)) && WellFormed(MultiEncoder(b))
    ensures WellFormed(MultiEncoder(a + b))
    ensures Encode(MultiEncoder(a + b)) == Encode(MultiEncoder(a)) + Encode(MultiEncoder(b))
  {
    EachAppend(a, b);
    JoinedAppend(Each(a), Each(b));
  }

  /** Part i stands where the lengths of the parts before it say. */
  lemma PartAt(parts: seq<Encoder>, i: nat)
    requires WellFormed(MultiEncoder(parts)) && i < |parts|
    ensures var at := Total(parts[..i]);
      && at + Len(parts[i]) <= |Encode(MultiEncoder(parts))|
      && Encode(MultiEncoder(parts))[at..at + Len(parts[i])] == Encode(parts[i])
  {
    var lo, x, hi := parts[..i], parts[i], parts[i + 1..];
    assert parts == lo + ([x] + hi);
    EachMiddle(lo, x, hi);
    JoinedAppend(Each(lo), [Encode(x)] + Each(hi));
    assert ([Encode(x)] + Each(hi))[1..] == Each(hi);
    TotalIsLength(lo);
    LenIsLength(x);
  }

  /** Bytes may be written one at a time. */
  lemma {:induction false} ByteByByte(s: seq<Byte>)
    ensures var parts := seq(|s|, i requires 0 <= i < |s| => ByteEncoder(s[i]));
      WellFormed(MultiEncoder(parts)) && Encode(MultiEncoder(parts)) == Encode(BytesEncoder(s))
  {
    var parts := seq(|s|, i requires 0 <= i < |s| => ByteEncoder(s[i]));
    if s == [] {
    } else {
      ByteByByte(s[1..]);
      assert parts[1..] == seq(|s[1..]|, i requires 0 <= i < |s[1..]| => ByteEncoder(s[1..][i]));
      assert Each(parts)[1..] == Each(parts[1..]);
    }
  }

  /** An integer reads back as itself, if and only if it has 64 bits. */
  lemma IntegerReadsBack(x: int)
    ensures DerInteger.ParseSpec(Encode(Int64Encoder(x))) == DerInteger.Ok(x)
      <==> DerInteger.MIN64 <= x <= DerInteger.MAX64
  {
    DerInteger.ParseIff(Encode(Int64Encoder(x)), x);
  }

  // ─── elements ───────────────────────────────────────────────────────

  /** `RawValue`, and what follows it. */
  datatype Raw = Raw(h: Header, body: seq<Byte>, full: seq<Byte>, rest: seq<Byte>)

  /** `ParseRaw` */
  function ParseRaw(data: seq<Byte>): (r: Read<Raw>)
    ensures r.Got? ==> |r.value.rest| < |data|
  {
    if data == [] then ZeroLength
    else
      match Parse(data, 0)
      case Err(e, _) => Malformed(e)
      case Ok(h, o) =>
        HeaderIff(data, 0, h, o);
        var end := o + h.length;
        if end > |data| then Short else Got(Raw(h, data[o..end], data[..end], data[end..]))
  }

  /** One element is read exactly when the data starts with the octets of a header that fits and as
      many bytes as it announces. */
  lemma RawIff(data: seq<Byte>, v: Raw)
    ensures ParseRaw(data) == Got(v) <==> IsRaw(data, v)
  {
    if ParseRaw(data) == Got(v) { RawForward(data, v); }
    if IsRaw(data, v) { RawBackward(data, v); }
  }

  predicate IsRaw(data: seq<Byte>, v: Raw) {
    Fits(v.h) && |v.body| == v.h.length && v.full == Octets(v.h) + v.body && data == v.full + v.rest
  }

  lemma RawForward(data: seq<Byte>, v: Raw)
    requires ParseRaw(data) == Got(v)
    ensures IsRaw(data, v)
  {
    var o := Parse(data, 0).offset;
    HeaderIff(data, 0, v.h, o);
    assert data[0..o] == Octets(v.h);
    assert v.full == data[..o] + v.body;
  }

  lemma RawBackward(data: seq<Byte>, v: Raw)
    requires IsRaw(data, v)
    ensures ParseRaw(data) == Got(v)
  {
    assert data == Octets(v.h) + (v.body + v.rest);
    ParseElement(v.h, v.body + v.rest);
    assert data[|Octets(v.h)|..] == v.body + v.rest;
  }

  /** What a field of a message looks like to the parser. */
  lemma FieldReadsBack(cls: int, tag: int, isCompound: bool, body: Encoder, rest: seq<Byte>)
    requires WellFormed(body) && Fits(Header(cls, tag, Len(body), isCompound))
    ensures var full := Encode(Tagged(cls, tag, isCompound, body));
      ParseRaw(full + rest) == Got(Raw(Header(cls, tag, Len(body), isCompound), Encode(body), full, rest))
  {
    var h := Header(cls, tag, Len(body), isCompound);
    var full := Encode(Tagged(cls, tag, isCompound, body));
    LenIsLength(body);
    assert Encode(BytesEncoder(Octets(h))) == Octets(h);
    RawIff(full + rest, Raw(h, Encode(body), full, rest));
  }

  /** Element after element, to the end of the data. */
  function Elements(data: seq<Byte>): Read<seq<seq<Byte>>>
    decreases |data|
  {
    if data == [] then Got([])
    else
      match ParseRaw(data)
      case Got(v) => (match Elements(v.rest) case Got(l) => Got([v.full] + l) case other => other)
      case ZeroLength => ZeroLength
      case Malformed(e) => Malformed(e)
      case BadPadding => BadPadding
      case Short => Short
  }

  lemma ElementRead(x: seq<Byte>, rest: seq<Byte>)
    requires Element(x)
    ensures x != [] && ParseRaw(x + rest).Got?
    ensures ParseRaw(x + rest).value.full == x && ParseRaw(x + rest).value.rest == rest
  {
    var h, body :| Fits(h) && |body| == h.length && x == Octets(h) + body;
    RawIff(x + rest, Raw(h, body, x, rest));
  }

  lemma {:induction false} ElementsForward(data: seq<Byte>, l: seq<seq<Byte>>)
    requires Elements(data) == Got(l)
    ensures data == Joined(l) && forall x :: x in l ==> Element(x)
    decreases |data|
  {
    if data == [] {
    } else {
      var v := ParseRaw(data).value;
      RawIff(data, v);
      assert Element(v.full);
      var rest := Elements(v.rest).value;
      ElementsForward(v.rest, rest);
      assert l == [v.full] + rest && l[1..] == rest;
    }
  }

  lemma {:induction false} ElementsBackward(l: seq<seq<Byte>>)
    requires forall x :: x in l ==> Element(x)
    ensures Elements(Joined(l)) == Got(l)
  {
    if l == [] {
    } else {
      ElementsBackward(l[1..]);
      ElementsCons(l[0], Joined(l[1..]), l[1..]);
      assert l == [l[0]] + l[1..];
    }
  }

  lemma ElementsCons(x: seq<Byte>, rest: seq<Byte>, l: seq<seq<Byte>>)
    requires Element(x) && Elements(rest) == Got(l)
    ensures Elements(x + rest) == Got([x] + l)
  {
    ElementRead(x, rest);
  }

  /** Data is cut into pieces exactly when it is those pieces, each an element. */
  lemma ElementsIff(data: seq<Byte>, l: seq<seq<Byte>>)
    ensures Elements(data) == Got(l) <==> data == Joined(l) && forall x :: x in l ==> Element(x)
  {
    if Elements(data) == Got(l) { ElementsForward(data, l); }
    if data == Joined(l) && forall x :: x in l ==> Element(x) { ElementsBackward(l); }
  }

  /** A sequence of fields is cut into those fields, in their order. */
  lemma SequenceReadsBack(es: seq<Encoder>)
    requires forall i :: 0 <= i < |es| ==> Field(es[i])
    ensures WellFormed(MultiEncoder(es)) && Elements(Encode(MultiEncoder(es))) == Got(Each(es))
  {
    EachIsElement(es);
    ElementsIff(Encode(MultiEncoder(es)), Each(es));
  }

  /** A set of fields is cut into the same fields, in the order of X.690 section 11.6. */
  lemma SetReadsBack(es: seq<Encoder>)
    requires forall i :: 0 <= i < |es| ==> Field(es[i])
    ensures WellFormed(SetEncoder(es)) && Elements(Encode(SetEncoder(es))).Got?
    ensures var l := Elements(Encode(SetEncoder(es))).value;
      multiset(l) == multiset(Each(es)) && forall i, j :: 0 <= i < j < |l| ==> l[i] == l[j] || PaddedBelow(l[i], l[j])
  {
    EachIsElement(es);
    SetInPaddedOrder(es);
    var l := Sort(Each(es));
    forall x | x in l ensures Element(x) {
      assert x in multiset(l);
      assert x in Each(es);
    }
    ElementsIff(Encode(SetEncoder(es)), l);
  }

  // ─── bit strings ────────────────────────────────────────────────────

  /** The low k bits of a byte are zero. */
  predicate LowClear(b: Byte, k: nat) {
    b % Pow2(k) == 0
  }

  function ParseBits(s: seq<Byte>): Read<(seq<Byte>, nat)> {
    if s == [] then ZeroLength
    else if s[0] > 7 || (|s| == 1 && s[0] > 0) || !LowClear(s[|s| - 1], s[0]) then BadPadding
    else Got((s[1..], (|s| - 1) * 8 - s[0]))
  }

  /** n bits, in as few bytes as hold them, with zeros behind the last bit. */
  predicate Bits(bits: seq<Byte>, n: int) {
    && 0 <= n <= 8 * |bits| < n + 8
    && (bits != [] ==> LowClear(bits[|bits| - 1], 8 * |bits| - n))
  }

  /** The first byte of a bit string counts the bits that are missing to whole bytes. */
  lemma UnusedBits(bits: seq<Byte>, n: int)
    ensures var s := Encode(BitStringEncoder(bits, n));
      |s| == |bits| + 1 && s[0] < 8 && (n + s[0]) % 8 == 0 && s[1..] == bits
  {
  }

  /** The parser reads n bits exactly from what the encoder writes for them. */
  lemma BitsIff(s: seq<Byte>, bits: seq<Byte>, n: nat)
    ensures ParseBits(s) == Got((bits, n)) <==> Bits(bits, n) && s == Encode(BitStringEncoder(bits, n))
  {
    UnusedBits(bits, n);
    if Bits(bits, n) && s == Encode(BitStringEncoder(bits, n)) { MissingBits(|bits|, n, s[0]); }
    if ParseBits(s) == Got((bits, n)) {
      MissingBits(|bits|, n, Encode(BitStringEncoder(bits, n))[0]);
      assert s == [s[0]] + bits;
    }
  }

  lemma MissingBits(len: nat, n: nat, p: nat)
    requires n <= 8 * len < n + 8 && p < 8 && (n + p) % 8 == 0
    ensures p == 8 * len - n
  {
  }

  /** `ParseBitString`: the bytes behind the first are copied. */
  method ParseBitString(s: seq<Byte>) returns (r: Read<(seq<Byte>, nat)>)
    ensures r == ParseBits(s)
  {
    if |s| == 0 { return ZeroLength; }
    var padding, n := s[0], |s|;
    if padding > 7 || (n == 1 && padding > 0) { return BadPadding; }
    if s[n - 1] % Pow2(padding) != 0 { return BadPadding; }
    var tail: seq<Byte> := [];
    for i := 1 to n
      invariant tail == s[1..i]
    {
      tail := tail + [s[i]];
    }
    assert tail == s[1..];
    r := Got((tail, (n - 1) * 8 - padding));
  }

  // ─── object identifiers ─────────────────────────────────────────────

  predicate Natural(arcs: seq<int>) {
    forall i :: 0 <= i < |arcs| ==> arcs[i] >= 0
  }

  /** The first two arcs share a number. */
  function Shared(arcs: seq<int>): int
    requires |arcs| >= 2
  {
    arcs[0] * 40 + arcs[1]
  }

  /** `ParseObjectIdentifier` takes the shared number apart. */
  function Apart(v: nat): seq<int> {
    if v < 80 then [v / 40, v % 40] else [2, v - 80]
  }

  /** That undoes the sharing, exactly for the arcs `makeObjectIdentifier` lets through. */
  lemma ApartIff(arcs: seq<int>, v: nat)
    requires |arcs| == 2 && Natural(arcs)
    ensures Apart(v) == arcs <==> GoodOid(arcs) && Shared(arcs) == v
  {
    if arcs[0] * 40 + arcs[1] == v && 0 <= arcs[1] < 40 { DivModUnique(v, 40, arcs[0], arcs[1]); }
  }

  /** A number in base 128 ends at its first byte below 128. */
  lemma Base128PrefixFree(x: nat, r: seq<Byte>, y: nat, t: seq<Byte>)
    requires Base128(x) + r == Base128(y) + t
    ensures x == y && r == t
  {
    var a, b := Base128(x), Base128(y);
    Base128Forward(x);
    Base128Forward(y);
    var s := a + r;
    assert s[|a| - 1] == a[|a| - 1] && s[|b| - 1] == (b + t)[|b| - 1] == b[|b| - 1];
    assert forall i :: 0 <= i < |a| - 1 ==> s[i] == a[i] >= 128;
    assert forall i :: 0 <= i < |b| - 1 ==> s[i] == b[i] >= 128;
    assert a == s[..|a|] == b;
    assert r == s[|a|..] == t;
  }

  lemma {:induction false} ArcsDetermined(a: seq<int>, b: seq<int>)
    requires Natural(a) && Natural(b) && Arcs(a) == Arcs(b)
    ensures a == b
  {
    if a == [] || b == [] {
    } else {
      Base128PrefixFree(a[0], Arcs(a[1..]), b[0], Arcs(b[1..]));
      ArcsDetermined(a[1..], b[1..]);
      assert a == [a[0]] + a[1..] && b == [b[0]] + b[1..];
    }
  }

  lemma OidArcs(arcs: seq<int>)
    requires GoodOid(arcs)
    ensures Encode(OidEncoder(arcs)) == Arcs([Shared(arcs)] + arcs[2..])
  {
    assert ([Shared(arcs)] + arcs[2..])[1..] == arcs[2..];
  }

  /** Object identifiers that encode alike are equal, and the first number of the code, over 40 and
      at most 2, is the first arc. */
  lemma OidDetermined(a: seq<int>, b: seq<int>)
    requires GoodOid(a) && GoodOid(b) && Natural(a) && Natural(b)
    requires Encode(OidEncoder(a)) == Encode(OidEncoder(b))
    ensures a == b
    ensures exists v: nat :: Base128(v) <= Encode(OidEncoder(a)) && a[0] == if v / 40 > 2 then 2 else v / 40
  {
    OidArcs(a);
    OidArcs(b);
    ArcsDetermined([Shared(a)] + a[2..], [Shared(b)] + b[2..]);
    ApartIff(a[..2], Shared(a));
    ApartIff(b[..2], Shared(a));
    assert a[2..] == ([Shared(a)] + a[2..])[1..] == b[2..];
    assert a == a[..2] + a[2..] && b == b[..2] + b[2..];
    assert Base128(Shared(a)) <= Encode(OidEncoder(a));
  }

  /** Base-128 numbers to the end of the bytes. */
  function ReadArcs(s: seq<Byte>, offset: nat): (r: Read<seq<nat>>)
    ensures r.Got? && offset < |s| ==> r.value != []
    decreases |s| - offset
  {
    if offset >= |s| then Got([])
    else
      match ParseBase128(s, offset, 0, 0)
      case Err(e, _) => Malformed(e)
      case Ok(n, o) =>
        TagIff(s, offset, n, o);
        Behind([n], ReadArcs(s, o))
  }

  function ParseOid(s: seq<Byte>): Read<seq<int>> {
    if s == [] then ZeroLength
    else
      match ReadArcs(s, 0)
      case Got(l) => Got(Apart(l[0]) + l[1..])
      case other => other
  }

  /** `ParseObjectIdentifier`: one more place than there are bytes is room enough for the arcs. */
  method ParseObjectIdentifier(bytes: seq<Byte>) returns (r: Read<seq<int>>)
    ensures r == ParseOid(bytes)
  {
    if |bytes| == 0 { return ZeroLength; }
    var s := new int[|bytes| + 1](i => 0);
    var first := ParseBase128Int(bytes, 0);
    if first.Err? { return Malformed(first.error); }
    TagIff(bytes, 0, first.value, first.offset);
    var v := first.value;
    if v < 80 { s[0], s[1] := v / 40, v % 40; } else { s[0], s[1] := 2, v - 80; }
    var offset, i := first.offset, 2;
    ghost var read: seq<nat> := [v];
    while offset < |bytes|
      invariant 2 <= i <= offset + 1 && 0 < offset <= |bytes|
      invariant |read| == i - 1 && read[0] == v && s[..i] == Apart(v) + read[1..]
      invariant ReadArcs(bytes, 0) == Behind(read, ReadArcs(bytes, offset))
    {
      var next := ParseBase128Int(bytes, offset);
      if next.Err? { return Malformed(next.error); }
      TagIff(bytes, offset, next.value, next.offset);
      s[i] := next.value;
      BehindOne(read, next.value, ReadArcs(bytes, next.offset));
      read := read + [next.value];
      offset, i := next.offset, i + 1;
    }
    assert read + [] == read;
    r := Got(s[..i]);
  }

  /** What is read behind what was read before. */
  function Behind(before: seq<nat>, r: Read<seq<nat>>): Read<seq<nat>> {
    match r case Got(l) => Got(before + l) case other => other
  }

  lemma BehindOne(before: seq<nat>, n: nat, r: Read<seq<nat>>)
    ensures Behind(before, Behind([n], r)) == Behind(before + [n], r)
  {
    if r.Got? { assert before + ([n] + r.value) == before + [n] + r.value; }
  }

  predicate Small(l: seq<int>) {
    forall i :: 0 <= i < |l| ==> 0 <= l[i] <= MAX_INT32
  }

  lemma {:induction false} ReadArcsIff(s: seq<Byte>, offset: nat, l: seq<int>)
    requires offset <= |s|
    ensures ReadArcs(s, offset) == Got(l) <==> Small(l) && s[offset..] == Arcs(l)
    decreases |s| - offset
  {
    if offset == |s| {
      if l != [] && Small(l) { assert |Base128(l[0])| >= 1; }
    } else {
      if ReadArcs(s, offset) == Got(l) { ReadArcsForward(s, offset, l); }
      if Small(l) && s[offset..] == Arcs(l) { ReadArcsBackward(s, offset, l); }
    }
  }

  lemma {:induction false} ReadArcsForward(s: seq<Byte>, offset: nat, l: seq<int>)
    requires offset < |s| && ReadArcs(s, offset) == Got(l)
    ensures Small(l) && s[offset..] == Arcs(l)
    decreases |s| - offset, 0
  {
    var n, o := ParseBase128(s, offset, 0, 0).value, ParseBase128(s, offset, 0, 0).offset;
    TagIff(s, offset, n, o);
    ReadArcsIff(s, o, l[1..]);
    assert l == [n] + l[1..];
    assert s[offset..] == s[offset..o] + s[o..];
  }

  lemma {:induction false} ReadArcsBackward(s: seq<Byte>, offset: nat, l: seq<int>)
    requires offset < |s| && Small(l) && s[offset..] == Arcs(l)
    ensures ReadArcs(s, offset) == Got(l)
    decreases |s| - offset, 0
  {
    var o := offset + |Base128(l[0])|;
    Cut(s, offset, Base128(l[0]), Arcs(l[1..]));
    TagIff(s, offset, l[0], o);
    ReadArcsIff(s, o, l[1..]);
    ReadCons(s, offset, l[0], o, l[1..]);
    assert l == [l[0]] + l[1..];
  }

  lemma ReadCons(s: seq<Byte>, offset: nat, n: nat, o: nat, l: seq<nat>)
    requires offset < |s| && ParseBase128(s, offset, 0, 0) == Ok(n, o) && ReadArcs(s, o) == Got(l)
    ensures ReadArcs(s, offset) == Got([n] + l)
  {
  }

  lemma Cut(s: seq<Byte>, offset: nat, a: seq<Byte>, b: seq<Byte>)
    requires offset <= |s| && s[offset..] == a + b
    ensures offset + |a| <= |s| && s[offset..offset + |a|] == a && s[offset + |a|..] == b
  {
    assert s[offset..][..|a|] == a && s[offset..][|a|..] == b;
  }

  /** The parser reads arcs exactly from what the encoder writes for them, if the numbers in it have
      31 bits. */
  lemma OidIff(s: seq<Byte>, arcs: seq<int>)
    ensures ParseOid(s) == Got(arcs) <==>
      && GoodOid(arcs) && Natural(arcs) && Small([Shared(arcs)] + arcs[2..]) && s == Encode(OidEncoder(arcs))
  {
    if ParseOid(s) == Got(arcs) {
      var l := ReadArcs(s, 0).value;
      ReadArcsIff(s, 0, l);
      assert s[0..] == s;
      assert arcs == Apart(l[0]) + l[1..];
      assert arcs[..2] == Apart(l[0]) && arcs[2..] == l[1..];
      ApartIff(arcs[..2], l[0]);
      assert l == [Shared(arcs)] + arcs[2..];
      OidArcs(arcs);
    }
    if GoodOid(arcs) && Natural(arcs) && Small([Shared(arcs)] + arcs[2..]) && s == Encode(OidEncoder(arcs)) {
      var l := [Shared(arcs)] + arcs[2..];
      OidArcs(arcs);
      assert s[0..] == s;
      ReadArcsIff(s, 0, l);
      ApartIff(arcs[..2], l[0]);
      assert arcs == arcs[..2] + arcs[2..];
    }
  }
}
