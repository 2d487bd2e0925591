/** The nested DER encoders of src/encoding/asn1/marshal.rs: their lengths, and the order of the
    elements of a SET OF (X.690 section 11.6). */
module DerSet {

  import opened Bytes
  import opened DerHeader
  import DerInteger

  datatype Encoder =
    | ByteEncoder(b: Byte)
    | BytesEncoder(s: seq<Byte>)
    | Int64Encoder(x: int)
    | BitStringEncoder(bits: seq<Byte>, bitLength: int)
    | OidEncoder(arcs: seq<int>)
    | MultiEncoder(parts: seq<Encoder>)
    | SetEncoder(elements: seq<Encoder>)
    | TaggedEncoder(tag: Encoder, body: Encoder)

  /** What `makeObjectIdentifier` lets through: it does not look at the sign of an arc. */
  predicate GoodOid(arcs: seq<int>) {
    |arcs| >= 2 && arcs[0] <= 2 && (arcs[0] < 2 ==> arcs[1] < 40)
  }

  /** Object identifiers everywhere inside come from `makeObjectIdentifier`. */
  predicate WellFormed(e: Encoder) {
    match e
    case OidEncoder(arcs) => GoodOid(arcs)
    case MultiEncoder(parts) => forall i :: 0 <= i < |parts| ==> WellFormed(parts[i])
    case SetEncoder(elements) => forall i :: 0 <= i < |elements| ==> WellFormed(elements[i])
    case TaggedEncoder(tag, body) => WellFormed(tag) && WellFormed(body)
    case _ => true
  }

  // ─── octet strings in order ─────────────────────────────────────────

  /** `bytes.Compare(a, b) <= 0` */
  predicate AtMost(a: seq<Byte>, b: seq<Byte>) {
    if a == [] then true
    else if b == [] then false
    else if a[0] != b[0] then a[0] < b[0]
    else AtMost(a[1..], b[1..])
  }

  lemma {:induction false} AtMostTotal(a: seq<Byte>, b: seq<Byte>)
    ensures AtMost(a, b) || AtMost(b, a)
  {
    if a == [] || b == [] || a[0] != b[0] {
    } else {
      AtMostTotal(a[1..], b[1..]);
    }
  }

  lemma {:induction false} AtMostAntisymmetric(a: seq<Byte>, b: seq<Byte>)
    requires AtMost(a, b) && AtMost(b, a)
    ensures a == b
  {
    if a == [] || b == [] {
    } else {
      AtMostAntisymmetric(a[1..], b[1..]);
      assert a == [a[0]] + a[1..] && b == [b[0]] + b[1..];
    }
  }

  lemma {:induction false} AtMostTransitive(a: seq<Byte>, b: seq<Byte>, c: seq<Byte>)
    requires AtMost(a, b) && AtMost(b, c)
    ensures AtMost(a, c)
  {
    if a == [] || b == [] || c == [] || !(a[0] == b[0] == c[0]) {
    } else {
      AtMostTransitive(a[1..], b[1..], c[1..]);
    }
  }

  predicate Ascending(l: seq<seq<Byte>>) {
    forall i, j :: 0 <= i < j < |l| ==> AtMost(l[i], l[j])
  }

  // ─── sorting ────────────────────────────────────────────────────────

  function Insert(x: seq<Byte>, l: seq<seq<Byte>>): (r: seq<seq<Byte>>)
    ensures multiset(r) == multiset(l) + multiset{x} && |r| == |l| + 1
  {
    if l == [] then [x]
    else if AtMost(x, l[0]) then
      assert [x] + l == [x] + l;
      [x] + l
    else
      assert l == [l[0]] + l[1..];
      [l[0]] + Insert(x, l[1..])
  }

  function Sort(l: seq<seq<Byte>>): (r: seq<seq<Byte>>)
    ensures multiset(r) == multiset(l) && |r| == |l|
  {
    if l == [] then []
    else
      assert l == [l[0]] + l[1..];
      Insert(l[0], Sort(l[1..]))
  }

  predicate BelowAll(y: seq<Byte>, l: seq<seq<Byte>>) {
    forall i :: 0 <= i < |l| ==> AtMost(y, l[i])
  }

  lemma Prepend(x: seq<Byte>, l: seq<seq<Byte>>)
    requires BelowAll(x, l) && Ascending(l)
    ensures Ascending([x] + l)
  {
  }

  lemma {:induction false} StillBelow(y: seq<Byte>, x: seq<Byte>, l: seq<seq<Byte>>)
    requires AtMost(y, x) && BelowAll(y, l)
    ensures BelowAll(y, Insert(x, l))
  {
    if l == [] || AtMost(x, l[0]) {
    } else {
      StillBelow(y, x, l[1..]);
    }
  }

  lemma {:induction false} InsertKeepsOrder(x: seq<Byte>, l: seq<seq<Byte>>)
    requires Ascending(l)
    ensures Ascending(Insert(x, l))
  {
    if l == [] {
    } else {
      if AtMost(x, l[0]) {
        forall j | 0 <= j < |l| ensures AtMost(x, l[j]) {
          if j > 0 { AtMostTransitive(x, l[0], l[j]); }
        }
        Prepend(x, l);
      } else {
        AtMostTotal(x, l[0]);
        InsertKeepsOrder(x, l[1..]);
        StillBelow(l[0], x, l[1..]);
        Prepend(l[0], Insert(x, l[1..]));
      }
    }
  }

  lemma {:induction false} SortOrders(l: seq<seq<Byte>>)
    ensures Ascending(Sort(l))
  {
    if l == [] {
    } else {
      SortOrders(l[1..]);
      InsertKeepsOrder(l[0], Sort(l[1..]));
    }
  }

  /** Two ascending lists of the same elements are equal, so it does not matter how they were
      sorted, nor whether the sort was stable. */
  lemma {:induction false} AscendingUnique(a: seq<seq<Byte>>, b: seq<seq<Byte>>)
    requires Ascending(a) && Ascending(b) && multiset(a) == multiset(b)
    ensures a == b
  {
    assert |a| == |multiset(a)| == |multiset(b)| == |b|;
    if a == [] {
    } else {
      FirstsAgree(a, b);
      assert a == [a[0]] + a[1..] && b == [a[0]] + b[1..];
      RestsAgree(a[0], a[1..], b[1..]);
      AscendingUnique(a[1..], b[1..]);
    }
  }

  lemma FirstsAgree(a: seq<seq<Byte>>, b: seq<seq<Byte>>)
    requires Ascending(a) && Ascending(b) && multiset(a) == multiset(b) && a != [] && b != []
    ensures a[0] == b[0]
  {
    assert a[0] in multiset(a) && b[0] in multiset(b);
    assert a[0] in multiset(b) && b[0] in multiset(a);
    FirstIsLeast(a, b[0]);
    FirstIsLeast(b, a[0]);
    AtMostAntisymmetric(a[0], b[0]);
  }

  lemma RestsAgree<T>(x: T, r: seq<T>, q: seq<T>)
    requires multiset([x] + r) == multiset([x] + q)
    ensures multiset(r) == multiset(q)
  {
    assert multiset(r) == multiset([x] + r) - multiset{x};
    assert multiset(q) == multiset([x] + q) - multiset{x};
  }

  lemma FirstIsLeast(a: seq<seq<Byte>>, x: seq<Byte>)
    requires Ascending(a) && x in a
    ensures AtMost(a[0], x)
  {
    var k :| 0 <= k < |a| && a[k] == x;
    if k == 0 { AtMostReflexive(x); }
  }

  lemma {:induction false} AtMostReflexive(x: seq<Byte>)
    ensures AtMost(x, x)
  {
    if x == [] {
    } else {
      AtMostReflexive(x[1..]);
    }
  }

  // ─── what the encoders write ────────────────────────────────────────

  /** The bytes each encoder writes. */
  function Encode(e: Encoder): seq<Byte>
    requires WellFormed(e)
    decreases e
  {
    match e
    case ByteEncoder(b) => [b]
    case BytesEncoder(s) => s
    case Int64Encoder(x) => DerInteger.Content(x)
    case BitStringEncoder(bits, n) => [(8 - n % 8) % 8] + bits
    case OidEncoder(arcs) => Arc(arcs[0] * 40 + arcs[1]) + Arcs(arcs[2..])
    case MultiEncoder(parts) => Joined(Each(parts))
    case SetEncoder(elements) => Joined(Sort(Each(elements)))
    case TaggedEncoder(tag, body) => Encode(tag) + Encode(body)
  }

  /** `appendBase128Int`: a negative number has no bytes. */
  function Arc(n: int): seq<Byte> {
    if n < 0 then [] else Base128(n)
  }

  function Arcs(arcs: seq<int>): seq<Byte> {
    if arcs == [] then [] else Arc(arcs[0]) + Arcs(arcs[1..])
  }

  function Each(es: seq<Encoder>): (l: seq<seq<Byte>>)
    requires forall i :: 0 <= i < |es| ==> WellFormed(es[i])
    ensures |l| == |es|
    decreases es
  {
    if es == [] then [] else [Encode(es[0])] + Each(es[1..])
  }

  /** What each encoder's `Len` announces. */
  function Len(e: Encoder): nat
    requires WellFormed(e)
    decreases e
  {
    match e
    case ByteEncoder(b) => 1
    case BytesEncoder(s) => |s|
    case Int64Encoder(x) => |DerInteger.Content(x)|
    case BitStringEncoder(bits, n) => |bits| + 1
    case OidEncoder(arcs) => ArcLen(arcs[0] * 40 + arcs[1]) + ArcsLen(arcs[2..])
    case MultiEncoder(parts) => Total(parts)
    case SetEncoder(elements) => Total(elements)
    case TaggedEncoder(tag, body) => Len(tag) + Len(body)
  }

  /** `base128IntLength`: the loop counts nothing for a negative number. */
  function ArcLen(n: int): nat {
    if n < 0 then 0 else |Base128(n)|
  }

  function ArcsLen(arcs: seq<int>): nat {
    if arcs == [] then 0 else ArcLen(arcs[0]) + ArcsLen(arcs[1..])
  }

  function Total(es: seq<Encoder>): nat
    requires forall i :: 0 <= i < |es| ==> WellFormed(es[i])
    decreases es
  {
    if es == [] then 0 else Len(es[0]) + Total(es[1..])
  }

  // ─── Len is the length ──────────────────────────────────────────────

  lemma {:induction false} InsertLength(x: seq<Byte>, l: seq<seq<Byte>>)
    ensures |Joined(Insert(x, l))| == |x| + |Joined(l)|
  {
    if l == [] {
      assert Joined([x]) == x + Joined([]);
    } else if AtMost(x, l[0]) {
      assert ([x] + l)[1..] == l;
    } else {
      InsertLength(x, l[1..]);
      assert ([l[0]] + Insert(x, l[1..]))[1..] == Insert(x, l[1..]);
    }
  }

  lemma {:induction false} SortLength(l: seq<seq<Byte>>)
    ensures |Joined(Sort(l))| == |Joined(l)|
  {
    if l == [] {
    } else {
      SortLength(l[1..]);
      InsertLength(l[0], Sort(l[1..]));
    }
  }

  lemma {:induction false} ArcsLength(arcs: seq<int>)
    ensures |Arcs(arcs)| == ArcsLen(arcs)
  {
    if arcs == [] {
    } else {
      ArcsLength(arcs[1..]);
    }
  }

  /** For every nesting of encoders, `Len` is the number of bytes `Encode` writes. */
  lemma {:induction false} LenIsLength(e: Encoder)
    requires WellFormed(e)
    ensures |Encode(e)| == Len(e)
    decreases e
  {
    match e
    case OidEncoder(arcs) => ArcsLength(arcs[2..]);
    case MultiEncoder(parts) => TotalIsLength(parts);
    case SetEncoder(elements) =>
      TotalIsLength(elements);
      SortLength(Each(elements));
    case TaggedEncoder(tag, body) =>
      LenIsLength(tag);
      LenIsLength(body);
    case _ =>
  }

  lemma {:induction false} TotalIsLength(es: seq<Encoder>)
    requires forall i :: 0 <= i < |es| ==> WellFormed(es[i])
    ensures |Joined(Each(es))| == Total(es)
    decreases es
  {
    if es == [] {
    } else {
      LenIsLength(es[0]);
      TotalIsLength(es[1..]);
      assert Each(es)[1..] == Each(es[1..]);
    }
  }

  // ─── sets ───────────────────────────────────────────────────────────

  /** A SET is the ascending concatenation of its elements' encodings, however they are listed. */
  lemma SetInvariant(a: seq<Encoder>, b: seq<Encoder>)
    requires WellFormed(SetEncoder(a)) && WellFormed(SetEncoder(b))
    requires multiset(Each(a)) == multiset(Each(b))
    ensures Encode(SetEncoder(a)) == Encode(SetEncoder(b))
  {
    SortOrders(Each(a));
    SortOrders(Each(b));
    AscendingUnique(Sort(Each(a)), Sort(Each(b)));
  }

  lemma SetIsSortedConcatenation(es: seq<Encoder>, l: seq<seq<Byte>>)
    requires WellFormed(SetEncoder(es)) && Ascending(l) && multiset(l) == multiset(Each(es))
    ensures Encode(SetEncoder(es)) == Joined(l)
  {
    SortOrders(Each(es));
    AscendingUnique(Sort(Each(es)), l);
  }

  lemma {:induction false} EachAppend(a: seq<Encoder>, b: seq<Encoder>)
    requires forall i :: 0 <= i < |a| ==> WellFormed(a[i])
    requires forall i :: 0 <= i < |b| ==> WellFormed(b[i])
    ensures Each(a + b) == Each(a) + Each(b)
  {
    if a == [] {
      assert a + b == b;
    } else {
      assert (a + b)[1..] == a[1..] + b;
      EachAppend(a[1..], b);
    }
  }

  lemma MiddleAdd<T>(lo: seq<T>, x: T, hi: seq<T>, rest: seq<T>)
    requires multiset(rest) == multiset(lo + hi)
    ensures multiset([x] + rest) == multiset(lo + ([x] + hi))
  {
  }

  lemma MiddleCancel<T>(lo: seq<T>, x: T, hi: seq<T>, rest: seq<T>)
    requires multiset([x] + rest) == multiset(lo + ([x] + hi))
    ensures multiset(rest) == multiset(lo + hi)
  {
    assert multiset([x] + rest) == multiset{x} + multiset(rest);
    assert multiset(lo + ([x] + hi)) == multiset{x} + multiset(lo + hi);
    assert multiset(rest) == multiset([x] + rest) - multiset{x};
    assert multiset(lo + hi) == multiset(lo + ([x] + hi)) - multiset{x};
  }

  lemma EachMiddle(lo: seq<Encoder>, x: Encoder, hi: seq<Encoder>)
    requires WellFormed(x)
    requires forall i :: 0 <= i < |lo| ==> WellFormed(lo[i])
    requires forall i :: 0 <= i < |hi| ==> WellFormed(hi[i])
    ensures Each(lo + ([x] + hi)) == Each(lo) + ([Encode(x)] + Each(hi)) && Each(lo + hi) == Each(lo) + Each(hi)
  {
    EachAppend(lo, hi);
    EachAppend(lo, [x] + hi);
    assert ([x] + hi)[1..] == hi;
  }

  lemma {:induction false} EachPermutes(a: seq<Encoder>, b: seq<Encoder>)
    requires forall i :: 0 <= i < |a| ==> WellFormed(a[i])
    requires forall i :: 0 <= i < |b| ==> WellFormed(b[i])
    requires multiset(a) == multiset(b)
    ensures multiset(Each(a)) == multiset(Each(b))
    decreases |a|
  {
    assert |a| == |multiset(a)| == |multiset(b)| == |b|;
    if a == [] {
    } else {
      var x, rest := a[0], a[1..];
      assert a == [x] + rest;
      var lo, hi := FindIn(x, a, b);
      MiddleCancel(lo, x, hi, rest);
      EachPermutes(rest, lo + hi);
      EachMiddle(lo, x, hi);
      MiddleAdd(Each(lo), Encode(x), Each(hi), Each(rest));
    }
  }

  lemma FindIn(x: Encoder, a: seq<Encoder>, b: seq<Encoder>) returns (lo: seq<Encoder>, hi: seq<Encoder>)
    requires a != [] && a[0] == x && multiset(a) == multiset(b)
    requires forall i :: 0 <= i < |b| ==> WellFormed(b[i])
    ensures b == lo + ([x] + hi)
    ensures forall i :: 0 <= i < |lo| ==> WellFormed(lo[i])
    ensures forall i :: 0 <= i < |hi| ==> WellFormed(hi[i])
  {
    assert x in multiset(a);
    assert x in multiset(b);
    var k :| 0 <= k < |b| && b[k] == x;
    lo, hi := b[..k], b[k + 1..];
  }

  /** SET encoding is invariant under every permutation of the elements. */
  lemma PermutationInvariant(a: seq<Encoder>, b: seq<Encoder>)
    requires WellFormed(SetEncoder(a)) && WellFormed(SetEncoder(b)) && multiset(a) == multiset(b)
    ensures Encode(SetEncoder(a)) == Encode(SetEncoder(b))
  {
    EachPermutes(a, b);
    SetInvariant(a, b);
  }

  // ─── the padding of X.690 section 11.6 ──────────────────────────────

  /** An element: a header that fits and as many bytes as it announces. */
  ghost predicate Element(s: seq<Byte>) {
    exists h: Header, body: seq<Byte> :: Fits(h) && |body| == h.length && s == Octets(h) + body
  }

  lemma ParseElement(h: Header, rest: seq<Byte>)
    requires Fits(h)
    ensures Parse(Octets(h) + rest, 0) == Ok(h, |Octets(h)|)
  {
    HeaderRoundTrip([], h, rest);
    assert [] + Octets(h) == Octets(h);
  }

  /** No element is a proper prefix of another. */
  lemma ElementsPrefixFree(a: seq<Byte>, b: seq<Byte>)
    requires Element(a) && Element(b) && a <= b
    ensures a == b
  {
    var h, s :| Fits(h) && |s| == h.length && a == Octets(h) + s;
    var k, t :| Fits(k) && |t| == k.length && b == Octets(k) + t;
    SplitElement(a, b, Octets(h), s);
    SameHeader(b, h, s + b[|a|..], k, t);
  }

  lemma SplitElement(a: seq<Byte>, b: seq<Byte>, head: seq<Byte>, s: seq<Byte>)
    requires a <= b && a == head + s
    ensures b == head + (s + b[|a|..])
  {
    assert b == a + b[|a|..];
  }

  lemma SameHeader(b: seq<Byte>, h: Header, s: seq<Byte>, k: Header, t: seq<Byte>)
    requires Fits(h) && Fits(k) && b == Octets(h) + s && b == Octets(k) + t
    ensures h == k
  {
    ParseElement(h, s);
    ParseElement(k, t);
  }

  /** The octet at i, with zeros after the end. */
  function Padded(s: seq<Byte>, i: nat): Byte {
    if i < |s| then s[i] else 0
  }

  /** Ascending order with the shorter string padded with zero octets: the first position where the
      two differ decides. */
  ghost predicate PaddedBelow(a: seq<Byte>, b: seq<Byte>) {
    exists i: nat :: Padded(a, i) < Padded(b, i) && forall j: nat :: j < i ==> Padded(a, j) == Padded(b, j)
  }

  lemma {:induction false} FirstDifference(a: seq<Byte>, b: seq<Byte>) returns (i: nat)
    requires !(a <= b) && !(b <= a)
    ensures i < |a| && i < |b| && a[i] != b[i] && a[..i] == b[..i]
    ensures AtMost(a, b) <==> a[i] < b[i]
  {
    if a[0] != b[0] {
      i := 0;
    } else {
      assert a == [a[0]] + a[1..] && b == [b[0]] + b[1..];
      var k := FirstDifference(a[1..], b[1..]);
      i := k + 1;
      assert a[..i] == [a[0]] + a[1..][..k] && b[..i] == [b[0]] + b[1..][..k];
    }
  }

  lemma DifferenceDecides(a: seq<Byte>, b: seq<Byte>)
    requires !(a <= b) && !(b <= a)
    ensures AtMost(a, b) <==> PaddedBelow(a, b)
  {
    var i := FirstDifference(a, b);
    forall j: nat | j < i ensures Padded(a, j) == Padded(b, j) {
      assert a[..i][j] == b[..i][j];
    }
    if a[i] < b[i] {
      assert Padded(a, i) < Padded(b, i);
    } else {
      forall k: nat | Padded(a, k) < Padded(b, k)
        ensures exists j: nat :: j < k && Padded(a, j) != Padded(b, j)
      {
        assert i < k && Padded(a, i) != Padded(b, i);
      }
    }
  }

  /** For elements, comparing without the padding is comparing with it. */
  lemma PaddingIrrelevant(a: seq<Byte>, b: seq<Byte>)
    requires Element(a) && Element(b) && a != b
    ensures AtMost(a, b) <==> PaddedBelow(a, b)
  {
    if a <= b { ElementsPrefixFree(a, b); }
    if b <= a { ElementsPrefixFree(b, a); }
    DifferenceDecides(a, b);
  }

  // ─── the elements a SET really sorts ────────────────────────────────

  /** What `makeField` builds around a body: identifier and length octets, then the body. */
  function Tagged(cls: int, tag: int, isCompound: bool, body: Encoder): Encoder
    requires WellFormed(body)
  {
    TaggedEncoder(BytesEncoder(Octets(Header(cls, tag, Len(body), isCompound))), body)
  }

  /** A field as `makeField` builds it, with a header that fits. */
  ghost predicate Field(e: Encoder) {
    exists cls: int, tag: int, isCompound: bool, body: Encoder ::
      WellFormed(body) && e == Tagged(cls, tag, isCompound, body) && Fits(Header(cls, tag, Len(body), isCompound))
  }

  lemma FieldIsElement(e: Encoder)
    requires Field(e)
    ensures WellFormed(e) && Element(Encode(e))
  {
    var cls: int, tag: int, isCompound: bool, body: Encoder :|
      WellFormed(body) && e == Tagged(cls, tag, isCompound, body) && Fits(Header(cls, tag, Len(body), isCompound));
    var h := Header(cls, tag, Len(body), isCompound);
    LenIsLength(body);
    assert Encode(e) == Octets(h) + Encode(body);
  }

  lemma {:induction false} EachIsElement(es: seq<Encoder>)
    requires forall i :: 0 <= i < |es| ==> Field(es[i])
    ensures (forall i :: 0 <= i < |es| ==> WellFormed(es[i])) && forall x :: x in Each(es) ==> Element(x)
  {
    forall i | 0 <= i < |es| ensures WellFormed(es[i]) && Element(Encode(es[i])) { FieldIsElement(es[i]); }
    if es == [] {
    } else {
      EachIsElement(es[1..]);
    }
  }

  /** A SET of fields is written in the order of X.690 section 11.6: of two different elements the one
      that is less with zero padding comes first. */
  lemma SetInPaddedOrder(es: seq<Encoder>)
    requires forall i :: 0 <= i < |es| ==> Field(es[i])
    ensures WellFormed(SetEncoder(es))
    ensures var l := Sort(Each(es));
      && Encode(SetEncoder(es)) == Joined(l) && multiset(l) == multiset(Each(es))
      && forall i, j :: 0 <= i < j < |l| ==> l[i] == l[j] || PaddedBelow(l[i], l[j])
  {
    EachIsElement(es);
    var l := Sort(Each(es));
    SortOrders(Each(es));
    SetIsSortedConcatenation(es, l);
    forall i, j | 0 <= i < j < |l| ensures l[i] == l[j] || PaddedBelow(l[i], l[j]) {
      assert l[i] in multiset(l) && l[j] in multiset(l);
      assert l[i] in Each(es) && l[j] in Each(es);
      if l[i] != l[j] { PaddingIrrelevant(l[i], l[j]); }
    }
  }
}
