/** The base64 codec of src/encoding/base64/base64.rs, for every alphabet and padding. */
module Base64 {

  import opened Arithmetic
  import opened Bytes

  type Digit = x: int | 0 <= x < 64

  const LF: Byte := 10
  const CR: Byte := 13
  const STD_PADDING: int := 61
  const NO_PADDING: int := -1
  const INVALID: int := 255

  // ─── encodings ──────────────────────────────────────────────────────

  datatype Encoding = Encoding(alphabet: seq<Byte>, decodeMap: seq<int>, pad: int, strict: bool) {
    /** The map inverts the alphabet, and neither it nor the padding involves a newline. */
    predicate Valid() {
      && |alphabet| == 64 && |decodeMap| == 256
      && (forall i :: 0 <= i < 64 ==> decodeMap[alphabet[i]] == i)
      && (forall c :: 0 <= c < 256 ==>
            decodeMap[c] == INVALID || (0 <= decodeMap[c] < 64 && alphabet[decodeMap[c]] == c))
      && decodeMap[LF] == INVALID && decodeMap[CR] == INVALID
      && (pad == NO_PADDING || (0 <= pad < 256 && pad != LF && pad != CR))
    }

    predicate Padded() {
      pad != NO_PADDING
    }

    /** The padding character is not a symbol of the alphabet.  `NewEncoding` does not check this. */
    predicate PadApart()
      requires Valid()
    {
      Padded() ==> decodeMap[pad] == INVALID
    }
  }

  predicate GoodAlphabet(a: seq<Byte>) {
    && |a| == 64 && LF !in a && CR !in a
    && forall i, j :: 0 <= i < j < |a| ==> a[i] != a[j]
  }

  /** `NewEncoding`: `None` stands for its panics. */
  method NewEncoding(encoder: seq<Byte>) returns (r: Option<Encoding>)
    ensures r.Some? <==> GoodAlphabet(encoder)
    ensures r.Some? ==> r.value.Valid() && r.value.alphabet == encoder && r.value.pad == STD_PADDING && !r.value.strict
  {
    if |encoder| != 64 { return None; }
    var m: seq<int> := seq(256, i => INVALID);
    var i := 0;
    while i < 64
      invariant 0 <= i <= 64 && |m| == 256
      invariant forall j, k :: 0 <= j < k < i ==> encoder[j] != encoder[k]
      invariant forall k :: 0 <= k < i ==> m[encoder[k]] == k && encoder[k] != LF && encoder[k] != CR
      invariant forall c :: 0 <= c < 256 ==> m[c] == INVALID || (0 <= m[c] < i && encoder[m[c]] == c)
    {
      var c := encoder[i];
      if c == LF || c == CR { return None; }
      if m[c] != INVALID {
        assert encoder[m[c]] == encoder[i];
        return None;
      }
      m := m[c := i];
      i := i + 1;
    }
    r := Some(Encoding(encoder, m, STD_PADDING, false));
  }

  /** `WithPadding`: `None` stands for its panics. */
  function WithPadding(e: Encoding, padding: int): (r: Option<Encoding>)
    requires e.Valid()
    ensures r.Some? ==>
      && r.value.Valid() && r.value.PadApart() && r.value.pad == padding
      && r.value.alphabet == e.alphabet && r.value.strict == e.strict
    ensures r.None? <==> !(NO_PADDING <= padding <= 255 && padding != LF && padding != CR && padding !in e.alphabet)
  {
    if padding < NO_PADDING || padding == CR || padding == LF || padding > 0xff then None
    else if padding != NO_PADDING && e.decodeMap[padding] != INVALID then None
    else Some(e.(pad := padding))
  }

  // ─── encoding ───────────────────────────────────────────────────────

  /** 24 bits as four digits. */
  function Split(v: nat): (d: seq<Digit>)
    requires v < 0x1000000
    ensures |d| == 4
  {
    var q1 := v / 64;
    var q2 := q1 / 64;
    [q2 / 64, q2 % 64, q1 % 64, v % 64]
  }

  /** Four digits as 24 bits; missing digits count as zero. */
  function Join(d: seq<Digit>): (v: nat)
    requires |d| <= 4
    ensures v < 0x1000000
  {
    (if |d| > 0 then d[0] as int * 0x40000 else 0) + (if |d| > 1 then d[1] as int * 0x1000 else 0)
    + (if |d| > 2 then d[2] as int * 0x40 else 0) + (if |d| > 3 then d[3] as int else 0)
  }

  /** Three bytes as 24 bits; missing bytes count as zero. */
  function Pack(b: seq<Byte>): (v: nat)
    requires 1 <= |b| <= 3
    ensures v < 0x1000000
  {
    b[0] as int * 0x10000 + (if |b| > 1 then b[1] as int * 0x100 else 0) + (if |b| > 2 then b[2] as int else 0)
  }

  /** The first n of the three bytes of 24 bits. */
  function Unpack(v: nat, n: nat): (b: seq<Byte>)
    requires v < 0x1000000 && n <= 3
    ensures |b| == n
  {
    var q1 := v / 256;
    [q1 / 256, q1 % 256, v % 256][..n]
  }

  /** The digits that carry one to three bytes: one more than there are bytes. */
  function Digits(b: seq<Byte>): (d: seq<Digit>)
    requires 1 <= |b| <= 3
    ensures |d| == |b| + 1
  {
    Split(Pack(b))[..|b| + 1]
  }

  function Chars(e: Encoding, d: seq<Digit>): (s: seq<Byte>)
    requires e.Valid()
    ensures |s| == |d|
  {
    if d == [] then [] else [e.alphabet[d[0]]] + Chars(e, d[1..])
  }

  /** The padding after k digits of a last group. */
  function Padding(e: Encoding, k: nat): (s: seq<Byte>)
    requires e.Valid() && k <= 4
    decreases 4 - k
  {
    if !e.Padded() || k == 4 then [] else [e.pad] + Padding(e, k + 1)
  }

  function Group(e: Encoding, b: seq<Byte>): seq<Byte>
    requires e.Valid() && 1 <= |b| <= 3
  {
    Chars(e, Digits(b)) + Padding(e, |b| + 1)
  }

  function Encode(e: Encoding, src: seq<Byte>): (s: seq<Byte>)
    requires e.Valid()
  {
    if src == [] then []
    else if |src| < 3 then Group(e, src)
    else Group(e, src[..3]) + Encode(e, src[3..])
  }

  // ─── one group: bytes and digits determine each other ───────────────

  lemma SplitJoin(v: nat)
    requires v < 0x1000000
    ensures Join(Split(v)) == v
  {
  }

  lemma JoinSplit(d: seq<Digit>)
    requires |d| == 4
    ensures Split(Join(d)) == d
  {
    var v := Join(d);
    assert v / 64 == (d[0] as int * 64 + d[1]) * 64 + d[2];
    assert v / 64 / 64 == d[0] as int * 64 + d[1];
  }

  lemma UnpackPack(b: seq<Byte>)
    requires 1 <= |b| <= 3
    ensures Unpack(Pack(b), |b|) == b
  {
    var v := Pack(b);
    assert v / 256 == b[0] as int * 256 + (if |b| > 1 then b[1] as int else 0);
  }

  /** The bits below the kept bytes are zero in what the encoder packs. */
  predicate TailClear(v: nat, n: nat) {
    if n == 1 then v % 0x10000 == 0 else if n == 2 then v % 0x100 == 0 else true
  }

  lemma PackUnpack(v: nat, n: nat)
    requires v < 0x1000000 && 1 <= n <= 3
    ensures Pack(Unpack(v, n)) == v <==> TailClear(v, n)
  {
    var q1 := v / 256;
    assert v == q1 * 256 + v % 256 && q1 == q1 / 256 * 256 + q1 % 256;
  }

  /** Decoding the digits of b gives b back, with nothing in the discarded bits. */
  lemma DigitsForward(b: seq<Byte>)
    requires 1 <= |b| <= 3
    ensures Join(Digits(b)) == Pack(b) && TailClear(Pack(b), |b|) && Unpack(Join(Digits(b)), |b|) == b
  {
    UnpackPack(b);
    PackUnpack(Pack(b), |b|);
    JoinPrefix(Pack(b), |b|);
  }

  lemma JoinPrefix(v: nat, n: nat)
    requires v < 0x1000000 && 1 <= n <= 3 && TailClear(v, n)
    ensures Join(Split(v)[..n + 1]) == v
  {
    var d := Split(v);
    SplitJoin(v);
    ClearDigits(v, n);
    if n == 3 { assert d[..4] == d; }
  }

  /** The digits below the kept bytes are zero. */
  lemma ClearDigits(v: nat, n: nat)
    requires v < 0x1000000 && 1 <= n <= 3 && TailClear(v, n)
    ensures (n <= 2 ==> Split(v)[3] == 0) && (n == 1 ==> Split(v)[2] == 0)
  {
    if n == 1 { ClearTwo(v, v / 0x10000); }
    if n == 2 { ClearOne(v, v / 0x100); }
  }

  lemma ClearOne(v: nat, k: nat)
    requires v == k * 0x100
    ensures v % 64 == 0
  {
    DivModUnique(v, 64, 4 * k, 0);
  }

  lemma ClearTwo(v: nat, k: nat)
    requires v == k * 0x10000
    ensures v % 64 == 0 && v / 64 % 64 == 0
  {
    DivModUnique(v, 64, 0x400 * k, 0);
    DivModUnique(0x400 * k, 64, 0x10 * k, 0);
  }

  /** Digits with nothing in the discarded bits are the digits of the bytes they decode to. */
  lemma DigitsBackward(d: seq<Digit>)
    requires 2 <= |d| <= 4 && TailClear(Join(d), |d| - 1)
    ensures Digits(Unpack(Join(d), |d| - 1)) == d
  {
    PackUnpack(Join(d), |d| - 1);
    var full := d + seq(4 - |d|, i => 0);
    assert Join(full) == Join(d);
    JoinSplit(full);
    assert full[..|d|] == d;
  }
}
