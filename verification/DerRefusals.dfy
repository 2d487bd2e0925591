/** Which error and which offset `parseTagAndLength` gives to each header that it refuses, told from
    the bytes alone. */
module DerRefusals {

  import opened Bytes
  import opened DerHeader

  predicate High(bytes: seq<Byte>, lo: nat, hi: nat) {
    hi <= |bytes| && forall i :: lo <= i < hi ==> bytes[i] >= 128
  }

  // ─── long tags ──────────────────────────────────────────────────────

  /** A base-128 number at o, of which k bytes with value a have been read, is refused. */
  predicate NumberRefused(bytes: seq<Byte>, o: nat, k: nat, a: nat, err: Error, e: nat) {
    match err
    case NotMinimal => k == 0 && e == o < |bytes| && bytes[o] == 0x80
    case TruncatedBase128 =>
      e == |bytes| && k + (e - o) <= 5 && High(bytes, o, e) && (k == 0 && o < e ==> bytes[o] != 0x80)
    case Base128TooLarge =>
      && o < |bytes| && (k == 0 ==> bytes[o] != 0x80)
      && ((k + (e - o) == 5 && o <= e < |bytes| && High(bytes, o, e)) ||
          (Run(bytes, o, e) && k + (e - o) <= 5 && Horner(bytes, o, e, a, 128) > MAX_INT32))
    case _ => false
  }

  lemma {:induction false} NumberRefusedIff(bytes: seq<Byte>, o: nat, k: nat, a: nat, err: Error, e: nat)
    requires o <= |bytes| && k <= 5
    ensures ParseBase128(bytes, o, k, a) == Err(err, e) <==> NumberRefused(bytes, o, k, a, err, e)
    decreases |bytes| - o
  {
    if o == |bytes| || k == 5 || (k == 0 && bytes[o] == 0x80) {
    } else {
      var a' := a * 128 + bytes[o] % 128;
      assert Horner(bytes, o, o, a, 128) == a;
      assert Horner(bytes, o, o + 1, a, 128) == a';
      if bytes[o] >= 128 {
        NumberRefusedIff(bytes, o + 1, k + 1, a', err, e);
        NumberRefusedStep(bytes, o, k, a, err, e);
      }
    }
  }

  lemma NumberRefusedStep(bytes: seq<Byte>, o: nat, k: nat, a: nat, err: Error, e: nat)
    requires o < |bytes| && k < 5 && bytes[o] >= 128 && !(k == 0 && bytes[o] == 0x80)
    ensures NumberRefused(bytes, o, k, a, err, e) <==>
      NumberRefused(bytes, o + 1, k + 1, a * 128 + bytes[o] % 128, err, e)
  {
    if o + 1 < e <= |bytes| {
      HornerFirst(bytes, o, e, a, 128);
      RunFirst(bytes, o, e);
    }
  }

  // ─── long lengths ───────────────────────────────────────────────────

  /** A length of n bytes at o, behind bytes with value a, is refused. */
  predicate LengthRefused(bytes: seq<Byte>, o: nat, n: nat, a: nat, err: Error, e: nat) {
    match err
    case LeadingZeros => n > 0 && o < |bytes| && a == 0 && bytes[o] == 0 && e == o + 1
    case Truncated =>
      && o <= e == |bytes| < o + n
      && (o < e ==> (a == 0 ==> bytes[o] != 0) && Horner(bytes, o, e - 1, a, 256) < 0x80_0000)
    case LengthTooLarge =>
      && o < e <= |bytes| && e <= o + n && (a == 0 ==> bytes[o] != 0)
      && Horner(bytes, o, e - 1, a, 256) >= 0x80_0000
      && (o < e - 1 ==> Horner(bytes, o, e - 2, a, 256) < 0x80_0000)
    case _ => false
  }

  lemma {:induction false} LengthRefusedIff(bytes: seq<Byte>, o: nat, n: nat, a: nat, err: Error, e: nat)
    requires o <= |bytes|
    ensures ParseLength(bytes, o, n, a) == Err(err, e) <==> LengthRefused(bytes, o, n, a, err, e)
    decreases n
  {
    if n == 0 || o == |bytes| {
    } else if a >= 0x80_0000 {
      assert Horner(bytes, o, o, a, 256) == a;
      if o < e <= |bytes| { HornerGrows(bytes, o, e - 1, a); }
      if o + 1 < e <= |bytes| { HornerGrows(bytes, o, e - 2, a); }
    } else {
      var a' := a * 256 + bytes[o];
      if a' == 0 {
      } else {
        LengthRefusedIff(bytes, o + 1, n - 1, a', err, e);
        LengthRefusedStep(bytes, o, n, a, err, e);
      }
    }
  }

  lemma LengthRefusedStep(bytes: seq<Byte>, o: nat, n: nat, a: nat, err: Error, e: nat)
    requires n > 0 && o < |bytes| && a < 0x80_0000 && a * 256 + bytes[o] > 0
    ensures LengthRefused(bytes, o, n, a, err, e) <==>
      LengthRefused(bytes, o + 1, n - 1, a * 256 + bytes[o], err, e)
  {
    assert Horner(bytes, o, o, a, 256) == a;
    assert Horner(bytes, o, o + 1, a, 256) == a * 256 + bytes[o];
    if o + 1 < e <= |bytes| { HornerFirst(bytes, o, e - 1, a, 256); }
    if o + 2 < e <= |bytes| { HornerFirst(bytes, o, e - 2, a, 256); }
  }

  // ─── headers ────────────────────────────────────────────────────────

  /** The identifier octets of a header are those from offset to m. */
  predicate Identified(bytes: seq<Byte>, offset: nat, m: nat) {
    && offset < m <= |bytes|
    && if bytes[offset] % 32 != 31 then m == offset + 1
       else
         && Run(bytes, offset + 1, m) && m <= offset + 6 && bytes[offset + 1] != 0x80
         && 31 <= Horner(bytes, offset + 1, m, 0, 128) <= MAX_INT32
  }

  /** The length octets from m on are refused. */
  predicate RestRefused(bytes: seq<Byte>, m: nat, err: Error, e: nat) {
    if m >= |bytes| then err == Truncated && e == m
    else if bytes[m] <= 128 then bytes[m] == 128 && err == Indefinite && e == m + 1
    else if err == NonMinimalLength then bytes[m] == 129 && e == m + 2 <= |bytes| && 0 < bytes[m + 1] < 128
    else LengthRefused(bytes, m + 1, bytes[m] - 128, 0, err, e)
  }

  ghost predicate Refused(bytes: seq<Byte>, offset: nat, err: Error, e: nat) {
    if offset >= |bytes| then err == Internal && e == offset
    else
      || (bytes[offset] % 32 == 31 && NumberRefused(bytes, offset + 1, 0, 0, err, e))
      || (bytes[offset] % 32 == 31 && err == NonMinimalTag && e == offset + 2 <= |bytes| && bytes[offset + 1] < 31)
      || (exists m :: Identified(bytes, offset, m) && RestRefused(bytes, m, err, e))
  }

  /** A number of one byte is its last seven bits; with more bytes it is at least 128. */
  lemma {:induction false} SmallNumber(bytes: seq<Byte>, lo: nat, hi: nat)
    requires Run(bytes, lo, hi) && bytes[lo] != 0x80
    ensures if hi == lo + 1 then Horner(bytes, lo, hi, 0, 128) == bytes[lo] else Horner(bytes, lo, hi, 0, 128) >= 128
  {
    assert Horner(bytes, lo, lo, 0, 128) == 0;
    if hi == lo + 1 {
    } else {
      LeadingCounts(bytes, lo, hi - 1, 128);
    }
  }

  lemma {:induction false} LeadingCounts(bytes: seq<Byte>, lo: nat, hi: nat, b: nat)
    requires lo < hi <= |bytes| && b > 0 && bytes[lo] % b > 0
    ensures Horner(bytes, lo, hi, 0, b) >= 1
  {
    if hi == lo + 1 {
    } else {
      LeadingCounts(bytes, lo, hi - 1, b);
      assert Horner(bytes, lo, hi - 1, 0, b) * b >= 1;
    }
  }

  lemma RestRefusedIff(bytes: seq<Byte>, m: nat, cls: nat, tag: nat, isCompound: bool, err: Error, e: nat)
    ensures ParseRest(bytes, m, cls, tag, isCompound) == Err(err, e) <==> RestRefused(bytes, m, err, e)
  {
    if m < |bytes| && bytes[m] > 128 {
      LengthRefusedIff(bytes, m + 1, bytes[m] - 128, 0, err, e);
      var r := ParseLength(bytes, m + 1, bytes[m] - 128, 0);
      if r.Ok? {
        ParseLengthIff(bytes, m + 1, bytes[m] - 128, 0, r.value, r.offset);
        SmallLength(bytes, m + 1, r.offset);
      }
      if err == NonMinimalLength && RestRefused(bytes, m, err, e) {
        ParseLengthIff(bytes, m + 1, 1, 0, bytes[m + 1], e);
        SmallLength(bytes, m + 1, e);
      }
    }
  }

  lemma SmallLength(bytes: seq<Byte>, lo: nat, hi: nat)
    requires lo < hi <= |bytes| && bytes[lo] != 0
    ensures if hi == lo + 1 then Horner(bytes, lo, hi, 0, 256) == bytes[lo] else Horner(bytes, lo, hi, 0, 256) >= 256
  {
    assert Horner(bytes, lo, lo, 0, 256) == 0;
    if hi > lo + 1 { LeadingCounts(bytes, lo, hi - 1, 256); }
  }

  /** There is one place where the identifier octets can end. */
  lemma IdentifiedOnce(bytes: seq<Byte>, offset: nat, m: nat, k: nat)
    requires Identified(bytes, offset, m) && Identified(bytes, offset, k)
    ensures m == k
  {
  }

  /** Each refusal: the header at offset is refused with this error at this place exactly when the
      bytes say so. */
  lemma RefusedIff(bytes: seq<Byte>, offset: nat, err: Error, e: nat)
    ensures Parse(bytes, offset) == Err(err, e) <==> Refused(bytes, offset, err, e)
  {
    if offset >= |bytes| {
    } else if bytes[offset] % 32 != 31 {
      ShortTagRefused(bytes, offset, err, e);
    } else {
      var r := ParseBase128(bytes, offset + 1, 0, 0);
      if r.Err? {
        LongTagRefused(bytes, offset, err, e);
      } else {
        LongTagRead(bytes, offset, err, e, r.value, r.offset);
      }
    }
  }

  lemma ShortTagRefused(bytes: seq<Byte>, offset: nat, err: Error, e: nat)
    requires offset < |bytes| && bytes[offset] % 32 != 31
    ensures Parse(bytes, offset) == Err(err, e) <==> Refused(bytes, offset, err, e)
  {
    var b := bytes[offset];
    assert Identified(bytes, offset, offset + 1);
    RestRefusedIff(bytes, offset + 1, b / 64, b % 32, b / 32 % 2 == 1, err, e);
  }

  lemma LongTagRefused(bytes: seq<Byte>, offset: nat, err: Error, e: nat)
    requires offset < |bytes| && bytes[offset] % 32 == 31 && ParseBase128(bytes, offset + 1, 0, 0).Err?
    ensures Parse(bytes, offset) == Err(err, e) <==> Refused(bytes, offset, err, e)
  {
    NumberRefusedIff(bytes, offset + 1, 0, 0, err, e);
    forall m ensures !Identified(bytes, offset, m) {
      if offset + 1 < m { ParseBase128Iff(bytes, offset + 1, 0, 0, Value(bytes, offset + 1, m), m); }
    }
    if offset + 1 < |bytes| && bytes[offset + 1] < 31 { OneByteTag(bytes, offset + 1); }
  }

  function Value(bytes: seq<Byte>, lo: nat, hi: nat): nat {
    if lo <= hi <= |bytes| then Horner(bytes, lo, hi, 0, 128) else 0
  }

  lemma OneByteTag(bytes: seq<Byte>, o: nat)
    requires o < |bytes| && bytes[o] < 128
    ensures ParseBase128(bytes, o, 0, 0) == Ok(bytes[o], o + 1)
  {
  }

  lemma LongTagRead(bytes: seq<Byte>, offset: nat, err: Error, e: nat, tag: nat, m: nat)
    requires offset < |bytes| && bytes[offset] % 32 == 31 && ParseBase128(bytes, offset + 1, 0, 0) == Ok(tag, m)
    ensures Parse(bytes, offset) == Err(err, e) <==> Refused(bytes, offset, err, e)
  {
    var b := bytes[offset];
    NumberRefusedIff(bytes, offset + 1, 0, 0, err, e);
    ParseBase128Iff(bytes, offset + 1, 0, 0, tag, m);
    SmallNumber(bytes, offset + 1, m);
    if offset + 1 < |bytes| && bytes[offset + 1] < 31 { OneByteTag(bytes, offset + 1); }
    if tag >= 31 {
      assert Identified(bytes, offset, m);
      RestRefusedIff(bytes, m, b / 64, tag, b / 32 % 2 == 1, err, e);
      forall k | Identified(bytes, offset, k) ensures k == m { IdentifiedOnce(bytes, offset, m, k); }
    }
  }
}
