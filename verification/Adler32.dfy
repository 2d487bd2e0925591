/** The Adler-32 checksum of src/hash/adler32/adler32.rs: 32-bit sums whose reduction is deferred
    to the end of each block of at most 5552 bytes. */
module Adler32 {

  import opened Bytes
  import opened Arithmetic

  const WORD: nat := 0x1_0000_0000
  const MOD: nat := 65521
  const NMAX: nat := 5552
  const MAGIC: seq<Byte> := [0x61, 0x64, 0x6c, 0x01]

  /** `wrapping_add` on 32-bit words. */
  function Add32(a: nat, b: nat): nat {
    (a + b) % WORD
  }

  // ─── the definition: section 8.2 of RFC 1950 ────────────────────────

  datatype Sums = Sums(s1: nat, s2: nat)

  /** One byte, reduced at once. */
  function Step(s: Sums, x: Byte): Sums {
    var s1 := (s.s1 + x) % MOD;
    Sums(s1, (s.s2 + s1) % MOD)
  }

  function Steps(s: Sums, p: seq<Byte>): Sums {
    if p == [] then s else Step(Steps(s, p[..|p| - 1]), p[|p| - 1])
  }

  function Unpack(d: nat): Sums {
    Sums(d % 65536, d / 65536)
  }

  function Pack(s: Sums): nat {
    s.s2 * 65536 + s.s1
  }

  lemma PackInverse(s: Sums)
    requires s.s1 < 65536 && s.s2 < 65536
    ensures Pack(s) < WORD && Unpack(Pack(s)) == s
  {
    DivModUnique(Pack(s), 65536, s.s2, s.s1);
  }

  lemma UnpackFits(d: nat)
    requires d < WORD
    ensures Unpack(d).s1 < 65536 && Unpack(d).s2 < 65536 && Pack(Unpack(d)) == d
  {
  }

  /** The checksum of `p` continued from digest `d`. */
  function Checksum(d: nat, p: seq<Byte>): nat {
    Pack(Steps(Unpack(d), p))
  }

  lemma {:induction false} StepsBounded(s: Sums, p: seq<Byte>)
    requires p != []
    ensures Steps(s, p).s1 < MOD && Steps(s, p).s2 < MOD
  {
  }

  lemma StepsFit(s: Sums, p: seq<Byte>)
    requires s.s1 < 65536 && s.s2 < 65536
    ensures Steps(s, p).s1 < 65536 && Steps(s, p).s2 < 65536
  {
    if p != [] { StepsBounded(s, p); }
  }

  lemma {:induction false} StepsAppend(s: Sums, p: seq<Byte>, q: seq<Byte>)
    ensures Steps(s, p + q) == Steps(Steps(s, p), q)
  {
    if q == [] {
      assert p + q == p;
    } else {
      assert (p + q)[..|p + q| - 1] == p + q[..|q| - 1];
      StepsAppend(s, p, q[..|q| - 1]);
    }
  }

  // ─── the unreduced sums of one block ────────────────────────────────

  function RawStep(s: Sums, x: Byte): Sums {
    Sums(s.s1 + x, s.s2 + s.s1 + x)
  }

  function Raw(s: Sums, p: seq<Byte>): Sums {
    if p == [] then s else RawStep(Raw(s, p[..|p| - 1]), p[|p| - 1])
  }

  function Reduce(s: Sums): Sums {
    Sums(s.s1 % MOD, s.s2 % MOD)
  }

  /** Reducing at the end of a block gives what reducing after every byte gives. */
  lemma {:induction false} DeferredModulo(s: Sums, p: seq<Byte>)
    ensures Reduce(Raw(s, p)) == Reduce(Steps(s, p))
  {
    if p == [] {
    } else {
      DeferredModulo(s, p[..|p| - 1]);
      StepReduces(Raw(s, p[..|p| - 1]), Steps(s, p[..|p| - 1]), p[|p| - 1]);
    }
  }

  lemma StepReduces(a: Sums, b: Sums, x: Byte)
    requires Reduce(a) == Reduce(b)
    ensures Reduce(RawStep(a, x)) == Step(b, x) == Reduce(Step(b, x))
  {
    SumMod(a.s1, b.s1, x, x, MOD);
    SumMod(a.s1 + x, b.s1 + x, a.s2, b.s2, MOD);
    SumMod(b.s1 + x, (b.s1 + x) % MOD, b.s2, b.s2, MOD);
    ModMod(b.s1 + x, MOD);
    ModMod(b.s2 + (b.s1 + x) % MOD, MOD);
  }

  lemma ModMod(a: nat, m: nat)
    requires m > 0
    ensures a % m < m && (a % m) % m == a % m
  {
    DivModUnique(a % m, m, 0, a % m);
  }

  lemma SumMod(a: int, b: int, c: int, d: int, m: nat)
    requires m > 0
    requires a % m == b % m || b == a % m
    requires c % m == d % m
    ensures (a + c) % m == (b + d) % m == (c + a) % m == (d + b) % m
  {
    ModMultiple(a, b, m);
    ModMultiple(c, d, m);
    var j: int :| a == b + m * j;
    var k: int :| c == d + m * k;
    assert a + c == b + d + m * (j + k);
    ModAddMultiple(b + d, j + k, m);
  }

  lemma ModMultiple(a: int, b: int, m: nat)
    requires m > 0 && (a % m == b % m || b == a % m)
    ensures exists k: int :: a == b + m * k
  {
    assert a == m * (a / m) + a % m;
    assert b == m * (b / m) + b % m;
    if b == a % m {
      assert a == b + m * (a / m);
    } else {
      assert a == b + m * (a / m - b / m);
    }
  }

  /** The most the sums can reach over n bytes. */
  function Peak(s: Sums, n: nat): Sums {
    if n == 0 then s else RawStep(Peak(s, n - 1), 255)
  }

  lemma {:induction false} RawBelowPeak(s: Sums, p: seq<Byte>)
    ensures Raw(s, p).s1 <= Peak(s, |p|).s1 && Raw(s, p).s2 <= Peak(s, |p|).s2
  {
    if p == [] {
    } else {
      RawBelowPeak(s, p[..|p| - 1]);
    }
  }

  /** The peak in closed form, doubled to stay in the integers. */
  lemma {:induction false} PeakClosed(s: Sums, n: nat)
    ensures Peak(s, n).s1 == s.s1 + 255 * n
    ensures 2 * Peak(s, n).s2 == 2 * s.s2 + 2 * n * s.s1 + 255 * n * (n + 1)
  {
    if n == 0 {
    } else {
      PeakClosed(s, n - 1);
      assert n * s.s1 == (n - 1) * s.s1 + s.s1;
    }
  }

  lemma {:induction false} PeakMonotone(s: Sums, m: nat, n: nat)
    requires m <= n
    ensures Peak(s, m).s1 <= Peak(s, n).s1 && Peak(s, m).s2 <= Peak(s, n).s2
  {
    if m >= n {
    } else {
      PeakMonotone(s, m, n - 1);
    }
  }

  /** No 32-bit sum wraps inside a block, even from the half-words 65521 to 65535 that a
      restored state can hold. */
  lemma BlockFits(s: Sums, p: seq<Byte>)
    requires s.s1 < 65536 && s.s2 < 65536 && |p| <= NMAX
    ensures Raw(s, p).s1 < WORD && Raw(s, p).s2 < WORD
  {
    RawBelowPeak(s, p);
    PeakMonotone(s, |p|, NMAX);
    PeakClosed(s, NMAX);
  }

  ghost predicate AlwaysFits(n: nat) {
    forall s: Sums, p: seq<Byte> :: s.s1 < MOD && s.s2 < MOD && |p| == n ==> Raw(s, p).s2 < WORD
  }

  lemma {:induction false} RawOfFull(s: Sums, p: seq<Byte>)
    requires forall i :: 0 <= i < |p| ==> p[i] == 255
    ensures Raw(s, p) == Peak(s, |p|)
  {
    if p == [] {
    } else {
      RawOfFull(s, p[..|p| - 1]);
    }
  }

  /** 5552 is the longest block for which deferring the modulo is safe. */
  lemma NmaxIsLargest(n: nat)
    ensures AlwaysFits(n) <==> n <= NMAX
  {
    if n <= NMAX {
      forall s: Sums, p: seq<Byte> | s.s1 < MOD && s.s2 < MOD && |p| == n
        ensures Raw(s, p).s2 < WORD
      {
        BlockFits(s, p);
      }
    } else {
      var s := Sums(MOD - 1, MOD - 1);
      var p := seq(n, i => 255 as Byte);
      RawOfFull(s, p);
      PeakMonotone(s, NMAX + 1, n);
      PeakClosed(s, NMAX + 1);
      assert !(Raw(s, p).s2 < WORD);
    }
  }

  lemma RawSlice(s: Sums, p: seq<Byte>, i: nat)
    requires i < |p|
    ensures Raw(s, p[..i + 1]) == RawStep(Raw(s, p[..i]), p[i])
  {
    assert p[..i + 1][..i] == p[..i];
  }

  /** One wrapping step on 32-bit words does what the unreduced sums do. */
  lemma WordStep(s: Sums, p: seq<Byte>, i: nat)
    requires s.s1 < 65536 && s.s2 < 65536 && i < |p| <= NMAX
    ensures var r := Raw(s, p[..i]); var t := Raw(s, p[..i + 1]);
      && t.s1 == Add32(r.s1, p[i])
      && t.s2 == Add32(r.s2, t.s1)
  {
    RawSlice(s, p, i);
    BlockFits(s, p[..i + 1]);
  }

  // ─── the code ───────────────────────────────────────────────────────

  /** The two inner loops: four bytes at a time, then the rest. */
  method SumBlock(s: Sums, p: seq<Byte>) returns (t: Sums)
    requires s.s1 < 65536 && s.s2 < 65536 && |p| <= NMAX
    ensures t == Raw(s, p)
  {
    var s1, s2 := s.s1, s.s2;
    var i := 0;
    while |p| - i >= 4
      invariant 0 <= i <= |p| && Sums(s1, s2) == Raw(s, p[..i])
    {
      WordStep(s, p, i);
      s1 := Add32(s1, p[i]);
      s2 := Add32(s2, s1);
      WordStep(s, p, i + 1);
      s1 := Add32(s1, p[i + 1]);
      s2 := Add32(s2, s1);
      WordStep(s, p, i + 2);
      s1 := Add32(s1, p[i + 2]);
      s2 := Add32(s2, s1);
      WordStep(s, p, i + 3);
      s1 := Add32(s1, p[i + 3]);
      s2 := Add32(s2, s1);
      i := i + 4;
    }
    while i < |p|
      invariant 0 <= i <= |p| && Sums(s1, s2) == Raw(s, p[..i])
    {
      WordStep(s, p, i);
      s1 := Add32(s1, p[i]);
      s2 := Add32(s2, s1);
      i := i + 1;
    }
    assert p[..i] == p;
    t := Sums(s1, s2);
  }

  /** `update`, for every 32-bit digest and every input. */
  method Update(d: nat, p: seq<Byte>) returns (r: nat)
    requires d < WORD
    ensures r < WORD && r == Checksum(d, p)
  {
    var s := Unpack(d);
    UnpackFits(d);
    ghost var start := s;
    var i := 0;
    while i < |p|
      invariant 0 <= i <= |p| && s == Steps(start, p[..i])
      invariant s.s1 < 65536 && s.s2 < 65536
    {
      var n := if |p| - i > NMAX then NMAX else |p| - i;
      s := AddBlock(s, p[i..i + n]);
      StepsSlice(start, p, i, i + n);
      i := i + n;
    }
    assert p[..i] == p;
    PackInverse(s);
    r := Pack(s);
  }

  lemma StepsSlice(s: Sums, p: seq<Byte>, i: nat, j: nat)
    requires i <= j <= |p|
    ensures Steps(Steps(s, p[..i]), p[i..j]) == Steps(s, p[..j])
  {
    StepsAppend(s, p[..i], p[i..j]);
    assert p[..i] + p[i..j] == p[..j];
  }

  /** One block and the reduction after it. */
  method AddBlock(s: Sums, block: seq<Byte>) returns (t: Sums)
    requires s.s1 < 65536 && s.s2 < 65536 && 0 < |block| <= NMAX
    ensures t == Steps(s, block) && t.s1 < MOD && t.s2 < MOD
  {
    var raw := SumBlock(s, block);
    DeferredModulo(s, block);
    StepsBounded(s, block);
    t := Reduce(raw);
    ModSmall(Steps(s, block));
  }

  lemma ModSmall(s: Sums)
    requires s.s1 < MOD && s.s2 < MOD
    ensures Reduce(s) == s
  {
  }

  lemma ChecksumWord(d: nat, p: seq<Byte>)
    requires d < WORD
    ensures Checksum(d, p) < WORD && Unpack(Checksum(d, p)) == Steps(Unpack(d), p)
  {
    UnpackFits(d);
    StepsFit(Unpack(d), p);
    PackInverse(Steps(Unpack(d), p));
  }

  /** Splitting the input changes nothing. */
  lemma ChecksumSplit(d: nat, p: seq<Byte>, q: seq<Byte>)
    requires d < WORD
    ensures Checksum(Checksum(d, p), q) == Checksum(d, p + q)
  {
    ChecksumWord(d, p);
    StepsAppend(Unpack(d), p, q);
  }

  // ─── the digest ─────────────────────────────────────────────────────

  function BigEndian(d: nat): (b: seq<Byte>)
    requires d < WORD
    ensures |b| == 4
  {
    [d / 0x1000000, d / 0x10000 % 256, d / 0x100 % 256, d % 256]
  }

  function FromBigEndian(b: seq<Byte>): (d: nat)
    requires |b| == 4
    ensures d < WORD
  {
    ((b[0] as int * 256 + b[1]) * 256 + b[2]) * 256 + b[3]
  }

  lemma BigEndianInverse(d: nat, b: seq<Byte>)
    requires d < WORD && |b| == 4
    ensures FromBigEndian(BigEndian(d)) == d
    ensures BigEndian(FromBigEndian(b)) == b
  {
    FourBytes(FromBigEndian(b), b[0], b[1], b[2], b[3]);
    var q1 := d / 256;
    var q2 := q1 / 256;
    FourBytes(d, q2 / 256, q2 % 256, q1 % 256, d % 256);
  }

  /** The byte at i counts 256^(3 - i). */
  lemma PlaceValues(d: nat, b: seq<Byte>)
    requires d < WORD && |b| == 4
    ensures BigEndian(d) == b <==> d == b[0] as int * 0x1000000 + b[1] as int * 0x10000 + b[2] as int * 0x100 + b[3]
    ensures FromBigEndian(b) == d <==> d == b[0] as int * 0x1000000 + b[1] as int * 0x10000 + b[2] as int * 0x100 + b[3]
  {
    BigEndianInverse(d, b);
  }

  lemma FourBytes(d: nat, b0: nat, b1: nat, b2: nat, b3: nat)
    requires b1 < 256 && b2 < 256 && b3 < 256 && d == ((b0 * 256 + b1) * 256 + b2) * 256 + b3
    ensures d / 0x1000000 == b0 && d / 0x10000 % 256 == b1 && d / 0x100 % 256 == b2 && d % 256 == b3
  {
    DivModUnique(d, 0x100, (b0 * 256 + b1) * 256 + b2, b3);
    DivModUnique(d, 0x10000, b0 * 256 + b1, b2 * 256 + b3);
    DivModUnique(d, 0x1000000, b0, (b1 * 256 + b2) * 256 + b3);
    DivModUnique(b0 * 256 + b1, 256, b0, b1);
    DivModUnique((b0 * 256 + b1) * 256 + b2, 256, b0 * 256 + b1, b2);
  }

  function Marshal(d: nat): (b: seq<Byte>)
    requires d < WORD
  {
    MAGIC + BigEndian(d)
  }

  datatype Unmarshaled = Restored(d: nat) | BadIdentifier | BadSize

  function Unmarshal(b: seq<Byte>): (r: Unmarshaled)
    ensures r.Restored? ==> r.d < WORD
  {
    if |b| < 4 || b[..4] != MAGIC then BadIdentifier
    else if |b| != 8 then BadSize
    else Restored(FromBigEndian(b[4..]))
  }

  /** Which refusal bytes get: they do not begin with the magic, or they do and are not four more. */
  lemma UnmarshalRefuses(b: seq<Byte>)
    ensures Unmarshal(b) == BadIdentifier <==> !(MAGIC <= b)
    ensures Unmarshal(b) == BadSize <==> MAGIC <= b && |b| != |MAGIC| + 4
  {
    if MAGIC <= b { assert b[..4] == MAGIC; }
  }

  /** A state is restored exactly from its own marshaled bytes. */
  lemma MarshalInverse(b: seq<Byte>, d: nat)
    requires d < WORD
    ensures Unmarshal(b) == Restored(d) <==> b == Marshal(d)
  {
    BigEndianInverse(d, BigEndian(d));
    assert Marshal(d)[..4] == MAGIC && Marshal(d)[4..] == BigEndian(d);
    if |b| == 8 && b[..4] == MAGIC {
      BigEndianInverse(d, b[4..]);
      assert b == b[..4] + b[4..];
    }
  }

  class Digest {
    var word: nat
    /** Every byte written since the last Reset. */
    ghost var written: seq<Byte>

    ghost predicate Valid()
      reads this
    {
      word == Checksum(1, written) && word < WORD
    }

    constructor ()
      ensures Valid() && written == []
    {
      word, written := 1, [];
    }

    method Reset()
      modifies this
      ensures Valid() && written == []
    {
      word, written := 1, [];
    }

    method Write(p: seq<Byte>) returns (n: nat)
      requires Valid()
      modifies this
      ensures Valid() && n == |p| && written == old(written) + p
    {
      ChecksumSplit(1, written, p);
      word := Update(word, p);
      written := written + p;
      n := |p|;
    }

    method Sum(b: seq<Byte>) returns (out: seq<Byte>)
      requires Valid()
      ensures out == b + BigEndian(Checksum(1, written))
    {
      out := b + BigEndian(word);
    }

    method MarshalBinary() returns (b: seq<Byte>)
      requires Valid()
      ensures b == Marshal(Checksum(1, written))
    {
      b := MAGIC + BigEndian(word);
    }

    /** Restoring another digest's state continues that digest; a refusal changes nothing. */
    method UnmarshalBinary(b: seq<Byte>, ghost theirs: seq<Byte>) returns (r: Unmarshaled)
      requires Valid()
      modifies this
      ensures r == Unmarshal(b) && (r.Restored? ==> word == r.d)
      ensures b == Marshal(Checksum(1, theirs)) ==> Valid() && written == theirs
      ensures !r.Restored? ==> Valid() && written == old(written)
    {
      r := Unmarshal(b);
      ChecksumWord(1, theirs);
      MarshalInverse(b, Checksum(1, theirs));
      if r.Restored? {
        word, written := r.d, theirs;
      }
    }
  }
}
