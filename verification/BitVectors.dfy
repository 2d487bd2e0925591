/** Bits of integers in infinite two's complement, and the limb-wise bit operations of
    src/math/big/mod.rs on magnitudes. */
module BitVectors {

  import opened Arithmetic
  import opened Limbs
  import opened LongDivision

  // ─── bits of an integer ─────────────────────────────────────────────

  /** Bit i of v in infinite two's complement: negative numbers end in ones. */
  function Bit(v: int, i: nat): bool
    decreases i
  {
    if i == 0 then v % 2 == 1 else Bit(v / 2, i - 1)
  }

  /** The same bit read off by shifting down and flooring. */
  lemma {:induction false} BitIsShift(v: int, i: nat)
    ensures Bit(v, i) == ((v / Pow2(i)) % 2 == 1)
    decreases i
  {
    if i == 0 {
    } else {
      BitIsShift(v / 2, i - 1);
      DivTwice(v, Pow2(i - 1));
    }
  }

  lemma DivTwice(v: int, p: nat)
    requires p > 0
    ensures v / (2 * p) == v / 2 / p
  {
    var h := v / 2;
    assert h == p * (h / p) + h % p;
    var r := 2 * (h % p) + v % 2;
    assert v == (2 * p) * (h / p) + r by {
      assert v == 2 * h + v % 2;
      assert (2 * p) * (h / p) == 2 * (p * (h / p));
    }
    DivModUnique(v, 2 * p, h / p, r);
  }

  /** Integers with the same bits are equal. */
  lemma {:induction false} BitsDetermine(x: int, y: int)
    requires forall i: nat :: Bit(x, i) == Bit(y, i)
    ensures x == y
    decreases (if x < 0 then -x else x) + (if y < 0 then -y else y)
  {
    assert Bit(x, 0) == Bit(y, 0);
    if -1 <= x <= 0 && -1 <= y <= 0 {
    } else {
      forall i: nat
        ensures Bit(x / 2, i) == Bit(y / 2, i)
      {
        assert Bit(x, i + 1) == Bit(y, i + 1);
      }
      BitsDetermine(x / 2, y / 2);
    }
  }

  /** Negating and subtracting one flips every bit. */
  lemma {:induction false} ComplementBit(t: int, i: nat)
    ensures Bit(-t - 1, i) == !Bit(t, i)
    decreases i
  {
    if i == 0 {
    } else {
      assert (-t - 1) / 2 == -(t / 2) - 1;
      ComplementBit(t / 2, i - 1);
    }
  }

  lemma {:induction false} ZeroBit(i: nat)
    ensures !Bit(0, i)
  {
    if i == 0 {
    } else {
      ZeroBit(i - 1);
    }
  }

  lemma {:induction false} Pow2Bit(k: nat, i: nat)
    ensures Bit(Pow2(k), i) == (i == k)
  {
    if i > 0 && k > 0 {
      Pow2Bit(k - 1, i - 1);
    } else if i > 0 {
      ZeroBit(i - 1);
    }
  }

  /** A number below 2^k and a multiple of 2^k keep to their own bits. */
  lemma {:induction false} JoinBits(x: nat, hi: int, k: nat, i: nat)
    requires x < Pow2(k)
    ensures Bit(x + Pow2(k) * hi, i) == if i < k then Bit(x, i) else Bit(hi, i - k)
  {
    if k == 0 {
    } else {
      var rest := Pow2(k - 1) * hi;
      assert Pow2(k) * hi == 2 * rest;
      assert (x + 2 * rest) / 2 == x / 2 + rest;
      if i > 0 { JoinBits(x / 2, hi, k - 1, i - 1); }
    }
  }

  /** Shifting up moves every bit up. */
  lemma ShiftedUpBit(v: int, k: nat, i: nat)
    ensures Bit(v * Pow2(k), i) == (i >= k && Bit(v, i - k))
  {
    JoinBits(0, v, k, i);
    ZeroBit(i);
  }

  /** Shifting down drops the low bits. */
  lemma ShiftedDownBit(v: int, k: nat, i: nat)
    ensures Bit(v / Pow2(k), i) == Bit(v, i + k)
  {
    var q, r := v / Pow2(k), v % Pow2(k);
    assert v == r + Pow2(k) * q;
    JoinBits(r, q, k, i + k);
  }

  // ─── bits of a limb vector ──────────────────────────────────────────

  function VectorBit(a: seq<Limb>, i: nat): bool {
    i / 32 < |a| && Bit(a[i / 32], i % 32)
  }

  lemma LimbJoinBit(x: Limb, hi: int, i: nat)
    ensures Bit(x + BASE * hi, i) == if i < 32 then Bit(x, i) else Bit(hi, i - 32)
  {
    Pow2Words();
    JoinBits(x, hi, 32, i);
  }

  lemma VectorBitStep(a: seq<Limb>, i: nat)
    requires a != []
    ensures VectorBit(a, i) == if i < 32 then Bit(a[0], i) else VectorBit(a[1..], i - 32)
  {
    if i < 32 {
      DivModUnique(i, 32, 0, i);
    } else {
      DivModUnique(i, 32, (i - 32) / 32 + 1, (i - 32) % 32);
    }
  }

  lemma {:induction false} ValueBit(a: seq<Limb>, i: nat)
    ensures Bit(Value(a), i) == VectorBit(a, i)
  {
    if a == [] {
      ZeroBit(i);
    } else {
      LimbJoinBit(a[0], Value(a[1..]), i);
      VectorBitStep(a, i);
      if i >= 32 { ValueBit(a[1..], i - 32); }
    }
  }

  // ─── bit operations on machine words ────────────────────────────────

  type BitOp = (bool, bool) -> bool

  /** The n-bit word whose bits are f of the operands' bits: `&`, `|`, `^` or `& !` on words. */
  function WordOp(f: BitOp, x: nat, y: nat, n: nat): (r: nat)
    ensures r < Pow2(n)
  {
    if n == 0 then 0
    else (if f(x % 2 == 1, y % 2 == 1) then 1 else 0) + 2 * WordOp(f, x / 2, y / 2, n - 1)
  }

  lemma {:induction false} WordOpBit(f: BitOp, x: nat, y: nat, n: nat, i: nat)
    requires i < n
    ensures Bit(WordOp(f, x, y, n), i) == f(Bit(x, i), Bit(y, i))
  {
    if i == 0 {
    } else {
      var rest := WordOp(f, x / 2, y / 2, n - 1);
      assert WordOp(f, x, y, n) / 2 == rest;
      WordOpBit(f, x / 2, y / 2, n - 1, i - 1);
    }
  }

  function LimbOp(f: BitOp, x: Limb, y: Limb): (r: Limb) {
    Pow2Words();
    WordOp(f, x, y, 32)
  }

  /** An operation that keeps its left operand where the right one is zero. */
  lemma {:induction false} KeepsLeft(f: BitOp, x: nat, n: nat)
    requires x < Pow2(n) && forall b :: f(b, false) == b
    ensures WordOp(f, x, 0, n) == x
  {
    if n == 0 {
    } else {
      KeepsLeft(f, x / 2, n - 1);
    }
  }

  lemma {:induction false} KeepsRight(f: BitOp, y: nat, n: nat)
    requires y < Pow2(n) && forall b :: f(false, b) == b
    ensures WordOp(f, 0, y, n) == y
  {
    if n == 0 {
    } else {
      KeepsRight(f, y / 2, n - 1);
    }
  }

  lemma {:induction false} ClearsRight(f: BitOp, y: nat, n: nat)
    requires forall b :: !f(false, b)
    ensures WordOp(f, 0, y, n) == 0
  {
    if n == 0 {
    } else {
      ClearsRight(f, y / 2, n - 1);
    }
  }

  lemma {:induction false} ClearsLeft(f: BitOp, x: nat, n: nat)
    requires forall b :: !f(b, false)
    ensures WordOp(f, x, 0, n) == 0
  {
    if n == 0 {
    } else {
      ClearsLeft(f, x / 2, n - 1);
    }
  }

  // ─── bit operations on vectors ──────────────────────────────────────

  const AND: BitOp := (a, b) => a && b
  const OR: BitOp := (a, b) => a || b
  const XOR: BitOp := (a, b) => a != b
  const ANDNOT: BitOp := (a, b) => a && !b

  /** z is f of x and y, limb by limb, missing limbs counting as zero. */
  ghost predicate Combined(f: BitOp, x: seq<Limb>, y: seq<Limb>, z: seq<Limb>) {
    forall k: nat :: At(z, k) == LimbOp(f, At(x, k), At(y, k))
  }

  /** Every bit of r is f of the bits of x and y. */
  ghost predicate Bitwise(f: BitOp, x: int, y: int, r: int) {
    forall i: nat :: Bit(r, i) == f(Bit(x, i), Bit(y, i))
  }

  lemma CombinedBits(f: BitOp, x: seq<Limb>, y: seq<Limb>, z: seq<Limb>)
    requires Combined(f, x, y, z) && !f(false, false)
    ensures Bitwise(f, Value(x), Value(y), Value(z))
  {
    forall i: nat
      ensures Bit(Value(z), i) == f(Bit(Value(x), i), Bit(Value(y), i))
    {
      ValueBit(x, i);
      ValueBit(y, i);
      ValueBit(z, i);
      AtBit(x, i);
      AtBit(y, i);
      AtBit(z, i);
      assert At(z, i / 32) == LimbOp(f, At(x, i / 32), At(y, i / 32));
      WordOpBit(f, At(x, i / 32), At(y, i / 32), 32, i % 32);
    }
  }

  lemma AtBit(a: seq<Limb>, i: nat)
    ensures VectorBit(a, i) == Bit(At(a, i / 32), i % 32)
  {
    ZeroBit(i % 32);
  }

  method AndLimbs(x: seq<Limb>, y: seq<Limb>) returns (r: seq<Limb>)
    ensures Trimmed(r) && Bitwise(AND, Value(x), Value(y), Value(r))
  {
    var m := if |x| < |y| then |x| else |y|;
    var z: seq<Limb> := [];
    while |z| < m
      invariant |z| <= m
      invariant forall k :: 0 <= k < |z| ==> z[k] == LimbOp(AND, x[k], y[k])
    {
      z := z + [LimbOp(AND, x[|z|], y[|z|])];
    }
    forall k: nat
      ensures At(z, k) == LimbOp(AND, At(x, k), At(y, k))
    {
      if k >= |x| { ClearsRight(AND, At(y, k), 32); } else if k >= |y| { ClearsLeft(AND, At(x, k), 32); }
    }
    CombinedBits(AND, x, y, z);
    r := Trim(z);
  }

  method AndNotLimbs(x: seq<Limb>, y: seq<Limb>) returns (r: seq<Limb>)
    ensures Trimmed(r) && Bitwise(ANDNOT, Value(x), Value(y), Value(r))
  {
    var n := if |y| < |x| then |y| else |x|;
    var z: seq<Limb> := [];
    while |z| < n
      invariant |z| <= n
      invariant forall k :: 0 <= k < |z| ==> z[k] == LimbOp(ANDNOT, x[k], y[k])
    {
      z := z + [LimbOp(ANDNOT, x[|z|], y[|z|])];
    }
    z := z + x[n..];
    forall k: nat
      ensures At(z, k) == LimbOp(ANDNOT, At(x, k), At(y, k))
    {
      Pow2Words();
      if k >= |x| { ClearsRight(ANDNOT, At(y, k), 32); } else if k >= |y| { KeepsLeft(ANDNOT, At(x, k), 32); }
    }
    CombinedBits(ANDNOT, x, y, z);
    r := Trim(z);
  }

  /** `or_limbs` and `xor_limbs` run the same loop over the shorter operand. */
  method MergeLimbs(f: BitOp, x: seq<Limb>, y: seq<Limb>) returns (r: seq<Limb>)
    requires forall b :: f(b, false) == b && f(false, b) == b
    ensures Trimmed(r) && Bitwise(f, Value(x), Value(y), Value(r))
  {
    var n, z := if |x| < |y| then |x| else |y|, if |x| < |y| then y else x;
    ghost var long := z;
    var i := 0;
    while i < n
      invariant 0 <= i <= n && |z| == |long|
      invariant forall k :: 0 <= k < i ==> z[k] == LimbOp(f, x[k], y[k])
      invariant forall k :: i <= k < |z| ==> z[k] == long[k]
    {
      z := z[i := LimbOp(f, x[i], y[i])];
      i := i + 1;
    }
    forall k: nat
      ensures At(z, k) == LimbOp(f, At(x, k), At(y, k))
    {
      Pow2Words();
      if k >= |x| { KeepsRight(f, At(y, k), 32); } else if k >= |y| { KeepsLeft(f, At(x, k), 32); }
    }
    CombinedBits(f, x, y, z);
    r := Trim(z);
  }

  // ─── one bit ────────────────────────────────────────────────────────

  /** `limb_bit` */
  method LimbBit(a: seq<Limb>, i: nat) returns (b: bool)
    ensures b == Bit(Value(a), i)
  {
    ValueBit(a, i);
    var j := i / 32;
    if j >= |a| { return false; }
    BitIsShift(a[j], i % 32);
    b := (a[j] / Pow2(i % 32)) % 2 == 1;
  }

  lemma {:induction false} LimbMask(k: nat)
    requires k < 32
    ensures Pow2(k) < BASE
  {
    Pow2Words();
    Pow2Monotone(k, 32);
  }

  /** r is v with bit i made b. */
  ghost predicate BitReplaced(v: int, i: nat, b: bool, r: int) {
    forall k: nat :: Bit(r, k) == if k == i then b else Bit(v, k)
  }

  /** `limb_set_bit`: set or clear bit i with a one-bit mask, growing the vector if need be. */
  method LimbSetBit(a: seq<Limb>, i: nat, b: bool) returns (r: seq<Limb>)
    ensures Trimmed(r) && BitReplaced(Value(a), i, b, Value(r))
  {
    var j := i / 32;
    LimbMask(i % 32);
    var m: Limb := Pow2(i % 32);
    var z := a;
    if !b {
      if j < |z| {
        z := z[j := LimbOp(ANDNOT, z[j], m)];
      }
    } else {
      if j >= |z| {
        z := Resize(z, j + 1);
      }
      ghost var grown := z;
      z := z[j := LimbOp(OR, z[j], m)];
      assert Value(grown) == Value(a);
      forall k: nat
        ensures Bit(Value(z), k) == if k == i then b else Bit(Value(a), k)
      {
        MaskedBit(OR, grown, z, i, k);
      }
      r := Trim(z);
      return;
    }
    forall k: nat
      ensures Bit(Value(z), k) == if k == i then b else Bit(Value(a), k)
    {
      if j < |a| { MaskedBit(ANDNOT, a, z, i, k); } else { ValueBit(a, i); }
    }
    r := Trim(z);
  }

  /** Applying a one-bit mask to one limb changes one bit of the number. */
  lemma MaskedBit(f: BitOp, a: seq<Limb>, z: seq<Limb>, i: nat, k: nat)
    requires i / 32 < |a| && Pow2(i % 32) < BASE && forall b :: f(b, false) == b
    requires z == a[i / 32 := LimbOp(f, a[i / 32], Pow2(i % 32))]
    ensures Bit(Value(z), k) == if k == i then f(Bit(Value(a), k), true) else Bit(Value(a), k)
  {
    ValueBit(a, k);
    ValueBit(z, k);
    if k / 32 == i / 32 {
      WordOpBit(f, a[i / 32], Pow2(i % 32), 32, k % 32);
      Pow2Bit(i % 32, k % 32);
    }
  }

  // ─── shifts of any size ─────────────────────────────────────────────

  lemma {:induction false} BasePowIsPow2(k: nat)
    ensures BasePow(k) == Pow2(32 * k)
  {
    Pow2Words();
    if k == 0 {
    } else {
      BasePowIsPow2(k - 1);
      Pow2Add(32, 32 * (k - 1));
      assert 32 + 32 * (k - 1) == 32 * k;
    }
  }

  lemma ShiftSplit(s: nat)
    ensures BasePow(s / 32) * Pow2(s % 32) == Pow2(s)
  {
    BasePowIsPow2(s / 32);
    Pow2Add(32 * (s / 32), s % 32);
  }

  method LshLimbs(x: seq<Limb>, s: nat) returns (r: seq<Limb>)
    requires Trimmed(x)
    ensures Trimmed(r) && Value(r) == Value(x) * Pow2(s)
  {
    if x == [] { return []; }
    var k := s / 32;
    var shifted := x;
    if s % 32 != 0 { shifted := ShlSmall(x, s % 32); }
    ShiftSplit(s);
    var zeros: seq<Limb> := seq(k, i => 0);
    ValueZeros(zeros);
    ValueAppend(zeros, shifted);
    Reassociate(BasePow(k), Pow2(s % 32), Pow2(s), Value(x), Value(shifted));
    r := Trim(if k == 0 then shifted else zeros + shifted);
  }

  lemma Reassociate(p: int, t: int, pt: int, v: int, vt: int)
    requires pt == p * t && vt == v * t
    ensures p * vt == v * pt
  {
  }

  method RshLimbs(x: seq<Limb>, s: nat) returns (r: seq<Limb>)
    requires Trimmed(x)
    ensures Trimmed(r) && Value(r) == Value(x) / Pow2(s)
  {
    var k := s / 32;
    if k >= |x| {
      ShiftedOut(x, s);
      return [];
    }
    var dropped := x[k..];
    ghost var lost: nat := 0;
    var out := dropped;
    if s % 32 != 0 { out, lost := ShrSmall(dropped, s % 32); }
    RshValue(x, s, out, lost);
    r := Trim(out);
  }

  lemma RshValue(x: seq<Limb>, s: nat, out: seq<Limb>, lost: nat)
    requires s / 32 < |x| && lost < Pow2(s % 32)
    requires Value(x[s / 32..]) == Value(out) * Pow2(s % 32) + lost
    ensures Value(out) == Value(x) / Pow2(s)
  {
    var k := s / 32;
    assert x == x[..k] + x[k..];
    ValueAppend(x[..k], x[k..]);
    ValueBound(x[..k]);
    ShiftSplit(s);
    ShiftedDown(BasePow(k), Pow2(s % 32), Pow2(s), Value(x[..k]), Value(x[k..]), Value(x), Value(out), lost);
  }

  lemma ShiftedDown(p: nat, t: nat, pt: nat, low: nat, high: nat, whole: nat, v: nat, lost: nat)
    requires low < p && lost < t && pt == p * t && high == v * t + lost && whole == low + p * high
    ensures pt > 0 && v == whole / pt
  {
    assert p * (v * t + lost) == (p * t) * v + p * lost;
    MulMonotone(p, lost + 1, p, t);
    assert p * (lost + 1) == p * lost + p;
    DivModUnique(whole, pt, v, low + p * lost);
  }

  lemma ShiftedOut(x: seq<Limb>, s: nat)
    requires |x| <= s / 32
    ensures Value(x) / Pow2(s) == 0
  {
    ValueBound(x);
    ShiftSplit(s);
    var k := s / 32;
    BasePowAdd(|x|, k - |x|);
    MulMonotone(BasePow(|x|), 1, BasePow(|x|), BasePow(k - |x|));
    MulMonotone(BasePow(k), 1, BasePow(k), Pow2(s % 32));
    DivModUnique(Value(x), Pow2(s), 0, Value(x));
  }
}
