/** Magnitudes as little-endian vectors of 32-bit limbs: the helpers of src/math/big/mod.rs. */
module Limbs {

  import opened Arithmetic

  const BASE: nat := 0x1_0000_0000

  type Limb = x: int | 0 <= x < BASE

  // ─── the number a vector stands for ─────────────────────────────────

  function Value(a: seq<Limb>): nat {
    if a == [] then 0 else a[0] + BASE * Value(a[1..])
  }

  function BasePow(k: nat): (p: nat)
    ensures p >= 1
  {
    if k == 0 then 1 else BASE * BasePow(k - 1)
  }

  lemma {:induction false} ValueAppend(a: seq<Limb>, b: seq<Limb>)
    ensures Value(a + b) == Value(a) + BasePow(|a|) * Value(b)
  {
    if a == [] {
      assert a + b == b;
    } else {
      assert (a + b)[1..] == a[1..] + b;
      ValueAppend(a[1..], b);
      AppendAlgebra(BasePow(|a| - 1), Value(b));
    }
  }

  lemma AppendAlgebra(p: int, v: int)
    ensures (BASE * p) * v == BASE * (p * v)
  {
  }

  lemma ValueCons(x: Limb, a: seq<Limb>)
    ensures Value([x] + a) == x + BASE * Value(a)
  {
    assert ([x] + a)[1..] == a;
  }

  lemma ValueSnoc(a: seq<Limb>, x: Limb)
    ensures Value(a + [x]) == Value(a) + BasePow(|a|) * x
  {
    ValueAppend(a, [x]);
    assert Value([x]) == x;
  }

  lemma {:induction false} ValueBound(a: seq<Limb>)
    ensures Value(a) < BasePow(|a|)
  {
    if a == [] {
    } else {
      ValueBound(a[1..]);
    }
  }

  lemma {:induction false} BasePowAdd(j: nat, k: nat)
    ensures BasePow(j + k) == BasePow(j) * BasePow(k)
  {
    if j == 0 {
    } else {
      BasePowAdd(j - 1, k);
      assert BasePow(j + k) == BASE * BasePow((j - 1) + k);
    }
  }

  lemma ValueUpdate(a: seq<Limb>, i: nat, x: Limb)
    requires i < |a|
    ensures Value(a[i := x]) == Value(a) + BasePow(i) * (x - a[i])
  {
    var hi := a[i + 1..];
    assert a == a[..i] + ([a[i]] + hi);
    assert a[i := x] == a[..i] + ([x] + hi);
    ValueAppend(a[..i], [a[i]] + hi);
    ValueAppend(a[..i], [x] + hi);
    ValueCons(a[i], hi);
    ValueCons(x, hi);
    UpdateAlgebra(BasePow(i), x, a[i], BASE * Value(hi));
  }

  lemma UpdateAlgebra(p: int, x: int, y: int, d: int)
    ensures p * (x + d) == p * (y + d) + p * (x - y)
  {
  }

  lemma {:induction false} ValueZeros(a: seq<Limb>)
    requires forall i :: 0 <= i < |a| ==> a[i] == 0
    ensures Value(a) == 0
  {
    if a == [] {
    } else {
      ValueZeros(a[1..]);
    }
  }

  // ─── the normal form ────────────────────────────────────────────────

  /** No leading (most significant) zero limb; the stored form of every magnitude. */
  predicate Trimmed(a: seq<Limb>) {
    a == [] || a[|a| - 1] != 0
  }

  lemma TrimmedAtLeast(a: seq<Limb>)
    requires Trimmed(a) && a != []
    ensures Value(a) >= BasePow(|a| - 1)
  {
    var n := |a| - 1;
    assert a == a[..n] + [a[n]];
    ValueSnoc(a[..n], a[n]);
    MulAtLeast(BasePow(n), a[n]);
  }

  /** A number has one trimmed vector. */
  lemma {:induction false} TrimmedUnique(a: seq<Limb>, b: seq<Limb>)
    requires Trimmed(a) && Trimmed(b) && Value(a) == Value(b)
    ensures a == b
  {
    if a == [] || b == [] {
      if a != [] { TrimmedAtLeast(a); }
      if b != [] { TrimmedAtLeast(b); }
    } else {
      DivModUnique(Value(a), BASE, Value(a[1..]), a[0]);
      DivModUnique(Value(a), BASE, Value(b[1..]), b[0]);
      TrimmedUnique(a[1..], b[1..]);
      assert a == [a[0]] + a[1..];
      assert b == [b[0]] + b[1..];
    }
  }

  lemma ValuePositive(a: seq<Limb>)
    requires Trimmed(a)
    ensures Value(a) == 0 <==> a == []
  {
    if a != [] { TrimmedAtLeast(a); }
  }

  method Trim(v: seq<Limb>) returns (r: seq<Limb>)
    ensures Trimmed(r) && Value(r) == Value(v) && r <= v
  {
    r := v;
    while r != [] && r[|r| - 1] == 0
      invariant Value(r) == Value(v) && r <= v
      decreases |r|
    {
      var n := |r| - 1;
      assert r == r[..n] + [r[n]];
      ValueSnoc(r[..n], r[n]);
      r := r[..n];
    }
  }

  // ─── comparison ─────────────────────────────────────────────────────

  datatype Order = Less | Equal | Greater

  predicate Compares(o: Order, a: int, b: int) {
    && (o == Less <==> a < b)
    && (o == Equal <==> a == b)
    && (o == Greater <==> a > b)
  }

  lemma ShorterIsLess(a: seq<Limb>, b: seq<Limb>)
    requires Trimmed(b) && |a| < |b|
    ensures Value(a) < Value(b)
  {
    ValueBound(a);
    TrimmedAtLeast(b);
    BasePowAdd(|a|, |b| - 1 - |a|);
    MulAtLeast(BasePow(|a|), BasePow(|b| - 1 - |a|));
  }

  method AbsCmp(a: seq<Limb>, b: seq<Limb>) returns (o: Order)
    requires Trimmed(a) && Trimmed(b)
    ensures Compares(o, Value(a), Value(b))
  {
    if |a| < |b| { ShorterIsLess(a, b); return Less; }
    if |a| > |b| { ShorterIsLess(b, a); return Greater; }
    var i := |a|;
    while i > 0
      invariant 0 <= i <= |a| && a[i..] == b[i..]
    {
      i := i - 1;
      if a[i] != b[i] {
        HigherLimbDecides(a, b, i);
        return if a[i] < b[i] then Less else Greater;
      }
    }
    return Equal;
  }

  lemma HigherLimbDecides(a: seq<Limb>, b: seq<Limb>, i: nat)
    requires |a| == |b| && i < |a| && a[i + 1..] == b[i + 1..]
    ensures a[i] < b[i] ==> Value(a) < Value(b)
    ensures a[i] > b[i] ==> Value(a) > Value(b)
  {
    var p := BasePow(i);
    SplitAt(a, i);
    SplitAt(b, i);
    ValueBound(a[..i]);
    ValueBound(b[..i]);
    MulAtLeast(p, b[i] as int - a[i]);
    assert p * b[i] == p * a[i] + p * (b[i] as int - a[i]);
    MulAtLeast(p, a[i] as int - b[i]);
  }

  lemma SplitAt(a: seq<Limb>, i: nat)
    requires i < |a|
    ensures Value(a) == Value(a[..i]) + BasePow(i) * a[i] + BasePow(i + 1) * Value(a[i + 1..])
  {
    assert a == a[..i + 1] + a[i + 1..];
    ValueAppend(a[..i + 1], a[i + 1..]);
    assert a[..i + 1] == a[..i] + [a[i]];
    ValueSnoc(a[..i], a[i]);
  }

  // ─── the low part of a vector, padded with zeros ────────────────────

  function At(a: seq<Limb>, i: nat): Limb {
    if i < |a| then a[i] else 0
  }

  function Low(a: seq<Limb>, i: nat): nat {
    Value(if i < |a| then a[..i] else a)
  }

  lemma LowStep(a: seq<Limb>, i: nat)
    ensures Low(a, i + 1) == Low(a, i) + BasePow(i) * At(a, i)
  {
    if i < |a| {
      assert a[..i + 1] == a[..i] + [a[i]];
      ValueSnoc(a[..i], a[i]);
      if i + 1 == |a| { assert a[..i + 1] == a; }
    }
  }

  /** Storing the low limb of s at weight p and carrying the rest keeps the total. */
  lemma CarryStep(p: int, s: int)
    ensures p * (s % BASE) + (BASE * p) * (s / BASE) == p * s
  {
    assert s == s % BASE + BASE * (s / BASE);
    assert p * s == p * (s % BASE) + p * (BASE * (s / BASE));
  }

  // ─── addition, subtraction, multiplication ──────────────────────────

  method AddLimbs(a: seq<Limb>, b: seq<Limb>) returns (r: seq<Limb>)
    ensures Trimmed(r) && Value(r) == Value(a) + Value(b)
  {
    var n := if |a| > |b| then |a| else |b|;
    var out: seq<Limb> := [];
    var carry: nat := 0;
    var i := 0;
    while i < n
      invariant 0 <= i <= n && |out| == i && carry <= 1
      invariant Value(out) + BasePow(i) * carry == Low(a, i) + Low(b, i)
    {
      var s: int := At(a, i) as int + At(b, i) + carry;
      LowStep(a, i);
      LowStep(b, i);
      var limb: Limb := s % BASE;
      AddStep(BasePow(i), At(a, i), At(b, i), carry);
      ValueSnoc(out, limb);
      out, carry := out + [limb], s / BASE;
      i := i + 1;
    }
    ValueSnoc(out, carry);
    r := Trim(out + [carry]);
  }

  lemma AddStep(p: nat, x: int, y: int, carry: int)
    ensures var s := x + y + carry;
      p * (s % BASE) + (BASE * p) * (s / BASE) == p * x + p * y + p * carry
  {
    CarryStep(p, x + y + carry);
    assert p * (x + y + carry) == p * x + p * y + p * carry;
  }

  /** Subtraction; callers guarantee that the result is not negative. */
  method SubLimbs(a: seq<Limb>, b: seq<Limb>) returns (r: seq<Limb>)
    requires |b| <= |a| && Value(a) >= Value(b)
    ensures Trimmed(r) && Value(r) == Value(a) - Value(b)
  {
    var out: seq<Limb> := [];
    var borrow: nat := 0;
    var i := 0;
    while i < |a|
      invariant 0 <= i <= |a| && |out| == i && borrow <= 1
      invariant Value(out) - BasePow(i) * borrow == Low(a, i) - Low(b, i)
    {
      var d: int := a[i] as int - At(b, i) - borrow;
      LowStep(a, i);
      LowStep(b, i);
      var limb: Limb := if d < 0 then d + BASE else d;
      ValueSnoc(out, limb);
      BorrowStep(BasePow(i), limb, if d < 0 then 1 else 0, a[i], At(b, i), borrow);
      out, borrow := out + [limb], if d < 0 then 1 else 0;
      i := i + 1;
    }
    ValueBound(out);
    MulAtLeast(BasePow(i), borrow);
    r := Trim(out);
  }

  lemma BorrowStep(p: nat, limb: int, borrow': int, x: int, y: int, borrow: int)
    requires limb - BASE * borrow' == x - y - borrow
    ensures p * limb - (BASE * p) * borrow' == p * x - p * y - p * borrow
  {
    assert p * (limb - BASE * borrow') == p * limb - (BASE * p) * borrow';
    assert p * (x - y - borrow) == p * x - p * y - p * borrow;
  }

  /** Schoolbook multiplication, one row per limb of a, accumulated in place. */
  method MulLimbs(a: seq<Limb>, b: seq<Limb>) returns (r: seq<Limb>)
    ensures Trimmed(r) && Value(r) == Value(a) * Value(b)
  {
    if a == [] || b == [] {
      return [];
    }
    var out: seq<Limb> := seq(|a| + |b|, i => 0);
    ValueZeros(out);
    var i := 0;
    while i < |a|
      invariant 0 <= i <= |a| && |out| == |a| + |b|
      invariant forall k :: i + |b| <= k < |out| ==> out[k] == 0
      invariant Value(out) == Value(a[..i]) * Value(b)
    {
      out := AddRow(out, a[i], b, i);
      assert a[..i + 1] == a[..i] + [a[i]];
      ValueSnoc(a[..i], a[i]);
      RowTotal(Value(a[..i]), BasePow(i), a[i], Value(b));
      i := i + 1;
    }
    assert a[..i] == a;
    r := Trim(out);
  }

  lemma RowTotal(v: nat, p: nat, x: nat, w: nat)
    ensures (v + p * x) * w == v * w + p * (x * w)
  {
    assert p * (x * w) == (p * x) * w;
  }

  /** The inner loop: add x * b at limb i.  No step leaves a 64-bit word. */
  method AddRow(acc: seq<Limb>, x: Limb, b: seq<Limb>, i: nat) returns (out: seq<Limb>)
    requires i + |b| < |acc|
    requires forall k :: i + |b| <= k < |acc| ==> acc[k] == 0
    ensures |out| == |acc| && Value(out) == Value(acc) + BasePow(i) * (x * Value(b))
    ensures forall k :: i + |b| < k < |acc| ==> out[k] == 0
  {
    out := acc;
    var carry: nat := 0;
    var j := 0;
    while j < |b|
      invariant 0 <= j <= |b| && carry < BASE && |out| == |acc|
      invariant forall k :: i + |b| <= k < |acc| ==> out[k] == 0
      invariant Value(out) + BasePow(i + j) * carry == Value(acc) + BasePow(i) * (x * Low(b, j))
    {
      ProductFits(x, b[j], out[i + j], carry);
      var prod: nat := x as int * b[j] + out[i + j] + carry;
      RowStep(out, x, b, i, j, carry);
      out, carry := out[i + j := prod % BASE], prod / BASE;
      j := j + 1;
    }
    ValueUpdate(out, i + |b|, carry);
    out := out[i + |b| := carry];
  }

  lemma ProductFits(x: Limb, y: Limb, z: Limb, carry: nat)
    requires carry < BASE
    ensures 0 <= x * y + z + carry < BASE * BASE
    ensures (x * y + z + carry) / BASE < BASE
  {
    MulMonotone(x, y, BASE - 1, BASE - 1);
    var t: int := x as int * y;
    assert 0 <= t <= (BASE - 1) * (BASE - 1);
    assert (t + z + carry) / BASE < BASE;
  }

  /** The arithmetic of one inner step, at weights p (row) and q (column). */
  lemma RowAlgebra(p: int, q: int, x: int, y: int, o: int, c: int, low: int)
    ensures var prod := x * y + o + c;
      (p * q) * (prod % BASE - o) + (BASE * (p * q)) * (prod / BASE)
      == (p * q) * c + p * (x * (low + q * y)) - p * (x * low)
  {
    var prod, w := x * y + o + c, p * q;
    CarryStep(w, prod);
    assert w * (prod % BASE - o) == w * (prod % BASE) - w * o;
    assert w * prod == w * (x * y) + w * o + w * c;
    assert x * (low + q * y) == x * low + q * (x * y);
    assert p * (q * (x * y)) == w * (x * y);
    assert p * (x * low + q * (x * y)) == p * (x * low) + p * (q * (x * y));
  }

  lemma RowStep(out: seq<Limb>, x: Limb, b: seq<Limb>, i: nat, j: nat, carry: nat)
    requires j < |b| && i + j < |out| && carry < BASE
    ensures var prod := x as int * b[j] + out[i + j] + carry;
      Value(out[i + j := prod % BASE]) + BasePow(i + j + 1) * (prod / BASE)
      == Value(out) + BasePow(i + j) * carry + BasePow(i) * (x * Low(b, j + 1)) - BasePow(i) * (x * Low(b, j))
  {
    var prod := x as int * b[j] + out[i + j] + carry;
    ValueUpdate(out, i + j, prod % BASE);
    LowStep(b, j);
    BasePowAdd(i, j);
    RowAlgebra(BasePow(i), BasePow(j), x, b[j], out[i + j], carry, Low(b, j));
  }
}
