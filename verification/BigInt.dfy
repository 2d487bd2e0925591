/** `big.Int`: sign and trimmed magnitude, after src/math/big/mod.rs.  Arithmetic is stated on
    mathematical integers; bit operations on infinite two's complement. */
module BigInt {

  import opened Arithmetic
  import opened Limbs
  import opened LongDivision
  import opened BitVectors

  // ─── signed values ──────────────────────────────────────────────────

  datatype Num = Num(neg: bool, abs: seq<Limb>) {
    /** Trimmed, and zero has no sign. */
    predicate Valid() {
      Trimmed(abs) && (neg ==> abs != [])
    }
    function Val(): int {
      Signed(neg, Value(abs))
    }
  }

  function Signed(neg: bool, v: int): int {
    if neg then -v else v
  }

  /** A value has one representation. */
  lemma NumUnique(a: Num, b: Num)
    requires a.Valid() && b.Valid() && a.Val() == b.Val()
    ensures a == b
  {
    ValuePositive(a.abs);
    ValuePositive(b.abs);
    TrimmedUnique(a.abs, b.abs);
  }

  /** A magnitude with the sign dropped when it is zero. */
  function Sign(neg: bool, abs: seq<Limb>): (r: Num)
    requires Trimmed(abs)
    ensures r.Valid() && r.Val() == Signed(neg, Value(abs))
  {
    ValuePositive(abs);
    Num(neg && abs != [], abs)
  }

  /** `SetInt64` for the small constants the arithmetic uses. */
  function Small(k: int): (r: Num)
    requires -0x1_0000_0000 < k < 0x1_0000_0000
    ensures r.Valid() && r.Val() == k
  {
    if k == 0 then Num(false, []) else
    var limb: Limb := if k < 0 then -k else k;
    assert Value([limb]) == limb;
    Num(k < 0, [limb])
  }

  /** `add_signed` */
  method AddNum(a: Num, b: Num) returns (r: Num)
    requires a.Valid() && b.Valid()
    ensures r.Valid() && r.Val() == a.Val() + b.Val()
  {
    if a.neg == b.neg {
      var abs := AddLimbs(a.abs, b.abs);
      ValuePositive(a.abs);
      ValuePositive(b.abs);
      ValuePositive(abs);
      return Num(a.neg && !(a.abs == [] && b.abs == []), abs);
    }
    var order := AbsCmp(a.abs, b.abs);
    if order == Equal { return Num(false, []); }
    if order == Greater {
      if |b.abs| > |a.abs| { ShorterIsLess(a.abs, b.abs); }
      var abs := SubLimbs(a.abs, b.abs);
      ValuePositive(abs);
      return Num(a.neg, abs);
    }
    if |a.abs| > |b.abs| { ShorterIsLess(b.abs, a.abs); }
    var abs := SubLimbs(b.abs, a.abs);
    ValuePositive(abs);
    return Num(b.neg, abs);
  }

  method SubNum(a: Num, b: Num) returns (r: Num)
    requires a.Valid() && b.Valid()
    ensures r.Valid() && r.Val() == a.Val() - b.Val()
  {
    ValuePositive(b.abs);
    r := AddNum(a, Num(!b.neg && b.abs != [], b.abs));
  }

  method MulNum(a: Num, b: Num) returns (r: Num)
    requires a.Valid() && b.Valid()
    ensures r.Valid() && r.Val() == a.Val() * b.Val()
  {
    var abs := MulLimbs(a.abs, b.abs);
    SignedProduct(Value(a.abs), Value(b.abs));
    r := Sign(a.neg != b.neg, abs);
  }

  lemma SignedProduct(x: int, y: int)
    ensures (-x) * y == -(x * y) == x * (-y) && (-x) * (-y) == x * y
  {
  }

  // ─── division ───────────────────────────────────────────────────────

  function Abs(x: int): nat {
    if x < 0 then -x else x
  }

  /** Rounding toward zero: the remainder has the sign of the dividend. */
  predicate Truncated(x: int, y: int, q: int, r: int) {
    x == y * q + r && Abs(r) < Abs(y) && (r < 0 ==> x < 0) && (r > 0 ==> x > 0)
  }

  /** `Quo`, `Rem` and `QuoRem`: T-division of the magnitudes. */
  method QuoRemNum(x: Num, y: Num) returns (q: Num, r: Num)
    requires x.Valid() && y.Valid() && y.abs != []
    ensures q.Valid() && r.Valid() && Truncated(x.Val(), y.Val(), q.Val(), r.Val())
  {
    var qa, ra := DivModLimbs(x.abs, y.abs);
    TruncatedMagnitudes(x.neg, y.neg, Value(x.abs), Value(y.abs), Value(qa), Value(ra));
    q, r := Sign(x.neg != y.neg, qa), Sign(x.neg, ra);
  }

  lemma TruncatedMagnitudes(xneg: bool, yneg: bool, x: nat, y: nat, q: nat, r: nat)
    requires x == q * y + r && r < y
    ensures Truncated(Signed(xneg, x), Signed(yneg, y), Signed(xneg != yneg, q), Signed(xneg, r))
  {
    SignedProduct(y, q);
    assert q * y >= 0;
  }

  /** `Div`, `Mod` and `DivMod`: T-division, then a correction when the remainder is negative. */
  method DivModNum(x: Num, y: Num) returns (q: Num, r: Num)
    requires x.Valid() && y.Valid() && y.abs != []
    ensures q.Valid() && r.Valid()
    ensures x.Val() == y.Val() * q.Val() + r.Val() && 0 <= r.Val() < Abs(y.Val())
  {
    ValuePositive(y.abs);
    q, r := QuoRemNum(x, y);
    if r.neg {
      ghost var q0, r0 := q.Val(), r.Val();
      ValuePositive(r.abs);
      if |r.abs| > |y.abs| { ShorterIsLess(y.abs, r.abs); }
      var ra := SubLimbs(y.abs, r.abs);
      r := Num(false, ra);
      q := AddNum(q, Small(if y.neg then 1 else -1));
      Corrected(x.Val(), y.Val(), q0, r0);
    }
  }

  lemma Corrected(x: int, y: int, q: int, r: int)
    requires x == y * q + r
    ensures x == y * (q - 1) + (r + y) == y * (q + 1) + (r - y)
  {
    assert y * (q - 1) == y * q - y && y * (q + 1) == y * q + y;
  }

  /** What Go calls Euclidean division is Dafny's `/` and `%`. */
  lemma EuclideanUnique(x: int, y: int, q: int, r: int)
    requires y != 0 && x == y * q + r && 0 <= r < Abs(y)
    ensures q == x / y && r == x % y
  {
    if y > 0 {
      DivModUnique(x, y, q, r);
    } else {
      assert y * q == (-y) * (-q);
      DivModUnique(x, -y, -q, r);
      assert x == y * (x / y) + x % y;
      assert (-y) * (-(x / y)) == y * (x / y);
      DivModUnique(x, -y, -(x / y), x % y);
    }
  }
}
