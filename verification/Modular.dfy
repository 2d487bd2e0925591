/** Greatest common divisors, modular inverses and modular exponentiation of `big.Int`, after
    src/math/big/mod.rs. */
module Modular {

  import opened Bytes
  import opened Arithmetic
  import opened Limbs
  import opened LongDivision
  import opened BitVectors
  import opened BigInt

  // ─── congruence; modulo 0 it is equality ────────────────────────────

  function Times(m: int, k: int): int {
    m * k
  }

  ghost predicate Cong(a: int, b: int, m: int) {
    exists k: int :: a == b + Times(m, k)
  }

  lemma CongBy(a: int, b: int, m: int, k: int)
    requires a == b + m * k
    ensures Cong(a, b, m)
  {
    assert a == b + Times(m, k);
  }

  lemma CongSelf(a: int, m: int)
    ensures Cong(a, a, m)
  {
    CongBy(a, a, m, 0);
  }

  lemma CongSwap(a: int, b: int, m: int)
    requires Cong(a, b, m)
    ensures Cong(b, a, m)
  {
    var k: int :| a == b + Times(m, k);
    assert m * (-k) == -(m * k);
    CongBy(b, a, m, -k);
  }

  lemma CongChain(a: int, b: int, c: int, m: int)
    requires Cong(a, b, m) && Cong(b, c, m)
    ensures Cong(a, c, m)
  {
    var j: int :| a == b + Times(m, j);
    var k: int :| b == c + Times(m, k);
    assert m * (j + k) == m * j + m * k;
    CongBy(a, c, m, j + k);
  }

  lemma CongMul(a: int, b: int, c: int, d: int, m: int)
    requires Cong(a, b, m) && Cong(c, d, m)
    ensures Cong(a * c, b * d, m)
  {
    var j: int :| a == b + Times(m, j);
    var k: int :| c == d + Times(m, k);
    ProductOfSums(b, d, m, j, k);
    CongBy(a * c, b * d, m, j * d + b * k + j * (m * k));
  }

  lemma ProductOfSums(b: int, d: int, m: int, j: int, k: int)
    ensures (b + m * j) * (d + m * k) == b * d + m * (j * d + b * k + j * (m * k))
  {
    assert (b + m * j) * (d + m * k) == b * d + b * (m * k) + (m * j) * d + (m * j) * (m * k);
    assert b * (m * k) == m * (b * k);
    assert (m * j) * d == m * (j * d);
    assert (m * j) * (m * k) == m * (j * (m * k));
  }

  /** In range, a congruent number is the remainder. */
  lemma CongRemainder(z: int, v: int, m: nat)
    requires m > 0 && 0 <= z < m && Cong(z, v, m)
    ensures z == v % m
  {
    CongSwap(z, v, m);
    var k: int :| v == z + Times(m, k);
    DivModUnique(v, m, k, z);
  }

  lemma RemainderCong(v: int, m: nat)
    requires m > 0
    ensures Cong(v % m, v, m)
  {
    assert v == m * (v / m) + v % m;
    CongBy(v, v % m, m, v / m);
    CongSwap(v, v % m, m);
  }

  // ─── powers ─────────────────────────────────────────────────────────

  function Pow(b: int, e: nat): int {
    if e == 0 then 1 else b * Pow(b, e - 1)
  }

  lemma {:induction false} PowSquare(b: int, e: nat)
    ensures Pow(b, 2 * e) == Pow(b * b, e)
  {
    if e == 0 {
    } else {
      PowSquare(b, e - 1);
      assert Pow(b, 2 * e) == b * (b * Pow(b, 2 * (e - 1)));
      assert b * (b * Pow(b, 2 * (e - 1))) == (b * b) * Pow(b, 2 * (e - 1));
    }
  }

  /** One step of square-and-multiply. */
  lemma PowHalve(b: int, e: nat)
    ensures Pow(b, e) == (if e % 2 == 1 then b else 1) * Pow(b * b, e / 2)
  {
    PowSquare(b, e / 2);
  }

  lemma {:induction false} PowCong(a: int, b: int, e: nat, m: int)
    requires Cong(a, b, m)
    ensures Cong(Pow(a, e), Pow(b, e), m)
  {
    if e == 0 {
      CongSelf(1, m);
    } else {
      PowCong(a, b, e - 1, m);
      CongMul(a, b, Pow(a, e - 1), Pow(b, e - 1), m);
    }
  }

  /** The sign of a power is the sign of the base to an odd exponent. */
  lemma {:induction false} PowSign(neg: bool, b: int, e: nat)
    ensures Pow(Signed(neg, b), e) == Signed(neg && e % 2 == 1, Pow(b, e))
  {
    if e == 0 {
    } else {
      PowSign(neg, b, e - 1);
      SignedProduct(b, Pow(b, e - 1));
    }
  }

  lemma {:induction false} PowOfProduct(a: int, b: int, e: nat)
    ensures Pow(a * b, e) == Pow(a, e) * Pow(b, e)
  {
    if e == 0 {
    } else {
      PowOfProduct(a, b, e - 1);
      Interchange(a, b, Pow(a, e - 1), Pow(b, e - 1), Pow(a * b, e - 1));
    }
  }

  lemma Interchange(a: int, b: int, p: int, q: int, pq: int)
    requires pq == p * q
    ensures (a * b) * pq == (a * p) * (b * q)
  {
    assert (a * b) * (p * q) == a * (b * (p * q));
    assert b * (p * q) == p * (b * q);
  }

  // ─── the exponent's bits ────────────────────────────────────────────

  function BitLen(v: nat): nat {
    if v == 0 then 0 else 1 + BitLen(v / 2)
  }

  /** What is left of the exponent after k bits. */
  function Rest(v: nat, k: nat): nat {
    if k == 0 then v else Rest(v / 2, k - 1)
  }

  lemma {:induction false} RestStep(v: nat, k: nat)
    ensures Rest(v, k + 1) == Rest(v, k) / 2 && Bit(v, k) == (Rest(v, k) % 2 == 1)
  {
    if k == 0 {
    } else {
      RestStep(v / 2, k - 1);
    }
  }

  /** After BitLen bits nothing is left. */
  lemma {:induction false} RestGone(v: nat, k: nat)
    ensures k >= BitLen(v) ==> Rest(v, k) == 0
    ensures k < BitLen(v) ==> Rest(v, k) > 0
    decreases k
  {
    if k == 0 {
    } else {
      RestGone(v / 2, k - 1);
    }
  }

  lemma {:induction false} BitLenJoin(v: nat, x: nat, hi: nat, k: nat)
    requires x < Pow2(k) && hi > 0 && v == x + Pow2(k) * hi
    ensures BitLen(v) == k + BitLen(hi)
  {
    if k == 0 {
    } else {
      var rest := Pow2(k - 1) * hi;
      MulAtLeast(Pow2(k - 1), hi);
      DoubleProduct(Pow2(k), Pow2(k - 1), hi);
      assert v / 2 == x / 2 + rest;
      BitLenJoin(v / 2, x / 2, hi, k - 1);
    }
  }

  lemma DoubleProduct(p: int, q: int, h: int)
    requires p == 2 * q
    ensures p * h == 2 * (q * h)
  {
  }

  lemma {:induction false} BitLenLeadingZeros(x: Limb)
    requires x > 0
    ensures LeadingZeros(x) + BitLen(x) == 32
    decreases BASE - x
  {
    if 2 * x >= BASE {
      Pow2Words();
      assert Pow2(32) == 2 * Pow2(31);
      BitLenJoin(x, x - Pow2(31), 1, 31);
      assert BitLen(1) == 1;
    } else {
      BitLenLeadingZeros(2 * x);
      assert (2 * x) / 2 == x;
    }
  }

  lemma {:induction false} BitLenValue(a: seq<Limb>)
    requires a != [] && Trimmed(a)
    ensures BitLen(Value(a)) == 32 * (|a| - 1) + BitLen(a[|a| - 1])
  {
    if |a| == 1 {
      assert Value(a[1..]) == 0;
    } else {
      BitLenValue(a[1..]);
      ValuePositive(a[1..]);
      Pow2Words();
      BitLenJoin(Value(a), a[0], Value(a[1..]), 32);
    }
  }

  /** `bit_len` */
  method BitLenLimbs(a: seq<Limb>) returns (n: nat)
    ensures n == BitLen(Value(a))
  {
    var i := |a|;
    assert a[..i] == a;
    while i > 0 && a[i - 1] == 0
      invariant 0 <= i <= |a| && Value(a[..i]) == Value(a)
    {
      assert a[..i] == a[..i - 1] + [a[i - 1]];
      ValueSnoc(a[..i - 1], a[i - 1]);
      i := i - 1;
    }
    if i == 0 { return 0; }
    BitLenValue(a[..i]);
    BitLenLeadingZeros(a[i - 1]);
    n := (i - 1) * 32 + (32 - LeadingZeros(a[i - 1]));
  }

  // ─── modular exponentiation of magnitudes ───────────────────────────

  /** The remainder by m, or the number itself when there is no modulus. */
  method Reduce(a: seq<Limb>, m: seq<Limb>) returns (r: seq<Limb>)
    requires Trimmed(a) && Trimmed(m)
    ensures Trimmed(r) && Cong(Value(r), Value(a), Value(m))
    ensures m != [] ==> Value(r) < Value(m)
  {
    if m == [] {
      CongSelf(Value(a), 0);
      return a;
    }
    var q;
    q, r := DivModLimbs(a, m);
    assert Value(m) * Value(q) == Value(q) * Value(m);
    CongBy(Value(a), Value(r), Value(m), Value(q));
    CongSwap(Value(a), Value(r), Value(m));
  }

  /** Square-and-multiply from the lowest exponent bit, over exactly BitLen bits. */
  method ExpLimbs(x: seq<Limb>, y: seq<Limb>, m: seq<Limb>) returns (acc: seq<Limb>)
    requires Trimmed(x) && Trimmed(y) && Trimmed(m)
    ensures Trimmed(acc) && Cong(Value(acc), Pow(Value(x), Value(y)), Value(m))
    ensures m != [] ==> Value(acc) < Value(m)
  {
    var base := Reduce(x, m);
    var one: seq<Limb> := [1];
    assert Value(one) == 1;
    acc := Reduce(one, m);
    var total := BitLenLimbs(y);
    ghost var goal := Pow(Value(x), Value(y));
    Started(Value(acc), Value(base), Value(x), Value(y), Value(m));
    var bit := 0;
    while bit < total
      invariant 0 <= bit <= total && Trimmed(acc) && Trimmed(base)
      invariant m != [] ==> Value(acc) < Value(m)
      invariant Cong(Value(acc) * Pow(Value(base), Rest(Value(y), bit)), goal, Value(m))
    {
      RestStep(Value(y), bit);
      RestGone(Value(y), bit);
      RestGone(Value(y), bit + 1);
      var isSet := LimbBit(y, bit);
      ghost var acc0, base0 := Value(acc), Value(base);
      if isSet {
        var product := MulLimbs(acc, base);
        acc := Reduce(product, m);
      } else {
        CongSelf(acc0, Value(m));
      }
      bit := bit + 1;
      if bit < total {
        var square := MulLimbs(base, base);
        base := Reduce(square, m);
      }
      Squared(acc0, base0, Value(acc), Value(base), Rest(Value(y), bit - 1), goal, Value(m));
    }
    RestGone(Value(y), total);
    assert Value(acc) * Pow(Value(base), 0) == Value(acc);
  }

  lemma Started(acc: int, base: int, x: int, y: nat, m: int)
    requires Cong(acc, 1, m) && Cong(base, x, m)
    ensures Cong(acc * Pow(base, y), Pow(x, y), m)
  {
    PowCong(base, x, y, m);
    CongMul(acc, 1, Pow(base, y), Pow(x, y), m);
  }

  /** The product of the accumulator and the remaining power does not change modulo m. */
  lemma Squared(acc: int, base: int, acc': int, base': int, e: nat, goal: int, m: int)
    requires Cong(acc * Pow(base, e), goal, m)
    requires Cong(acc', if e % 2 == 1 then acc * base else acc, m)
    requires e / 2 == 0 || Cong(base', base * base, m)
    ensures Cong(acc' * Pow(base', e / 2), goal, m)
  {
    var h := e / 2;
    var factor := if e % 2 == 1 then base else 1;
    PowHalve(base, e);
    if h == 0 {
      CongSelf(1, m);
    } else {
      PowCong(base', base * base, h, m);
    }
    CongMul(acc', acc * factor, Pow(base', h), Pow(base * base, h), m);
    assert (acc * factor) * Pow(base * base, h) == acc * (factor * Pow(base * base, h));
    CongChain(acc' * Pow(base', h), acc * Pow(base, e), goal, m);
  }

  // ─── greatest common divisor ────────────────────────────────────────

  function Gcd(a: nat, b: nat): nat
    decreases b
  {
    if b == 0 then a else Gcd(b, a % b)
  }

  ghost predicate Divides(d: int, v: int) {
    exists k: int :: v == Times(d, k)
  }

  lemma DividesSum(d: int, x: int, y: int, j: int, k: int)
    requires Divides(d, x) && Divides(d, y)
    ensures Divides(d, x * j + y * k)
  {
    var p: int :| x == Times(d, p);
    var q: int :| y == Times(d, q);
    assert (d * p) * j + (d * q) * k == d * (p * j + q * k);
    assert x * j + y * k == Times(d, p * j + q * k);
  }

  /** Gcd divides both arguments. */
  lemma {:induction false} GcdDivides(a: nat, b: nat)
    ensures Divides(Gcd(a, b), a) && Divides(Gcd(a, b), b)
    decreases b
  {
    if b == 0 {
      assert a == Times(a, 1) && 0 == Times(a, 0);
    } else {
      GcdDivides(b, a % b);
      DividesSum(Gcd(a, b), b, a % b, a / b, 1);
      assert a == b * (a / b) + (a % b) * 1;
    }
  }

  /** Every common divisor divides Gcd, so it is the greatest. */
  lemma GcdGreatest(a: nat, b: nat, d: int)
    requires Divides(d, a) && Divides(d, b)
    ensures Divides(d, Gcd(a, b))
  {
    var x, y := Bezout(a, b);
    DividesSum(d, a, b, x, y);
  }

  lemma {:induction false} Bezout(a: nat, b: nat) returns (x: int, y: int)
    ensures a * x + b * y == Gcd(a, b)
    decreases b
  {
    if b == 0 {
      x, y := 1, 0;
    } else {
      var q, r := a / b, a % b;
      var u, v := Bezout(b, r);
      x, y := v, u - q * v;
      assert a * v + b * (u - q * v) == b * u + (a - b * q) * v;
    }
  }

  /** What the cofactors satisfy after any number of rounds: the Bezout identities, alternating
      signs, and products that add up to b, which bounds them. */
  predicate Cofactors(a: nat, b: nat, r0: nat, r1: nat, ca: int, cb: int, da: int, db: int) {
    && r0 == a * ca + b * cb
    && r1 == a * da + b * db
    && (ca >= 0 >= da || ca <= 0 <= da)
    && Abs(ca) * r1 + Abs(da) * r0 == b
    && ((ca == 1 && da == 0 && r1 == b) || (r0 > r1 && Abs(ca) < b && da != 0))
  }

  lemma CofactorStep(a: nat, b: nat, r0: nat, r1: nat, ca: int, cb: int, da: int, db: int, q: nat, rem: nat)
    requires Cofactors(a, b, r0, r1, ca, cb, da, db) && r1 > 0 && r0 == r1 * q + rem && rem < r1
    ensures Cofactors(a, b, r1, rem, da, db, ca - q * da, cb - q * db)
  {
    BezoutStep(a, b, r0, r1, ca, cb, da, db, q, rem);
    NextCofactors(b, r0, r1, ca, da, ca - q * da, q, rem);
  }

  /** The part of the step about sizes and signs. */
  lemma NextCofactors(b: nat, r0: nat, r1: nat, ca: int, da: int, ea: int, q: nat, rem: nat)
    requires (ca >= 0 >= da || ca <= 0 <= da) && Abs(ca) * r1 + Abs(da) * r0 == b
    requires (ca == 1 && da == 0 && r1 == b) || (r0 > r1 && Abs(ca) < b && da != 0)
    requires ea == ca - q * da && r1 > 0 && r0 == r1 * q + rem && rem < r1
    ensures (da >= 0 >= ea || da <= 0 <= ea) && Abs(da) * rem + Abs(ea) * r1 == b
    ensures (da == 1 && ea == 0 && rem == b) || (r1 > rem && Abs(da) < b && ea != 0)
  {
    AlternatingSigns(ca, da, q);
    CofactorSum(Abs(ca), Abs(da), Abs(ea), r0, r1, q, rem);
    HalfOfB(Abs(ca), Abs(da), r0, r1, b);
  }

  lemma BezoutStep(a: int, b: int, r0: int, r1: int, ca: int, cb: int, da: int, db: int, q: int, rem: int)
    requires r0 == a * ca + b * cb && r1 == a * da + b * db && r0 == r1 * q + rem
    ensures rem == a * (ca - q * da) + b * (cb - q * db)
  {
    assert r1 * q == a * (q * da) + b * (q * db);
    assert a * (ca - q * da) == a * ca - a * (q * da);
    assert b * (cb - q * db) == b * cb - b * (q * db);
  }

  lemma HalfOfB(c: nat, d: nat, r0: nat, r1: nat, b: nat)
    requires c * r1 + d * r0 == b && r1 > 0
    requires d == 0 ==> c > 0
    requires d == 0 || r0 > r1
    ensures d < b
  {
    assert c * r1 >= 0;
    if d == 0 { MulMonotone(1, 1, c, r1); } else { MulMonotone(d, 2, d, r0); }
  }

  lemma AlternatingSigns(ca: int, da: int, q: nat)
    requires ca >= 0 >= da || ca <= 0 <= da
    ensures Abs(ca - q * da) == Abs(ca) + q * Abs(da)
    ensures da >= 0 >= ca - q * da || da <= 0 <= ca - q * da
  {
    SignedProduct(q, da);
    if da >= 0 { assert q * da >= 0; } else { assert q * (-da) >= 0; }
  }

  lemma CofactorSum(c: nat, d: nat, e: nat, r0: nat, r1: nat, q: nat, rem: nat)
    requires e == c + q * d && r0 == r1 * q + rem
    ensures d * rem + e * r1 == c * r1 + d * r0
  {
    assert d * r0 == d * (r1 * q) + d * rem;
    assert (c + q * d) * r1 == c * r1 + d * (r1 * q);
  }

  /** The extended Euclidean algorithm of `GCD`, for operands of any sign. */
  method GcdNum(a: Num, b: Num) returns (g: Num, x: Num, y: Num)
    requires a.Valid() && b.Valid()
    ensures g.Valid() && x.Valid() && y.Valid()
    ensures g.Val() == Gcd(Abs(a.Val()), Abs(b.Val()))
    ensures a.Val() * x.Val() + b.Val() * y.Val() == g.Val()
    ensures b.Val() != 0 ==> Abs(x.Val()) < Abs(b.Val())
  {
    var cx, cy;
    g, cx, cy := GcdMagnitudes(a.abs, b.abs);
    x, y := FoldSign(a.neg, cx), FoldSign(b.neg, cy);
    BezoutSigned(a.neg, b.neg, Value(a.abs), Value(b.abs), cx.Val(), cy.Val());
  }

  /** The Euclidean loop on |a| and |b|. */
  method GcdMagnitudes(a: seq<Limb>, b: seq<Limb>) returns (g: Num, x: Num, y: Num)
    requires Trimmed(a) && Trimmed(b)
    ensures g.Valid() && x.Valid() && y.Valid()
    ensures g.Val() == Gcd(Value(a), Value(b))
    ensures Value(a) * x.Val() + Value(b) * y.Val() == g.Val()
    ensures Value(b) != 0 ==> Abs(x.Val()) < Value(b)
  {
    var r0, r1 := Num(false, a), Num(false, b);
    var ca, cb, da, db := Small(1), Small(0), Small(0), Small(1);
    ghost var va, vb := Value(a), Value(b);
    while r1.abs != []
      invariant r0.Valid() && r1.Valid() && ca.Valid() && cb.Valid() && da.Valid() && db.Valid()
      invariant r0.Val() >= 0 && r1.Val() >= 0 && Gcd(r0.Val(), r1.Val()) == Gcd(va, vb)
      invariant Cofactors(va, vb, r0.Val(), r1.Val(), ca.Val(), cb.Val(), da.Val(), db.Val())
      decreases r1.Val()
    {
      var rem, nca, ncb := EuclidTurn(r0, r1, ca, cb, da, db, va, vb);
      r0, r1, ca, da, cb, db := r1, rem, da, nca, db, ncb;
    }
    ValuePositive(b);
    g, x, y := r0, ca, cb;
  }

  /** One turn of the loop: the next remainder and its cofactors. */
  method EuclidTurn(r0: Num, r1: Num, ca: Num, cb: Num, da: Num, db: Num, ghost a: nat, ghost b: nat)
    returns (rem: Num, ea: Num, eb: Num)
    requires r0.Valid() && r1.Valid() && ca.Valid() && cb.Valid() && da.Valid() && db.Valid()
    requires r0.Val() >= 0 && r1.Val() >= 0 && r1.abs != []
    requires Cofactors(a, b, r0.Val(), r1.Val(), ca.Val(), cb.Val(), da.Val(), db.Val())
    ensures rem.Valid() && ea.Valid() && eb.Valid() && 0 <= rem.Val() < r1.Val()
    ensures Gcd(r1.Val(), rem.Val()) == Gcd(r0.Val(), r1.Val())
    ensures Cofactors(a, b, r1.Val(), rem.Val(), da.Val(), db.Val(), ea.Val(), eb.Val())
  {
    var q;
    q, rem := DivideRemainders(r0, r1);
    CofactorStep(a, b, r0.Val(), r1.Val(), ca.Val(), cb.Val(), da.Val(), db.Val(), q.Val(), rem.Val());
    ea := NextCofactor(ca, da, q);
    eb := NextCofactor(cb, db, q);
  }

  /** |a| is a times its sign, so the sign goes to the cofactor. */
  function FoldSign(neg: bool, c: Num): (r: Num)
    requires c.Valid()
    ensures r.Valid() && r.Val() == Signed(neg, c.Val())
  {
    if neg then Sign(!c.neg, c.abs) else c
  }

  lemma BezoutSigned(aneg: bool, bneg: bool, a: int, b: int, x: int, y: int)
    ensures Signed(aneg, a) * Signed(aneg, x) + Signed(bneg, b) * Signed(bneg, y) == a * x + b * y
  {
    SignedProduct(a, x);
    SignedProduct(b, y);
  }

  method DivideRemainders(r0: Num, r1: Num) returns (q: Num, rem: Num)
    requires r0.Valid() && r1.Valid() && r0.Val() >= 0 && r1.Val() >= 0 && r1.abs != []
    ensures q.Valid() && rem.Valid() && r1.Val() > 0 && q.Val() >= 0
    ensures r0.Val() == r1.Val() * q.Val() + rem.Val() && 0 <= rem.Val() < r1.Val()
    ensures Gcd(r1.Val(), rem.Val()) == Gcd(r0.Val(), r1.Val())
  {
    ValuePositive(r1.abs);
    q, rem := DivModNum(r0, r1);
    EuclideanUnique(r0.Val(), r1.Val(), q.Val(), rem.Val());
    QuotientNotNegative(r0.Val(), r1.Val(), q.Val(), rem.Val());
  }

  method NextCofactor(c: Num, d: Num, q: Num) returns (r: Num)
    requires c.Valid() && d.Valid() && q.Valid()
    ensures r.Valid() && r.Val() == c.Val() - q.Val() * d.Val()
  {
    var product := MulNum(q, d);
    r := SubNum(c, product);
  }

  lemma QuotientNotNegative(x: int, y: int, q: int, r: int)
    requires x >= 0 && y > 0 && x == y * q + r && 0 <= r < y
    ensures q >= 0
  {
    if q < 0 { MulAtLeast(y, q); }
  }

  // ─── inverse and exponentiation ─────────────────────────────────────

  /** z is the inverse of g modulo n, in range. */
  predicate IsInverse(z: int, g: int, n: nat)
    requires n > 0
  {
    0 <= z < n && (z * g) % n == 1 % n
  }

  /** An inverse exists exactly when the operands are coprime. */
  lemma InverseIffCoprime(g: int, n: nat)
    requires n > 0
    ensures (exists z: int :: IsInverse(z, g, n)) <==> Gcd(g % n, n) == 1
  {
    if Gcd(g % n, n) == 1 {
      var x, y := Bezout(g % n, n);
      RemainderCong(x, n);
      var k: int :| x % n == x + Times(n, k);
      BezoutInverse(g, n, g % n, x, y, x % n, k);
      assert IsInverse(x % n, g, n);
    }
    if z: int :| IsInverse(z, g, n) {
      var d := Gcd(g % n, n);
      GcdDivides(g % n, n);
      RemainderCong(z * g, n);
      RemainderCong(g, n);
      RemainderCong(1, n);
      CongSelf(z, n);
      CongMul(z, z, g % n, g, n);
      CongSwap(1 % n, 1, n);
      CongChain(1, (z * g) % n, z * g, n);
      CongSwap(z * (g % n), z * g, n);
      CongChain(1, z * g, z * (g % n), n);
      var k: int :| 1 == z * (g % n) + Times(n, k);
      DividesSum(d, g % n, n, z, k);
      OnlyUnitsDivideOne(d);
    }
  }

  lemma OnlyUnitsDivideOne(d: nat)
    requires Divides(d, 1)
    ensures d == 1
  {
    var k: int :| 1 == Times(d, k);
    if d > 0 { MulAtLeast(d, k); }
  }

  /** `ModInverse`; `None` is the case in which the receiver is left as it was. */
  method InverseNum(g: Num, n: Num) returns (r: Option<Num>)
    requires g.Valid() && n.Valid() && n.abs != []
    ensures Value(n.abs) > 0
    ensures r.Some? <==> Gcd(g.Val() % Value(n.abs), Value(n.abs)) == 1
    ensures r.Some? ==> r.value.Valid() && IsInverse(r.value.Val(), g.Val(), Value(n.abs))
  {
    ValuePositive(n.abs);
    var m := Num(false, n.abs);
    var q, red := DivModNum(g, m);
    EuclideanUnique(g.Val(), m.Val(), q.Val(), red.Val());
    var d, x, y := GcdNum(red, m);
    if d.Val() != 1 { return None; }
    ValuePositive(x.abs);
    var z := x;
    if x.neg { z := AddNum(x, m); }
    BezoutInverse(g.Val(), m.Val(), red.Val(), x.Val(), y.Val(), z.Val(), if x.neg then 1 else 0);
    r := Some(z);
  }

  lemma BezoutInverse(g: int, n: nat, red: int, x: int, y: int, z: int, k: int)
    requires n > 0 && red == g % n && red * x + n * y == 1 && z == x + n * k
    ensures (z * g) % n == 1 % n
  {
    CongBy(z, x, n, k);
    CongSelf(g, n);
    CongMul(z, x, g, g, n);
    RemainderCong(g, n);
    CongSelf(x, n);
    CongMul(x, x, red, g, n);
    CongSwap(x * red, x * g, n);
    CongChain(z * g, x * g, x * red, n);
    assert n * (-y) == -(n * y);
    CongBy(x * red, 1, n, -y);
    CongChain(z * g, x * red, 1, n);
    RemainderCong(z * g, n);
    CongChain((z * g) % n, z * g, 1, n);
    CongRemainder((z * g) % n, 1, n);
  }

  /** `Exp` for a non-negative exponent. */
  method PowerNum(x: Num, y: Num, m: Num) returns (r: Num)
    requires x.Valid() && y.Valid() && m.Valid() && !y.neg
    ensures r.Valid()
    ensures m.abs == [] ==> r.Val() == Pow(x.Val(), y.Val())
    ensures m.abs != [] ==> Value(m.abs) > 0 && r.Val() == Pow(x.Val(), y.Val()) % Value(m.abs)
  {
    var acc := ExpLimbs(x.abs, y.abs, m.abs);
    var odd := y.abs != [] && y.abs[0] % 2 == 1;
    OddLimb(y.abs);
    PowSign(x.neg, Value(x.abs), Value(y.abs));
    ValuePositive(m.abs);
    ValuePositive(acc);
    ghost var p := Pow(Value(x.abs), Value(y.abs));
    var neg := acc != [] && x.neg && odd;
    if m.abs == [] {
      ExactCong(Value(acc), p);
      return Num(neg && acc != [], acc);
    }
    CongRemainder(Value(acc), p, Value(m.abs));
    if neg {
      if |acc| > |m.abs| { ShorterIsLess(m.abs, acc); }
      acc := SubLimbs(m.abs, acc);
    }
    NegatedRemainder(p, Value(m.abs));
    return Num(false, acc);
  }

  lemma OddLimb(a: seq<Limb>)
    ensures Value(a) % 2 == 1 <==> a != [] && a[0] % 2 == 1
  {
  }

  lemma ExactCong(a: int, b: int)
    requires Cong(a, b, 0)
    ensures a == b
  {
    var k: int :| a == b + Times(0, k);
  }

  lemma NegatedRemainder(p: int, m: nat)
    requires m > 0
    ensures (-p) % m == if p % m == 0 then 0 else m - p % m
  {
    var q, r := p / m, p % m;
    assert p == m * q + r;
    assert m * (-q) == -(m * q) && m * (-q - 1) == -(m * q) - m;
    if r == 0 { DivModUnique(-p, m, -q, 0); } else { DivModUnique(-p, m, -q - 1, m - r); }
  }

  /** `Exp`; `None` is the case in which the receiver is left as it was. */
  method ExpNum(x: Num, y: Num, m: Num) returns (r: Option<Num>)
    requires x.Valid() && y.Valid() && m.Valid()
    ensures r.Some? ==> r.value.Valid()
    ensures m.abs == [] ==> r.Some? && r.value.Val() == if y.Val() < 0 then 1 else Pow(x.Val(), y.Val())
    ensures m.abs != [] ==> Value(m.abs) > 0
    ensures m.abs != [] && y.Val() >= 0 ==> r.Some? && r.value.Val() == Pow(x.Val(), y.Val()) % Value(m.abs)
    ensures m.abs != [] && y.Val() < 0 ==>
      && (r.Some? <==> Gcd(x.Val() % Value(m.abs), Value(m.abs)) == 1)
      && (r.Some? ==> IsInverse(r.value.Val(), Pow(x.Val(), -y.Val()), Value(m.abs)))
  {
    ValuePositive(m.abs);
    ValuePositive(y.abs);
    if y.neg {
      if m.abs == [] { return Some(Small(1)); }
      var inverse := InverseNum(x, m);
      if inverse.None? { return None; }
      var e := Num(false, y.abs);
      var z := PowerNum(inverse.value, e, m);
      InversePower(inverse.value.Val(), x.Val(), e.Val(), Value(m.abs));
      return Some(z);
    }
    var z := PowerNum(x, y, m);
    r := Some(z);
  }

  /** The power of an inverse is the inverse of the power. */
  lemma InversePower(z: int, g: int, e: nat, n: nat)
    requires n > 0 && IsInverse(z, g, n)
    ensures IsInverse(Pow(z, e) % n, Pow(g, e), n)
  {
    var w := Pow(z, e) % n;
    RemainderCong(z * g, n);
    RemainderCong(1, n);
    CongSwap((z * g) % n, z * g, n);
    CongChain(z * g, 1 % n, 1, n);
    PowCong(z * g, 1, e, n);
    PowOne(e);
    PowOfProduct(z, g, e);
    RemainderCong(Pow(z, e), n);
    CongSelf(Pow(g, e), n);
    CongMul(w, Pow(z, e), Pow(g, e), Pow(g, e), n);
    CongChain(w * Pow(g, e), Pow(z, e) * Pow(g, e), 1, n);
    RemainderCong(w * Pow(g, e), n);
    CongChain((w * Pow(g, e)) % n, w * Pow(g, e), 1, n);
    CongRemainder((w * Pow(g, e)) % n, 1, n);
  }

  lemma {:induction false} PowOne(e: nat)
    ensures Pow(1, e) == 1
  {
    if e == 0 {
    } else {
      PowOne(e - 1);
    }
  }
}
