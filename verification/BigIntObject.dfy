/** The receiver-updating methods of `big.Int` (src/math/big/mod.rs).  An operand may be the
    receiver itself: every contract reads the operands in the state before the call. */
module BigIntObject {

  import opened Arithmetic
  import opened Limbs
  import opened LongDivision
  import opened BitVectors
  import opened BigInt
  import opened Modular

  /** Magnitude minus one, as the code takes it before a two's complement step. */
  method Predecessor(abs: seq<Limb>) returns (t: seq<Limb>)
    requires Trimmed(abs) && abs != []
    ensures Trimmed(t) && Value(t) == Value(abs) - 1
  {
    var one: seq<Limb> := [1];
    assert Value(one) == 1;
    ValuePositive(abs);
    t := SubLimbs(abs, one);
  }

  method Successor(abs: seq<Limb>) returns (t: seq<Limb>)
    requires Trimmed(abs)
    ensures Trimmed(t) && Value(t) == Value(abs) + 1 && t != []
  {
    var one: seq<Limb> := [1];
    assert Value(one) == 1;
    t := AddLimbs(abs, one);
  }

  // ─── two's complement, one sign pattern at a time ───────────────────

  /** The bits of -t - 1 are the complements of the bits of t. */
  lemma Complement(t: int)
    ensures forall i: nat :: Bit(-t - 1, i) == !Bit(t, i)
  {
    forall i: nat
      ensures Bit(-t - 1, i) == !Bit(t, i)
    {
      ComplementBit(t, i);
    }
  }

  /** An operation on magnitudes carries over to operands and result that are complemented. */
  lemma Carried(f: BitOp, x: int, y: int, r: int, g: BitOp, xc: bool, yc: bool, rc: bool)
    requires Bitwise(f, x, y, r)
    requires forall a, b :: g(a != xc, b != yc) == (f(a, b) != rc)
    ensures Bitwise(g, Flip(xc, x), Flip(yc, y), Flip(rc, r))
  {
    Complement(x);
    Complement(y);
    Complement(r);
    forall i: nat
      ensures Bit(Flip(rc, r), i) == g(Bit(Flip(xc, x), i), Bit(Flip(yc, y), i))
    {
      assert g(Bit(x, i) != xc, Bit(y, i) != yc) == (f(Bit(x, i), Bit(y, i)) != rc);
    }
  }

  function Flip(c: bool, v: int): int {
    if c then -v - 1 else v
  }

  lemma BitwiseSwap(f: BitOp, x: int, y: int, r: int)
    requires Bitwise(f, x, y, r) && forall a, b :: f(a, b) == f(b, a)
    ensures Bitwise(f, y, x, r)
  {
  }

  lemma CarriedSetBit(t: int, u: int, x: int, i: nat, b: bool)
    requires x == -t - 1 && BitReplaced(t, i, !b, u)
    ensures BitReplaced(x, i, b, -u - 1)
  {
    forall k: nat
      ensures Bit(-u - 1, k) == if k == i then b else Bit(x, k)
    {
      ComplementBit(t, k);
      ComplementBit(u, k);
    }
  }

  /** Operands in the order the code puts them: the non-negative one first. */
  function Ordered(x: Num, y: Num): (Num, Num) {
    if x.neg then (y, x) else (x, y)
  }

  method AndNum(x: Num, y: Num) returns (r: Num)
    requires x.Valid() && y.Valid()
    ensures r.Valid() && Bitwise(AND, x.Val(), y.Val(), r.Val())
  {
    if !x.neg && !y.neg {
      var z := AndLimbs(x.abs, y.abs);
      return Num(false, z);
    }
    if x.neg && y.neg {
      // -(((x-1) | (y-1)) + 1)
      var x1 := Predecessor(x.abs);
      var y1 := Predecessor(y.abs);
      var m := MergeLimbs(OR, x1, y1);
      Carried(OR, Value(x1), Value(y1), Value(m), AND, true, true, true);
      var z := Successor(m);
      return Num(true, z);
    }
    // x &^ (y-1), y being the negative one
    var (p, n) := Ordered(x, y);
    var n1 := Predecessor(n.abs);
    var z := AndNotLimbs(p.abs, n1);
    Carried(ANDNOT, Value(p.abs), Value(n1), Value(z), AND, false, true, false);
    BitwiseSwap(AND, p.Val(), n.Val(), Value(z));
    r := Num(false, z);
  }

  method AndNotNum(x: Num, y: Num) returns (r: Num)
    requires x.Valid() && y.Valid()
    ensures r.Valid() && Bitwise(ANDNOT, x.Val(), y.Val(), r.Val())
  {
    if !x.neg && !y.neg {
      var z := AndNotLimbs(x.abs, y.abs);
      return Num(false, z);
    }
    if x.neg && y.neg {
      // (y-1) &^ (x-1)
      var x1 := Predecessor(x.abs);
      var y1 := Predecessor(y.abs);
      var z := AndNotLimbs(y1, x1);
      CarriedAndNot(Value(x1), Value(y1), Value(z));
      return Num(false, z);
    }
    if x.neg {
      // -(((x-1) | y) + 1)
      var x1 := Predecessor(x.abs);
      var m := MergeLimbs(OR, x1, y.abs);
      Carried(OR, Value(x1), Value(y.abs), Value(m), ANDNOT, true, false, true);
      var z := Successor(m);
      return Num(true, z);
    }
    // x & (y-1)
    var y1 := Predecessor(y.abs);
    var z := AndLimbs(x.abs, y1);
    Carried(AND, Value(x.abs), Value(y1), Value(z), ANDNOT, false, true, false);
    r := Num(false, z);
  }

  lemma CarriedAndNot(x: int, y: int, r: int)
    requires Bitwise(ANDNOT, y, x, r)
    ensures Bitwise(ANDNOT, -x - 1, -y - 1, r)
  {
    Complement(x);
    Complement(y);
  }

  method OrNum(x: Num, y: Num) returns (r: Num)
    requires x.Valid() && y.Valid()
    ensures r.Valid() && Bitwise(OR, x.Val(), y.Val(), r.Val())
  {
    if !x.neg && !y.neg {
      var z := MergeLimbs(OR, x.abs, y.abs);
      return Num(false, z);
    }
    if x.neg && y.neg {
      // -(((x-1) & (y-1)) + 1)
      var x1 := Predecessor(x.abs);
      var y1 := Predecessor(y.abs);
      var m := AndLimbs(x1, y1);
      Carried(AND, Value(x1), Value(y1), Value(m), OR, true, true, true);
      var z := Successor(m);
      return Num(true, z);
    }
    // -(((y-1) &^ x) + 1), y being the negative one
    var (p, n) := Ordered(x, y);
    var n1 := Predecessor(n.abs);
    var m := AndNotLimbs(n1, p.abs);
    Carried(ANDNOT, Value(n1), Value(p.abs), Value(m), OR, true, false, true);
    var z := Successor(m);
    r := Num(true, z);
    BitwiseSwap(OR, n.Val(), p.Val(), r.Val());
  }

  lemma CarriedXor(x: int, y: int, r: int)
    requires Bitwise(XOR, x, y, r)
    ensures Bitwise(XOR, x, -y - 1, -r - 1)
  {
    Complement(y);
    Complement(r);
  }

  lemma CarriedXorBoth(x: int, y: int, r: int)
    requires Bitwise(XOR, x, y, r)
    ensures Bitwise(XOR, -x - 1, -y - 1, r)
  {
    Complement(x);
    Complement(y);
  }

  method XorNum(x: Num, y: Num) returns (r: Num)
    requires x.Valid() && y.Valid()
    ensures r.Valid() && Bitwise(XOR, x.Val(), y.Val(), r.Val())
  {
    if !x.neg && !y.neg {
      var z := MergeLimbs(XOR, x.abs, y.abs);
      return Num(false, z);
    }
    if x.neg && y.neg {
      // (x-1) ^ (y-1)
      var x1 := Predecessor(x.abs);
      var y1 := Predecessor(y.abs);
      var z := MergeLimbs(XOR, x1, y1);
      CarriedXorBoth(Value(x1), Value(y1), Value(z));
      return Num(false, z);
    }
    var (p, n) := Ordered(x, y);
    r := XorMixed(p, n);
    BitwiseSwap(XOR, p.Val(), n.Val(), r.Val());
  }

  method XorMixed(p: Num, n: Num) returns (r: Num)
    requires p.Valid() && n.Valid() && !p.neg && n.neg
    ensures r.Valid() && Bitwise(XOR, p.Val(), n.Val(), r.Val())
  {
    // -((p ^ (n-1)) + 1)
    var n1 := Predecessor(n.abs);
    var m := MergeLimbs(XOR, p.abs, n1);
    CarriedXor(Value(p.abs), Value(n1), Value(m));
    var z := Successor(m);
    r := Num(true, z);
  }

  class Int {
    var neg: bool
    var abs: seq<Limb>

    function ToNum(): Num
      reads this
    {
      Num(neg, abs)
    }

    ghost predicate Valid()
      reads this
    {
      ToNum().Valid()
    }

    ghost function Val(): int
      reads this
    {
      ToNum().Val()
    }

    constructor ()
      ensures Valid() && Val() == 0
    {
      neg, abs := false, [];
    }

    // ─── arithmetic ───────────────────────────────────────────────────

    method Add(x: Int, y: Int)
      requires x.Valid() && y.Valid()
      modifies this
      ensures Valid() && Val() == old(x.Val()) + old(y.Val())
    {
      var r := AddNum(x.ToNum(), y.ToNum());
      neg, abs := r.neg, r.abs;
    }

    method Sub(x: Int, y: Int)
      requires x.Valid() && y.Valid()
      modifies this
      ensures Valid() && Val() == old(x.Val()) - old(y.Val())
    {
      var r := SubNum(x.ToNum(), y.ToNum());
      neg, abs := r.neg, r.abs;
    }

    method Mul(x: Int, y: Int)
      requires x.Valid() && y.Valid()
      modifies this
      ensures Valid() && Val() == old(x.Val()) * old(y.Val())
    {
      var r := MulNum(x.ToNum(), y.ToNum());
      neg, abs := r.neg, r.abs;
    }

    /** Truncated division; a zero divisor panics. */
    method QuoRem(x: Int, y: Int, r: Int)
      requires x.Valid() && y.Valid() && y.abs != [] && r != this
      modifies this, r
      ensures Valid() && r.Valid() && Truncated(old(x.Val()), old(y.Val()), Val(), r.Val())
    {
      var q, rem := QuoRemNum(x.ToNum(), y.ToNum());
      neg, abs := q.neg, q.abs;
      r.neg, r.abs := rem.neg, rem.abs;
    }

    /** Euclidean division; a zero divisor panics. */
    method DivMod(x: Int, y: Int, m: Int)
      requires x.Valid() && y.Valid() && y.abs != [] && m != this
      modifies this, m
      ensures Valid() && m.Valid() && old(y.Val()) != 0
      ensures Val() == old(x.Val()) / old(y.Val()) && m.Val() == old(x.Val()) % old(y.Val())
    {
      var q, rem := DivModNum(x.ToNum(), y.ToNum());
      EuclideanUnique(x.Val(), y.Val(), q.Val(), rem.Val());
      neg, abs := q.neg, q.abs;
      m.neg, m.abs := rem.neg, rem.abs;
    }

    /** The receiver gets gcd(|a|, |b|); x and y, where given, get the cofactors of one identity. */
    method GCD(x: Int?, y: Int?, a: Int, b: Int) returns (ghost ca: int, ghost cb: int)
      requires a.Valid() && b.Valid()
      requires x != this && y != this && (x == y ==> x == null)
      modifies this, x, y
      ensures Valid() && Val() == Gcd(Abs(old(a.Val())), Abs(old(b.Val())))
      ensures old(a.Val()) * ca + old(b.Val()) * cb == Val()
      ensures old(b.Val()) != 0 ==> Abs(ca) < Abs(old(b.Val()))
      ensures x != null ==> x.Valid() && x.Val() == ca
      ensures y != null ==> y.Valid() && y.Val() == cb
    {
      var g, cx, cy := GcdNum(a.ToNum(), b.ToNum());
      ca, cb := cx.Val(), cy.Val();
      if x != null { x.neg, x.abs := cx.neg, cx.abs; }
      if y != null { y.neg, y.abs := cy.neg, cy.abs; }
      neg, abs := g.neg, g.abs;
    }

    /** The inverse of g modulo |n| when there is one; otherwise the receiver is unchanged. */
    method ModInverse(g: Int, n: Int)
      requires Valid() && g.Valid() && n.Valid() && n.abs != []
      modifies this
      ensures Valid() && Abs(old(n.Val())) > 0
      ensures if Gcd(old(g.Val()) % Abs(old(n.Val())), Abs(old(n.Val()))) == 1
              then IsInverse(Val(), old(g.Val()), Abs(old(n.Val())))
              else Val() == old(Val())
    {
      ValuePositive(n.abs);
      var r := InverseNum(g.ToNum(), n.ToNum());
      if r.Some? { neg, abs := r.value.neg, r.value.abs; }
    }

    /** x to the y, modulo |m| unless m is zero; a negative exponent without an inverse leaves the
        receiver unchanged. */
    method Exp(x: Int, y: Int, m: Int)
      requires Valid() && x.Valid() && y.Valid() && m.Valid()
      modifies this
      ensures Valid()
      ensures old(m.Val()) == 0 ==>
        Val() == if old(y.Val()) < 0 then 1 else Pow(old(x.Val()), old(y.Val()))
      ensures old(m.Val()) != 0 && old(y.Val()) >= 0 ==>
        Val() == Pow(old(x.Val()), old(y.Val())) % Abs(old(m.Val()))
      ensures old(m.Val()) != 0 && old(y.Val()) < 0 ==>
        if Gcd(old(x.Val()) % Abs(old(m.Val())), Abs(old(m.Val()))) == 1
        then IsInverse(Val(), Pow(old(x.Val()), -old(y.Val())), Abs(old(m.Val())))
        else Val() == old(Val())
    {
      ValuePositive(m.abs);
      var r := ExpNum(x.ToNum(), y.ToNum(), m.ToNum());
      if r.Some? { neg, abs := r.value.neg, r.value.abs; }
    }

    // ─── bits ─────────────────────────────────────────────────────────

    /** `Bit`; a negative index panics. */
    method BitAt(i: nat) returns (b: bool)
      requires Valid()
      ensures b == Bit(Val(), i)
    {
      if i == 0 {
        OddLimb(abs);
        return abs != [] && abs[0] % 2 == 1;
      }
      if neg {
        var t := Predecessor(abs);
        ComplementBit(Value(t), i);
        var c := LimbBit(t, i);
        return !c;
      }
      b := LimbBit(abs, i);
    }

    method SetBit(x: Int, i: nat, b: bool)
      requires x.Valid()
      modifies this
      ensures Valid()
      ensures BitReplaced(old(x.Val()), i, b, Val())
    {
      if x.neg {
        var t := Predecessor(x.abs);
        var u := LimbSetBit(t, i, !b);
        CarriedSetBit(Value(t), Value(u), x.Val(), i, b);
        var r := Successor(u);
        neg, abs := r != [], r;
        assert Val() == -(Value(u) as int) - 1;
      } else {
        var r := LimbSetBit(x.abs, i, b);
        neg, abs := false, r;
      }
    }

    method Lsh(x: Int, n: nat)
      requires x.Valid()
      modifies this
      ensures Valid() && Val() == old(x.Val()) * Pow2(n)
    {
      var r := LshLimbs(x.abs, n);
      SignedProduct(Value(x.abs), Pow2(n));
      ValuePositive(r);
      neg, abs := x.neg && r != [], r;
    }

    /** The right shift rounds down, for negative numbers too. */
    method Rsh(x: Int, n: nat)
      requires x.Valid()
      modifies this
      ensures Valid() && Val() == old(x.Val()) / Pow2(n)
    {
      if x.neg {
        var t := Predecessor(x.abs);
        var u := RshLimbs(t, n);
        FloorComplement(Value(t), Pow2(n));
        assert x.Val() == -(Value(t) as int) - 1;
        var r := Successor(u);
        neg, abs := true, r;
      } else {
        var r := RshLimbs(x.abs, n);
        neg, abs := false, r;
      }
    }

    method Not(x: Int)
      requires x.Valid()
      modifies this
      ensures Valid() && forall i: nat :: Bit(Val(), i) == !Bit(old(x.Val()), i)
    {
      Complement(x.Val());
      if x.neg {
        var r := Predecessor(x.abs);
        neg, abs := false, r;
      } else {
        var r := Successor(x.abs);
        neg, abs := true, r;
      }
    }

    method And(x: Int, y: Int)
      requires x.Valid() && y.Valid()
      modifies this
      ensures Valid() && Bitwise(AND, old(x.Val()), old(y.Val()), Val())
    {
      var r := AndNum(x.ToNum(), y.ToNum());
      neg, abs := r.neg, r.abs;
    }

    method AndNot(x: Int, y: Int)
      requires x.Valid() && y.Valid()
      modifies this
      ensures Valid() && Bitwise(ANDNOT, old(x.Val()), old(y.Val()), Val())
    {
      var r := AndNotNum(x.ToNum(), y.ToNum());
      neg, abs := r.neg, r.abs;
    }

    method Or(x: Int, y: Int)
      requires x.Valid() && y.Valid()
      modifies this
      ensures Valid() && Bitwise(OR, old(x.Val()), old(y.Val()), Val())
    {
      var r := OrNum(x.ToNum(), y.ToNum());
      neg, abs := r.neg, r.abs;
    }

    method Xor(x: Int, y: Int)
      requires x.Valid() && y.Valid()
      modifies this
      ensures Valid() && Bitwise(XOR, old(x.Val()), old(y.Val()), Val())
    {
      var r := XorNum(x.ToNum(), y.ToNum());
      neg, abs := r.neg, r.abs;
    }
  }

  lemma FloorComplement(t: int, p: nat)
    requires p > 0
    ensures (-t - 1) / p == -(t / p) - 1
  {
    var q, r := t / p, t % p;
    assert t == p * q + r;
    assert p * (-q - 1) == -(p * q) - p;
    DivModUnique(-t - 1, p, -q - 1, p - 1 - r);
  }

  /** A shift down of a number, seen on its bits. */
  lemma RshBits(x: int, n: nat)
    ensures forall i: nat :: Bit(x / Pow2(n), i) == Bit(x, i + n)
  {
    forall i: nat
      ensures Bit(x / Pow2(n), i) == Bit(x, i + n)
    {
      ShiftedDownBit(x, n, i);
    }
  }

  /** A shift up of a number of either sign, seen on its bits: zeros come in below. */
  lemma LshBits(x: int, n: nat)
    ensures forall i: nat :: Bit(x * Pow2(n), i) == (i >= n && Bit(x, i - n))
  {
    forall i: nat
      ensures Bit(x * Pow2(n), i) == (i >= n && Bit(x, i - n))
    {
      ShiftedUpBit(x, n, i);
    }
  }

  /** The bits leave no freedom: a bitwise result is unique. */
  lemma BitwiseUnique(f: BitOp, x: int, y: int, r: int, r': int)
    requires Bitwise(f, x, y, r) && Bitwise(f, x, y, r')
    ensures r == r'
  {
    BitsDetermine(r, r');
  }
}
