/** Multi-precision long division: Algorithm D of section 4.3.1 of Knuth's The Art of Computer
    Programming, as src/math/big/mod.rs carries it out on 32-bit limbs in 64-bit words. */
module LongDivision {

  import opened Arithmetic
  import opened Limbs

  /** 2^s and 2^(32-s) split a limb. */
  lemma LimbSplit(s: nat)
    requires s <= 32
    ensures Pow2(s) * Pow2(32 - s) == BASE && Pow2(s) <= BASE
  {
    Pow2Words();
    Pow2Add(s, 32 - s);
    if s < 32 { Pow2Monotone(s, 32); }
  }

  // ─── small shifts ───────────────────────────────────────────────────

  /** `shl_small`: the bits a limb loses at the top are carried into the next one. */
  method ShlSmall(a: seq<Limb>, s: nat) returns (r: seq<Limb>)
    requires s < 32
    ensures Value(r) == Value(a) * Pow2(s) && |r| <= |a| + 1
    ensures Trimmed(a) ==> Trimmed(r)
  {
    if a == [] { return []; }
    if s == 0 { return a; }
    var out: seq<Limb> := [];
    var carry: nat := 0;
    var t := Pow2(s);
    LimbSplit(s);
    var i := 0;
    while i < |a|
      invariant 0 <= i <= |a| && |out| == i && carry < t
      invariant Value(out) + BasePow(i) * carry == Low(a, i) * t
    {
      ShlStep(a, out, i, t, carry);
      var v: nat := a[i] * t + carry;
      out, carry := out + [v % BASE], v / BASE;
      i := i + 1;
    }
    ValueSnoc(out, carry);
    r := Trim(out + [carry]);
  }

  lemma ShlStep(a: seq<Limb>, out: seq<Limb>, i: nat, t: nat, carry: nat)
    requires i < |a| && |out| == i && carry < t <= BASE
    requires Value(out) + BasePow(i) * carry == Low(a, i) * t
    ensures var v := a[i] * t + carry;
      && 0 <= v < BASE * BASE
      && v / BASE < t
      && Value(out + [v % BASE]) + BasePow(i + 1) * (v / BASE) == Low(a, i + 1) * t
  {
    var v := a[i] * t + carry;
    MulMonotone(a[i], t, BASE - 1, t);
    MulMonotone(BASE, t, BASE, BASE);
    QuotientBelow(v, BASE, t);
    ValueSnoc(out, v % BASE);
    LowStep(a, i);
    ShlAlgebra(BasePow(i), a[i], t, carry, Low(a, i));
  }

  lemma ShlAlgebra(p: int, x: int, t: int, carry: int, low: int)
    ensures var v := x * t + carry;
      p * (v % BASE) + (BASE * p) * (v / BASE) == p * carry + (low + p * x) * t - low * t
  {
    var v := x * t + carry;
    CarryStep(p, v);
    assert p * v == p * (x * t) + p * carry;
    assert (low + p * x) * t == low * t + (p * x) * t;
    assert (p * x) * t == p * (x * t);
  }

  /** Machine division; the callers reason only about what it promises. */
  method QuoRem(x: nat, d: nat) returns (q: nat, r: nat)
    requires d > 0
    ensures x == d * q + r && r < d
  {
    q, r := x / d, x % d;
  }

  /** `shr_small`: each limb's low bits become the top bits of the one below. */
  method ShrSmall(a: seq<Limb>, s: nat) returns (r: seq<Limb>, ghost lost: nat)
    requires s < 32
    ensures Trimmed(r) && lost < Pow2(s) && Value(a) == Value(r) * Pow2(s) + lost
  {
    lost := 0;
    if a == [] { return [], 0; }
    if s == 0 {
      r := Trim(a);
      return;
    }
    var out: seq<Limb> := [];
    var carry: nat := 0;
    var t, u := Pow2(s), Pow2(32 - s);
    LimbSplit(s);
    var i := |a|;
    while i > 0
      invariant 0 <= i <= |a| && |out| == |a| - i
      invariant lost < t && carry == lost * u
      invariant Value(a[i..]) == Value(out) * t + lost
    {
      i := i - 1;
      var high, low := QuoRem(a[i], t);
      ShrLimb(a, i, out, t, u, lost, high, low, carry);
      out, carry, lost := [high + carry] + out, (a[i] * u) % BASE, low;
    }
    assert a[0..] == a;
    r := Trim(out);
  }

  lemma ShrLimb(a: seq<Limb>, i: nat, out: seq<Limb>, t: nat, u: nat, lost: nat, q: nat, r: nat, carry: nat)
    requires i < |a| && lost < t && t * u == BASE && u > 0 && carry == lost * u
    requires a[i] == t * q + r && r < t
    requires Value(a[i + 1..]) == Value(out) * t + lost
    ensures q + carry < BASE
    ensures (a[i] * u) % BASE == r * u
    ensures Value(a[i..]) == Value([q + carry] + out) * t + r
  {
    ShrBounds(a[i], t, u, lost, q, r, carry);
    ValueFrom(a, i);
    ValueCons(q + carry, out);
    ShrStep(a[i], t, u, lost, Value(out), q, r, carry, Value(a[i + 1..]));
  }

  lemma ValueFrom(a: seq<Limb>, i: nat)
    requires i < |a|
    ensures Value(a[i..]) == a[i] + BASE * Value(a[i + 1..])
  {
    assert a[i..][1..] == a[i + 1..];
  }

  lemma ShrBounds(y: nat, t: nat, u: nat, lost: nat, q: nat, r: nat, carry: nat)
    requires lost < t && t * u == BASE && u > 0 && r < t && y == t * q + r && y < BASE && carry == lost * u
    ensures q + carry < BASE && (y * u) % BASE == r * u
  {
    assert q < u by {
      if q >= u { MulMonotone(t, u, t, q); }
    }
    MulMonotone(lost + 1, u, t, u);
    MulMonotone(r + 1, u, t, u);
    assert (lost + 1) * u == lost * u + u;
    assert (r + 1) * u == r * u + u;
    ShiftedOutPart(t, u, q, r);
  }

  lemma ShrStep(y: nat, t: nat, u: nat, lost: nat, hi: nat, q: nat, r: nat, carry: nat, rest: nat)
    requires t * u == BASE && y == t * q + r && carry == lost * u && rest == hi * t + lost
    ensures y + BASE * rest == (q + carry + BASE * hi) * t + r
  {
    ShrAlgebra(t, u, q, r, lost, hi);
  }

  /** What is left of a limb after shifting its high part out. */
  lemma ShiftedOutPart(t: nat, u: nat, q: nat, r: nat)
    requires t * u == BASE && r * u < BASE
    ensures ((t * q + r) * u) % BASE == r * u
  {
    assert (t * q + r) * u == (t * u) * q + r * u;
    DivModUnique((t * q + r) * u, BASE, q, r * u);
  }

  lemma ShrAlgebra(t: int, u: int, q: int, r: int, lost: int, hi: int)
    ensures t * q + r + (t * u) * (hi * t + lost) == (q + lost * u + (t * u) * hi) * t + r
  {
    assert (q + lost * u + (t * u) * hi) * t == q * t + (lost * u) * t + ((t * u) * hi) * t;
    assert (lost * u) * t == (t * u) * lost;
    assert ((t * u) * hi) * t == (t * u) * (hi * t);
    assert (t * u) * (hi * t + lost) == (t * u) * (hi * t) + (t * u) * lost;
  }

  // ─── division by one limb ───────────────────────────────────────────

  method DivModByLimb(num: seq<Limb>, d: Limb) returns (q: seq<Limb>, r: Limb)
    requires d > 0
    ensures Trimmed(q) && r < d && Value(num) == Value(q) * d + r
  {
    var out: seq<Limb> := [];
    r := 0;
    var i := |num|;
    while i > 0
      invariant 0 <= i <= |num| && r < d
      invariant Value(num[i..]) == Value(out) * d + r
    {
      i := i - 1;
      var digit, rest := QuoRem(r as int * BASE + num[i], d);
      DigitLimb(num, i, out, r, d, digit, rest);
      out, r := [digit] + out, rest;
    }
    assert num[0..] == num;
    q := Trim(out);
  }

  lemma DigitLimb(num: seq<Limb>, i: nat, out: seq<Limb>, r: nat, d: Limb, digit: nat, rest: nat)
    requires i < |num| && r < d && Value(num[i + 1..]) == Value(out) * d + r
    requires r * BASE + num[i] == d * digit + rest && rest < d
    ensures digit < BASE
    ensures Value(num[i..]) == Value([digit] + out) * d + rest
  {
    assert digit < BASE by {
      MulMonotone(r + 1, BASE, d, BASE);
      if digit >= BASE { MulMonotone(d, BASE, d, digit); }
    }
    ValueCons(num[i], num[i + 1..]);
    assert num[i..] == [num[i]] + num[i + 1..];
    ValueCons(digit, out);
    DigitAlgebra(d, digit, Value(out), r);
  }

  lemma DigitAlgebra(d: int, digit: int, hi: int, r: int)
    ensures (digit + BASE * hi) * d == d * digit + BASE * (hi * d)
    ensures BASE * (hi * d + r) == BASE * (hi * d) + r * BASE
  {
    assert (digit + BASE * hi) * d == digit * d + (BASE * hi) * d;
    assert BASE * (hi * d) == (BASE * hi) * d;
  }

  // ─── D3: estimating a quotient digit ────────────────────────────────

  /** The number made of three top limbs. */
  function Three(u2: Limb, u1: Limb, u0: Limb): nat {
    (u2 * BASE + u1) * BASE + u0
  }

  /** The number made of two top limbs. */
  function Two(v1: Limb, v0: Limb): nat {
    v1 * BASE + v0
  }

  /** Whether q is the quotient of t by d, capped at the largest limb. */
  predicate CappedQuotient(q: nat, t: nat, d: nat) {
    q < BASE && q * d <= t && (q == BASE - 1 || t < (q + 1) * d)
  }

  /** The estimate from two limbs of the dividend, corrected with a third, is the exact quotient of
      three limbs by two, capped at BASE - 1.  With a normalised divisor the correction takes at
      most two rounds. */
  method EstimateDigit(u2: Limb, u1: Limb, u0: Limb, v1: Limb, v0: Limb) returns (qhat: nat, ghost rounds: nat)
    requires 2 * v1 >= BASE && u2 <= v1
    ensures CappedQuotient(qhat, Three(u2, u1, u0), Two(v1, v0))
    ensures rounds <= 2
  {
    var rhat: nat;
    qhat, rhat := QuoRem(u2 as int * BASE + u1, v1);
    rounds := 0;
    FirstEstimate(u2, u1, u0, v1, v0, qhat, rhat);
    while qhat >= BASE || qhat * v0 > rhat * BASE + u0
      invariant rhat < BASE && qhat * v1 + rhat == u2 as int * BASE + u1
      invariant qhat >= BASE - 1 || Three(u2, u1, u0) < (qhat + 1) * Two(v1, v0)
      invariant rhat >= rounds * v1 && rounds <= 1
      decreases qhat
    {
      RefineEstimate(u2, u1, u0, v1, v0, qhat, rhat);
      qhat, rhat, rounds := qhat - 1, rhat + v1, rounds + 1;
      if rhat >= BASE {
        break;
      }
    }
    AcceptEstimate(u2, u1, u0, v1, v0, qhat, rhat);
  }

  lemma FirstEstimate(u2: Limb, u1: Limb, u0: Limb, v1: Limb, v0: Limb, q: nat, r: nat)
    requires u2 as int * BASE + u1 == v1 * q + r && r < v1
    ensures q * v1 == v1 * q
    ensures Three(u2, u1, u0) < (q + 1) * Two(v1, v0)
  {
    var h := u2 as int * BASE + u1;
    assert v1 * (q + 1) == v1 * q + v1;
    assert (q + 1) * (v1 * BASE + v0) == (v1 * (q + 1)) * BASE + (q + 1) * v0;
    assert (v1 * (q + 1)) * BASE >= (h + 1) * BASE;
    assert (q + 1) * v0 >= 0;
  }

  lemma RefineEstimate(u2: Limb, u1: Limb, u0: Limb, v1: Limb, v0: Limb, q: nat, r: nat)
    requires q * v1 + r == u2 as int * BASE + u1
    requires q >= BASE || q * v0 > r * BASE + u0
    ensures q >= 1 && (q - 1) * v1 + (r + v1) == u2 as int * BASE + u1
    ensures q >= BASE || Three(u2, u1, u0) < q * Two(v1, v0)
  {
    assert q * (v1 * BASE + v0) == (q * v1) * BASE + q * v0;
    assert (q - 1) * v1 == q * v1 - v1;
  }

  lemma AcceptEstimate(u2: Limb, u1: Limb, u0: Limb, v1: Limb, v0: Limb, q: nat, r: nat)
    requires v1 > 0 && u2 <= v1 && q * v1 + r == u2 as int * BASE + u1
    requires r >= BASE || (q < BASE && q * v0 <= r * BASE + u0)
    ensures q < BASE && q * Two(v1, v0) <= Three(u2, u1, u0)
  {
    if r >= BASE {
      assert q < BASE by {
        if q >= BASE { MulMonotone(BASE, v1, q, v1); }
      }
      MulMonotone(q, v0, BASE, BASE);
    }
    assert q * (v1 * BASE + v0) == (q * v1) * BASE + q * v0;
  }

  /** From limbs to whole numbers: the true digit is the estimate or one less. */
  lemma EstimateIsClose(q: nat, t: nat, two: nat, p: nat, wl: nat, dl: nat)
    requires CappedQuotient(q, t, two) && two >= BASE && wl < p && dl < p
    requires t * p + wl < BASE * (two * p + dl)
    ensures t * p + wl < (q + 1) * (two * p + dl)
    ensures q * (two * p + dl) < t * p + wl + (two * p + dl)
  {
    if q < BASE - 1 { EstimateNotLow(q + 1, t, two, p, wl, dl); }
    EstimateNotHigh(q, t, two, p, dl);
  }

  lemma EstimateNotLow(q1: nat, t: nat, two: nat, p: nat, wl: nat, dl: nat)
    requires t < q1 * two && wl < p
    ensures t * p + wl < q1 * (two * p + dl)
  {
    MulMonotone(t + 1, p, q1 * two, p);
    assert (t + 1) * p == t * p + p;
    ScaleAlgebra(q1, two, p, dl);
    MulMonotone(0, 0, q1, dl);
  }

  lemma EstimateNotHigh(q: nat, t: nat, two: nat, p: nat, dl: nat)
    requires q * two <= t && q < two && dl < p
    ensures q * (two * p + dl) < t * p + two * p
  {
    MulMonotone(q * two, p, t, p);
    ScaleAlgebra(q, two, p, dl);
    MulMonotone(q + 1, dl + 1, two, p);
    assert (q + 1) * (dl + 1) == q * dl + q + dl + 1;
  }

  lemma ScaleAlgebra(q: int, two: int, p: int, dl: int)
    ensures q * (two * p + dl) == (q * two) * p + q * dl
  {
    assert q * (two * p) == (q * two) * p;
  }

  // ─── D4 and D6: multiply and subtract, add back ─────────────────────

  /** Subtract q * d from a window one limb longer, in place; `borrow` is what is left over. */
  method MulSub(w: seq<Limb>, d: seq<Limb>, q: nat) returns (u: seq<Limb>, borrow: nat)
    requires |w| == |d| + 1 && q < BASE
    ensures |u| == |w| && borrow <= 1
    ensures Value(u) == Value(w) - q * Value(d) + BasePow(|w|) * borrow
  {
    u, borrow := w, 0;
    var carry: nat := 0;
    var i := 0;
    while i < |d|
      invariant 0 <= i <= |d| && |u| == |w| && borrow <= 1 && carry < BASE
      invariant Value(u) == Value(w) - q * Low(d, i) + BasePow(i) * (carry + borrow)
    {
      ProductFits(q, d[i], 0, carry);
      var p: nat := q * d[i] + carry;
      var sub: int := u[i] as int - borrow - p % BASE;
      var limb: Limb := if sub < 0 then sub + BASE else sub;
      var borrow': nat := if sub < 0 then 1 else 0;
      ValueUpdate(u, i, limb);
      LowStep(d, i);
      MulSubAlgebra(BasePow(i), q, d[i], carry, borrow, borrow', u[i], limb, Low(d, i));
      u, borrow, carry := u[i := limb], borrow', p / BASE;
      i := i + 1;
    }
    var sub: int := u[i] as int - borrow - carry;
    var limb: Limb := if sub < 0 then sub + BASE else sub;
    var borrow' := if sub < 0 then 1 else 0;
    ValueUpdate(u, i, limb);
    LastLimbAlgebra(BasePow(i), carry, borrow, borrow', u[i], limb);
    u, borrow := u[i := limb], borrow';
  }

  lemma MulSubAlgebra(p: int, q: int, y: int, carry: int, borrow: int, borrow': int, x: int, limb: int, low: int)
    requires limb == x - borrow - (q * y + carry) % BASE + BASE * borrow'
    ensures p * (carry + borrow) + p * (limb - x)
      == q * low - q * (low + p * y) + (BASE * p) * ((q * y + carry) / BASE + borrow')
  {
    var prod := q * y + carry;
    CarryStep(p, prod);
    assert p * (limb - x) == p * (0 - borrow) - p * (prod % BASE) + p * (BASE * borrow');
    assert p * (carry + borrow) == p * carry + p * borrow;
    assert p * prod == p * (q * y) + p * carry;
    assert q * (low + p * y) == q * low + p * (q * y);
    assert (BASE * p) * (prod / BASE + borrow') == (BASE * p) * (prod / BASE) + p * (BASE * borrow');
  }

  lemma LastLimbAlgebra(p: int, carry: int, borrow: int, borrow': int, x: int, limb: int)
    requires limb == x - borrow - carry + BASE * borrow'
    ensures p * (carry + borrow) + p * (limb - x) == (BASE * p) * borrow'
  {
    assert p * (limb - x) == p * (0 - borrow - carry) + (BASE * p) * borrow';
  }

  /** Add d back into the window; the carry out of the top limb is dropped. */
  method AddBack(w: seq<Limb>, d: seq<Limb>) returns (u: seq<Limb>, ghost dropped: nat)
    requires |w| == |d| + 1
    ensures |u| == |w| && dropped <= 1
    ensures Value(u) == Value(w) + Value(d) - BasePow(|w|) * dropped
  {
    u := w;
    var carry: nat := 0;
    var i := 0;
    while i < |d|
      invariant 0 <= i <= |d| && |u| == |w| && carry <= 1
      invariant Value(u) == Value(w) + Low(d, i) - BasePow(i) * carry
    {
      var s: nat := u[i] as int + d[i] + carry;
      var limb: Limb := s % BASE;
      ValueUpdate(u, i, limb);
      LowStep(d, i);
      AddBackAlgebra(BasePow(i), u[i], d[i], carry);
      u, carry := u[i := limb], s / BASE;
      i := i + 1;
    }
    var s: nat := u[i] as int + carry;
    var limb: Limb := s % BASE;
    ValueUpdate(u, i, limb);
    AddBackAlgebra(BasePow(i), u[i], 0, carry);
    dropped := s / BASE;
    u := u[i := limb];
  }

  lemma AddBackAlgebra(p: int, x: int, y: int, carry: int)
    ensures var s := x + y + carry;
      p * (s % BASE - x) == p * y + p * carry - (BASE * p) * (s / BASE)
  {
    var s := x + y + carry;
    CarryStep(p, s);
    assert p * (s % BASE - x) == p * (s % BASE) - p * x;
    assert p * s == p * x + p * y + p * carry;
  }

  // ─── one quotient digit ─────────────────────────────────────────────

  /** A divisor ready for the digit loop: two limbs or more, top bit set. */
  predicate Normalised(d: seq<Limb>) {
    |d| >= 2 && 2 * d[|d| - 1] >= BASE
  }

  lemma TopSplit(a: seq<Limb>)
    requires a != []
    ensures Value(a) == Value(a[..|a| - 1]) + BasePow(|a| - 1) * a[|a| - 1]
  {
    assert a == a[..|a| - 1] + [a[|a| - 1]];
    ValueSnoc(a[..|a| - 1], a[|a| - 1]);
  }

  lemma WeightAlgebra(p: int, x: int, y: int)
    ensures (x * BASE + y) * p == (BASE * p) * x + p * y == x * (BASE * p) + p * y
  {
  }

  lemma TopTwo(d: seq<Limb>)
    requires |d| >= 2
    ensures Value(d) == Two(d[|d| - 1], d[|d| - 2]) * BasePow(|d| - 2) + Value(d[..|d| - 2])
  {
    LastTwo(d);
    TwoOnTop(d[..|d| - 2], d[|d| - 2], d[|d| - 1]);
  }

  lemma LastTwo(d: seq<Limb>)
    requires |d| >= 2
    ensures d == d[..|d| - 2] + [d[|d| - 2]] + [d[|d| - 1]]
  {
  }

  lemma TwoOnTop(low: seq<Limb>, y: Limb, x: Limb)
    ensures Value(low + [y] + [x]) == Two(x, y) * BasePow(|low|) + Value(low)
  {
    var mid := low + [y];
    ValueSnoc(mid, x);
    ValueSnoc(low, y);
    TwoWeights(Value(low), Value(mid), Value(mid + [x]), BasePow(|low|), BasePow(|mid|), x, y);
  }

  lemma TwoWeights(v0: int, v1: int, v2: int, p0: int, p1: int, x: Limb, y: Limb)
    requires v1 == v0 + p0 * y && v2 == v1 + p1 * x && p1 == BASE * p0
    ensures v2 == Two(x, y) * p0 + v0
  {
    WeightAlgebra(p0, x, y);
  }

  lemma TopThree(w: seq<Limb>)
    requires |w| >= 3
    ensures Value(w) == Three(w[|w| - 1], w[|w| - 2], w[|w| - 3]) * BasePow(|w| - 3) + Value(w[..|w| - 3])
  {
    var n := |w|;
    TopTwo(w);
    BelowTopTwo(w);
    ThreeWeights(Value(w), Value(w[..n - 2]), Value(w[..n - 3]), w[n - 1], w[n - 2], w[n - 3],
                 BasePow(n - 3), BasePow(n - 2));
  }

  lemma BelowTopTwo(w: seq<Limb>)
    requires |w| >= 3
    ensures Value(w[..|w| - 2]) == Value(w[..|w| - 3]) + BasePow(|w| - 3) * w[|w| - 3]
  {
    TopSplit(w[..|w| - 2]);
    assert w[..|w| - 2][..|w| - 3] == w[..|w| - 3];
  }

  lemma ThreeWeights(v2: int, v1: int, v0: int, x: Limb, y: Limb, z: Limb, p0: int, p1: int)
    requires v2 == Two(x, y) * p1 + v1 && v1 == v0 + p0 * z && p1 == BASE * p0
    ensures v2 == Three(x, y, z) * p0 + v0
  {
    WeightAlgebra(p0, Two(x, y), z);
  }

  /** D3 to D6: the window becomes its remainder, and the digit is the quotient. */
  method DivDigit(w: seq<Limb>, d: seq<Limb>) returns (q: Limb, u: seq<Limb>)
    requires Normalised(d) && |w| == |d| + 1 && Value(w) < BASE * Value(d)
    ensures |u| == |w| && Value(w) == q * Value(d) + Value(u) && Value(u) < Value(d)
  {
    var n := |d|;
    TopLimbOrder(w, d);
    var qhat, rounds := EstimateDigit(w[n], w[n - 1], w[n - 2], d[n - 1], d[n - 2]);
    DigitIsClose(w, d, qhat);
    var borrow;
    u, borrow := MulSub(w, d, qhat);
    ValueBound(u);
    if borrow != 0 {
      SubtractedTooMuch(qhat, Value(d), Value(w), Value(u), BasePow(n + 1));
      qhat := qhat - 1;
      ghost var before := Value(u);
      ghost var dropped;
      u, dropped := AddBack(u, d);
      ValueBound(u);
      ValueBound(d);
      AddedBack(qhat, Value(d), Value(w), before, Value(u), BasePow(n + 1), dropped);
    } else {
      assert (qhat + 1) * Value(d) == qhat * Value(d) + Value(d);
    }
    q := qhat;
  }

  lemma TopLimbOrder(w: seq<Limb>, d: seq<Limb>)
    requires d != [] && |w| == |d| + 1 && Value(w) < BASE * Value(d)
    ensures w[|d|] <= d[|d| - 1]
  {
    TopSplit(w);
    TopSplit(d);
    ValueBound(d[..|d| - 1]);
    TopDigits(BasePow(|d| - 1), w[|d|], Value(w[..|d|]), d[|d| - 1], Value(d[..|d| - 1]));
  }

  lemma TopDigits(p: nat, x: nat, xl: nat, y: nat, yl: nat)
    requires yl < p && xl + (BASE * p) * x < BASE * (yl + p * y)
    ensures x <= y
  {
    assert p * (y + 1) == p * y + p;
    assert (BASE * p) * x == BASE * (p * x);
    if x >= y + 1 { MulMonotone(p, y + 1, p, x); }
  }

  lemma DigitIsClose(w: seq<Limb>, d: seq<Limb>, q: nat)
    requires Normalised(d) && |w| == |d| + 1 && Value(w) < BASE * Value(d)
    requires CappedQuotient(q, Three(w[|d|], w[|d| - 1], w[|d| - 2]), Two(d[|d| - 1], d[|d| - 2]))
    ensures Value(w) < (q + 1) * Value(d) && q * Value(d) < Value(w) + Value(d)
  {
    var n := |d|;
    TopThree(w);
    TopTwo(d);
    ValueBound(w[..n - 2]);
    ValueBound(d[..n - 2]);
    var t, two := Three(w[n], w[n - 1], w[n - 2]), Two(d[n - 1], d[n - 2]);
    var wl, dl := Value(w[..n - 2]), Value(d[..n - 2]);
    Rewritten(q, t, two, BasePow(n - 2), wl, dl, Value(w), Value(d));
  }

  lemma Rewritten(q: nat, t: nat, two: nat, p: nat, wl: nat, dl: nat, w: nat, d: nat)
    requires CappedQuotient(q, t, two) && two >= BASE && wl < p && dl < p
    requires w == t * p + wl && d == two * p + dl && w < BASE * d
    ensures w < (q + 1) * d && q * d < w + d
  {
    EstimateIsClose(q, t, two, p, wl, dl);
  }

  lemma SubtractedTooMuch(q: nat, d: nat, w: nat, u: nat, p: nat)
    requires u == w - q * d + p && u < p && q * d < w + d
    ensures q >= 1 && (q - 1) * d <= w < q * d
  {
    assert (q - 1) * d == q * d - d;
  }

  lemma AddedBack(q: nat, d: nat, w: nat, before: nat, after: nat, p: nat, dropped: nat)
    requires before == w - (q + 1) * d + p && after == before + d - p * dropped
    requires after < p && dropped <= 1 && q * d <= w < (q + 1) * d
    ensures w == q * d + after && after < d
  {
    assert (q + 1) * d == q * d + d;
  }

  // ─── D1: normalisation ──────────────────────────────────────────────

  /** `leading_zeros` of a non-zero limb. */
  function LeadingZeros(x: Limb): nat
    requires x > 0
    decreases BASE - x
  {
    if 2 * x >= BASE then 0 else 1 + LeadingZeros(2 * x)
  }

  lemma {:induction false} LeadingZerosShift(x: Limb)
    requires x > 0
    ensures BASE <= 2 * (x * Pow2(LeadingZeros(x))) < 2 * BASE
    decreases BASE - x
  {
    if 2 * x >= BASE {
    } else {
      LeadingZerosShift(2 * x);
      DoubleAlgebra(x, Pow2(LeadingZeros(2 * x)));
    }
  }

  lemma DoubleAlgebra(x: int, t: int)
    ensures (2 * x) * t == x * (2 * t)
  {
  }

  lemma NormalisingShift(x: Limb)
    requires x > 0
    ensures var s := LeadingZeros(x);
      s < 32 && BASE <= 2 * (x * Pow2(s)) && (x + 1) * Pow2(s) <= BASE
  {
    LeadingZerosShift(x);
    ShiftBelowWord(x, LeadingZeros(x));
    RoomForOneMore(x, LeadingZeros(x));
  }

  lemma ShiftBelowWord(x: nat, s: nat)
    requires x > 0 && x * Pow2(s) < BASE
    ensures s < 32
  {
    if s >= 32 {
      Pow2Words();
      if s > 32 { Pow2Monotone(32, s); }
      MulMonotone(1, Pow2(32), x, Pow2(s));
    }
  }

  lemma RoomForOneMore(x: nat, s: nat)
    requires s < 32 && x * Pow2(s) < BASE
    ensures (x + 1) * Pow2(s) <= BASE
  {
    LimbSplit(s);
    NextMultiple(x, Pow2(s), Pow2(32 - s), BASE);
  }

  lemma NextMultiple(x: nat, t: nat, u: nat, b: nat)
    requires t * u == b && x * t < b
    ensures (x + 1) * t <= b
  {
    if x >= u { MulMonotone(u, t, x, t); } else { MulMonotone(x + 1, t, u, t); }
  }

  /** Shifting the divisor by its leading zeros keeps its length and sets its top bit. */
  lemma NormalisedDivisor(den: seq<Limb>, dn: seq<Limb>, t: nat)
    requires |den| >= 2 && Trimmed(den) && Trimmed(dn) && Value(dn) == Value(den) * t
    requires BASE <= 2 * (den[|den| - 1] * t) && (den[|den| - 1] + 1) * t <= BASE
    ensures |dn| == |den| && Normalised(dn)
  {
    var n := |den|;
    var p, x := BasePow(n - 1), den[n - 1];
    TopSplit(den);
    ValueBound(den[..n - 1]);
    ShiftedBounds(p, x, t, Value(den[..n - 1]));
    assert BASE * p == BasePow(n);
    SizeFromValue(dn, n);
    TopSplit(dn);
    ValueBound(dn[..n - 1]);
    TopHalf(p, dn[n - 1], Value(dn[..n - 1]));
  }

  lemma ShiftedBounds(p: nat, x: nat, t: nat, low: nat)
    requires low < p && BASE <= 2 * (x * t) && (x + 1) * t <= BASE
    ensures BASE * p <= 2 * ((low + p * x) * t) && (low + p * x) * t < BASE * p
  {
    assert (low + p * x) * t == low * t + p * (x * t);
    ShiftedLower(p, x * t);
    ShiftedUpper(p, x * t, t, low, (x + 1) * t);
  }

  lemma ShiftedLower(p: nat, y: nat)
    requires BASE <= 2 * y
    ensures BASE * p <= 2 * (p * y)
  {
    MulMonotone(p, BASE, p, 2 * y);
  }

  lemma ShiftedUpper(p: nat, y: nat, t: nat, low: nat, z: nat)
    requires low < p && t > 0 && z == y + t && z <= BASE
    ensures low * t + p * y < BASE * p
  {
    MulMonotone(low + 1, t, p, t);
    assert (low + 1) * t == low * t + t;
    MulMonotone(p, z, p, BASE);
    assert p * z == p * y + p * t;
  }

  lemma SizeFromValue(a: seq<Limb>, n: nat)
    requires Trimmed(a) && n >= 1 && BasePow(n - 1) <= Value(a) < BasePow(n)
    ensures |a| == n
  {
    if |a| < n {
      ValueBound(a);
      BasePowAdd(|a|, n - 1 - |a|);
      MulAtLeast(BasePow(|a|), BasePow(n - 1 - |a|));
      assert false;
    } else if |a| > n {
      TrimmedAtLeast(a);
      BasePowAdd(n, |a| - 1 - n);
      MulAtLeast(BasePow(n), BasePow(|a| - 1 - n));
      assert false;
    }
  }

  lemma TopHalf(p: nat, x: nat, low: nat)
    requires low < p && BASE * p <= 2 * (low + p * x)
    ensures 2 * x >= BASE
  {
    assert p * (2 * x + 2) == 2 * (p * x) + 2 * p;
    if 2 * x + 1 < BASE {
      MulMonotone(p, 2 * x + 2, p, BASE);
    }
  }

  // ─── the whole division ─────────────────────────────────────────────

  /** D2 to D7: from the most significant quotient digit down, in place on `un`. */
  method DivDigits(num: seq<Limb>, d: seq<Limb>, m: nat) returns (q: seq<Limb>, un: seq<Limb>)
    requires Normalised(d) && |num| == m + |d| + 1 && Value(num[m + 1..]) < Value(d)
    ensures |un| == |num|
    ensures Value(num) == Value(q) * Value(d) + Value(un[..|d|]) && Value(un[..|d|]) < Value(d)
  {
    ghost var total := Value(num);
    un, q := num, [];
    var j := m + 1;
    WeighZero(j);
    while j > 0
      invariant 0 <= j <= m + 1 && |un| == |num|
      invariant total == Weigh(j, Value(q) * Value(d)) + Value(un)
      invariant Value(un[j..]) < Value(d)
    {
      j := j - 1;
      var digit;
      digit, un := DivAt(un, d, j);
      DigitDone(j, q, digit, Value(d));
      q := [digit] + q;
    }
    assert un[0..] == un;
    ValueBound(d);
    LowPart(un, |d|, Value(d));
  }

  /** One digit, in the window of limbs j to j + |d|. */
  method DivAt(un: seq<Limb>, d: seq<Limb>, j: nat) returns (digit: Limb, un': seq<Limb>)
    requires Normalised(d) && j + |d| + 1 <= |un| && Value(un[j + 1..]) < Value(d)
    ensures |un'| == |un| && Value(un'[j..]) < Value(d)
    ensures Value(un) == Value(un') + Weigh(j, digit * Value(d))
  {
    var lo, mid, hi := Cut(un, j, |d| + 1);
    AboveIsSmall(lo, mid, hi, d);
    var window;
    digit, window := DivDigit(mid, d);
    Spliced(lo, mid, window, hi, digit * Value(d));
    un' := lo + window + hi;
  }

  method Cut(a: seq<Limb>, j: nat, n: nat) returns (lo: seq<Limb>, mid: seq<Limb>, hi: seq<Limb>)
    requires j + n <= |a|
    ensures a == lo + mid + hi && |lo| == j && |mid| == n
  {
    lo, mid, hi := a[..j], a[j..j + n], a[j + n..];
  }

  /** The window of a digit is below BASE * d, and the limbs above it are zero. */
  lemma AboveIsSmall(lo: seq<Limb>, mid: seq<Limb>, hi: seq<Limb>, d: seq<Limb>)
    requires |mid| == |d| + 1 && Value((lo + mid + hi)[|lo| + 1..]) < Value(d)
    ensures Value(mid) < BASE * Value(d) && Value(hi) == 0
  {
    assert (lo + mid + hi)[|lo| + 1..] == mid[1..] + hi;
    ValueAppend(mid[1..], hi);
    ValueBound(d);
    NoRoomAbove(BasePow(|d|), Value(hi), Value(mid[1..]), Value(d));
  }

  lemma NoRoomAbove(p: nat, hi: nat, low: nat, d: nat)
    requires low + p * hi < d <= p
    ensures hi == 0 && p * hi == 0
  {
    if hi > 0 { MulAtLeast(p, hi); }
  }

  lemma DigitDone(j: nat, q: seq<Limb>, digit: Limb, d: nat)
    ensures Weigh(j + 1, Value(q) * d) + Weigh(j, digit * d) == Weigh(j, Value([digit] + q) * d)
  {
    ValueCons(digit, q);
    DigitPlaced(Value(q), Value([digit] + q), digit, d);
    WeighUp(j, Value(q) * d);
    WeighAdd(j, digit * d, BASE * (Value(q) * d));
  }

  /** BASE^j * v, without a product of two unknowns. */
  function Weigh(j: nat, v: nat): nat {
    if j == 0 then v else BASE * Weigh(j - 1, v)
  }

  lemma {:induction false} WeighAdd(j: nat, v: nat, w: nat)
    ensures Weigh(j, v + w) == Weigh(j, v) + Weigh(j, w)
  {
    if j == 0 {
    } else {
      WeighAdd(j - 1, v, w);
    }
  }

  lemma {:induction false} WeighUp(j: nat, v: nat)
    ensures Weigh(j + 1, v) == Weigh(j, BASE * v)
  {
    if j == 0 {
    } else {
      WeighUp(j - 1, v);
    }
  }

  lemma {:induction false} WeighZero(j: nat)
    ensures Weigh(j, 0) == 0
  {
    if j == 0 {
    } else {
      WeighZero(j - 1);
    }
  }

  lemma {:induction false} WeighAppend(a: seq<Limb>, b: seq<Limb>)
    ensures Value(a + b) == Value(a) + Weigh(|a|, Value(b))
  {
    if a == [] {
      assert a + b == b;
    } else {
      assert (a + b)[1..] == a[1..] + b;
      WeighAppend(a[1..], b);
    }
  }

  /** Replacing a window by one worth less, under zero limbs. */
  lemma Spliced(lo: seq<Limb>, mid: seq<Limb>, window: seq<Limb>, hi: seq<Limb>, taken: nat)
    requires Value(hi) == 0 && Value(mid) == taken + Value(window)
    ensures Value(lo + mid + hi) == Value(lo + window + hi) + Weigh(|lo|, taken)
    ensures Value((lo + window + hi)[|lo|..]) == Value(window)
  {
    assert (lo + window + hi)[|lo|..] == window + hi;
    UnderZeros(lo, mid, hi);
    UnderZeros(lo, window, hi);
    WeighAdd(|lo|, taken, Value(window));
  }

  lemma UnderZeros(lo: seq<Limb>, mid: seq<Limb>, hi: seq<Limb>)
    requires Value(hi) == 0
    ensures Value(lo + mid + hi) == Value(lo) + Weigh(|lo|, Value(mid))
    ensures Value(mid + hi) == Value(mid)
  {
    WeighAppend(mid, hi);
    WeighZero(|mid|);
    WeighAppend(lo, mid + hi);
    assert lo + mid + hi == lo + (mid + hi);
  }

  lemma DigitPlaced(q: nat, q': nat, digit: nat, d: nat)
    requires q' == digit + BASE * q
    ensures q' * d == digit * d + BASE * (q * d)
  {
  }

  lemma LowPart(un: seq<Limb>, n: nat, d: nat)
    requires n <= |un| && Value(un) < d <= BasePow(n)
    ensures Value(un[..n]) == Value(un)
  {
    assert un == un[..n] + un[n..];
    ValueAppend(un[..n], un[n..]);
    NoRoomAbove(BasePow(n), Value(un[n..]), Value(un[..n]), d);
  }

  /** `divmod_limbs`: Euclidean division of magnitudes. */
  method DivModLimbs(num: seq<Limb>, den: seq<Limb>) returns (q: seq<Limb>, r: seq<Limb>)
    requires Trimmed(num) && Trimmed(den) && den != []
    ensures Trimmed(q) && Trimmed(r)
    ensures Value(num) == Value(q) * Value(den) + Value(r) && Value(r) < Value(den)
  {
    var order := AbsCmp(num, den);
    if order == Less {
      r := Trim(num);
      return [], r;
    }
    if |den| == 1 {
      var rest;
      q, rest := DivModByLimb(num, den[0]);
      assert Value(den) == den[0];
      r := if rest == 0 then [] else [rest];
      return;
    }
    var n := |den|;
    if |num| < n { ShorterIsLess(num, den); }
    var m := |num| - n;
    var shift := LeadingZeros(den[n - 1]);
    NormalisingShift(den[n - 1]);
    var t := Pow2(shift);
    var dn := ShlSmall(den, shift);
    NormalisedDivisor(den, dn, t);
    var un := ShlSmall(num, shift);
    un := Resize(un, |num| + 1);
    TopIsSmall(num, den, un, t, m);
    q, un := DivDigits(un, dn, m);
    q := Trim(q);
    ghost var lost;
    r, lost := ShrSmall(un[..n], shift);
    Denormalised(t, Value(num), Value(den), Value(q), Value(r), lost);
  }

  /** `resize` with zeros at the top. */
  method Resize(a: seq<Limb>, n: nat) returns (r: seq<Limb>)
    requires |a| <= n
    ensures |r| == n && Value(r) == Value(a)
  {
    var zeros: seq<Limb> := seq(n - |a|, i => 0);
    ValueZeros(zeros);
    ValueAppend(a, zeros);
    r := a + zeros;
  }

  /** Before the first digit, the top of the shifted dividend is below the shifted divisor. */
  lemma TopIsSmall(num: seq<Limb>, den: seq<Limb>, un: seq<Limb>, t: nat, m: nat)
    requires Trimmed(den) && den != [] && |num| == m + |den| && |un| == |num| + 1 && t > 0
    requires Value(un) == Value(num) * t
    ensures Value(un[m + 1..]) < Value(den) * t
  {
    TopWeight(un, m + 1);
    FitsIn(num, m + 1, |den| - 1);
    TrimmedAtLeast(den);
    TopAlgebra(BasePow(m + 1), BasePow(|den| - 1), Value(un[m + 1..]), Value(num), Value(den), t);
  }

  lemma TopWeight(a: seq<Limb>, k: nat)
    requires k <= |a|
    ensures BasePow(k) * Value(a[k..]) <= Value(a)
  {
    assert a == a[..k] + a[k..];
    ValueAppend(a[..k], a[k..]);
  }

  lemma FitsIn(a: seq<Limb>, j: nat, k: nat)
    requires |a| == j + k
    ensures Value(a) < BasePow(j) * BasePow(k)
  {
    ValueBound(a);
    BasePowAdd(j, k);
  }

  lemma TopAlgebra(p: nat, p': nat, top: nat, num: nat, den: nat, t: nat)
    requires t > 0 && p > 0 && num < p * p' && p' <= den && p * top <= num * t
    ensures top < den * t
  {
    assert p * (p' * t) == (p * p') * t;
    assert (num + 1) * t == num * t + t;
    MulMonotone(num + 1, t, p * p', t);
    MulMonotone(p', t, den, t);
    MulMonotone(p, p' * t, p, den * t);
    if top >= den * t { MulMonotone(p, den * t, p, top); }
  }

  lemma Denormalised(t: nat, num: nat, den: nat, q: nat, r: nat, lost: nat)
    requires t > 0 && lost < t && num * t == q * (den * t) + (r * t + lost) && r * t + lost < den * t
    ensures num == q * den + r && r < den
  {
    var k := num - q * den - r;
    assert t * k == lost by {
      assert t * k == num * t - (q * den) * t - r * t;
      assert q * (den * t) == (q * den) * t;
    }
    MulAtLeast(t, k);
    assert r < den by {
      if r >= den { MulMonotone(den, t, r, t); }
    }
  }
}
