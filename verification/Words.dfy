/**
 The C unsigned arithmetic shared by the models: a `uint32_t` is a natural number below
 2^32 whose wrap-around is written out, and the bitwise operators are defined on the
 binary digits of naturals, so that facts about them are proved by induction on digits.
 */
module Words {

  const TWO_32: nat := 0x1_0000_0000

  /** The values of a `uint32_t`. */
  type Word = x: int | 0 <= x < TWO_32

  const MAX_INT: int := 0x7FFF_FFFF

  /** The values of an `int`. */
  type Int = x: int | -MAX_INT - 1 <= x <= MAX_INT

  function Pow2(k: nat): (p: nat)
    ensures p >= 1
  {
    if k == 0 then 1 else 2 * Pow2(k - 1)
  }

  /** Binary digit i of x, the least significant digit being number 0. */
  predicate Bit(x: nat, i: nat) {
    if i == 0 then x % 2 == 1 else Bit(x / 2, i - 1)
  }

  datatype BitOp = AndOp | OrOp | XorOp {
    predicate Apply(p: bool, q: bool) {
      match this
      case AndOp => p && q
      case OrOp => p || q
      case XorOp => p != q
    }
  }

  /** Applies op digit by digit. */
  function Bitwise(op: BitOp, a: nat, b: nat): nat
    decreases a + b
  {
    if a == 0 && b == 0 then 0
    else (if op.Apply(a % 2 == 1, b % 2 == 1) then 1 else 0) + 2 * Bitwise(op, a / 2, b / 2)
  }

  function And(a: nat, b: nat): nat { Bitwise(AndOp, a, b) }

  function Or(a: nat, b: nat): nat { Bitwise(OrOp, a, b) }

  function Xor(a: nat, b: nat): nat { Bitwise(XorOp, a, b) }

  // ---------- digits determine a number ----------

  lemma {:induction false} ZeroBit(i: nat)
    ensures !Bit(0, i)
  {
    if i > 0 { ZeroBit(i - 1); }
  }

  lemma Halve(x: nat, q: nat, r: nat)
    requires r < 2 && x == 2 * q + r
    ensures x / 2 == q && x % 2 == r
  {
  }

  lemma NextParity(q: nat)
    ensures (q + 1) % 2 == 1 - q % 2
  {
    var h, p := q / 2, q % 2;
    if p == 1 { Halve(q + 1, h + 1, 0); } else { Halve(q + 1, h, 1); }
  }

  /** The lowest digits are combined on their own. */
  lemma BitwiseStep(op: BitOp, a: nat, p: nat, b: nat, q: nat)
    requires p < 2 && q < 2 && !op.Apply(false, false)
    ensures Bitwise(op, 2 * a + p, 2 * b + q) ==
      2 * Bitwise(op, a, b) + if op.Apply(p == 1, q == 1) then 1 else 0
  {
    Halve(2 * a + p, a, p);
    Halve(2 * b + q, b, q);
  }

  lemma {:induction false} BitwiseBit(op: BitOp, a: nat, b: nat, i: nat)
    ensures Bit(Bitwise(op, a, b), i) == op.Apply(Bit(a, i), Bit(b, i))
    decreases i
  {
    if a == 0 && b == 0 {
      ZeroBit(i);
    } else {
      var low := if op.Apply(a % 2 == 1, b % 2 == 1) then 1 else 0;
      var rest := Bitwise(op, a / 2, b / 2);
      assert (low + 2 * rest) / 2 == rest && (low + 2 * rest) % 2 == low;
      if i > 0 { BitwiseBit(op, a / 2, b / 2, i - 1); }
    }
  }

  lemma BitwiseBits(op: BitOp, a: nat, b: nat)
    ensures forall i: nat :: Bit(Bitwise(op, a, b), i) == op.Apply(Bit(a, i), Bit(b, i))
  {
    forall i: nat ensures Bit(Bitwise(op, a, b), i) == op.Apply(Bit(a, i), Bit(b, i)) {
      BitwiseBit(op, a, b, i);
    }
  }

  lemma {:induction false} SameBitsSameNumber(a: nat, b: nat)
    requires forall i: nat :: Bit(a, i) == Bit(b, i)
    ensures a == b
    decreases a + b
  {
    assert Bit(a, 0) == Bit(b, 0);
    if a + b > 0 {
      forall i: nat ensures Bit(a / 2, i) == Bit(b / 2, i) {
        assert Bit(a, i + 1) == Bit(b, i + 1);
      }
      SameBitsSameNumber(a / 2, b / 2);
    }
  }

  // ---------- powers of two, shifts and masks ----------

  lemma {:induction false} Pow2Adds(j: nat, k: nat)
    ensures Pow2(j + k) == Pow2(j) * Pow2(k)
  {
    if j > 0 { Pow2Adds(j - 1, k); }
  }

  lemma Pow2Values()
    ensures Pow2(8) == 0x100 && Pow2(12) == 0x1000 && Pow2(16) == 0x1_0000
    ensures Pow2(20) == 0x10_0000 && Pow2(32) == TWO_32
  {
    assert Pow2(4) == 16;
    Pow2Adds(4, 4);
    Pow2Adds(4, 8);
    Pow2Adds(8, 8);
    Pow2Adds(8, 12);
    Pow2Adds(16, 16);
  }

  /** x shifted right by k digits. */
  function Shr(x: nat, k: nat): nat {
    if k == 0 then x else Shr(x / 2, k - 1)
  }

  lemma {:induction false} ShrBit(x: nat, k: nat, i: nat)
    ensures Bit(Shr(x, k), i) == Bit(x, i + k)
    decreases k
  {
    if k > 0 { ShrBit(x / 2, k - 1, i); }
  }

  lemma {:induction false} ShrIsUnique(x: nat, k: nat, q: nat, r: nat)
    requires r < Pow2(k) && x == r + Pow2(k) * q
    ensures Shr(x, k) == q
    decreases k
  {
    if k > 0 {
      var p := Pow2(k - 1);
      assert x == r + 2 * (p * q);
      ShrIsUnique(x / 2, k - 1, q, r / 2);
    }
  }

  lemma MulDouble(m: nat, p: nat)
    ensures m * (2 * p) == 2 * (m * p)
  {
  }

  lemma {:induction false} MulMonotone(d: nat, a: nat, b: nat)
    requires a <= b
    ensures d * a <= d * b
  {
    if d > 0 { MulMonotone(d - 1, a, b); }
  }

  lemma QuotientUnique(x: nat, d: nat, q: int, r: nat)
    requires 0 <= r < d && x == d * q + r
    ensures x / d == q && x % d == r
  {
    if q < 0 { MulMonotone(d, 1, -q); }
    var q', r' := x / d, x % d;
    assert x == d * q' + r';
    if q > q' { MulMonotone(d, q' + 1, q); }
    if q < q' { MulMonotone(d, q + 1, q'); }
  }

  // ---------- remainders ----------

  lemma DivMod(x: nat, d: nat) returns (q: nat, r: nat)
    requires d >= 1
    ensures x == q * d + r == d * q + r && r < d && q == x / d && r == x % d
  {
    q, r := x / d, x % d;
  }

  lemma ModBelow(x: nat, m: nat)
    requires m >= 1
    ensures x % m <= x
  {
    var q, r := DivMod(x, m);
    MulMonotone(m, 0, q);
  }

  lemma ModOfNext(x: nat, m: nat)
    requires m >= 1
    ensures (x % m + 1) % m == (x + 1) % m
  {
    var q, r := DivMod(x, m);
    if r + 1 < m {
      QuotientUnique(x + 1, m, q, r + 1);
      QuotientUnique(r + 1, m, 0, r + 1);
    } else {
      assert m * (q + 1) == m * q + m;
      QuotientUnique(x + 1, m, q + 1, 0);
      QuotientUnique(r + 1, m, 1, 0);
    }
  }

  lemma ModOfMod(x: nat, m: nat)
    requires m >= 1
    ensures x % (2 * m) % m == x % m
  {
    var q, r := DivMod(x, 2 * m);
    assert x == m * (2 * q) + r;
    if r < m {
      QuotientUnique(x, m, 2 * q, r);
    } else {
      assert x == m * (2 * q + 1) + (r - m);
      QuotientUnique(x, m, 2 * q + 1, r - m);
      QuotientUnique(r, m, 1, r - m);
    }
  }

  /** Numbers leave one remainder exactly when it divides their distance. */
  lemma ModOfDistance(a: nat, d: nat, m: nat)
    requires m >= 1
    ensures a % m == (a + d) % m <==> d % m == 0
  {
    var q, r := DivMod(a, m);
    var q', r' := DivMod(d, m);
    if r + r' < m {
      assert a + d == m * (q + q') + (r + r');
      QuotientUnique(a + d, m, q + q', r + r');
    } else {
      assert a + d == m * (q + q' + 1) + (r + r' - m);
      QuotientUnique(a + d, m, q + q' + 1, r + r' - m);
    }
  }

  lemma SameRemainder(x: nat, m: nat, q: nat, q': nat, r: nat)
    requires r < m && x == q * m + q' * m + r
    ensures x % m == r
  {
    assert x == m * (q + q') + r;
    QuotientUnique(x, m, q + q', r);
  }

  lemma ModOfSum(x: nat, y: nat, m: nat)
    requires m >= 1
    ensures (x % m + y) % m == (x + y) % m
  {
    var q, r := DivMod(x, m);
    var q', r' := DivMod(r + y, m);
    SameRemainder(x + y, m, q, q', r');
  }

  /** Numbers less than m apart are told apart by their remainders. */
  lemma ModDistinguishes(a: nat, b: nat, m: nat)
    requires a <= b < a + m
    ensures a % m == b % m <==> a == b
  {
    var q, r := DivMod(a, m);
    var q', r' := DivMod(b, m);
    if q' < q { MulMonotone(m, q' + 1, q); }
    if q < q' { MulMonotone(m, q + 1, q'); }
  }

  /** The digits of hi * 2^k + lo are those of lo below k and those of hi from k on. */
  lemma {:induction false} ConcatBit(hi: nat, lo: nat, k: nat, i: nat)
    requires lo < Pow2(k)
    ensures Bit(hi * Pow2(k) + lo, i) == if i < k then Bit(lo, i) else Bit(hi, i - k)
    decreases k
  {
    if k > 0 {
      var x := hi * Pow2(k) + lo;
      assert x == 2 * (hi * Pow2(k - 1)) + lo;
      assert x / 2 == hi * Pow2(k - 1) + lo / 2 && x % 2 == lo % 2;
      if i > 0 { ConcatBit(hi, lo / 2, k - 1, i - 1); }
    }
  }

  lemma {:induction false} OnesBit(k: nat, i: nat)
    ensures Bit(Pow2(k) - 1, i) == (i < k)
    decreases k
  {
    if k == 0 {
      ZeroBit(i);
    } else if i > 0 {
      assert (Pow2(k) - 1) / 2 == Pow2(k - 1) - 1;
      OnesBit(k - 1, i - 1);
    }
  }

  lemma {:induction false} PowBit(k: nat, i: nat)
    ensures Bit(Pow2(k), i) == (i == k)
    decreases k
  {
    if k == 0 {
      if i > 0 { ZeroBit(i - 1); }
    } else if i > 0 {
      PowBit(k - 1, i - 1);
    }
  }

  lemma {:induction false} HighBitsClear(x: nat, k: nat, i: nat)
    requires x < Pow2(k) && i >= k
    ensures !Bit(x, i)
    decreases k
  {
    if k == 0 {
      ZeroBit(i);
    } else {
      HighBitsClear(x / 2, k - 1, i - 1);
    }
  }

  lemma {:induction false} BitsBound(x: nat, k: nat)
    requires forall i: nat | i >= k :: !Bit(x, i)
    ensures x < Pow2(k)
    decreases k
  {
    if k == 0 {
      forall i: nat ensures Bit(x, i) == Bit(0, i) { ZeroBit(i); }
      SameBitsSameNumber(x, 0);
    } else {
      forall i: nat | i >= k - 1 ensures !Bit(x / 2, i) {
        assert !Bit(x, i + 1);
      }
      BitsBound(x / 2, k - 1);
    }
  }

  lemma BitwiseBound(op: BitOp, a: nat, b: nat, k: nat)
    requires a < Pow2(k) && b < Pow2(k)
    ensures Bitwise(op, a, b) < Pow2(k)
  {
    forall i: nat | i >= k ensures !Bit(Bitwise(op, a, b), i) {
      HighBitsClear(a, k, i);
      HighBitsClear(b, k, i);
      BitwiseBit(op, a, b, i);
    }
    BitsBound(Bitwise(op, a, b), k);
  }

  lemma AndBound(a: nat, b: nat, k: nat)
    requires a < Pow2(k)
    ensures And(a, b) < Pow2(k)
  {
    forall i: nat | i >= k ensures !Bit(And(a, b), i) {
      HighBitsClear(a, k, i);
      BitwiseBit(AndOp, a, b, i);
    }
    BitsBound(And(a, b), k);
  }

  lemma MaskConcat(hi: nat, lo: nat, k: nat)
    requires lo < Pow2(k)
    ensures And(hi * Pow2(k) + lo, Pow2(k) - 1) == lo
  {
    var x := hi * Pow2(k) + lo;
    forall i: nat ensures Bit(And(x, Pow2(k) - 1), i) == Bit(lo, i) {
      BitwiseBit(AndOp, x, Pow2(k) - 1, i);
      OnesBit(k, i);
      ConcatBit(hi, lo, k, i);
      if i >= k { HighBitsClear(lo, k, i); }
    }
    SameBitsSameNumber(And(x, Pow2(k) - 1), lo);
  }

  /** Masking with 2^k - 1 is the remainder modulo 2^k. */
  lemma MaskIsMod(x: nat, k: nat)
    ensures And(x, Pow2(k) - 1) == x % Pow2(k)
  {
    var q, r := DivMod(x, Pow2(k));
    MaskConcat(q, r, k);
  }

  lemma ShiftedBit(x: nat, k: nat)
    ensures And(Shr(x, k), 1) == if Bit(x, k) then 1 else 0
  {
    ShrBit(x, k, 0);
    assert Pow2(1) - 1 == 1;
    MaskIsMod(Shr(x, k), 1);
  }

  lemma AndEven(x: nat, y: nat)
    ensures And(x, 2 * y) == 2 * And(x / 2, y)
  {
    assert 2 * y / 2 == y;
  }

  lemma OrConcatBit(hi: nat, lo: nat, k: nat, i: nat)
    requires lo < Pow2(k)
    ensures Bit(Or(hi * Pow2(k), lo), i) == Bit(hi * Pow2(k) + lo, i)
  {
    BitwiseBit(OrOp, hi * Pow2(k), lo, i);
    ConcatBit(hi, lo, k, i);
    ConcatBit(hi, 0, k, i);
    ZeroBit(i);
    if i >= k { HighBitsClear(lo, k, i); }
  }

  /** OR-ing a number into digits that are all zero adds it. */
  lemma OrIsConcat(hi: nat, lo: nat, k: nat)
    requires lo < Pow2(k)
    ensures Or(hi * Pow2(k), lo) == hi * Pow2(k) + lo
  {
    forall i: nat ensures Bit(Or(hi * Pow2(k), lo), i) == Bit(hi * Pow2(k) + lo, i) {
      OrConcatBit(hi, lo, k, i);
    }
    SameBitsSameNumber(Or(hi * Pow2(k), lo), hi * Pow2(k) + lo);
  }

  lemma {:induction false} AndSelf(x: nat)
    ensures And(x, x) == x
  {
    if x > 0 { AndSelf(x / 2); }
  }

  lemma {:induction false} Exponent(d: nat) returns (k: nat)
    requires d >= 1 && And(d, d - 1) == 0
    ensures d == Pow2(k)
  {
    if d == 1 {
      k := 0;
    } else {
      var h, p := d / 2, d % 2;
      assert d == 2 * h + p;
      if p == 1 {
        BitwiseStep(AndOp, h, 1, h, 0);
        AndSelf(h);
      } else {
        BitwiseStep(AndOp, h, 0, h - 1, 1);
      }
      k := Exponent(h);
      k := k + 1;
    }
  }

  lemma {:induction false} Pow2HasOneBit(k: nat)
    ensures And(Pow2(k), Pow2(k) - 1) == 0
  {
    if k > 0 {
      Pow2HasOneBit(k - 1);
      BitwiseStep(AndOp, Pow2(k - 1), 0, Pow2(k - 1) - 1, 1);
    }
  }

  /** Clearing the lowest set digit leaves nothing exactly for the powers of two. */
  lemma OneBitIffPow2(d: nat)
    requires d >= 1
    ensures And(d, d - 1) == 0 <==> exists k: nat :: d == Pow2(k)
  {
    if And(d, d - 1) == 0 { var k := Exponent(d); }
    if k: nat :| d == Pow2(k) { Pow2HasOneBit(k); }
  }

  // ---------- exclusive or ----------

  lemma XorCommutes(a: nat, b: nat)
    ensures Xor(a, b) == Xor(b, a)
  {
    BitwiseBits(XorOp, a, b);
    BitwiseBits(XorOp, b, a);
    SameBitsSameNumber(Xor(a, b), Xor(b, a));
  }

  lemma XorAssociates(a: nat, b: nat, c: nat)
    ensures Xor(Xor(a, b), c) == Xor(a, Xor(b, c))
  {
    BitwiseBits(XorOp, a, b);
    BitwiseBits(XorOp, b, c);
    BitwiseBits(XorOp, Xor(a, b), c);
    BitwiseBits(XorOp, a, Xor(b, c));
    SameBitsSameNumber(Xor(Xor(a, b), c), Xor(a, Xor(b, c)));
  }

  lemma {:induction false} XorSelf(a: nat)
    ensures Xor(a, a) == 0
  {
    if a > 0 { XorSelf(a / 2); }
  }

  lemma {:induction false} XorZero(a: nat)
    ensures Xor(a, 0) == a && Xor(0, a) == a
  {
    if a > 0 { XorZero(a / 2); }
  }
}
