/**
 Bit reversal, zero counts from either end, and the rounding to powers of two.
 */
module BitScan {
  import opened Words

  // ---------- reversal ----------

  /** y holds the n low digits of x in the opposite order. */
  ghost predicate Mirrors(x: nat, y: nat, n: nat) {
    forall i: nat :: Bit(y, i) <==> i < n && Bit(x, n - 1 - i)
  }

  lemma {:induction false} ShrNext(x: nat, k: nat)
    ensures Shr(x, k + 1) == Shr(x, k) / 2
  {
    if k > 0 { ShrNext(x / 2, k - 1); }
  }

  lemma MirrorDigit(x: nat, y: nat, n: nat, i: nat)
    requires Mirrors(x, y, n)
    ensures Bit(2 * y + Shr(x, n) % 2, i) <==> i <= n && Bit(x, n - i)
  {
    ShrBit(x, n, 0);
    assert Pow2(1) == 2;
    ConcatBit(y, Shr(x, n) % 2, 1, i);
    if i > 0 { assert Bit(y, i - 1) <==> i - 1 < n && Bit(x, n - 1 - (i - 1)); }
  }

  lemma MirrorStep(x: nat, y: nat, n: nat)
    requires Mirrors(x, y, n)
    ensures Mirrors(x, 2 * y + Shr(x, n) % 2, n + 1)
  {
    var y' := 2 * y + Shr(x, n) % 2;
    forall i: nat ensures Bit(y', i) <==> i < n + 1 && Bit(x, n + 1 - 1 - i) {
      MirrorDigit(x, y, n, i);
    }
  }

  lemma {:induction false} Pow2Monotone(j: nat, k: nat)
    requires j <= k
    ensures Pow2(j) <= Pow2(k)
    ensures j < k ==> Pow2(j) < Pow2(k)
  {
    if j < k { Pow2Monotone(j, k - 1); }
  }

  lemma ReverseShift(y: nat, rest: nat, n: nat)
    requires y < Pow2(n) && n < 32
    ensures Or(y * 2 % TWO_32, And(rest, 1)) == 2 * y + rest % 2 < Pow2(n + 1) <= TWO_32
    ensures Shr(rest, 1) == rest / 2
  {
    Pow2Values();
    Pow2Monotone(n + 1, 32);
    QuotientUnique(y * 2, TWO_32, 0, y * 2);
    assert Pow2(1) == 2;
    MaskIsMod(rest, 1);
    OrIsConcat(y, rest % 2, 1);
  }

  method Reverse32(x: Word) returns (reversed: Word)
    ensures Mirrors(x, reversed, 32)
  {
    reversed := 0;
    var rest: Word := x;
    forall i: nat ensures !Bit(0, i) { ZeroBit(i); }
    Pow2Values();
    for i := 0 to 32
      invariant Mirrors(x, reversed, i) && reversed < Pow2(i)
      invariant rest == Shr(x, i)
    {
      MirrorStep(x, reversed, i);
      ShrNext(x, i);
      ReverseShift(reversed, rest, i);
      reversed := Or(reversed * 2 % TWO_32, And(rest, 1));
      rest := Shr(rest, 1);
    }
  }

  /** Reversing twice gives back the word. */
  lemma MirrorTwice(x: Word, y: nat, z: nat)
    requires Mirrors(x, y, 32) && Mirrors(y, z, 32)
    ensures z == x
  {
    Pow2Values();
    forall i: nat ensures Bit(z, i) == Bit(x, i) {
      assert Bit(z, i) <==> i < 32 && Bit(y, 31 - i);
      if i < 32 {
        assert Bit(y, 31 - i) <==> 31 - i < 32 && Bit(x, 31 - (31 - i));
      } else {
        HighBitsClear(x, 32, i);
      }
    }
    SameBitsSameNumber(z, x);
  }

  // ---------- zero counts ----------

  /** count zeros stand above the highest one of the 32 digits of x. */
  ghost predicate LeadingZeros(x: nat, count: nat) {
    && count <= 32
    && (forall i: nat | 32 - count <= i < 32 :: !Bit(x, i))
    && (count < 32 ==> Bit(x, 31 - count))
  }

  /** count zeros stand below the lowest one of the 32 digits of x. */
  ghost predicate TrailingZeros(x: nat, count: nat) {
    && count <= 32
    && (forall i: nat | i < count :: !Bit(x, i))
    && (count < 32 ==> Bit(x, count))
  }

  lemma TestBit(x: nat, k: nat)
    ensures And(x, Pow2(k)) == 0 <==> !Bit(x, k)
  {
    BitwiseBit(AndOp, x, Pow2(k), k);
    PowBit(k, k);
    ZeroBit(k);
    if !Bit(x, k) {
      forall i: nat ensures Bit(And(x, Pow2(k)), i) == Bit(0, i) {
        BitwiseBit(AndOp, x, Pow2(k), i);
        PowBit(k, i);
        ZeroBit(i);
      }
      SameBitsSameNumber(And(x, Pow2(k)), 0);
    }
  }

  lemma NoBitsIsZero(x: Word)
    requires forall i: nat | i < 32 :: !Bit(x, i)
    ensures x == 0
  {
    Pow2Values();
    forall i: nat ensures Bit(x, i) == Bit(0, i) {
      ZeroBit(i);
      if i >= 32 { HighBitsClear(x, 32, i); }
    }
    SameBitsSameNumber(x, 0);
  }

  lemma TopBit()
    ensures Pow2(31) == 0x8000_0000 && Pow2(32) == TWO_32
  {
    Pow2Values();
  }

  method Clz32(x: Word) returns (count: nat)
    ensures LeadingZeros(x, count)
  {
    if x == 0 {
      forall i: nat ensures !Bit(0, i) { ZeroBit(i); }
      return 32;
    }
    count := 0;
    var mask: nat := 0x8000_0000;
    TopBit();
    TestBit(x, 31);
    while And(x, mask) == 0
      invariant count <= 31 && mask == Pow2(31 - count)
      invariant And(x, mask) == 0 <==> !Bit(x, 31 - count)
      invariant forall i: nat | 32 - count <= i < 32 :: !Bit(x, i)
      decreases 32 - count
    {
      if count == 31 {
        NoBitsIsZero(x);
        assert false;
      }
      assert Shr(mask, 1) == mask / 2;
      mask := Shr(mask, 1);
      count := count + 1;
      TestBit(x, 31 - count);
    }
  }

  method Ctz32(x: Word) returns (count: nat)
    ensures TrailingZeros(x, count)
  {
    if x == 0 {
      forall i: nat ensures !Bit(0, i) { ZeroBit(i); }
      return 32;
    }
    count := 0;
    var rest: Word := x;
    ShiftedBit(x, 0);
    while And(rest, 1) == 0
      invariant count <= 31 && rest == Shr(x, count)
      invariant And(rest, 1) == 0 <==> !Bit(x, count)
      invariant forall i: nat | i < count :: !Bit(x, i)
      decreases 32 - count
    {
      if count == 31 {
        NoBitsIsZero(x);
        assert false;
      }
      ShrNext(x, count);
      assert Shr(rest, 1) == rest / 2;
      rest := Shr(rest, 1);
      count := count + 1;
      ShiftedBit(x, count);
    }
  }

  /** Each zero count of a word is the other zero count of its mirror image. */
  lemma ZerosMirrored(x: nat, y: nat, count: nat)
    requires Mirrors(x, y, 32)
    ensures LeadingZeros(x, count) <==> TrailingZeros(y, count)
  {
    if count <= 32 {
      assert forall i: nat | i < 32 :: Bit(y, i) <==> Bit(x, 31 - i);
      if LeadingZeros(x, count) {
        assert TrailingZeros(y, count);
      }
      if TrailingZeros(y, count) {
        forall i: nat | 32 - count <= i < 32 ensures !Bit(x, i) {
          assert 31 - (31 - i) == i;
          assert !Bit(y, 31 - i);
        }
      }
    }
  }

  /** A word has one trailing count. */
  lemma TrailingUnique(x: nat, a: nat, b: nat)
    requires TrailingZeros(x, a) && TrailingZeros(x, b)
    ensures a == b
  {
  }

  // ---------- powers of two ----------

  predicate IsPow2(x: nat) { x != 0 && And(x, x - 1) == 0 }

  /** x with every digit also copied k places down. */
  function Smear(x: nat, k: nat): nat { Or(x, Shr(x, k)) }

  function SmearAll(x: nat): nat { Smear(Smear(Smear(Smear(Smear(x, 1), 2), 4), 8), 16) }

  function FloorPow2(x: Word): int {
    if x == 0 then 0
    else
      var y := SmearAll(x);
      y - Shr(y, 1)
  }

  function CeilPow2(x: Word): int {
    if x <= 1 then 1
    else if x > 0x8000_0000 then 0
    else FloorPow2(x - 1) * 2 % TWO_32
  }

  /** One of the m digits of x from i upwards is set. */
  ghost predicate SomeDigit(x: nat, i: nat, m: nat) { exists j: nat :: i <= j < i + m && Bit(x, j) }

  /** Digit i of y is set when x has a digit set among i .. i + m - 1. */
  ghost predicate Covers(x: nat, y: nat, m: nat) {
    forall i: nat :: Bit(y, i) <==> SomeDigit(x, i, m)
  }

  lemma SmearDoubles(x: nat, y: nat, m: nat)
    requires Covers(x, y, m)
    ensures Covers(x, Smear(y, m), 2 * m)
  {
    forall i: nat ensures Bit(Smear(y, m), i) <==> SomeDigit(x, i, 2 * m) {
      BitwiseBit(OrOp, y, Shr(y, m), i);
      ShrBit(y, m, i);
      assert Bit(y, i) <==> SomeDigit(x, i, m);
      assert Bit(y, i + m) <==> SomeDigit(x, i + m, m);
    }
  }

  lemma TopDigit(x: nat, h: nat)
    requires Pow2(h) <= x < Pow2(h + 1)
    ensures Bit(x, h)
  {
    if !Bit(x, h) {
      forall i: nat | i >= h ensures !Bit(x, i) {
        if i > h { HighBitsClear(x, h + 1, i); }
      }
      BitsBound(x, h);
    }
  }

  lemma FullCover(x: Word, y: nat, h: nat)
    requires Pow2(h) <= x < Pow2(h + 1) && Covers(x, y, 32)
    ensures y == Pow2(h + 1) - 1
  {
    TopDigit(x, h);
    Pow2Values();
    if h >= 32 {
      Pow2Monotone(32, h);
      assert false;
    }
    forall i: nat ensures Bit(y, i) == Bit(Pow2(h + 1) - 1, i) {
      OnesBit(h + 1, i);
      assert Bit(y, i) <==> SomeDigit(x, i, 32);
      if i > h {
        forall j: nat | j >= i ensures !Bit(x, j) { HighBitsClear(x, h + 1, j); }
      }
    }
    SameBitsSameNumber(y, Pow2(h + 1) - 1);
  }

  /** After the five steps every digit at or below the highest one is set. */
  lemma SmearFills(x: Word, h: nat)
    requires Pow2(h) <= x < Pow2(h + 1)
    ensures SmearAll(x) == Pow2(h + 1) - 1
  {
    assert Covers(x, x, 1);
    SmearDoubles(x, x, 1);
    var y1 := Smear(x, 1);
    SmearDoubles(x, y1, 2);
    var y2 := Smear(y1, 2);
    SmearDoubles(x, y2, 4);
    var y4 := Smear(y2, 4);
    SmearDoubles(x, y4, 8);
    var y8 := Smear(y4, 8);
    SmearDoubles(x, y8, 16);
    FullCover(x, Smear(y8, 16), h);
  }

  lemma {:induction false} Magnitude(x: nat) returns (h: nat)
    requires x > 0
    ensures Pow2(h) <= x < Pow2(h + 1)
  {
    if x == 1 {
      h := 0;
    } else {
      h := Magnitude(x / 2);
      h := h + 1;
    }
  }

  /** The smeared word minus its half is the highest digit alone. */
  lemma FloorIsTopDigit(x: Word, h: nat)
    requires Pow2(h) <= x < Pow2(h + 1)
    ensures FloorPow2(x) == Pow2(h)
  {
    SmearFills(x, h);
    var y := SmearAll(x);
    assert Shr(y, 1) == y / 2;
    QuotientUnique(y, 2, Pow2(h) - 1, 1);
  }

  /** floor_pow2 is 0 for 0, otherwise the greatest power of two that is not above x. */
  lemma FloorIsGreatest(x: Word, k: nat)
    ensures FloorPow2(x) == 0 <==> x == 0
    ensures x > 0 ==> FloorPow2(x) <= x && exists h: nat :: FloorPow2(x) == Pow2(h)
    ensures Pow2(k) <= x <==> Pow2(k) <= FloorPow2(x)
  {
    if x > 0 {
      var h := Magnitude(x);
      FloorIsTopDigit(x, h);
      if k <= h { Pow2Monotone(k, h); } else { Pow2Monotone(h + 1, k); }
    }
  }

  lemma CeilInRange(x: Word) returns (h: nat)
    requires 1 < x <= 0x8000_0000
    ensures h >= 1 && CeilPow2(x) == Pow2(h) && Pow2(h - 1) < x <= Pow2(h) < TWO_32
  {
    TopBit();
    var g := Magnitude(x - 1);
    FloorIsTopDigit(x - 1, g);
    if g >= 31 {
      Pow2Monotone(31, g);
      assert false;
    }
    Pow2Monotone(g + 1, 31);
    QuotientUnique(Pow2(g) * 2, TWO_32, 0, Pow2(g) * 2);
    h := g + 1;
  }

  lemma NothingAbove(x: Word, h: nat)
    requires x > 0x8000_0000 && Pow2(h) < TWO_32
    ensures Pow2(h) < x
  {
    TopBit();
    if h > 31 { Pow2Monotone(32, h); } else { Pow2Monotone(h, 31); }
  }

  /** All powers of two that fit a word are below x. */
  ghost predicate OutOfReach(x: nat) { forall h: nat | Pow2(h) < TWO_32 :: Pow2(h) < x }

  /** ceil_pow2 is 0 when no power of two that fits a word reaches x, otherwise the least that does. */
  lemma CeilIsLeast(x: Word, k: nat)
    ensures CeilPow2(x) == 0 <==> OutOfReach(x)
    ensures CeilPow2(x) != 0 ==> exists h: nat :: CeilPow2(x) == Pow2(h)
    ensures CeilPow2(x) != 0 ==> (Pow2(k) >= x <==> Pow2(k) >= CeilPow2(x))
  {
    if x <= 1 {
      assert Pow2(0) == 1 && !(Pow2(0) < x);
    } else if x > 0x8000_0000 {
      forall h: nat | Pow2(h) < TWO_32 { NothingAbove(x, h); }
    } else {
      var h := CeilInRange(x);
      if k < h { Pow2Monotone(k, h - 1); } else { Pow2Monotone(h, k); }
    }
  }

  lemma CeilReaches(x: Word, k: nat)
    requires x == Pow2(k)
    ensures CeilPow2(x) == x
  {
    CeilIsLeast(x, k);
    assert CeilPow2(x) != 0;
    var h: nat :| CeilPow2(x) == Pow2(h);
    CeilIsLeast(x, h);
  }

  /** Three tests for a power of two agree; 0, its own floor, has to be ruled out for one. */
  lemma Pow2Tests(x: Word)
    ensures IsPow2(x) <==> exists k: nat :: x == Pow2(k)
    ensures IsPow2(x) <==> x != 0 && FloorPow2(x) == x
    ensures IsPow2(x) <==> CeilPow2(x) == x
  {
    if x > 0 { OneBitIffPow2(x); }
    if IsPow2(x) {
      var k: nat :| x == Pow2(k);
      FloorIsGreatest(x, k);
      CeilReaches(x, k);
    }
    FloorIsGreatest(x, 0);
    CeilIsLeast(x, 0);
  }
}
