/**
 The population count of a word by two routes: a loop that clears one digit at a time, and
 the parallel count in fields of 2, 4 and 8 digits.
 */
module BitOps {
  import opened Words

  // ---------- population count ----------

  /** The number of set digits. */
  function Ones(x: nat): nat {
    if x == 0 then 0 else x % 2 + Ones(x / 2)
  }

  /** Masking x with x - 1 clears exactly one set digit. */
  lemma {:induction false} ClearLowest(x: nat)
    requires x > 0
    ensures And(x, x - 1) < x && Ones(And(x, x - 1)) == Ones(x) - 1
  {
    var h := x / 2;
    if x % 2 == 1 {
      assert (x - 1) / 2 == h;
      AndSelf(h);
      assert And(x, x - 1) == 2 * h;
      assert 2 * h / 2 == h;
    } else {
      ClearLowest(h);
      assert (x - 1) / 2 == h - 1;
      assert And(x, x - 1) == 2 * And(h, h - 1);
      assert 2 * And(h, h - 1) / 2 == And(h, h - 1);
    }
  }

  method PopcountKern(x: Word) returns (count: nat)
    ensures count == Ones(x)
  {
    count := 0;
    var rest: Word := x;
    while rest != 0
      invariant count + Ones(rest) == Ones(x)
      decreases rest
    {
      ClearLowest(rest);
      rest := And(rest, rest - 1);
      count := count + 1;
    }
  }

  // The statements of the parallel count, with each uint32_t wrap-around written out.

  function SwarPairs(x: Word): Word { (x - And(Shr(x, 1), 0x55555555)) % TWO_32 }

  function SwarNibbles(x: Word): Word { (And(x, 0x33333333) + And(Shr(x, 2), 0x33333333)) % TWO_32 }

  function SwarBytes(x: Word): nat { And((x + Shr(x, 4)) % TWO_32, 0x0F0F0F0F) }

  function PopcountSwar(x: Word): nat {
    Shr(SwarBytes(SwarNibbles(SwarPairs(x))) * 0x01010101 % TWO_32, 24)
  }

  /** The number whose n digits in the given base are all v. */
  function Repeat(v: nat, base: nat, n: nat): nat {
    if n == 0 then 0 else v + base * Repeat(v, base, n - 1)
  }

  // n fields of 2, 4 or 8 digits; every field holds the bit count of that field of x.

  function PairCounts(x: nat, n: nat): nat {
    if n == 0 then 0 else Ones(x % 4) + 4 * PairCounts(x / 4, n - 1)
  }

  function NibbleCounts(x: nat, n: nat): nat {
    if n == 0 then 0 else Ones(x % 16) + 16 * NibbleCounts(x / 16, n - 1)
  }

  function ByteCounts(x: nat, n: nat): nat {
    if n == 0 then 0 else Ones(x % 256) + 256 * ByteCounts(x / 256, n - 1)
  }

  lemma AndDigit(h: nat, b: nat, y: nat)
    requires b < 2
    ensures And(2 * h + b, 2 * y + 1) == 2 * And(h, y) + b
    ensures And(2 * h + b, 2 * y) == 2 * And(h, y)
  {
    BitwiseStep(AndOp, h, b, y, 1);
    BitwiseStep(AndOp, h, b, y, 0);
  }

  /** A mask of two ones, of two zeros, and of a one and a zero below the digits of y. */
  lemma AndPair(h: nat, p: nat, y: nat)
    requires p < 4
    ensures And(4 * h + p, 3 + 4 * y) == p + 4 * And(h, y)
    ensures And(4 * h + p, 4 * y) == 4 * And(h, y)
    ensures And(4 * h + p, 1 + 4 * y) == p % 2 + 4 * And(h, y)
  {
    var b, a := p / 2, p % 2;
    assert 4 * h + p == 2 * (2 * h + b) + a;
    AndDigit(2 * h + b, a, 2 * y);
    AndDigit(2 * h + b, a, 2 * y + 1);
    AndDigit(h, b, y);
  }

  lemma AndLowPair(h: nat, b: nat, a: nat, y: nat)
    requires b < 4 && a < 4
    ensures And(16 * h + 4 * b + a, 3 + 16 * y) == a + 16 * And(h, y)
  {
    AndPair(4 * h + b, a, 4 * y);
    AndPair(h, b, y);
  }

  lemma AndHigh(h: nat, m: nat, y: nat)
    requires m < 16
    ensures And(16 * h + m, 16 * y) == 16 * And(h, y)
  {
    var b, a := m / 4, m % 4;
    assert 16 * h + m == 4 * (4 * h + b) + a;
    AndPair(4 * h + b, a, 4 * y);
    AndPair(h, b, y);
  }

  lemma AndLowNibble(h: nat, m: nat, l: nat, y: nat)
    requires m < 16 && l < 16
    ensures And(256 * h + 16 * m + l, 15 + 256 * y) == l + 256 * And(h, y)
  {
    var b, a := l / 4, l % 4;
    assert 256 * h + 16 * m + l == 4 * (4 * (16 * h + m) + b) + a;
    AndPair(4 * (16 * h + m) + b, a, 3 + 64 * y);
    AndPair(16 * h + m, b, 16 * y);
    AndHigh(h, m, y);
  }

  lemma OnesDigit(h: nat, b: nat)
    requires b < 2
    ensures Ones(2 * h + b) == Ones(h) + b
  {
    Halve(2 * h + b, h, b);
  }

  /** x shifted left by k digits. */
  function Shifted(x: nat, k: nat): nat {
    if k == 0 then x else 2 * Shifted(x, k - 1)
  }

  lemma ShiftedValues(x: nat)
    ensures Shifted(x, 2) == 4 * x && Shifted(x, 4) == 16 * x && Shifted(x, 8) == 256 * x
  {
    assert Shifted(x, 1) == 2 * x && Shifted(x, 2) == 2 * Shifted(x, 1);
    assert Shifted(x, 4) == 4 * Shifted(x, 2);
    assert Shifted(x, 6) == 4 * Shifted(x, 4);
    assert Shifted(x, 8) == 4 * Shifted(x, 6);
  }

  /** Digits are counted in any two parts. */
  lemma {:induction false} OnesJoin(hi: nat, lo: nat, k: nat)
    requires lo < Pow2(k)
    ensures Ones(Shifted(hi, k) + lo) == Ones(hi) + Ones(lo)
  {
    if k > 0 {
      var l, b := lo / 2, lo % 2;
      assert Shifted(hi, k) + lo == 2 * (Shifted(hi, k - 1) + l) + b && lo == 2 * l + b;
      OnesDigit(Shifted(hi, k - 1) + l, b);
      OnesDigit(l, b);
      OnesJoin(hi, l, k - 1);
    }
  }

  lemma OnesOfPair(p: nat)
    requires p < 4
    ensures Ones(p) == p - p / 2 <= 2
  {
    assert p == 0 || p == 1 || p == 2 || p == 3;
  }

  lemma OnesOfNibble(b: nat, a: nat)
    requires b < 4 && a < 4
    ensures Ones(4 * b + a) == Ones(b) + Ones(a) <= 4
  {
    var a1, a0 := a / 2, a % 2;
    OnesDigit(2 * b + a1, a0);
    OnesDigit(b, a1);
    OnesDigit(a1, a0);
    assert Ones(a1) == a1;
    OnesOfPair(a);
    OnesOfPair(b);
  }

  lemma NibbleIsSmall(m: nat)
    requires m < 16
    ensures Ones(m) <= 4
  {
    OnesOfNibble(m / 4, m % 4);
  }

  lemma OnesOfByte(b: nat, a: nat)
    requires b < 16 && a < 16
    ensures Ones(16 * b + a) == Ones(b) + Ones(a) <= 8
  {
    assert Pow2(4) == 16;
    ShiftedValues(b);
    OnesJoin(b, a, 4);
    NibbleIsSmall(a);
    NibbleIsSmall(b);
  }

  lemma ByteIsSmall(b: nat)
    requires b < 256
    ensures Ones(b) <= 8
  {
    OnesOfByte(b / 16, b % 16);
  }

  function Power(base: nat, n: nat): nat {
    if n == 0 then 1 else base * Power(base, n - 1)
  }

  // The three stages of the parallel count: fields of 1 digit become counts of 2, 4, 8 digits.

  lemma PairCountsStep(x: nat, h: nat, p: nat, n: nat)
    requires p < 4 && n > 0 && x == 4 * h + p
    ensures PairCounts(x, n) == Ones(p) + 4 * PairCounts(h, n - 1)
  {
    QuotientUnique(x, 4, h, p);
  }

  lemma NibbleCountsStep(x: nat, h: nat, m: nat, n: nat)
    requires m < 16 && n > 0 && x == 16 * h + m
    ensures NibbleCounts(x, n) == Ones(m) + 16 * NibbleCounts(h, n - 1)
  {
    QuotientUnique(x, 16, h, m);
  }

  lemma ByteCountsStep(x: nat, h: nat, b: nat, n: nat)
    requires b < 256 && n > 0 && x == 256 * h + b
    ensures ByteCounts(x, n) == Ones(b) + 256 * ByteCounts(h, n - 1)
  {
    QuotientUnique(x, 256, h, b);
  }

  lemma PairStep(h: nat, p: nat, mask: nat)
    requires p < 4
    ensures And((4 * h + p) / 2, 1 + 4 * mask) == p / 2 + 4 * And(h / 2, mask)
  {
    var g, s := h / 2, h % 2;
    var b, a := p / 2, p % 2;
    Halve(4 * h + p, 4 * g + (2 * s + b), a);
    AndPair(g, 2 * s + b, mask);
    Halve(2 * s + b, s, b);
  }

  lemma {:induction false} PairStage(x: nat, n: nat)
    requires x < Power(4, n)
    ensures x - And(x / 2, Repeat(1, 4, n)) == PairCounts(x, n)
  {
    if n > 0 {
      var h, p := x / 4, x % 4;
      PairStep(h, p, Repeat(1, 4, n - 1));
      PairCountsStep(x, h, p, n);
      PairStage(h, n - 1);
      OnesOfPair(p);
    }
  }

  /** Neighbouring pair counts, both kept by the mask, added. */
  function NibbleSum(p: nat, mask: nat): nat { And(p, mask) + And(p / 4, mask) }

  lemma NibbleSums(c: nat, d: nat, rest: nat, mask: nat)
    requires c <= 2 && d <= 2
    ensures NibbleSum(16 * rest + 4 * d + c, 3 + 16 * mask) == c + d + 16 * NibbleSum(rest, mask)
  {
    var r1, r0 := rest / 4, rest % 4;
    QuotientUnique(16 * rest + 4 * d + c, 4, 4 * rest + d, c);
    AndLowPair(rest, d, c, mask);
    AndLowPair(r1, r0, d, mask);
  }

  lemma PairCountsTwo(x: nat, y: nat, h: nat, b: nat, a: nat, n: nat)
    requires n > 0 && x == 4 * y + a && y == 4 * h + b && b < 4 && a < 4
    ensures PairCounts(x, 2 * n) == 16 * PairCounts(h, 2 * (n - 1)) + 4 * Ones(b) + Ones(a)
  {
    PairCountsStep(x, y, a, 2 * n);
    PairCountsStep(y, h, b, 2 * n - 1);
  }

  lemma NibbleField(x: nat, h: nat, b: nat, a: nat, n: nat, mask: nat)
    requires n > 0 && x == 16 * h + 4 * b + a && b < 4 && a < 4
    requires NibbleSum(PairCounts(h, 2 * (n - 1)), mask) == NibbleCounts(h, n - 1)
    ensures NibbleSum(PairCounts(x, 2 * n), 3 + 16 * mask) == NibbleCounts(x, n)
  {
    var c, d, rest := Ones(a), Ones(b), PairCounts(h, 2 * (n - 1));
    assert PairCounts(x, 2 * n) == 16 * rest + 4 * d + c by { PairCountsTwo(x, 4 * h + b, h, b, a, n); }
    assert NibbleCounts(x, n) == c + d + 16 * NibbleCounts(h, n - 1) by {
      NibbleCountsStep(x, h, 4 * b + a, n);
      OnesOfNibble(b, a);
    }
    OnesOfPair(a);
    OnesOfPair(b);
    NibbleSums(c, d, rest, mask);
  }

  lemma NibbleParts(x: nat) returns (h: nat, b: nat, a: nat)
    ensures x == 16 * h + 4 * b + a && b < 4 && a < 4
  {
    var y;
    y, a := x / 4, x % 4;
    h, b := y / 4, y % 4;
  }

  lemma {:induction false} NibbleStage(x: nat, n: nat)
    ensures NibbleSum(PairCounts(x, 2 * n), Repeat(3, 16, n)) == NibbleCounts(x, n)
    decreases n
  {
    if n > 0 {
      var h, b, a := NibbleParts(x);
      NibbleStage(h, n - 1);
      NibbleField(x, h, b, a, n, Repeat(3, 16, n - 1));
    }
  }

  lemma CountsLow(x: nat, n: nat) returns (rest: nat, low: nat)
    ensures NibbleCounts(x, n) == 16 * rest + low && low <= 4
  {
    rest, low := 0, 0;
    if n > 0 {
      NibbleIsSmall(x % 16);
      rest, low := NibbleCounts(x / 16, n - 1), Ones(x % 16);
    }
  }

  /** Neighbouring nibble counts added, and every second sum kept by the mask. */
  function ByteSum(q: nat, mask: nat): nat { And(q + q / 16, mask) }

  lemma ByteSums(c: nat, d: nat, rest: nat, r1: nat, r0: nat, mask: nat)
    requires c <= 4 && d <= 4 && r0 <= 4 && rest == 16 * r1 + r0
    ensures ByteSum(256 * rest + 16 * d + c, 15 + 256 * mask) == c + d + 256 * ByteSum(rest, mask)
  {
    QuotientUnique(256 * rest + 16 * d + c, 16, 16 * rest + d, c);
    QuotientUnique(rest, 16, r1, r0);
    AndLowNibble(rest + r1, d + r0, c + d, mask);
  }

  lemma NibbleCountsTwo(x: nat, y: nat, h: nat, b: nat, a: nat, n: nat)
    requires n > 0 && x == 16 * y + a && y == 16 * h + b && b < 16 && a < 16
    ensures NibbleCounts(x, 2 * n) == 256 * NibbleCounts(h, 2 * (n - 1)) + 16 * Ones(b) + Ones(a)
  {
    NibbleCountsStep(x, y, a, 2 * n);
    NibbleCountsStep(y, h, b, 2 * n - 1);
  }

  lemma ByteFieldCounts(x: nat, h: nat, b: nat, a: nat, n: nat)
    requires n > 0 && x == 256 * h + 16 * b + a && b < 16 && a < 16
    ensures NibbleCounts(x, 2 * n) == 256 * NibbleCounts(h, 2 * (n - 1)) + 16 * Ones(b) + Ones(a)
    ensures ByteCounts(x, n) == Ones(a) + Ones(b) + 256 * ByteCounts(h, n - 1)
    ensures Ones(a) <= 4 && Ones(b) <= 4
  {
    NibbleCountsTwo(x, 16 * h + b, h, b, a, n);
    ByteCountsStep(x, h, 16 * b + a, n);
    OnesOfByte(b, a);
    NibbleIsSmall(a);
    NibbleIsSmall(b);
  }

  lemma ByteField(x: nat, h: nat, b: nat, a: nat, n: nat, mask: nat)
    requires n > 0 && x == 256 * h + 16 * b + a && b < 16 && a < 16
    requires ByteSum(NibbleCounts(h, 2 * (n - 1)), mask) == ByteCounts(h, n - 1)
    ensures ByteSum(NibbleCounts(x, 2 * n), 15 + 256 * mask) == ByteCounts(x, n)
  {
    ByteFieldCounts(x, h, b, a, n);
    var r1, r0 := CountsLow(h, 2 * (n - 1));
    ByteSums(Ones(a), Ones(b), NibbleCounts(h, 2 * (n - 1)), r1, r0, mask);
  }

  lemma ByteParts(x: nat) returns (h: nat, b: nat, a: nat)
    ensures x == 256 * h + 16 * b + a && b < 16 && a < 16
  {
    h, b, a := x / 256, x / 16 % 16, x % 16;
  }

  lemma {:induction false} ByteStage(x: nat, n: nat)
    ensures ByteSum(NibbleCounts(x, 2 * n), Repeat(15, 256, n)) == ByteCounts(x, n)
    decreases n
  {
    if n > 0 {
      var h, b, a := ByteParts(x);
      ByteStage(h, n - 1);
      ByteField(x, h, b, a, n, Repeat(15, 256, n - 1));
    }
  }

  lemma {:induction false} AndOfZero(x: nat)
    ensures And(x, 0) == 0
  {
    if x > 0 { AndOfZero(x / 2); }
  }

  lemma {:induction false} AndBelowMask(x: nat, mask: nat)
    ensures And(x, mask) <= mask
    decreases mask
  {
    if x != 0 || mask != 0 {
      if mask > 0 {
        AndBelowMask(x / 2, mask / 2);
      } else {
        AndOfZero(x);
      }
    }
  }

  lemma Masks()
    ensures Repeat(1, 4, 16) == 0x55555555 && Repeat(3, 16, 8) == 0x33333333
    ensures Repeat(15, 256, 4) == 0x0F0F0F0F && Power(4, 16) == TWO_32
  {
    assert Repeat(1, 4, 4) == 0x55 && Repeat(1, 4, 8) == 0x5555 && Repeat(1, 4, 12) == 0x555555;
    assert Repeat(3, 16, 4) == 0x3333;
    assert Power(4, 4) == 0x100 && Power(4, 8) == 0x10000 && Power(4, 12) == 0x1000000;
  }

  lemma PairsComputed(x: Word)
    ensures PairCounts(x, 16) < TWO_32 && SwarPairs(x) == PairCounts(x, 16)
  {
    Masks();
    PairStage(x, 16);
    assert Shr(x, 1) == x / 2;
    QuotientUnique(PairCounts(x, 16), TWO_32, 0, PairCounts(x, 16));
  }

  lemma ShrSmall(x: nat)
    ensures Shr(x, 2) == x / 4 && Shr(x, 4) == x / 16
  {
    assert Shr(x, 2) == Shr(x / 2, 1) == x / 2 / 2;
    assert Shr(x, 4) == Shr(x / 2 / 2, 2) == x / 2 / 2 / 2 / 2;
  }

  lemma SumBelowMasks(p: nat, mask: nat)
    ensures NibbleSum(p, mask) <= 2 * mask
  {
    AndBelowMask(p, mask);
    AndBelowMask(p / 4, mask);
  }

  lemma NibblesComputed(x: Word)
    requires PairCounts(x, 16) < TWO_32
    ensures NibbleCounts(x, 8) <= 0x66666666 && SwarNibbles(PairCounts(x, 16)) == NibbleCounts(x, 8)
  {
    var pairs := PairCounts(x, 16);
    Masks();
    NibbleStage(x, 8);
    SumBelowMasks(pairs, 0x33333333);
    ShrSmall(pairs);
    QuotientUnique(NibbleSum(pairs, 0x33333333), TWO_32, 0, NibbleSum(pairs, 0x33333333));
  }

  lemma BytesComputed(x: Word)
    requires NibbleCounts(x, 8) <= 0x66666666
    ensures SwarBytes(NibbleCounts(x, 8)) == ByteCounts(x, 4)
  {
    var nibbles := NibbleCounts(x, 8);
    Masks();
    ByteStage(x, 4);
    ShrSmall(nibbles);
    QuotientUnique(nibbles + nibbles / 16, TWO_32, 0, nibbles + nibbles / 16);
  }

  lemma JoinByte(x: nat, hi: nat, lo: nat, n: nat)
    requires lo < 256 && x == 256 * hi + lo && n >= 1
    ensures ByteCounts(x, n) == Ones(lo) + 256 * ByteCounts(hi, n - 1)
    ensures Ones(x) == Ones(hi) + Ones(lo)
    ensures Ones(lo) <= 8
  {
    ByteCountsStep(x, hi, lo, n);
    Pow2Values();
    ShiftedValues(hi);
    OnesJoin(hi, lo, 8);
    ByteIsSmall(lo);
  }

  lemma JoinTwo(x: nat, z: nat, hi: nat, b0: nat, b1: nat, n: nat)
    requires b0 < 256 && b1 < 256 && x == 256 * z + b0 && z == 256 * hi + b1 && n >= 2
    ensures ByteCounts(x, n) == Ones(b0) + 256 * Ones(b1) + 65536 * ByteCounts(hi, n - 2)
    ensures Ones(x) == Ones(hi) + Ones(b1) + Ones(b0)
    ensures Ones(b0) <= 8 && Ones(b1) <= 8
  {
    JoinByte(x, z, b0, n);
    JoinByte(z, hi, b1, n - 1);
  }

  lemma LastTwo(y: nat, b2: nat, b3: nat)
    requires b2 < 256 && b3 < 256 && y == 256 * b3 + b2
    ensures ByteCounts(y, 2) == Ones(b2) + 256 * Ones(b3)
    ensures Ones(y) == Ones(b2) + Ones(b3) && Ones(b2) <= 8 && Ones(b3) <= 8
  {
    JoinTwo(y, b3, 0, b2, b3, 2);
  }

  lemma FourCounts(counts: nat, c0: nat, c1: nat, c2: nat, c3: nat)
    requires c0 <= 8 && c1 <= 8 && c2 <= 8 && c3 <= 8
    requires counts == c0 + 256 * c1 + 65536 * c2 + 16777216 * c3
    ensures Shr(counts * 0x01010101 % TWO_32, 24) == c0 + c1 + c2 + c3
  {
    var low := c0 + 256 * (c0 + c1) + 65536 * (c0 + c1 + c2);
    var high := (c1 + c2 + c3) + 256 * (c2 + c3) + 65536 * c3;
    var sum := c0 + c1 + c2 + c3;
    QuotientUnique(counts * 0x01010101, TWO_32, high, low + 16777216 * sum);
    Pow2Values();
    Pow2Adds(8, 16);
    assert Pow2(24) == 16777216;
    ShrIsUnique(low + Pow2(24) * sum, 24, sum, low);
  }

  /** The multiplication adds the four byte counts into the top byte. */
  lemma BytesAddUp(x: Word, n: nat)
    requires n == 4
    ensures Shr(ByteCounts(x, n) * 0x01010101 % TWO_32, 24) == Ones(x)
  {
    var z, b0 := DivMod(x, 256);
    var y, b1 := DivMod(z, 256);
    var b3, b2 := DivMod(y, 256);
    JoinTwo(x, z, y, b0, b1, n);
    LastTwo(y, b2, b3);
    FourCounts(ByteCounts(x, n), Ones(b0), Ones(b1), Ones(b2), Ones(b3));
  }

  /** The parallel count is the count of the loop. */
  lemma SwarIsOnes(x: Word)
    ensures PopcountSwar(x) == Ones(x)
  {
    PairsComputed(x);
    NibblesComputed(x);
    BytesComputed(x);
    BytesAddUp(x, 4);
  }

  // ---------- digits as positions ----------

  /** The positions below k of the set digits. */
  ghost function SetDigits(x: nat, k: nat): set<nat> {
    set i: nat | i < k && Bit(x, i)
  }

  function DigitsBelow(x: nat, k: nat): nat {
    if k == 0 then 0 else DigitsBelow(x, k - 1) + if Bit(x, k - 1) then 1 else 0
  }

  lemma {:induction false} DigitsAreCounted(x: nat, k: nat)
    ensures DigitsBelow(x, k) == |SetDigits(x, k)|
  {
    if k == 0 {
      assert SetDigits(x, k) == {};
    } else {
      DigitsAreCounted(x, k - 1);
      assert SetDigits(x, k) == SetDigits(x, k - 1) + if Bit(x, k - 1) then {k - 1} else {};
    }
  }

  lemma {:induction false} DigitsOfHalf(x: nat, k: nat)
    ensures DigitsBelow(x, k + 1) == x % 2 + DigitsBelow(x / 2, k)
  {
    if k > 0 { DigitsOfHalf(x, k - 1); }
  }

  lemma {:induction false} OnesAreDigits(x: nat, k: nat)
    requires x < Pow2(k)
    ensures Ones(x) == DigitsBelow(x, k)
  {
    if k > 0 {
      OnesAreDigits(x / 2, k - 1);
      DigitsOfHalf(x, k - 1);
    }
  }

  /** The sum of the digits is the number of positions with a set digit. */
  lemma OnesIsCount(x: Word)
    ensures Ones(x) == |SetDigits(x, 32)|
  {
    Pow2Values();
    OnesAreDigits(x, 32);
    DigitsAreCounted(x, 32);
  }
}
