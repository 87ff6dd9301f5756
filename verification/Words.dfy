// 64-bit machine words and the numbers they stand for: shifting right is
// halving, masking low bits is taking a remainder.
module Words {

  /** Unsigned shift right on numbers: x >> k. */
  function Shr(x: nat, k: nat): nat {
    if k == 0 then x else Shr(x / 2, k - 1)
  }

  lemma {:induction false} ShrAdd(x: nat, j: nat, k: nat)
    ensures Shr(x, j + k) == Shr(Shr(x, j), k)
    decreases j
  {
    if j > 0 { ShrAdd(x / 2, j - 1, k); }
  }

  lemma ShrByFive(y: nat)
    ensures Shr(y, 5) == y / 32
  {
    assert Shr(y, 5) == Shr(y / 2, 4) == Shr(y / 2 / 2, 3);
    assert Shr(y / 2 / 2, 3) == Shr(y / 2 / 2 / 2, 2) == Shr(y / 2 / 2 / 2 / 2, 1) == y / 2 / 2 / 2 / 2 / 2;
  }

  lemma ShrFive(x: nat, k: nat)
    ensures Shr(x, k + 5) == Shr(x, k) / 32
  {
    ShrAdd(x, k, 5);
    ShrByFive(Shr(x, k));
  }

  function Bit(x: bv64): nat { if x & 1 == 1 then 1 else 0 }

  /** The number a word stands for. */
  function Num(x: bv64): nat
    decreases x
  {
    if x == 0 then 0 else 2 * Num(x >> 1) + Bit(x)
  }

  lemma Half(x: bv64)
    ensures Num(x) == 2 * Num(x >> 1) + Bit(x)
    ensures Num(x >> 1) == Shr(Num(x), 1)
  {}

  lemma FiveHalves(n: nat, a: nat, b: nat, c: nat, d: nat, e: nat, n0: nat, n1: nat, n2: nat, n3: nat, n4: nat)
    requires n == 2 * a + n0 && a == 2 * b + n1 && b == 2 * c + n2 && c == 2 * d + n3 && d == 2 * e + n4
    ensures n == 32 * e + (16 * n4 + 8 * n3 + 4 * n2 + 2 * n1 + n0)
  {}

  lemma HalfWord(x: bv64, y: bv64)
    requires y == x >> 1
    ensures Num(x) == 2 * Num(y) + Bit(x)
  {
    Half(x);
  }

  lemma SecondHalf(x: bv64)
    ensures Num(x >> 1) == 2 * Num(x >> 2) + Bit(x >> 1)
  {
    HalfWord(x >> 1, x >> 2);
  }

  lemma ThirdHalf(x: bv64)
    ensures Num(x >> 2) == 2 * Num(x >> 3) + Bit(x >> 2)
  {
    HalfWord(x >> 2, x >> 3);
  }

  lemma FourthHalf(x: bv64)
    ensures Num(x >> 3) == 2 * Num(x >> 4) + Bit(x >> 3)
  {
    HalfWord(x >> 3, x >> 4);
  }

  lemma FifthHalf(x: bv64)
    ensures Num(x >> 4) == 2 * Num(x >> 5) + Bit(x >> 4)
  {
    HalfWord(x >> 4, x >> 5);
  }

  /** The number in the five low bits. */
  function Low(x: bv64): (n: nat)
    ensures n < 32
  {
    16 * Bit(x >> 4) + 8 * Bit(x >> 3) + 4 * Bit(x >> 2) + 2 * Bit(x >> 1) + Bit(x)
  }

  /** A word by its five low bits and the rest. */
  lemma FiveBits(x: bv64)
    ensures Num(x) == 32 * Num(x >> 5) + Low(x)
  {
    HalfWord(x, x >> 1);
    SecondHalf(x);
    ThirdHalf(x);
    FourthHalf(x);
    FifthHalf(x);
    FiveHalves(Num(x), Num(x >> 1), Num(x >> 2), Num(x >> 3), Num(x >> 4), Num(x >> 5),
               Bit(x), Bit(x >> 1), Bit(x >> 2), Bit(x >> 3), Bit(x >> 4));
  }

  lemma MaskedLow(x: bv64, y: bv64)
    requires y == x & 0x1F
    ensures y >> 5 == 0 && Low(y) == Low(x)
  {}

  lemma FiveBitsUnique(n: nat, h: nat, low: nat)
    requires n == 32 * h + low && low < 32
    ensures n / 32 == h && n % 32 == low
  {}

  /** The five-bit mask is the remainder by 32, the five-bit shift the quotient. */
  lemma MaskFive(x: bv64, y: bv64)
    requires y == x & 0x1F
    ensures Num(y) == Num(x) % 32 && Num(x >> 5) == Num(x) / 32
  {
    FiveBits(x);
    FiveBits(y);
    MaskedLow(x, y);
    FiveBitsUnique(Num(x), Num(x >> 5), Low(x));
  }

  /** Five places further down. */
  lemma ShiftMore(x: bv64, y: bv64, z: bv64, k: nat)
    requires z == y >> 5 && Num(y) == Shr(Num(x), k)
    ensures Num(z) == Shr(Num(x), k + 5)
    ensures Num(y & 0x1F) == Shr(Num(x), k) % 32
  {
    MaskFive(y, y & 0x1F);
    ShrFive(Num(x), k);
  }

  lemma ShiftBy1(x: bv64)
    ensures Num(x >> 1) == Shr(Num(x), 1)
  {
    Half(x);
  }

  lemma ShiftBy5(x: bv64)
    ensures Num(x >> 5) == Shr(Num(x), 5)
  {
    ShiftMore(x, x, x >> 5, 0);
  }

  lemma ShiftBy10(x: bv64)
    ensures Num(x >> 10) == Shr(Num(x), 10)
  {
    ShiftBy5(x);
    ShiftMore(x, x >> 5, x >> 10, 5);
  }

  lemma ShiftBy15(x: bv64)
    ensures Num(x >> 15) == Shr(Num(x), 15)
  {
    ShiftBy10(x);
    ShiftMore(x, x >> 10, x >> 15, 10);
  }

  lemma ShiftBy20(x: bv64)
    ensures Num(x >> 20) == Shr(Num(x), 20)
  {
    ShiftBy15(x);
    ShiftMore(x, x >> 15, x >> 20, 15);
  }

  lemma ShiftBy25(x: bv64)
    ensures Num(x >> 25) == Shr(Num(x), 25)
  {
    ShiftBy20(x);
    ShiftMore(x, x >> 20, x >> 25, 20);
  }

  lemma ShiftBy30(x: bv64)
    ensures Num(x >> 30) == Shr(Num(x), 30)
  {
    ShiftBy25(x);
    ShiftMore(x, x >> 25, x >> 30, 25);
  }

  lemma ShiftBy35(x: bv64)
    ensures Num(x >> 35) == Shr(Num(x), 35)
  {
    ShiftBy30(x);
    ShiftMore(x, x >> 30, x >> 35, 30);
  }

  lemma ShiftBy40(x: bv64)
    ensures Num(x >> 40) == Shr(Num(x), 40)
  {
    ShiftBy35(x);
    ShiftMore(x, x >> 35, x >> 40, 35);
  }

  lemma ShiftBy45(x: bv64)
    ensures Num(x >> 45) == Shr(Num(x), 45)
  {
    ShiftBy40(x);
    ShiftMore(x, x >> 40, x >> 45, 40);
  }

  lemma ShiftBy50(x: bv64)
    ensures Num(x >> 50) == Shr(Num(x), 50)
  {
    ShiftBy45(x);
    ShiftMore(x, x >> 45, x >> 50, 45);
  }

  lemma ShiftBy55(x: bv64)
    ensures Num(x >> 55) == Shr(Num(x), 55)
  {
    ShiftBy50(x);
    ShiftMore(x, x >> 50, x >> 55, 50);
  }

  lemma ShiftBy60(x: bv64)
    ensures Num(x >> 60) == Shr(Num(x), 60)
  {
    ShiftBy55(x);
    ShiftMore(x, x >> 55, x >> 60, 55);
  }

  lemma ShiftBy6(x: bv64)
    ensures Num(x >> 6) == Shr(Num(x), 6)
  {
    ShiftBy1(x);
    ShiftMore(x, x >> 1, x >> 6, 1);
  }

  lemma ShiftBy11(x: bv64)
    ensures Num(x >> 11) == Shr(Num(x), 11)
  {
    ShiftBy6(x);
    ShiftMore(x, x >> 6, x >> 11, 6);
  }

  /** The shift amounts the encoder uses. */
  predicate Amount(k: nat) { k == 0 || k == 1 || k == 6 || k == 11 || (k % 5 == 0 && k <= 60) }

  /** x >> k. */
  function ShiftRight(x: bv64, k: nat): bv64
    requires Amount(k)
  {
    match k
    case 0 => x
    case 1 => x >> 1
    case 5 => x >> 5
    case 6 => x >> 6
    case 10 => x >> 10
    case 11 => x >> 11
    case 15 => x >> 15
    case 20 => x >> 20
    case 25 => x >> 25
    case 30 => x >> 30
    case 35 => x >> 35
    case 40 => x >> 40
    case 45 => x >> 45
    case 50 => x >> 50
    case 55 => x >> 55
    case _ => x >> 60
  }

  /** Shifting a word is shifting its number. */
  lemma ShiftRightNum(x: bv64, k: nat)
    requires Amount(k)
    ensures Num(ShiftRight(x, k)) == Shr(Num(x), k)
  {
    match k
    case 0 =>
    case 1 => ShiftBy1(x);
    case 5 => ShiftBy5(x);
    case 6 => ShiftBy6(x);
    case 10 => ShiftBy10(x);
    case 11 => ShiftBy11(x);
    case 15 => ShiftBy15(x);
    case 20 => ShiftBy20(x);
    case 25 => ShiftBy25(x);
    case 30 => ShiftBy30(x);
    case 35 => ShiftBy35(x);
    case 40 => ShiftBy40(x);
    case 45 => ShiftBy45(x);
    case 50 => ShiftBy50(x);
    case 55 => ShiftBy55(x);
    case _ => ShiftBy60(x);
  }

  function LowBit(y: bv8): nat { if y & 1 == 1 then 1 else 0 }

  lemma ByteBits(y: bv8)
    requires y < 32
    ensures y as nat == 16 * LowBit(y >> 4) + 8 * LowBit(y >> 3) + 4 * LowBit(y >> 2) + 2 * LowBit(y >> 1) + LowBit(y)
  {}

  lemma NarrowLow(x: bv64, y: bv8)
    requires x < 32 && y == x as bv8
    ensures x >> 5 == 0
    ensures Low(x) == 16 * LowBit(y >> 4) + 8 * LowBit(y >> 3) + 4 * LowBit(y >> 2) + 2 * LowBit(y >> 1) + LowBit(y)
  {}

  lemma NarrowNum(x: bv64, y: bv8)
    requires x < 32 && y == x as bv8
    ensures Num(x) == y as nat
  {
    FiveBits(x);
    NarrowLow(x, y);
    ByteBits(y);
  }

  lemma MaskBound(x: bv64, y: bv64)
    requires y == x & 0x1F
    ensures y < 32
  {}

  /** A field of five bits as an index: (x >> k) & 0x1F is Field(x >> k). */
  function Field(x: bv64): (d: nat)
    ensures d < 32 && d == Num(x) % 32
  {
    var y := x & 0x1F;
    MaskBound(x, y);
    MaskFive(x, y);
    NarrowNum(y, y as bv8);
    y as bv8 as nat
  }

  // ----- Words of numbers -----------------------------------------------

  /** All ones from some place down. */
  predicate Ones(m: bv64) { m & (m + 1) == 0 }

  lemma OnesHalf(m: bv64)
    requires Ones(m) && m != 0
    ensures Ones(m >> 1) && m & 1 == 1 && m >> 1 < m
  {}

  lemma Doubled(w: bv64, m: bv64, b: bv64, x: bv64)
    requires Ones(m) && m != 0 && w <= m >> 1 && b <= 1 && x == (w << 1) | b
    ensures x <= m && x >> 1 == w && x & 1 == b
  {}

  /** The word within mask m that stands for n. */
  function WordBelow(n: nat, m: bv64): (w: bv64)
    requires Ones(m) && n <= Num(m)
    ensures w <= m && Num(w) == n
    decreases m
  {
    if m == 0 then 0
    else
      OnesHalf(m);
      HalfWord(m, m >> 1);
      var w := WordBelow(n / 2, m >> 1);
      var b: bv64 := if n % 2 == 1 then 1 else 0;
      var x := (w << 1) | b;
      Doubled(w, m, b, x);
      HalfWord(x, w);
      x
  }

  const MAX_WORD: bv64 := 0xFFFF_FFFF_FFFF_FFFF

  lemma MoreOnes(m: bv64, h: bv64)
    requires h == m >> 5 && m & 0x1F == 0x1F
    ensures Num(m) == 32 * Num(h) + 31
  {
    FiveBits(m);
    AllLow(m);
  }

  lemma AllLow(m: bv64)
    requires m & 0x1F == 0x1F
    ensures Low(m) == 31
  {}

  lemma MaxWord()
    ensures Ones(MAX_WORD) && Num(MAX_WORD) == 0xFFFF_FFFF_FFFF_FFFF
  {
    NarrowNum(0xF, 0xF);
    MoreOnes(0x1FF, 0xF);
    MoreOnes(0x3FFF, 0x1FF);
    MoreOnes(0x7_FFFF, 0x3FFF);
    MoreOnes(0xFF_FFFF, 0x7_FFFF);
    MoreOnes(0x1FFF_FFFF, 0xFF_FFFF);
    MoreOnes(0x3_FFFF_FFFF, 0x1FFF_FFFF);
    MoreOnes(0x7F_FFFF_FFFF, 0x3_FFFF_FFFF);
    MoreOnes(0xFFF_FFFF_FFFF, 0x7F_FFFF_FFFF);
    MoreOnes(0x1_FFFF_FFFF_FFFF, 0xFFF_FFFF_FFFF);
    MoreOnes(0x3F_FFFF_FFFF_FFFF, 0x1_FFFF_FFFF_FFFF);
    MoreOnes(0x7FF_FFFF_FFFF_FFFF, 0x3F_FFFF_FFFF_FFFF);
    MoreOnes(0xFFFF_FFFF_FFFF_FFFF, 0x7FF_FFFF_FFFF_FFFF);
  }

  /** The 64-bit word that stands for n. */
  function Word(n: nat): (w: bv64)
    requires n < 0x1_0000_0000_0000_0000
    ensures Num(w) == n
  {
    MaxWord();
    WordBelow(n, MAX_WORD)
  }
}
