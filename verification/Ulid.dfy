// ULID minting (internal/audit/ulid.go): 50 timestamp bits and 80 random bits
// packed into 26 Crockford base32 characters.
module Ulid {
  import opened Arithmetic
  import opened GoStrings
  import opened Base32
  import opened Words

  const ALPHABET: Alphabet := "0123456789ABCDEFGHJKMNPQRSTVWXYZ"

  newtype byte = b: int | 0 <= b < 256
  type Bytes10 = s: seq<byte> | |s| == 10 witness [0, 0, 0, 0, 0, 0, 0, 0, 0, 0]

  const POW_48: nat := 0x1_0000_0000_0000
  const POW_50: nat := 0x4_0000_0000_0000
  const POW_64: nat := 0x1_0000_0000_0000_0000
  const POW_80: nat := 0x1_0000_0000_0000_0000_0000

  /** binary.BigEndian over bytes[from..upto]. */
  function BigEndian(bytes: seq<byte>, from: nat, upto: nat): nat
    requires from <= upto <= |bytes|
    decreases upto - from
  {
    if from == upto then 0 else 256 * BigEndian(bytes, from, upto - 1) + bytes[upto - 1] as nat
  }

  /** The number a ULID stands for: timestamp modulo 2^50, then 80 bits of entropy. */
  function Number(ms: nat, entropy: Bytes10): nat {
    ms % POW_50 * POW_80 + BigEndian(entropy, 0, |entropy|)
  }

  /** Ten characters of timestamp, and eight for every five random bytes. */
  function Width(entropy: Bytes10): (w: nat)
    ensures w == 26
  {
    10 + |entropy| * 8 / 5
  }

  /** The canonical 26-character form. */
  function Encode(ms: nat, entropy: Bytes10): (s: string)
    ensures |s| == 26
  {
    Text(ALPHABET, Number(ms, entropy), Width(entropy))
  }

  // ----- The digits encodeULID computes ---------------------------------

  /** Digit 13: the last bit of hi above the first four bits of lo. */
  function Straddle(hi: bv64, lo: bv64): (d: nat)
    ensures d < 32 && d == Num(hi) % 2 * 16 + Shr(Num(lo), 60)
  {
    StraddleNum(hi, lo, hi & 0x01, (lo >> 60) & 0x0F);
    (((hi & 0x01) as bv8 << 4) | ((lo >> 60) & 0x0F) as bv8) as nat
  }

  lemma StraddleNum(hi: bv64, lo: bv64, h: bv64, l: bv64)
    requires h == hi & 0x01 && l == (lo >> 60) & 0x0F
    ensures h < 2 && l < 16
    ensures ((h as bv8 << 4) | l as bv8) as nat == Num(hi) % 2 * 16 + Shr(Num(lo), 60) < 32
  {
    TopFour(lo, l);
    LastBit(hi, h);
    NarrowNum(h, h as bv8);
    NarrowNum(l, l as bv8);
    Disjoint(h as bv8, l as bv8);
  }

  lemma Disjoint(high: bv8, low: bv8)
    requires high < 2 && low < 16
    ensures ((high << 4) | low) as nat == high as nat * 16 + low as nat
  {}

  /** Nothing is left above the top four bits, so their mask changes nothing. */
  lemma TopFour(lo: bv64, l: bv64)
    requires l == (lo >> 60) & 0x0F
    ensures l < 16 && Num(l) == Shr(Num(lo), 60)
  {
    ShiftBy60(lo);
    TopFourMask(lo);
  }

  lemma TopFourMask(lo: bv64)
    ensures (lo >> 60) & 0x0F == lo >> 60 && lo >> 60 < 16
  {}

  lemma LastBit(hi: bv64, h: bv64)
    requires h == hi & 0x01
    ensures h < 2 && Num(h) == Num(hi) % 2
  {
    HalfWord(hi, hi >> 1);
    if h == 0 {
      assert Bit(hi) == 0;
    } else {
      assert h == 1;
      NarrowNum(1, 1);
    }
  }

  lemma Top4(lo: nat)
    ensures Shr(lo, 60) == lo / 0x1000_0000_0000_0000
  {
    ShrThirty(lo);
    ShrThirty(Shr(lo, 30));
    ShrAdd(lo, 30, 30);
  }

  lemma ShrThirty(x: nat)
    ensures Shr(x, 30) == x / 0x4000_0000
  {
    ShrFive(x, 0);
    ShrFive(x, 5);
    ShrFive(x, 10);
    ShrFive(x, 15);
    ShrFive(x, 20);
    ShrFive(x, 25);
  }

  lemma Powers()
    ensures Pow(32, 3) == 0x8000 && Pow(32, 10) == POW_50 && Pow(32, 12) == 0x1000_0000_0000_0000
    ensures Pow(32, 26) == POW_50 * POW_80
  {}

  lemma JoinWords(m: nat, hi: nat, lo: nat, high: nat, mid: nat, r: nat)
    requires high == m * 0x8000 + hi / 2 && mid == 32 * high + (hi % 2 * 16 + lo / 0x1000_0000_0000_0000)
    requires r == m * POW_80 + (hi * POW_64 + lo)
    ensures r == mid * 0x1000_0000_0000_0000 + lo % 0x1000_0000_0000_0000
  {}

  /** A numeral keeps its number modulo the weight of its width. */
  lemma TextModulo(a: Alphabet, n: nat, w: nat, weight: nat, r: nat)
    requires weight == Pow(32, w) && r == n % weight
    ensures Text(a, n, w) == Text(a, r, w)
  {
    TextJoin(a, 0, 0, n, w, weight, r);
    assert Text(a, 0, 0) + Text(a, n, w) == Text(a, n, w);
  }

  /** The digits of three words, and the one that straddles two of them, are one numeral. */
  lemma FourRuns(a: Alphabet, m: nat, hi: nat, lo: nat, d: nat, w: nat, v: nat, u: nat, r: nat)
    requires hi < 0x1_0000 && d < 32 && d == hi % 2 * 16 + lo / 0x1000_0000_0000_0000
    requires Pow(32, v) == 0x8000 && Pow(32, u) == 0x1000_0000_0000_0000
    requires r == m * POW_80 + (hi * POW_64 + lo)
    ensures Text(a, m, w) + Text(a, hi / 2, v) + [a[d]] + Text(a, lo, u) == Text(a, r, w + v + 1 + u)
  {
    hide Text, Pow;
    var high := m * 0x8000 + hi / 2;
    var mid := 32 * high + d;
    TextJoin(a, m, w, hi / 2, v, 0x8000, high);
    AppendDigit(a, high, d, w + v);
    JoinWords(m, hi, lo, high, mid, r);
    TextJoin(a, mid, w + v + 1, lo, u, 0x1000_0000_0000_0000, r);
  }

  lemma EntropyWords(entropy: Bytes10)
    ensures BigEndian(entropy, 0, 2) < 0x1_0000 && BigEndian(entropy, 2, 10) < POW_64
    ensures BigEndian(entropy, 0, 10) == BigEndian(entropy, 0, 2) * POW_64 + BigEndian(entropy, 2, 10)
  {
    BigEndianBound(entropy, 0, 2);
    BigEndianBound(entropy, 2, 10);
    BigEndianSplit(entropy, 2, 10);
    assert Pow(256, 2) == 0x1_0000 && Pow(256, 8) == POW_64;
  }

  lemma {:induction false} BigEndianBound(bytes: seq<byte>, from: nat, upto: nat)
    requires from <= upto <= |bytes|
    ensures BigEndian(bytes, from, upto) < Pow(256, upto - from)
    decreases upto
  {
    if from < upto { BigEndianBound(bytes, from, upto - 1); }
  }

  lemma {:induction false} BigEndianSplit(bytes: seq<byte>, mid: nat, upto: nat)
    requires mid <= upto <= |bytes|
    ensures BigEndian(bytes, 0, upto) == BigEndian(bytes, 0, mid) * Pow(256, upto - mid) + BigEndian(bytes, mid, upto)
    decreases upto
  {
    if mid < upto {
      BigEndianSplit(bytes, mid, upto - 1);
      var p := Pow(256, upto - 1 - mid);
      Regroup(256, p, BigEndian(bytes, 0, mid), BigEndian(bytes, mid, upto - 1), bytes[upto - 1] as nat);
    }
  }

  /** `encodeULID`: the output buffer is filled slot by slot. */
  method EncodeULID(ms: bv64, entropy: Bytes10) returns (s: string)
    ensures s == Encode(Num(ms), entropy)
  {
    s := EncodeWith(ALPHABET, ms, entropy);
  }

  method EncodeWith(a: Alphabet, ms: bv64, entropy: Bytes10) returns (s: string)
    ensures s == Text(a, Number(Num(ms), entropy), 26)
  {
    hide Text, Numeral, Num, Straddle, BigEndian, Number;
    var out := new char[26];
    EntropyWords(entropy);
    var hi := Word(BigEndian(entropy, 0, 2));
    var lo := Word(BigEndian(entropy, 2, 10));
    ghost var first, second, last := Runs(a, Num(ms), Num(hi), Num(lo));
    FillTimestamp(a, out, ms, first);
    FillHigh(a, out, hi, lo, second);
    FillLow(a, out, lo, last);
    s := out[..];
    RunsSpell(a, s, Num(ms), entropy, Num(hi), Num(lo), Straddle(hi, lo), first, second, last);
  }

  /** The numerals of the timestamp, of the high word but its last bit, and of the low word but its first four. */
  ghost predicate AreRuns(a: Alphabet, ms: nat, hi: nat, lo: nat, first: string, second: string, last: string) {
    && Numeral(a, ms, first) && Numeral(a, hi / 2, second) && Numeral(a, lo, last)
    && |first| == 10 && |second| == 3 && |last| == 12
  }

  lemma Runs(a: Alphabet, ms: nat, hi: nat, lo: nat) returns (first: string, second: string, last: string)
    ensures AreRuns(a, ms, hi, lo, first, second, last)
  {
    var w, v, u := Widths();
    first, second, last := Text(a, ms, w), Text(a, hi / 2, v), Text(a, lo, u);
    NumeralIsText(a, ms, first);
    NumeralIsText(a, hi / 2, second);
    NumeralIsText(a, lo, last);
  }

  lemma Assembled(s: string, first: string, second: string, c: char, last: string)
    requires |s| == 26 && s[..10] == first && s[10..13] == second && s[13] == c && s[14..] == last
    ensures s == first + second + [c] + last
  {}

  lemma RunsSpell(a: Alphabet, s: string, ms: nat, entropy: Bytes10, hi: nat, lo: nat, d: nat,
                  first: string, second: string, last: string)
    requires AreRuns(a, ms, hi, lo, first, second, last) && d < 32 && d == hi % 2 * 16 + Shr(lo, 60)
    requires |s| == 26 && s[..10] == first && s[10..13] == second && s[13] == a[d] && s[14..] == last
    requires hi == BigEndian(entropy, 0, 2) && lo == BigEndian(entropy, 2, 10)
    ensures s == Text(a, Number(ms, entropy), 26)
  {
    hide Text, Numeral, Shr, Pow;
    var w, v, u := Widths();
    EntropyWords(entropy);
    Top4(lo);
    NumeralIsText(a, ms, first);
    NumeralIsText(a, hi / 2, second);
    NumeralIsText(a, lo, last);
    Assembled(s, first, second, a[d], last);
    TextModulo(a, ms, w, POW_50, ms % POW_50);
    FourRuns(a, ms % POW_50, hi, lo, d, w, v, u, Number(ms, entropy));
    SameText(a, Number(ms, entropy), Number(ms, entropy), w + v + 1 + u, 26);
  }

  /** How many characters the timestamp, the high and the low word get to themselves. */
  lemma Widths() returns (w: nat, v: nat, u: nat)
    ensures w == 10 && v == 3 && u == 12
    ensures Pow(32, w) == POW_50 && Pow(32, v) == 0x8000 && Pow(32, u) == 0x1000_0000_0000_0000
  {
    Powers();
    w, v, u := 10, 3, 12;
  }

  /** alphabet[(x >> k) & 0x1F] is the character of x's numeral that stands above bit k. */
  function Digit(a: Alphabet, x: bv64, k: nat, ghost text: string, ghost i: nat): (c: char)
    requires Amount(k) && i < |text| && k == 5 * (|text| - 1 - i) && Numeral(a, Num(x), text)
    ensures c == text[i]
  {
    ShiftRightNum(x, k);
    NumeralIsText(a, Num(x), text);
    TextAt(a, Num(x), |text|, i);
    a[Field(ShiftRight(x, k))]
  }

  method FillTimestamp(a: Alphabet, out: array<char>, ms: bv64, ghost text: string)
    requires out.Length == 26 && |text| == 10 && Numeral(a, Num(ms), text)
    modifies out
    ensures forall i | 0 <= i < 10 :: out[i] == text[i]
  {
    hide Digit, Num, Numeral;
    out[0] := Digit(a, ms, 45, text, 0);
    out[1] := Digit(a, ms, 40, text, 1);
    out[2] := Digit(a, ms, 35, text, 2);
    out[3] := Digit(a, ms, 30, text, 3);
    out[4] := Digit(a, ms, 25, text, 4);
    out[5] := Digit(a, ms, 20, text, 5);
    out[6] := Digit(a, ms, 15, text, 6);
    out[7] := Digit(a, ms, 10, text, 7);
    out[8] := Digit(a, ms, 5, text, 8);
    out[9] := Digit(a, ms, 0, text, 9);
  }

  /** The same for the high word, whose last bit belongs to the next digit. */
  function HighDigit(a: Alphabet, hi: bv64, k: nat, ghost text: string, ghost i: nat): (c: char)
    requires Amount(k) && i < |text| && k == 1 + 5 * (|text| - 1 - i) && Numeral(a, Num(hi) / 2, text)
    ensures c == text[i]
  {
    ShiftRightNum(hi, k);
    NumeralIsText(a, Num(hi) / 2, text);
    TextAt(a, Num(hi) / 2, |text|, i);
    a[Field(ShiftRight(hi, k))]
  }

  method FillHigh(a: Alphabet, out: array<char>, hi: bv64, lo: bv64, ghost text: string)
    requires out.Length == 26 && |text| == 3 && Numeral(a, Num(hi) / 2, text)
    modifies out
    ensures forall i | 10 <= i < 13 :: out[i] == text[i - 10]
    ensures out[13] == a[Straddle(hi, lo)]
    ensures forall i | 0 <= i < 10 :: out[i] == old(out[i])
  {
    hide HighDigit, Straddle, Num, Numeral;
    out[10] := HighDigit(a, hi, 11, text, 0);
    out[11] := HighDigit(a, hi, 6, text, 1);
    out[12] := HighDigit(a, hi, 1, text, 2);
    out[13] := a[Straddle(hi, lo)];
  }

  method FillLow(a: Alphabet, out: array<char>, lo: bv64, ghost text: string)
    requires out.Length == 26 && |text| == 12 && Numeral(a, Num(lo), text)
    modifies out
    ensures forall i | 14 <= i < 26 :: out[i] == text[i - 14]
    ensures forall i | 0 <= i < 14 :: out[i] == old(out[i])
  {
    hide Digit, Num, Numeral;
    out[14] := Digit(a, lo, 55, text, 0);
    out[15] := Digit(a, lo, 50, text, 1);
    out[16] := Digit(a, lo, 45, text, 2);
    out[17] := Digit(a, lo, 40, text, 3);
    out[18] := Digit(a, lo, 35, text, 4);
    out[19] := Digit(a, lo, 30, text, 5);
    out[20] := Digit(a, lo, 25, text, 6);
    out[21] := Digit(a, lo, 20, text, 7);
    out[22] := Digit(a, lo, 15, text, 8);
    out[23] := Digit(a, lo, 10, text, 9);
    out[24] := Digit(a, lo, 5, text, 10);
    out[25] := Digit(a, lo, 0, text, 11);
  }
}
