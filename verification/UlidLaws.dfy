// What ULID strings promise: order, uniqueness, exactly the accepted strings,
// the 48-bit boundary (ULID specification, "Encoding", "Sorting" and "Overflow
// Errors when Parsing Base32 Strings"), and minting under a failing random source.
module UlidLaws {
  import opened Arithmetic
  import opened GoStrings
  import opened Base32
  import opened Ulid

  predicate Valid(s: string) { |s| == 26 && Spelled(ALPHABET, s) }

  datatype UlidError = WrongLength(n: nat) | InvalidChar(c: char, index: nat)

  /** `validULID`: no error, or the first thing that is wrong. */
  method ValidULID(s: string) returns (err: Option<UlidError>)
    ensures err.None? <==> Valid(s)
    ensures |s| != 26 ==> err == Some(WrongLength(|s|))
    ensures err.Some? && |s| == 26 ==>
              err.value.InvalidChar? && err.value.index < 26 && err.value.c == s[err.value.index]
              && s[err.value.index] !in ALPHABET && Spelled(ALPHABET, s[..err.value.index])
  {
    if |s| != 26 {
      return Some(WrongLength(|s|));
    }
    for i := 0 to |s|
      invariant Spelled(ALPHABET, s[..i])
    {
      var ok := OneOf(s[i], ALPHABET);
      if !ok {
        return Some(InvalidChar(s[i], i));
      }
      SpelledNext(ALPHABET, s, i);
    }
    assert s[..26] == s;
    return None;
  }

  lemma SpelledNext(a: Alphabet, s: string, i: nat)
    requires i < |s| && Spelled(a, s[..i]) && s[i] in a
    ensures Spelled(a, s[..i + 1])
  {
    assert s[..i + 1] == s[..i] + [s[i]];
  }

  method OneOf(c: char, alphabet: string) returns (ok: bool)
    ensures ok <==> c in alphabet
  {
    ok := false;
    for k := 0 to |alphabet|
      invariant !ok && forall q | 0 <= q < k :: alphabet[q] != c
    {
      if c == alphabet[k] {
        ok := true;
        break;
      }
    }
  }

  lemma BigEndianBound10(entropy: Bytes10)
    ensures BigEndian(entropy, 0, 10) < POW_80
  {
    EntropyWords(entropy);
  }

  lemma NumberBound(ms: nat, entropy: Bytes10)
    ensures Number(ms, entropy) < Pow(32, 26)
    ensures Number(ms, entropy) / POW_80 == ms % POW_50 && Number(ms, entropy) % POW_80 == BigEndian(entropy, 0, 10)
  {
    BigEndianBound10(entropy);
    Powers();
  }

  // ----- Sorting --------------------------------------------------------

  /** String order is the order of (timestamp mod 2^50, entropy) read as one number. */
  lemma EncodeOrder(ms: nat, e: Bytes10, ms': nat, e': Bytes10)
    ensures Valid(Encode(ms, e))
    ensures Less(Encode(ms, e), Encode(ms', e')) <==> Number(ms, e) < Number(ms', e')
    ensures Encode(ms, e) == Encode(ms', e') <==> Number(ms, e) == Number(ms', e')
  {
    NumberBound(ms, e);
    NumberBound(ms', e');
    TextIsSpelled(ALPHABET, Number(ms, e), 26);
    TextOrder(ALPHABET, Number(ms, e), Number(ms', e'), 26);
  }

  lemma EarlierFirst(t: nat, b: nat, t': nat, b': nat)
    requires t < t' && b < POW_80
    ensures t * POW_80 + b < t' * POW_80 + b'
  {
    assert t * POW_80 + POW_80 <= t' * POW_80;
  }

  lemma EarlierNumber(ms: nat, e: Bytes10, ms': nat, e': Bytes10)
    requires ms % POW_50 < ms' % POW_50
    ensures Number(ms, e) < Number(ms', e')
  {
    BigEndianBound10(e);
    EarlierFirst(ms % POW_50, BigEndian(e, 0, 10), ms' % POW_50, BigEndian(e', 0, 10));
  }

  /** An earlier timestamp sorts first whatever the entropy. */
  lemma EarlierSortsFirst(ms: nat, e: Bytes10, ms': nat, e': Bytes10)
    requires ms < ms' < POW_50
    ensures Less(Encode(ms, e), Encode(ms', e'))
  {
    DivModUnique(ms, POW_50, 0, ms);
    DivModUnique(ms', POW_50, 0, ms');
    EarlierNumber(ms, e, ms', e');
    EncodeOrder(ms, e, ms', e');
  }

  // ----- A bijection with the accepted strings --------------------------

  /** n bytes, big-endian. */
  function BytesOf(v: nat, n: nat): (b: seq<byte>)
    ensures |b| == n
  {
    if n == 0 then [] else BytesOf(v / 256, n - 1) + [(v % 256) as byte]
  }

  /** The timestamp field of an accepted string. */
  function Timestamp(s: string): nat
    requires Valid(s)
  {
    Value(ALPHABET, s) / POW_80
  }

  /** The random field of an accepted string. */
  function Entropy(s: string): Bytes10
    requires Valid(s)
  {
    BytesOf(Value(ALPHABET, s) % POW_80, 10)
  }

  lemma {:induction false} BigEndianOfBytes(bytes: seq<byte>, v: nat, n: nat)
    requires n <= |bytes| && bytes[..n] == BytesOf(v, n)
    ensures BigEndian(bytes, 0, n) == v % Pow(256, n)
    decreases n
  {
    if n > 0 {
      assert bytes[..n - 1] == bytes[..n][..n - 1] == BytesOf(v / 256, n - 1);
      BigEndianOfBytes(bytes, v / 256, n - 1);
      assert bytes[n - 1] == bytes[..n][n - 1] == (v % 256) as byte;
      SplitLastDigit(v, 256, Pow(256, n - 1), Pow(256, n));
    }
  }

  lemma {:induction false} BytesOfBigEndian(bytes: seq<byte>, n: nat)
    requires n <= |bytes|
    ensures BytesOf(BigEndian(bytes, 0, n), n) == bytes[..n]
    decreases n
  {
    if n > 0 {
      BytesOfBigEndian(bytes, n - 1);
      var v, b := BigEndian(bytes, 0, n - 1), bytes[n - 1];
      assert (256 * v + b as nat) / 256 == v && (256 * v + b as nat) % 256 == b as nat;
      assert bytes[..n] == bytes[..n - 1] + [b];
    }
  }

  lemma {:induction false} BigEndianOfBytesOf(v: nat, n: nat)
    ensures BigEndian(BytesOf(v, n), 0, n) == v % Pow(256, n)
  {
    assert BytesOf(v, n)[..n] == BytesOf(v, n);
    BigEndianOfBytes(BytesOf(v, n), v, n);
  }

  lemma NumberOfFields(v: nat, e: Bytes10)
    requires v < POW_50 * POW_80 && BigEndian(e, 0, 10) == v % POW_80
    ensures Number(v / POW_80, e) == v
  {
    var q, r := v / POW_80, v % POW_80;
    Division(v, POW_80, q, r);
    assert q < POW_50;
    DivModUnique(q, POW_50, 0, q);
  }

  lemma TenBytes()
    ensures Pow(256, 10) == POW_80
  {}

  lemma ValueOfBytes(r: nat, n: nat, p: nat, e: seq<byte>)
    requires p == Pow(256, n) && r < p && e == BytesOf(r, n)
    ensures BigEndian(e, 0, n) == r
  {
    BigEndianOfBytesOf(r, n);
    DivModUnique(r, p, 0, r);
  }

  lemma FieldsSpell(s: string, v: nat, w: nat)
    requires Valid(s) && w == |s| && v == Value(ALPHABET, s)
    ensures v / POW_80 < POW_50 && Text(ALPHABET, Number(v / POW_80, Entropy(s)), w) == s
  {
    ValueBound(ALPHABET, s);
    TextOfValue(ALPHABET, s);
    Powers();
    TenBytes();
    ValueOfBytes(v % POW_80, 10, POW_80, Entropy(s));
    NumberOfFields(v, Entropy(s));
  }

  /** Every accepted string is the encoding of its two fields. */
  lemma EncodeOfFields(s: string)
    requires Valid(s)
    ensures Timestamp(s) < POW_50 && Encode(Timestamp(s), Entropy(s)) == s
  {
    FieldsSpell(s, Value(ALPHABET, s), 26);
  }

  /** The fields of an encoding are the inputs, the timestamp modulo 2^50. */
  lemma FieldsOfEncode(ms: nat, entropy: Bytes10)
    ensures Valid(Encode(ms, entropy))
    ensures Timestamp(Encode(ms, entropy)) == ms % POW_50 && Entropy(Encode(ms, entropy)) == entropy
  {
    NumberBound(ms, entropy);
    ValueOfText(ALPHABET, Number(ms, entropy), 26);
    BytesOfBigEndian(entropy, 10);
    assert entropy[..10] == entropy;
  }

  lemma BigEndianInjective(e: Bytes10, e': Bytes10)
    ensures BigEndian(e, 0, 10) == BigEndian(e', 0, 10) ==> e == e'
  {
    BytesOfBigEndian(e, 10);
    BytesOfBigEndian(e', 10);
    assert e[..10] == e && e'[..10] == e';
  }

  lemma NumberInjective(ms: nat, e: Bytes10, ms': nat, e': Bytes10)
    ensures Number(ms, e) == Number(ms', e') <==> ms % POW_50 == ms' % POW_50 && e == e'
  {
    NumberBound(ms, e);
    NumberBound(ms', e');
    BigEndianInjective(e, e');
  }

  /** Two mints collide exactly when entropy agrees and timestamps agree modulo 2^50. */
  lemma EncodeInjective(ms: nat, e: Bytes10, ms': nat, e': Bytes10)
    ensures Encode(ms, e) == Encode(ms', e') <==> ms % POW_50 == ms' % POW_50 && e == e'
  {
    EncodeOrder(ms, e, ms', e');
    NumberInjective(ms, e, ms', e');
  }

  // ----- The 48-bit boundary --------------------------------------------

  lemma {:induction false} LeadingDigit(a: Alphabet, n: nat, width: nat, weight: nat, d: nat)
    requires width >= 1 && weight == Pow(32, width - 1) && n / weight == d < 32
    ensures Text(a, n, width)[0] == a[d]
    decreases width
  {
    if width == 1 {
      assert n == d;
    } else {
      var w := Pow(32, width - 2);
      SplitLastDigit(n, 32, w, weight);
      LeadingDigit(a, n / 32, width - 1, w, d);
    }
  }

  lemma LeadingWeight()
    ensures Pow(32, 25) == POW_80 * 0x2000_0000_0000
  {
    assert Pow(32, 5) == 0x200_0000;
    assert Pow(32, 10) == POW_50;
    assert Pow(32, 15) == 0x200_0000 * POW_50;
    assert Pow(32, 20) == POW_50 * POW_50;
  }

  lemma Quotient(n: nat, p: nat, q: nat, w: nat, t: nat)
    requires p > 0 && q > 0 && w == p * q && n / p == t
    ensures n / w == t / q
  {
    SplitLastDigit(n, p, q, w);
  }

  lemma LeadingNumber(ms: nat, entropy: Bytes10, weight: nat)
    requires weight == POW_80 * 0x2000_0000_0000
    ensures Number(ms, entropy) / weight == ms % POW_50 / 0x2000_0000_0000
  {
    NumberBound(ms, entropy);
    Quotient(Number(ms, entropy), POW_80, 0x2000_0000_0000, weight, ms % POW_50);
  }

  lemma DigitAtMost(a: Alphabet, d: nat, k: nat)
    requires d < 32 && k < 32
    ensures a[d] <= a[k] <==> d <= k
  {
    Increasing(a);
  }

  lemma AtMostSeven(d: nat)
    requires d < 32
    ensures ALPHABET[d] <= '7' <==> d < 8
  {
    DigitAtMost(ALPHABET, d, 7);
    assert ALPHABET[7] == '7';
  }

  /** The specification's limit: the first character is at most '7' exactly for 48-bit timestamps. */
  lemma FirstCharacter(ms: nat, entropy: Bytes10)
    ensures Encode(ms, entropy)[0] <= '7' <==> ms % POW_50 < POW_48
  {
    var weight := Pow(32, Width(entropy) - 1);
    LeadingWeight();
    LeadingNumber(ms, entropy, weight);
    var d := ms % POW_50 / 0x2000_0000_0000;
    assert d < 32 && (d < 8 <==> ms % POW_50 < POW_48);
    LeadingDigit(ALPHABET, Number(ms, entropy), Width(entropy), weight, d);
    AtMostSeven(d);
  }

  /** The first timestamp of 49 bits: the specification's parsers refuse what the encoder makes of it. */
  lemma FortyNineBits(entropy: Bytes10)
    ensures Encode(POW_48, entropy)[0] > '7'
  {
    FirstCharacter(POW_48, entropy);
  }

  // ----- The characters, and the bytes of one millisecond ----------------

  /** The code of digit i: digits, then capitals without I, L, O and U. */
  function CodeOf(i: nat): nat {
    if i < 10 then '0' as nat + i
    else if i < 18 then 'A' as nat + (i - 10)
    else if i < 20 then 'J' as nat + (i - 18)
    else if i < 22 then 'M' as nat + (i - 20)
    else if i < 27 then 'P' as nat + (i - 22)
    else 'V' as nat + (i - 27)
  }

  lemma {:induction false} Gap(a: Alphabet, i: nat, j: nat)
    requires i <= j < 32
    ensures a[j] as int - a[i] as int >= j - i
    decreases j
  {
    if i < j { Gap(a, i, j - 1); }
  }

  /** A run of neighbouring codes between two digits that are as far apart as their codes. */
  lemma Run(a: Alphabet, lo: nat, hi: nat, i: nat, c: char)
    requires lo <= i <= hi < 32 && a[lo] == c && a[hi] as int == c as int + (hi - lo)
    ensures a[i] as int == c as int + (i - lo)
  {
    Gap(a, lo, i);
    Gap(a, i, hi);
  }

  lemma RunEnds()
    ensures ALPHABET[0] == '0' && ALPHABET[9] == '9' && ALPHABET[10] == 'A' && ALPHABET[17] == 'H'
    ensures ALPHABET[18] == 'J' && ALPHABET[19] == 'K' && ALPHABET[20] == 'M' && ALPHABET[21] == 'N'
    ensures ALPHABET[22] == 'P' && ALPHABET[26] == 'T' && ALPHABET[27] == 'V' && ALPHABET[31] == 'Z'
  {}

  lemma CodesOf(a: Alphabet, i: nat)
    requires i < 32 && a[0] == '0' && a[9] == '9' && a[10] == 'A' && a[17] == 'H'
    requires a[18] == 'J' && a[19] == 'K' && a[20] == 'M' && a[21] == 'N'
    requires a[22] == 'P' && a[26] == 'T' && a[27] == 'V' && a[31] == 'Z'
    ensures a[i] as int == CodeOf(i)
  {
    if i < 10 {
      Run(a, 0, 9, i, '0');
    } else if i < 18 {
      Run(a, 10, 17, i, 'A');
    } else if i < 20 {
      Run(a, 18, 19, i, 'J');
    } else if i < 22 {
      Run(a, 20, 21, i, 'M');
    } else if i < 27 {
      Run(a, 22, 26, i, 'P');
    } else {
      Run(a, 27, 31, i, 'V');
    }
  }

  /** Digits and capitals, without the four that are easily misread. */
  predicate Readable(c: char) {
    '0' <= c <= '9' || ('A' <= c <= 'Z' && c != 'I' && c != 'L' && c != 'O' && c != 'U')
  }

  lemma CodesAreReadable(c: char)
    ensures Readable(c) <==> exists i: nat :: i < 32 && CodeOf(i) == c as nat
  {
    var n := c as nat;
    if Readable(c) {
      var i: nat :=
        if c <= '9' then n - '0' as nat
        else if c <= 'H' then 10 + (n - 'A' as nat)
        else if c <= 'K' then 18 + (n - 'J' as nat)
        else if c <= 'N' then 20 + (n - 'M' as nat)
        else if c <= 'T' then 22 + (n - 'P' as nat)
        else 27 + (n - 'V' as nat);
      assert i < 32 && CodeOf(i) == n;
    }
  }

  /** These are exactly the characters ids are made of. */
  lemma AcceptedCharacters(c: char)
    ensures c in ALPHABET <==> Readable(c)
  {
    RunEnds();
    InAlphabet(ALPHABET, c);
  }

  lemma InAlphabet(a: Alphabet, c: char)
    requires a[0] == '0' && a[9] == '9' && a[10] == 'A' && a[17] == 'H'
    requires a[18] == 'J' && a[19] == 'K' && a[20] == 'M' && a[21] == 'N'
    requires a[22] == 'P' && a[26] == 'T' && a[27] == 'V' && a[31] == 'Z'
    ensures c in a <==> Readable(c)
  {
    hide CodeOf, Readable;
    CodesAreReadable(c);
    if c in a {
      var i :| 0 <= i < 32 && a[i] == c;
      CodesOf(a, i);
    }
    if Readable(c) {
      var i: nat :| i < 32 && CodeOf(i) == c as nat;
      CodesOf(a, i);
      assert a[i] == c;
    }
  }

  lemma {:induction false} SamePrefixSameNumber(b: seq<byte>, b': seq<byte>, k: nat)
    requires k <= |b| && k <= |b'| && b[..k] == b'[..k]
    ensures BigEndian(b, 0, k) == BigEndian(b', 0, k)
  {
    if k > 0 {
      assert b[..k - 1] == b[..k][..k - 1] == b'[..k][..k - 1] == b'[..k - 1];
      assert b[k - 1] == b[..k][k - 1] == b'[..k][k - 1] == b'[k - 1];
      SamePrefixSameNumber(b, b', k - 1);
    }
  }

  lemma HigherHead(h: nat, h': nat, p: nat, t: nat, t': nat)
    requires h < h' && t < p
    ensures h * p + t < h' * p + t'
  {
    MulSign(p, h' - h);
    SubMul(p, h', h);
  }

  /** Among ids of one millisecond the first byte that differs decides. */
  lemma FirstByteDecides(ms: nat, e: Bytes10, e': Bytes10, k: nat)
    requires k < 10 && e[..k] == e'[..k] && e[k] < e'[k]
    ensures Less(Encode(ms, e), Encode(ms, e'))
  {
    hide Encode;
    var p := Pow(256, 9 - k);
    SamePrefixSameNumber(e, e', k);
    BigEndianSplit(e, k + 1, 10);
    BigEndianSplit(e', k + 1, 10);
    BigEndianBound(e, k + 1, 10);
    HigherHead(BigEndian(e, 0, k + 1), BigEndian(e', 0, k + 1), p, BigEndian(e, k + 1, 10), BigEndian(e', k + 1, 10));
    EncodeOrder(ms, e, ms, e');
  }
}
