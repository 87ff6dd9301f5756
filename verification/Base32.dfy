// Fixed-width base-32 numerals over an increasing alphabet: reading and writing
// are inverse, and the byte order of numerals is the order of their values.
module Base32 {
  import opened Arithmetic
  import opened GoStrings
  import opened Words

  /** 32 characters in strictly increasing order. */
  type Alphabet = s: string | |s| == 32 && forall i | 0 <= i < 31 :: s[i] < s[i + 1]
    witness "0123456789ABCDEFGHJKMNPQRSTVWXYZ"

  /** n in base 32 with exactly `width` digits. */
  function Text(a: Alphabet, n: nat, width: nat): (s: string)
    ensures |s| == width
  {
    if width == 0 then "" else Text(a, n / 32, width - 1) + [a[n % 32]]
  }

  predicate Spelled(a: Alphabet, s: string) { forall i | 0 <= i < |s| :: s[i] in a }

  function DigitOf(a: Alphabet, c: char): (d: nat)
    requires c in a
    ensures d < 32 && a[d] == c
  {
    Increasing(a);
    var d :| 0 <= d < 32 && a[d] == c;
    d
  }

  /** The number a numeral stands for. */
  function Value(a: Alphabet, s: string): nat
    requires Spelled(a, s)
  {
    if s == "" then 0 else 32 * Value(a, s[..|s| - 1]) + DigitOf(a, s[|s| - 1])
  }

  lemma Increasing(a: Alphabet)
    ensures forall i, j | 0 <= i < j < 32 :: a[i] < a[j]
  {
    forall i, j | 0 <= i < j < 32 ensures a[i] < a[j] { DigitOrder(a, i, j); }
  }

  lemma {:induction false} DigitOrder(a: Alphabet, i: nat, j: nat)
    requires i < j < 32
    ensures a[i] < a[j]
    decreases j
  {
    if i < j - 1 { DigitOrder(a, i, j - 1); }
  }

  lemma {:induction false} TextIsSpelled(a: Alphabet, n: nat, width: nat)
    ensures Spelled(a, Text(a, n, width))
  {
    if width > 0 { TextIsSpelled(a, n / 32, width - 1); }
  }

  lemma AppendDigit(a: Alphabet, n: nat, d: nat, width: nat)
    requires d < 32
    ensures Text(a, 32 * n + d, width + 1) == Text(a, n, width) + [a[d]]
  {
    assert (32 * n + d) / 32 == n && (32 * n + d) % 32 == d;
  }

  lemma {:induction false} ValueOfText(a: Alphabet, n: nat, width: nat)
    requires n < Pow(32, width)
    ensures Spelled(a, Text(a, n, width)) && Value(a, Text(a, n, width)) == n
  {
    TextIsSpelled(a, n, width);
    if width > 0 {
      ValueOfText(a, n / 32, width - 1);
      Increasing(a);
      var s := Text(a, n, width);
      assert s[..|s| - 1] == Text(a, n / 32, width - 1);
    }
  }

  lemma {:induction false} ValueBound(a: Alphabet, s: string)
    requires Spelled(a, s)
    ensures Value(a, s) < Pow(32, |s|)
    decreases |s|
  {
    if s != "" { ValueBound(a, s[..|s| - 1]); }
  }

  /** The last digit of a numeral, and the number before it. */
  lemma ValueStep(a: Alphabet, s: string, front: string, v: nat, d: nat)
    requires s != "" && Spelled(a, s) && front == s[..|s| - 1]
    requires v == Value(a, front) && d == DigitOf(a, s[|s| - 1])
    ensures Value(a, s) == 32 * v + d && s == front + [a[d]]
  {}

  lemma {:induction false} TextOfValue(a: Alphabet, s: string)
    requires Spelled(a, s)
    ensures Text(a, Value(a, s), |s|) == s
    decreases |s|
  {
    if s != "" {
      var front := s[..|s| - 1];
      var v, d := Value(a, front), DigitOf(a, s[|s| - 1]);
      TextOfValue(a, front);
      ValueStep(a, s, front, v, d);
      TextSnoc(a, v, d, Value(a, s), front, s, |s|);
    }
  }

  /** A numeral with one more digit d. */
  lemma TextSnoc(a: Alphabet, v: nat, d: nat, n: nat, front: string, s: string, width: nat)
    requires d < 32 && n == 32 * v + d && width > 0
    requires Text(a, v, width - 1) == front && s == front + [a[d]]
    ensures Text(a, n, width) == s
  {
    AppendDigit(a, v, d, width - 1);
  }

  lemma SameText(a: Alphabet, m: nat, n: nat, v: nat, w: nat)
    requires m == n && v == w
    ensures Text(a, m, v) == Text(a, n, w)
  {}

  lemma {:induction false} LessSamePrefix(p: string, s: string, t: string)
    ensures Less(p + s, p + t) == Less(s, t)
  {
    if p == "" {
      assert p + s == s && p + t == t;
    } else {
      LessSamePrefix(p[1..], s, t);
      assert (p + s)[1..] == p[1..] + s && (p + t)[1..] == p[1..] + t;
    }
  }

  lemma {:induction false} LessDecidedByPrefix(p: string, q: string, s: string, t: string)
    requires |p| == |q| && Less(p, q)
    ensures Less(p + s, q + t)
  {
    if p[0] == q[0] {
      LessDecidedByPrefix(p[1..], q[1..], s, t);
      assert (p + s)[1..] == p[1..] + s && (q + t)[1..] == q[1..] + t;
    }
  }

  lemma {:induction false} TextMonotone(a: Alphabet, m: nat, n: nat, width: nat)
    requires m < n < Pow(32, width)
    ensures Less(Text(a, m, width), Text(a, n, width))
  {
    if width > 0 {
      var p, q := Text(a, m / 32, width - 1), Text(a, n / 32, width - 1);
      if m / 32 == n / 32 {
        DigitOrder(a, m % 32, n % 32);
        LessSamePrefix(p, [a[m % 32]], [a[n % 32]]);
      } else {
        TextMonotone(a, m / 32, n / 32, width - 1);
        LessDecidedByPrefix(p, q, [a[m % 32]], [a[n % 32]]);
      }
    }
  }

  /** Byte order of equal-width numerals is numeric order, and numerals are unique. */
  lemma TextOrder(a: Alphabet, m: nat, n: nat, width: nat)
    requires m < Pow(32, width) && n < Pow(32, width)
    ensures Less(Text(a, m, width), Text(a, n, width)) <==> m < n
    ensures Text(a, m, width) == Text(a, n, width) <==> m == n
  {
    LessIrreflexive(Text(a, m, width));
    if m < n {
      TextMonotone(a, m, n, width);
    } else if n < m {
      TextMonotone(a, n, m, width);
      if Less(Text(a, m, width), Text(a, n, width)) {
        LessTransitive(Text(a, m, width), Text(a, n, width), Text(a, m, width));
      }
    }
  }

  /** The lowest k base-32 digits of x, appended to the number base. */
  function Append(base: nat, x: nat, k: nat): nat {
    if k == 0 then base else 32 * Append(base, x / 32, k - 1) + x % 32
  }

  lemma {:induction false} AppendValue(base: nat, x: nat, k: nat)
    ensures Append(base, x, k) == base * Pow(32, k) + x % Pow(32, k)
    decreases k
  {
    if k > 0 {
      AppendValue(base, x / 32, k - 1);
      AppendStep(base, x, k, Pow(32, k - 1));
    }
  }

  lemma AppendStep(base: nat, x: nat, k: nat, p: nat)
    requires k > 0 && p == Pow(32, k - 1)
    requires Append(base, x / 32, k - 1) == base * p + x / 32 % p
    ensures Append(base, x, k) == base * Pow(32, k) + x % Pow(32, k)
  {
    SplitLastDigit(x, 32, p, Pow(32, k));
    Regroup(32, p, base, x / 32 % p, x % 32);
  }

  /** Numerals put one after the other: the second one fills the low digits. */
  lemma {:induction false} TextAppend(a: Alphabet, m: nat, w: nat, n: nat, v: nat)
    ensures Text(a, m, w) + Text(a, n, v) == Text(a, Append(m, n, v), w + v)
    decreases v
  {
    var left := Text(a, m, w);
    if v == 0 {
      assert left + "" == left;
    } else {
      var front, r := Text(a, n / 32, v - 1), Append(m, n / 32, v - 1);
      TextAppend(a, m, w, n / 32, v - 1);
      assert left + (front + [a[n % 32]]) == (left + front) + [a[n % 32]];
      TextSnoc(a, r, n % 32, Append(m, n, v), left + front, left + Text(a, n, v), w + v);
    }
  }

  /** The same, with the number in closed form. */
  lemma TextJoin(a: Alphabet, m: nat, w: nat, n: nat, v: nat, weight: nat, r: nat)
    requires weight == Pow(32, v) && r == m * weight + n % weight
    ensures Text(a, m, w) + Text(a, n, v) == Text(a, r, w + v)
  {
    TextAppend(a, m, w, n, v);
    AppendValue(m, n, v);
    SameText(a, Append(m, n, v), r, w + v, w + v);
  }

  /** Character i of a numeral is its number shifted down to that digit. */
  lemma {:induction false} TextAt(a: Alphabet, n: nat, width: nat, i: nat)
    requires i < width
    ensures Text(a, n, width)[i] == a[Shr(n, 5 * (width - 1 - i)) % 32]
    decreases width
  {
    if i < width - 1 {
      TextAt(a, n / 32, width - 1, i);
      ShrBelow(n, 5 * (width - 2 - i));
    }
  }

  lemma ShrBelow(n: nat, k: nat)
    ensures Shr(n, k + 5) == Shr(n / 32, k)
  {
    ShrAdd(n, 5, k);
    ShrByFive(n);
  }

  /** The same character by character, last one first. */
  predicate Numeral(a: Alphabet, n: nat, text: string)
    decreases |text|
  {
    text == "" || (text[|text| - 1] == a[n % 32] && Numeral(a, n / 32, text[..|text| - 1]))
  }

  lemma {:induction false} NumeralIsText(a: Alphabet, n: nat, text: string)
    ensures Numeral(a, n, text) <==> text == Text(a, n, |text|)
    decreases |text|
  {
    if text != "" {
      var front, last := text[..|text| - 1], text[|text| - 1];
      NumeralIsText(a, n / 32, front);
      assert text == front + [last];
      if text == Text(a, n, |text|) {
        assert front == Text(a, n, |text|)[..|text| - 1];
      }
    }
  }
}
