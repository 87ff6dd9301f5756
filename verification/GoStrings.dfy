// The pieces of Go's `strings` package that the audit and CLI code rely on,
// with the laws the other modules need.
module GoStrings {

  datatype Option<+T> = None | Some(value: T)

  /** strings.Split(s, "."): always at least one segment. */
  function Split(s: string): (r: seq<string>)
    ensures |r| >= 1
  {
    if s == "" then [""]
    else
      var rest := Split(s[1..]);
      if s[0] == '.' then [""] + rest else [[s[0]] + rest[0]] + rest[1..]
  }

  /** strings.Join(parts, sep). */
  function Join(parts: seq<string>, sep: string): string {
    if |parts| == 0 then ""
    else if |parts| == 1 then parts[0]
    else parts[0] + sep + Join(parts[1..], sep)
  }

  predicate DotFree(s: string) { '.' !in s }

  predicate AllDotFree(parts: seq<string>) {
    forall i | 0 <= i < |parts| :: DotFree(parts[i])
  }

  lemma {:induction false} SplitSegmentsAreDotFree(s: string)
    ensures AllDotFree(Split(s))
  {
    if s != "" {
      SplitSegmentsAreDotFree(s[1..]);
    }
  }

  lemma {:induction false} SplitOfDotFree(s: string)
    requires DotFree(s)
    ensures Split(s) == [s]
  {
    if s != "" {
      SplitOfDotFree(s[1..]);
      assert [s[0]] + s[1..] == s;
    }
  }

  /** Splitting distributes over a dot. */
  lemma {:induction false} SplitAtDot(a: string, b: string)
    ensures Split(a + "." + b) == Split(a) + Split(b)
  {
    var s := a + "." + b;
    if a == "" {
      assert s[1..] == b;
    } else {
      assert s[1..] == a[1..] + "." + b;
      SplitAtDot(a[1..], b);
    }
  }

  lemma {:induction false} SplitJoin(parts: seq<string>)
    requires |parts| >= 1 && AllDotFree(parts)
    ensures Split(Join(parts, ".")) == parts
  {
    SplitOfDotFree(parts[0]);
    if |parts| == 1 {
      assert parts == [parts[0]];
    } else {
      SplitJoin(parts[1..]);
      SplitAtDot(parts[0], Join(parts[1..], "."));
    }
  }

  lemma {:induction false} JoinSplit(s: string)
    ensures Join(Split(s), ".") == s
  {
    if s != "" {
      JoinSplit(s[1..]);
      var rest := Split(s[1..]);
      var all := Split(s);
      if s[0] == '.' {
        assert all[1..] == rest;
      } else {
        assert all[1..] == rest[1..];
      }
    }
  }

  predicate HasPrefix(s: string, p: string) { |p| <= |s| && s[..|p|] == p }

  /** strings.TrimPrefix(s, p). */
  function TrimPrefix(s: string, p: string): string {
    if HasPrefix(s, p) then s[|p|..] else s
  }

  predicate OccursAt(s: string, pat: string, i: nat) {
    i + |pat| <= |s| && s[i..i + |pat|] == pat
  }

  /** strings.Index(s, pat): the first position where pat occurs. */
  function Index(s: string, pat: string): (r: Option<nat>)
    ensures r.Some? ==> OccursAt(s, pat, r.value) && forall j | 0 <= j < r.value :: !OccursAt(s, pat, j)
    ensures r.None? ==> forall j | 0 <= j <= |s| :: !OccursAt(s, pat, j)
  {
    IndexFrom(s, pat, 0)
  }

  function IndexFrom(s: string, pat: string, from: nat): (r: Option<nat>)
    requires from <= |s|
    ensures r.Some? ==> from <= r.value && OccursAt(s, pat, r.value)
                        && forall j | from <= j < r.value :: !OccursAt(s, pat, j)
    ensures r.None? ==> forall j | from <= j <= |s| :: !OccursAt(s, pat, j)
    decreases |s| - from
  {
    if OccursAt(s, pat, from) then Some(from)
    else if from == |s| then None
    else IndexFrom(s, pat, from + 1)
  }

  lemma IndexUnique(s: string, pat: string, i: nat)
    requires OccursAt(s, pat, i) && forall j | 0 <= j < i :: !OccursAt(s, pat, j)
    ensures Index(s, pat) == Some(i)
  {
    assert Index(s, pat).Some?;
  }

  /** Whether a pattern occurs depends only on the characters under it. */
  lemma OccursInSameText(s: string, i: nat, t: string, j: nat, pat: string)
    requires i + |pat| <= |s| && j + |pat| <= |t|
    requires forall k | i <= k < i + |pat| :: s[k] == t[k - i + j]
    ensures OccursAt(s, pat, i) <==> OccursAt(t, pat, j)
  {
    var a, b := s[i..i + |pat|], t[j..j + |pat|];
    forall k | 0 <= k < |pat| ensures a[k] == b[k] {
      assert a[k] == s[i + k] && b[k] == t[j + k];
    }
    assert a == b;
  }

  /** strings.ReplaceAll(s, `\.`, "."): left to right, without overlap. */
  function Unescape(s: string): string {
    if |s| >= 2 && s[0] == '\\' && s[1] == '.' then "." + Unescape(s[2..])
    else if s == "" then ""
    else [s[0]] + Unescape(s[1..])
  }

  lemma {:induction false} UnescapeOfDotFree(s: string)
    requires DotFree(s)
    ensures Unescape(s) == s
  {
    if s != "" {
      UnescapeOfDotFree(s[1..]);
      assert [s[0]] + s[1..] == s;
    }
  }

  /** Go's `<` on strings. */
  predicate Less(a: string, b: string) {
    b != "" && (a == "" || a[0] < b[0] || (a[0] == b[0] && Less(a[1..], b[1..])))
  }

  lemma {:induction false} LessTotal(a: string, b: string)
    ensures Less(a, b) || a == b || Less(b, a)
  {
    if a != "" && b != "" && a[0] == b[0] {
      LessTotal(a[1..], b[1..]);
      if a[1..] == b[1..] {
        assert a == [a[0]] + a[1..] && b == [b[0]] + b[1..];
      }
    }
  }

  lemma {:induction false} LessIrreflexive(a: string)
    ensures !Less(a, a)
  {
    if a != "" { LessIrreflexive(a[1..]); }
  }

  lemma {:induction false} LessTransitive(a: string, b: string, c: string)
    requires Less(a, b) && Less(b, c)
    ensures Less(a, c)
  {
    if a != "" && a[0] == b[0] == c[0] {
      LessTransitive(a[1..], b[1..], c[1..]);
    }
  }

  /** The first difference decides; a proper prefix comes first. */
  ghost predicate Differ(a: string, b: string, i: nat) {
    i <= |a| && i < |b| && a[..i] == b[..i] && (i == |a| || a[i] < b[i])
  }

  lemma DifferAtHead(a: string, b: string, i: nat)
    requires Differ(a, b, i)
    ensures i > 0 ==> a != "" && b != "" && a[0] == b[0]
  {
    if i > 0 { assert a[0] == a[..i][0] && b[0] == b[..i][0]; }
  }

  lemma {:induction false} LessMeans(a: string, b: string)
    ensures Less(a, b) <==> exists i: nat :: Differ(a, b, i)
  {
    if b == "" || a == "" || a[0] != b[0] {
      if Less(a, b) { assert Differ(a, b, 0); }
      if exists i: nat :: Differ(a, b, i) {
        var i: nat :| Differ(a, b, i);
        DifferAtHead(a, b, i);
      }
    } else {
      LessMeans(a[1..], b[1..]);
      if Less(a, b) {
        var i: nat :| Differ(a[1..], b[1..], i);
        assert a[..i + 1] == [a[0]] + a[1..][..i] && b[..i + 1] == [b[0]] + b[1..][..i];
        assert Differ(a, b, i + 1);
      }
      if exists i: nat :: Differ(a, b, i) {
        var i: nat :| Differ(a, b, i);
        if i > 0 {
          assert a[1..][..i - 1] == a[..i][1..] && b[1..][..i - 1] == b[..i][1..];
          assert Differ(a[1..], b[1..], i - 1);
        }
      }
    }
  }
}
