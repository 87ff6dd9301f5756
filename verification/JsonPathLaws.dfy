// Printing paths and parsing them back.
module JsonPathLaws {
  import opened GoStrings
  import opened Json
  import opened JsonPath

  lemma TrimDot(t: string)
    ensures TrimPrefix("." + t, ".") == t
  {
    assert ("." + t)[..1] == "." && ("." + t)[1..] == t;
  }

  /** What follows the first occurrence of a pattern does not matter for where it is. */
  lemma FirstIndex(prefix: string, pat: string, tail: string, tail': string)
    requires pat != "" && Index(prefix + pat + tail, pat) == Some(|prefix|)
    ensures Index(prefix + pat + tail', pat) == Some(|prefix|)
  {
    var s, s' := prefix + pat + tail, prefix + pat + tail';
    assert s'[|prefix|..|prefix| + |pat|] == pat;
    forall j | 0 <= j < |prefix| ensures !OccursAt(s', pat, j) {
      assert !OccursAt(s, pat, j);
      OccursInSameText(s, j, s', j, pat);
    }
    IndexUnique(s', pat, |prefix|);
  }

  lemma CutAt(s: string, pat: string, i: nat)
    requires OccursAt(s, pat, i)
    ensures s == s[..i] + pat + s[i + |pat|..]
  {}

  lemma CutBack(prefix: string, pat: string, tail: string)
    ensures (prefix + pat + tail)[..|prefix|] == prefix
    ensures (prefix + pat + tail)[|prefix| + |pat|..] == tail
  {}

  function FieldText(field: Option<string>): string {
    if field.None? then "" else "." + field.value
  }

  lemma FieldTextBack(field: Option<string>)
    requires field != Some("")
    ensures NonEmpty(TrimPrefix(FieldText(field), ".")) == field
  {
    if field.Some? { TrimDot(field.value); }
  }

  // ----- Filters --------------------------------------------------------

  /** A printed filter parses back as soon as both markers are found where they were put. */
  lemma FilterBack(keys: seq<string>, condType: string, field: Option<string>)
    requires keys != [] && AllDotFree(keys) && field != Some("")
    requires var prefix, after := Join(keys, "."), condType + CLOSE + FieldText(field);
             Index(prefix + FILTER + after, FILTER) == Some(|prefix|) && Index(after, CLOSE) == Some(|condType|)
    ensures Parse(Print(Filter(keys, condType, field))) == Filter(keys, condType, field)
  {
    var prefix, after := Join(keys, "."), condType + CLOSE + FieldText(field);
    var path := prefix + FILTER + after;
    TrimDot(path);
    CutBack(prefix, FILTER, after);
    CutBack(condType, CLOSE, FieldText(field));
    FieldTextBack(field);
    SplitJoin(keys);
    assert Print(Filter(keys, condType, field)) == "." + path;
    assert path != "" by { assert |FILTER| == 12; }
  }

  // ----- Flattening -----------------------------------------------------

  function SubText(sub: Option<seq<string>>): string {
    if sub.None? then "" else "." + Join(sub.value, ".")
  }

  lemma FlattenBack(keys: seq<string>, sub: Option<seq<string>>)
    requires keys != [] && AllDotFree(keys)
    requires sub.Some? ==> sub.value != [] && AllDotFree(sub.value) && Join(sub.value, ".") != ""
    requires var path := Join(keys, ".") + STAR + SubText(sub);
             Index(path, FILTER).None? && Index(path, STAR) == Some(|Join(keys, ".")|)
    ensures Parse(Print(Flatten(keys, sub))) == Flatten(keys, sub)
  {
    var prefix := Join(keys, ".");
    var path := prefix + STAR + SubText(sub);
    TrimDot(path);
    CutBack(prefix, STAR, SubText(sub));
    SplitJoin(keys);
    if sub.Some? {
      TrimDot(Join(sub.value, "."));
      SplitJoin(sub.value);
    }
    assert Print(Flatten(keys, sub)) == "." + path;
    assert path != "" by { assert |STAR| == 3; }
  }

  lemma FilterCharacters()
    ensures |FILTER| == 12 && FILTER[3] == '@'
    ensures forall d | 0 <= d < 12 && FILTER[d] == '.' :: d == 4
  {}

  /** A marker cannot lie across a dot that follows a bracket. */
  lemma NotAcrossDot(p: string, t: string, j: nat)
    requires p != "" && p[|p| - 1] == ']' && j <= |p| < j + 12
    ensures !OccursAt(p + ("." + t), FILTER, j)
  {
    FilterCharacters();
    var s := p + ("." + t);
    var d := |p| - j;
    assert s[|p|] == '.' && s[|p| - 1] == ']';
    if j + 12 <= |s| {
      var sub := s[j..j + 12];
      assert sub[d] == '.';
      if d == 4 {
        assert sub[3] == ']';
        assert sub != FILTER;
      } else {
        assert sub[d] != FILTER[d];
      }
    }
  }

  /** Putting a dot after `[*]` cannot complete a filter marker. */
  lemma DotMakesNoFilter(p: string, t: string)
    requires p != "" && p[|p| - 1] == ']' && Index(p + t, FILTER).None?
    ensures Index(p + ("." + t), FILTER).None?
  {
    FilterCharacters();
    var s, s' := p + t, p + ("." + t);
    forall j: nat ensures !OccursAt(s', FILTER, j) {
      if j + 12 <= |p| {
        assert !OccursAt(s, FILTER, j);
        OccursInSameText(s, j, s', j, FILTER);
      } else if j <= |p| {
        NotAcrossDot(p, t, j);
      } else if j + 12 <= |s'| {
        assert !OccursAt(s, FILTER, j - 1);
        OccursInSameText(s, j - 1, s', j, FILTER);
      }
    }
  }

  lemma PrefixMakesNoFilter(p: string, t: string)
    requires Index(p + t, FILTER).None?
    ensures Index(p, FILTER).None?
  {
    forall j: nat ensures !OccursAt(p, FILTER, j) {
      if j + |FILTER| <= |p| {
        assert !OccursAt(p + t, FILTER, j);
        OccursInSameText(p + t, j, p, j, FILTER);
      }
    }
  }

  // ----- Every string ---------------------------------------------------

  lemma ReparseFilter(s: string)
    requires Parse(s).Filter?
    ensures Parse(Print(Parse(s))) == Parse(s)
  {
    var path := TrimPrefix(s, ".");
    var i := Index(path, FILTER).value;
    var prefix, rest := path[..i], path[i + |FILTER|..];
    var end := Index(rest, CLOSE).value;
    var condType, tail := rest[..end], rest[end + |CLOSE|..];
    var field := NonEmpty(TrimPrefix(tail, "."));
    CutAt(path, FILTER, i);
    CutAt(rest, CLOSE, end);
    FirstIndex(prefix, FILTER, rest, condType + CLOSE + FieldText(field));
    FirstIndex(condType, CLOSE, tail, FieldText(field));
    JoinSplit(prefix);
    SplitSegmentsAreDotFree(prefix);
    FilterBack(Split(prefix), condType, field);
  }

  lemma ReparseFlatten(s: string)
    requires Parse(s).Flatten?
    ensures Parse(Print(Parse(s))) == Parse(s)
  {
    hide Split, Join, Index;
    var path := TrimPrefix(s, ".");
    var i := Index(path, STAR).value;
    var prefix, after := path[..i], path[i + |STAR|..];
    var suffix := TrimPrefix(after, ".");
    var sub := if suffix == "" then None else Some(Split(suffix));
    CutAt(path, STAR, i);
    JoinSplit(prefix);
    JoinSplit(suffix);
    SplitSegmentsAreDotFree(prefix);
    SplitSegmentsAreDotFree(suffix);
    FirstIndex(prefix, STAR, after, SubText(sub));
    var p := prefix + STAR;
    assert p[|p| - 1] == ']';
    if sub.None? {
      PrefixMakesNoFilter(p, after);
      assert p + SubText(sub) == p;
    } else if HasPrefix(after, ".") {
      assert after == "." + suffix;
    } else {
      DotMakesNoFilter(p, suffix);
    }
    FlattenBack(Split(prefix), sub);
  }

  /** Parsing any string, printing the result and parsing again changes nothing. */
  lemma ParsePrintParse(s: string)
    ensures Parse(Print(Parse(s))) == Parse(s)
  {
    var path := TrimPrefix(s, ".");
    match Parse(s)
    case NoPath =>
    case Unsupported =>
      assert FILTER[..1][0] == '[';
      assert FILTER[..|FILTER|] == FILTER;
      IndexUnique(FILTER, FILTER, 0);
      assert FILTER[|FILTER|..] == "";
    case Filter(_, _, _) => ReparseFilter(s);
    case Flatten(_, _) => ReparseFlatten(s);
    case Plain(keys) =>
      JoinSplit(path);
      TrimDot(path);
  }

  // ----- Simple paths ---------------------------------------------------

  predicate BracketFree(s: string) { '[' !in s }

  /** Keys without dots and brackets; a lone empty key would print as no path at all. */
  predicate SimpleKeys(keys: seq<string>) {
    keys != [] && AllDotFree(keys) && forall i | 0 <= i < |keys| :: BracketFree(keys[i])
  }

  predicate Simple(p: Path) {
    match p
    case NoPath => true
    case Unsupported => false
    case Plain(keys) => SimpleKeys(keys) && keys != [""]
    case Flatten(keys, sub) => SimpleKeys(keys) && (sub.Some? ==> SimpleKeys(sub.value) && sub.value != [""])
    case Filter(keys, condType, field) => SimpleKeys(keys) && Index(condType, CLOSE).None? && field != Some("")
  }

  lemma {:induction false} JoinBracketFree(keys: seq<string>)
    requires forall i | 0 <= i < |keys| :: BracketFree(keys[i])
    ensures BracketFree(Join(keys, "."))
  {
    if |keys| > 1 { JoinBracketFree(keys[1..]); }
  }

  lemma JoinEmpty(keys: seq<string>)
    requires keys != [] && keys != [""]
    ensures Join(keys, ".") != ""
  {
    if |keys| == 1 { assert keys == [keys[0]]; }
  }

  /** After text without brackets the first bracketed marker is where it was put. */
  lemma FirstBracket(s: string, pat: string, t: string)
    requires BracketFree(s) && pat != "" && pat[0] == '['
    ensures Index(s + pat + t, pat) == Some(|s|)
  {
    var all := s + pat + t;
    assert all[|s|..|s| + |pat|] == pat;
    forall j | 0 <= j < |s| ensures !OccursAt(all, pat, j) {
      assert all[j] == s[j];
      if j + |pat| <= |all| { assert all[j..j + |pat|][0] == s[j]; }
    }
    IndexUnique(all, pat, |s|);
  }

  lemma NoBracketNoMarker(s: string, pat: string)
    requires BracketFree(s) && pat != "" && pat[0] == '['
    ensures Index(s, pat).None?
  {
    forall j: nat ensures !OccursAt(s, pat, j) {
      if j + |pat| <= |s| { assert s[j..j + |pat|][0] == s[j]; }
    }
  }

  /** A star between bracket-free texts is not a filter. */
  lemma StarIsNoFilter(s: string, t: string)
    requires BracketFree(s) && BracketFree(t)
    ensures Index(s + STAR + t, FILTER).None?
  {
    var all := s + STAR + t;
    forall j: nat ensures !OccursAt(all, FILTER, j) {
      if j + 12 <= |all| {
        var sub := all[j..j + 12];
        assert sub[0] == all[j] && sub[1] == all[j + 1];
        if j == |s| { assert sub[1] == '*' && FILTER[1] == '?'; }
      }
    }
  }

  /** The closing marker cannot start inside a text that does not contain it. */
  lemma FirstClose(condType: string, t: string)
    requires Index(condType, CLOSE).None?
    ensures Index(condType + CLOSE + t, CLOSE) == Some(|condType|)
  {
    var all := condType + CLOSE + t;
    var n := |condType|;
    assert all[n..n + 3] == CLOSE;
    forall j | 0 <= j < n ensures !OccursAt(all, CLOSE, j) {
      var sub := all[j..j + 3];
      if j + 3 <= n {
        assert !OccursAt(condType, CLOSE, j);
        OccursInSameText(condType, j, all, j, CLOSE);
      } else if j == n - 1 {
        assert sub[2] == all[n + 1] == ')' && CLOSE[2] == ']';
      } else {
        assert sub[2] == all[n] == '\'' && CLOSE[2] == ']';
      }
    }
    IndexUnique(all, CLOSE, n);
  }

  /** Printing a simple path and parsing the string gives the path back. */
  lemma RoundTrip(p: Path)
    requires Simple(p)
    ensures Parse(Print(p)) == p
  {
    match p
    case NoPath =>
    case Unsupported =>
    case Plain(keys) =>
      var path := Join(keys, ".");
      JoinBracketFree(keys);
      JoinEmpty(keys);
      TrimDot(path);
      NoBracketNoMarker(path, FILTER);
      NoBracketNoMarker(path, STAR);
      SplitJoin(keys);
    case Flatten(keys, sub) =>
      JoinBracketFree(keys);
      if sub.Some? {
        JoinBracketFree(sub.value);
        JoinEmpty(sub.value);
      }
      FirstBracket(Join(keys, "."), STAR, SubText(sub));
      StarIsNoFilter(Join(keys, "."), SubText(sub));
      FlattenBack(keys, sub);
    case Filter(keys, condType, field) =>
      JoinBracketFree(keys);
      FirstBracket(Join(keys, "."), FILTER, condType + CLOSE + FieldText(field));
      FirstClose(condType, FieldText(field));
      FilterBack(keys, condType, field);
  }

  /** The column a printed path shows is the path's value, and never "<unsupported>" for lack of support. */
  lemma ColumnOfPrintedPath(fmt: Json -> string, obj: map<string, Json>, p: Path)
    requires Simple(p)
    ensures Eval(fmt, Obj(obj), Parse(Print(p))) == Eval(fmt, Obj(obj), p)
    ensures !Parse(Print(p)).Unsupported?
  {
    RoundTrip(p);
  }

  /** Exactly the strings that open a filter and never close it are unsupported. */
  lemma UnsupportedExactly(s: string)
    ensures Parse(s).Unsupported? <==>
              var path := TrimPrefix(s, ".");
              Index(path, FILTER).Some?
              && forall j: nat :: j >= Index(path, FILTER).value + 12 ==> !OccursAt(path, CLOSE, j)
  {
    var path := TrimPrefix(s, ".");
    if Index(path, FILTER).Some? {
      OccursInTail(path, Index(path, FILTER).value + 12, CLOSE);
    }
  }

  lemma OccursInTail(s: string, from: nat, pat: string)
    requires from <= |s|
    ensures Index(s[from..], pat).None? <==> forall j: nat :: j >= from ==> !OccursAt(s, pat, j)
  {
    var tail := s[from..];
    forall j: nat | j >= from ensures OccursAt(s, pat, j) <==> OccursAt(tail, pat, j - from) {
      if j + |pat| <= |s| { OccursInSameText(s, j, tail, j - from, pat); }
    }
    if Index(tail, pat).Some? {
      assert OccursAt(s, pat, from + Index(tail, pat).value);
    } else {
      forall j: nat | j >= from ensures !OccursAt(s, pat, j) {
        if j <= |s| { assert !OccursAt(tail, pat, j - from); }
      }
    }
  }
}
