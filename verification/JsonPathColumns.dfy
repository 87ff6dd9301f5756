// What a column shows, read off the object by hand: which value a plain path
// reaches, which condition a filter picks, which elements a flattening joins.
module JsonPathColumns {
  import opened GoStrings
  import opened Json
  import opened JsonPath
  import opened JsonPathLaws

  /** s is how the value is written out. */
  predicate Shows(fmt: Json -> string, v: Json, s: string) {
    && (v.Str? ==> s == v.s)
    && (v.Bool? ==> s == if v.b then "true" else "false")
    && (v.Number? ==> s == v.text)
    && (v.Null? ==> s == "")
    && (v.Arr? || v.Obj? || v.Mark? ==> s == fmt(v))
  }

  /** The node below `at` under this key. */
  predicate Child(at: Json, key: string, below: Json) { at.Obj? && key in at.fields && at.fields[key] == below }

  predicate NoChild(at: Json, key: string) { !at.Obj? || key !in at.fields }

  /** The nodes on the way down the first n keys. */
  predicate Walk(nodes: seq<Json>, keys: seq<string>, n: nat) {
    n <= |keys| && |nodes| == n + 1 && forall i | 0 <= i < n :: Child(nodes[i], keys[i], nodes[i + 1])
  }

  /** The way down all keys ends at v. */
  ghost predicate Reaches(j: Json, keys: seq<string>, v: Json) {
    exists nodes :: Walk(nodes, keys, |keys|) && nodes[0] == j && nodes[|keys|] == v
  }

  /** The way down gets to a node that has no next key. */
  ghost predicate Stuck(j: Json, keys: seq<string>) {
    exists nodes, n: nat :: Walk(nodes, keys, n) && n < |keys| && nodes[0] == j && NoChild(nodes[n], keys[n])
  }

  lemma {:induction false} LookupOfWalk(nodes: seq<Json>, keys: seq<string>, n: nat)
    requires Walk(nodes, keys, n)
    ensures Lookup(nodes[0], keys) == Lookup(nodes[n], keys[n..])
  {
    if n == 0 {
      assert keys[0..] == keys;
    } else {
      assert Walk(nodes[..n], keys, n - 1) by {
        forall i | 0 <= i < n - 1 ensures Child(nodes[..n][i], keys[i], nodes[..n][i + 1]) {
          assert Child(nodes[i], keys[i], nodes[i + 1]);
        }
      }
      LookupOfWalk(nodes[..n], keys, n - 1);
      assert Child(nodes[n - 1], keys[n - 1], nodes[n]);
      assert keys[n - 1..][1..] == keys[n..];
    }
  }

  lemma LookupReaches(j: Json, keys: seq<string>, v: Json)
    requires Reaches(j, keys, v)
    ensures Lookup(j, keys) == Some(v)
  {
    var nodes :| Walk(nodes, keys, |keys|) && nodes[0] == j && nodes[|keys|] == v;
    LookupOfWalk(nodes, keys, |keys|);
  }

  lemma LookupStuck(j: Json, keys: seq<string>)
    requires Stuck(j, keys)
    ensures Lookup(j, keys).None?
  {
    var nodes, n: nat :| Walk(nodes, keys, n) && n < |keys| && nodes[0] == j && NoChild(nodes[n], keys[n]);
    LookupOfWalk(nodes, keys, n);
  }

  lemma WalkCons(j: Json, keys: seq<string>, rest: seq<Json>, n: nat)
    requires keys != [] && Walk(rest, keys[1..], n) && Child(j, keys[0], rest[0])
    ensures Walk([j] + rest, keys, n + 1)
  {
    hide Child;
    var nodes := [j] + rest;
    forall i | 0 <= i < n + 1 ensures Child(nodes[i], keys[i], nodes[i + 1]) {
      if i > 0 { assert Child(rest[i - 1], keys[1..][i - 1], rest[i]); }
    }
  }

  lemma {:induction false} LookupWalks(j: Json, keys: seq<string>)
    requires Lookup(j, keys).Some?
    ensures Reaches(j, keys, Lookup(j, keys).value)
  {
    if keys == [] {
      assert Walk([j], keys, 0);
    } else {
      var below := j.fields[keys[0]];
      LookupWalks(below, keys[1..]);
      var rest :| Walk(rest, keys[1..], |keys| - 1) && rest[0] == below && rest[|keys| - 1] == Lookup(j, keys).value;
      WalkCons(j, keys, rest, |keys| - 1);
      assert ([j] + rest)[0] == j && ([j] + rest)[|keys|] == rest[|keys| - 1];
    }
  }

  lemma StuckBelow(j: Json, keys: seq<string>, below: Json)
    requires keys != [] && Child(j, keys[0], below) && Stuck(below, keys[1..])
    ensures Stuck(j, keys)
  {
    var rest, n: nat :| Walk(rest, keys[1..], n) && n < |keys| - 1 && rest[0] == below
                        && NoChild(rest[n], keys[1..][n]);
    WalkCons(j, keys, rest, n);
    assert ([j] + rest)[0] == j && ([j] + rest)[n + 1] == rest[n] && keys[n + 1] == keys[1..][n];
  }

  /** Every object and key list: the way down ends at one value, or gets stuck. */
  lemma {:induction false} ReachesOrStuck(j: Json, keys: seq<string>)
    ensures if Lookup(j, keys).Some? then Reaches(j, keys, Lookup(j, keys).value) else Stuck(j, keys)
  {
    hide Reaches;
    if Lookup(j, keys).Some? {
      LookupWalks(j, keys);
    } else if j.Obj? && keys[0] in j.fields {
      ReachesOrStuck(j.fields[keys[0]], keys[1..]);
      StuckBelow(j, keys, j.fields[keys[0]]);
    } else {
      assert Walk([j], keys, 0) && NoChild([j][0], keys[0]);
    }
  }

  lemma ScalarShows(fmt: Json -> string, v: Json)
    ensures Shows(fmt, v, ScalarToString(fmt, v))
  {}

  // ----- Plain paths ----------------------------------------------------

  lemma ColumnIsEval(fmt: Json -> string, obj: map<string, Json>, p: Path, path: string)
    requires Simple(p) && path == Print(p)
    ensures Column(fmt, obj, path) == Eval(fmt, Obj(obj), p)
  {
    RoundTrip(p);
  }

  /** A plain path shows the value at the end of its keys, and nothing when the way down gets stuck. */
  lemma PlainColumn(fmt: Json -> string, obj: map<string, Json>, keys: seq<string>)
    requires SimpleKeys(keys) && keys != [""]
    ensures forall v :: Reaches(Obj(obj), keys, v) ==> Shows(fmt, v, Column(fmt, obj, "." + Join(keys, ".")))
    ensures Stuck(Obj(obj), keys) ==> Column(fmt, obj, "." + Join(keys, ".")) == ""
  {
    var path := "." + Join(keys, ".");
    ColumnIsEval(fmt, obj, Plain(keys), path);
    forall v | Reaches(Obj(obj), keys, v) ensures Shows(fmt, v, Column(fmt, obj, path)) {
      LookupReaches(Obj(obj), keys, v);
      ScalarShows(fmt, v);
    }
    if Stuck(Obj(obj), keys) { LookupStuck(Obj(obj), keys); }
  }

  // ----- Filters --------------------------------------------------------

  predicate TypeIs(e: Json, condType: string) { e.Obj? && "type" in e.fields && e.fields["type"] == Str(condType) }

  /** Element i is the first map with that type. */
  predicate FirstOfType(conds: seq<Json>, condType: string, i: nat) {
    i < |conds| && TypeIs(conds[i], condType) && forall j | 0 <= j < i :: !TypeIs(conds[j], condType)
  }

  lemma FirstIsFound(conds: seq<Json>, condType: string)
    ensures FirstCondition(conds, condType).None? <==> forall i | 0 <= i < |conds| :: !TypeIs(conds[i], condType)
    ensures forall i: nat | FirstOfType(conds, condType, i) :: FirstCondition(conds, condType) == Some(conds[i])
  {
    var c := FirstCondition(conds, condType);
    forall i: nat | FirstOfType(conds, condType, i) ensures c == Some(conds[i]) {
      assert HasType(conds[i], condType);
      var k :| 0 <= k < |conds| && conds[k] == c.value && HasType(conds[k], condType)
               && forall j | 0 <= j < k :: !HasType(conds[j], condType);
      assert TypeIs(conds[k], condType);
      assert k == i;
    }
  }

  /** The closing marker does not occur in the text. */
  ghost predicate Closeless(s: string) { forall j: nat :: !OccursAt(s, "')]", j) }

  /**
   * A filter with a field: the value stored under that very key in the first
   * map of the type; nothing when the key or such a map is missing.
   */
  lemma FilterColumn(fmt: Json -> string, obj: map<string, Json>, keys: seq<string>, condType: string, field: string,
                     conds: seq<Json>)
    requires SimpleKeys(keys) && Closeless(condType) && field != "" && Reaches(Obj(obj), keys, Arr(conds))
    ensures var c := Column(fmt, obj, "." + Join(keys, ".") + "[?(@.type=='" + condType + "')]" + "." + field);
            && (forall i: nat | FirstOfType(conds, condType, i) && field in conds[i].fields ::
                  Shows(fmt, conds[i].fields[field], c))
            && (forall i: nat | FirstOfType(conds, condType, i) && field !in conds[i].fields :: c == "")
            && ((forall i | 0 <= i < |conds| :: !TypeIs(conds[i], condType)) ==> c == "")
  {
    var p := Filter(keys, condType, Some(field));
    var path := "." + Join(keys, ".") + "[?(@.type=='" + condType + "')]" + "." + field;
    assert path == Print(p);
    assert Index(condType, CLOSE).None?;
    ColumnIsEval(fmt, obj, p, path);
    LookupReaches(Obj(obj), keys, Arr(conds));
    FirstIsFound(conds, condType);
    forall i: nat | FirstOfType(conds, condType, i) && field in conds[i].fields
      ensures Shows(fmt, conds[i].fields[field], Column(fmt, obj, path))
    {
      ScalarShows(fmt, conds[i].fields[field]);
    }
  }

  /** A filter without a field: the first map of the type itself. */
  lemma BareFilterColumn(fmt: Json -> string, obj: map<string, Json>, keys: seq<string>, condType: string,
                         conds: seq<Json>)
    requires SimpleKeys(keys) && Closeless(condType) && Reaches(Obj(obj), keys, Arr(conds))
    ensures var c := Column(fmt, obj, "." + Join(keys, ".") + "[?(@.type=='" + condType + "')]");
            && (forall i: nat | FirstOfType(conds, condType, i) :: Shows(fmt, conds[i], c))
            && ((forall i | 0 <= i < |conds| :: !TypeIs(conds[i], condType)) ==> c == "")
  {
    hide FirstOfType, TypeIs, FirstCondition, Lookup;
    var p := Filter(keys, condType, None);
    var path := "." + Join(keys, ".") + "[?(@.type=='" + condType + "')]";
    assert path == Print(p);
    assert Index(condType, CLOSE).None?;
    ColumnIsEval(fmt, obj, p, path);
    LookupReaches(Obj(obj), keys, Arr(conds));
    FirstIsFound(conds, condType);
    forall i: nat | FirstOfType(conds, condType, i) && i < |conds| ensures Shows(fmt, conds[i], Column(fmt, obj, path)) {
      ScalarShows(fmt, conds[i]);
    }
  }

  // ----- Flattening -----------------------------------------------------

  /** The texts one after the other, with commas between them. */
  predicate CommaJoined(texts: seq<string>, s: string) {
    if texts == [] then s == ""
    else if |texts| == 1 then s == texts[0]
    else
      var n := |texts[0]|;
      |s| > n && s[..n] == texts[0] && s[n] == ',' && CommaJoined(texts[1..], s[n + 1..])
  }

  lemma {:induction false} JoinIsCommaJoined(texts: seq<string>)
    ensures CommaJoined(texts, Join(texts, ","))
  {
    if |texts| > 1 {
      JoinIsCommaJoined(texts[1..]);
      var s, n := Join(texts, ","), |texts[0]|;
      assert s == texts[0] + "," + Join(texts[1..], ",");
      assert s[n + 1..] == Join(texts[1..], ",");
    }
  }

  /** Positions from..|es| of the elements that have a value below the keys, in order, with these values. */
  ghost predicate Contributions(es: seq<Json>, from: nat, keys: seq<string>, at: seq<nat>, values: seq<Json>) {
    && |at| == |values|
    && (forall k | 0 <= k < |at| :: from <= at[k] < |es| && es[at[k]].Obj? && Reaches(es[at[k]], keys, values[k]))
    && (forall k, l | 0 <= k < l < |at| :: at[k] < at[l])
    && (forall i: nat, v | from <= i < |es| && es[i].Obj? && Reaches(es[i], keys, v) :: i in at)
  }

  /** Text k is how value k is written out. */
  predicate AllShow(fmt: Json -> string, values: seq<Json>, texts: seq<string>) {
    |texts| == |values| && forall k | 0 <= k < |texts| :: Shows(fmt, values[k], texts[k])
  }

  lemma PartOfElement(fmt: Json -> string, e: Json, keys: seq<string>)
    ensures (e.Obj? && Lookup(e, keys).Some?) ==>
              Part(fmt, e, Some(keys)) == [ScalarToString(fmt, Lookup(e, keys).value)]
              && Reaches(e, keys, Lookup(e, keys).value)
    ensures !(e.Obj? && Lookup(e, keys).Some?) ==>
              Part(fmt, e, Some(keys)) == [] && forall v :: !(e.Obj? && Reaches(e, keys, v))
  {
    if e.Obj? && Lookup(e, keys).Some? {
      LookupWalks(e, keys);
    } else {
      forall v ensures !(e.Obj? && Reaches(e, keys, v)) {
        if e.Obj? && Reaches(e, keys, v) { LookupReaches(e, keys, v); }
      }
    }
  }

  lemma ContributionFirst(es: seq<Json>, from: nat, keys: seq<string>, at: seq<nat>, values: seq<Json>, v: Json)
    requires from < |es| && es[from].Obj? && Reaches(es[from], keys, v) && Contributions(es, from + 1, keys, at, values)
    ensures Contributions(es, from, keys, [from] + at, [v] + values)
  {
    hide Reaches;
  }

  lemma ContributionNone(es: seq<Json>, from: nat, keys: seq<string>, at: seq<nat>, values: seq<Json>)
    requires from < |es| && (forall v :: !(es[from].Obj? && Reaches(es[from], keys, v)))
    requires Contributions(es, from + 1, keys, at, values)
    ensures Contributions(es, from, keys, at, values)
  {
    hide Reaches;
  }

  lemma AllShowCons(fmt: Json -> string, v: Json, values: seq<Json>, text: string, texts: seq<string>)
    requires Shows(fmt, v, text) && AllShow(fmt, values, texts)
    ensures AllShow(fmt, [v] + values, [text] + texts)
  {
    hide Shows;
  }

  lemma PartsCons(fmt: Json -> string, es: seq<Json>, from: nat, sub: Option<seq<string>>)
    requires from < |es|
    ensures Parts(fmt, es[from..], sub) == Part(fmt, es[from], sub) + Parts(fmt, es[from + 1..], sub)
  {
    assert es[from..][1..] == es[from + 1..];
  }

  lemma {:induction false} PartsAre(fmt: Json -> string, es: seq<Json>, from: nat, keys: seq<string>)
    returns (at: seq<nat>, values: seq<Json>)
    requires from <= |es|
    ensures Contributions(es, from, keys, at, values) && AllShow(fmt, values, Parts(fmt, es[from..], Some(keys)))
    decreases |es| - from
  {
    if from == |es| {
      at, values := [], [];
    } else {
      hide Reaches, Contributions, Shows, AllShow, Parts, Part, Lookup, ScalarToString;
      at, values := PartsAre(fmt, es, from + 1, keys);
      var e, rest := es[from], Parts(fmt, es[from + 1..], Some(keys));
      PartsCons(fmt, es, from, Some(keys));
      PartOfElement(fmt, e, keys);
      if e.Obj? && Lookup(e, keys).Some? {
        var v := Lookup(e, keys).value;
        ScalarShows(fmt, v);
        AllShowCons(fmt, v, values, ScalarToString(fmt, v), rest);
        ContributionFirst(es, from, keys, at, values, v);
        at, values := [from] + at, [v] + values;
      } else {
        assert [] + rest == rest;
        ContributionNone(es, from, keys, at, values);
      }
    }
  }

  /**
   * A flattening with a sub path: the values that elements of the list have
   * there, in list order, joined with commas; elements without one are left out.
   */
  lemma FlattenColumn(fmt: Json -> string, obj: map<string, Json>, keys: seq<string>, sub: seq<string>, es: seq<Json>)
    returns (at: seq<nat>, values: seq<Json>, texts: seq<string>)
    requires SimpleKeys(keys) && SimpleKeys(sub) && sub != [""] && Reaches(Obj(obj), keys, Arr(es))
    ensures Contributions(es, 0, sub, at, values) && AllShow(fmt, values, texts)
    ensures CommaJoined(texts, Column(fmt, obj, "." + Join(keys, ".") + "[*]" + "." + Join(sub, ".")))
  {
    hide Contributions, CommaJoined, Shows;
    var p := Flatten(keys, Some(sub));
    var path := "." + Join(keys, ".") + "[*]" + "." + Join(sub, ".");
    assert path == Print(p);
    ColumnIsEval(fmt, obj, p, path);
    LookupReaches(Obj(obj), keys, Arr(es));
    texts := Parts(fmt, es, Some(sub));
    at, values := PartsAre(fmt, es, 0, sub);
    assert es[0..] == es;
    JoinIsCommaJoined(texts);
  }

  lemma {:induction false} WholeParts(fmt: Json -> string, es: seq<Json>)
    ensures AllShow(fmt, es, Parts(fmt, es, None))
  {
    if es != [] {
      WholeParts(fmt, es[1..]);
      ScalarShows(fmt, es[0]);
      var rest := Parts(fmt, es[1..], None);
      assert Parts(fmt, es, None) == [ScalarToString(fmt, es[0])] + rest;
      forall k | 0 <= k < |es| ensures Shows(fmt, es[k], Parts(fmt, es, None)[k]) {
        if k > 0 { assert es[k] == es[1..][k - 1] && Shows(fmt, es[1..][k - 1], rest[k - 1]); }
      }
    }
  }

  /** A flattening without a sub path: every element, in list order, joined with commas. */
  lemma BareFlattenColumn(fmt: Json -> string, obj: map<string, Json>, keys: seq<string>, es: seq<Json>)
    returns (texts: seq<string>)
    requires SimpleKeys(keys) && Reaches(Obj(obj), keys, Arr(es))
    ensures AllShow(fmt, es, texts) && CommaJoined(texts, Column(fmt, obj, "." + Join(keys, ".") + "[*]"))
  {
    hide CommaJoined, Shows;
    var p := Flatten(keys, None);
    var path := "." + Join(keys, ".") + "[*]";
    assert path == Print(p);
    ColumnIsEval(fmt, obj, p, path);
    LookupReaches(Obj(obj), keys, Arr(es));
    texts := Parts(fmt, es, None);
    WholeParts(fmt, es);
    JoinIsCommaJoined(texts);
  }

  // ----- No list, no path -----------------------------------------------

  /** The way down ends at something other than a list, or gets stuck. */
  ghost predicate NoList(j: Json, keys: seq<string>) {
    Stuck(j, keys) || exists v: Json :: Reaches(j, keys, v) && !v.Arr?
  }

  /** Filters and flattenings show nothing when there is no list at their keys. */
  lemma NoListNoColumn(fmt: Json -> string, obj: map<string, Json>, p: Path)
    requires Simple(p) && (p.Filter? || p.Flatten?) && NoList(Obj(obj), p.keys)
    ensures Column(fmt, obj, Print(p)) == ""
  {
    ColumnIsEval(fmt, obj, p, Print(p));
    if Stuck(Obj(obj), p.keys) {
      LookupStuck(Obj(obj), p.keys);
    } else {
      var v: Json :| Reaches(Obj(obj), p.keys, v) && !v.Arr?;
      LookupReaches(Obj(obj), p.keys, v);
    }
  }

  lemma TrimWithoutDot(s: string)
    requires s == "" || s[0] != '.'
    ensures TrimPrefix(s, ".") == s
  {
    if s != "" { assert s[..1][0] != "."[0]; }
  }

  /** The first dot of a path is optional. */
  lemma LeadingDotIsOptional(fmt: Json -> string, obj: map<string, Json>, s: string)
    requires s == "" || s[0] != '.'
    ensures Column(fmt, obj, "." + s) == Column(fmt, obj, s)
  {
    hide Eval, Split, Index, TrimPrefix;
    TrimDot(s);
    TrimWithoutDot(s);
  }

  /** The empty path shows nothing. */
  lemma EmptyColumn(fmt: Json -> string, obj: map<string, Json>)
    ensures Column(fmt, obj, "") == "" && Column(fmt, obj, ".") == ""
  {
    TrimDot("");
    TrimWithoutDot("");
    assert "." + "" == ".";
  }

  /** A filter that is never closed shows its own complaint. */
  lemma UnclosedFilterColumn(fmt: Json -> string, obj: map<string, Json>, keys: seq<string>, rest: string)
    requires SimpleKeys(keys) && Closeless(rest)
    ensures Column(fmt, obj, "." + Join(keys, ".") + "[?(@.type=='" + rest) == "<unsupported>"
  {
    var prefix := Join(keys, ".");
    var path := "." + prefix + "[?(@.type=='" + rest;
    assert path == "." + (prefix + FILTER + rest);
    TrimDot(prefix + FILTER + rest);
    JoinBracketFree(keys);
    FirstBracket(prefix, FILTER, rest);
    CutBack(prefix, FILTER, rest);
    assert Index(rest, CLOSE).None?;
  }
}
