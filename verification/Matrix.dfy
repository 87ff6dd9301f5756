// The application matrix: columns and rows built by the read model
// (internal/api/readmodel/crdsource) and the table the CLI renders from them
// (internal/cli/commands.go).
module Matrix {
  import opened GoStrings
  import opened Sorting
  import opened ReadModel

  /** An (environment, region) pair. */
  datatype Pair = Pair(env: string, region: string)

  predicate PairLess(a: Pair, b: Pair) {
    Less(a.env, b.env) || (a.env == b.env && Less(a.region, b.region))
  }

  function PairOf(t: Target): Pair { Pair(t.environment, t.region) }

  /** The de-duplication key. */
  function Key(p: Pair): string { p.env + "\0" + p.region }

  datatype Column = Column(env: Option<string>, region: Option<string>)

  function ColumnOf(p: Pair): Column { Column(StrPtrOrNil(p.env), StrPtrOrNil(p.region)) }

  function PairAt(c: Column): Pair { Pair(Deref(c.env), Deref(c.region)) }

  function Pairs(cols: seq<Column>): (ps: seq<Pair>)
    ensures |ps| == |cols|
  {
    seq(|cols|, i requires 0 <= i < |cols| => PairAt(cols[i]))
  }

  lemma PairLessIsStrict()
    ensures StrictOrder(PairLess)
  {
    forall x ensures !PairLess(x, x) {
      LessIrreflexive(x.env);
      LessIrreflexive(x.region);
    }
    forall x, y, z | PairLess(x, y) && PairLess(y, z) ensures PairLess(x, z) {
      if Less(x.env, y.env) && Less(y.env, z.env) { LessTransitive(x.env, y.env, z.env); }
      if Less(x.region, y.region) && Less(y.region, z.region) { LessTransitive(x.region, y.region, z.region); }
    }
  }

  lemma PairLessTotal(a: Pair, b: Pair)
    ensures PairLess(a, b) || a == b || PairLess(b, a)
  {
    LessTotal(a.env, b.env);
    LessTotal(a.region, b.region);
  }

  /** The comparator of matrixColumns, as "not after". */
  predicate TargetAtMost(a: Target, b: Target) { !PairLess(PairOf(b), PairOf(a)) }

  lemma TargetAtMostIsTotal()
    ensures TotalPreorder(TargetAtMost)
  {
    PairLessIsStrict();
    forall x, y, z | TargetAtMost(x, y) && TargetAtMost(y, z) ensures TargetAtMost(x, z) {
      PairLessTotal(PairOf(x), PairOf(y));
    }
    forall x, y ensures TargetAtMost(x, y) || TargetAtMost(y, x) {
      assert !(PairLess(PairOf(y), PairOf(x)) && PairLess(PairOf(x), PairOf(y)));
    }
  }

  // ----- Columns --------------------------------------------------------

  predicate InInput(p: Pair, ts: seq<Target>) { exists i :: 0 <= i < |ts| && PairOf(ts[i]) == p }

  /** No smaller pair of the input has the same key. */
  predicate LeastOfKey(p: Pair, ts: seq<Target>) {
    forall i | 0 <= i < |ts| && Key(PairOf(ts[i])) == Key(p) :: !PairLess(PairOf(ts[i]), p)
  }

  /** Strictly increasing pairs, one for each key in use: the least that has it. */
  ghost predicate ColumnsOf(cols: seq<Column>, ts: seq<Target>) {
    && (forall i | 0 <= i < |cols| :: cols[i] == ColumnOf(PairAt(cols[i])))
    && Increasing(PairLess, Pairs(cols))
    && (forall p :: p in Pairs(cols) <==> InInput(p, ts) && LeastOfKey(p, ts))
  }

  /** One of the first n targets has key k. */
  predicate KeyBefore(ts: seq<Target>, n: nat, k: string)
    requires n <= |ts|
  {
    exists q :: 0 <= q < n && Key(PairOf(ts[q])) == k
  }

  lemma KeyBeforeNext(ts: seq<Target>, n: nat, k: string)
    requires n < |ts|
    ensures KeyBefore(ts, n + 1, k) <==> KeyBefore(ts, n, k) || k == Key(PairOf(ts[n]))
  {
    if KeyBefore(ts, n, k) {
      var q :| 0 <= q < n && Key(PairOf(ts[q])) == k;
      assert 0 <= q < n + 1;
    }
  }

  /** The map holds the keys of the first n targets. */
  ghost predicate SeenKeys(seen: map<string, bool>, ts: seq<Target>, n: nat)
    requires n <= |ts|
  {
    forall k :: k in seen <==> KeyBefore(ts, n, k)
  }

  lemma NoneSeen(ts: seq<Target>)
    ensures SeenKeys(map[], ts, 0)
  {}

  lemma SeenNext(seen: map<string, bool>, ts: seq<Target>, n: nat, key: string)
    requires n < |ts| && SeenKeys(seen, ts, n) && key == Key(PairOf(ts[n]))
    ensures key in seen <==> KeyBefore(ts, n, key)
    ensures key in seen ==> SeenKeys(seen, ts, n + 1)
    ensures SeenKeys(seen[key := true], ts, n + 1)
  {
    forall k { KeyBeforeNext(ts, n, k); }
  }

  /** No earlier target has the key of target j. */
  predicate FirstWithKey(ts: seq<Target>, j: nat)
    requires j < |ts|
  {
    !KeyBefore(ts, j, Key(PairOf(ts[j])))
  }

  method MatrixColumns(targets: seq<Target>) returns (cols: seq<Column>)
    ensures ColumnsOf(cols, targets)
  {
    hide Key, Picked, ColumnsOf, SeenKeys, KeyBefore;
    TargetAtMostIsTotal();
    var sorted := SortSlice(TargetAtMost, targets);
    var seen: map<string, bool> := map[];
    ghost var picks: seq<nat> := [];
    cols := [];
    PickedNone(sorted);
    NoneSeen(sorted);
    for i := 0 to |sorted|
      invariant SeenKeys(seen, sorted, i)
      invariant Picked(cols, sorted, picks, i)
    {
      var p := PairOf(sorted[i]);
      var key := Key(p);
      SeenNext(seen, sorted, i, key);
      if key in seen {
        PickedSkip(cols, sorted, picks, i);
        continue;
      }
      PickedNext(cols, sorted, picks, i);
      seen := seen[key := true];
      cols := cols + [ColumnOf(p)];
      picks := picks + [i];
    }
    PickedColumns(cols, sorted, picks);
    SameInput(cols, sorted, targets);
  }

  /** Column c was made from target picks[c]; the picks are the first ones with their key, in order. */
  ghost predicate Picked(cols: seq<Column>, ts: seq<Target>, picks: seq<nat>, n: nat) {
    && n <= |ts| && |picks| == |cols|
    && (forall c | 0 <= c < |picks| ::
          picks[c] < n && FirstWithKey(ts, picks[c]) && cols[c] == ColumnOf(PairOf(ts[picks[c]])))
    && (forall c, d | 0 <= c < d < |picks| :: picks[c] < picks[d])
    && (forall j: nat | j < n && FirstWithKey(ts, j) :: j in picks)
  }

  lemma PickedNone(ts: seq<Target>)
    ensures Picked([], ts, [], 0)
  {}

  lemma PickedSkip(cols: seq<Column>, ts: seq<Target>, picks: seq<nat>, n: nat)
    requires n < |ts| && Picked(cols, ts, picks, n) && !FirstWithKey(ts, n)
    ensures Picked(cols, ts, picks, n + 1)
  {}

  lemma PickedNext(cols: seq<Column>, ts: seq<Target>, picks: seq<nat>, n: nat)
    requires n < |ts| && Picked(cols, ts, picks, n) && FirstWithKey(ts, n)
    ensures Picked(cols + [ColumnOf(PairOf(ts[n]))], ts, picks + [n], n + 1)
  {}

  lemma {:induction false} FirstOfKey(ts: seq<Target>, j: nat) returns (f: nat)
    requires j < |ts|
    ensures f <= j && FirstWithKey(ts, f) && Key(PairOf(ts[f])) == Key(PairOf(ts[j]))
  {
    if FirstWithKey(ts, j) {
      f := j;
    } else {
      var q :| 0 <= q < j && Key(PairOf(ts[q])) == Key(PairOf(ts[j]));
      f := FirstOfKey(ts, q);
    }
  }

  lemma PickedColumns(cols: seq<Column>, ts: seq<Target>, picks: seq<nat>)
    requires SortedBy(TargetAtMost, ts) && Picked(cols, ts, picks, |ts|)
    ensures ColumnsOf(cols, ts)
  {
    forall c | 0 <= c < |cols| ensures PairAt(cols[c]) == PairOf(ts[picks[c]]) {}
    forall c, d | 0 <= c < d < |cols| ensures PairLess(Pairs(cols)[c], Pairs(cols)[d]) {
      assert FirstWithKey(ts, picks[d]);
      assert Key(PairOf(ts[picks[c]])) != Key(PairOf(ts[picks[d]]));
      assert TargetAtMost(ts[picks[c]], ts[picks[d]]);
      PairLessTotal(PairOf(ts[picks[c]]), PairOf(ts[picks[d]]));
    }
    forall p | p in Pairs(cols) ensures InInput(p, ts) && LeastOfKey(p, ts) {
      var c :| 0 <= c < |cols| && Pairs(cols)[c] == p;
      assert PairOf(ts[picks[c]]) == p;
      PickIsLeast(ts, picks[c]);
    }
    forall p | InInput(p, ts) && LeastOfKey(p, ts) ensures p in Pairs(cols) {
      var j :| 0 <= j < |ts| && PairOf(ts[j]) == p;
      var f := FirstOfKey(ts, j);
      assert f != j ==> TargetAtMost(ts[f], ts[j]);
      assert !PairLess(PairOf(ts[f]), p);
      PairLessTotal(PairOf(ts[f]), p);
      PairLessIsStrict();
      assert f in picks;
      var c :| 0 <= c < |picks| && picks[c] == f;
      assert Pairs(cols)[c] == p;
    }
  }

  lemma PickIsLeast(ts: seq<Target>, f: nat)
    requires SortedBy(TargetAtMost, ts) && f < |ts| && FirstWithKey(ts, f)
    ensures LeastOfKey(PairOf(ts[f]), ts)
  {
    PairLessIsStrict();
    forall i | 0 <= i < |ts| && Key(PairOf(ts[i])) == Key(PairOf(ts[f]))
      ensures !PairLess(PairOf(ts[i]), PairOf(ts[f]))
    {
      assert i >= f;
      assert i > f ==> TargetAtMost(ts[f], ts[i]);
    }
  }

  /** ColumnsOf looks at the input as a bag. */
  lemma SameInput(cols: seq<Column>, ts: seq<Target>, us: seq<Target>)
    requires ColumnsOf(cols, ts) && multiset(ts) == multiset(us)
    ensures ColumnsOf(cols, us)
  {
    forall p ensures InInput(p, ts) <==> InInput(p, us) {
      SameMembers(p, ts, us);
      SameMembers(p, us, ts);
    }
    forall p ensures LeastOfKey(p, ts) <==> LeastOfKey(p, us) {
      SameLeast(p, ts, us);
      SameLeast(p, us, ts);
    }
  }

  lemma SameMembers(p: Pair, ts: seq<Target>, us: seq<Target>)
    requires multiset(ts) == multiset(us)
    ensures InInput(p, ts) ==> InInput(p, us)
  {
    if InInput(p, ts) {
      var i :| 0 <= i < |ts| && PairOf(ts[i]) == p;
      assert ts[i] in multiset(us);
      var j :| 0 <= j < |us| && us[j] == ts[i];
      assert PairOf(us[j]) == p;
    }
  }

  lemma SameLeast(p: Pair, ts: seq<Target>, us: seq<Target>)
    requires multiset(ts) == multiset(us)
    ensures LeastOfKey(p, ts) ==> LeastOfKey(p, us)
  {
    if LeastOfKey(p, ts) {
      forall i | 0 <= i < |us| && Key(PairOf(us[i])) == Key(p) ensures !PairLess(PairOf(us[i]), p) {
        assert us[i] in multiset(ts);
        var j :| 0 <= j < |ts| && ts[j] == us[i];
        assert !PairLess(PairOf(ts[j]), p);
      }
    }
  }

  /** The columns are a function of the bag of targets: no order, no tie-breaking shows. */
  lemma ColumnsAreCanonical(cols: seq<Column>, cols': seq<Column>, ts: seq<Target>, ts': seq<Target>)
    requires multiset(ts) == multiset(ts')
    requires ColumnsOf(cols, ts) && ColumnsOf(cols', ts')
    ensures cols == cols'
  {
    SameInput(cols', ts', ts);
    PairLessIsStrict();
    IncreasingUnique(PairLess, Pairs(cols), Pairs(cols'));
    assert |cols| == |Pairs(cols)| == |Pairs(cols')| == |cols'|;
    forall i | 0 <= i < |cols| ensures cols[i] == cols'[i] {
      assert Pairs(cols)[i] == Pairs(cols')[i];
    }
  }

  /** Different pairs of the input have different keys. */
  predicate KeysSeparate(ts: seq<Target>) {
    forall i, j | 0 <= i < |ts| && 0 <= j < |ts| && Key(PairOf(ts[i])) == Key(PairOf(ts[j])) ::
      PairOf(ts[i]) == PairOf(ts[j])
  }

  /** The columns are exactly the pairs of the input if and only if the keys tell them apart. */
  lemma ColumnsAreThePairs(cols: seq<Column>, ts: seq<Target>)
    requires ColumnsOf(cols, ts)
    ensures (forall p :: p in Pairs(cols) <==> InInput(p, ts)) <==> KeysSeparate(ts)
  {
    PairLessIsStrict();
    if KeysSeparate(ts) {
      forall p | InInput(p, ts) ensures p in Pairs(cols) {
        var i :| 0 <= i < |ts| && PairOf(ts[i]) == p;
        assert LeastOfKey(p, ts);
      }
    }
    if forall p :: p in Pairs(cols) <==> InInput(p, ts) {
      forall i, j | 0 <= i < |ts| && 0 <= j < |ts| && Key(PairOf(ts[i])) == Key(PairOf(ts[j]))
        ensures PairOf(ts[i]) == PairOf(ts[j])
      {
        var p, q := PairOf(ts[i]), PairOf(ts[j]);
        assert InInput(p, ts) && InInput(q, ts);
        assert LeastOfKey(p, ts) && LeastOfKey(q, ts);
        PairLessTotal(p, q);
      }
    }
  }

  predicate NulFree(s: string) { '\0' !in s }

  lemma {:induction false} KeyInjective(e: string, r: string, e': string, r': string)
    requires NulFree(e) && NulFree(e') && e + "\0" + r == e' + "\0" + r'
    ensures e == e' && r == r'
  {
    var s, s' := e + "\0" + r, e' + "\0" + r';
    if e == "" || e' == "" {
      assert s[0] == s'[0];
      assert e == "" && e' == "";
      assert s[1..] == r && s'[1..] == r';
    } else {
      assert s[0] == s'[0];
      assert s[1..] == e[1..] + "\0" + r && s'[1..] == e'[1..] + "\0" + r';
      KeyInjective(e[1..], r, e'[1..], r');
      assert e == [e[0]] + e[1..] && e' == [e'[0]] + e'[1..];
    }
  }

  /** Without NUL in environment names every pair gets its column. */
  lemma NulFreeKeysSeparate(ts: seq<Target>)
    requires forall i | 0 <= i < |ts| :: NulFree(ts[i].environment)
    ensures KeysSeparate(ts)
  {
    forall i, j | 0 <= i < |ts| && 0 <= j < |ts| && Key(PairOf(ts[i])) == Key(PairOf(ts[j]))
      ensures PairOf(ts[i]) == PairOf(ts[j])
    {
      KeyInjective(ts[i].environment, ts[i].region, ts[j].environment, ts[j].region);
    }
  }

  /** With NUL a column can get lost: this input has a second pair, and no column for it. */
  lemma NulColumnLost(t: Target, cols: seq<Column>)
    requires ColumnsOf(cols, [t.(environment := "a", region := "b\0c"), t.(environment := "a\0b", region := "c")])
    ensures Pair("a\0b", "c") !in Pairs(cols)
  {
    var ts := [t.(environment := "a", region := "b\0c"), t.(environment := "a\0b", region := "c")];
    var lost := Pair("a\0b", "c");
    assert "a" + "\0" + "b\0c" == "a\0b" + "\0" + "c";
    assert Key(PairOf(ts[0])) == Key(lost);
    assert "a\0b"[1..] == "\0b" && "a"[1..] == "";
    assert PairLess(PairOf(ts[0]), lost);
  }
}
