// Conservation of targets through ListEnvironments and flattenTargets.
module TopologyLaws {
  import opened GoStrings
  import opened Sorting
  import opened ReadModel
  import opened Topology

  predicate Distinct(names: seq<string>) {
    forall i, j | 0 <= i < j < |names| :: names[i] != names[j]
  }

  function Elements(names: seq<string>): (r: set<string>)
    ensures forall x :: x in r <==> x in names
  {
    if names == [] then {} else {names[0]} + Elements(names[1..])
  }

  /** The groups of ts named by ns, one after the other, as API targets. */
  function Groups(ts: seq<Target>, f: Field, ns: seq<string>): seq<ApiTarget> {
    if ns == [] then [] else TargetsToAPI(Select(ts, f, ns[0])) + Groups(ts, f, ns[1..])
  }

  /** The bag of a group, mapped. */
  ghost function GroupBag(ts: seq<Target>, f: Field, k: string): multiset<ApiTarget> {
    multiset(TargetsToAPI(Select(ts, f, k)))
  }

  /** The bag of several groups, mapped. */
  ghost function GroupsBag(ts: seq<Target>, f: Field, ks: set<string>): multiset<ApiTarget> {
    multiset(TargetsToAPI(SelectIn(ts, f, ks)))
  }

  ghost function OneIf(c: bool, x: ApiTarget): multiset<ApiTarget> { if c then multiset{x} else multiset{} }

  /** A group and a set of other groups share nothing and lose nothing. */
  lemma {:induction false} SplitGroup(ts: seq<Target>, f: Field, k: string, ks: set<string>, all: set<string>)
    requires k !in ks && all == {k} + ks
    ensures GroupsBag(ts, f, all) == GroupBag(ts, f, k) + GroupsBag(ts, f, ks)
  {
    if ts != [] {
      var x, head := TargetToAPI(ts[0]), FieldOf(f, ts[0]);
      SplitGroup(ts[1..], f, k, ks, all);
      GroupBagCons(ts, f, k);
      GroupsBagCons(ts, f, ks);
      GroupsBagCons(ts, f, all);
      OneOfTwo(head == k, head in ks, x, GroupBag(ts[1..], f, k), GroupsBag(ts[1..], f, ks));
    }
  }

  lemma OneOfTwo(inA: bool, inB: bool, x: ApiTarget, a: multiset<ApiTarget>, b: multiset<ApiTarget>)
    requires !(inA && inB)
    ensures OneIf(inA || inB, x) + (a + b) == (OneIf(inA, x) + a) + (OneIf(inB, x) + b)
  {}

  lemma MapCons(s: seq<Target>, x: Target, rest: seq<Target>)
    requires s == [x] + rest
    ensures multiset(TargetsToAPI(s)) == multiset{TargetToAPI(x)} + multiset(TargetsToAPI(rest))
  {
    assert s[1..] == rest;
  }

  lemma GroupBagCons(ts: seq<Target>, f: Field, k: string)
    requires ts != []
    ensures GroupBag(ts, f, k) == OneIf(FieldOf(f, ts[0]) == k, TargetToAPI(ts[0])) + GroupBag(ts[1..], f, k)
  {
    var rest := Select(ts[1..], f, k);
    if FieldOf(f, ts[0]) == k {
      MapCons(Select(ts, f, k), ts[0], rest);
    } else {
      assert [] + rest == rest;
    }
  }

  lemma GroupsBagCons(ts: seq<Target>, f: Field, ks: set<string>)
    requires ts != []
    ensures GroupsBag(ts, f, ks) == OneIf(FieldOf(f, ts[0]) in ks, TargetToAPI(ts[0])) + GroupsBag(ts[1..], f, ks)
  {
    var rest := SelectIn(ts[1..], f, ks);
    if FieldOf(f, ts[0]) in ks {
      MapCons(SelectIn(ts, f, ks), ts[0], rest);
    } else {
      assert [] + rest == rest;
    }
  }

  lemma {:induction false} SelectInNone(ts: seq<Target>, f: Field)
    ensures SelectIn(ts, f, {}) == []
  {
    if ts != [] { SelectInNone(ts[1..], f); }
  }

  lemma {:induction false} SelectInAll(ts: seq<Target>, f: Field, ks: set<string>)
    requires forall i | 0 <= i < |ts| :: FieldOf(f, ts[i]) in ks
    ensures SelectIn(ts, f, ks) == ts
  {
    if ts != [] {
      forall i | 0 <= i < |ts[1..]| ensures FieldOf(f, ts[1..][i]) in ks { assert ts[1..][i] == ts[i + 1]; }
      SelectInAll(ts[1..], f, ks);
    }
  }

  /** Distinct names: the groups together are exactly the targets so named. */
  lemma {:induction false} GroupsPartition(ts: seq<Target>, f: Field, ns: seq<string>)
    requires Distinct(ns)
    ensures multiset(Groups(ts, f, ns)) == multiset(TargetsToAPI(SelectIn(ts, f, Elements(ns))))
  {
    if ns == [] {
      assert Elements(ns) == {};
      SelectInNone(ts, f);
    } else {
      GroupsPartition(ts, f, ns[1..]);
      assert ns[0] !in Elements(ns[1..]);
      SplitGroup(ts, f, ns[0], Elements(ns[1..]), Elements(ns));
    }
  }

  // ----- Cells of one environment ---------------------------------------

  lemma {:induction false} ConcatIsGroups(cells: seq<ApiCell>, ts: seq<Target>)
    requires forall i | 0 <= i < |cells| :: CellOf(cells[i], ts, Deref(cells[i].name))
    ensures ConcatTargets(cells) == Groups(ts, ByCell, CellNames(cells))
  {
    if cells != [] {
      assert CellNames(cells)[1..] == CellNames(cells[1..]);
      ConcatIsGroups(cells[1..], ts);
      assert CellOf(cells[0], ts, Deref(cells[0].name));
    }
  }

  lemma StrictIsDistinct(s: seq<string>)
    requires StrictlySorted(s)
    ensures Distinct(s)
  {
    forall i, j | 0 <= i < j < |s| ensures s[i] != s[j] {
      LessIrreflexive(s[i]);
    }
  }

  /** An environment's cells hold exactly the targets they were built from. */
  lemma CellsConserve(out: ApiEnvironment, e: Environment, ts: seq<Target>)
    requires EnvironmentOf(out, e, ts)
    ensures multiset(FlattenCells(out.cells)) == multiset(TargetsToAPI(ts))
  {
    if out.cells.Some? {
      var cells := out.cells.value;
      var names := CellNames(cells);
      ConcatIsGroups(cells, ts);
      StrictIsDistinct(names);
      GroupsPartition(ts, ByCell, names);
      forall i | 0 <= i < |ts| ensures FieldOf(ByCell, ts[i]) in Elements(names) {
        assert InUse(ts, ByCell, FieldOf(ByCell, ts[i]));
        assert FieldOf(ByCell, ts[i]) in names;
      }
      SelectInAll(ts, ByCell, Elements(names));
    }
  }

  // ----- All environments -----------------------------------------------

  function Names(envs: seq<Environment>): (ns: seq<string>)
    ensures |ns| == |envs|
  {
    seq(|envs|, i requires 0 <= i < |envs| => envs[i].name)
  }

  /** The cells of an answer hold exactly these targets. */
  predicate Holds(out: ApiEnvironment, ts: seq<Target>) {
    multiset(FlattenCells(out.cells)) == multiset(TargetsToAPI(ts))
  }

  lemma EachHoldsItsOwn(out: seq<ApiEnvironment>, sorted: seq<Environment>, targets: seq<Target>)
    requires Listing(out, sorted, targets)
    ensures |out| == |sorted|
    ensures forall i | 0 <= i < |out| :: Holds(out[i], Select(targets, ByEnvironment, Names(sorted)[i]))
  {
    forall i | 0 <= i < |out| ensures Holds(out[i], Select(targets, ByEnvironment, Names(sorted)[i])) {
      CellsConserve(out[i], sorted[i], Select(targets, ByEnvironment, sorted[i].name));
    }
  }

  lemma {:induction false} FlattenIsGroups(out: seq<ApiEnvironment>, ns: seq<string>, targets: seq<Target>)
    requires |out| == |ns| && forall i | 0 <= i < |out| :: Holds(out[i], Select(targets, ByEnvironment, ns[i]))
    ensures multiset(Flatten(out)) == multiset(Groups(targets, ByEnvironment, ns))
  {
    if out != [] {
      FlattenIsGroups(out[1..], ns[1..], targets);
      assert Holds(out[0], Select(targets, ByEnvironment, ns[0]));
      SumsAgree(FlattenCells(out[0].cells), Flatten(out[1..]),
                TargetsToAPI(Select(targets, ByEnvironment, ns[0])), Groups(targets, ByEnvironment, ns[1..]));
    }
  }

  lemma SumsAgree<T>(a: seq<T>, b: seq<T>, c: seq<T>, d: seq<T>)
    requires multiset(a) == multiset(c) && multiset(b) == multiset(d)
    ensures multiset(a + b) == multiset(c + d)
  {}

  /** The listed targets, as the target list would map them. */
  function Listed(envs: seq<Environment>, targets: seq<Target>): seq<ApiTarget> {
    TargetsToAPI(SelectIn(targets, ByEnvironment, Elements(Names(envs))))
  }

  /** No target names an environment that is there twice. */
  predicate NamedOnce(ns: seq<string>, targets: seq<Target>) {
    forall i | 0 <= i < |targets| :: AtMostOnce(ns, targets[i].environment)
  }

  predicate AtMostOnce(ns: seq<string>, name: string) { multiset(ns)[name] <= 1 }

  /** The groups named by ns hold the listed targets and nothing twice. */
  predicate Exact(groups: seq<ApiTarget>, listed: seq<ApiTarget>) { multiset(groups) == multiset(listed) }

  lemma {:induction false} GroupsCoverListed(ts: seq<Target>, ns: seq<string>)
    ensures |Groups(ts, ByEnvironment, ns)| >= |SelectIn(ts, ByEnvironment, Elements(ns))|
    ensures Exact(Groups(ts, ByEnvironment, ns), TargetsToAPI(SelectIn(ts, ByEnvironment, Elements(ns))))
       <==> NamedOnce(ns, ts)
  {
    var f := ByEnvironment;
    if ns == [] {
      assert Elements(ns) == {};
      SelectInNone(ts, f);
    } else {
      var tail := ns[1..];
      var group, others := TargetsToAPI(Select(ts, f, ns[0])), Groups(ts, f, tail);
      var rest := TargetsToAPI(SelectIn(ts, f, Elements(tail)));
      GroupsCoverListed(ts, tail);
      NamedOnceCons(ns, ts);
      if ns[0] in Elements(tail) {
        ElementsOfRepeated(ns);
        PrependRepeated(group, others, rest);
      } else {
        SplitGroup(ts, f, ns[0], Elements(tail), Elements(ns));
        var listed := TargetsToAPI(SelectIn(ts, f, Elements(ns)));
        PrependFresh(group, others, rest, listed);
      }
    }
  }

  lemma ElementsOfRepeated(ns: seq<string>)
    requires ns != [] && ns[0] in Elements(ns[1..])
    ensures Elements(ns) == Elements(ns[1..])
  {}

  lemma PrependRepeated(group: seq<ApiTarget>, others: seq<ApiTarget>, rest: seq<ApiTarget>)
    requires |others| >= |rest|
    ensures Exact(group + others, rest) <==> Exact(others, rest) && group == []
  {
    SameSize(group + others, rest);
    if group == [] { assert group + others == others; }
  }

  lemma PrependFresh(group: seq<ApiTarget>, others: seq<ApiTarget>, rest: seq<ApiTarget>, listed: seq<ApiTarget>)
    requires |others| >= |rest| && multiset(listed) == multiset(group) + multiset(rest)
    ensures Exact(group + others, listed) <==> Exact(others, rest)
    ensures |group + others| >= |listed|
  {
    assert multiset(group + others) == multiset(group) + multiset(others);
    assert multiset(group + others) - multiset(group) == multiset(others);
    assert multiset(listed) - multiset(group) == multiset(rest);
    SameSize(listed, group + rest);
  }

  lemma SameSize<T>(s: seq<T>, t: seq<T>)
    ensures multiset(s) == multiset(t) ==> |s| == |t|
  {
    assert |multiset(s)| == |s| && |multiset(t)| == |t|;
  }

  lemma NamedOnceCons(ns: seq<string>, ts: seq<Target>)
    requires ns != []
    ensures NamedOnce(ns, ts) <==>
              NamedOnce(ns[1..], ts) && (ns[0] in Elements(ns[1..]) ==> Select(ts, ByEnvironment, ns[0]) == [])
  {
    var tail := ns[1..];
    assert ns == [ns[0]] + tail;
    assert multiset(ns) == multiset{ns[0]} + multiset(tail);
    assert ns[0] in Elements(tail) <==> ns[0] in multiset(tail);
    if ns[0] in Elements(tail) {
      if NamedOnce(ns, ts) {
        SelectAbsent(ts, ByEnvironment, ns[0]);
      }
      if Select(ts, ByEnvironment, ns[0]) == [] {
        EmptySelect(ts, ByEnvironment, ns[0]);
      }
    }
  }

  lemma {:induction false} EmptySelect(ts: seq<Target>, f: Field, k: string)
    requires Select(ts, f, k) == []
    ensures forall i | 0 <= i < |ts| :: FieldOf(f, ts[i]) != k
  {
    if ts != [] {
      EmptySelect(ts[1..], f, k);
      assert forall i | 0 < i < |ts| :: ts[i] == ts[1..][i - 1];
    }
  }

  // ----- From the sorted environments to the given ones ------------------

  lemma {:induction false} NamesOfPermutation(s: seq<Environment>, t: seq<Environment>)
    requires multiset(s) == multiset(t)
    ensures multiset(Names(s)) == multiset(Names(t))
    decreases |s|
  {
    hide Names;
    assert |multiset(s)| == |s| && |multiset(t)| == |t|;
    if s != [] {
      assert s[0] in multiset(t);
      var j :| 0 <= j < |t| && t[j] == s[0];
      var a, b := t[..j], t[j + 1..];
      assert s == [s[0]] + s[1..] && t == a + [s[0]] + b;
      RemoveSame(s[0], s[1..], a, b);
      NamesOfPermutation(s[1..], a + b);
      NamesAround(a, s[0], b);
      NamesAround([], s[0], s[1..]);
      assert [] + [s[0]] + s[1..] == s && [] + s[1..] == s[1..];
    }
  }

  lemma RemoveSame<T>(x: T, s: seq<T>, a: seq<T>, b: seq<T>)
    requires multiset([x] + s) == multiset(a + [x] + b)
    ensures multiset(s) == multiset(a + b)
  {
    assert multiset([x] + s) == multiset{x} + multiset(s);
    assert multiset(a + [x] + b) == multiset(a) + multiset{x} + multiset(b);
    assert multiset(s) == (multiset{x} + multiset(s)) - multiset{x};
  }

  lemma NamesAround(a: seq<Environment>, e: Environment, b: seq<Environment>)
    ensures multiset(Names(a + [e] + b)) == multiset(Names(a + b)) + multiset{e.name}
  {
    assert Names(a + [e] + b) == Names(a) + [e.name] + Names(b);
    assert Names(a + b) == Names(a) + Names(b);
  }

  lemma SameElements(ns: seq<string>, ms: seq<string>)
    requires multiset(ns) == multiset(ms)
    ensures Elements(ns) == Elements(ms)
  {
    forall x ensures x in ns <==> x in ms {
      assert x in ns <==> x in multiset(ns);
      assert x in ms <==> x in multiset(ms);
    }
  }

  /**
   * Flattening the listing gives back every target of a listed environment
   * exactly once, if and only if no target names an environment that is listed
   * twice (environments are namespaced, targets name them by bare name).
   */
  lemma ListingConserves(out: seq<ApiEnvironment>, envs: seq<Environment>, targets: seq<Target>)
    requires Lists(out, envs, targets)
    ensures multiset(Flatten(out)) == multiset(Listed(envs, targets)) <==> NamedOnce(Names(envs), targets)
  {
    var sorted :| SortedBy(EnvAtMost, sorted) && multiset(sorted) == multiset(envs) && Listing(out, sorted, targets);
    EachHoldsItsOwn(out, sorted, targets);
    FlattenIsGroups(out, Names(sorted), targets);
    GroupsCoverListed(targets, Names(sorted));
    NamesOfPermutation(sorted, envs);
    SameElements(Names(sorted), Names(envs));
  }

  /** In particular with distinct names. */
  lemma DistinctNamesConserve(out: seq<ApiEnvironment>, envs: seq<Environment>, targets: seq<Target>)
    requires Lists(out, envs, targets) && Distinct(Names(envs))
    ensures multiset(Flatten(out)) == multiset(Listed(envs, targets))
  {
    forall i | 0 <= i < |targets| { OnceInMultiset(Names(envs), targets[i].environment); }
    ListingConserves(out, envs, targets);
  }

  lemma TwiceNamed(envs: seq<Environment>, t: Target)
    requires |envs| == 2 && envs[0].name == envs[1].name == t.environment
    ensures !NamedOnce(Names(envs), [t])
  {
    TwiceInMultiset(Names(envs), 0, 1);
    assert !AtMostOnce(Names(envs), [t][0].environment);
  }

  /** One target of an environment name that two namespaces use is listed, and flattened, twice. */
  lemma TargetListedTwice(out: seq<ApiEnvironment>, t: Target)
    requires t.environment == "prod" && Lists(out, [Environment("prod", 0), Environment("prod", 1)], [t])
    ensures multiset(Flatten(out)) != multiset(Listed([Environment("prod", 0), Environment("prod", 1)], [t]))
  {
    hide Lists, Flatten, Listed, NamedOnce;
    var envs := [Environment("prod", 0), Environment("prod", 1)];
    TwiceNamed(envs, t);
    ListingConserves(out, envs, [t]);
  }
}
