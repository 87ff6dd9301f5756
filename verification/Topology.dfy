// ListEnvironments and what it builds: targets grouped by environment and then
// by cell (internal/api/readmodel/crdsource), and flattenTargets back
// (internal/api/readmodel/fixtures/fixtures.go).
module Topology {
  import opened GoStrings
  import opened Sorting
  import opened ReadModel

  /** The two fields targets are grouped by. */
  datatype Field = ByEnvironment | ByCell

  function FieldOf(f: Field, t: Target): string {
    match f case ByEnvironment => t.environment case ByCell => t.cell
  }

  /** The targets whose field is k, in list order. */
  function Select(ts: seq<Target>, f: Field, k: string): seq<Target> {
    if ts == [] then []
    else (if FieldOf(f, ts[0]) == k then [ts[0]] else []) + Select(ts[1..], f, k)
  }

  /** The targets whose field is one of ks, in list order. */
  function SelectIn(ts: seq<Target>, f: Field, ks: set<string>): seq<Target> {
    if ts == [] then []
    else (if FieldOf(f, ts[0]) in ks then [ts[0]] else []) + SelectIn(ts[1..], f, ks)
  }

  predicate InUse(ts: seq<Target>, f: Field, k: string) {
    exists i :: 0 <= i < |ts| && FieldOf(f, ts[i]) == k
  }

  // ----- Grouping -------------------------------------------------------

  lemma Reassociate<T>(a: seq<T>, b: seq<T>, c: seq<T>)
    ensures (a + b) + c == a + (b + c)
  {}

  lemma {:induction false} SelectSnoc(ts: seq<Target>, x: Target, f: Field, k: string)
    ensures Select(ts + [x], f, k) == Select(ts, f, k) + (if FieldOf(f, x) == k then [x] else [])
  {
    var last := if FieldOf(f, x) == k then [x] else [];
    if ts == [] {
      assert ts + [x] == [x];
      assert last + [] == last && [] + last == last;
    } else {
      var all, rest := ts + [x], ts[1..];
      assert all[0] == ts[0] && all[1..] == rest + [x];
      SelectSnoc(rest, x, f, k);
      Reassociate(if FieldOf(f, ts[0]) == k then [ts[0]] else [], Select(rest, f, k), last);
    }
  }

  /** A map that holds, for every key seen in ts, exactly its group. */
  ghost predicate Grouped(groups: map<string, seq<Target>>, ts: seq<Target>, f: Field) {
    && (forall k :: k in groups <==> InUse(ts, f, k))
    && (forall k | k in groups :: groups[k] == Select(ts, f, k))
  }

  lemma {:induction false} SelectAbsent(ts: seq<Target>, f: Field, k: string)
    requires forall i | 0 <= i < |ts| :: FieldOf(f, ts[i]) != k
    ensures Select(ts, f, k) == []
  {
    if ts != [] { SelectAbsent(ts[1..], f, k); }
  }

  /** One append step of the grouping loops: groups[k] = append(groups[k], t). */
  lemma GroupedSnoc(groups: map<string, seq<Target>>, ts: seq<Target>, f: Field, x: Target)
    requires Grouped(groups, ts, f)
    ensures var k := FieldOf(f, x);
            Grouped(groups[k := (if k in groups then groups[k] else []) + [x]], ts + [x], f)
  {
    var k := FieldOf(f, x);
    var next := groups[k := (if k in groups then groups[k] else []) + [x]];
    var all := ts + [x];
    forall l ensures l in next <==> InUse(all, f, l) {
      if l == k {
        assert FieldOf(f, all[|ts|]) == k;
      } else if l in groups {
        var i :| 0 <= i < |ts| && FieldOf(f, ts[i]) == l;
        assert FieldOf(f, all[i]) == l;
      }
    }
    forall l | l in next ensures next[l] == Select(all, f, l) {
      SelectSnoc(ts, x, f, l);
      if l == k && k !in groups { SelectAbsent(ts, f, k); }
    }
  }

  /** The byEnv loop of ListEnvironments. */
  method GroupByEnvironment(targets: seq<Target>) returns (byEnv: map<string, seq<Target>>)
    ensures Grouped(byEnv, targets, ByEnvironment)
  {
    byEnv := map[];
    for i := 0 to |targets|
      invariant Grouped(byEnv, targets[..i], ByEnvironment)
    {
      var env := targets[i].environment;
      assert targets[..i + 1] == targets[..i] + [targets[i]];
      GroupedSnoc(byEnv, targets[..i], ByEnvironment, targets[i]);
      byEnv := byEnv[env := (if env in byEnv then byEnv[env] else []) + [targets[i]]];
    }
    assert targets[..|targets|] == targets;
  }

  // ----- Cells ----------------------------------------------------------

  function FirstRegion(ts: seq<Target>): string {
    if ts == [] then "" else if ts[0].region != "" then ts[0].region else FirstRegion(ts[1..])
  }

  predicate CellOf(c: ApiCell, ts: seq<Target>, name: string) {
    && c.name == StrPtrOrNil(name)
    && c.region == StrPtrOrNil(FirstRegion(Select(ts, ByCell, name)))
    && c.targets == Some(TargetsToAPI(Select(ts, ByCell, name)))
  }

  function CellNames(cells: seq<ApiCell>): (names: seq<string>)
    ensures |names| == |cells|
  {
    seq(|cells|, i requires 0 <= i < |cells| => Deref(cells[i].name))
  }

  /** Cells strictly sorted by name, one for each cell name in use, each holding its own targets in list order. */
  ghost predicate CellsOf(cells: seq<ApiCell>, ts: seq<Target>) {
    && StrictlySorted(CellNames(cells))
    && (forall k :: k in CellNames(cells) <==> InUse(ts, ByCell, k))
    && (forall i | 0 <= i < |cells| :: CellOf(cells[i], ts, Deref(cells[i].name)))
  }

  /** The inner loop of envCells: the mapped members and the first region that is set. */
  method CellFrom(cell: string, members: seq<Target>) returns (c: ApiCell)
    ensures c == ApiCell(StrPtrOrNil(cell), StrPtrOrNil(FirstRegion(members)), Some(TargetsToAPI(members)))
  {
    var mapped: seq<ApiTarget> := [];
    var region := "";
    for i := 0 to |members|
      invariant mapped + TargetsToAPI(members[i..]) == TargetsToAPI(members)
      invariant (if region != "" then region else FirstRegion(members[i..])) == FirstRegion(members)
    {
      assert members[i..][1..] == members[i + 1..];
      mapped := mapped + [TargetToAPI(members[i])];
      if region == "" {
        region := members[i].region;
      }
    }
    assert members[|members|..] == [] && mapped + [] == mapped;
    c := ApiCell(StrPtrOrNil(cell), StrPtrOrNil(region), Some(mapped));
  }

  /** The grouping loop of envCells: `order` lists the keys of the map once each. */
  method GroupByCell(targets: seq<Target>) returns (groups: map<string, seq<Target>>, order: seq<string>)
    ensures Grouped(groups, targets, ByCell)
    ensures forall k :: k in order <==> k in groups
    ensures forall p, q | 0 <= p < q < |order| :: order[p] != order[q]
  {
    groups := map[];
    order := [];
    for i := 0 to |targets|
      invariant Grouped(groups, targets[..i], ByCell)
      invariant forall k :: k in order <==> k in groups
      invariant forall p, q | 0 <= p < q < |order| :: order[p] != order[q]
    {
      var cell := targets[i].cell;
      assert targets[..i + 1] == targets[..i] + [targets[i]];
      GroupedSnoc(groups, targets[..i], ByCell, targets[i]);
      if cell !in groups {
        order := order + [cell];
      }
      groups := groups[cell := (if cell in groups then groups[cell] else []) + [targets[i]]];
    }
    assert targets[..|targets|] == targets;
  }

  method EnvCells(targets: seq<Target>) returns (cells: seq<ApiCell>)
    ensures CellsOf(cells, targets)
  {
    hide CellOf, CellsOf, Grouped, Select, FirstRegion, TargetsToAPI, StrictlySorted, SortedBy;
    var groups, order := GroupByCell(targets);
    var sorted := SortStrings(order);
    DistinctSortedIsStrict(order, sorted);
    cells := [];
    for i := 0 to |sorted|
      invariant |cells| == i
      invariant forall j | 0 <= j < i :: CellOf(cells[j], targets, sorted[j])
    {
      assert sorted[i] in multiset(sorted) && sorted[i] in order;
      var c := CellFrom(sorted[i], groups[sorted[i]]);
      CellOfGroup(c, groups, targets, sorted[i]);
      cells := cells + [c];
    }
    KeysInUse(groups, targets);
    CellsFromSorted(cells, targets, order, sorted);
  }

  lemma CellOfGroup(c: ApiCell, groups: map<string, seq<Target>>, ts: seq<Target>, name: string)
    requires Grouped(groups, ts, ByCell) && name in groups
    requires c == ApiCell(StrPtrOrNil(name), StrPtrOrNil(FirstRegion(groups[name])), Some(TargetsToAPI(groups[name])))
    ensures CellOf(c, ts, name)
  {}

  lemma KeysInUse(groups: map<string, seq<Target>>, ts: seq<Target>)
    requires Grouped(groups, ts, ByCell)
    ensures forall k :: k in groups <==> InUse(ts, ByCell, k)
  {}

  lemma CellsFromSorted(cells: seq<ApiCell>, ts: seq<Target>, order: seq<string>, sorted: seq<string>)
    requires |cells| == |sorted| && multiset(sorted) == multiset(order) && StrictlySorted(sorted)
    requires forall j | 0 <= j < |sorted| :: CellOf(cells[j], ts, sorted[j])
    requires forall k :: k in order <==> InUse(ts, ByCell, k)
    ensures CellsOf(cells, ts)
  {
    forall j | 0 <= j < |sorted| ensures Deref(cells[j].name) == sorted[j] {
      assert CellOf(cells[j], ts, sorted[j]);
    }
    assert CellNames(cells) == sorted;
    forall k ensures k in sorted <==> k in order {
      assert k in multiset(sorted) <==> k in multiset(order);
    }
  }

  // ----- Regions --------------------------------------------------------

  /** The non-empty regions of ts, each once, sorted. */
  ghost predicate RegionsOf(regions: seq<string>, ts: seq<Target>) {
    && StrictlySorted(regions)
    && (forall r :: r in regions <==> r != "" && exists i :: 0 <= i < |ts| && ts[i].region == r)
  }

  method UniqueRegions(targets: seq<Target>) returns (regions: seq<string>)
    ensures RegionsOf(regions, targets)
  {
    var seen: set<string> := {};
    var out: seq<string> := [];
    for i := 0 to |targets|
      invariant forall r :: r in seen <==> r != "" && exists j :: 0 <= j < i && targets[j].region == r
      invariant forall r :: r in seen <==> r in out
      invariant forall p, q | 0 <= p < q < |out| :: out[p] != out[q]
    {
      var r := targets[i].region;
      if r != "" && r !in seen {
        seen := seen + {r};
        out := out + [r];
      }
    }
    regions := SortStrings(out);
    DistinctSortedIsStrict(out, regions);
    forall r ensures r in regions <==> r in out {
      assert r in multiset(regions) <==> r in multiset(out);
    }
  }

  // ----- Environments ---------------------------------------------------

  /** sortedEnvironments' order: spec.order, then name. */
  predicate EnvAtMost(a: Environment, b: Environment) {
    a.order < b.order || (a.order == b.order && AtMost(a.name, b.name))
  }

  lemma EnvAtMostIsTotal()
    ensures TotalPreorder(EnvAtMost)
  {
    AtMostIsTotal();
  }

  /** One environment of the answer. An empty slice is reported as absent. */
  ghost predicate EnvironmentOf(out: ApiEnvironment, e: Environment, ts: seq<Target>) {
    && out.name == e.name
    && (out.regions.None? ==> RegionsOf([], ts)) && (out.regions.Some? ==> RegionsOf(out.regions.value, ts))
    && (out.cells.None? <==> ts == []) && (out.cells.Some? ==> CellsOf(out.cells.value, ts))
  }

  method EnvironmentToAPI(e: Environment, targets: seq<Target>) returns (out: ApiEnvironment)
    ensures EnvironmentOf(out, e, targets)
  {
    out := ApiEnvironment(e.name, None, None);
    var regions := UniqueRegions(targets);
    if |regions| > 0 {
      out := out.(regions := Some(regions));
    }
    var cells := EnvCells(targets);
    if |cells| > 0 {
      out := out.(cells := Some(cells));
    }
    NoCellsIffNoTargets(cells, targets);
  }

  lemma NoCellsIffNoTargets(cells: seq<ApiCell>, ts: seq<Target>)
    requires CellsOf(cells, ts)
    ensures cells == [] <==> ts == []
  {
    if ts != [] {
      assert FieldOf(ByCell, ts[0]) == ts[0].cell;
      assert ts[0].cell in CellNames(cells);
    }
    if cells != [] {
      assert CellNames(cells)[0] in CellNames(cells);
    }
  }

  /** The answer to ListEnvironments, given the sorted environments. */
  ghost predicate Listing(out: seq<ApiEnvironment>, sorted: seq<Environment>, targets: seq<Target>) {
    |out| == |sorted|
    && forall i | 0 <= i < |out| :: EnvironmentOf(out[i], sorted[i], Select(targets, ByEnvironment, sorted[i].name))
  }

  /** The environments in lifecycle order, each with exactly the targets that name it. */
  ghost predicate Lists(out: seq<ApiEnvironment>, envs: seq<Environment>, targets: seq<Target>) {
    exists sorted :: SortedBy(EnvAtMost, sorted) && multiset(sorted) == multiset(envs) && Listing(out, sorted, targets)
  }

  method ListEnvironments(envs: seq<Environment>, targets: seq<Target>) returns (out: seq<ApiEnvironment>)
    ensures Lists(out, envs, targets)
  {
    var byEnv := GroupByEnvironment(targets);
    EnvAtMostIsTotal();
    var order := SortSlice(EnvAtMost, envs);
    out := [];
    for i := 0 to |order|
      invariant Listing(out, order[..i], targets)
    {
      var name := order[i].name;
      if name !in byEnv {
        assert forall j | 0 <= j < |targets| :: FieldOf(ByEnvironment, targets[j]) != name;
        SelectAbsent(targets, ByEnvironment, name);
      }
      var e := EnvironmentToAPI(order[i], if name in byEnv then byEnv[name] else []);
      ListingNext(out, order, i, targets, e);
      out := out + [e];
    }
    assert order[..|order|] == order;
    assert Listing(out, order, targets);
  }

  lemma ListingNext(out: seq<ApiEnvironment>, order: seq<Environment>, i: nat, targets: seq<Target>, e: ApiEnvironment)
    requires i < |order| && Listing(out, order[..i], targets)
    requires EnvironmentOf(e, order[i], Select(targets, ByEnvironment, order[i].name))
    ensures Listing(out + [e], order[..i + 1], targets)
  {}


  /** flattenTargets. */
  function Flatten(envs: seq<ApiEnvironment>): seq<ApiTarget> {
    if envs == [] then [] else FlattenCells(envs[0].cells) + Flatten(envs[1..])
  }

  function FlattenCells(cells: Option<seq<ApiCell>>): seq<ApiTarget> {
    if cells.None? then [] else ConcatTargets(cells.value)
  }

  function ConcatTargets(cells: seq<ApiCell>): seq<ApiTarget> {
    if cells == [] then []
    else (if cells[0].targets.None? then [] else cells[0].targets.value) + ConcatTargets(cells[1..])
  }

  lemma FlattenStep(out: seq<ApiTarget>, next: seq<ApiTarget>, envs: seq<ApiEnvironment>, i: nat)
    requires i < |envs| && next == out + FlattenCells(envs[i].cells)
    ensures next + Flatten(envs[i + 1..]) == out + Flatten(envs[i..])
  {
    assert envs[i..][1..] == envs[i + 1..];
  }

  method FlattenTargets(envs: seq<ApiEnvironment>) returns (out: seq<ApiTarget>)
    ensures out == Flatten(envs)
  {
    out := [];
    for i := 0 to |envs|
      invariant out + Flatten(envs[i..]) == Flatten(envs)
    {
      hide Flatten;
      ghost var before := out;
      if envs[i].cells.Some? {
        out := AppendCells(out, envs[i].cells.value);
      } else {
        assert out == out + [];
      }
      FlattenStep(before, out, envs, i);
    }
    assert envs[|envs|..] == [] && out + [] == out;
  }

  /** The inner loop of flattenTargets. */
  method AppendCells(out0: seq<ApiTarget>, cells: seq<ApiCell>) returns (out: seq<ApiTarget>)
    ensures out == out0 + ConcatTargets(cells)
  {
    out := out0;
    for j := 0 to |cells|
      invariant out + ConcatTargets(cells[j..]) == out0 + ConcatTargets(cells)
    {
      assert cells[j..][1..] == cells[j + 1..];
      if cells[j].targets.Some? {
        out := out + cells[j].targets.value;
      }
    }
    assert cells[|cells|..] == [] && out + [] == out;
  }
}
