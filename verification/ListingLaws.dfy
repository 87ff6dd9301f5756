// What an environment listing shows: the environments in order, and in each
// cell which targets, in which order.
module ListingLaws {
  import opened GoStrings
  import opened Sorting
  import opened ReadModel
  import opened ReadModelLaws
  import opened Topology

  // ----- The order of the environments ----------------------------------

  /** Ascending order number, and ascending name on equal numbers. */
  ghost predicate Ascending(envs: seq<Environment>) {
    forall i, j | 0 <= i < j < |envs| ::
      envs[i].order < envs[j].order || (envs[i].order == envs[j].order && !Less(envs[j].name, envs[i].name))
  }

  /** The environments stand in the listing in ascending order, under their own names. */
  lemma ListedInOrder(out: seq<ApiEnvironment>, envs: seq<Environment>, targets: seq<Target>)
    returns (source: seq<Environment>)
    requires Lists(out, envs, targets)
    ensures multiset(source) == multiset(envs) && |source| == |out| && Ascending(source)
    ensures forall i | 0 <= i < |out| :: out[i].name == source[i].name
    ensures forall i | 0 <= i < |out| :: EnvironmentOf(out[i], source[i], Select(targets, ByEnvironment, out[i].name))
  {
    hide RegionsOf, CellsOf, Select;
    source :| SortedBy(EnvAtMost, source) && multiset(source) == multiset(envs) && Listing(out, source, targets);
    forall i, j | 0 <= i < j < |source|
      ensures source[i].order < source[j].order
              || (source[i].order == source[j].order && !Less(source[j].name, source[i].name))
    {
      assert EnvAtMost(source[i], source[j]);
    }
  }

  lemma OneOrder(s: seq<Environment>, t: seq<Environment>)
    requires Ascending(s) && Ascending(t) && multiset(s) == multiset(t)
    ensures s == t
  {
    hide Less;
    EnvAtMostIsTotal();
    forall i, j | 0 <= i < j < |s| ensures EnvAtMost(s[i], s[j]) {}
    forall i, j | 0 <= i < j < |t| ensures EnvAtMost(t[i], t[j]) {}
    forall x, y | EnvAtMost(x, y) && EnvAtMost(y, x) ensures x == y {
      LessTotal(x.name, y.name);
    }
    SortedIsUnique(EnvAtMost, s, t);
  }

  /** The bag of environments determines the list of names, whatever the order they came in. */
  lemma NamesAreDetermined(out: seq<ApiEnvironment>, out': seq<ApiEnvironment>,
                           envs: seq<Environment>, envs': seq<Environment>, targets: seq<Target>, targets': seq<Target>)
    requires Lists(out, envs, targets) && Lists(out', envs', targets') && multiset(envs) == multiset(envs')
    ensures |out| == |out'| && forall i | 0 <= i < |out| :: out[i].name == out'[i].name
  {
    hide Lists, Ascending, EnvironmentOf;
    var source := ListedInOrder(out, envs, targets);
    var source' := ListedInOrder(out', envs', targets');
    OneOrder(source, source');
  }

  // ----- The targets of a cell ------------------------------------------

  /** Positions from.. of the targets whose field is k, in order. */
  ghost predicate Positions(ts: seq<Target>, f: Field, k: string, from: nat, at: seq<nat>) {
    && (forall q | 0 <= q < |at| :: from <= at[q] < |ts| && FieldOf(f, ts[at[q]]) == k)
    && (forall q, r | 0 <= q < r < |at| :: at[q] < at[r])
    && (forall j: nat | from <= j < |ts| && FieldOf(f, ts[j]) == k :: j in at)
  }

  /** The targets at these positions. */
  ghost predicate TakenFrom(ts: seq<Target>, at: seq<nat>, some: seq<Target>)
    requires forall q | 0 <= q < |at| :: at[q] < |ts|
  {
    |some| == |at| && forall q | 0 <= q < |at| :: some[q] == ts[at[q]]
  }

  lemma SelectStep(ts: seq<Target>, f: Field, k: string, from: nat)
    requires from < |ts|
    ensures Select(ts[from..], f, k)
         == (if FieldOf(f, ts[from]) == k then [ts[from]] else []) + Select(ts[from + 1..], f, k)
  {
    assert ts[from..][1..] == ts[from + 1..];
  }

  lemma PositionsFirst(ts: seq<Target>, f: Field, k: string, from: nat, at: seq<nat>)
    requires from < |ts| && FieldOf(f, ts[from]) == k && Positions(ts, f, k, from + 1, at)
    ensures Positions(ts, f, k, from, [from] + at)
  {
    hide FieldOf;
  }

  lemma TakenFirst(ts: seq<Target>, from: nat, at: seq<nat>, some: seq<Target>)
    requires from < |ts| && (forall q | 0 <= q < |at| :: at[q] < |ts|) && TakenFrom(ts, at, some)
    ensures TakenFrom(ts, [from] + at, [ts[from]] + some)
  {}

  lemma PositionsSkip(ts: seq<Target>, f: Field, k: string, from: nat, at: seq<nat>)
    requires from < |ts| && FieldOf(f, ts[from]) != k && Positions(ts, f, k, from + 1, at)
    ensures Positions(ts, f, k, from, at)
  {
    hide FieldOf;
  }

  lemma {:induction false} SelectAt(ts: seq<Target>, f: Field, k: string, from: nat) returns (at: seq<nat>)
    requires from <= |ts|
    ensures Positions(ts, f, k, from, at) && TakenFrom(ts, at, Select(ts[from..], f, k))
    decreases |ts| - from
  {
    if from == |ts| {
      at := [];
    } else {
      hide FieldOf, Select;
      at := SelectAt(ts, f, k, from + 1);
      var rest := Select(ts[from + 1..], f, k);
      SelectStep(ts, f, k, from);
      if FieldOf(f, ts[from]) == k {
        PositionsFirst(ts, f, k, from, at);
        TakenFirst(ts, from, at, rest);
        at := [from] + at;
      } else {
        assert [] + rest == rest;
        PositionsSkip(ts, f, k, from, at);
      }
    }
  }

  /** Positions of the targets of an environment's cell, in list order, and no others. */
  ghost predicate Inhabitants(targets: seq<Target>, env: string, cell: string, at: seq<nat>) {
    && (forall q | 0 <= q < |at| ::
          at[q] < |targets| && targets[at[q]].environment == env && targets[at[q]].cell == cell)
    && (forall q, r | 0 <= q < r < |at| :: at[q] < at[r])
    && (forall j: nat | j < |targets| && targets[j].environment == env && targets[j].cell == cell :: j in at)
  }

  /** Positions within positions. */
  ghost function Through(outer: seq<nat>, inner: seq<nat>): (at: seq<nat>)
    requires forall q | 0 <= q < |inner| :: inner[q] < |outer|
    ensures |at| == |inner| && forall q | 0 <= q < |inner| :: at[q] == outer[inner[q]]
  {
    seq(|inner|, q requires 0 <= q < |inner| => outer[inner[q]])
  }

  lemma IsThrough(targets: seq<Target>, env: string, cell: string, ts: seq<Target>, outer: seq<nat>, inner: seq<nat>,
                  j: nat)
    requires Positions(targets, ByEnvironment, env, 0, outer) && TakenFrom(targets, outer, ts)
    requires Positions(ts, ByCell, cell, 0, inner)
    requires j < |targets| && targets[j].environment == env && targets[j].cell == cell
    ensures j in Through(outer, inner)
  {
    assert FieldOf(ByEnvironment, targets[j]) == env;
    var p :| 0 <= p < |outer| && outer[p] == j;
    assert FieldOf(ByCell, ts[p]) == cell;
    var q :| 0 <= q < |inner| && inner[q] == p;
    assert Through(outer, inner)[q] == j;
  }

  lemma InhabitantsAt(targets: seq<Target>, env: string, cell: string) returns (at: seq<nat>)
    ensures Inhabitants(targets, env, cell, at)
    ensures TakenFrom(targets, at, Select(Select(targets, ByEnvironment, env), ByCell, cell))
  {
    hide Select, Through;
    var ts := Select(targets, ByEnvironment, env);
    var outer := SelectAt(targets, ByEnvironment, env, 0);
    var inner := SelectAt(ts, ByCell, cell, 0);
    assert targets[0..] == targets && ts[0..] == ts;
    at := Through(outer, inner);
    forall q | 0 <= q < |at|
      ensures at[q] < |targets| && targets[at[q]].environment == env && targets[at[q]].cell == cell
    {
      assert FieldOf(ByEnvironment, targets[outer[inner[q]]]) == env && FieldOf(ByCell, ts[inner[q]]) == cell;
    }
    forall j: nat | j < |targets| && targets[j].environment == env && targets[j].cell == cell ensures j in at {
      IsThrough(targets, env, cell, ts, outer, inner, j);
    }
  }

  /** The API records of these targets, one by one. */
  ghost predicate AllShown(xs: seq<ApiTarget>, ts: seq<Target>) {
    |xs| == |ts| && forall q | 0 <= q < |xs| :: TargetShown(xs[q], ts[q])
  }

  lemma {:induction false} TargetsShown(ts: seq<Target>)
    ensures AllShown(TargetsToAPI(ts), ts)
  {
    hide TargetShown, TargetToAPI;
    if ts != [] {
      TargetMeans(ts[0]);
      TargetsShown(ts[1..]);
      forall q | 0 <= q < |ts| ensures TargetShown(TargetsToAPI(ts)[q], ts[q]) {
        if q > 0 { assert ts[q] == ts[1..][q - 1] && TargetsToAPI(ts)[q] == TargetsToAPI(ts[1..])[q - 1]; }
      }
    }
  }

  /** The first region that is set among the cell's targets, if there is one. */
  ghost predicate RegionOf(region: Option<string>, ts: seq<Target>) {
    && (forall q: nat | q < |ts| && ts[q].region != "" && (forall p | 0 <= p < q :: ts[p].region == "") ::
          region == Some(ts[q].region))
    && ((forall q | 0 <= q < |ts| :: ts[q].region == "") ==> region.None?)
  }

  lemma {:induction false} FirstRegionIs(ts: seq<Target>, q: nat)
    requires q < |ts| && ts[q].region != "" && forall p | 0 <= p < q :: ts[p].region == ""
    ensures FirstRegion(ts) == ts[q].region
  {
    if q > 0 {
      forall p | 0 <= p < q - 1 ensures ts[1..][p].region == "" { assert ts[1..][p] == ts[p + 1]; }
      FirstRegionIs(ts[1..], q - 1);
    }
  }

  lemma {:induction false} NoRegion(ts: seq<Target>)
    requires forall q | 0 <= q < |ts| :: ts[q].region == ""
    ensures FirstRegion(ts) == ""
  {
    if ts != [] {
      forall p | 0 <= p < |ts| - 1 ensures ts[1..][p].region == "" { assert ts[1..][p] == ts[p + 1]; }
      NoRegion(ts[1..]);
    }
  }

  lemma RegionMeans(ts: seq<Target>)
    ensures RegionOf(StrPtrOrNil(FirstRegion(ts)), ts)
  {
    hide FirstRegion;
    forall q: nat | q < |ts| && ts[q].region != "" && (forall p | 0 <= p < q :: ts[p].region == "")
      ensures StrPtrOrNil(FirstRegion(ts)) == Some(ts[q].region)
    {
      FirstRegionIs(ts, q);
    }
    if forall q | 0 <= q < |ts| :: ts[q].region == "" {
      NoRegion(ts);
    }
  }

  /** Cell c of entry i of a listing. */
  ghost predicate IsCell(out: seq<ApiEnvironment>, i: nat, cell: ApiCell) {
    i < |out| && out[i].cells.Some? && cell in out[i].cells.value
  }

  /**
   * What a cell of the listing holds: the records of exactly the targets that
   * name its environment and the cell, in list order, and their first region.
   */
  lemma CellContents(out: seq<ApiEnvironment>, envs: seq<Environment>, targets: seq<Target>, i: nat, cell: ApiCell)
    returns (at: seq<nat>, members: seq<Target>)
    requires Lists(out, envs, targets) && IsCell(out, i, cell)
    ensures Inhabitants(targets, out[i].name, Plain(cell.name), at) && TakenFrom(targets, at, members)
    ensures cell.targets.Some? && AllShown(cell.targets.value, members) && RegionOf(cell.region, members)
  {
    hide Lists, Ascending, TakenFrom, AllShown, RegionOf, Select, TargetsToAPI, FirstRegion, StrictlySorted;
    var source := ListedInOrder(out, envs, targets);
    var ts := Select(targets, ByEnvironment, out[i].name);
    assert EnvironmentOf(out[i], source[i], ts);
    members := Select(ts, ByCell, Plain(cell.name));
    at := InhabitantsAt(targets, out[i].name, Plain(cell.name));
    TargetsShown(members);
    RegionMeans(members);
    assert CellOf(cell, ts, Plain(cell.name)) by {
      var cells := out[i].cells.value;
      var c :| 0 <= c < |cells| && cells[c] == cell;
      assert CellOf(cells[c], ts, Deref(cells[c].name));
    }
  }

  /** Every target of a listed environment has its cell there. */
  lemma CellExists(out: seq<ApiEnvironment>, envs: seq<Environment>, targets: seq<Target>, i: nat, j: nat)
    returns (cell: ApiCell)
    requires Lists(out, envs, targets) && i < |out| && j < |targets| && targets[j].environment == out[i].name
    ensures IsCell(out, i, cell) && Plain(cell.name) == targets[j].cell
  {
    hide Lists, Ascending, Select, StrictlySorted, CellOf;
    var source := ListedInOrder(out, envs, targets);
    var ts := Select(targets, ByEnvironment, out[i].name);
    assert EnvironmentOf(out[i], source[i], ts);
    var at := SelectAt(targets, ByEnvironment, out[i].name, 0);
    assert targets[0..] == targets;
    assert FieldOf(ByEnvironment, targets[j]) == out[i].name;
    var q :| 0 <= q < |at| && at[q] == j;
    assert ts[q] == targets[j] && FieldOf(ByCell, ts[q]) == targets[j].cell;
    var cells := out[i].cells.value;
    assert targets[j].cell in CellNames(cells);
    var c :| 0 <= c < |cells| && CellNames(cells)[c] == targets[j].cell;
    cell := cells[c];
  }

  /** Cells go up by name, so no environment has two of one name. */
  lemma CellsAscend(out: seq<ApiEnvironment>, envs: seq<Environment>, targets: seq<Target>, i: nat, c: nat, d: nat)
    requires Lists(out, envs, targets) && i < |out| && out[i].cells.Some? && c < d < |out[i].cells.value|
    ensures Less(Plain(out[i].cells.value[c].name), Plain(out[i].cells.value[d].name))
  {
    hide Lists, Ascending, Select, Less, CellOf, RegionsOf;
    var source := ListedInOrder(out, envs, targets);
    assert EnvironmentOf(out[i], source[i], Select(targets, ByEnvironment, out[i].name));
    var cells := out[i].cells.value;
    assert StrictlySorted(CellNames(cells));
    assert Less(CellNames(cells)[c], CellNames(cells)[d]);
  }

  /** Flattening follows the document: what stands before a cell comes before its targets. */
  lemma {:induction false} FlattenFollowsDocument(a: seq<ApiEnvironment>, e: ApiEnvironment, b: seq<ApiEnvironment>)
    ensures Flatten(a + [e] + b) == Flatten(a) + FlattenCells(e.cells) + Flatten(b)
    decreases |a|
  {
    var all := a + [e] + b;
    if a == [] {
      assert all[0] == e && all[1..] == b;
      assert [] + FlattenCells(e.cells) == FlattenCells(e.cells);
    } else {
      assert all[0] == a[0] && all[1..] == a[1..] + [e] + b;
      FlattenFollowsDocument(a[1..], e, b);
      Reassociate(FlattenCells(a[0].cells), Flatten(a[1..]), FlattenCells(e.cells));
      Reassociate(FlattenCells(a[0].cells), Flatten(a[1..]) + FlattenCells(e.cells), Flatten(b));
    }
  }

  lemma {:induction false} CellsFollowDocument(a: seq<ApiCell>, c: ApiCell, b: seq<ApiCell>)
    ensures ConcatTargets(a + [c] + b)
         == ConcatTargets(a) + (if c.targets.None? then [] else c.targets.value) + ConcatTargets(b)
    decreases |a|
  {
    var all := a + [c] + b;
    var own := if c.targets.None? then [] else c.targets.value;
    if a == [] {
      assert all[0] == c && all[1..] == b;
      assert [] + own == own;
    } else {
      var head := if a[0].targets.None? then [] else a[0].targets.value;
      assert all[0] == a[0] && all[1..] == a[1..] + [c] + b;
      CellsFollowDocument(a[1..], c, b);
      Reassociate(head, ConcatTargets(a[1..]), own);
      Reassociate(head, ConcatTargets(a[1..]) + own, ConcatTargets(b));
    }
  }

  /** The regions of an entry: those of its environment's targets that are set, each once, ascending. */
  lemma RegionsMean(out: seq<ApiEnvironment>, envs: seq<Environment>, targets: seq<Target>, i: nat, r: string)
    requires Lists(out, envs, targets) && i < |out|
    ensures var regions := if out[i].regions.None? then [] else out[i].regions.value;
            (forall a, b | 0 <= a < b < |regions| :: Less(regions[a], regions[b]))
            && (r in regions <==>
                  r != ""
                  && exists j: nat :: j < |targets| && targets[j].environment == out[i].name && targets[j].region == r)
  {
    hide Lists, Ascending, Select, Less, CellsOf;
    var source := ListedInOrder(out, envs, targets);
    var ts := Select(targets, ByEnvironment, out[i].name);
    assert EnvironmentOf(out[i], source[i], ts);
    var at := SelectAt(targets, ByEnvironment, out[i].name, 0);
    assert targets[0..] == targets;
    if exists j: nat :: j < |targets| && targets[j].environment == out[i].name && targets[j].region == r {
      var j: nat :| j < |targets| && targets[j].environment == out[i].name && targets[j].region == r;
      assert FieldOf(ByEnvironment, targets[j]) == out[i].name;
      var q :| 0 <= q < |at| && at[q] == j;
      assert ts[q].region == r;
    }
    if exists q :: 0 <= q < |ts| && ts[q].region == r {
      var q :| 0 <= q < |ts| && ts[q].region == r;
      assert FieldOf(ByEnvironment, targets[at[q]]) == out[i].name && targets[at[q]].region == r;
    }
  }
}
