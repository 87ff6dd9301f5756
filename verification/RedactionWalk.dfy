// The destructive walk of internal/audit/redaction/redact.go over a heap of Go
// maps, proved against Redaction.Redact for every map iteration order.
module RedactionWalk {
  import opened GoStrings
  import opened Json
  import opened Redaction

  /** A map[string]any: a reference whose entries are overwritten in place. */
  class GoMap {
    var entries: map<string, Node>

    constructor (entries: map<string, Node>)
      ensures this.entries == entries
    {
      this.entries := entries;
    }
  }

  /** A Go `any`: a scalar (or Marker), a slice, or a reference to a map. */
  datatype Node = Leaf(v: Json) | Slice(elems: seq<Node>) | MapRef(m: GoMap)

  /** What a node looks like at one moment, with the identity of every map in it. */
  datatype Tree = TLeaf(v: Json) | TSlice(elems: seq<Tree>) | TMap(m: GoMap, kids: map<string, Tree>)

  /** The JSON value of a tree: identities forgotten. */
  ghost function Erase(t: Tree): Json {
    match t
    case TLeaf(v) => v
    case TSlice(es) => Arr(seq(|es|, i requires 0 <= i < |es| => Erase(es[i])))
    case TMap(_, kids) => Obj(map k | k in kids :: Erase(kids[k]))
  }

  /** The maps a tree is made of. */
  ghost function Footprint(t: Tree): set<GoMap> {
    match t
    case TLeaf(_) => {}
    case TSlice(es) => set i, o | 0 <= i < |es| && o in Footprint(es[i]) :: o
    case TMap(m, kids) => {m} + set k, o | k in kids && o in Footprint(kids[k]) :: o
  }

  /** Children of a map that share nothing. */
  ghost predicate Apart(kids: map<string, Tree>) {
    forall k, l | k in kids && l in kids && k != l :: Footprint(kids[k]) !! Footprint(kids[l])
  }

  /** No map is reached twice, and scalars are scalars: what json.Unmarshal builds. */
  ghost predicate Separate(t: Tree) {
    match t
    case TLeaf(v) => !v.Container()
    case TSlice(es) =>
      && (forall i | 0 <= i < |es| :: Separate(es[i]))
      && (forall i, j | 0 <= i < j < |es| :: Footprint(es[i]) !! Footprint(es[j]))
    case TMap(m, kids) =>
      && (forall k | k in kids :: Separate(kids[k]) && m !in Footprint(kids[k]))
      && Apart(kids)
  }

  /** The heap currently holds tree t at node n. */
  ghost predicate Denotes(n: Node, t: Tree)
    reads Footprint(t)
    decreases t
  {
    match t
    case TLeaf(v) => n == Leaf(v)
    case TSlice(es) => n.Slice? && |n.elems| == |es| && forall i | 0 <= i < |es| :: Denotes(n.elems[i], es[i])
    case TMap(m, kids) =>
      n == MapRef(m) && m.entries.Keys == kids.Keys && forall k | k in kids :: Denotes(m.entries[k], kids[k])
  }

  /** Tree `now` is at n, and is made of maps that `was` had. */
  ghost predicate Holds(n: Node, now: Tree, was: Tree)
    reads Footprint(now)
  {
    Denotes(n, now) && Separate(now) && Footprint(now) <= Footprint(was)
  }

  /** Shrinking the children of a slice keeps them apart. */
  lemma SliceStaysSeparate(was: seq<Tree>, now: seq<Tree>)
    requires Separate(TSlice(was)) && |now| == |was|
    requires forall i | 0 <= i < |now| :: Separate(now[i]) && Footprint(now[i]) <= Footprint(was[i])
    ensures Separate(TSlice(now)) && Footprint(TSlice(now)) <= Footprint(TSlice(was))
  {}

  /** Shrinking the children of a map keeps them apart. */
  lemma MapStaysSeparate(m: GoMap, was: map<string, Tree>, now: map<string, Tree>)
    requires Separate(TMap(m, was)) && now.Keys == was.Keys
    requires forall k | k in now :: Separate(now[k]) && Footprint(now[k]) <= Footprint(was[k])
    ensures Separate(TMap(m, now)) && Footprint(TMap(m, now)) <= Footprint(TMap(m, was))
  {}

  /** The value `now` is the outcome of visiting `was` as the map entry at childPath. */
  ghost predicate EntryDone(kind: string, childPath: string, was: Tree, now: Tree) {
    Erase(now) == RedactEntry(kind, childPath, Erase(was))
  }

  lemma MapDone(kind: string, path: string, m: GoMap, was: map<string, Tree>, now: map<string, Tree>)
    requires now.Keys == was.Keys
    requires forall k | k in was :: EntryDone(kind, JoinPath(path, k), was[k], now[k])
    ensures Erase(TMap(m, now)) == Redact(kind, path, Erase(TMap(m, was)))
  {
    var out, spec := Erase(TMap(m, now)).fields, Redact(kind, path, Erase(TMap(m, was))).fields;
    forall k | k in was ensures out[k] == spec[k] {
      assert EntryDone(kind, JoinPath(path, k), was[k], now[k]);
    }
    assert out == spec;
  }

  /** The tree of a container map after its entries were overwritten. */
  ghost function Blanketed(t: Tree, cls: string): Tree
    requires t.TMap?
  {
    TMap(t.m, map ck | ck in t.kids :: TLeaf(Mark(cls)))
  }

  lemma BlanketDone(kind: string, childPath: string, t: Tree, cls: string)
    requires t.TMap? && MatchRule(kind, childPath).None? && ContainerRule(kind, childPath) == Some(cls)
    ensures Separate(Blanketed(t, cls)) && Footprint(Blanketed(t, cls)) <= Footprint(t)
    ensures EntryDone(kind, childPath, t, Blanketed(t, cls))
  {
    var out := Erase(Blanketed(t, cls));
    assert forall ck | ck in t.kids :: Separate(TLeaf(Mark(cls))) && Footprint(TLeaf(Mark(cls))) == {};
    assert Erase(t).Obj? && Erase(t).fields.Keys == t.kids.Keys;
    assert forall ck | ck in t.kids :: Erase(TLeaf(Mark(cls))) == Mark(cls);
    assert out.fields == map ck | ck in Erase(t).fields :: Mark(cls);
    assert RedactEntry(kind, childPath, Erase(t)) == out;
  }

  /** `walk`: t is the tree on entry, after the tree on return. */
  method Walk(kind: string, path: string, value: Node, ghost t: Tree) returns (ghost after: Tree)
    requires Denotes(value, t) && Separate(t)
    modifies Footprint(t)
    ensures Holds(value, after, t)
    ensures Erase(after) == Redact(kind, path, Erase(t))
    decreases t, 2
  {
    match value
    case MapRef(m) => after := WalkMap(kind, path, m, t);
    case Slice(elems) => after := WalkSlice(kind, path, elems, t);
    case Leaf(_) => after := t;
  }

  /** The first n elements have been walked, the others are as they were. */
  ghost predicate SliceWalked(kind: string, path: string, was: seq<Tree>, now: seq<Tree>, n: nat)
    requires n <= |was| == |now|
  {
    && (forall j | n <= j < |now| :: now[j] == was[j])
    && forall j | 0 <= j < n :: Erase(now[j]) == Redact(kind, JoinPath(path, INDEX_SEGMENT), Erase(was[j]))
  }

  lemma SliceDone(kind: string, path: string, was: seq<Tree>, now: seq<Tree>)
    requires |now| == |was| && SliceWalked(kind, path, was, now, |was|)
    ensures Erase(TSlice(now)) == Redact(kind, path, Erase(TSlice(was)))
  {}

  lemma ElementsApart(t: Tree, i: nat, now: seq<Tree>)
    requires t.TSlice? && Separate(t) && i < |t.elems| == |now|
    requires forall j | 0 <= j < |now| :: Footprint(now[j]) <= Footprint(t.elems[j])
    ensures Footprint(t.elems[i]) <= Footprint(t)
    ensures forall j | 0 <= j < |now| && j != i :: Footprint(t.elems[i]) !! Footprint(now[j])
  {}

  /** Before the loop, no element has been visited. */
  lemma ElementsOnEntry(elems: seq<Node>, t: Tree)
    requires t.TSlice? && Denotes(Slice(elems), t) && Separate(t)
    ensures |elems| == |t.elems| && forall j | 0 <= j < |elems| :: Holds(elems[j], t.elems[j], t.elems[j])
  {}

  lemma ElementsOnReturn(elems: seq<Node>, t: Tree, now: seq<Tree>)
    requires t.TSlice? && Separate(t) && |elems| == |now| == |t.elems|
    requires forall j | 0 <= j < |elems| :: Holds(elems[j], now[j], t.elems[j])
    ensures Holds(Slice(elems), TSlice(now), t)
  {
    SliceStaysSeparate(t.elems, now);
  }

  method WalkSlice(kind: string, path: string, elems: seq<Node>, ghost t: Tree) returns (ghost after: Tree)
    requires t.TSlice? && Denotes(Slice(elems), t) && Separate(t)
    modifies Footprint(t)
    ensures Holds(Slice(elems), after, t)
    ensures Erase(after) == Redact(kind, path, Erase(t))
    decreases t, 0
  {
    hide Denotes, Separate, Footprint, Erase, Redact, JoinPath;
    ghost var was, now := t.elems, t.elems;
    ElementsOnEntry(elems, t);
    for i := 0 to |elems|
      invariant |now| == |was| == |elems|
      invariant forall j | 0 <= j < |now| :: Holds(elems[j], now[j], was[j])
      invariant SliceWalked(kind, path, was, now, i)
    {
      ElementsApart(t, i, now);
      assert forall j | 0 <= j < |now| && j != i :: allocated(Footprint(now[j]));
      ghost var done := Walk(kind, JoinPath(path, INDEX_SEGMENT), elems[i], was[i]);
      now := now[i := done];
    }
    ElementsOnReturn(elems, t, now);
    SliceDone(kind, path, was, now);
    after := TSlice(now);
  }

  /** The children of map m, part of them already visited. */
  ghost predicate Kids(m: GoMap, now: map<string, Tree>, was: map<string, Tree>)
    reads m, Footprint(TMap(m, now))
  {
    && m.entries.Keys == now.Keys == was.Keys
    && forall k | k in was :: Holds(m.entries[k], now[k], was[k])
  }

  /** Before the loop, no child has been visited. */
  lemma KidsOnEntry(m: GoMap, t: Tree)
    requires t.TMap? && Denotes(MapRef(m), t) && Separate(t)
    ensures t.m == m && Kids(m, t.kids, t.kids)
  {}

  lemma KidsOnReturn(m: GoMap, t: Tree, now: map<string, Tree>)
    requires t.TMap? && t.m == m && Separate(t) && Kids(m, now, t.kids)
    ensures Holds(MapRef(m), TMap(m, now), t)
  {
    MapStaysSeparate(m, t.kids, now);
  }

  method WalkMap(kind: string, path: string, m: GoMap, ghost t: Tree) returns (ghost after: Tree)
    requires t.TMap? && Denotes(MapRef(m), t) && Separate(t)
    modifies Footprint(t)
    ensures Holds(MapRef(m), after, t)
    ensures Erase(after) == Redact(kind, path, Erase(t))
    decreases t, 1
  {
    hide Denotes, Separate, Footprint, Erase, Redact, JoinPath, EntryDone;
    ghost var was, now := t.kids, t.kids;
    KidsOnEntry(m, t);
    var todo := m.entries.Keys;
    while todo != {}
      invariant todo <= was.Keys
      invariant Kids(m, now, was)
      invariant forall k | k in todo :: now[k] == was[k]
      invariant forall k | k in was && k !in todo :: EntryDone(kind, JoinPath(path, k), was[k], now[k])
      decreases todo
    {
      var k :| k in todo;
      todo := todo - {k};
      now := VisitKey(kind, path, m, k, t, now);
    }
    KidsOnReturn(m, t, now);
    MapDone(kind, path, m, was, now);
    after := TMap(m, now);
  }

  lemma ElsewhereApart(t: Tree, k: string, now: map<string, Tree>)
    requires t.TMap? && Separate(t) && k in t.kids && now.Keys == t.kids.Keys
    requires forall l | l in now :: Footprint(now[l]) <= Footprint(t.kids[l])
    ensures t.m in Footprint(t) && t.m !in Footprint(t.kids[k]) && Footprint(t.kids[k]) <= Footprint(t)
    ensures forall l | l in now && l != k :: t.m !in Footprint(now[l]) && Footprint(t.kids[k]) !! Footprint(now[l])
  {}

  /** One key of the loop: only this key's subtree changes. */
  method VisitKey(kind: string, path: string, m: GoMap, k: string, ghost t: Tree, ghost now: map<string, Tree>)
    returns (ghost next: map<string, Tree>)
    requires t.TMap? && t.m == m && Separate(t) && k in t.kids
    requires Kids(m, now, t.kids) && now[k] == t.kids[k]
    modifies Footprint(t)
    ensures k in next && next == now[k := next[k]]
    ensures Kids(m, next, t.kids)
    ensures EntryDone(kind, JoinPath(path, k), t.kids[k], next[k])
    decreases t, 0
  {
    hide Denotes, Separate, Footprint, Erase, JoinPath, EntryDone;
    ghost var was := t.kids;
    ElsewhereApart(t, k, now);
    assert forall l | l in was && l != k :: allocated(Footprint(now[l]));
    ghost var done := WalkEntry(kind, JoinPath(path, k), m, k, was[k]);
    next := now[k := done];
  }

  /** One turn of the loop over a map's entries. */
  method WalkEntry(kind: string, childPath: string, m: GoMap, k: string, ghost t: Tree) returns (ghost after: Tree)
    requires k in m.entries && Denotes(m.entries[k], t) && Separate(t) && m !in Footprint(t)
    modifies m, Footprint(t)
    ensures m.entries.Keys == old(m.entries.Keys)
    ensures forall l | l in m.entries && l != k :: m.entries[l] == old(m.entries[l])
    ensures Holds(m.entries[k], after, t)
    ensures EntryDone(kind, childPath, t, after)
    decreases t, 3
  {
    var child := m.entries[k];
    var own := MatchRule(kind, childPath);
    if own.Some? {
      m.entries := m.entries[k := Leaf(Mark(own.value))];
      after := TLeaf(Mark(own.value));
      return;
    }
    var container := ContainerRule(kind, childPath);
    if container.Some? && child.MapRef? {
      Blanket(child.m, container.value);
      BlanketDone(kind, childPath, t, container.value);
      after := Blanketed(t, container.value);
      return;
    }
    after := Walk(kind, childPath, child, t);
  }

  /** The inner loop: every entry of a container map is overwritten. */
  method Blanket(m: GoMap, cls: string)
    modifies m
    ensures m.entries == map ck | ck in old(m.entries) :: Leaf(Mark(cls))
  {
    var todo := m.entries.Keys;
    while todo != {}
      invariant todo <= m.entries.Keys == old(m.entries.Keys)
      invariant forall ck | ck in m.entries && ck !in todo :: m.entries[ck] == Leaf(Mark(cls))
      decreases todo
    {
      var ck :| ck in todo;
      m.entries := m.entries[ck := Leaf(Mark(cls))];
      todo := todo - {ck};
    }
  }

  /** redaction.Apply: the caller keeps the same root reference. */
  method ApplyInPlace(kind: string, root: Node, ghost t: Tree) returns (out: Node, ghost after: Tree)
    requires Denotes(root, t) && Separate(t)
    modifies Footprint(t)
    ensures out == root
    ensures Holds(out, after, t)
    ensures Erase(after) == Apply(kind, Erase(t))
  {
    after := Walk(kind, "", root, t);
    out := root;
  }

  /** json.Unmarshal of a decoded value: a fresh tree that shares nothing. */
  method Unmarshal(j: Json) returns (n: Node, ghost t: Tree)
    ensures Denotes(n, t) && Separate(t) && Erase(t) == j
    ensures fresh(Footprint(t))
    decreases j, 1
  {
    match j
    case Obj(fs) => n, t := UnmarshalMap(j);
    case Arr(es) => n, t := UnmarshalSlice(j);
    case _ => n, t := Leaf(j), TLeaf(j);
  }

  method UnmarshalSlice(j: Json) returns (n: Node, ghost t: Tree)
    requires j.Arr?
    ensures Denotes(n, t) && Separate(t) && Erase(t) == j
    ensures fresh(Footprint(t))
    decreases j, 0
  {
    var elems: seq<Node> := [];
    ghost var trees: seq<Tree> := [];
    for i := 0 to |j.elems|
      invariant |elems| == |trees| == i
      invariant forall q | 0 <= q < i :: Denotes(elems[q], trees[q]) && Erase(trees[q]) == j.elems[q]
      invariant Separate(TSlice(trees)) && fresh(Footprint(TSlice(trees)))
    {
      assert forall q | 0 <= q < i :: allocated(Footprint(trees[q])) && Footprint(trees[q]) <= Footprint(TSlice(trees));
      var e;
      ghost var et;
      e, et := Unmarshal(j.elems[i]);
      elems, trees := elems + [e], trees + [et];
    }
    n, t := Slice(elems), TSlice(trees);
  }

  /** Entries built so far, one fresh tree each. */
  ghost predicate Built(entries: map<string, Node>, kids: map<string, Tree>, fields: map<string, Json>)
    reads set k, o | k in kids && o in Footprint(kids[k]) :: o
  {
    && entries.Keys == kids.Keys <= fields.Keys && Apart(kids)
    && forall k | k in kids :: Denotes(entries[k], kids[k]) && Separate(kids[k]) && Erase(kids[k]) == fields[k]
  }

  method UnmarshalMap(j: Json) returns (n: Node, ghost t: Tree)
    requires j.Obj?
    ensures Denotes(n, t) && Separate(t) && Erase(t) == j
    ensures fresh(Footprint(t))
    decreases j, 0
  {
    hide Denotes, Separate, Footprint, Erase;
    var entries: map<string, Node> := map[];
    ghost var kids: map<string, Tree> := map[];
    var todo := j.fields.Keys;
    while todo != {}
      invariant todo <= j.fields.Keys && entries.Keys == j.fields.Keys - todo
      invariant Built(entries, kids, j.fields)
      invariant forall k | k in kids :: fresh(Footprint(kids[k]))
      decreases todo
    {
      var k :| k in todo;
      todo := todo - {k};
      assert forall l | l in kids :: allocated(Footprint(kids[l]));
      var e;
      ghost var et;
      e, et := Unmarshal(j.fields[k]);
      BuiltMore(entries, kids, j.fields, k, e, et);
      entries, kids := entries[k := e], kids[k := et];
    }
    n, t := Allocate(entries, kids);
    EraseMap(t.m, kids, j);
    WhereFrom(t);
  }

  /** A map's footprint is the map and what its children are made of. */
  lemma WhereFrom(t: Tree)
    requires t.TMap?
    ensures forall o | o in Footprint(t) :: o == t.m || exists k :: k in t.kids && o in Footprint(t.kids[k])
  {}

  lemma BuiltMore(entries: map<string, Node>, kids: map<string, Tree>, fields: map<string, Json>,
                  k: string, e: Node, et: Tree)
    requires Built(entries, kids, fields) && k in fields && k !in kids
    requires Denotes(e, et) && Separate(et) && Erase(et) == fields[k]
    requires forall l | l in kids :: Footprint(et) !! Footprint(kids[l])
    ensures Built(entries[k := e], kids[k := et], fields)
  {}

  method Allocate(entries: map<string, Node>, ghost kids: map<string, Tree>) returns (n: Node, ghost t: Tree)
    requires entries.Keys == kids.Keys && Apart(kids)
    requires forall k | k in kids :: Denotes(entries[k], kids[k]) && Separate(kids[k])
    ensures t.TMap? && t.kids == kids && fresh(t.m) && Denotes(n, t) && Separate(t)
  {
    assert forall l | l in kids :: allocated(Footprint(kids[l]));
    var m := new GoMap(entries);
    n, t := MapRef(m), TMap(m, kids);
  }

  lemma EraseMap(m: GoMap, kids: map<string, Tree>, j: Json)
    requires j.Obj? && kids.Keys == j.fields.Keys && forall k | k in kids :: Erase(kids[k]) == j.fields[k]
    ensures Erase(TMap(m, kids)) == j
  {
    assert Erase(TMap(m, kids)).fields == j.fields;
  }

  /** Reading a tree back as a value, the way an encoder does. */
  method Marshal(n: Node, ghost t: Tree) returns (j: Json)
    requires Denotes(n, t)
    ensures j == Erase(t)
    decreases t, 1
  {
    match n
    case Leaf(v) => j := v;
    case Slice(elems) => j := MarshalSlice(elems, t);
    case MapRef(m) => j := MarshalMap(m, t);
  }

  method MarshalSlice(elems: seq<Node>, ghost t: Tree) returns (j: Json)
    requires Denotes(Slice(elems), t) && t.TSlice?
    ensures j == Erase(t)
    decreases t, 0
  {
    assert allocated(Footprint(t));
    var out: seq<Json> := [];
    for i := 0 to |elems|
      invariant Denotes(Slice(elems), t) && allocated(Footprint(t))
      invariant |out| == i && forall q | 0 <= q < i :: out[q] == Erase(t.elems[q])
    {
      var e := Marshal(elems[i], t.elems[i]);
      out := out + [e];
    }
    j := Arr(out);
  }

  method MarshalMap(m: GoMap, ghost t: Tree) returns (j: Json)
    requires Denotes(MapRef(m), t) && t.TMap?
    ensures j == Erase(t)
    decreases t, 0
  {
    assert allocated(Footprint(t));
    var out: map<string, Json> := map[];
    var todo := m.entries.Keys;
    while todo != {}
      invariant Denotes(MapRef(m), t) && allocated(Footprint(t))
      invariant todo <= t.kids.Keys && out.Keys == t.kids.Keys - todo
      invariant forall k | k in out :: out[k] == Erase(t.kids[k])
      decreases todo
    {
      var k :| k in todo;
      todo := todo - {k};
      var e := Marshal(m.entries[k], t.kids[k]);
      out := out[k := e];
    }
    j := Obj(out);
  }
}
