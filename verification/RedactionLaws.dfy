// What a redaction pass does to a tree: where markers appear, what stays, that
// a second pass changes nothing, and which paths the default rules reach.
module RedactionLaws {
  import opened GoStrings
  import opened Json
  import opened Redaction

  // ----- Locations ------------------------------------------------------

  datatype Step = Key(k: string) | Idx(i: nat)

  /** The node reached from j by following loc, if there is one. */
  function At(j: Json, loc: seq<Step>): Option<Json>
    decreases |loc|
  {
    if loc == [] then Some(j)
    else
      match (loc[0], j)
      case (Key(k), Obj(fs)) => if k in fs then At(fs[k], loc[1..]) else None
      case (Idx(i), Arr(es)) => if i < |es| then At(es[i], loc[1..]) else None
      case _ => None
  }

  /** The path string the walk has built when it stands at loc below `path`. */
  function PathOf(path: string, loc: seq<Step>): string
    decreases |loc|
  {
    if loc == [] then path
    else PathOf(JoinPath(path, if loc[0].Key? then loc[0].k else INDEX_SEGMENT), loc[1..])
  }

  /**
   * The class the last step of loc is redacted with, looking at nothing but
   * path strings: an enclosing `.*` container decides first, otherwise the
   * first rule that matches the node's own path. Array elements are never hit.
   */
  function ClassOf(kind: string, path: string, loc: seq<Step>): Option<string> {
    if loc == [] || !loc[|loc| - 1].Key? then None
    else
      var parent := loc[..|loc| - 1];
      var byContainer :=
        if parent != [] && parent[|parent| - 1].Key? then ContainerRule(kind, PathOf(path, parent)) else None;
      if byContainer.Some? then byContainer else MatchRule(kind, PathOf(path, loc))
  }

  /** No prefix of loc up to length n is hit. */
  predicate Untouched(kind: string, path: string, loc: seq<Step>, n: nat)
    requires n <= |loc|
  {
    forall m | 0 < m <= n :: ClassOf(kind, path, loc[..m]).None?
  }

  /** Same constructor, same scalar, same keys, same length. */
  predicate SameShape(a: Json, b: Json) {
    match (a, b)
    case (Obj(f), Obj(g)) => f.Keys == g.Keys
    case (Arr(x), Arr(y)) => |x| == |y|
    case _ => a == b
  }

  lemma PathOfOne(path: string, step: Step)
    ensures PathOf(path, [step]) == JoinPath(path, if step.Key? then step.k else INDEX_SEGMENT)
  {
    assert [step][1..] == [];
  }

  lemma {:induction false} PathOfSplit(path: string, loc: seq<Step>, n: nat)
    requires n <= |loc|
    ensures PathOf(path, loc) == PathOf(PathOf(path, loc[..n]), loc[n..])
    decreases n
  {
    if n > 0 {
      var next := JoinPath(path, if loc[0].Key? then loc[0].k else INDEX_SEGMENT);
      PathOfSplit(next, loc[1..], n - 1);
      assert loc[..n][1..] == loc[1..][..n - 1];
      assert loc[1..][n - 1..] == loc[n..];
    }
  }

  /** A class deep below the first step does not depend on where the walk started. */
  lemma ClassOfTail(kind: string, path: string, loc: seq<Step>)
    requires |loc| >= 2
    requires |loc| == 2 ==> ContainerRule(kind, PathOf(path, loc[..1])).None? || !loc[0].Key?
    ensures ClassOf(kind, path, loc) == ClassOf(kind, PathOf(path, loc[..1]), loc[1..])
  {
    var tail, base := loc[1..], PathOf(path, loc[..1]);
    PathOfSplit(path, loc, 1);
    var parent := loc[..|loc| - 1];
    PathOfSplit(path, parent, 1);
    assert parent[..1] == loc[..1];
    assert parent[1..] == tail[..|tail| - 1];
  }

  lemma UntouchedTail(kind: string, path: string, loc: seq<Step>, n: nat)
    requires 1 <= n <= |loc|
    requires n >= 2 ==> ContainerRule(kind, PathOf(path, loc[..1])).None? || !loc[0].Key? || !loc[1].Key?
    requires Untouched(kind, path, loc, n)
    ensures Untouched(kind, PathOf(path, loc[..1]), loc[1..], n - 1)
  {
    forall m | 0 < m <= n - 1
      ensures ClassOf(kind, PathOf(path, loc[..1]), loc[1..][..m]).None?
    {
      var p := loc[..m + 1];
      assert ClassOf(kind, path, p).None?;
      assert p[..1] == loc[..1] && p[1..] == loc[1..][..m];
      if |p| == 2 && ContainerRule(kind, PathOf(path, p[..1])).Some? && p[0].Key? {
        assert p[1] == loc[1];
      } else {
        ClassOfTail(kind, path, p);
      }
    }
  }

  /** What is reached inside a blanket-redacted container. */
  lemma AtBlanket(fs: map<string, Json>, cls: string, loc: seq<Step>)
    requires loc != []
    ensures At(Obj(map ck | ck in fs :: Mark(cls)), loc)
         == if |loc| == 1 && loc[0].Key? && loc[0].k in fs then Some(Mark(cls)) else None
  {
    var blanket := Obj(map ck | ck in fs :: Mark(cls));
    if loc[0].Key? && loc[0].k in fs {
      assert At(blanket, loc) == At(Mark(cls), loc[1..]);
    }
  }

  /** A node no prefix of which is hit keeps its constructor, scalar, keys and length. */
  lemma {:induction false} UntouchedNodesKeepTheirShape(kind: string, path: string, j: Json, loc: seq<Step>)
    requires At(j, loc).Some?
    requires Untouched(kind, path, loc, |loc|)
    ensures At(Redact(kind, path, j), loc).Some?
    ensures SameShape(At(j, loc).value, At(Redact(kind, path, j), loc).value)
    decreases |loc|
  {
    hide MatchRule;
    if loc != [] {
      PathOfOne(path, loc[0]);
      assert loc[..1] == [loc[0]];
      var p1 := PathOf(path, loc[..1]);
      var child := if loc[0].Key? then j.fields[loc[0].k] else j.elems[loc[0].i];
      assert loc[0].Key? ==> ClassOf(kind, path, loc[..1]) == MatchRule(kind, p1);
      if loc[0].Key? && ContainerRule(kind, p1).Some? && |loc| == 1 {
        assert loc[1..] == [];
      } else {
        if |loc| >= 2 {
          assert loc[..2][..1] == loc[..1];
          assert ClassOf(kind, path, loc[..2]).None?;
        }
        UntouchedTail(kind, path, loc, |loc|);
        UntouchedNodesKeepTheirShape(kind, p1, child, loc[1..]);
      }
    }
  }

  /** The first hit along loc becomes the marker of its class. */
  lemma {:induction false} FirstHitBecomesMarker(kind: string, path: string, j: Json, loc: seq<Step>)
    requires At(j, loc).Some? && loc != []
    requires Untouched(kind, path, loc, |loc| - 1)
    requires ClassOf(kind, path, loc).Some?
    ensures At(Redact(kind, path, j), loc) == Some(Mark(ClassOf(kind, path, loc).value))
    decreases |loc|
  {
    hide MatchRule;
    PathOfOne(path, loc[0]);
    assert loc[..1] == [loc[0]];
    var p1 := PathOf(path, loc[..1]);
    if |loc| == 1 {
      assert loc[..0] == [] && loc[1..] == [];
      assert loc[..1] == loc;
    } else {
      var child := if loc[0].Key? then j.fields[loc[0].k] else j.elems[loc[0].i];
      assert loc[0].Key? ==> ClassOf(kind, path, loc[..1]) == MatchRule(kind, p1);
      assert loc[..2][..1] == loc[..1];
      if loc[0].Key? && ContainerRule(kind, p1).Some? && loc[1].Key? {
        assert ClassOf(kind, path, loc[..2]) == ContainerRule(kind, p1);
        assert |loc| == 2 && loc[..2] == loc;
        assert At(child, loc[1..]).Some?;
        AtBlanket(child.fields, ContainerRule(kind, p1).value, loc[1..]);
      } else {
        UntouchedTail(kind, path, loc, |loc| - 1);
        ClassOfTail(kind, path, loc);
        FirstHitBecomesMarker(kind, p1, child, loc[1..]);
      }
    }
  }

  lemma AtChild(fs: map<string, Json>, loc: seq<Step>)
    ensures |loc| == 1 && loc[0].Key? && loc[0].k in fs ==> At(Obj(fs), loc).Some?
  {
    if |loc| == 1 { assert loc[1..] == []; }
  }

  /** Redaction never invents nodes. */
  lemma {:induction false} NoNewNodes(kind: string, path: string, j: Json, loc: seq<Step>)
    requires At(j, loc).None?
    ensures At(Redact(kind, path, j), loc).None?
    decreases |loc|
  {
    match (loc[0], j)
    case (Key(k), Obj(fs)) =>
      if k in fs {
        var p1 := JoinPath(path, k);
        assert loc[1..] != [];
        if RedactEntry(kind, p1, fs[k]) == Redact(kind, p1, fs[k]) {
          NoNewNodes(kind, p1, fs[k], loc[1..]);
        } else if MatchRule(kind, p1).None? {
          AtBlanket(fs[k].fields, ContainerRule(kind, p1).value, loc[1..]);
          AtChild(fs[k].fields, loc[1..]);
        }
      }
    case (Idx(i), Arr(es)) =>
      if i < |es| { NoNewNodes(kind, JoinPath(path, INDEX_SEGMENT), es[i], loc[1..]); }
    case _ =>
  }

  lemma {:induction false} AtSplit(j: Json, loc: seq<Step>, n: nat)
    requires n <= |loc|
    ensures At(j, loc) == (match At(j, loc[..n]) case None => None case Some(x) => At(x, loc[n..]))
    decreases n
  {
    if n > 0 {
      assert loc[..n][1..] == loc[1..][..n - 1];
      assert loc[1..][n - 1..] == loc[n..];
      match (loc[0], j)
      case (Key(k), Obj(fs)) => if k in fs { AtSplit(fs[k], loc[1..], n - 1); }
      case (Idx(i), Arr(es)) => if i < |es| { AtSplit(es[i], loc[1..], n - 1); }
      case _ =>
    }
  }

  lemma {:induction false} AtMarkFree(j: Json, loc: seq<Step>)
    requires MarkFree(j) && At(j, loc).Some?
    ensures MarkFree(At(j, loc).value)
    decreases |loc|
  {
    if loc != [] {
      AtMarkFree(if loc[0].Key? then j.fields[loc[0].k] else j.elems[loc[0].i], loc[1..]);
    }
  }

  /** The shortest hit prefix of loc. */
  lemma {:induction false} ShortestHit(kind: string, path: string, loc: seq<Step>, n: nat) returns (m: nat)
    requires n <= |loc| && !Untouched(kind, path, loc, n)
    ensures 0 < m <= n && ClassOf(kind, path, loc[..m]).Some? && Untouched(kind, path, loc, m - 1)
  {
    if Untouched(kind, path, loc, n - 1) {
      m := n;
    } else {
      m := ShortestHit(kind, path, loc, n - 1);
    }
  }

  /**
   * The whole effect of a pass, location by location: a node of a decoded
   * object is a marker afterwards exactly when it is the first hit on its own
   * path, with the class of that hit; it is gone exactly when something above
   * it was hit; otherwise it is what it was, up to its own children.
   */
  lemma RedactPointwise(kind: string, path: string, j: Json, loc: seq<Step>)
    requires MarkFree(j) && At(j, loc).Some? && loc != []
    ensures At(Redact(kind, path, j), loc).None? <==> !Untouched(kind, path, loc, |loc| - 1)
    ensures forall cls :: At(Redact(kind, path, j), loc) == Some(Mark(cls)) <==>
                          Untouched(kind, path, loc, |loc| - 1) && ClassOf(kind, path, loc) == Some(cls)
    ensures Untouched(kind, path, loc, |loc|) ==>
              SameShape(At(j, loc).value, At(Redact(kind, path, j), loc).value)
  {
    hide MatchRule;
    assert loc[..|loc|] == loc;
    AtMarkFree(j, loc);
    if Untouched(kind, path, loc, |loc|) {
      UntouchedNodesKeepTheirShape(kind, path, j, loc);
    } else if Untouched(kind, path, loc, |loc| - 1) {
      FirstHitBecomesMarker(kind, path, j, loc);
    } else {
      var m := ShortestHit(kind, path, loc, |loc| - 1);
      var hit := loc[..m];
      AtSplit(j, loc, m);
      forall q | 0 < q <= |hit| - 1 ensures ClassOf(kind, path, hit[..q]).None? {
        assert hit[..q] == loc[..q];
      }
      FirstHitBecomesMarker(kind, path, j, hit);
      AtSplit(Redact(kind, path, j), loc, m);
      assert loc[m..] != [];
    }
  }

  // ----- What redaction reveals -----------------------------------------

  /** No prefix of loc is hit: what is there survives a pass. */
  predicate Survives(kind: string, path: string, loc: seq<Step>) { Untouched(kind, path, loc, |loc|) }

  /** The two trees show the same at loc: nothing, or nodes of one shape. */
  predicate SameAt(a: Json, b: Json, loc: seq<Step>) {
    match (At(a, loc), At(b, loc))
    case (Some(x), Some(y)) => SameShape(x, y)
    case (None, None) => true
    case _ => false
  }

  /** Equal outside everything a pass hits. */
  ghost predicate SameOutside(kind: string, path: string, a: Json, b: Json) {
    forall loc :: Survives(kind, path, loc) ==> SameAt(a, b, loc)
  }

  /** A location survives below an unhit first step, unless that step is a container's. */
  lemma SurvivesBelow(kind: string, path: string, step: Step, tail: seq<Step>)
    requires ClassOf(kind, path, [step]).None? && Survives(kind, PathOf(path, [step]), tail)
    requires ContainerRule(kind, PathOf(path, [step])).None? || !step.Key? || tail == [] || !tail[0].Key?
    ensures Survives(kind, path, [step] + tail)
  {
    hide MatchRule;
    var loc := [step] + tail;
    forall m | 0 < m <= |loc| ensures ClassOf(kind, path, loc[..m]).None? {
      var p := loc[..m];
      assert p[..1] == [step];
      if m == 1 {
        assert p == [step];
      } else {
        assert p[1..] == tail[..m - 1];
        assert ClassOf(kind, PathOf(path, [step]), tail[..m - 1]).None?;
        if m == 2 && ContainerRule(kind, PathOf(path, [step])).Some? && step.Key? {
          assert p[|p| - 1] == tail[0];
        } else {
          ClassOfTail(kind, path, p);
        }
      }
    }
  }

  lemma AtStep(j: Json, step: Step, tail: seq<Step>)
    ensures At(j, [step] + tail) == (match At(j, [step]) case None => None case Some(x) => At(x, tail))
  {
    AtSplit(j, [step] + tail, 1);
    assert ([step] + tail)[..1] == [step] && ([step] + tail)[1..] == tail;
  }

  /** What holds of the trees holds of the children below an unhit step. */
  lemma SameOutsideBelow(kind: string, path: string, a: Json, b: Json, step: Step, x: Json, y: Json)
    requires SameOutside(kind, path, a, b) && ClassOf(kind, path, [step]).None?
    requires At(a, [step]) == Some(x) && At(b, [step]) == Some(y)
    requires ContainerRule(kind, PathOf(path, [step])).None? || !step.Key? || (!x.Obj? && !y.Obj?)
    ensures SameOutside(kind, PathOf(path, [step]), x, y)
  {
    hide MatchRule, ClassOf;
    forall tail: seq<Step> | Survives(kind, PathOf(path, [step]), tail) ensures SameAt(x, y, tail) {
      if ContainerRule(kind, PathOf(path, [step])).Some? && step.Key? && tail != [] && tail[0].Key? {
        assert At(x, tail).None? && At(y, tail).None?;
      } else {
        SurvivesBelow(kind, path, step, tail);
        AtStep(a, step, tail);
        AtStep(b, step, tail);
        assert SameAt(a, b, [step] + tail);
      }
    }
  }

  lemma SameShapeAtRoot(kind: string, path: string, a: Json, b: Json)
    requires SameOutside(kind, path, a, b)
    ensures SameShape(a, b)
  {
    assert Survives(kind, path, []);
    assert SameAt(a, b, []);
  }

  /** Trees that differ only inside what a pass hits are redacted to the same tree. */
  lemma {:induction false} RedactionHides(kind: string, path: string, a: Json, b: Json)
    requires SameOutside(kind, path, a, b)
    ensures Redact(kind, path, a) == Redact(kind, path, b)
    decreases a, 1
  {
    hide MatchRule;
    SameShapeAtRoot(kind, path, a, b);
    match (a, b)
    case (Obj(f), Obj(g)) =>
      forall k | k in f
        ensures RedactEntry(kind, JoinPath(path, k), f[k]) == RedactEntry(kind, JoinPath(path, k), g[k])
      {
        EntryHides(kind, path, a, b, k);
      }
    case (Arr(x), Arr(y)) =>
      forall i | 0 <= i < |x|
        ensures Redact(kind, JoinPath(path, INDEX_SEGMENT), x[i]) == Redact(kind, JoinPath(path, INDEX_SEGMENT), y[i])
      {
        PathOfOne(path, Idx(i));
        assert [Idx(i)][1..] == [];
        SameOutsideBelow(kind, path, a, b, Idx(i), x[i], y[i]);
        RedactionHides(kind, JoinPath(path, INDEX_SEGMENT), x[i], y[i]);
      }
    case _ =>
  }

  lemma {:induction false} EntryHides(kind: string, path: string, a: Json, b: Json, k: string)
    requires SameOutside(kind, path, a, b) && a.Obj? && b.Obj? && k in a.fields && k in b.fields
    ensures RedactEntry(kind, JoinPath(path, k), a.fields[k]) == RedactEntry(kind, JoinPath(path, k), b.fields[k])
    decreases a, 0
  {
    hide MatchRule;
    var p, x, y := JoinPath(path, k), a.fields[k], b.fields[k];
    PathOfOne(path, Key(k));
    assert [Key(k)][..0] == [] && [Key(k)][1..] == [];
    assert ClassOf(kind, path, [Key(k)]) == MatchRule(kind, p);
    if MatchRule(kind, p).None? {
      assert Survives(kind, path, [Key(k)]) by {
        assert [Key(k)][..1] == [Key(k)];
      }
      assert SameAt(a, b, [Key(k)]);
      assert At(a, [Key(k)]) == Some(x) && At(b, [Key(k)]) == Some(y);
      assert SameShape(x, y);
      if ContainerRule(kind, p).None? || !x.Obj? {
        SameOutsideBelow(kind, path, a, b, Key(k), x, y);
        RedactionHides(kind, p, x, y);
      } else {
        assert x.fields.Keys == y.fields.Keys;
      }
    }
  }

  lemma ShapeIsTransitive(a: Json, c: Json, d: Json, b: Json)
    requires SameShape(a, c) && c == d && SameShape(b, d)
    ensures SameShape(a, b)
  {}

  /**
   * Noninterference, both ways: two decoded objects of a kind have the same
   * redaction exactly when they agree at every location outside the hits. No
   * redacted value shows, and nothing else is hidden.
   */
  lemma RedactionRevealsExactly(kind: string, a: Json, b: Json)
    requires MarkFree(a) && MarkFree(b)
    ensures Apply(kind, a) == Apply(kind, b) <==> SameOutside(kind, "", a, b)
  {
    if SameOutside(kind, "", a, b) {
      RedactionHides(kind, "", a, b);
    }
    if Apply(kind, a) == Apply(kind, b) {
      forall loc: seq<Step> | Survives(kind, "", loc) ensures SameAt(a, b, loc) {
        if At(a, loc).Some? {
          UntouchedNodesKeepTheirShape(kind, "", a, loc);
        } else {
          NoNewNodes(kind, "", a, loc);
        }
        if At(b, loc).Some? {
          UntouchedNodesKeepTheirShape(kind, "", b, loc);
        } else {
          NoNewNodes(kind, "", b, loc);
        }
        if At(a, loc).Some? && At(b, loc).Some? {
          var c, d := At(Apply(kind, a), loc).value, At(Apply(kind, b), loc).value;
          ShapeIsTransitive(At(a, loc).value, c, d, At(b, loc).value);
        }
      }
    }
  }

  // ----- A second pass --------------------------------------------------

  lemma {:induction false} RedactIdempotent(kind: string, path: string, j: Json)
    ensures Redact(kind, path, Redact(kind, path, j)) == Redact(kind, path, j)
    decreases j, 0
  {
    hide MatchRule;
    match j
    case Obj(fs) =>
      forall k | k in fs
        ensures RedactEntry(kind, JoinPath(path, k), RedactEntry(kind, JoinPath(path, k), fs[k]))
             == RedactEntry(kind, JoinPath(path, k), fs[k])
      {
        RedactEntryIdempotent(kind, JoinPath(path, k), fs[k]);
      }
    case Arr(es) =>
      forall i | 0 <= i < |es| { RedactIdempotent(kind, JoinPath(path, INDEX_SEGMENT), es[i]); }
    case _ =>
  }

  lemma {:induction false} RedactEntryIdempotent(kind: string, path: string, child: Json)
    ensures RedactEntry(kind, path, RedactEntry(kind, path, child)) == RedactEntry(kind, path, child)
    decreases child, 1
  {
    RedactIdempotent(kind, path, child);
  }

  /** How a tree looks after encoding/json wrote it: markers become `{"@redacted": class}`. */
  function OnWire(j: Json): Json {
    match j
    case Mark(cls) => Obj(map["@redacted" := Str(cls)])
    case Arr(es) => Arr(seq(|es|, i requires 0 <= i < |es| => OnWire(es[i])))
    case Obj(fs) => Obj(map k | k in fs :: OnWire(fs[k]))
    case _ => j
  }

  /**
   * Redacting a redacted object again after it went over the wire restores
   * every marker: nothing is lost, and nothing inside a marker object is hit.
   */
  lemma {:induction false} RedactAfterWire(kind: string, path: string, j: Json)
    requires MarkFree(j)
    ensures Redact(kind, path, OnWire(Redact(kind, path, j))) == Redact(kind, path, j)
    decreases j, 0
  {
    hide MatchRule;
    match j
    case Obj(fs) =>
      forall k | k in fs
        ensures RedactEntry(kind, JoinPath(path, k), OnWire(RedactEntry(kind, JoinPath(path, k), fs[k])))
             == RedactEntry(kind, JoinPath(path, k), fs[k])
      {
        RedactEntryAfterWire(kind, JoinPath(path, k), fs[k]);
      }
    case Arr(es) =>
      forall i | 0 <= i < |es| { RedactAfterWire(kind, JoinPath(path, INDEX_SEGMENT), es[i]); }
    case _ =>
  }

  lemma {:induction false} RedactEntryAfterWire(kind: string, path: string, child: Json)
    requires MarkFree(child)
    ensures RedactEntry(kind, path, OnWire(RedactEntry(kind, path, child))) == RedactEntry(kind, path, child)
    decreases child, 1
  {
    hide MatchRule;
    RedactAfterWire(kind, path, child);
  }

  /** Consequently the stored form of a redacted object is stable under re-redaction. */
  lemma WireFormStable(kind: string, j: Json)
    requires MarkFree(j)
    ensures OnWire(Apply(kind, OnWire(Apply(kind, j)))) == OnWire(Apply(kind, j))
  {
    RedactAfterWire(kind, "", j);
  }

  // ----- Paths as segment lists -----------------------------------------

  function FoldPath(path: string, keys: seq<string>): string
    decreases |keys|
  {
    if keys == [] then path else FoldPath(JoinPath(path, keys[0]), keys[1..])
  }

  lemma {:induction false} FoldFromNonEmpty(path: string, keys: seq<string>)
    requires path != ""
    ensures Split(FoldPath(path, keys)) == Split(path) + (if keys == [] then [] else Split(Join(keys, ".")))
    decreases |keys|
  {
    if keys != [] {
      SplitAtDot(path, keys[0]);
      FoldFromNonEmpty(path + "." + keys[0], keys[1..]);
      if |keys| > 1 {
        SplitAtDot(keys[0], Join(keys[1..], "."));
      }
    }
  }

  /**
   * The string path the walk builds for a key list splits back into that list
   * exactly when no key contains a dot and the first key is not empty (a lone
   * empty key is harmless).
   */
  lemma FoldThenSplit(keys: seq<string>)
    requires keys != []
    ensures Split(FoldPath("", keys)) == keys <==> AllDotFree(keys) && (keys[0] != "" || |keys| == 1)
  {
    SplitSegmentsAreDotFree(FoldPath("", keys));
    assert FoldPath("", keys) == FoldPath(keys[0], keys[1..]);
    if keys[0] != "" {
      FoldFromNonEmpty(keys[0], keys[1..]);
      if AllDotFree(keys) {
        SplitOfDotFree(keys[0]);
        if |keys| > 1 { SplitJoin(keys[1..]); }
        assert keys == [keys[0]] + keys[1..];
      }
    } else if |keys| > 1 {
      LeadingEmptyKeyVanishes(keys[1..]);
    } else {
      assert keys == [""];
    }
  }

  /** An empty first key leaves no segment, so the split comes out shorter than the list. */
  lemma {:induction false} LeadingEmptyKeyVanishes(keys: seq<string>)
    requires keys != []
    ensures AllDotFree(keys) ==> |Split(FoldPath("", keys))| <= |keys|
    decreases |keys|
  {
    if AllDotFree(keys) {
      if keys[0] != "" {
        FoldFromNonEmpty(keys[0], keys[1..]);
        SplitOfDotFree(keys[0]);
        if |keys| > 1 { SplitJoin(keys[1..]); }
      } else if |keys| > 1 {
        LeadingEmptyKeyVanishes(keys[1..]);
      }
    }
  }

  /** A dotted key and an empty first key, lost in the string form. */
  lemma KeysLostInPaths()
    ensures FoldPath("", ["a.b"]) == FoldPath("", ["a", "b"]) == "a.b"
    ensures FoldPath("", ["", "a"]) == FoldPath("", ["a"]) == "a"
  {
    assert ["a.b"][1..] == [] && ["a"][1..] == [] && ["a", "b"][1..] == ["b"] && ["b"][1..] == [];
    assert ["", "a"][1..] == ["a"];
    assert "a" + "." + "b" == "a.b";
  }

  /** Unescaping happens too late to do anything: every pattern segment is dot-free already. */
  lemma UnescapeIsIdentityOnSegments(pattern: string, i: nat)
    requires i < |Split(pattern)|
    ensures Unescape(Split(pattern)[i]) == Split(pattern)[i]
  {
    SplitSegmentsAreDotFree(pattern);
    UnescapeOfDotFree(Split(pattern)[i]);
  }

  /** Segment-wise matching with "*" for exactly one segment. */
  predicate SegmentsMatch(pattern: seq<string>, keys: seq<string>) {
    |pattern| == |keys| && forall i | 0 <= i < |keys| :: pattern[i] == "*" || pattern[i] == keys[i]
  }

  lemma PathMatchesIsSegmentWise(pattern: string, path: string)
    ensures PathMatches(pattern, path) <==> SegmentsMatch(Split(pattern), Split(path))
  {
    forall i | 0 <= i < |Split(pattern)| ensures Unescape(Split(pattern)[i]) == Split(pattern)[i] {
      UnescapeIsIdentityOnSegments(pattern, i);
    }
  }

  /** On key lists the string matcher is the list matcher. */
  lemma PathMatchesOnKeys(pattern: string, keys: seq<string>)
    requires keys != [] && AllDotFree(keys) && keys[0] != ""
    ensures PathMatches(pattern, FoldPath("", keys)) <==> SegmentsMatch(Split(pattern), keys)
  {
    FoldThenSplit(keys);
    PathMatchesIsSegmentWise(pattern, FoldPath("", keys));
  }

  /** A pattern without "*" matches one path only: itself, backslashes included. */
  lemma LiteralPatternMatchesItself(pattern: string, path: string)
    requires "*" !in Split(pattern)
    ensures PathMatches(pattern, path) <==> path == pattern
  {
    PathMatchesIsSegmentWise(pattern, path);
    JoinSplit(pattern);
    JoinSplit(path);
    if PathMatches(pattern, path) {
      assert Split(pattern) == Split(path);
    }
  }
}
