// The column paths of the CLI (internal/cli/output.go): a scanner for three path
// forms fused with their evaluation over a decoded object.
module JsonPath {
  import opened GoStrings
  import opened Json

  const FILTER: string := "[?(@.type=='"
  const CLOSE: string := "')]"
  const STAR: string := "[*]"

  // ----- Paths and what they mean ---------------------------------------

  /** What a path string denotes. An absent sub path or field is the element itself. */
  datatype Path =
    | NoPath
    | Plain(keys: seq<string>)
    | Flatten(keys: seq<string>, sub: Option<seq<string>>)
    | Filter(keys: seq<string>, condType: string, field: Option<string>)
    | Unsupported

  /** scalarToString; `fmt` renders maps, slices and other values (%v). */
  function ScalarToString(fmt: Json -> string, v: Json): string {
    match v
    case Null => ""
    case Str(s) => s
    case Bool(b) => if b then "true" else "false"
    case Number(text) => text
    case _ => fmt(v)
  }

  /** The value below nested map keys. */
  function Lookup(v: Json, keys: seq<string>): Option<Json> {
    if keys == [] then Some(v)
    else if v.Obj? && keys[0] in v.fields then Lookup(v.fields[keys[0]], keys[1..])
    else None
  }

  predicate HasType(c: Json, condType: string) {
    c.Obj? && "type" in c.fields && c.fields["type"] == Str(condType)
  }

  /** The first element that is a map with that type. */
  function FirstCondition(conds: seq<Json>, condType: string): (c: Option<Json>)
    ensures c.Some? ==> exists i :: 0 <= i < |conds| && conds[i] == c.value && HasType(conds[i], condType)
                                    && forall j | 0 <= j < i :: !HasType(conds[j], condType)
    ensures c.None? ==> forall j | 0 <= j < |conds| :: !HasType(conds[j], condType)
  {
    if conds == [] then None
    else if HasType(conds[0], condType) then Some(conds[0])
    else
      var r := FirstCondition(conds[1..], condType);
      FirstOfTail(conds, condType, r);
      r
  }

  lemma FirstOfTail(conds: seq<Json>, condType: string, c: Option<Json>)
    requires conds != [] && !HasType(conds[0], condType)
    requires c.Some? ==> exists i :: 0 <= i < |conds[1..]| && conds[1..][i] == c.value
                                     && HasType(conds[1..][i], condType)
                                     && forall j | 0 <= j < i :: !HasType(conds[1..][j], condType)
    ensures c.Some? ==> exists i :: 0 <= i < |conds| && conds[i] == c.value && HasType(conds[i], condType)
                                    && forall j | 0 <= j < i :: !HasType(conds[j], condType)
  {
    if c.Some? {
      var i :| 0 <= i < |conds[1..]| && conds[1..][i] == c.value && HasType(conds[1..][i], condType)
               && forall j | 0 <= j < i :: !HasType(conds[1..][j], condType);
      assert conds[i + 1] == c.value;
      forall j | 0 <= j < i + 1 ensures !HasType(conds[j], condType) {
        assert j > 0 ==> conds[j] == conds[1..][j - 1];
      }
    }
  }

  /** The text an element contributes: none when it lacks the sub path. */
  function Part(fmt: Json -> string, elem: Json, sub: Option<seq<string>>): seq<string> {
    match sub
    case None => [ScalarToString(fmt, elem)]
    case Some(keys) =>
      if elem.Obj? && Lookup(elem, keys).Some? then [ScalarToString(fmt, Lookup(elem, keys).value)] else []
  }

  /** The texts of the elements that have the sub path, in order. */
  function Parts(fmt: Json -> string, arr: seq<Json>, sub: Option<seq<string>>): seq<string> {
    if arr == [] then [] else Part(fmt, arr[0], sub) + Parts(fmt, arr[1..], sub)
  }

  /** A field of a condition; a missing one is nil. */
  function FieldOf(c: Json, field: string): Json
    requires c.Obj?
  {
    if field in c.fields then c.fields[field] else Null
  }

  function Eval(fmt: Json -> string, obj: Json, p: Path): string {
    match p
    case NoPath => ""
    case Unsupported => "<unsupported>"
    case Plain(keys) =>
      (match Lookup(obj, keys) case Some(v) => ScalarToString(fmt, v) case None => "")
    case Flatten(keys, sub) =>
      (match Lookup(obj, keys)
       case Some(Arr(arr)) => Join(Parts(fmt, arr, sub), ",")
       case _ => "")
    case Filter(keys, condType, field) =>
      (match Lookup(obj, keys)
       case Some(Arr(conds)) =>
         (match FirstCondition(conds, condType)
          case None => ""
          case Some(c) => ScalarToString(fmt, if field.None? then c else FieldOf(c, field.value)))
       case _ => "")
  }

  // ----- Strings and paths ----------------------------------------------

  function NonEmpty(s: string): Option<string> { if s == "" then None else Some(s) }

  /** The path a string denotes. */
  function Parse(s: string): Path {
    var path := TrimPrefix(s, ".");
    if path == "" then NoPath
    else
      match Index(path, FILTER)
      case Some(i) =>
        var rest := path[i + |FILTER|..];
        (match Index(rest, CLOSE)
         case None => Unsupported
         case Some(end) => Filter(Split(path[..i]), rest[..end], NonEmpty(TrimPrefix(rest[end + |CLOSE|..], "."))))
      case None =>
        match Index(path, STAR)
        case Some(i) =>
          var suffix := TrimPrefix(path[i + |STAR|..], ".");
          Flatten(Split(path[..i]), if suffix == "" then None else Some(Split(suffix)))
        case None => Plain(Split(path))
  }

  function Print(p: Path): string {
    match p
    case NoPath => ""
    case Unsupported => FILTER
    case Plain(keys) => "." + Join(keys, ".")
    case Flatten(keys, sub) => "." + (Join(keys, ".") + STAR + (if sub.None? then "" else "." + Join(sub.value, ".")))
    case Filter(keys, condType, field) =>
      "." + (Join(keys, ".") + FILTER + (condType + CLOSE + (if field.None? then "" else "." + field.value)))
  }

  // ----- The code -------------------------------------------------------

  /** `nested`. */
  method Nested(m: map<string, Json>, parts: seq<string>) returns (r: Option<Json>)
    ensures r == Lookup(Obj(m), parts)
  {
    var cur := Obj(m);
    for i := 0 to |parts|
      invariant Lookup(cur, parts[i..]) == Lookup(Obj(m), parts)
    {
      assert parts[i..][1..] == parts[i + 1..];
      if !cur.Obj? || parts[i] !in cur.fields {
        return None;
      }
      cur := cur.fields[parts[i]];
    }
    return Some(cur);
  }

  /** unstructured.NestedSlice: only a slice is found. */
  function NestedSlice(obj: map<string, Json>, keys: seq<string>): Option<seq<Json>> {
    match Lookup(Obj(obj), keys) case Some(Arr(es)) => Some(es) case _ => None
  }

  method ConditionField(fmt: Json -> string, obj: map<string, Json>, condPath: string, condType: string, field: string)
    returns (r: string)
    ensures r == Eval(fmt, Obj(obj), Filter(Split(condPath), condType, NonEmpty(field)))
  {
    var conds := NestedSlice(obj, Split(condPath));
    if conds.None? {
      return "";
    }
    for i := 0 to |conds.value|
      invariant FirstCondition(conds.value[i..], condType) == FirstCondition(conds.value, condType)
    {
      var c := conds.value[i];
      assert conds.value[i..][1..] == conds.value[i + 1..];
      if !c.Obj? {
        continue;
      }
      if "type" in c.fields && c.fields["type"] == Str(condType) {
        if field == "" {
          return ScalarToString(fmt, c);
        }
        return ScalarToString(fmt, FieldOf(c, field));
      }
    }
    return "";
  }

  method ArrayJoin(fmt: Json -> string, obj: map<string, Json>, prefix: string, suffix: string) returns (r: string)
    ensures r == Eval(fmt, Obj(obj), Flatten(Split(prefix), if suffix == "" then None else Some(Split(suffix))))
  {
    ghost var sub := if suffix == "" then None else Some(Split(suffix));
    var arr := NestedSlice(obj, Split(prefix));
    if arr.None? || |arr.value| == 0 {
      return "";
    }
    var parts: seq<string> := [];
    for i := 0 to |arr.value|
      invariant parts + Parts(fmt, arr.value[i..], sub) == Parts(fmt, arr.value, sub)
    {
      var elem := arr.value[i];
      PartsStep(fmt, parts, arr.value[i..], sub);
      assert arr.value[i..][1..] == arr.value[i + 1..];
      if suffix == "" {
        parts := parts + [ScalarToString(fmt, elem)];
        continue;
      }
      if elem.Obj? {
        var v := Nested(elem.fields, Split(suffix));
        if v.Some? {
          parts := parts + [ScalarToString(fmt, v.value)];
          continue;
        }
      }
      assert parts + [] == parts;
    }
    assert arr.value[|arr.value|..] == [] && parts + [] == parts;
    r := Join(parts, ",");
  }

  lemma PartsStep(fmt: Json -> string, parts: seq<string>, arr: seq<Json>, sub: Option<seq<string>>)
    requires arr != []
    ensures parts + Parts(fmt, arr, sub) == (parts + Part(fmt, arr[0], sub)) + Parts(fmt, arr[1..], sub)
  {}

  /** The column a path string shows. */
  function Column(fmt: Json -> string, obj: map<string, Json>, path: string): string {
    Eval(fmt, Obj(obj), Parse(path))
  }

  /** `extractColumn`: scanning and evaluating in one go is parsing and then evaluating. */
  method ExtractColumn(fmt: Json -> string, obj: map<string, Json>, path0: string) returns (r: string)
    ensures r == Column(fmt, obj, path0)
  {
    var path := TrimPrefix(path0, ".");
    if path == "" {
      return "";
    }
    var idx := Index(path, FILTER);
    if idx.Some? {
      var prefix := path[..idx.value];
      var rest := path[idx.value + |FILTER|..];
      var end := Index(rest, CLOSE);
      if end.None? {
        return "<unsupported>";
      }
      var condType := rest[..end.value];
      var fieldPath := TrimPrefix(rest[end.value + |CLOSE|..], ".");
      r := ConditionField(fmt, obj, prefix, condType, fieldPath);
      return;
    }
    idx := Index(path, STAR);
    if idx.Some? {
      var prefix := path[..idx.value];
      var suffix := TrimPrefix(path[idx.value + |STAR|..], ".");
      r := ArrayJoin(fmt, obj, prefix, suffix);
      return;
    }
    var v := Lookup(Obj(obj), Split(path));
    if v.None? {
      return "";
    }
    return ScalarToString(fmt, v.value);
  }
}
