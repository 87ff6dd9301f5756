// Decoded JSON values as Go's `any` holds them: nil, bool, number, string,
// []any and map[string]any, plus the redaction Marker struct that the audit
// code stores in place of a field. A number is kept as its rendered text.
module Json {

  datatype Json =
    | Null
    | Bool(b: bool)
    | Number(text: string)
    | Str(s: string)
    | Arr(elems: seq<Json>)
    | Obj(fields: map<string, Json>)
    | Mark(class_: string)
  {
    predicate Container() { Arr? || Obj? }
  }

  /** True when no Marker occurs anywhere: what a JSON decoder produces. */
  predicate MarkFree(j: Json) {
    match j
    case Mark(_) => false
    case Arr(es) => forall i | 0 <= i < |es| :: MarkFree(es[i])
    case Obj(fs) => forall k | k in fs :: MarkFree(fs[k])
    case _ => true
  }
}
