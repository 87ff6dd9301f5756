// The redaction rules and the pure meaning of a redaction pass
// (internal/audit/redaction/redact.go). RedactionWalk proves the in-place walk
// against `Redact`; RedactionLaws proves what `Redact` does to a tree.
module Redaction {
  import opened GoStrings
  import opened Json

  const SECRET_BYTES := "secret-bytes"
  const BEARER_TOKEN := "bearer-token"
  const TLS_MATERIAL := "tls-material"
  const WEBHOOK_SECRET := "webhook-secret"

  datatype Rule = Rule(parentKind: string, fieldPath: string, class_: string)

  const DEFAULT_RULES: seq<Rule> := [
    Rule("Secret", "data.*", SECRET_BYTES),
    Rule("Secret", "stringData.*", SECRET_BYTES),
    Rule("", "spec.webhook.secret", WEBHOOK_SECRET),
    Rule("", "spec.webhook.secretRef", WEBHOOK_SECRET),
    Rule("", "data.tls\\.crt", TLS_MATERIAL),
    Rule("", "data.tls\\.key", TLS_MATERIAL),
    Rule("", "*.token", BEARER_TOKEN),
    Rule("", "*.bearerToken", BEARER_TOKEN)
  ]

  function JoinPath(parent: string, segment: string): string {
    if parent == "" then segment else parent + "." + segment
  }

  /** The path segment of every array element. */
  const INDEX_SEGMENT := "[]"

  predicate SegmentMatches(pattern: string, observed: string) {
    var seg := Unescape(pattern);
    seg == "*" || seg == observed
  }

  /** Both sides are split on "." first; only then is `\.` unescaped in the pattern. */
  predicate PathMatches(pattern: string, path: string) {
    var pp, tp := Split(pattern), Split(path);
    |pp| == |tp| && forall i | 0 <= i < |pp| :: SegmentMatches(pp[i], tp[i])
  }

  predicate RuleApplies(r: Rule, kind: string, path: string) {
    (r.parentKind == "" || r.parentKind == kind) && PathMatches(r.fieldPath, path)
  }

  function FirstMatch(rules: seq<Rule>, kind: string, path: string): Option<string> {
    if rules == [] then None
    else if RuleApplies(rules[0], kind, path) then Some(rules[0].class_)
    else FirstMatch(rules[1..], kind, path)
  }

  function MatchRule(kind: string, path: string): Option<string> {
    FirstMatch(DEFAULT_RULES, kind, path)
  }

  /** The rule that makes the map at `path` a container whose children are all replaced. */
  function ContainerRule(kind: string, path: string): Option<string> {
    MatchRule(kind, path + ".*")
  }

  /** The value a whole subtree has after the walk visited it at `path`. */
  function Redact(kind: string, path: string, j: Json): Json
    decreases j, 0
  {
    match j
    case Obj(fs) => Obj(map k | k in fs :: RedactEntry(kind, JoinPath(path, k), fs[k]))
    case Arr(es) =>
      Arr(seq(|es|, i requires 0 <= i < |es| => Redact(kind, JoinPath(path, INDEX_SEGMENT), es[i])))
    case _ => j
  }

  /** The value a map entry at `path` has after the walk handled it. */
  function RedactEntry(kind: string, path: string, child: Json): Json
    decreases child, 1
  {
    match MatchRule(kind, path)
    case Some(cls) => Mark(cls)
    case None =>
      match ContainerRule(kind, path)
      case Some(cls) =>
        if child.Obj? then Obj(map ck | ck in child.fields :: Mark(cls))
        else Redact(kind, path, child)
      case None => Redact(kind, path, child)
  }

  /** redaction.Apply on a decoded value. */
  function Apply(kind: string, root: Json): Json {
    Redact(kind, "", root)
  }
}
