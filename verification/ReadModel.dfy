// The CRD records the read model starts from and the API records it returns
// (api/v1alpha1, internal/api/openapi), with the field mappings of
// internal/api/readmodel/crdsource/map.go.
module ReadModel {
  import opened GoStrings

  datatype Status = Blocked | Degraded | Drifted | Failed | Frozen | Healthy | Missing | Progressing

  datatype Condition = Condition(ctype: string, status: string)

  datatype Target = Target(
    name: string, environment: string, cell: string, region: string, cluster: string,
    conditions: seq<Condition>, ulid: string, lastContactedAt: Option<int>)

  datatype Environment = Environment(name: string, order: int)

  datatype Application = Application(name: string, conditions: seq<Condition>, ulid: string)

  datatype ApiTarget = ApiTarget(
    name: string, status: Status, cell: Option<string>, cluster: Option<string>, env: Option<string>,
    region: Option<string>, ulid: Option<string>, lastSync: Option<int>)

  datatype ApiCell = ApiCell(name: Option<string>, region: Option<string>, targets: Option<seq<ApiTarget>>)

  datatype ApiEnvironment = ApiEnvironment(name: string, regions: Option<seq<string>>, cells: Option<seq<ApiCell>>)

  /** strPtrOrNil. */
  function StrPtrOrNil(s: string): Option<string> { if s == "" then None else Some(s) }

  /** derefString. */
  function Deref(p: Option<string>): string { if p.Some? then p.value else "" }

  /** meta.FindStatusCondition: the first condition of that type. */
  function FindCondition(conds: seq<Condition>, ctype: string): Option<Condition> {
    if conds == [] then None
    else if conds[0].ctype == ctype then Some(conds[0])
    else FindCondition(conds[1..], ctype)
  }

  function StatusFromConditions(conds: seq<Condition>): Status {
    match FindCondition(conds, "Accepted")
    case None => Missing
    case Some(c) => if c.status == "False" then Blocked else Progressing
  }

  function TargetToAPI(t: Target): ApiTarget {
    ApiTarget(t.name, StatusFromConditions(t.conditions), StrPtrOrNil(t.cell), StrPtrOrNil(t.cluster),
              StrPtrOrNil(t.environment), StrPtrOrNil(t.region), StrPtrOrNil(t.ulid), t.lastContactedAt)
  }

  function TargetsToAPI(ts: seq<Target>): (r: seq<ApiTarget>)
    ensures |r| == |ts|
  {
    if ts == [] then [] else [TargetToAPI(ts[0])] + TargetsToAPI(ts[1..])
  }
}
