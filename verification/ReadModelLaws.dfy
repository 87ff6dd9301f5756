// What the API records of the read model show of the CRD records.
module ReadModelLaws {
  import opened GoStrings
  import opened ReadModel

  /** A text that is left out when empty. */
  ghost function Plain(o: Option<string>): string { if o.None? then "" else o.value }

  /** The optional text is there exactly when it says something. */
  ghost predicate Optional(o: Option<string>, s: string) { Plain(o) == s && (o.None? <==> s == "") }

  /** Condition i is the first one of type Accepted. */
  ghost predicate FirstAccepted(conds: seq<Condition>, i: nat) {
    i < |conds| && conds[i].ctype == "Accepted" && forall j | 0 <= j < i :: conds[j].ctype != "Accepted"
  }

  /** Rejected objects are blocked, observed ones progress, the others are missing. */
  ghost predicate StatusIs(conds: seq<Condition>, s: Status) {
    && (forall i: nat | FirstAccepted(conds, i) :: s == if conds[i].status == "False" then Blocked else Progressing)
    && ((forall i | 0 <= i < |conds| :: conds[i].ctype != "Accepted") ==> s == Missing)
  }

  lemma {:induction false} FirstIsFound(conds: seq<Condition>, i: nat)
    requires FirstAccepted(conds, i)
    ensures FindCondition(conds, "Accepted") == Some(conds[i])
  {
    if i > 0 {
      assert forall j | 0 <= j < |conds| - 1 :: conds[1..][j] == conds[j + 1];
      FirstIsFound(conds[1..], i - 1);
    }
  }

  lemma {:induction false} NoneIsFound(conds: seq<Condition>)
    requires forall i | 0 <= i < |conds| :: conds[i].ctype != "Accepted"
    ensures FindCondition(conds, "Accepted").None?
  {
    if conds != [] {
      assert forall j | 0 <= j < |conds| - 1 :: conds[1..][j] == conds[j + 1];
      NoneIsFound(conds[1..]);
    }
  }

  lemma StatusMeans(conds: seq<Condition>)
    ensures StatusIs(conds, StatusFromConditions(conds))
  {
    forall i: nat | FirstAccepted(conds, i)
      ensures StatusFromConditions(conds) == if conds[i].status == "False" then Blocked else Progressing
    {
      FirstIsFound(conds, i);
    }
    if forall i | 0 <= i < |conds| :: conds[i].ctype != "Accepted" {
      NoneIsFound(conds);
    }
  }

  /** x is the API record of target t. */
  ghost predicate TargetShown(x: ApiTarget, t: Target) {
    && x.name == t.name && StatusIs(t.conditions, x.status) && x.lastSync == t.lastContactedAt
    && Optional(x.cell, t.cell) && Optional(x.cluster, t.cluster) && Optional(x.env, t.environment)
    && Optional(x.region, t.region) && Optional(x.ulid, t.ulid)
  }

  lemma TargetMeans(t: Target)
    ensures TargetShown(TargetToAPI(t), t)
  {
    hide StatusFromConditions, StatusIs;
    StatusMeans(t.conditions);
  }
}
