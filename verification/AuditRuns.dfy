// Whole runs of the admission handler and of Emit: write-then-act, what every
// recorded envelope satisfies, and how ids and timestamps follow the clock.
module AuditRuns {
  import opened GoStrings
  import opened Json
  import opened Redaction
  import RedactionLaws
  import DefaultRules
  import opened Ulid
  import opened UlidLaws
  import opened Audit

  datatype Call = Call(req: Request, amb: Ambient)

  /** A sequential run: the responses, and the log after it. */
  function Run(cluster: string, log: seq<Envelope>, calls: seq<Call>): (out: (seq<Response>, seq<Envelope>))
    ensures |out.0| == |calls|
    decreases |calls|
  {
    if calls == [] then ([], log)
    else
      var (resp, log') := HandleResult(cluster, log, calls[0].req, calls[0].amb);
      var (resps, log'') := Run(cluster, log', calls[1..]);
      ([resp] + resps, log'')
  }

  predicate StateChanging(req: Request) { req.operation in {"CREATE", "UPDATE", "DELETE"} }

  predicate Decodable(req: Request) { !req.oldRaw.Malformed? && !req.raw.Malformed? }

  /** The state-changing calls that were let through, in order. */
  function Admitted(calls: seq<Call>, resps: seq<Response>): seq<Call>
    requires |calls| == |resps|
    decreases |calls|
  {
    if calls == [] then []
    else
      (if StateChanging(calls[0].req) && resps[0].Allowed? then [calls[0]] else [])
      + Admitted(calls[1..], resps[1..])
  }

  /** The snapshot of an object is its redaction, that of an absent one is null. */
  predicate Shows(snapshot: Json, raw: RawDoc, kind: string) {
    match raw
    case Empty => snapshot == Null
    case NullDoc => snapshot == Null
    case Malformed(_) => false
    case Document(fs) => snapshot == Apply(kind, Obj(fs))
  }

  /** The payload of a write: its type, and a flag for each thing that is the case. */
  predicate WriteFlags(p: map<string, Json>, subresource: bool, dryRun: bool) {
    && "@type" in p && p["@type"] == Str("crd.write.v1")
    && ("subresourceWrite" in p <==> subresource) && (subresource ==> p["subresourceWrite"] == Bool(true))
    && ("dryRun" in p <==> dryRun) && (dryRun ==> p["dryRun"] == Bool(true))
    && forall k | k in p :: k == "@type" || k == "subresourceWrite" || k == "dryRun"
  }

  /** Users that Kubernetes itself names. */
  predicate SystemUser(name: string) { |name| >= 7 && name[..7] == "system:" }

  /** The record of request c: who did what to which object, with both snapshots redacted. */
  predicate RecordOf(e: Envelope, cluster: string, c: Call) {
    && e.schemaVersion == "audit/v1"
    && (e.verb == "create" <==> c.req.operation == "CREATE")
    && (e.verb == "edit" <==> c.req.operation == "UPDATE")
    && (e.verb == "delete" <==> c.req.operation == "DELETE")
    && e.subject.apiGroup == c.req.group && e.subject.version == c.req.version && e.subject.kind == c.req.kind
    && e.subject.namespace == c.req.namespace && e.subject.name == c.req.name
    && e.requestId == c.req.uid && e.clusterName == cluster && e.outcome == "success"
    && (e.actor.actorType == System <==> SystemUser(c.req.username))
    && e.actor.subject == c.req.username && e.actor.subjectId == c.req.userUID && e.actor.groups == c.req.groups
    && Shows(e.before, c.req.oldRaw, c.req.kind) && Shows(e.after, c.req.raw, c.req.kind)
    && IdOf(e.eventId, c.amb.idClock, c.amb.rand) && e.occurredAt == Some(c.amb.stampClock)
    && e.payload.Some? && WriteFlags(e.payload.value, c.req.subResource != "", c.req.dryRun == Some(true))
  }

  /** One record per admitted call, in the same order. */
  predicate Corresponds(records: seq<Envelope>, cluster: string, calls: seq<Call>) {
    |records| == |calls| && forall i | 0 <= i < |calls| :: RecordOf(records[i], cluster, calls[i])
  }

  lemma CorrespondsCons(r: Envelope, rs: seq<Envelope>, cluster: string, c: Call, cs: seq<Call>)
    requires RecordOf(r, cluster, c) && Corresponds(rs, cluster, cs)
    ensures Corresponds([r] + rs, cluster, [c] + cs)
  {}

  /** The log gains the record of an admitted state-changing request, and nothing otherwise. */
  predicate Gains(cluster: string, c: Call, resp: Response, log: seq<Envelope>, log': seq<Envelope>) {
    if StateChanging(c.req) && resp.Allowed?
    then |log'| == |log| + 1 && log' == log + [log'[|log|]] && RecordOf(log'[|log|], cluster, c)
    else log' == log
  }

  // ----- What Emit does -------------------------------------------------

  /** The registered pairs: view takes no payload, a write takes the write payload. */
  predicate Registered(verb: string, p: Option<Payload>) {
    if verb == "view" then p.None?
    else verb in {"create", "edit", "delete"} && p.Some? && p.value.auditType == "crd.write.v1"
  }

  /** Which error a call that is not recorded gets: registry first, then the payload's own check, then the sink. */
  predicate Refused(error: EmitError, verb: string, p: Option<Payload>) {
    if verb == "view" then error == if p.Some? then TakesNoPayload("view") else SinkFailed
    else if !(verb in {"create", "edit", "delete"}) then error == UnregisteredVerb(verb)
    else if p.None? then error == RequiresPayload(verb, "crd.write.v1")
    else if p.value.auditType != "crd.write.v1" then error == WrongPayload(verb, "crd.write.v1", p.value.auditType)
    else if p.value.invalid.Some? then error == InvalidPayload(p.value.invalid.value)
    else error == SinkFailed
  }

  /** The encoded payload with its type; the type wins over a field of that name. */
  predicate Tagged(m: map<string, Json>, p: Payload) {
    && "@type" in m && m["@type"] == Str(p.auditType)
    && match p.encoded
       case Fields(fs) => m.Keys == fs.Keys + {"@type"} && forall k | k in fs && k != "@type" :: m[k] == fs[k]
       case NullDocument => m.Keys == {"@type"}
       case MarshalError(msg) => m.Keys == {"@type", "@marshalError"} && m["@marshalError"] == Str(msg)
  }

  /** The recorded envelope: what the caller set stays, what it left out is filled in. */
  predicate Emitted(e: Envelope, env: Envelope, p: Option<Payload>, amb: Ambient) {
    && e.schemaVersion == (if env.schemaVersion == "" then "audit/v1" else env.schemaVersion)
    && (if env.eventId == "" then IdOf(e.eventId, amb.idClock, amb.rand) else e.eventId == env.eventId)
    && e.occurredAt == (if env.occurredAt.None? then Some(amb.stampClock) else env.occurredAt)
    && (if p.None? then e.payload == env.payload else e.payload.Some? && Tagged(e.payload.value, p.value))
    && e == env.(schemaVersion := e.schemaVersion, eventId := e.eventId, occurredAt := e.occurredAt,
                 payload := e.payload)
  }

  lemma RegistryMeans(verb: string, p: Option<Payload>)
    ensures ValidatePayloadForVerb(verb, p).None? <==> Registered(verb, p)
    ensures ValidatePayloadForVerb(verb, p).Some? ==> Refused(ValidatePayloadForVerb(verb, p).value, verb, p)
  {
    assert |"crd.write.v1"| == 12;
    assert "create"[0] == 'c' && "edit"[0] == 'e' && "delete"[0] == 'd' && "view"[0] == 'v';
  }

  lemma TypeIsSet(p: Payload)
    ensures Tagged(WithType(p), p)
  {
    assert |"@type"| == 5 && |"@marshalError"| == 13;
  }

  lemma CompletedMeans(env: Envelope, p: Option<Payload>, amb: Ambient)
    ensures var r := Completed(env, p, amb);
            && (r.Ok? <==> Registered(env.verb, p) && (p.Some? ==> p.value.invalid.None?))
            && (r.Ok? ==> Emitted(r.value, env, p, amb))
            && (r.Err? ==> Refused(r.error, env.verb, p))
  {
    hide IdOf, Mint, Tagged, WithType, ValidatePayloadForVerb;
    RegistryMeans(env.verb, p);
    MintShows(amb.idClock, amb.rand);
    if p.Some? { TypeIsSet(p.value); }
  }

  /** Emit for every envelope, payload and surroundings: when it records, what, and with which error it does not. */
  lemma EmitMeans(log: seq<Envelope>, env: Envelope, p: Option<Payload>, amb: Ambient)
    ensures var (r, log') := EmitResult(log, env, p, amb);
            && (r.Ok? <==> amb.sinkUp && Registered(env.verb, p) && (p.Some? ==> p.value.invalid.None?))
            && (r.Ok? ==> |log'| == |log| + 1 && log' == log + [log'[|log|]]
                          && Emitted(log'[|log|], env, p, amb) && r.value == log'[|log|].eventId)
            && (r.Err? ==> log' == log && Refused(r.error, env.verb, p))
  {
    hide Completed, Emitted;
    CompletedMeans(env, p, amb);
  }

  // ----- What the handler records ---------------------------------------

  lemma VerbsMean(op: string)
    ensures match VerbFor(op)
            case None => !(op in {"CREATE", "UPDATE", "DELETE"})
            case Some(v) =>
              op in {"CREATE", "UPDATE", "DELETE"} && v in {"create", "edit", "delete"}
              && (v == "create" <==> op == "CREATE") && (v == "edit" <==> op == "UPDATE")
              && (v == "delete" <==> op == "DELETE") && v != "view"
  {
    assert "CREATE"[0] == 'C' && "UPDATE"[0] == 'U' && "DELETE"[0] == 'D';
    assert "create"[0] == 'c' && "edit"[0] == 'e' && "delete"[0] == 'd' && "view"[0] == 'v';
  }

  lemma SystemUsers(name: string)
    ensures ActorTypeFor(name) == System <==> SystemUser(name)
  {
    if HasPrefix(name, "system:serviceaccount:") {
      assert name[..7] == name[..22][..7] == "system:serviceaccount:"[..7] == "system:";
    }
  }

  lemma PlainWrite(subresource: bool, dryRun: bool)
    ensures var p := CRDWriteV1(subresource, dryRun);
            p.auditType == "crd.write.v1" && p.invalid.None? && p.encoded.Fields?
  {}

  lemma TaggedWrite(m: map<string, Json>, subresource: bool, dryRun: bool)
    requires Tagged(m, CRDWriteV1(subresource, dryRun))
    ensures WriteFlags(m, subresource, dryRun)
  {
    assert |"@type"| == 5 && |"subresourceWrite"| == 16 && |"dryRun"| == 6;
    forall k | k in m ensures k == "@type" || k == "subresourceWrite" || k == "dryRun" {
      assert k in CRDWriteV1(subresource, dryRun).encoded.fields.Keys + {"@type"};
    }
  }

  lemma SnapshotsShow(raw: RawDoc, kind: string)
    ensures SnapshotOf(raw, kind).Ok? <==> !raw.Malformed?
    ensures SnapshotOf(raw, kind).Ok? ==> Shows(SnapshotOf(raw, kind).value, raw, kind)
    ensures raw.Malformed? ==> SnapshotOf(raw, kind) == Err(raw.msg)
  {}

  /** The envelope the handler builds comes without version, id and time. */
  lemma BuiltEnvelope(cluster: string, c: Call, verb: string)
    requires Decodable(c.req) && VerbFor(c.req.operation) == Some(verb)
    ensures var built := BuildEnvelope(cluster, c.req, verb);
            built.Ok? && built.value.1 == CRDWriteV1(c.req.subResource != "", c.req.dryRun == Some(true))
            && built.value.0.schemaVersion == "" && built.value.0.eventId == "" && built.value.0.occurredAt.None?
            && built.value.0.verb == verb
  {
    hide CRDWriteV1, Apply;
    SnapshotsShow(c.req.oldRaw, c.req.kind);
    SnapshotsShow(c.req.raw, c.req.kind);
  }

  /** Once emitted, it is the record of its request. */
  lemma EmittedIsRecord(e: Envelope, cluster: string, c: Call, verb: string)
    requires Decodable(c.req) && VerbFor(c.req.operation) == Some(verb) && BuildEnvelope(cluster, c.req, verb).Ok?
    requires var (env, payload) := BuildEnvelope(cluster, c.req, verb).value; Emitted(e, env, Some(payload), c.amb)
    ensures RecordOf(e, cluster, c)
  {
    hide IdOf, Apply, VerbFor, ActorTypeFor, CRDWriteV1;
    SnapshotsShow(c.req.oldRaw, c.req.kind);
    SnapshotsShow(c.req.raw, c.req.kind);
    VerbsMean(c.req.operation);
    SystemUsers(c.req.username);
    BuiltEnvelope(cluster, c, verb);
    TaggedWrite(e.payload.value, c.req.subResource != "", c.req.dryRun == Some(true));
  }

  /** One request: when it is allowed, and what the log gains. */
  lemma HandleStep(cluster: string, log: seq<Envelope>, c: Call)
    ensures var (resp, log') := HandleResult(cluster, log, c.req, c.amb);
            && (resp.Allowed? <==> !StateChanging(c.req) || (Decodable(c.req) && c.amb.sinkUp))
            && (resp.Errored? <==> StateChanging(c.req) && !Decodable(c.req))
            && Gains(cluster, c, resp, log, log')
  {
    hide IdOf, Emitted, EmitResult, BuildEnvelope, VerbFor, RecordOf, CRDWriteV1;
    VerbsMean(c.req.operation);
    var verb := VerbFor(c.req.operation);
    if verb.Some? {
      if Decodable(c.req) {
        BuiltEnvelope(cluster, c, verb.value);
        PlainWrite(c.req.subResource != "", c.req.dryRun == Some(true));
        var (env, payload) := BuildEnvelope(cluster, c.req, verb.value).value;
        EmitMeans(log, env, Some(payload), c.amb);
        assert Registered(env.verb, Some(payload));
        assert HandleResult(cluster, log, c.req, c.amb).1 == EmitResult(log, env, Some(payload), c.amb).1;
        if c.amb.sinkUp {
          EmittedIsRecord(EmitResult(log, env, Some(payload), c.amb).1[|log|], cluster, c, verb.value);
        }
      } else {
        UndecodableErrs(cluster, c.req, verb.value);
      }
    }
  }

  /** Why a request is refused: the old object is decoded first, and only the sink can deny. */
  lemma UndecodableErrs(cluster: string, req: Request, verb: string)
    requires !Decodable(req)
    ensures BuildEnvelope(cluster, req, verb)
         == Err(if req.oldRaw.Malformed? then "decode oldObject: " + req.oldRaw.msg
                else "decode object: " + req.raw.msg)
  {
    hide Apply;
  }

  lemma RefusalReasons(cluster: string, log: seq<Envelope>, c: Call)
    requires !HandleResult(cluster, log, c.req, c.amb).0.Allowed?
    ensures HandleResult(cluster, log, c.req, c.amb).0
         == if c.req.oldRaw.Malformed? then Errored("decode oldObject: " + c.req.oldRaw.msg)
            else if c.req.raw.Malformed? then Errored("decode object: " + c.req.raw.msg)
            else Denied(SinkFailed)
  {
    hide IdOf, Emitted, EmitResult, BuildEnvelope, VerbFor, RecordOf, CRDWriteV1;
    VerbsMean(c.req.operation);
    var verb := VerbFor(c.req.operation);
    if Decodable(c.req) {
      BuiltEnvelope(cluster, c, verb.value);
      PlainWrite(c.req.subResource != "", c.req.dryRun == Some(true));
      var (env, payload) := BuildEnvelope(cluster, c.req, verb.value).value;
      EmitMeans(log, env, Some(payload), c.amb);
      assert Registered(env.verb, Some(payload));
      assert HandleResult(cluster, log, c.req, c.amb).1 == EmitResult(log, env, Some(payload), c.amb).1;
    } else {
      UndecodableErrs(cluster, c.req, verb.value);
    }
  }

  lemma GainsThenRest(cluster: string, c: Call, cs: seq<Call>, resp: Response, resps: seq<Response>,
                      log: seq<Envelope>, mid: seq<Envelope>, rest: seq<Envelope>)
    returns (records: seq<Envelope>)
    requires |cs| == |resps| && Gains(cluster, c, resp, log, mid)
    requires Corresponds(rest, cluster, Admitted(cs, resps))
    ensures mid + rest == log + records && Corresponds(records, cluster, Admitted([c] + cs, [resp] + resps))
  {
    AdmittedCons(c, cs, resp, resps);
    if StateChanging(c.req) && resp.Allowed? {
      var r := mid[|log|];
      CorrespondsCons(r, rest, cluster, c, Admitted(cs, resps));
      Reassociate(log, r, rest);
      records := [r] + rest;
    } else {
      records := rest;
    }
  }

  lemma Reassociate<T>(s: seq<T>, x: T, t: seq<T>)
    ensures (s + [x]) + t == s + ([x] + t)
  {}

  lemma AdmittedCons(c: Call, cs: seq<Call>, resp: Response, resps: seq<Response>)
    requires |cs| == |resps|
    ensures Admitted([c] + cs, [resp] + resps)
         == if StateChanging(c.req) && resp.Allowed? then [c] + Admitted(cs, resps) else Admitted(cs, resps)
  {
    assert ([c] + cs)[1..] == cs && ([resp] + resps)[1..] == resps;
    assert [] + Admitted(cs, resps) == Admitted(cs, resps);
  }

  lemma {:induction false} RunRecords(cluster: string, log: seq<Envelope>, calls: seq<Call>)
    returns (records: seq<Envelope>)
    ensures var (resps, log') := Run(cluster, log, calls);
            log' == log + records && Corresponds(records, cluster, Admitted(calls, resps))
    decreases |calls|
  {
    if calls == [] {
      records := [];
    } else {
      HandleStep(cluster, log, calls[0]);
      var (resp, mid) := HandleResult(cluster, log, calls[0].req, calls[0].amb);
      var rest := RunRecords(cluster, mid, calls[1..]);
      var resps := Run(cluster, mid, calls[1..]).0;
      records := GainsThenRest(cluster, calls[0], calls[1..], resp, resps, log, mid, rest);
      assert [calls[0]] + calls[1..] == calls;
    }
  }

  /**
   * Write-then-act over every run, with a sink that may refuse at any time: the
   * log grows by exactly one record for each admitted state-changing request, in
   * request order; every other request leaves it alone.
   */
  lemma WriteThenAct(cluster: string, log: seq<Envelope>, calls: seq<Call>)
    ensures var (resps, log') := Run(cluster, log, calls);
            log <= log' && Corresponds(log'[|log|..], cluster, Admitted(calls, resps))
  {
    var records := RunRecords(cluster, log, calls);
    var log' := Run(cluster, log, calls).1;
    assert log'[|log|..] == records;
  }

  /** Which requests of a run are refused, and that nothing else is. */
  lemma {:induction false} RefusedExactly(cluster: string, log: seq<Envelope>, calls: seq<Call>, i: nat)
    requires i < |calls|
    ensures Run(cluster, log, calls).0[i].Allowed?
       <==> !StateChanging(calls[i].req) || (Decodable(calls[i].req) && calls[i].amb.sinkUp)
    decreases i
  {
    HandleStep(cluster, log, calls[0]);
    if i > 0 {
      var (_, mid) := HandleResult(cluster, log, calls[0].req, calls[0].amb);
      RefusedExactly(cluster, mid, calls[1..], i - 1);
    }
  }

  // ----- What every record satisfies ------------------------------------

  predicate WellFormed(e: Envelope) {
    && e.schemaVersion == "audit/v1"
    && Valid(e.eventId)
    && e.occurredAt.Some?
    && e.verb in {"create", "edit", "delete"}
    && e.payload.Some? && "@type" in e.payload.value && e.payload.value["@type"] == Str("crd.write.v1")
    && Apply(e.subject.kind, e.before) == e.before
    && Apply(e.subject.kind, e.after) == e.after
  }

  lemma SnapshotsAreFixedPoints(snapshot: Json, raw: RawDoc, kind: string)
    requires Shows(snapshot, raw, kind)
    ensures Apply(kind, snapshot) == snapshot
  {
    if raw.Document? {
      RedactionLaws.RedactIdempotent(kind, "", Obj(raw.fields));
    }
  }

  lemma RecordsAreWellFormed(e: Envelope, cluster: string, c: Call)
    requires StateChanging(c.req) && RecordOf(e, cluster, c)
    ensures WellFormed(e)
  {
    hide Apply;
    SnapshotsAreFixedPoints(e.before, c.req.oldRaw, c.req.kind);
    SnapshotsAreFixedPoints(e.after, c.req.raw, c.req.kind);
  }

  lemma StepWellFormed(cluster: string, log: seq<Envelope>, c: Call)
    ensures var log' := HandleResult(cluster, log, c.req, c.amb).1;
            log' == log || (|log'| == |log| + 1 && log' == log + [log'[|log|]] && WellFormed(log'[|log|]))
  {
    hide HandleResult, RecordOf, WellFormed;
    HandleStep(cluster, log, c);
    var (resp, log') := HandleResult(cluster, log, c.req, c.amb);
    if StateChanging(c.req) && resp.Allowed? {
      RecordsAreWellFormed(log'[|log|], cluster, c);
    }
  }

  /** In every reachable state every recorded envelope is well formed and already redacted. */
  lemma {:induction false} LogWellFormed(cluster: string, log: seq<Envelope>, calls: seq<Call>)
    requires forall e <- log :: WellFormed(e)
    ensures forall e <- Run(cluster, log, calls).1 :: WellFormed(e)
    decreases |calls|
  {
    if calls != [] {
      StepWellFormed(cluster, log, calls[0]);
      LogWellFormed(cluster, HandleResult(cluster, log, calls[0].req, calls[0].amb).1, calls[1..]);
    }
  }

  // ----- Secrets --------------------------------------------------------

  /** Every value under a map-valued data or stringData is the secret-bytes marker. */
  predicate Blanked(j: Json) {
    j.Obj? ==>
      forall f | f in j.fields && (f == "data" || f == "stringData") && j.fields[f].Obj? ::
        forall ck | ck in j.fields[f].fields :: j.fields[f].fields[ck] == Mark("secret-bytes")
  }

  predicate SecretsHidden(e: Envelope) { e.subject.kind == "Secret" ==> Blanked(e.before) && Blanked(e.after) }

  lemma SecretSnapshotIsBlanked(snapshot: Json, raw: RawDoc)
    requires Shows(snapshot, raw, "Secret")
    ensures Blanked(snapshot)
  {
    if raw.Document? {
      var fs := raw.fields;
      assert snapshot == Apply("Secret", Obj(fs)) && snapshot.fields.Keys == fs.Keys;
      forall f | f in snapshot.fields && (f == "data" || f == "stringData") && snapshot.fields[f].Obj?
        ensures forall ck | ck in snapshot.fields[f].fields :: snapshot.fields[f].fields[ck] == Mark("secret-bytes")
      {
        DefaultRules.TopLevelField("Secret", fs, f);
      }
    }
  }

  lemma RecordHidesSecrets(e: Envelope, cluster: string, c: Call)
    requires RecordOf(e, cluster, c)
    ensures SecretsHidden(e)
  {
    hide Blanked, Shows;
    if e.subject.kind == "Secret" {
      SecretSnapshotIsBlanked(e.before, c.req.oldRaw);
      SecretSnapshotIsBlanked(e.after, c.req.raw);
    }
  }

  lemma StepHidesSecrets(cluster: string, log: seq<Envelope>, c: Call)
    requires forall e <- log :: SecretsHidden(e)
    ensures forall e <- HandleResult(cluster, log, c.req, c.amb).1 :: SecretsHidden(e)
  {
    hide SecretsHidden, RecordOf, HandleResult;
    HandleStep(cluster, log, c);
    var log' := HandleResult(cluster, log, c.req, c.amb).1;
    if log' != log {
      RecordHidesSecrets(log'[|log|], cluster, c);
    }
  }

  /** In every reachable state no record shows a value of a Secret. */
  lemma {:induction false} NoSecretInTheLog(cluster: string, log: seq<Envelope>, calls: seq<Call>)
    requires forall e <- log :: SecretsHidden(e)
    ensures forall e <- Run(cluster, log, calls).1 :: SecretsHidden(e)
    decreases |calls|
  {
    if calls != [] {
      StepHidesSecrets(cluster, log, calls[0]);
      NoSecretInTheLog(cluster, HandleResult(cluster, log, calls[0].req, calls[0].amb).1, calls[1..]);
    }
  }

  /** A run can be cut anywhere: the log at the cut is a prefix of the final log. */
  lemma {:induction false} EventsArePrefixes(cluster: string, log: seq<Envelope>, calls: seq<Call>, n: nat)
    requires n <= |calls|
    ensures Run(cluster, log, calls[..n]).1 <= Run(cluster, log, calls).1
    decreases n
  {
    if n == 0 {
      WriteThenAct(cluster, log, calls);
    } else {
      assert calls[..n][1..] == calls[1..][..n - 1];
      EventsArePrefixes(cluster, HandleResult(cluster, log, calls[0].req, calls[0].amb).1, calls[1..], n - 1);
    }
  }

  // ----- Ids and timestamps follow the clock ----------------------------

  /** Emit calls, with whatever verb and payload. */
  datatype EmitCall = EmitCall(env: Envelope, p: Option<Payload>, amb: Ambient)

  function EmitRun(log: seq<Envelope>, calls: seq<EmitCall>): seq<Envelope>
    decreases |calls|
  {
    if calls == [] then log
    else EmitRun(EmitResult(log, calls[0].env, calls[0].p, calls[0].amb).1, calls[1..])
  }

  /** The wall clock over one call and then later calls: never backwards, and below 2^48 ms. */
  predicate Ticking(ambs: seq<Ambient>) {
    && (forall i | 0 <= i < |ambs| :: 0 <= ambs[i].idClock.ms <= ambs[i].stampClock.ms < POW_48)
    && (forall i, j | 0 <= i < j < |ambs| :: ambs[i].stampClock.ms <= ambs[j].idClock.ms)
  }

  /** ts(id), occurredAt, ts(id), occurredAt, ... never decreases along the log. */
  predicate Chronological(log: seq<Envelope>) {
    && (forall i | 0 <= i < |log| ::
          Valid(log[i].eventId) && log[i].occurredAt.Some? && Timestamp(log[i].eventId) <= log[i].occurredAt.value.ms)
    && (forall i, j | 0 <= i < j < |log| :: log[i].occurredAt.value.ms <= Timestamp(log[j].eventId))
  }

  /** Everything in the log happened no later than `now`. */
  predicate Before(log: seq<Envelope>, now: int) {
    forall i | 0 <= i < |log| :: log[i].occurredAt.Some? && log[i].occurredAt.value.ms <= now
  }

  lemma AppendChronological(log: seq<Envelope>, e: Envelope, amb: Ambient)
    requires Chronological(log) && Before(log, amb.idClock.ms)
    requires 0 <= amb.idClock.ms <= amb.stampClock.ms < POW_48
    requires Stamped(e, amb)
    ensures Chronological(log + [e]) && Before(log + [e], amb.stampClock.ms)
  {
    hide Timestamp, Entropy, Valid, Chronological, Before;
    assert amb.idClock.ms % 0x4_0000_0000_0000 == amb.idClock.ms;
    AppendEntry(log, e, amb.idClock.ms);
  }

  lemma AppendEntry(log: seq<Envelope>, e: Envelope, ms: int)
    requires Chronological(log) && Before(log, ms)
    requires Valid(e.eventId) && e.occurredAt.Some? && ms == Timestamp(e.eventId) <= e.occurredAt.value.ms
    ensures Chronological(log + [e]) && Before(log + [e], e.occurredAt.value.ms)
  {}

  lemma TickingTail(ambs: seq<Ambient>, i: nat)
    requires Ticking(ambs) && 0 < i < |ambs|
    ensures ambs[0].stampClock.ms <= ambs[i].idClock.ms
  {}

  function EmitAmbients(calls: seq<EmitCall>): seq<Ambient> {
    seq(|calls|, i requires 0 <= i < |calls| => calls[i].amb)
  }

  /** The record of a call that came without id and time. */
  predicate Stamped(e: Envelope, amb: Ambient) {
    IdOf(e.eventId, amb.idClock, amb.rand) && e.occurredAt == Some(amb.stampClock)
  }

  lemma EmitStamps(log: seq<Envelope>, c: EmitCall)
    requires c.env.eventId == "" && c.env.occurredAt.None?
    ensures var log' := EmitResult(log, c.env, c.p, c.amb).1;
            log' == log || (|log'| == |log| + 1 && log' == log + [log'[|log|]] && Stamped(log'[|log|], c.amb))
  {
    EmitMeans(log, c.env, c.p, c.amb);
  }

  /** Emit with id and time unset, over any run. */
  lemma {:induction false} EmitRunIsChronological(log: seq<Envelope>, calls: seq<EmitCall>)
    requires Ticking(EmitAmbients(calls))
    requires forall i | 0 <= i < |calls| :: calls[i].env.eventId == "" && calls[i].env.occurredAt.None?
    requires Chronological(log) && (calls != [] ==> Before(log, calls[0].amb.idClock.ms))
    ensures Chronological(EmitRun(log, calls))
    decreases |calls|
  {
    hide EmitResult, Chronological, Stamped;
    if calls != [] {
      var ambs := EmitAmbients(calls);
      var c, log' := calls[0], EmitResult(log, calls[0].env, calls[0].p, calls[0].amb).1;
      assert ambs[0] == c.amb;
      EmitStamps(log, c);
      if log' != log {
        AppendChronological(log, log'[|log|], c.amb);
      }
      assert EmitAmbients(calls[1..]) == ambs[1..];
      if |calls| > 1 {
        TickingTail(ambs, 1);
        assert ambs[1] == calls[1].amb;
      }
      EmitRunIsChronological(log', calls[1..]);
    }
  }

  function Ambients(calls: seq<Call>): seq<Ambient> {
    seq(|calls|, i requires 0 <= i < |calls| => calls[i].amb)
  }

  /** The same for the handler, whose envelopes never come with id or time. */
  lemma {:induction false} HandlerRunIsChronological(cluster: string, log: seq<Envelope>, calls: seq<Call>)
    requires Ticking(Ambients(calls))
    requires Chronological(log) && (calls != [] ==> Before(log, calls[0].amb.idClock.ms))
    ensures Chronological(Run(cluster, log, calls).1)
    decreases |calls|
  {
    if calls != [] {
      var ambs := Ambients(calls);
      var c, log' := calls[0], HandleResult(cluster, log, calls[0].req, calls[0].amb).1;
      assert ambs[0] == c.amb;
      HandleStep(cluster, log, c);
      if log' != log {
        AppendChronological(log, log'[|log|], c.amb);
      }
      assert Ambients(calls[1..]) == ambs[1..];
      if |calls| > 1 {
        TickingTail(ambs, 1);
        assert ambs[1] == calls[1].amb;
      }
      HandlerRunIsChronological(cluster, log', calls[1..]);
    }
  }

  /** Along a chronological log, ids minted in different milliseconds increase as strings. */
  lemma IdsFollowTime(log: seq<Envelope>, i: nat, j: nat)
    requires Chronological(log) && i < j < |log|
    requires Timestamp(log[i].eventId) != Timestamp(log[j].eventId)
    ensures Less(log[i].eventId, log[j].eventId)
  {
    var s, t := log[i].eventId, log[j].eventId;
    EncodeOfFields(s);
    EncodeOfFields(t);
    EarlierSortsFirst(Timestamp(s), Entropy(s), Timestamp(t), Entropy(t));
  }
}
