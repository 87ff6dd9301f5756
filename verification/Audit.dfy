// The audit emitter (internal/audit/emitter.go, envelope.go, payloads/) and the
// admission handler in front of it (internal/audit/webhook/handler.go).
module Audit {
  import opened GoStrings
  import opened Json
  import opened Redaction
  import opened RedactionWalk
  import opened Ulid
  import opened UlidLaws
  import opened Words

  datatype Result<+T, +E> = Ok(value: T) | Err(error: E)

  const SCHEMA_VERSION := "audit/v1"

  // ----- Event ids ------------------------------------------------------

  /** A clock reading: Unix milliseconds and the rest below a millisecond. */
  datatype Instant = Instant(ms: int, nanos: nat)

  /** What rand.Read did to its buffer. */
  datatype RandRead = Filled(bytes: Bytes10) | Failed(partial: Bytes10)

  const ZEROS: Bytes10 := [0, 0, 0, 0, 0, 0, 0, 0, 0, 0]

  function EntropyUsed(r: RandRead): Bytes10 {
    match r
    case Filled(b) => b
    case Failed(_) => ZEROS
  }

  /** The id minted at `now`: uint64(UnixMilli) and ten bytes, zeros when the source failed. */
  function Mint(now: Instant, r: RandRead): string {
    Encode(now.ms % POW_64, EntropyUsed(r))
  }

  /** What an id shows: the clock's milliseconds in 50 bits, and the bytes read, or zeros. */
  predicate IdOf(id: string, now: Instant, r: RandRead) {
    && Valid(id) && Timestamp(id) == now.ms % 0x4_0000_0000_0000
    && (r.Filled? ==> Entropy(id) == r.bytes)
    && (r.Failed? ==> Entropy(id) == [0, 0, 0, 0, 0, 0, 0, 0, 0, 0])
  }

  lemma MintShows(now: Instant, r: RandRead)
    ensures IdOf(Mint(now, r), now, r)
  {
    hide Encode;
    FieldsOfEncode(now.ms % POW_64, EntropyUsed(r));
    LowBits(now.ms);
  }

  lemma LowBits(n: int)
    ensures n % POW_64 % POW_50 == n % 0x4_0000_0000_0000
  {}

  /** Ids of different bytes differ, in one millisecond and in any two. */
  lemma DifferentBytesDifferentIds(now: Instant, b: Bytes10, now': Instant, b': Bytes10)
    requires b != b'
    ensures Mint(now, Filled(b)) != Mint(now', Filled(b'))
  {
    MintShows(now, Filled(b));
    MintShows(now', Filled(b'));
  }

  /** The package-level random buffer; each locked body is one step. */
  class EventIds {
    const randBuf: array<byte>

    ghost predicate Valid() { randBuf.Length == 10 }

    constructor ()
      ensures Valid() && fresh(randBuf)
    {
      randBuf := new byte[10](_ => 0);
    }

    method NewEventID(now: Instant, r: RandRead) returns (id: string)
      requires Valid()
      modifies randBuf
      ensures id == Mint(now, r) && IdOf(id, now, r)
      ensures r.Filled? ==> randBuf[..] == r.bytes
      ensures r.Failed? ==> randBuf[..] == [0, 0, 0, 0, 0, 0, 0, 0, 0, 0]
    {
      hide IdOf, Encode;
      MintShows(now, r);
      var ms := Word(now.ms % POW_64);
      Read(r);
      if r.Failed? {
        for i := 0 to randBuf.Length
          invariant forall j | 0 <= j < i :: randBuf[j] == 0
        {
          randBuf[i] := 0;
        }
        assert randBuf[..] == ZEROS;
      }
      id := EncodeULID(ms, randBuf[..]);
    }

    /** rand.Read: fills the buffer, or fails after writing some of it. */
    method Read(r: RandRead)
      requires Valid()
      modifies randBuf
      ensures randBuf[..] == if r.Filled? then r.bytes else r.partial
    {
      var b := if r.Filled? then r.bytes else r.partial;
      for i := 0 to 10
        invariant randBuf[..i] == b[..i]
      {
        randBuf[i] := b[i];
      }
    }
  }

  // ----- Envelopes and payloads -----------------------------------------

  datatype Subject = Subject(apiGroup: string, version: string, kind: string, namespace: string, name: string)

  datatype ActorType = Human | System

  datatype Actor = Actor(actorType: ActorType, subject: string, subjectId: string, groups: seq<string>)

  datatype Envelope = Envelope(
    schemaVersion: string,
    eventId: string,
    occurredAt: Option<Instant>,
    requestId: string,
    actor: Actor,
    verb: string,
    subject: Subject,
    clusterName: string,
    outcome: string,
    before: Json,
    after: Json,
    payload: Option<map<string, Json>>)

  /** What encoding/json makes of a payload struct and reads back. */
  datatype Encoded = Fields(fields: map<string, Json>) | NullDocument | MarshalError(msg: string)

  /** The Payload interface as Emit sees it: AuditType(), Validate(), and its encoding. */
  datatype Payload = Payload(auditType: string, invalid: Option<string>, encoded: Encoded)

  const CRD_WRITE_V1 := "crd.write.v1"

  /** payloads.CRDWriteV1: false flags are omitted, Patch is never set here. */
  function CRDWriteV1(subresourceWrite: bool, dryRun: bool): Payload {
    var sub := if subresourceWrite then map["subresourceWrite" := Bool(true)] else map[];
    var dry := if dryRun then map["dryRun" := Bool(true)] else map[];
    Payload(CRD_WRITE_V1, None, Fields(sub + dry))
  }

  /** payloads.Registry. */
  const REGISTRY: map<string, string> := map[
    "create" := CRD_WRITE_V1, "edit" := CRD_WRITE_V1, "delete" := CRD_WRITE_V1, "view" := ""]

  function AllowedPayloadType(verb: string): Option<string> {
    if verb in REGISTRY then Some(REGISTRY[verb]) else None
  }

  datatype EmitError =
    | UnregisteredVerb(verb: string)
    | TakesNoPayload(verb: string)
    | RequiresPayload(verb: string, want: string)
    | WrongPayload(verb: string, want: string, got: string)
    | InvalidPayload(msg: string)
    | SinkFailed

  function ValidatePayloadForVerb(verb: string, p: Option<Payload>): Option<EmitError> {
    match AllowedPayloadType(verb)
    case None => Some(UnregisteredVerb(verb))
    case Some(want) =>
      if want == "" then
        if p.Some? then Some(TakesNoPayload(verb)) else None
      else if p.None? then Some(RequiresPayload(verb, want))
      else if p.value.auditType != want then Some(WrongPayload(verb, want, p.value.auditType))
      else None
  }

  /** withType: the encoded fields with "@type" set last, so it always wins. */
  function WithType(p: Payload): map<string, Json> {
    match p.encoded
    case MarshalError(msg) => map["@type" := Str(p.auditType), "@marshalError" := Str(msg)]
    case NullDocument => map["@type" := Str(p.auditType)]
    case Fields(fs) => fs["@type" := Str(p.auditType)]
  }

  // ----- Emit -----------------------------------------------------------

  /** What one call reads from outside: two clock readings, randomness, and whether the sink works. */
  datatype Ambient = Ambient(idClock: Instant, rand: RandRead, stampClock: Instant, sinkUp: bool)

  /** The envelope Emit hands to the sink, or why it refuses. */
  function Completed(env: Envelope, p: Option<Payload>, amb: Ambient): Result<Envelope, EmitError> {
    var filled := env.(
      schemaVersion := if env.schemaVersion == "" then SCHEMA_VERSION else env.schemaVersion,
      eventId := if env.eventId == "" then Mint(amb.idClock, amb.rand) else env.eventId,
      occurredAt := if env.occurredAt.None? then Some(amb.stampClock) else env.occurredAt);
    match ValidatePayloadForVerb(env.verb, p)
    case Some(e) => Err(e)
    case None =>
      if p.None? then Ok(filled)
      else if p.value.invalid.Some? then Err(InvalidPayload(p.value.invalid.value))
      else Ok(filled.(payload := Some(WithType(p.value))))
  }

  /** Outcome and new log of one Emit. */
  function EmitResult(log: seq<Envelope>, env: Envelope, p: Option<Payload>, amb: Ambient)
    : (Result<string, EmitError>, seq<Envelope>)
  {
    match Completed(env, p, amb)
    case Err(e) => (Err(e), log)
    case Ok(full) => if amb.sinkUp then (Ok(full.eventId), log + [full]) else (Err(SinkFailed), log)
  }

  /**
   * An Emitter implementation with the envelopes it took, oldest first. It may
   * refuse a publish, and then records nothing; InMemoryEmitter never does.
   */
  class Sink {
    var events: seq<Envelope>

    constructor ()
      ensures events == []
    {
      events := [];
    }

    method Publish(env: Envelope, up: bool) returns (r: Result<string, EmitError>)
      modifies this
      ensures r == if up then Ok(env.eventId) else Err(SinkFailed)
      ensures events == if up then old(events) + [env] else old(events)
    {
      if !up {
        return Err(SinkFailed);
      }
      events := events + [env];
      return Ok(env.eventId);
    }

    /** Events: a copy, so later publishes do not show in it. */
    method Events() returns (out: seq<Envelope>)
      ensures out == events
    {
      out := events;
    }
  }

  /** audit.Emit. */
  method Emit(sink: Sink, ids: EventIds, env0: Envelope, p: Option<Payload>, amb: Ambient)
    returns (r: Result<string, EmitError>)
    requires ids.Valid()
    modifies sink, ids.randBuf
    ensures (r, sink.events) == EmitResult(old(sink.events), env0, p, amb)
  {
    hide IdOf, Mint, WithType, ValidatePayloadForVerb;
    var env := env0;
    if env.schemaVersion == "" {
      env := env.(schemaVersion := SCHEMA_VERSION);
    }
    if env.eventId == "" {
      var id := ids.NewEventID(amb.idClock, amb.rand);
      env := env.(eventId := id);
    }
    if env.occurredAt.None? {
      env := env.(occurredAt := Some(amb.stampClock));
    }
    var bad := ValidatePayloadForVerb(env.verb, p);
    if bad.Some? {
      return Err(bad.value);
    }
    if p.Some? {
      if p.value.invalid.Some? {
        return Err(InvalidPayload(p.value.invalid.value));
      }
      env := env.(payload := Some(WithType(p.value)));
    }
    r := sink.Publish(env, amb.sinkUp);
  }

  // ----- The admission handler ------------------------------------------

  /** The raw object bytes: nothing, not a JSON object, JSON null, or an object. */
  datatype RawDoc = Empty | Malformed(msg: string) | NullDoc | Document(fields: map<string, Json>)

  datatype Request = Request(
    uid: string,
    operation: string,
    group: string,
    version: string,
    kind: string,
    namespace: string,
    name: string,
    subResource: string,
    dryRun: Option<bool>,
    oldRaw: RawDoc,
    raw: RawDoc,
    username: string,
    userUID: string,
    groups: seq<string>)

  datatype Response = Allowed | Errored(msg: string) | Denied(reason: EmitError)

  function VerbFor(operation: string): Option<string> {
    if operation == "CREATE" then Some("create")
    else if operation == "UPDATE" then Some("edit")
    else if operation == "DELETE" then Some("delete")
    else None
  }

  /** redactedSnapshot. */
  function SnapshotOf(raw: RawDoc, kind: string): Result<Json, string> {
    match raw
    case Empty => Ok(Null)
    case Malformed(msg) => Err(msg)
    case NullDoc => Ok(Null)
    case Document(fs) => Ok(Apply(kind, Obj(fs)))
  }

  function ActorTypeFor(username: string): ActorType {
    if HasPrefix(username, "system:serviceaccount:") || HasPrefix(username, "system:") then System else Human
  }

  function BuildEnvelope(cluster: string, req: Request, verb: string): Result<(Envelope, Payload), string> {
    match SnapshotOf(req.oldRaw, req.kind)
    case Err(msg) => Err("decode oldObject: " + msg)
    case Ok(before) =>
      match SnapshotOf(req.raw, req.kind)
      case Err(msg) => Err("decode object: " + msg)
      case Ok(after) =>
        var env := Envelope("", "", None, req.uid,
                            Actor(ActorTypeFor(req.username), req.username, req.userUID, req.groups),
                            verb, Subject(req.group, req.version, req.kind, req.namespace, req.name),
                            cluster, "success", before, after, None);
        Ok((env, CRDWriteV1(req.subResource != "", req.dryRun == Some(true))))
  }

  /** Response and new log of one admission request. */
  function HandleResult(cluster: string, log: seq<Envelope>, req: Request, amb: Ambient): (Response, seq<Envelope>) {
    match VerbFor(req.operation)
    case None => (Allowed, log)
    case Some(verb) =>
      match BuildEnvelope(cluster, req, verb)
      case Err(msg) => (Errored(msg), log)
      case Ok((env, payload)) =>
        var (r, log') := EmitResult(log, env, Some(payload), amb);
        (if r.Ok? then Allowed else Denied(r.error), log')
  }

  class Handler {
    const clusterName: string
    const emitter: Sink
    const ids: EventIds

    constructor (emitter: Sink, ids: EventIds, clusterName: string)
      ensures this.emitter == emitter && this.ids == ids && this.clusterName == clusterName
    {
      this.emitter := emitter;
      this.ids := ids;
      this.clusterName := clusterName;
    }

    method Handle(req: Request, amb: Ambient) returns (resp: Response)
      requires ids.Valid()
      modifies emitter, ids.randBuf
      ensures (resp, emitter.events) == HandleResult(clusterName, old(emitter.events), req, amb)
    {
      var verb := VerbFor(req.operation);
      if verb.None? {
        return Allowed;
      }
      var built := Build(req, verb.value);
      if built.Err? {
        return Errored(built.error);
      }
      var (env, payload) := built.value;
      var r := Emit(emitter, ids, env, Some(payload), amb);
      resp := if r.Ok? then Allowed else Denied(r.error);
    }

    /** buildEnvelope: both snapshots are decoded into fresh maps and redacted in place. */
    method Build(req: Request, verb: string) returns (r: Result<(Envelope, Payload), string>)
      ensures r == BuildEnvelope(clusterName, req, verb)
    {
      var before := RedactedSnapshot(req.oldRaw, req.kind);
      if before.Err? {
        return Err("decode oldObject: " + before.error);
      }
      var after := RedactedSnapshot(req.raw, req.kind);
      if after.Err? {
        return Err("decode object: " + after.error);
      }
      var env := Envelope("", "", None, req.uid,
                          Actor(ActorTypeFor(req.username), req.username, req.userUID, req.groups),
                          verb, Subject(req.group, req.version, req.kind, req.namespace, req.name),
                          clusterName, "success", before.value, after.value, None);
      r := Ok((env, CRDWriteV1(req.subResource != "", req.dryRun == Some(true))));
    }
  }

  /** redactedSnapshot over the heap: decode, overwrite in place, and take the resulting value. */
  method RedactedSnapshot(raw: RawDoc, kind: string) returns (r: Result<Json, string>)
    ensures r == SnapshotOf(raw, kind)
  {
    match raw
    case Empty => r := Ok(Null);
    case Malformed(msg) => r := Err(msg);
    case NullDoc => r := Ok(Null);
    case Document(fs) =>
      var root;
      ghost var t, after;
      root, t := Unmarshal(Obj(fs));
      root, after := ApplyInPlace(kind, root, t);
      var value := Marshal(root, after);
      r := Ok(value);
  }
}
