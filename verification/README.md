# Keleustes: audit trail, read model and CLI, verified

This project models the hand-written logic of Keleustes in Dafny and proves what
that logic keeps. `dafny verify dfyconfig.toml` checks everything.

- **Redaction** (`Redaction`, `RedactionLaws`, `DefaultRules`, `RedactionWalk`, with
  `Json` and `GoStrings`). The walk overwrites entries of Go maps on a heap, in any map
  iteration order, and is proved against a pure function on JSON trees. About that function:
  which nodes become markers, that a second pass changes nothing (also after the markers
  went over the wire), what two objects must share to be redacted alike, and which paths the rule
  list reaches.
- **Event ids** (`Arithmetic`, `Words`, `Base32`, `Ulid`, `UlidLaws`). The slot-by-slot ULID encoder
  over 64-bit words against base-32 notation; order, uniqueness and the accepted strings.
- **Audit pipeline** (`Audit`, `AuditRuns`). The emitter and the admission handler as a state
  machine; write-then-act, the shape of every record, and chronology over whole runs, with a
  sink and a random source that may fail at any step.
- **Read model and table** (`ReadModel`, `ReadModelLaws`, `Sorting`, `Topology`, `TopologyLaws`,
  `ListingLaws`, `Matrix`, `MatrixTable`, `TableLaws`, `AuditQuery`, `Inbox`). Grouping, sorting, de-duplication, conservation of
  targets, alignment of the rendered matrix, audit pages, promotion inboxes.
- **Column paths** (`JsonPath`, `JsonPathLaws`, `JsonPathColumns`). The scanner-evaluator of the CLI
  against a path syntax tree, with parse/print round trips, and what each form shows of an object.
- **Response recorder** (`StatusRecorder`). The status the access log shows against the status
  the client gets.

Code that updates things in loops, maps, buffers or fields is modelled by methods and classes
with the same loops, each proved against a function or predicate on values; the lemmas are about
those. Clock readings, random bytes, a failing random source, a failing sink and the result of
decoding bytes are parameters.

## Where code and documentation disagree

The model follows the code. Each point has a lemma.

- The rules `data.tls\.crt` and `data.tls\.key` (`internal/audit/redaction/redact.go:59-60`) are
  meant for the keys `tls.crt` and `tls.key`. The matcher splits on "." before it unescapes `\.`,
  so they only match a key path spelled with a backslash; `tls.crt` is redacted exactly in Secrets,
  by another rule (`TlsMaterialPaths`, `TlsFilesAreRedactedOnlyInSecrets`,
  `ConfigMapCertificateSurvives`).
- The encoder's comment speaks of 48 timestamp bits; ten characters hold 50, and the code masks
  nothing else off. The first character exceeds '7' exactly when bit 48 or 49 is set
  (`FirstCharacter`, `FortyNineBits`).
- Matrix columns are de-duplicated by `env + "\x00" + region`. That loses no pair if and only if the
  input's keys tell its pairs apart, for which NUL-free environment names suffice
  (`ColumnsAreThePairs`, `NulFreeKeysSeparate`, `NulColumnLost`).
- Environments are namespaced, targets name them by bare name. The listing holds every target of
  a listed environment once if and only if no target names an environment that is listed twice
  (`ListingConserves`, `TargetListedTwice`).
- A page for limit k is a prefix of the page for k + 1 unless k is 0, which means "no limit"
  (`LimitsNest`, `ZeroIsUnlimited`).
- The recorder claims not to alter the writer. It drops the final header after an informational one,
  and the 500 of the panic recovery after a header with a code net/http refuses
  (`RecordedStatusIsTheClients`, `EarlyHintWins`, `InvalidCodeIsLogged`).
- The fixture backend and the CRD backend read the inbox states differently for blocked, rolled back
  and canceled promotions, and agree exactly on lists without them (`BackendsAgreeExactly`,
  `RolledBackIsFiledTwice`).
- Only dot-free keys with a non-empty first key survive the string form of a path (`FoldThenSplit`,
  `KeysLostInPaths`), and the container shortcut covers dotted child keys that rule-by-rule matching
  would miss (`ShortcutAgreesWithRules`, `DottedSecretKey`).

## Model

| member | source | states |
|---|---|---|
| RedactionWalk.ApplyInPlace | internal/audit/redaction/redact.go:72-75 | the caller keeps the same root; the heap below it, read back, is the specified redaction of what it was |
| RedactionWalk.Walk | internal/audit/redaction/redact.go:77-106 | for every tree that shares no map, kind and path: the result is the specification's, and no map outside the tree's own is written or introduced |
| RedactionWalk.WalkMap | internal/audit/redaction/redact.go:79-97 | the same for a map whose keys are visited in an arbitrary order, so the order cannot show |
| RedactionWalk.WalkSlice | internal/audit/redaction/redact.go:98-101 | the same for the elements of a slice, which are never replaced themselves |
| RedactionWalk.WalkEntry | internal/audit/redaction/redact.go:80-96 | one turn of the loop: own rule, then container, then descent; other entries of the map keep their values |
| RedactionWalk.Blanket | internal/audit/redaction/redact.go:91-93 | every entry of a container map is overwritten, keys unchanged |
| RedactionWalk.Unmarshal | internal/audit/webhook/handler.go:162-165 | decoding builds a fresh tree without sharing that stands for the decoded value: what the walk needs of its callers |
| RedactionLaws.RedactPointwise | internal/audit/redaction/redact.go:77-129 | for every location: it is gone iff something above it was hit, a marker of class c iff it is the first hit and the hit's class is c, otherwise same constructor, scalar, key set and length |
| RedactionLaws.UntouchedNodesKeepTheirShape | internal/audit/redaction/redact.go:77-106 | a node no prefix of which is hit stays, with its scalar, keys and length |
| RedactionLaws.FirstHitBecomesMarker | internal/audit/redaction/redact.go:77-106 | the first hit along a location becomes the marker of the class that path strings alone determine |
| RedactionLaws.NoNewNodes | internal/audit/redaction/redact.go:77-106 | a pass never creates a location |
| RedactionLaws.RedactionRevealsExactly | internal/audit/redaction/redact.go:65-106 | noninterference, both ways: two decoded objects of a kind have the same redaction iff they agree at every location outside the hits |
| RedactionLaws.RedactionHides | internal/audit/redaction/redact.go:77-106 | any two values that differ only inside what a pass hits are redacted to the same value |
| RedactionLaws.RedactIdempotent | internal/audit/redaction/redact.go:65-75 | two passes are one pass, for every value, kind and path |
| RedactionLaws.RedactAfterWire | internal/audit/redaction/redact.go:13-18 | redact, write markers as `{"@redacted": class}`, read back, redact: every marker is restored and nothing else changed |
| RedactionLaws.WireFormStable | internal/audit/redaction/redact.go:13-18 | the stored form of a redacted object is a fixed point of re-redaction |
| RedactionLaws.FoldThenSplit | internal/audit/redaction/redact.go:108-113 | joining keys and splitting returns them iff all are dot-free and the first is non-empty (or it is a lone empty key) |
| RedactionLaws.KeysLostInPaths | internal/audit/redaction/redact.go:108-113 | the concrete inputs: a dotted key and an empty first key give the path of another key list |
| RedactionLaws.UnescapeIsIdentityOnSegments | internal/audit/redaction/redact.go:143-146 | the `\.` unescape changes no segment of any pattern |
| RedactionLaws.PathMatchesIsSegmentWise | internal/audit/redaction/redact.go:136-155 | matching is segment by segment with "*" for exactly one segment |
| RedactionLaws.PathMatchesOnKeys | internal/audit/redaction/redact.go:108-155 | on key lists that survive the string form, the string matcher is the list matcher |
| RedactionLaws.LiteralPatternMatchesItself | internal/audit/redaction/redact.go:136-155 | a pattern without a "*" segment matches exactly one path, itself |
| DefaultRules.MatchRuleBySegments | internal/audit/redaction/redact.go:50-129 | first match over the eight rules equals a closed decision on kind and segments, with the class texts of the markers, for every kind and path |
| DefaultRules.ContainersOfDefaultRules | internal/audit/redaction/redact.go:86-96 | the containers are exactly `data` and `stringData` of a Secret |
| DefaultRules.ShortcutAgreesWithRules | internal/audit/redaction/redact.go:86-96 | a container child gets the container's class from its own path iff its key has no dot |
| DefaultRules.DottedSecretKey | internal/audit/redaction/redact.go:86-96 | the concrete key: `tls.crt` in a Secret's data is matched by no rule on its own path and is redacted all the same |
| DefaultRules.SecretValuesAreBlanketed | internal/audit/redaction/redact.go:51-54 | after Apply on a Secret every value under a map-valued data or stringData is marked "secret-bytes", dotted keys included |
| DefaultRules.TokensAreBearerTokens | internal/audit/redaction/redact.go:61-62 | whatever stands at token or bearerToken one level down is marked "bearer-token", for every kind and every dot-free field but the empty one, outside a Secret's data and stringData |
| DefaultRules.WebhookSecrets | internal/audit/redaction/redact.go:57-58 | whatever stands at spec.webhook.secret or spec.webhook.secretRef is marked "webhook-secret", for every kind |
| DefaultRules.BackslashKeysAreTlsMaterial | internal/audit/redaction/redact.go:59-60 | the two keys the TLS rules reach are marked "tls-material" |
| DefaultRules.ClassesAreDistinct | internal/audit/redaction/redact.go:21-27 | no two classes look alike |
| DefaultRules.ListElementFields | internal/audit/redaction/redact.go:98-115 | of the dot-free keys of a top-level list's objects exactly the two token keys are hit |
| DefaultRules.SecretOnTheWire | internal/audit/redaction/redact.go:13-18 | a Secret's value is stored as the object with the one key "@redacted" and the value "secret-bytes" |
| DefaultRules.TopLevelField | internal/audit/redaction/redact.go:72-106 | what Apply leaves under any dot-free top-level field |
| DefaultRules.TlsMaterialPaths | internal/audit/redaction/redact.go:59-60 | the tls-material class is reached by exactly two paths, both with a backslash |
| DefaultRules.TlsFilesAreRedactedOnlyInSecrets | internal/audit/redaction/redact.go:59-60 | whatever stands at `tls.crt` or `tls.key` under data is redacted iff the kind is Secret, and then as secret-bytes; otherwise it is walked like any unmatched value, and a scalar stays |
| DefaultRules.ConfigMapCertificateSurvives | internal/audit/redaction/redact.go:143-146 | the concrete input: a ConfigMap certificate comes out unchanged |
| Ulid.EncodeULID | internal/audit/ulid.go:53-89 | the buffer filled slot by slot from shifted and masked 64-bit words is the 26-digit base-32 notation of (ms mod 2^50) * 2^80 + big-endian entropy |
| Ulid.Digit | internal/audit/ulid.go:57-86 | shifting a word, masking five bits and looking the result up gives the character of the word's base-32 numeral at that place |
| Ulid.HighDigit | internal/audit/ulid.go:71-73 | the same for the high word, whose last bit belongs to the next character |
| Ulid.FourRuns | internal/audit/ulid.go:53-86 | the numerals of the timestamp, the high word without its last bit, the straddling digit and the low word are together one numeral, of the packed number |
| Words.ShiftRightNum | internal/audit/ulid.go:57-86 | shifting a 64-bit word right by an amount the encoder uses halves its number that often |
| Words.MaskFive | internal/audit/ulid.go:57-86 | the mask 0x1F is the remainder by 32 of the word's number |
| Ulid.Straddle | internal/audit/ulid.go:74 | the masked last bit of one word, shifted, or-ed with the masked top bits of the other, is that bit above those four |
| UlidLaws.EncodeOrder | internal/audit/ulid.go:26-89 | string order is numeric order of the encoded numbers, and strings agree iff numbers do (ULID specification, "Sorting") |
| UlidLaws.EarlierSortsFirst | internal/audit/ulid.go:53-89 | a smaller timestamp sorts first whatever the entropy |
| UlidLaws.FirstByteDecides | internal/audit/ulid.go:68-86 | among ids of one millisecond the first differing byte decides the string order |
| UlidLaws.ValidULID | internal/audit/ulid.go:92-109 | no error iff 26 alphabet characters; otherwise the wrong length or the first foreign character with its index |
| UlidLaws.AcceptedCharacters | internal/audit/ulid.go:26 | the accepted characters are the digits and the capitals without I, L, O and U |
| UlidLaws.EncodeOfFields | internal/audit/ulid.go:53-109 | every accepted string is the encoding of its timestamp (below 2^50) and entropy |
| UlidLaws.FieldsOfEncode | internal/audit/ulid.go:53-109 | every encoding is accepted and its fields are the inputs, timestamp modulo 2^50 |
| UlidLaws.EncodeInjective | internal/audit/ulid.go:53-89 | encodings agree iff entropies agree and timestamps agree modulo 2^50 |
| UlidLaws.FirstCharacter | internal/audit/ulid.go:56-66 | the first character is at most '7' iff the timestamp fits 48 bits (ULID specification, "Overflow Errors when Parsing Base32 Strings") |
| UlidLaws.FortyNineBits | internal/audit/ulid.go:56-66 | the concrete input: at 2^48 ms the first character exceeds '7' |
| Audit.EventIds.NewEventID | internal/audit/ulid.go:39-49 | the id is accepted, shows the clock's milliseconds in 50 bits, and the ten bytes that were read, or ten zeros after a failed read whatever it left in the buffer |
| Audit.MintShows | internal/audit/ulid.go:39-49 | the fields of a minted id are the clock's milliseconds modulo 2^50 and the bytes read, or zeros |
| Audit.DifferentBytesDifferentIds | internal/audit/ulid.go:43-48 | different bytes read give different ids, in one millisecond and in any two |
| Audit.Sink.Publish | internal/audit/emitter.go:150-155 | a working sink appends exactly the envelope and returns its id; a failing one records nothing |
| Audit.Sink.Events | internal/audit/emitter.go:160-166 | the snapshot is the log at that moment |
| Audit.Emit | internal/audit/emitter.go:39-59 | outcome and new log for every envelope, payload, clock, randomness and sink behaviour, errors included |
| AuditRuns.EmitMeans | internal/audit/emitter.go:39-108 | when a call is recorded, what the record holds (what the caller set stays, version, id, time and the typed payload are filled in), and which error any other call gets, in the texts of the registry |
| Audit.Handler.Handle | internal/audit/webhook/handler.go:45-67 | response and new log of one request in every case |
| Audit.Handler.Build | internal/audit/webhook/handler.go:88-125 | the envelope and payload, or the decode error of the old object before that of the new |
| Audit.RedactedSnapshot | internal/audit/webhook/handler.go:158-167 | decoding, in-place redaction and reading back give the redaction of the decoded value |
| AuditRuns.HandleStep | internal/audit/webhook/handler.go:45-67 | allowed iff no audit duty, or decodable and the sink works; the log gains the record of this very request or nothing |
| AuditRuns.WriteThenAct | internal/audit/webhook/handler.go:45-125 | over every run the new records and the admitted state-changing requests correspond one to one in order; each record has verb "create", "edit" or "delete" iff the operation is "CREATE", "UPDATE" or "DELETE", a system actor iff the user name starts with "system:", the flags of the payload key by key, the redaction of each object that is there and null for one that is not, and subject, request id, id and time of that request |
| AuditRuns.RefusedExactly | internal/audit/webhook/handler.go:45-67 | in every run, request i is allowed iff it has no audit duty or is decodable and the sink works then |
| AuditRuns.RefusalReasons | internal/audit/webhook/handler.go:51-64 | a refused request gets the decode error of the old object before that of the new one, and a denial only for the sink |
| AuditRuns.LogWellFormed | internal/audit/emitter.go:39-108 | in every reachable state each record has schema version "audit/v1", an accepted ULID, one of the three write verbs with the "@type" the registry has for it, and snapshots that are fixed points of redaction |
| AuditRuns.SnapshotsAreFixedPoints | internal/audit/webhook/handler.go:158-167 | a snapshot of a record is unchanged by another redaction for its kind |
| AuditRuns.NoSecretInTheLog | internal/audit/webhook/handler.go:158-167 | in every reachable state each record of a Secret has the secret-bytes marker for every value under a map-valued data or stringData, before and after |
| AuditRuns.EventsArePrefixes | internal/audit/emitter.go:150-166 | the log at any point of a run is a prefix of every later one |
| AuditRuns.EmitRunIsChronological | internal/audit/emitter.go:43-48 | with a clock that never goes back and stays below 2^48 ms, ts(id), occurredAt, ts(id), occurredAt, ... never decreases, for every sequence of Emit calls, failures and zero entropy included |
| AuditRuns.HandlerRunIsChronological | internal/audit/webhook/handler.go:45-67 | the same for every run of the admission handler |
| AuditRuns.IdsFollowTime | internal/audit/ulid.go:39-49 | ids minted in different milliseconds increase as strings along the log |
| Sorting.StableIsUnique | internal/api/readmodel/fixtures/fixtures.go:358-360 | sorted and tie-keeping determine the list, so a stable sort has one answer |
| Sorting.IncreasingUnique | internal/api/readmodel/crdsource/map.go:273-294 | strictly increasing lists with the same elements are equal, so an unstable sort before de-duplication cannot show |
| Topology.GroupByEnvironment | internal/api/readmodel/crdsource/crdsource.go:262-266 | the map holds for each environment in use exactly its targets, in list order |
| Topology.EnvCells | internal/api/readmodel/crdsource/map.go:313-342 | cells strictly sorted by name, one per cell name in use, each with its own targets in list order and the first region that is set |
| Topology.UniqueRegions | internal/api/readmodel/crdsource/map.go:356-369 | the non-empty regions, each once, strictly sorted |
| Topology.EnvironmentToAPI | internal/api/readmodel/crdsource/map.go:259-268 | regions and cells of exactly the given targets, absent when there are none |
| Topology.ListEnvironments | internal/api/readmodel/crdsource/crdsource.go:253-273 | one entry per environment in lifecycle order, holding exactly the targets that name it, in list order within their cell |
| ListingLaws.ListedInOrder | internal/api/readmodel/crdsource/map.go:345-354 | entries stand in ascending order number, and ascending name on equal numbers |
| ListingLaws.NamesAreDetermined | internal/api/readmodel/crdsource/map.go:345-354 | the bag of environments determines the list of names, whatever the order they came in and however ties are broken |
| ListingLaws.CellContents | internal/api/readmodel/crdsource/map.go:313-342 | a cell holds the records of exactly the targets that name its environment and the cell, in list order, and the first of their regions that is set |
| ListingLaws.CellExists | internal/api/readmodel/crdsource/crdsource.go:262-271 | every target of a listed environment has its cell there |
| ListingLaws.CellsAscend | internal/api/readmodel/crdsource/map.go:323-341 | the cells of an environment go up strictly by name |
| ListingLaws.RegionsMean | internal/api/readmodel/crdsource/map.go:356-369 | the regions of an entry are those of its environment's targets that are set, each once, ascending |
| ReadModelLaws.TargetMeans | internal/api/readmodel/crdsource/map.go:141-155 | the record of a target, field by field, with its status by the first Accepted condition |
| ReadModelLaws.StatusMeans | internal/api/readmodel/crdsource/map.go:69-82 | False is blocked, any other Accepted condition progressing, none missing |
| Topology.FlattenTargets | internal/api/readmodel/fixtures/fixtures.go:74-88 | all targets of all cells of all environments, in document order |
| ListingLaws.FlattenFollowsDocument | internal/api/readmodel/fixtures/fixtures.go:74-88 | what stands before an environment comes before its targets, what stands after comes after |
| TopologyLaws.CellsConserve | internal/api/readmodel/crdsource/map.go:259-342 | the cells of an environment hold its targets, each exactly once |
| TopologyLaws.GroupsPartition | internal/api/readmodel/crdsource/map.go:313-342 | groups under distinct names together are the targets so named, as a bag |
| TopologyLaws.ListingConserves | internal/api/readmodel/crdsource/crdsource.go:253-273 | flattening the listing is a permutation of the mapped targets of listed environments iff no target names an environment that is listed twice |
| TopologyLaws.TargetListedTwice | internal/api/readmodel/crdsource/crdsource.go:253-273 | the concrete input: two environments of one name and one target in them |
| TopologyLaws.DistinctNamesConserve | internal/api/readmodel/fixtures/fixtures.go:74-88 | in particular for distinct environment names |
| Matrix.MatrixColumns | internal/api/readmodel/crdsource/map.go:273-294 | columns strictly increasing by (env, region), exactly one for each key in use, the least pair that has it |
| Matrix.ColumnsAreCanonical | internal/api/readmodel/crdsource/map.go:273-294 | the columns depend only on the bag of targets: not on their order nor on how the sort breaks ties |
| Matrix.ColumnsAreThePairs | internal/api/readmodel/crdsource/map.go:281-292 | the columns are exactly the input's pairs iff different pairs have different keys |
| TableLaws.ColumnsAscend | internal/api/readmodel/crdsource/map.go:273-294 | columns go up by environment, and by region within one |
| TableLaws.ColumnsAreTheTargets | internal/api/readmodel/crdsource/map.go:273-294 | without NUL in names there is a column for each environment and region of a target and no other |
| Matrix.NulFreeKeysSeparate | internal/api/readmodel/crdsource/map.go:286 | environment names without NUL suffice |
| Matrix.NulColumnLost | internal/api/readmodel/crdsource/map.go:286 | an input with NUL in a name whose second pair gets no column |
| MatrixTable.MatrixRow | internal/api/readmodel/crdsource/map.go:298-309 | one cell per column, in column order, each with the application's status |
| MatrixTable.GetMatrix | internal/api/readmodel/crdsource/crdsource.go:80-114 | not found iff a name other than "all" is unknown; otherwise all, or the first with that name, over the columns of all targets |
| TableLaws.SelectedMeans | internal/api/readmodel/crdsource/crdsource.go:85-97 | all applications for "all", otherwise the first with the name, or none |
| MatrixTable.RenderMatrix | internal/cli/commands.go:347-385 | for an arbitrary matrix the per-row map index gives what a linear scan gives: the last cell with the pair, or "-" |
| TableLaws.TableMeans | internal/cli/commands.go:347-406 | for an arbitrary matrix and filter: the columns of the filter's environment in order, under each the header of its environment and region and, row by row, the status of the last cell in that place, starred for drift, or "-" |
| MatrixTable.RenderedMatrixIsAligned | internal/cli/commands.go:347-406 | a matrix from GetMatrix renders rectangular, every entry is its own application's status, and the filler never shows |
| TableLaws.EntriesAreOwnStatus | internal/cli/commands.go:347-406 | in a matrix from GetMatrix each entry reads Blocked, Progressing or Missing by the application's own first Accepted condition |
| MatrixTable.FilterIsProjection | internal/cli/commands.go:347-385 | filtering columns before rendering is dropping them after rendering, for every matrix and filter |
| AuditQuery.QueryAudit | internal/api/readmodel/fixtures/fixtures.go:351-365 | the page is cut from the matches in stable newest-first order |
| AuditQuery.AnswerIsUnique | internal/api/readmodel/fixtures/fixtures.go:358-360 | stability leaves one full order, the same for every limit |
| AuditQuery.MatchingIsFilter | internal/api/readmodel/fixtures/fixtures.go:352-357 | an event matches with its multiplicity or not at all |
| AuditQuery.PageHoldsTheNewest | internal/api/readmodel/fixtures/fixtures.go:351-365 | the page is sorted, drawn from the matching events, as long as limit and matches allow, and no matching event it leaves out is newer than one it has |
| AuditQuery.PageMeans | internal/api/readmodel/fixtures/fixtures.go:351-384 | the page holds events of the corpus with the asked actor, verb, resource text and time span, newest first; one left out was pushed out by a full page of events no older |
| AuditQuery.PageIsUnique | internal/api/readmodel/fixtures/fixtures.go:351-365 | a corpus and a query determine the page |
| AuditQuery.LimitsNest | internal/api/readmodel/fixtures/fixtures.go:361-363 | the page for a limit is a prefix of the page for the next limit iff the limit is not zero or at most one event matches |
| AuditQuery.ZeroIsUnlimited | internal/api/readmodel/fixtures/fixtures.go:361-363 | the concrete input: two matches, limits 0 and 1 |
| Inbox.ListPromotions | internal/api/readmodel/crdsource/crdsource.go:155-168 | the promotions at the matching positions, mapped, in list order |
| Inbox.PositionsAreTheMatches | internal/api/readmodel/crdsource/map.go:196-209 | an inbox is an order-preserving sublist: increasing positions, exactly the matching ones |
| Inbox.InboxMeans | internal/api/readmodel/crdsource/crdsource.go:155-168 | the inbox of a state holds the records of exactly the promotions in its phases, in list order, each record field by field |
| Inbox.PromotionMeans | internal/api/readmodel/crdsource/map.go:159-192 | the record of a promotion: every status stands for its phases and no others, the other fields are copied |
| Inbox.InboxesPartition | internal/api/readmodel/crdsource/map.go:196-221 | every promotion of every list is in exactly one of active, blocked and history, and the sizes add up |
| Inbox.ListApplicationPromotions | internal/api/readmodel/crdsource/crdsource.go:138-151 | the promotions of one application, mapped, in list order |
| Inbox.RunBlockers | internal/cli/commands.go:239-249 | the blocked promotions to the given environment, in order |
| Inbox.BlockersAreServerBlocked | internal/cli/commands.go:234-249 | filtering an application's mapped promotions by status is mapping those that the server's "blocked" state filter keeps |
| Inbox.BackendsAgreeExactly | internal/api/readmodel/fixtures/fixtures.go:214-229 | for every promotion list and state both backends answer the same inbox iff the list has no blocked, rolled back or canceled promotion (active), or no rolled back or canceled one (history) |
| Inbox.RolledBackIsFiledTwice | internal/api/readmodel/fixtures/fixtures.go:214-229 | the concrete input: a rolled back promotion is history for one backend and active for the other |
| Inbox.ListFixturePromotions | internal/api/readmodel/fixtures/fixtures.go:193-201 | the fixture backend's inbox, in list order |
| Inbox.FixtureStatesMean | internal/api/readmodel/fixtures/fixtures.go:214-229 | the fixture backend reads blocked, history and active off the status |
| JsonPath.ExtractColumn | internal/cli/output.go:146-175 | scanning fused with evaluation equals parsing to a path tree and evaluating it, for all strings and objects |
| JsonPathColumns.PlainColumn | internal/cli/output.go:169-174 | a plain path shows the value at the end of its keys as it is written out, and nothing when the way down gets stuck |
| JsonPathColumns.ReachesOrStuck | internal/cli/output.go:169-174 | the way down a key list ends at a value or gets stuck, for every object |
| JsonPathColumns.FilterColumn | internal/cli/output.go:152-195 | a filter shows the value under the field's own key in the first map of the type, and nothing when that key or such a map is missing |
| JsonPathColumns.BareFilterColumn | internal/cli/output.go:152-195 | without a field, the first map of the type itself |
| JsonPathColumns.FlattenColumn | internal/cli/output.go:163-215 | a flattening shows the values of exactly the elements that have the sub path, in list order, joined with commas |
| JsonPathColumns.BareFlattenColumn | internal/cli/output.go:163-215 | without a sub path, every element, in list order, joined with commas |
| JsonPathColumns.NoListNoColumn | internal/cli/output.go:177-201 | filters and flattenings show nothing when there is no list at their keys |
| JsonPathColumns.LeadingDotIsOptional | internal/cli/output.go:147 | the first dot of a path changes nothing |
| JsonPathColumns.UnclosedFilterColumn | internal/cli/output.go:152-158 | a filter that is never closed shows "<unsupported>" |
| JsonPath.ConditionField | internal/cli/output.go:177-195 | the field of the first condition with the type |
| JsonPath.FirstCondition | internal/cli/output.go:182-193 | the condition found is the first map whose type matches; none is found only when there is none |
| JsonPath.ArrayJoin | internal/cli/output.go:197-215 | the comma-joined texts of the elements that have the sub path |
| JsonPath.Nested | internal/cli/output.go:218-232 | the value below the keys, or absent at the first missing key or non-map |
| JsonPathLaws.RoundTrip | internal/cli/output.go:146-174 | printing and parsing returns every path with keys free of dots and brackets and a type that does not contain the closing marker |
| JsonPathLaws.ColumnOfPrintedPath | internal/cli/output.go:146-174 | the column of a printed path is the tree's meaning, and such a path is never unsupported |
| JsonPathLaws.ParsePrintParse | internal/cli/output.go:146-174 | for every string, printing what was parsed and parsing again changes nothing |
| JsonPathLaws.UnsupportedExactly | internal/cli/output.go:152-158 | a string is unsupported iff its first filter marker is followed by no closing marker |
| StatusRecorder.Recorder.WriteHeader | internal/api/server/middleware.go:106-113 | the first header is recorded and forwarded, panicking on an invalid code after it was recorded; later ones do nothing |
| StatusRecorder.Serve | internal/api/server/middleware.go:59-96 | a whole request through both middlewares: the handler's calls up to its end or a panic, the recovery, the status that is logged and the calls that reach the client |
| StatusRecorder.Recorder.Write | internal/api/server/middleware.go:115-118 | a body marks the header as written and is forwarded |
| StatusRecorder.ForwardedCalls | internal/api/server/middleware.go:100-118 | over every request: a header reaches the client only as the very first call and with a valid code, every body does, in order, and a recovery only with its body |
| StatusRecorder.FinalHeaderCounts | internal/api/server/middleware.go:106-113 | any first header from 200 to 999 is logged, forwarded, and is what the client gets |
| StatusRecorder.EarlyHeaderCounts | internal/api/server/middleware.go:106-113 | any first header from 100 to 199 is logged and forwarded |
| StatusRecorder.InvalidHeaderIsLost | internal/api/server/middleware.go:78-113 | any other code is logged, and the client gets only the recovery's body |
| StatusRecorder.RecordedStatusIsTheClients | internal/api/server/middleware.go:59-118 | logged status, client status through the recorder and client status without it are the same iff the handler does not begin with an informational header or one with an invalid code |
| StatusRecorder.EarlyHintWins | internal/api/server/middleware.go:106-113 | the concrete input: after a 103 the 404 is lost, the log shows 103 and the client gets 200 |
| StatusRecorder.InvalidCodeIsLogged | internal/api/server/middleware.go:78-113 | the concrete input: code 42 is logged, the client gets 200, and would get the recovery's 500 without the recorder |
| StatusRecorder.PanicIsLogged | internal/api/server/middleware.go:78-96 | the recovered 500 of a panicking handler is logged iff nothing was written before; otherwise the earlier status stands |

## Left out

- UlidLaws.ValidULID: counts characters, where the code takes the length in bytes and reports byte offsets; the two differ only for strings with non-ASCII characters, which are refused either way.
- Ulid.EncodeULID: every word has 64 bits, where the code's high word has 16; a right shift does not tell them apart. Reading a big-endian word from bytes is `Words.Word` of the number they spell.
- RedactionWalk.Walk: covers trees in which no map is reached twice, as decoding builds them; a caller that passes a value with shared maps or a cycle is not covered.
- Audit.Sink.Publish: one sink stands for the in-memory emitter (never refusing) and any emitter that may refuse; the log emitter's JSON line is not modelled, nor is concurrent use: each mutex-protected body is one step.
- Audit.Emit: envelope fields that neither this code nor the handler sets (recordedAt, sessionId, traceparent, intent, evidence and the like) are absent from the record.
- JsonPath.ExtractColumn: a number is its rendered text, so the choice between `%d` and `%g` is not modelled, and `%v` of maps and slices is a parameter; the library lookups of nested fields and slices are given by their documented meaning.
- MatrixTable.RenderMatrix: produces the table; upper-casing is a parameter, and column padding, the "AS OF" line and the message for an empty table are not modelled.
- StatusRecorder.RecordedStatusIsTheClients: when a writer commits to a status and which codes it refuses is net/http's behaviour, written down as a function; a panic is a flag that ends the handler.
- Sorting.SortSlice: Go's sort package is used by its contract (a sorted permutation, stable or not); the insertion sort below it is a stand-in.
- Topology.ListEnvironments: as in the matrix, objects are records of the fields these functions read; the ULID annotation is a field, and listing from the API server is an input.
- JSON and YAML encoding: a snapshot starts as a decoded value, nothing, null or a decode error.
- Reconcilers, generated code, HTTP routing, authentication and authorization, the sync engine stub: near-identical stubs, generated text or finite tables.
- Releases, health, drift, diff and single-object lookups of the read model: field mappings and linear lookups that would add only easy members.
- The fixture backend's own matrix and application filters, and age formatting in the CLI.
