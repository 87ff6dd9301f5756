// Promotion inboxes: the server's state filters (internal/api/readmodel/crdsource),
// the CLI's blocker filter (internal/cli/commands.go) and the fixture backend's
// own reading of the same states (internal/api/readmodel/fixtures).
module Inbox {
  import opened GoStrings
  import opened ReadModel
  import opened ReadModelLaws

  datatype Promotion = Promotion(
    application: string, release: string, from: string, to: string, mode: string, phase: string, ulid: string,
    created: Option<int>)

  datatype ApiPromotion = ApiPromotion(
    application: string, from: string, to: string, status: Status, ulid: string, release: Option<string>,
    mode: Option<string>, requestedAt: Option<int>)

  function PromotionStatus(phase: string): Status {
    if phase == "Blocked" then Blocked
    else if phase == "Succeeded" then Healthy
    else if phase == "Failed" then Status.Failed
    else if phase == "RolledBack" || phase == "Canceled" then Degraded
    else Progressing
  }

  predicate IsTerminalPhase(phase: string) {
    phase == "Succeeded" || phase == "Failed" || phase == "RolledBack" || phase == "Canceled"
  }

  predicate MatchesState(p: Promotion, state: string) {
    if state == "" || state == "mine" then true
    else if state == "blocked" then p.phase == "Blocked"
    else if state == "history" then IsTerminalPhase(p.phase)
    else if state == "active" then !IsTerminalPhase(p.phase) && p.phase != "Blocked"
    else true
  }

  function PromotionToAPI(p: Promotion): ApiPromotion {
    ApiPromotion(p.application, p.from, p.to, PromotionStatus(p.phase), p.ulid, StrPtrOrNil(p.release),
                 StrPtrOrNil(p.mode), p.created)
  }

  /** The inbox of a state, as positions in the promotion list, in list order. */
  function Positions(ps: seq<Promotion>, state: string, n: nat): (r: seq<nat>)
    requires n <= |ps|
    ensures forall i | 0 <= i < |r| :: r[i] < n
  {
    if n == 0 then [] else Positions(ps, state, n - 1) + (if MatchesState(ps[n - 1], state) then [n - 1] else [])
  }

  /** The inbox holds exactly the matching positions, each once and in list order. */
  lemma {:induction false} PositionsAreTheMatches(ps: seq<Promotion>, state: string, n: nat)
    requires n <= |ps|
    ensures var r := Positions(ps, state, n);
            (forall i, j | 0 <= i < j < |r| :: r[i] < r[j])
            && forall k: nat | k < n :: k in r <==> MatchesState(ps[k], state)
  {
    hide MatchesState;
    if n > 0 { PositionsAreTheMatches(ps, state, n - 1); }
  }

  function AtPositions(ps: seq<Promotion>, at: seq<nat>): seq<ApiPromotion>
    requires forall i | 0 <= i < |at| :: at[i] < |ps|
  {
    seq(|at|, i requires 0 <= i < |at| => PromotionToAPI(ps[at[i]]))
  }

  method ListPromotions(ps: seq<Promotion>, state: string) returns (out: seq<ApiPromotion>)
    ensures out == AtPositions(ps, Positions(ps, state, |ps|))
  {
    out := [];
    for i := 0 to |ps|
      invariant out == AtPositions(ps, Positions(ps, state, i))
    {
      PositionsStep(ps, state, i);
      if !MatchesState(ps[i], state) {
        continue;
      }
      out := out + [PromotionToAPI(ps[i])];
    }
  }

  lemma PositionsStep(ps: seq<Promotion>, state: string, n: nat)
    requires n < |ps|
    ensures MatchesState(ps[n], state) ==>
              Positions(ps, state, n + 1) == Positions(ps, state, n) + [n]
              && AtPositions(ps, Positions(ps, state, n + 1))
                 == AtPositions(ps, Positions(ps, state, n)) + [PromotionToAPI(ps[n])]
    ensures !MatchesState(ps[n], state) ==> Positions(ps, state, n + 1) == Positions(ps, state, n)
  {}

  /** Every promotion is in exactly one of the three inboxes. */
  lemma ExactlyOneInbox(p: Promotion)
    ensures var a, b, h := MatchesState(p, "active"), MatchesState(p, "blocked"), MatchesState(p, "history");
            (a || b || h) && !(a && b) && !(a && h) && !(b && h)
  {}

  lemma {:induction false} InboxSizes(ps: seq<Promotion>, n: nat)
    requires n <= |ps|
    ensures |Positions(ps, "active", n)| + |Positions(ps, "blocked", n)| + |Positions(ps, "history", n)| == n
  {
    if n > 0 {
      InboxSizes(ps, n - 1);
      ExactlyOneInbox(ps[n - 1]);
      PositionsGrow(ps, "active", n - 1);
      PositionsGrow(ps, "blocked", n - 1);
      PositionsGrow(ps, "history", n - 1);
    }
  }

  lemma PositionsGrow(ps: seq<Promotion>, state: string, n: nat)
    requires n < |ps|
    ensures |Positions(ps, state, n + 1)| == |Positions(ps, state, n)| + (if MatchesState(ps[n], state) then 1 else 0)
  {}

  /** Position k is in exactly one of the three lists. */
  predicate InExactlyOne(k: nat, a: seq<nat>, b: seq<nat>, h: seq<nat>) {
    (k in a || k in b || k in h) && !(k in a && k in b) && !(k in a && k in h) && !(k in b && k in h)
  }

  /**
   * The three inboxes share no promotion and together hold every one: each
   * position of the list is in exactly one, and the sizes add up.
   */
  lemma InboxesPartition(ps: seq<Promotion>)
    ensures var a, b := Positions(ps, "active", |ps|), Positions(ps, "blocked", |ps|);
            var h := Positions(ps, "history", |ps|);
            |a| + |b| + |h| == |ps| && forall k: nat | k < |ps| :: InExactlyOne(k, a, b, h)
  {
    InboxSizes(ps, |ps|);
    PositionsAreTheMatches(ps, "active", |ps|);
    PositionsAreTheMatches(ps, "blocked", |ps|);
    PositionsAreTheMatches(ps, "history", |ps|);
    var a, b, h := Positions(ps, "active", |ps|), Positions(ps, "blocked", |ps|), Positions(ps, "history", |ps|);
    forall k: nat | k < |ps| ensures InExactlyOne(k, a, b, h) {
      ExactlyOneInbox(ps[k]);
      assert k in a <==> MatchesState(ps[k], "active");
      assert k in b <==> MatchesState(ps[k], "blocked");
      assert k in h <==> MatchesState(ps[k], "history");
    }
  }

  // ----- The CLI's blockers ---------------------------------------------

  method ListApplicationPromotions(ps: seq<Promotion>, app: string) returns (out: seq<ApiPromotion>)
    ensures out == OfApplication(ps, app)
  {
    out := [];
    for i := 0 to |ps|
      invariant out + OfApplication(ps[i..], app) == OfApplication(ps, app)
    {
      assert ps[i..][1..] == ps[i + 1..];
      if ps[i].application != app {
        continue;
      }
      out := out + [PromotionToAPI(ps[i])];
    }
    assert ps[|ps|..] == [] && out + [] == out;
  }

  function OfApplication(ps: seq<Promotion>, app: string): seq<ApiPromotion> {
    if ps == [] then []
    else (if ps[0].application == app then [PromotionToAPI(ps[0])] else []) + OfApplication(ps[1..], app)
  }

  predicate IsBlocker(p: ApiPromotion, to: string) { p.status == Blocked && (to == "" || p.to == to) }

  function Blockers(ps: seq<ApiPromotion>, to: string): seq<ApiPromotion> {
    if ps == [] then [] else (if IsBlocker(ps[0], to) then [ps[0]] else []) + Blockers(ps[1..], to)
  }

  /** The filter loop of runBlockers. */
  method RunBlockers(listed: seq<ApiPromotion>, to: string) returns (matched: seq<ApiPromotion>)
    ensures matched == Blockers(listed, to)
  {
    matched := [];
    for i := 0 to |listed|
      invariant matched + Blockers(listed[i..], to) == Blockers(listed, to)
    {
      assert listed[i..][1..] == listed[i + 1..];
      if listed[i].status != Blocked {
        continue;
      }
      if to != "" && listed[i].to != to {
        continue;
      }
      matched := matched + [listed[i]];
    }
    assert listed[|listed|..] == [] && matched + [] == matched;
  }

  /** The promotions kept, in order. */
  function Keep(ps: seq<Promotion>, app: string, to: string): seq<Promotion> {
    if ps == [] then []
    else
      var kept := ps[0].application == app && MatchesState(ps[0], "blocked") && (to == "" || ps[0].to == to);
      (if kept then [ps[0]] else []) + Keep(ps[1..], app, to)
  }

  function ToAPI(ps: seq<Promotion>): seq<ApiPromotion> {
    if ps == [] then [] else [PromotionToAPI(ps[0])] + ToAPI(ps[1..])
  }

  /** Filtering mapped promotions by status is mapping the promotions the server calls blocked. */
  lemma {:induction false} BlockersAreServerBlocked(ps: seq<Promotion>, app: string, to: string)
    ensures Blockers(OfApplication(ps, app), to) == ToAPI(Keep(ps, app, to))
  {
    if ps != [] {
      BlockersAreServerBlocked(ps[1..], app, to);
      var p, rest := PromotionToAPI(ps[0]), OfApplication(ps[1..], app);
      assert ([p] + rest)[1..] == rest;
      assert p.status == Blocked <==> MatchesState(ps[0], "blocked");
      var kept := Keep(ps[1..], app, to);
      assert ([ps[0]] + kept)[1..] == kept;
      assert [] + rest == rest && [] + kept == kept && [] + Blockers(rest, to) == Blockers(rest, to);
    }
  }

  // ----- The two backends -----------------------------------------------

  /** promotionInState of the fixture backend, which sees only the mapped status. */
  predicate FixtureInState(p: ApiPromotion, state: string) {
    if state == "blocked" then p.status == Blocked
    else if state == "active" then !(p.status == Healthy || p.status == Status.Failed)
    else if state == "history" then p.status == Healthy || p.status == Status.Failed
    else true
  }

  /** The fixture backend's answer over its own, already mapped, promotions. */
  function FixtureInbox(proms: seq<ApiPromotion>, state: string): seq<ApiPromotion> {
    if proms == [] then []
    else
      var last := proms[|proms| - 1];
      FixtureInbox(proms[..|proms| - 1], state) + (if FixtureInState(last, state) then [last] else [])
  }

  method ListFixturePromotions(proms: seq<ApiPromotion>, state: string) returns (out: seq<ApiPromotion>)
    ensures out == FixtureInbox(proms, state)
  {
    out := [];
    for i := 0 to |proms|
      invariant out == FixtureInbox(proms[..i], state)
    {
      assert proms[..i + 1][..i] == proms[..i];
      if FixtureInState(proms[i], state) {
        out := out + [proms[i]];
      }
    }
    assert proms[..|proms|] == proms;
  }

  function Mapped(ps: seq<Promotion>, n: nat): (r: seq<ApiPromotion>)
    requires n <= |ps|
    ensures |r| == n
  {
    seq(n, i requires 0 <= i < n => PromotionToAPI(ps[i]))
  }

  /** The phases the two backends file differently under a state. */
  predicate FiledDifferently(p: Promotion, state: string) {
    (state == "active" && p.phase in {"Blocked", "RolledBack", "Canceled"})
    || (state == "history" && p.phase in {"RolledBack", "Canceled"})
  }

  lemma OneFiledDifferently(p: Promotion, state: string)
    ensures FixtureInState(PromotionToAPI(p), state) == MatchesState(p, state) <==> !FiledDifferently(p, state)
    ensures state == "active" && MatchesState(p, state) ==> FixtureInState(PromotionToAPI(p), state)
    ensures state != "active" && FixtureInState(PromotionToAPI(p), state) ==> MatchesState(p, state)
  {}

  function ServerInbox(ps: seq<Promotion>, state: string, n: nat): seq<ApiPromotion>
    requires n <= |ps|
  {
    AtPositions(ps, Positions(ps, state, n))
  }

  /**
   * For the same promotions both backends answer the same inbox if and only if
   * none of them is blocked, rolled back or canceled where that matters: the
   * fixtures see only the mapped status, call blocked promotions active too,
   * and never file rolled back or canceled ones under history.
   */
  lemma {:induction false} BackendsAgreeExactly(ps: seq<Promotion>, state: string, n: nat)
    requires n <= |ps|
    ensures FixtureInbox(Mapped(ps, n), state) == ServerInbox(ps, state, n)
       <==> forall k | 0 <= k < n :: !FiledDifferently(ps[k], state)
    ensures state == "active" ==> |FixtureInbox(Mapped(ps, n), state)| >= |ServerInbox(ps, state, n)|
    ensures state != "active" ==> |FixtureInbox(Mapped(ps, n), state)| <= |ServerInbox(ps, state, n)|
  {
    hide PromotionToAPI, MatchesState, FixtureInState, FiledDifferently;
    if n > 0 {
      var last := PromotionToAPI(ps[n - 1]);
      var f, s := FixtureInbox(Mapped(ps, n - 1), state), ServerInbox(ps, state, n - 1);
      BackendsAgreeExactly(ps, state, n - 1);
      OneFiledDifferently(ps[n - 1], state);
      PositionsStep(ps, state, n - 1);
      assert Mapped(ps, n)[..n - 1] == Mapped(ps, n - 1);
      var inF, inS := FixtureInState(last, state), MatchesState(ps[n - 1], state);
      assert FixtureInbox(Mapped(ps, n), state) == f + (if inF then [last] else []);
      assert ServerInbox(ps, state, n) == s + (if inS then [last] else []);
      SnocBoth(f, s, last, inF, inS);
    }
  }

  lemma SnocBoth<T>(f: seq<T>, s: seq<T>, x: T, inF: bool, inS: bool)
    ensures inF == inS ==> (f + (if inF then [x] else []) == s + (if inS then [x] else []) <==> f == s)
  {
    if inF && inS {
      assert (f + [x])[..|f|] == f && (s + [x])[..|s|] == s;
      assert f + [x] == s + [x] ==> |f| == |s|;
    } else {
      assert f + [] == f && s + [] == s;
    }
  }

  /** A rolled back promotion: history for the server, active for the fixtures. */
  lemma RolledBackIsFiledTwice(p: Promotion)
    requires p.phase == "RolledBack"
    ensures MatchesState(p, "history") && !MatchesState(p, "active")
    ensures FixtureInState(PromotionToAPI(p), "active") && !FixtureInState(PromotionToAPI(p), "history")
    ensures FixtureInbox(Mapped([p], 1), "history") != ServerInbox([p], "history", 1)
    ensures FixtureInbox(Mapped([p], 1), "active") != ServerInbox([p], "active", 1)
  {
    hide FixtureInbox, ServerInbox;
    BackendsAgreeExactly([p], "history", 1);
    BackendsAgreeExactly([p], "active", 1);
    assert FiledDifferently([p][0], "history") && FiledDifferently([p][0], "active");
  }

  // ----- What an inbox shows --------------------------------------------

  /** The phases of a state's inbox. */
  predicate Belongs(phase: string, state: string) {
    if state == "blocked" then phase == "Blocked"
    else if state == "history" then phase in {"Succeeded", "Failed", "RolledBack", "Canceled"}
    else if state == "active" then !(phase in {"Blocked", "Succeeded", "Failed", "RolledBack", "Canceled"})
    else true
  }

  /** Every status stands for its phases, and for no others. */
  predicate StatusOf(phase: string, s: Status) {
    && (s == Blocked <==> phase == "Blocked")
    && (s == Healthy <==> phase == "Succeeded")
    && (s == Status.Failed <==> phase == "Failed")
    && (s == Degraded <==> phase == "RolledBack" || phase == "Canceled")
    && (s == Progressing <==> !(phase in {"Blocked", "Succeeded", "Failed", "RolledBack", "Canceled"}))
  }

  /** a is the API record of promotion p. */
  ghost predicate PromotionShown(a: ApiPromotion, p: Promotion) {
    && a.application == p.application && a.from == p.from && a.to == p.to && a.ulid == p.ulid
    && StatusOf(p.phase, a.status) && a.requestedAt == p.created
    && Optional(a.release, p.release) && Optional(a.mode, p.mode)
  }

  lemma PhasesDiffer()
    ensures "Blocked"[0] == 'B' && "Succeeded"[0] == 'S' && "Failed"[0] == 'F'
    ensures "RolledBack"[0] == 'R' && "Canceled"[0] == 'C'
  {}

  lemma PromotionMeans(p: Promotion)
    ensures PromotionShown(PromotionToAPI(p), p)
  {
    PhasesDiffer();
  }

  lemma StatesMean(p: Promotion, state: string)
    ensures MatchesState(p, state) <==> Belongs(p.phase, state)
  {
    PhasesDiffer();
    assert "blocked"[0] == 'b' && "history"[0] == 'h' && "active"[0] == 'a' && "mine"[0] == 'm';
  }

  /** The inbox of a state: the records of exactly the promotions in its phases, in list order. */
  lemma InboxMeans(ps: seq<Promotion>, state: string) returns (at: seq<nat>)
    ensures (forall k | 0 <= k < |at| :: at[k] < |ps|) && forall k, l | 0 <= k < l < |at| :: at[k] < at[l]
    ensures forall j: nat | j < |ps| :: j in at <==> Belongs(ps[j].phase, state)
    ensures |ServerInbox(ps, state, |ps|)| == |at|
    ensures forall k | 0 <= k < |at| :: PromotionShown(ServerInbox(ps, state, |ps|)[k], ps[at[k]])
  {
    hide MatchesState, Belongs, PromotionShown, PromotionToAPI, Positions;
    at := Positions(ps, state, |ps|);
    PositionsAreTheMatches(ps, state, |ps|);
    forall j: nat | j < |ps| ensures j in at <==> Belongs(ps[j].phase, state) { StatesMean(ps[j], state); }
    forall k | 0 <= k < |at| ensures PromotionShown(ServerInbox(ps, state, |ps|)[k], ps[at[k]]) {
      PromotionMeans(ps[at[k]]);
    }
  }

  /** The fixture backend reads the state off the status: healthy and failed promotions are history. */
  lemma FixtureStatesMean(a: ApiPromotion, state: string)
    ensures FixtureInState(a, state)
       <==> (state == "blocked" ==> a.status == Blocked)
            && (state == "history" ==> a.status in {Healthy, Status.Failed})
            && (state == "active" ==> !(a.status in {Healthy, Status.Failed}))
  {
    assert "blocked"[0] == 'b' && "history"[0] == 'h' && "active"[0] == 'a';
  }
}
