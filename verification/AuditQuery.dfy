// The audit query of the fixture read model (internal/api/readmodel/fixtures):
// filter, stable newest-first sort, cut to a limit.
module AuditQuery {
  import opened GoStrings
  import opened Sorting

  /** openapi.AuditEvent; `at` is an instant on one time line. */
  datatype AuditEvent = AuditEvent(ulid: string, actor: string, verb: string, target: string, at: int)

  datatype Query = Query(
    resource: string, actor: string, verb: string, from: Option<int>, to: Option<int>, limit: int)

  /** strings.Contains. */
  predicate Contains(s: string, sub: string) { Index(s, sub).Some? }

  predicate AuditMatches(e: AuditEvent, q: Query) {
    && (q.actor == "" || e.actor == q.actor)
    && (q.verb == "" || e.verb == q.verb)
    && (q.resource == "" || Contains(e.target, q.resource))
    && (q.from.None? || e.at >= q.from.value)
    && (q.to.None? || e.at <= q.to.value)
  }

  /** The linear filter. */
  function Matching(audit: seq<AuditEvent>, q: Query): seq<AuditEvent> {
    if audit == [] then []
    else (if AuditMatches(audit[0], q) then [audit[0]] else []) + Matching(audit[1..], q)
  }

  /** Newest first. */
  predicate NotOlder(a: AuditEvent, b: AuditEvent) { a.at >= b.at }

  /** The full answer: the matches, newest first, ties in corpus order. */
  ghost predicate Answers(all: seq<AuditEvent>, audit: seq<AuditEvent>, q: Query) {
    SortedBy(NotOlder, all) && KeepsTies(NotOlder, Matching(audit, q), all)
  }

  /** A limit of zero or less means no limit. */
  function Cut(all: seq<AuditEvent>, limit: int): seq<AuditEvent> {
    if limit > 0 && |all| > limit then all[..limit] else all
  }

  /** What the query returns: the full answer, cut. */
  ghost predicate PageOf(page: seq<AuditEvent>, audit: seq<AuditEvent>, q: Query) {
    exists all :: Answers(all, audit, q) && page == Cut(all, q.limit)
  }

  lemma NotOlderIsTotal()
    ensures TotalPreorder(NotOlder)
  {}

  lemma MatchStep(items: seq<AuditEvent>, next: seq<AuditEvent>, audit: seq<AuditEvent>, q: Query, i: nat)
    requires i < |audit| && next == (if AuditMatches(audit[i], q) then items + [audit[i]] else items)
    ensures next + Matching(audit[i + 1..], q) == items + Matching(audit[i..], q)
  {
    assert audit[i..][1..] == audit[i + 1..];
  }

  method QueryAudit(audit: seq<AuditEvent>, q: Query) returns (page: seq<AuditEvent>)
    ensures PageOf(page, audit, q)
  {
    var items: seq<AuditEvent> := [];
    for i := 0 to |audit|
      invariant items + Matching(audit[i..], q) == Matching(audit, q)
    {
      hide AuditMatches, Matching;
      ghost var before := items;
      if AuditMatches(audit[i], q) {
        items := items + [audit[i]];
      }
      MatchStep(before, items, audit, q, i);
    }
    assert audit[|audit|..] == [] && items + [] == items;
    hide Matching, KeepsTies;
    NotOlderIsTotal();
    items := SortStable(NotOlder, items);
    ghost var all := items;
    if q.limit > 0 && |items| > q.limit {
      items := items[..q.limit];
    }
    assert Answers(all, audit, q) && items == Cut(all, q.limit);
    page := items;
  }

  /** There is only one answer, so pages for different limits are cut from the same list. */
  lemma AnswerIsUnique(all: seq<AuditEvent>, all': seq<AuditEvent>, audit: seq<AuditEvent>, q: Query, q': Query)
    requires Answers(all, audit, q) && Answers(all', audit, q') && q' == q.(limit := q'.limit)
    ensures all == all'
  {
    NotOlderIsTotal();
    SameMatches(audit, q, q');
    StableIsUnique(NotOlder, all, all');
  }

  lemma {:induction false} SameMatches(audit: seq<AuditEvent>, q: Query, q': Query)
    requires q' == q.(limit := q'.limit)
    ensures Matching(audit, q) == Matching(audit, q')
  {
    if audit != [] { SameMatches(audit[1..], q, q'); }
  }

  lemma {:induction false} MatchingIsFilter(audit: seq<AuditEvent>, q: Query, e: AuditEvent)
    ensures multiset(Matching(audit, q))[e] == if AuditMatches(e, q) then multiset(audit)[e] else 0
  {
    if audit != [] {
      MatchingIsFilter(audit[1..], q, e);
      assert audit == [audit[0]] + audit[1..];
    }
  }

  /** The page is a prefix of the full answer; `rest` is what the cut removed. */
  lemma PageAndRest(page: seq<AuditEvent>, audit: seq<AuditEvent>, q: Query) returns (rest: seq<AuditEvent>)
    requires PageOf(page, audit, q)
    ensures Answers(page + rest, audit, q) && page == Cut(page + rest, q.limit)
  {
    var all :| Answers(all, audit, q) && page == Cut(all, q.limit);
    rest := all[|page|..];
    assert page + rest == all;
  }

  /**
   * What a page is: sorted, of the right length, drawn from the matching
   * events, and no older than any matching event that it leaves out.
   */
  lemma PageHoldsTheNewest(page: seq<AuditEvent>, audit: seq<AuditEvent>, q: Query, e: AuditEvent)
    requires PageOf(page, audit, q)
    ensures SortedBy(NotOlder, page) && multiset(page) <= multiset(Matching(audit, q))
    ensures |page| == if 0 < q.limit < |Matching(audit, q)| then q.limit else |Matching(audit, q)|
    ensures multiset(page)[e] < multiset(Matching(audit, q))[e] ==> forall i | 0 <= i < |page| :: page[i].at >= e.at
  {
    var rest := PageAndRest(page, audit, q);
    var all := page + rest;
    assert multiset(all) == multiset(page) + multiset(rest) == multiset(Matching(audit, q));
    assert |multiset(all)| == |all| && |multiset(Matching(audit, q))| == |Matching(audit, q)|;
    forall i, j | 0 <= i < j < |page| ensures NotOlder(page[i], page[j]) {
      assert all[i] == page[i] && all[j] == page[j];
    }
    if multiset(page)[e] < multiset(all)[e] {
      assert e in multiset(rest);
      var k :| 0 <= k < |rest| && rest[k] == e;
      forall i | 0 <= i < |page| ensures page[i].at >= e.at {
        assert all[|page| + k] == e && all[i] == page[i];
      }
    }
  }

  /** A query has one answer: stability leaves no freedom. */
  lemma PageIsUnique(page: seq<AuditEvent>, page': seq<AuditEvent>, audit: seq<AuditEvent>, q: Query)
    requires PageOf(page, audit, q) && PageOf(page', audit, q)
    ensures page == page'
  {
    var rest := PageAndRest(page, audit, q);
    var rest' := PageAndRest(page', audit, q);
    AnswerIsUnique(page + rest, page' + rest', audit, q, q);
  }

  /**
   * Raising the limit by one extends the page, if and only if the old limit is
   * not zero (zero means unlimited) or there is at most one match.
   */
  lemma LimitsNest(page: seq<AuditEvent>, page': seq<AuditEvent>, audit: seq<AuditEvent>, q: Query)
    requires PageOf(page, audit, q) && PageOf(page', audit, q.(limit := q.limit + 1))
    ensures page <= page' <==> q.limit != 0 || |Matching(audit, q)| <= 1
  {
    var q' := q.(limit := q.limit + 1);
    var rest := PageAndRest(page, audit, q);
    var rest' := PageAndRest(page', audit, q');
    AnswerIsUnique(page + rest, page' + rest', audit, q, q');
    var all := page + rest;
    assert |multiset(all)| == |all| && |multiset(Matching(audit, q))| == |Matching(audit, q)|;
  }

  /** Two matches: limit 0 shows both, limit 1 only one of them. */
  lemma ZeroIsUnlimited(page: seq<AuditEvent>, page': seq<AuditEvent>, a: AuditEvent, b: AuditEvent)
    requires PageOf(page, [a, b], Query("", "", "", None, None, 0))
    requires PageOf(page', [a, b], Query("", "", "", None, None, 1))
    ensures |page| == 2 && |page'| == 1 && !(page <= page')
  {
    hide PageOf, Matching;
    var q := Query("", "", "", None, None, 0);
    BothMatch(a, b, q);
    PageHoldsTheNewest(page, [a, b], q, a);
    LimitsNest(page, page', [a, b], q);
    PageHoldsTheNewest(page', [a, b], q.(limit := 1), a);
    SameMatches([a, b], q, q.(limit := 1));
  }

  lemma BothMatch(a: AuditEvent, b: AuditEvent, q: Query)
    requires AuditMatches(a, q) && AuditMatches(b, q)
    ensures Matching([a, b], q) == [a, b]
  {
    assert [a, b][1..] == [b] && [b][1..] == [];
    assert Matching([b], q) == [b] + [];
  }

  // ----- What was asked for ---------------------------------------------

  /** The event is one the query asks for; a field left empty asks for nothing. */
  ghost predicate Asked(e: AuditEvent, q: Query) {
    && (q.actor != "" ==> e.actor == q.actor)
    && (q.verb != "" ==> e.verb == q.verb)
    && (q.resource != "" ==> exists a, b :: e.target == a + q.resource + b)
    && (q.from.Some? ==> q.from.value <= e.at)
    && (q.to.Some? ==> e.at <= q.to.value)
  }

  lemma OccursWithin(a: string, sub: string, b: string)
    ensures OccursAt(a + sub + b, sub, |a|)
  {}

  lemma ContainsMeans(s: string, sub: string)
    ensures Contains(s, sub) <==> exists a, b :: s == a + sub + b
  {
    if Contains(s, sub) {
      var i := Index(s, sub).value;
      assert s == s[..i] + sub + s[i + |sub|..];
    }
    if exists a, b :: s == a + sub + b {
      var a, b :| s == a + sub + b;
      OccursWithin(a, sub, b);
    }
  }

  lemma MatchesMean(e: AuditEvent, q: Query)
    ensures AuditMatches(e, q) <==> Asked(e, q)
  {
    ContainsMeans(e.target, q.resource);
  }

  /**
   * The page holds events of the corpus that were asked for, newest first;
   * one that was asked for is left out only by a full page of events that are no older.
   */
  lemma PageMeans(page: seq<AuditEvent>, audit: seq<AuditEvent>, q: Query, e: AuditEvent)
    requires PageOf(page, audit, q)
    ensures forall i, j | 0 <= i < j < |page| :: page[i].at >= page[j].at
    ensures multiset(page)[e] <= multiset(audit)[e] && (e in page ==> Asked(e, q))
    ensures Asked(e, q) && multiset(page)[e] < multiset(audit)[e] ==>
              q.limit > 0 && |page| == q.limit && forall i | 0 <= i < |page| :: page[i].at >= e.at
  {
    hide PageOf, Asked, Matching;
    PageHoldsTheNewest(page, audit, q, e);
    MatchingIsFilter(audit, q, e);
    MatchesMean(e, q);
    forall i, j | 0 <= i < j < |page| ensures page[i].at >= page[j].at { assert NotOlder(page[i], page[j]); }
    if e in page { assert e in multiset(page); }
    if Asked(e, q) && multiset(page)[e] < multiset(audit)[e] {
      FullPage(page, audit, q);
      assert multiset(page) != multiset(Matching(audit, q));
    }
  }

  lemma FullPage(page: seq<AuditEvent>, audit: seq<AuditEvent>, q: Query)
    requires PageOf(page, audit, q)
    ensures multiset(page) == multiset(Matching(audit, q)) || (q.limit > 0 && |page| == q.limit)
  {
    var all :| Answers(all, audit, q) && page == Cut(all, q.limit);
  }
}
