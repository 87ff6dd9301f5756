// Go's sort package as its callers may rely on it: sort.Slice and sort.Strings
// give some sorted permutation, sort.SliceStable the one that keeps equal
// elements in their order.
module Sorting {
  import opened GoStrings

  ghost predicate TotalPreorder<T(!new)>(le: (T, T) -> bool) {
    && (forall x, y :: le(x, y) || le(y, x))
    && (forall x, y, z :: le(x, y) && le(y, z) ==> le(x, z))
  }

  predicate SortedBy<T>(le: (T, T) -> bool, s: seq<T>) {
    forall i, j | 0 <= i < j < |s| :: le(s[i], s[j])
  }

  function Insert<T>(le: (T, T) -> bool, x: T, s: seq<T>): seq<T> {
    if s == [] then [x]
    else if le(x, s[0]) then [x] + s
    else [s[0]] + Insert(le, x, s[1..])
  }

  function InsertionSort<T>(le: (T, T) -> bool, s: seq<T>): seq<T> {
    if s == [] then [] else Insert(le, s[0], InsertionSort(le, s[1..]))
  }

  lemma {:induction false} InsertKeepsAll<T>(le: (T, T) -> bool, x: T, s: seq<T>)
    ensures multiset(Insert(le, x, s)) == multiset{x} + multiset(s)
  {
    if s != [] {
      assert s == [s[0]] + s[1..];
      if !le(x, s[0]) { InsertKeepsAll(le, x, s[1..]); }
    }
  }

  lemma MembersAbove<T>(le: (T, T) -> bool, a: T, x: T, s: seq<T>, r: seq<T>)
    requires multiset(r) == multiset{x} + multiset(s) && le(a, x) && forall y <- s :: le(a, y)
    ensures forall j | 0 <= j < |r| :: le(a, r[j])
  {
    forall j | 0 <= j < |r| ensures le(a, r[j]) {
      assert r[j] in multiset(r);
      assert r[j] == x || r[j] in s;
    }
  }

  lemma {:induction false} InsertSorts<T(!new)>(le: (T, T) -> bool, x: T, s: seq<T>)
    requires TotalPreorder(le) && SortedBy(le, s)
    ensures SortedBy(le, Insert(le, x, s))
  {
    if s != [] && !le(x, s[0]) {
      InsertSorts(le, x, s[1..]);
      InsertKeepsAll(le, x, s[1..]);
      MembersAbove(le, s[0], x, s[1..], Insert(le, x, s[1..]));
    }
  }

  lemma {:induction false} InsertionSortProps<T(!new)>(le: (T, T) -> bool, s: seq<T>)
    requires TotalPreorder(le)
    ensures SortedBy(le, InsertionSort(le, s))
    ensures multiset(InsertionSort(le, s)) == multiset(s)
  {
    if s != [] {
      InsertionSortProps(le, s[1..]);
      InsertSorts(le, s[0], InsertionSort(le, s[1..]));
      InsertKeepsAll(le, s[0], InsertionSort(le, s[1..]));
      assert s == [s[0]] + s[1..];
    }
  }

  /** sort.Slice: sorted, a permutation, and nothing about ties. */
  method SortSlice<T(!new)>(le: (T, T) -> bool, s: seq<T>) returns (r: seq<T>)
    requires TotalPreorder(le)
    ensures SortedBy(le, r) && multiset(r) == multiset(s)
  {
    r := InsertionSort(le, s);
    InsertionSortProps(le, s);
  }

  // ----- Stability ------------------------------------------------------

  /** The elements of s that tie with x, in order. */
  function Ties<T>(le: (T, T) -> bool, x: T, s: seq<T>): seq<T> {
    if s == [] then []
    else Tie(le, x, s[0]) + Ties(le, x, s[1..])
  }

  /** r is s rearranged without reordering ties. */
  ghost predicate KeepsTies<T(!new)>(le: (T, T) -> bool, s: seq<T>, r: seq<T>) {
    multiset(r) == multiset(s) && forall x :: Ties(le, x, r) == Ties(le, x, s)
  }

  function Tie<T>(le: (T, T) -> bool, y: T, x: T): seq<T> { if le(y, x) && le(x, y) then [x] else [] }

  lemma TiesCons<T>(le: (T, T) -> bool, y: T, x: T, s: seq<T>)
    ensures Ties(le, y, [x] + s) == Tie(le, y, x) + Ties(le, y, s)
  {
    assert ([x] + s)[1..] == s;
  }

  lemma SwapEmpty<T>(p: seq<T>, q: seq<T>, r: seq<T>)
    requires p == [] || q == []
    ensures p + (q + r) == q + (p + r)
  {}

  lemma NotBothTie<T(!new)>(le: (T, T) -> bool, y: T, x: T, a: T)
    requires TotalPreorder(le) && !le(x, a)
    ensures Tie(le, y, a) == [] || Tie(le, y, x) == []
  {}

  lemma {:induction false} InsertTies<T(!new)>(le: (T, T) -> bool, x: T, s: seq<T>, y: T)
    requires TotalPreorder(le)
    ensures Ties(le, y, Insert(le, x, s)) == Ties(le, y, [x] + s)
  {
    hide Ties, Tie, TotalPreorder;
    if s != [] && !le(x, s[0]) {
      var a, rest := s[0], s[1..];
      InsertTies(le, x, rest, y);
      assert s == [a] + rest;
      TiesCons(le, y, a, Insert(le, x, rest));
      TiesCons(le, y, x, rest);
      TiesCons(le, y, a, rest);
      TiesCons(le, y, x, s);
      NotBothTie(le, y, x, a);
      SwapEmpty(Tie(le, y, a), Tie(le, y, x), Ties(le, y, rest));
    } else {
      assert Insert(le, x, s) == [x] + s;
    }
  }

  lemma {:induction false} InsertionSortTies<T(!new)>(le: (T, T) -> bool, s: seq<T>, y: T)
    requires TotalPreorder(le)
    ensures Ties(le, y, InsertionSort(le, s)) == Ties(le, y, s)
  {
    if s != [] {
      InsertionSortTies(le, s[1..], y);
      var t := InsertionSort(le, s[1..]);
      InsertTies(le, s[0], t, y);
      assert ([s[0]] + t)[1..] == t;
    }
  }

  /** sort.SliceStable. */
  method SortStable<T(!new)>(le: (T, T) -> bool, s: seq<T>) returns (r: seq<T>)
    requires TotalPreorder(le)
    ensures SortedBy(le, r) && KeepsTies(le, s, r)
  {
    r := InsertionSort(le, s);
    InsertionSortProps(le, s);
    forall x ensures Ties(le, x, r) == Ties(le, x, s) {
      InsertionSortTies(le, s, x);
    }
  }

  lemma SameHead<T(!new)>(le: (T, T) -> bool, s: seq<T>, t: seq<T>)
    requires TotalPreorder(le) && SortedBy(le, s) && SortedBy(le, t) && KeepsTies(le, s, t)
    requires s != [] && t != []
    ensures s[0] == t[0]
  {
    assert s[0] in multiset(t) && t[0] in multiset(s);
    assert le(s[0], t[0]) && le(t[0], s[0]);
    assert Ties(le, s[0], s)[0] == s[0] && Ties(le, s[0], t)[0] == t[0];
  }

  lemma SameTails<T(!new)>(le: (T, T) -> bool, x: T, s: seq<T>, t: seq<T>)
    requires KeepsTies(le, [x] + s, [x] + t)
    ensures KeepsTies(le, s, t)
  {
    assert multiset(s) == multiset([x] + s) - multiset{x} && multiset(t) == multiset([x] + t) - multiset{x};
    forall y ensures Ties(le, y, t) == Ties(le, y, s) {
      TiesCons(le, y, x, s);
      TiesCons(le, y, x, t);
      assert Ties(le, y, [x] + t) == Ties(le, y, [x] + s);
      var head := Tie(le, y, x);
      assert (head + Ties(le, y, s))[|head|..] == Ties(le, y, s);
      assert (head + Ties(le, y, t))[|head|..] == Ties(le, y, t);
    }
  }

  /** Sorted and tie-keeping leaves no freedom. */
  lemma {:induction false} StableIsUnique<T(!new)>(le: (T, T) -> bool, s: seq<T>, t: seq<T>)
    requires TotalPreorder(le) && SortedBy(le, s) && SortedBy(le, t) && KeepsTies(le, s, t)
    ensures s == t
    decreases |s|
  {
    assert |s| == |multiset(s)| == |multiset(t)| == |t|;
    if s != [] {
      SameHead(le, s, t);
      assert s == [s[0]] + s[1..] && t == [s[0]] + t[1..];
      SameTails(le, s[0], s[1..], t[1..]);
      StableIsUnique(le, s[1..], t[1..]);
    }
  }

  lemma SameRest<T>(x: T, s: seq<T>, t: seq<T>)
    requires multiset([x] + s) == multiset([x] + t)
    ensures multiset(s) == multiset(t)
  {
    assert multiset(s) == multiset([x] + s) - multiset{x};
    assert multiset(t) == multiset([x] + t) - multiset{x};
  }

  /** When only equal elements tie, there is one sorted permutation. */
  lemma {:induction false} SortedIsUnique<T(!new)>(le: (T, T) -> bool, s: seq<T>, t: seq<T>)
    requires TotalPreorder(le) && SortedBy(le, s) && SortedBy(le, t) && multiset(s) == multiset(t)
    requires forall x, y :: le(x, y) && le(y, x) ==> x == y
    ensures s == t
    decreases |s|
  {
    assert |s| == |multiset(s)| == |multiset(t)| == |t|;
    if s != [] {
      hide TotalPreorder;
      assert s[0] in multiset(t) && t[0] in multiset(s);
      assert le(s[0], t[0]) && le(t[0], s[0]);
      assert s == [s[0]] + s[1..] && t == [s[0]] + t[1..];
      SameRest(s[0], s[1..], t[1..]);
      SortedIsUnique(le, s[1..], t[1..]);
    }
  }

  // ----- Strings --------------------------------------------------------

  predicate AtMost(a: string, b: string) { !Less(b, a) }

  lemma AtMostIsTotal()
    ensures TotalPreorder(AtMost)
  {
    forall x, y ensures AtMost(x, y) || AtMost(y, x) {
      LessTotal(x, y);
      LessIrreflexive(x);
      if Less(x, y) && Less(y, x) { LessTransitive(x, y, x); }
    }
    forall x, y, z | AtMost(x, y) && AtMost(y, z) ensures AtMost(x, z) {
      if Less(z, x) {
        LessTotal(x, y);
        if Less(x, y) { LessTransitive(z, x, y); }
      }
    }
  }

  predicate StrictlySorted(s: seq<string>) {
    forall i, j | 0 <= i < j < |s| :: Less(s[i], s[j])
  }

  /** sort.Strings. */
  method SortStrings(s: seq<string>) returns (r: seq<string>)
    ensures SortedBy(AtMost, r) && multiset(r) == multiset(s)
  {
    AtMostIsTotal();
    r := SortSlice(AtMost, s);
  }

  /** Sorting a list without repetitions gives a strictly sorted one. */
  lemma DistinctSortedIsStrict(s: seq<string>, r: seq<string>)
    requires multiset(r) == multiset(s) && SortedBy(AtMost, r)
    requires forall i, j | 0 <= i < j < |s| :: s[i] != s[j]
    ensures StrictlySorted(r)
  {
    forall i, j | 0 <= i < j < |r| ensures Less(r[i], r[j]) {
      LessTotal(r[i], r[j]);
      if r[i] == r[j] {
        TwiceInMultiset(r, i, j);
        OnceInMultiset(s, r[i]);
      }
    }
  }

  lemma TwiceInMultiset<T>(r: seq<T>, i: nat, j: nat)
    requires i < j < |r| && r[i] == r[j]
    ensures multiset(r)[r[i]] >= 2
  {
    assert r == r[..i] + [r[i]] + r[i + 1..j] + [r[j]] + r[j + 1..];
  }

  lemma {:induction false} OnceInMultiset<T>(s: seq<T>, x: T)
    requires forall i, j | 0 <= i < j < |s| :: s[i] != s[j]
    ensures multiset(s)[x] <= 1
  {
    if s != [] {
      assert s == [s[0]] + s[1..];
      OnceInMultiset(s[1..], x);
      assert forall k | 0 <= k < |s[1..]| :: s[1..][k] == s[k + 1] && s[k + 1] != s[0];
    }
  }

  // ----- Strict order ---------------------------------------------------

  ghost predicate StrictOrder<T(!new)>(lt: (T, T) -> bool) {
    && (forall x :: !lt(x, x))
    && (forall x, y, z :: lt(x, y) && lt(y, z) ==> lt(x, z))
  }

  predicate Increasing<T>(lt: (T, T) -> bool, s: seq<T>) {
    forall i, j | 0 <= i < j < |s| :: lt(s[i], s[j])
  }

  lemma EmptyTogether<T>(s: seq<T>, t: seq<T>)
    requires forall x :: x in s <==> x in t
    ensures s == [] <==> t == []
  {
    if s != [] { assert s[0] in t; }
    if t != [] { assert t[0] in s; }
  }

  lemma TailWithoutHead<T(!new)>(lt: (T, T) -> bool, s: seq<T>, x: T)
    requires StrictOrder(lt) && s != [] && Increasing(lt, s)
    ensures x in s[1..] <==> x in s && x != s[0]
  {
    assert s == [s[0]] + s[1..];
  }

  lemma Asymmetric<T(!new)>(lt: (T, T) -> bool, x: T, y: T)
    requires StrictOrder(lt)
    ensures !(lt(x, y) && lt(y, x))
  {}

  lemma HeadIsLeast<T>(lt: (T, T) -> bool, s: seq<T>, x: T)
    requires Increasing(lt, s) && x in s
    ensures x == s[0] || lt(s[0], x)
  {}

  /** Two strictly increasing lists with the same elements are the same list. */
  lemma {:induction false} IncreasingUnique<T(!new)>(lt: (T, T) -> bool, s: seq<T>, t: seq<T>)
    requires StrictOrder(lt) && Increasing(lt, s) && Increasing(lt, t)
    requires forall x :: x in s <==> x in t
    ensures s == t
    decreases |s|
  {
    EmptyTogether(s, t);
    if s != [] {
      assert s[0] in t && t[0] in s;
      HeadIsLeast(lt, s, t[0]);
      HeadIsLeast(lt, t, s[0]);
      Asymmetric(lt, s[0], t[0]);
      forall x ensures x in s[1..] <==> x in t[1..] {
        TailWithoutHead(lt, s, x);
        TailWithoutHead(lt, t, x);
      }
      IncreasingUnique(lt, s[1..], t[1..]);
    }
  }
}
