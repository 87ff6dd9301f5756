// What the matrix and the rendered table show, place by place.
module TableLaws {
  import opened GoStrings
  import opened Sorting
  import opened ReadModel
  import opened ReadModelLaws
  import opened Matrix
  import opened MatrixTable

  /** Columns go up by environment, and by region within one. */
  lemma ColumnsAscend(cols: seq<Column>, targets: seq<Target>, i: nat, j: nat)
    requires ColumnsOf(cols, targets) && i < j < |cols|
    ensures Less(Plain(cols[i].env), Plain(cols[j].env))
            || (Plain(cols[i].env) == Plain(cols[j].env) && Less(Plain(cols[i].region), Plain(cols[j].region)))
  {
    assert PairLess(Pairs(cols)[i], Pairs(cols)[j]);
  }

  /** An empty environment or region is left out of its column. */
  lemma ColumnsAreOptional(cols: seq<Column>, targets: seq<Target>, i: nat)
    requires ColumnsOf(cols, targets) && i < |cols|
    ensures cols[i].env != Some("") && cols[i].region != Some("")
  {}

  /** Without NUL in environment names there is a column for each environment and region of a target, and no other. */
  lemma ColumnsAreTheTargets(cols: seq<Column>, targets: seq<Target>, env: string, region: string)
    requires ColumnsOf(cols, targets) && forall j | 0 <= j < |targets| :: '\0' !in targets[j].environment
    ensures (exists i: nat :: i < |cols| && Plain(cols[i].env) == env && Plain(cols[i].region) == region)
       <==> (exists j: nat :: j < |targets| && targets[j].environment == env && targets[j].region == region)
  {
    hide LeastOfKey, PairLess, Key;
    assert forall j | 0 <= j < |targets| :: NulFree(targets[j].environment);
    NulFreeKeysSeparate(targets);
    ColumnsAreThePairs(cols, targets);
    var p := Pair(env, region);
    assert p in Pairs(cols) <==> InInput(p, targets);
    if p in Pairs(cols) {
      var i :| 0 <= i < |Pairs(cols)| && Pairs(cols)[i] == p;
      assert PairAt(cols[i]) == p;
      var j :| 0 <= j < |targets| && PairOf(targets[j]) == p;
      assert targets[j].environment == env;
    } else {
      forall i: nat | i < |cols| ensures PairAt(cols[i]) != p { assert Pairs(cols)[i] == PairAt(cols[i]); }
      forall j: nat | j < |targets| ensures PairOf(targets[j]) != p {}
    }
  }

  lemma {:induction false} FirstNamedIs(apps: seq<Application>, name: string, i: nat)
    requires i < |apps| && apps[i].name == name && forall j | 0 <= j < i :: apps[j].name != name
    ensures FirstNamed(apps, name) == [apps[i]]
  {
    if i > 0 {
      forall j | 0 <= j < i - 1 ensures apps[1..][j].name != name { assert apps[1..][j] == apps[j + 1]; }
      FirstNamedIs(apps[1..], name, i - 1);
    }
  }

  /** Which applications a matrix is about: all, or the first with the name, or none. */
  lemma SelectedMeans(apps: seq<Application>, name: string)
    ensures name == "all" ==> Selected(apps, name) == apps
    ensures name != "all" ==>
              forall i: nat | i < |apps| && apps[i].name == name && (forall j | 0 <= j < i :: apps[j].name != name) ::
                Selected(apps, name) == [apps[i]]
    ensures name != "all" && (forall i | 0 <= i < |apps| :: apps[i].name != name) ==> Selected(apps, name) == []
  {
    hide FirstNamed;
    if name != "all" {
      forall i: nat | i < |apps| && apps[i].name == name && (forall j | 0 <= j < i :: apps[j].name != name)
        ensures Selected(apps, name) == [apps[i]]
      {
        FirstNamedIs(apps, name, i);
      }
      if forall i | 0 <= i < |apps| :: apps[i].name != name {
        NoneNamed(apps, name);
      }
    }
  }

  lemma {:induction false} NoneNamed(apps: seq<Application>, name: string)
    requires forall i | 0 <= i < |apps| :: apps[i].name != name
    ensures FirstNamed(apps, name) == []
  {
    if apps != [] {
      forall j | 0 <= j < |apps| - 1 ensures apps[1..][j].name != name { assert apps[1..][j] == apps[j + 1]; }
      NoneNamed(apps[1..], name);
    }
  }

  // ----- Entries and headers --------------------------------------------

  /** How a status is written. */
  ghost predicate StatusWritten(conds: seq<Condition>, text: string) {
    && (forall i: nat | FirstAccepted(conds, i) ::
          text == if conds[i].status == "False" then "Blocked" else "Progressing")
    && ((forall i | 0 <= i < |conds| :: conds[i].ctype != "Accepted") ==> text == "Missing")
  }

  lemma StatusTextMeans(conds: seq<Condition>)
    ensures StatusWritten(conds, StatusText(StatusFromConditions(conds)))
  {
    hide StatusFromConditions;
    StatusMeans(conds);
  }

  /** Environment, slash, region, in capitals; a nameless environment is a question mark. */
  ghost predicate HeaderOf(upper: string -> string, c: Column, header: string) {
    header == upper((if Plain(c.env) == "" then "?" else Plain(c.env))
                    + (if Plain(c.region) == "" then "" else "/" + Plain(c.region)))
  }

  lemma HeaderMeans(upper: string -> string, c: Column)
    ensures HeaderOf(upper, c, Header(upper, PairAt(c)))
  {
    var env := if Plain(c.env) == "" then "?" else Plain(c.env);
    assert env + "" == env;
    assert env + ("/" + Plain(c.region)) == env + "/" + Plain(c.region);
  }

  ghost predicate SamePlace(cell: Cell, c: Column) {
    Plain(cell.env) == Plain(c.env) && Plain(cell.region) == Plain(c.region)
  }

  /** Cell k is the last one of the row that stands in the column's place. */
  ghost predicate LastInPlace(cells: seq<Cell>, c: Column, k: nat) {
    k < |cells| && SamePlace(cells[k], c) && forall l | k < l < |cells| :: !SamePlace(cells[l], c)
  }

  /** The status of that cell, "-" for an empty one, with a star for drift; "-" when there is no such cell. */
  ghost predicate EntryOf(cells: seq<Cell>, c: Column, text: string) {
    && (forall k: nat | LastInPlace(cells, c, k) ::
          text == (if cells[k].status == "" then "-" else cells[k].status)
                  + (if cells[k].drift == Some(true) then "*" else ""))
    && ((forall k | 0 <= k < |cells| :: !SamePlace(cells[k], c)) ==> text == "-")
  }

  lemma {:induction false} LastCellIs(cells: seq<Cell>, c: Column, k: nat)
    requires LastInPlace(cells, c, k)
    ensures LastCell(cells, PairAt(c)) == Some(cells[k])
  {
    var n := |cells| - 1;
    if k < n { LastCellIs(cells[..n], c, k); }
  }

  lemma {:induction false} NoCellInPlace(cells: seq<Cell>, c: Column)
    requires forall k | 0 <= k < |cells| :: !SamePlace(cells[k], c)
    ensures LastCell(cells, PairAt(c)).None?
  {
    if cells != [] { NoCellInPlace(cells[..|cells| - 1], c); }
  }

  lemma EntryMeans(cells: seq<Cell>, c: Column)
    ensures EntryOf(cells, c, Entry(cells, PairAt(c)))
  {
    hide LastCell, PairAt, SamePlace;
    forall k: nat | LastInPlace(cells, c, k) ensures LastCell(cells, PairAt(c)) == Some(cells[k]) {
      LastCellIs(cells, c, k);
    }
    if forall k | 0 <= k < |cells| :: !SamePlace(cells[k], c) {
      NoCellInPlace(cells, c);
    }
  }

  // ----- The whole table ------------------------------------------------

  /** The columns of the filter's environment, or all of them. */
  ghost predicate Wanted(c: Column, envFilter: string) { envFilter == "" || Plain(c.env) == envFilter }

  /** Positions from.. of the wanted columns, in order. */
  ghost predicate WantedAt(columns: seq<Column>, from: nat, envFilter: string, at: seq<nat>) {
    && (forall k | 0 <= k < |at| :: from <= at[k] < |columns| && Wanted(columns[at[k]], envFilter))
    && (forall k, l | 0 <= k < l < |at| :: at[k] < at[l])
    && (forall j: nat | from <= j < |columns| && Wanted(columns[j], envFilter) :: j in at)
  }

  /** The pairs of these columns. */
  ghost predicate PairsAt(columns: seq<Column>, at: seq<nat>, pairs: seq<Pair>)
    requires forall k | 0 <= k < |at| :: at[k] < |columns|
  {
    |pairs| == |at| && forall k | 0 <= k < |at| :: pairs[k] == PairAt(columns[at[k]])
  }

  lemma WantedFirst(columns: seq<Column>, from: nat, envFilter: string, at: seq<nat>)
    requires from < |columns| && Wanted(columns[from], envFilter) && WantedAt(columns, from + 1, envFilter, at)
    ensures WantedAt(columns, from, envFilter, [from] + at)
  {
    hide Wanted;
  }

  lemma PairsFirst(columns: seq<Column>, from: nat, at: seq<nat>, pairs: seq<Pair>)
    requires from < |columns| && (forall k | 0 <= k < |at| :: at[k] < |columns|) && PairsAt(columns, at, pairs)
    ensures PairsAt(columns, [from] + at, [PairAt(columns[from])] + pairs)
  {
    hide PairAt;
  }

  lemma WantedSkip(columns: seq<Column>, from: nat, envFilter: string, at: seq<nat>)
    requires from < |columns| && !Wanted(columns[from], envFilter) && WantedAt(columns, from + 1, envFilter, at)
    ensures WantedAt(columns, from, envFilter, at)
  {
    hide Wanted;
  }

  lemma KeptStep(columns: seq<Column>, from: nat, envFilter: string)
    requires from < |columns|
    ensures KeptPairs(columns[from..], envFilter)
         == (if Wanted(columns[from], envFilter) then [PairAt(columns[from])] else [])
            + KeptPairs(columns[from + 1..], envFilter)
  {
    assert columns[from..][0] == columns[from] && columns[from..][1..] == columns[from + 1..];
  }

  lemma {:induction false} KeptAt(columns: seq<Column>, from: nat, envFilter: string) returns (at: seq<nat>)
    requires from <= |columns|
    ensures WantedAt(columns, from, envFilter, at) && PairsAt(columns, at, KeptPairs(columns[from..], envFilter))
    decreases |columns| - from
  {
    if from == |columns| {
      at := [];
    } else {
      hide Wanted, PairAt, KeptPairs;
      at := KeptAt(columns, from + 1, envFilter);
      var rest := KeptPairs(columns[from + 1..], envFilter);
      KeptStep(columns, from, envFilter);
      if Wanted(columns[from], envFilter) {
        WantedFirst(columns, from, envFilter, at);
        PairsFirst(columns, from, at, rest);
        at := [from] + at;
      } else {
        assert [] + rest == rest;
        WantedSkip(columns, from, envFilter, at);
      }
    }
  }

  /** Headers and rows of a table over the columns at these positions. */
  ghost predicate TableOf(upper: string -> string, m: MatrixData, at: seq<nat>, t: Table)
    requires forall k | 0 <= k < |at| :: at[k] < |m.columns|
  {
    && |t.headers| == |at| + 1 && t.headers[0] == "APPLICATION"
    && (forall k | 0 <= k < |at| :: HeaderOf(upper, m.columns[at[k]], t.headers[k + 1]))
    && |t.rows| == |m.rows|
    && (forall i | 0 <= i < |m.rows| :: |t.rows[i]| == |at| + 1 && t.rows[i][0] == m.rows[i].application)
    && (forall i, k | 0 <= i < |m.rows| && 0 <= k < |at| ::
          EntryOf(m.rows[i].cells, m.columns[at[k]], t.rows[i][k + 1]))
  }

  /**
   * The table of an arbitrary matrix: under each wanted column, in column
   * order, the header of its environment and region and, in each row, the text
   * of the last cell in that place, or the filler.
   */
  lemma TableMeans(upper: string -> string, m: MatrixData, envFilter: string) returns (at: seq<nat>)
    ensures WantedAt(m.columns, 0, envFilter, at) && TableOf(upper, m, at, Rendered(upper, m, envFilter))
  {
    hide HeaderOf, Header, EntryOf, Entry, KeptPairs, PairAt;
    at := KeptAt(m.columns, 0, envFilter);
    assert m.columns[0..] == m.columns;
    TableOfPairs(upper, m, envFilter, at);
  }

  lemma TableOfPairs(upper: string -> string, m: MatrixData, envFilter: string, at: seq<nat>)
    requires forall k | 0 <= k < |at| :: at[k] < |m.columns|
    requires PairsAt(m.columns, at, KeptPairs(m.columns, envFilter))
    ensures TableOf(upper, m, at, Rendered(upper, m, envFilter))
  {
    hide HeaderOf, Header, EntryOf, Entry, KeptPairs, PairAt;
    var t := Rendered(upper, m, envFilter);
    forall k | 0 <= k < |at| ensures HeaderOf(upper, m.columns[at[k]], t.headers[k + 1]) {
      HeaderMeans(upper, m.columns[at[k]]);
    }
    forall i, k | 0 <= i < |m.rows| && 0 <= k < |at|
      ensures EntryOf(m.rows[i].cells, m.columns[at[k]], t.rows[i][k + 1])
    {
      EntryMeans(m.rows[i].cells, m.columns[at[k]]);
    }
  }

  /** In a matrix from GetMatrix every entry is written from the application's own Accepted condition. */
  lemma EntriesAreOwnStatus(upper: string -> string, m: MatrixData, apps: seq<Application>, targets: seq<Target>,
                            i: nat, j: nat)
    requires MatrixOf(m, apps, targets) && i < |apps| && j < |m.columns|
    ensures var t := Rendered(upper, m, "");
            && |t.rows| == |apps| && |t.rows[i]| == |t.headers| == |m.columns| + 1
            && t.rows[i][0] == apps[i].name && StatusWritten(apps[i].conditions, t.rows[i][j + 1])
            && HeaderOf(upper, m.columns[j], t.headers[j + 1])
  {
    hide Header, HeaderOf, StatusText, StatusFromConditions, StatusWritten, Rendered;
    RenderedMatrixIsAligned(upper, m, apps, targets, i, j);
    StatusTextMeans(apps[i].conditions);
    HeaderMeans(upper, m.columns[j]);
  }
}
