// GetMatrix and the CLI table rendered from a matrix: the per-row index against
// a linear scan, alignment end to end, and the environment filter.
module MatrixTable {
  import opened GoStrings
  import opened ReadModel
  import opened Matrix

  function StatusText(s: Status): (t: string)
    ensures t != "" && t != "-"
  {
    match s
    case Blocked => "Blocked"
    case Degraded => "Degraded"
    case Drifted => "Drifted"
    case Failed => "Failed"
    case Frozen => "Frozen"
    case Healthy => "Healthy"
    case Missing => "Missing"
    case Progressing => "Progressing"
  }

  /** openapi.MatrixCell; the status is whatever text came over the wire. */
  datatype Cell = Cell(env: Option<string>, region: Option<string>, status: string, drift: Option<bool>)

  datatype Row = Row(application: string, ulid: Option<string>, cells: seq<Cell>)

  datatype MatrixData = MatrixData(columns: seq<Column>, rows: seq<Row>)

  // ----- GetMatrix ------------------------------------------------------

  /** matrixRow: one cell per column, all with the application's status. */
  ghost predicate RowOf(r: Row, a: Application, cols: seq<Column>) {
    && r.application == a.name && r.ulid == StrPtrOrNil(a.ulid) && |r.cells| == |cols|
    && forall i | 0 <= i < |cols| ::
         r.cells[i] == Cell(cols[i].env, cols[i].region, StatusText(StatusFromConditions(a.conditions)), None)
  }

  method MatrixRow(a: Application, cols: seq<Column>) returns (r: Row)
    ensures RowOf(r, a, cols)
  {
    var status := StatusText(StatusFromConditions(a.conditions));
    var cells: seq<Cell> := [];
    for i := 0 to |cols|
      invariant |cells| == i
      invariant forall j | 0 <= j < i :: cells[j] == Cell(cols[j].env, cols[j].region, status, None)
    {
      cells := cells + [Cell(cols[i].env, cols[i].region, status, None)];
    }
    r := Row(a.name, StrPtrOrNil(a.ulid), cells);
  }

  /** The applications GetMatrix selects: all of them, or the first with that name. */
  function Selected(apps: seq<Application>, name: string): seq<Application> {
    if name == "all" then apps else FirstNamed(apps, name)
  }

  function FirstNamed(apps: seq<Application>, name: string): (r: seq<Application>)
    ensures |r| <= 1 && forall i | 0 <= i < |r| :: r[i] in apps && r[i].name == name
    ensures r == [] ==> forall a <- apps :: a.name != name
  {
    if apps == [] then [] else if apps[0].name == name then [apps[0]] else FirstNamed(apps[1..], name)
  }

  ghost predicate MatrixOf(m: MatrixData, apps: seq<Application>, targets: seq<Target>) {
    && ColumnsOf(m.columns, targets) && |m.rows| == |apps|
    && forall i | 0 <= i < |apps| :: RowOf(m.rows[i], apps[i], m.columns)
  }

  /** None is the not-found answer. */
  method GetMatrix(apps: seq<Application>, targets: seq<Target>, name: string) returns (m: Option<MatrixData>)
    ensures m.None? <==> name != "all" && Selected(apps, name) == []
    ensures m.Some? ==> MatrixOf(m.value, Selected(apps, name), targets)
  {
    var selected := apps;
    if name != "all" {
      selected := [];
      for i := 0 to |apps|
        invariant selected == [] && FirstNamed(apps, name) == FirstNamed(apps[i..], name)
      {
        assert apps[i..][1..] == apps[i + 1..];
        if apps[i].name == name {
          selected := [apps[i]];
          break;
        }
      }
      if |selected| == 0 {
        return None;
      }
    }
    var cols := MatrixColumns(targets);
    var rows: seq<Row> := [];
    for i := 0 to |selected|
      invariant |rows| == i && forall j | 0 <= j < i :: RowOf(rows[j], selected[j], cols)
    {
      var r := MatrixRow(selected[i], cols);
      rows := rows + [r];
    }
    return Some(MatrixData(cols, rows));
  }

  // ----- The rendered table ---------------------------------------------

  function CellText(c: Cell): string {
    (if c.status == "" then "-" else c.status) + (if c.drift == Some(true) then "*" else "")
  }

  /** The last cell of a row with that (env, region): a linear scan from the right. */
  function LastCell(cells: seq<Cell>, p: Pair): Option<Cell> {
    if cells == [] then None
    else
      var c := cells[|cells| - 1];
      if Pair(Deref(c.env), Deref(c.region)) == p then Some(c) else LastCell(cells[..|cells| - 1], p)
  }

  function Entry(cells: seq<Cell>, p: Pair): string {
    match LastCell(cells, p) case Some(c) => CellText(c) case None => "-"
  }

  predicate Kept(c: Column, envFilter: string) { envFilter == "" || Deref(c.env) == envFilter }

  /** The pairs of the kept columns, in column order. */
  function KeptPairs(columns: seq<Column>, envFilter: string): seq<Pair> {
    if columns == [] then []
    else (if Kept(columns[0], envFilter) then [PairAt(columns[0])] else []) + KeptPairs(columns[1..], envFilter)
  }

  function Entries(cells: seq<Cell>, pairs: seq<Pair>): (r: seq<string>)
    ensures |r| == |pairs|
  {
    seq(|pairs|, i requires 0 <= i < |pairs| => Entry(cells, pairs[i]))
  }

  /** matrixColumnHeader; `upper` is strings.ToUpper. */
  function Header(upper: string -> string, p: Pair): string {
    var env := if p.env == "" then "?" else p.env;
    if p.region == "" then upper(env) else upper(env + "/" + p.region)
  }

  function Headers(upper: string -> string, pairs: seq<Pair>): (r: seq<string>)
    ensures |r| == |pairs|
  {
    seq(|pairs|, i requires 0 <= i < |pairs| => Header(upper, pairs[i]))
  }

  datatype Table = Table(headers: seq<string>, rows: seq<seq<string>>)

  /** The table by linear scans. */
  function Rendered(upper: string -> string, m: MatrixData, envFilter: string): Table {
    var pairs := KeptPairs(m.columns, envFilter);
    Table(["APPLICATION"] + Headers(upper, pairs),
          seq(|m.rows|, i requires 0 <= i < |m.rows| => [m.rows[i].application] + Entries(m.rows[i].cells, pairs)))
  }

  /** renderMatrix for an arbitrary matrix: the map index per row gives what the linear scan gives. */
  method RenderMatrix(upper: string -> string, m: MatrixData, envFilter: string) returns (t: Table)
    ensures t == Rendered(upper, m, envFilter)
  {
    var cols, headers := ResolveColumns(upper, m.columns, envFilter);
    var rows: seq<seq<string>> := [];
    for i := 0 to |m.rows|
      invariant |rows| == i
      invariant forall j | 0 <= j < i :: rows[j] == [m.rows[j].application] + Entries(m.rows[j].cells, cols)
    {
      var row := RenderRow(m.rows[i], cols);
      rows := rows + [row];
    }
    t := Table(headers, rows);
  }

  /** The column loop: the kept pairs and their headers grow together. */
  method ResolveColumns(upper: string -> string, columns: seq<Column>, envFilter: string)
    returns (cols: seq<Pair>, headers: seq<string>)
    ensures cols == KeptPairs(columns, envFilter) && headers == ["APPLICATION"] + Headers(upper, cols)
  {
    cols := [];
    headers := ["APPLICATION"];
    for i := 0 to |columns|
      invariant cols == KeptPairs(columns[..i], envFilter)
      invariant headers == ["APPLICATION"] + Headers(upper, cols)
    {
      KeptSnoc(columns[..i], columns[i], envFilter);
      assert columns[..i + 1] == columns[..i] + [columns[i]];
      var env := Deref(columns[i].env);
      if envFilter != "" && env != envFilter {
        continue;
      }
      var region := Deref(columns[i].region);
      HeadersSnoc(upper, cols, Pair(env, region));
      cols := cols + [Pair(env, region)];
      headers := headers + [Header(upper, Pair(env, region))];
    }
    assert columns[..|columns|] == columns;
  }

  lemma {:induction false} KeptSnoc(columns: seq<Column>, c: Column, envFilter: string)
    ensures KeptPairs(columns + [c], envFilter)
         == KeptPairs(columns, envFilter) + (if Kept(c, envFilter) then [PairAt(c)] else [])
  {
    if columns == [] {
      assert columns + [c] == [c];
    } else {
      assert (columns + [c])[1..] == columns[1..] + [c];
      KeptSnoc(columns[1..], c, envFilter);
    }
  }

  lemma HeadersSnoc(upper: string -> string, pairs: seq<Pair>, p: Pair)
    ensures Headers(upper, pairs + [p]) == Headers(upper, pairs) + [Header(upper, p)]
  {}

  /** The body of the row loop. */
  method RenderRow(r: Row, cols: seq<Pair>) returns (row: seq<string>)
    ensures row == [r.application] + Entries(r.cells, cols)
  {
    var byKey: map<Pair, Cell> := map[];
    for i := 0 to |r.cells|
      invariant forall p :: (p in byKey <==> LastCell(r.cells[..i], p).Some?)
      invariant forall p | p in byKey :: LastCell(r.cells[..i], p) == Some(byKey[p])
    {
      var cell := r.cells[i];
      assert r.cells[..i + 1][..i] == r.cells[..i];
      byKey := byKey[Pair(Deref(cell.env), Deref(cell.region)) := cell];
    }
    assert r.cells[..|r.cells|] == r.cells;
    row := [r.application];
    for j := 0 to |cols|
      invariant row == [r.application] + Entries(r.cells, cols[..j])
    {
      assert cols[..j + 1] == cols[..j] + [cols[j]];
      if cols[j] in byKey {
        row := row + [CellText(byKey[cols[j]])];
        continue;
      }
      row := row + ["-"];
    }
    assert cols[..|cols|] == cols;
  }

  // ----- Alignment ------------------------------------------------------

  lemma {:induction false} KeptAll(columns: seq<Column>)
    ensures KeptPairs(columns, "") == Pairs(columns)
  {
    if columns != [] {
      KeptAll(columns[1..]);
      assert Pairs(columns) == [PairAt(columns[0])] + Pairs(columns[1..]);
    }
  }

  /** In a row that has one cell per column of distinct pairs, the scan finds the column's own cell. */
  lemma {:induction false} OwnCell(cells: seq<Cell>, pairs: seq<Pair>, n: nat, i: nat)
    requires i < n <= |cells| == |pairs|
    requires forall j | 0 <= j < |cells| :: Pair(Deref(cells[j].env), Deref(cells[j].region)) == pairs[j]
    requires forall j, k | 0 <= j < k < |pairs| :: pairs[j] != pairs[k]
    ensures LastCell(cells[..n], pairs[i]) == Some(cells[i])
    decreases n
  {
    assert cells[..n][..n - 1] == cells[..n - 1];
    if i < n - 1 { OwnCell(cells, pairs, n - 1, i); }
  }

  lemma EntryOfOwnRow(r: Row, a: Application, cols: seq<Column>, targets: seq<Target>, i: nat)
    requires ColumnsOf(cols, targets) && RowOf(r, a, cols) && i < |cols|
    ensures Entry(r.cells, PairAt(cols[i])) == StatusText(StatusFromConditions(a.conditions))
  {
    PairLessIsStrict();
    var pairs := Pairs(cols);
    forall j, k | 0 <= j < k < |pairs| ensures pairs[j] != pairs[k] {
      assert PairLess(pairs[j], pairs[k]);
    }
    OwnCell(r.cells, pairs, |r.cells|, i);
    assert r.cells[..|r.cells|] == r.cells;
    var text := StatusText(StatusFromConditions(a.conditions));
    assert CellText(r.cells[i]) == text + "" == text;
  }

  /**
   * A matrix from GetMatrix renders to a full rectangle: one header per column
   * and, below each, the row's own application's status; the "-" filler never shows.
   */
  lemma RenderedMatrixIsAligned(upper: string -> string, m: MatrixData, apps: seq<Application>, targets: seq<Target>,
                                i: nat, j: nat)
    requires MatrixOf(m, apps, targets) && i < |apps| && j < |m.columns|
    ensures var t := Rendered(upper, m, "");
            && |t.rows| == |apps| && |t.headers| == |m.columns| + 1 && |t.rows[i]| == |t.headers|
            && t.rows[i][0] == apps[i].name
            && t.rows[i][j + 1] == StatusText(StatusFromConditions(apps[i].conditions))
            && t.rows[i][j + 1] != "-"
            && t.headers[j + 1] == Header(upper, PairAt(m.columns[j]))
  {
    KeptAll(m.columns);
    EntryOfOwnRow(m.rows[i], apps[i], m.columns, targets, j);
  }

  // ----- The environment filter -----------------------------------------

  /** The entries of xs that stand under a kept column. */
  function Project(xs: seq<string>, columns: seq<Column>, envFilter: string): seq<string>
    requires |xs| == |columns|
  {
    if columns == [] then []
    else (if Kept(columns[0], envFilter) then [xs[0]] else []) + Project(xs[1..], columns[1..], envFilter)
  }

  lemma PairsCons(columns: seq<Column>)
    requires columns != []
    ensures Pairs(columns) == [PairAt(columns[0])] + Pairs(columns[1..])
  {}

  lemma EntriesJoin(cells: seq<Cell>, ps: seq<Pair>, qs: seq<Pair>)
    ensures Entries(cells, ps + qs) == Entries(cells, ps) + Entries(cells, qs)
  {
    hide Entry;
  }

  lemma HeadersJoin(upper: string -> string, ps: seq<Pair>, qs: seq<Pair>)
    ensures Headers(upper, ps + qs) == Headers(upper, ps) + Headers(upper, qs)
  {
    hide Header;
  }

  lemma ProjectCons(x: string, xs: seq<string>, columns: seq<Column>, envFilter: string)
    requires columns != [] && |xs| == |columns| - 1
    ensures Project([x] + xs, columns, envFilter)
         == (if Kept(columns[0], envFilter) then [x] else []) + Project(xs, columns[1..], envFilter)
  {
    assert ([x] + xs)[1..] == xs;
  }

  lemma {:induction false} ProjectEntries(cells: seq<Cell>, columns: seq<Column>, envFilter: string)
    ensures Entries(cells, KeptPairs(columns, envFilter)) == Project(Entries(cells, Pairs(columns)), columns, envFilter)
  {
    if columns != [] {
      var p, rest := PairAt(columns[0]), columns[1..];
      ProjectEntries(cells, rest, envFilter);
      PairsCons(columns);
      EntriesJoin(cells, [p], Pairs(rest));
      EntriesJoin(cells, if Kept(columns[0], envFilter) then [p] else [], KeptPairs(rest, envFilter));
      assert Entries(cells, [p]) == [Entry(cells, p)] && Entries(cells, []) == [];
      ProjectCons(Entry(cells, p), Entries(cells, Pairs(rest)), columns, envFilter);
    }
  }

  lemma {:induction false} ProjectHeaders(upper: string -> string, columns: seq<Column>, envFilter: string)
    ensures Headers(upper, KeptPairs(columns, envFilter)) == Project(Headers(upper, Pairs(columns)), columns, envFilter)
  {
    if columns != [] {
      var p, rest := PairAt(columns[0]), columns[1..];
      ProjectHeaders(upper, rest, envFilter);
      PairsCons(columns);
      HeadersJoin(upper, [p], Pairs(rest));
      HeadersJoin(upper, if Kept(columns[0], envFilter) then [p] else [], KeptPairs(rest, envFilter));
      assert Headers(upper, [p]) == [Header(upper, p)] && Headers(upper, []) == [];
      ProjectCons(Header(upper, p), Headers(upper, Pairs(rest)), columns, envFilter);
    }
  }

  /** Filtering the columns and then rendering is rendering and then dropping those columns. */
  lemma FilterIsProjection(upper: string -> string, m: MatrixData, envFilter: string, i: nat)
    requires i < |m.rows|
    ensures var full, t := Rendered(upper, m, ""), Rendered(upper, m, envFilter);
            && |full.headers| == |m.columns| + 1 && |full.rows[i]| == |m.columns| + 1
            && t.headers == [full.headers[0]] + Project(full.headers[1..], m.columns, envFilter)
            && t.rows[i] == [full.rows[i][0]] + Project(full.rows[i][1..], m.columns, envFilter)
  {
    KeptAll(m.columns);
    ProjectEntries(m.rows[i].cells, m.columns, envFilter);
    ProjectHeaders(upper, m.columns, envFilter);
    var full := Rendered(upper, m, "");
    assert full.headers[1..] == Headers(upper, Pairs(m.columns));
    assert full.rows[i][1..] == Entries(m.rows[i].cells, Pairs(m.columns));
  }
}
