/** `Fuzzy.fuzzy_join`: a left join of a target frame onto an anchor frame, matching
    the anchor's text column against the distinct values of the target's. */
module FuzzyJoin {
  import opened Wrappers
  import opened Frames
  import opened FuzzyQuery

  /** The arguments of `fuzzy_join` other than the two frames. */
  datatype JoinArgs = JoinArgs(
    anchorColumn: string,
    targetColumn: string,
    threshold: Value,
    algorithm: string,
    displayColumns: seq<string>,
    approach: string)

  /** How the distinct target values are handed to the query functions: `AsArray` is
      what the code does (`Series.unique()` is a numpy array), `AsList` what it means. */
  datatype Container = AsList | AsArray

  function MatchColumn(anchorColumn: string, targetColumn: string): string
  {
    "f_" + anchorColumn + "_" + targetColumn
  }

  function ScoreColumn(anchorColumn: string, targetColumn: string): string
  {
    "f_score_" + anchorColumn + "_" + targetColumn
  }

  function DisplayColumn(col: string): string
  {
    "target_" + col
  }

  function DisplayColumns(cols: seq<string>): (r: seq<string>)
    ensures |r| == |cols|
    ensures forall k :: 0 <= k < |cols| ==> r[k] == DisplayColumn(cols[k])
  {
    if |cols| == 0 then [] else [DisplayColumn(cols[0])] + DisplayColumns(cols[1..])
  }

  /** The columns a join assigns, in order: the match column first, then in best-match
      mode the score column and one column per display column (`NewColumnsAllDistinct`
      shows they are different names when the display columns are). */
  function NewColumns(args: JoinArgs): (r: seq<string>)
    ensures |r| > 0 && r[0] == MatchColumn(args.anchorColumn, args.targetColumn)
    ensures |r| == if args.approach == "best_match" then 2 + |args.displayColumns| else 1
    ensures args.approach == "best_match" ==>
      r[1] == ScoreColumn(args.anchorColumn, args.targetColumn) && r[2..] == DisplayColumns(args.displayColumns)
  {
    if args.approach == "best_match" then
      [MatchColumn(args.anchorColumn, args.targetColumn), ScoreColumn(args.anchorColumn, args.targetColumn)]
        + DisplayColumns(args.displayColumns)
    else
      [MatchColumn(args.anchorColumn, args.targetColumn)]
  }

  /** The generated names never collide with each other, except two display columns
      built from the same name. */
  lemma NewColumnsDistinct(args: JoinArgs)
    ensures MatchColumn(args.anchorColumn, args.targetColumn) != ScoreColumn(args.anchorColumn, args.targetColumn)
    ensures forall c :: MatchColumn(args.anchorColumn, args.targetColumn) != DisplayColumn(c)
    ensures forall c :: ScoreColumn(args.anchorColumn, args.targetColumn) != DisplayColumn(c)
  {
    var m := MatchColumn(args.anchorColumn, args.targetColumn);
    var s := ScoreColumn(args.anchorColumn, args.targetColumn);
    assert |m| + 6 == |s|;
    assert m[0] == 'f' && s[0] == 'f';
    forall c ensures DisplayColumn(c)[0] == 't' { }
  }

  /** `res if res else np.nan` on the matched text: the text of the match, or missing. */
  function TextCell(m: Option<FuzzyResult>): (c: Cell)
    ensures m.None? ==> c.None?
    ensures c.Some? ==> m.Some? && c == Some(Str(m.value.text))
    ensures m.Some? && m.value.text != "" ==> c == Some(Str(m.value.text))
    ensures c.Some? <==> m.Some? && m.value.text != ""
  {
    if m.Some? && m.value.text != "" then Some(Str(m.value.text)) else None
  }

  /** `res if res else np.nan` on the score: the score of the match, or missing; only a
      zero score of a match is lost. */
  function ScoreCell(m: Option<FuzzyResult>): (c: Cell)
    ensures m.None? ==> c.None?
    ensures m.Some? && m.value.score > 0 ==> c == Some(Int(m.value.score))
    ensures c.Some? <==> m.Some? && m.value.score != 0
  {
    if m.Some? && m.value.score != 0 then Some(Int(m.value.score)) else None
  }

  /** The first row whose `col` cell is the string `text`. */
  function FirstRow(rows: seq<Row>, col: string, text: string): (r: Option<nat>)
    requires HasColumn(rows, col)
    ensures r.Some? ==> r.value < |rows| && rows[r.value][col] == Some(Str(text))
    ensures r.Some? ==> forall j :: 0 <= j < r.value ==> rows[j][col] != Some(Str(text))
    ensures r.None? ==> forall j :: 0 <= j < |rows| ==> rows[j][col] != Some(Str(text))
  {
    if |rows| == 0 then None
    else if rows[0][col] == Some(Str(text)) then Some(0)
    else
      var rest := FirstRow(rows[1..], col, text);
      if rest.Some? then Some(rest.value + 1) else None
  }

  function Nones(n: nat): (r: seq<Cell>)
    ensures |r| == n && forall k :: 0 <= k < n ==> r[k] == None
  {
    seq(n, _ => None)
  }

  function CellsOf(row: Row, cols: seq<string>): (r: seq<Cell>)
    requires forall c :: c in cols ==> c in row
    ensures |r| == |cols| && forall k :: 0 <= k < |cols| ==> r[k] == row[cols[k]]
  {
    if |cols| == 0 then [] else [row[cols[0]]] + CellsOf(row, cols[1..])
  }

  /** The display cells of one anchor row: taken from the first target row whose target
      column equals the matched text, all missing when there is no such row (a missing
      match equals no row). A display column the target lacks raises `KeyError`, but
      only when a row was found. */
  function DisplayCells(target: Table, targetColumn: string, m: Option<FuzzyResult>, display: seq<string>)
    : (r: Result<seq<Cell>, Error>)
    requires WellFormed(target) && HasColumn(target.rows, targetColumn)
    ensures r.Err? <==>
      m.Some? && FirstRow(target.rows, targetColumn, m.value.text).Some?
      && exists c :: c in display && c !in ColumnSet(target.columns)
    ensures r.Err? ==> r.error == KeyError
    ensures r.Ok? ==> |r.value| == |display|
    ensures r.Ok? && (m.None? || FirstRow(target.rows, targetColumn, m.value.text).None?) ==>
      forall k :: 0 <= k < |display| ==> r.value[k] == None
    ensures r.Ok? && m.Some? && FirstRow(target.rows, targetColumn, m.value.text).Some? ==>
      forall k :: 0 <= k < |display| ==>
        r.value[k] == target.rows[FirstRow(target.rows, targetColumn, m.value.text).value][display[k]]
  {
    if m.None? then Ok(Nones(|display|))
    else
      var first := FirstRow(target.rows, targetColumn, m.value.text);
      if first.None? then Ok(Nones(|display|))
      else if forall c :: c in display ==> c in ColumnSet(target.columns) then
        Ok(CellsOf(target.rows[first.value], display))
      else
        Err(KeyError)
  }

  /** The columns a best-match row gains, and the cells it gains under them. */
  function BestCells(m: Option<FuzzyResult>, display: seq<Cell>): seq<Cell>
  {
    [TextCell(m), ScoreCell(m)] + display
  }

  /** `__fuzzy_match_best_conditional` on one anchor row, written into the row. */
  function BestRow(fuzz: Scorers, row: Row, target: Table, args: JoinArgs, choices: Choices): (r: Result<Row, Error>)
    requires args.anchorColumn in row
    requires WellFormed(target) && HasColumn(target.rows, args.targetColumn)
    requires args.approach == "best_match"
    ensures r.Err? ==> r.error == ValueError || r.error == KeyError
    ensures r.Ok? ==> r.value.Keys == row.Keys + ColumnSet(NewColumns(args))
    ensures r.Ok? ==> forall c :: c in row && c !in NewColumns(args) ==> r.value[c] == row[c]
  {
    var m := FuzzyMatchBest(fuzz, row[args.anchorColumn], choices, args.algorithm, args.threshold);
    if m.Err? then Err(m.error)
    else
      var d := DisplayCells(target, args.targetColumn, m.value, args.displayColumns);
      if d.Err? then Err(d.error)
      else Ok(Assign(row, NewColumns(args), BestCells(m.value, d.value)))
  }

  /** The all-match column of one anchor row. */
  function AllRow(fuzz: Scorers, row: Row, args: JoinArgs, choices: Choices): (r: Result<Row, Error>)
    requires args.anchorColumn in row
    requires args.approach != "best_match"
    ensures r.Err? ==> r.error == ValueError
    ensures r.Ok? ==> r.value.Keys == row.Keys + ColumnSet(NewColumns(args))
    ensures r.Ok? ==> forall c :: c in row && c !in NewColumns(args) ==> r.value[c] == row[c]
  {
    var m := AllMatchSpec(fuzz, row[args.anchorColumn], choices, args.algorithm, args.threshold);
    if m.Err? then Err(m.error)
    else Ok(row[MatchColumn(args.anchorColumn, args.targetColumn) := Some(Matches(m.value))])
  }

  function JoinRow(fuzz: Scorers, row: Row, target: Table, args: JoinArgs, choices: Choices): (r: Result<Row, Error>)
    requires args.anchorColumn in row
    requires WellFormed(target) && HasColumn(target.rows, args.targetColumn)
    ensures r.Err? ==> r.error == ValueError || r.error == KeyError
    ensures r.Ok? ==> r.value.Keys == row.Keys + ColumnSet(NewColumns(args))
    ensures r.Ok? ==> forall c :: c in row && c !in NewColumns(args) ==> r.value[c] == row[c]
  {
    if args.approach == "best_match" then BestRow(fuzz, row, target, args, choices)
    else AllRow(fuzz, row, args, choices)
  }

  /** The outcomes of a row-by-row computation gathered into one: the first error, or
      else every row's value, in order. */
  function Collect(rs: seq<Result<Row, Error>>): (r: Result<seq<Row>, Error>)
    ensures r.Ok? ==> |r.value| == |rs|
    ensures r.Err? ==> Err(r.error) in rs
  {
    if |rs| == 0 then Ok([])
    else
      var n := |rs| - 1;
      var init := Collect(rs[..n]);
      if init.Err? then Err(init.error)
      else if rs[n].Err? then Err(rs[n].error)
      else Ok(init.value + [rs[n].value])
  }

  /** A gathered success holds every row's value. */
  lemma {:induction false} CollectOk(rs: seq<Result<Row, Error>>)
    requires Collect(rs).Ok?
    ensures forall i :: 0 <= i < |rs| ==> rs[i] == Ok(Collect(rs).value[i])
  {
    if |rs| > 0 {
      var n := |rs| - 1;
      CollectOk(rs[..n]);
      forall i | 0 <= i < n ensures rs[i] == Ok(Collect(rs).value[i]) {
        assert rs[..n][i] == rs[i];
      }
    }
  }

  /** A gathered failure is the error of the first row that fails. */
  lemma {:induction false} CollectErr(rs: seq<Result<Row, Error>>) returns (i: nat)
    requires Collect(rs).Err?
    ensures i < |rs| && rs[i] == Err(Collect(rs).error)
    ensures forall j :: 0 <= j < i ==> rs[j].Ok?
  {
    var n := |rs| - 1;
    if Collect(rs[..n]).Err? {
      i := CollectErr(rs[..n]);
      assert rs[..n][i] == rs[i];
      assert forall j :: 0 <= j < i ==> rs[..n][j] == rs[j];
    } else {
      CollectOk(rs[..n]);
      assert forall j :: 0 <= j < n ==> rs[..n][j] == rs[j];
      i := n;
    }
  }

  /** One more row, gathered onto the outcome of the rows before it. */
  lemma CollectStep(rs: seq<Result<Row, Error>>, i: nat, out: seq<Row>)
    requires i < |rs| && Collect(rs[..i]) == Ok(out)
    ensures Collect(rs[..i + 1]) == if rs[i].Err? then Err(rs[i].error) else Ok(out + [rs[i].value])
  {
    assert rs[..i + 1][..i] == rs[..i];
  }

  /** A failure among the first rows is the failure of all of them. */
  lemma {:induction false} CollectPrefixErr(rs: seq<Result<Row, Error>>, n: nat)
    requires n <= |rs| && Collect(rs[..n]).Err?
    ensures Collect(rs) == Collect(rs[..n])
    decreases |rs| - n
  {
    if n < |rs| {
      assert rs[..n + 1][..n] == rs[..n];
      CollectPrefixErr(rs, n + 1);
    } else {
      assert rs[..n] == rs;
    }
  }

  /** The outcome of joining each anchor row on its own. */
  function RowResults(fuzz: Scorers, rows: seq<Row>, target: Table, args: JoinArgs, choices: Choices)
    : (r: seq<Result<Row, Error>>)
    requires HasColumn(rows, args.anchorColumn)
    requires WellFormed(target) && HasColumn(target.rows, args.targetColumn)
    ensures |r| == |rows|
    ensures forall i :: 0 <= i < |rows| ==> r[i] == JoinRow(fuzz, rows[i], target, args, choices)
  {
    seq(|rows|, i requires 0 <= i < |rows| => JoinRow(fuzz, rows[i], target, args, choices))
  }

  /** `anchor_df.apply(..., axis=1)`: every row is joined, and the first row that raises
      aborts the whole join with its exception. */
  function JoinRows(fuzz: Scorers, rows: seq<Row>, target: Table, args: JoinArgs, choices: Choices)
    : (r: Result<seq<Row>, Error>)
    requires HasColumn(rows, args.anchorColumn)
    requires WellFormed(target) && HasColumn(target.rows, args.targetColumn)
    ensures r.Err? ==> r.error == ValueError || r.error == KeyError
    ensures r.Ok? ==> |r.value| == |rows|
  {
    Collect(RowResults(fuzz, rows, target, args, choices))
  }

  /** A successful join is the row-by-row join. */
  lemma JoinRowsOk(fuzz: Scorers, rows: seq<Row>, target: Table, args: JoinArgs, choices: Choices)
    requires HasColumn(rows, args.anchorColumn)
    requires WellFormed(target) && HasColumn(target.rows, args.targetColumn)
    requires JoinRows(fuzz, rows, target, args, choices).Ok?
    ensures forall i :: 0 <= i < |rows| ==>
      JoinRow(fuzz, rows[i], target, args, choices) == Ok(JoinRows(fuzz, rows, target, args, choices).value[i])
  {
    CollectOk(RowResults(fuzz, rows, target, args, choices));
  }

  /** The rows of a successful `apply` fit the anchor's columns widened by the new ones,
      one per anchor row, each keeping its anchor row's other cells. */
  lemma JoinRowsShape(fuzz: Scorers, anchor: Table, target: Table, args: JoinArgs, choices: Choices)
    requires WellFormed(anchor) && HasColumn(anchor.rows, args.anchorColumn)
    requires WellFormed(target) && HasColumn(target.rows, args.targetColumn)
    requires JoinRows(fuzz, anchor.rows, target, args, choices).Ok?
    ensures var rs := JoinRows(fuzz, anchor.rows, target, args, choices).value;
      && |rs| == |anchor.rows|
      && WellFormed(Table(AddColumns(anchor.columns, NewColumns(args)), rs, anchor.textColumns))
      && forall i, c :: 0 <= i < |anchor.rows| && c in anchor.rows[i] && c !in NewColumns(args) ==>
           rs[i][c] == anchor.rows[i][c]
  {
    JoinRowsOk(fuzz, anchor.rows, target, args, choices);
  }

  /** A failed join fails with the exception of its first failing row. */
  lemma JoinRowsErr(fuzz: Scorers, rows: seq<Row>, target: Table, args: JoinArgs, choices: Choices)
      returns (i: nat)
    requires HasColumn(rows, args.anchorColumn)
    requires WellFormed(target) && HasColumn(target.rows, args.targetColumn)
    requires JoinRows(fuzz, rows, target, args, choices).Err?
    ensures i < |rows|
    ensures JoinRow(fuzz, rows[i], target, args, choices) == Err(JoinRows(fuzz, rows, target, args, choices).error)
    ensures forall j :: 0 <= j < i ==> JoinRow(fuzz, rows[j], target, args, choices).Ok?
  {
    i := CollectErr(RowResults(fuzz, rows, target, args, choices));
  }

  /** The distinct values of the target column, as the query functions receive them. */
  function TargetChoices(container: Container, target: Table, targetColumn: string): (r: Choices)
    requires HasColumn(target.rows, targetColumn)
    ensures r.items == Unique(Column(target.rows, targetColumn))
    ensures r.PyList? <==> container.AsList?
  {
    var values := Unique(Column(target.rows, targetColumn));
    match container
    case AsList => PyList(values)
    case AsArray => NpArray(values)
  }

  /** The column checks `fuzzy_join` makes after the emptiness check. Once they pass,
      every anchor row has a cell to query and every target row a value to match. */
  predicate ColumnsOk(anchor: Table, target: Table, args: JoinArgs)
    ensures ColumnsOk(anchor, target, args) && WellFormed(anchor) && WellFormed(target) ==>
      HasColumn(anchor.rows, args.anchorColumn) && HasColumn(target.rows, args.targetColumn)
  {
    && args.anchorColumn in ColumnSet(anchor.columns)
    && args.targetColumn in ColumnSet(target.columns)
    && args.anchorColumn in anchor.textColumns
    && args.targetColumn in target.textColumns
  }

  /** The keys of `fuzzy_approach`. The two accepted approaches are told apart by the
      columns they assign: `all_match` assigns the match column alone. */
  predicate ApproachOk(args: JoinArgs)
    ensures ApproachOk(args) ==>
      (args.approach == "all_match" <==> NewColumns(args) == [MatchColumn(args.anchorColumn, args.targetColumn)])
  {
    args.approach == "best_match" || args.approach == "all_match"
  }

  /** `fuzzy_join` as a function of the frames, with the distinct target values passed
      in the given container. */
  function JoinTable(fuzz: Scorers, anchor: Table, target: Table, args: JoinArgs, container: Container)
    : (r: Result<Table, Error>)
    requires WellFormed(anchor) && WellFormed(target)
    ensures (r == Err(EmptyDataFrame)) <==> (IsEmpty(anchor) || IsEmpty(target))
    ensures (r == Err(MissingColumns)) <==>
      (!IsEmpty(anchor) && !IsEmpty(target) && !ColumnsOk(anchor, target, args))
    ensures (r == Err(InvalidFuzzyAlgorithm)) <==>
      (!IsEmpty(anchor) && !IsEmpty(target) && ColumnsOk(anchor, target, args) && !ApproachOk(args))
    ensures r.Ok? ==>
      && WellFormed(r.value)
      && r.value.columns == AddColumns(anchor.columns, NewColumns(args))
      && r.value.textColumns == anchor.textColumns
      && |r.value.rows| == |anchor.rows|
      && forall i, c :: 0 <= i < |anchor.rows| && c in anchor.rows[i] && c !in NewColumns(args) ==>
           r.value.rows[i][c] == anchor.rows[i][c]
  {
    if IsEmpty(anchor) || IsEmpty(target) then Err(EmptyDataFrame)
    else if !ColumnsOk(anchor, target, args) then Err(MissingColumns)
    else if !ApproachOk(args) then Err(InvalidFuzzyAlgorithm)
    else
      var choices := TargetChoices(container, target, args.targetColumn);
      var rows := JoinRows(fuzz, anchor.rows, target, args, choices);
      if rows.Err? then Err(rows.error)
      else
        JoinRowsShape(fuzz, anchor, target, args, choices);
        var cols := AddColumns(anchor.columns, NewColumns(args));
        Ok(Table(cols, rows.value, anchor.textColumns))
  }

  /** Distinct display columns give distinct `target_<c>` names. */
  lemma DisplayColumnsDistinct(cols: seq<string>)
    ensures Distinct(cols) ==> Distinct(DisplayColumns(cols))
  {
    var d := DisplayColumns(cols);
    forall i, j | 0 <= i < j < |d| ensures Distinct(cols) ==> d[i] != d[j] {
      DisplayColumnInjective(cols[i], cols[j]);
    }
  }

  /** The new columns of a join are pairwise different when the display columns are. */
  lemma NewColumnsAllDistinct(args: JoinArgs)
    requires Distinct(args.displayColumns)
    ensures Distinct(NewColumns(args))
  {
    NewColumnsDistinct(args);
    DisplayColumnsDistinct(args.displayColumns);
  }

  /** A successful join appends its new columns after the anchor's, in order: match,
      score, then the display columns as given, when none of them is already a column of
      the anchor. */
  lemma JoinColumnsOrder(fuzz: Scorers, anchor: Table, target: Table, args: JoinArgs, container: Container)
    requires WellFormed(anchor) && WellFormed(target)
    requires JoinTable(fuzz, anchor, target, args, container).Ok?
    requires Distinct(args.displayColumns)
    requires forall c :: c in NewColumns(args) ==> c !in anchor.columns
    ensures JoinTable(fuzz, anchor, target, args, container).value.columns == anchor.columns + NewColumns(args)
  {
    NewColumnsAllDistinct(args);
  }

  /** `target_<c>` determines `c`. */
  lemma DisplayColumnInjective(a: string, b: string)
    ensures DisplayColumn(a) == DisplayColumn(b) ==> a == b
  {
    if DisplayColumn(a) == DisplayColumn(b) {
      assert DisplayColumn(a)[7..] == a;
      assert DisplayColumn(b)[7..] == b;
    }
  }

  /** Where the cells of a best-match row land: the first two under the text and score
      columns, then one per display column (unless a later display column of the same
      name overwrites it). */
  lemma BestColumnsLand(row: Row, args: JoinArgs, cells: seq<Cell>)
    requires args.approach == "best_match"
    requires |cells| == |NewColumns(args)|
    ensures var out := Assign(row, NewColumns(args), cells);
      && out[MatchColumn(args.anchorColumn, args.targetColumn)] == cells[0]
      && out[ScoreColumn(args.anchorColumn, args.targetColumn)] == cells[1]
      && forall k :: 0 <= k < |args.displayColumns| && args.displayColumns[k] !in args.displayColumns[k + 1..] ==>
           out[DisplayColumn(args.displayColumns[k])] == cells[k + 2]
  {
    var names := NewColumns(args);
    var disp := DisplayColumns(args.displayColumns);
    NewColumnsDistinct(args);
    assert names[1..] == [names[1]] + disp;
    assert names[2..] == disp;
    assert names[0] !in names[1..];
    assert names[1] !in names[2..];
    AssignLast(row, names, cells, 0);
    AssignLast(row, names, cells, 1);
    forall k | 0 <= k < |args.displayColumns| && args.displayColumns[k] !in args.displayColumns[k + 1..]
      ensures Assign(row, names, cells)[names[k + 2]] == cells[k + 2]
    {
      assert names[k + 3..] == disp[k + 1..];
      if names[k + 2] in disp[k + 1..] {
        var j :| k + 1 <= j < |disp| && disp[j] == names[k + 2];
        DisplayColumnInjective(args.displayColumns[j], args.displayColumns[k]);
      }
      AssignLast(row, names, cells, k + 2);
    }
  }

  /** One best-match row: the text and score columns hold the (falsy-to-missing) query
      result, each display column its display cell. */
  lemma BestRowCells(fuzz: Scorers, row: Row, target: Table, args: JoinArgs, choices: Choices)
    requires args.anchorColumn in row
    requires WellFormed(target) && HasColumn(target.rows, args.targetColumn)
    requires args.approach == "best_match"
    requires BestRow(fuzz, row, target, args, choices).Ok?
    ensures FuzzyMatchBest(fuzz, row[args.anchorColumn], choices, args.algorithm, args.threshold).Ok?
    ensures var m := FuzzyMatchBest(fuzz, row[args.anchorColumn], choices, args.algorithm, args.threshold).value;
      var out := BestRow(fuzz, row, target, args, choices).value;
      var d := DisplayCells(target, args.targetColumn, m, args.displayColumns);
      && out[MatchColumn(args.anchorColumn, args.targetColumn)] == TextCell(m)
      && out[ScoreColumn(args.anchorColumn, args.targetColumn)] == ScoreCell(m)
      && d.Ok?
      && forall k :: 0 <= k < |args.displayColumns| && args.displayColumns[k] !in args.displayColumns[k + 1..] ==>
           out[DisplayColumn(args.displayColumns[k])] == d.value[k]
  {
    var m := FuzzyMatchBest(fuzz, row[args.anchorColumn], choices, args.algorithm, args.threshold).value;
    var d := DisplayCells(target, args.targetColumn, m, args.displayColumns).value;
    BestColumnsLand(row, args, BestCells(m, d));
  }

  /** Row `i` of a successful join is the join of anchor row `i`. */
  lemma JoinTableRow(fuzz: Scorers, anchor: Table, target: Table, args: JoinArgs, container: Container, i: nat)
    requires WellFormed(anchor) && WellFormed(target)
    requires JoinTable(fuzz, anchor, target, args, container).Ok?
    requires i < |anchor.rows|
    ensures !IsEmpty(anchor) && !IsEmpty(target) && ColumnsOk(anchor, target, args) && ApproachOk(args)
    ensures args.anchorColumn in anchor.rows[i] && HasColumn(target.rows, args.targetColumn)
    ensures JoinRow(fuzz, anchor.rows[i], target, args, TargetChoices(container, target, args.targetColumn))
      == Ok(JoinTable(fuzz, anchor, target, args, container).value.rows[i])
  {
    JoinRowsOk(fuzz, anchor.rows, target, args, TargetChoices(container, target, args.targetColumn));
  }

  /** What the best-match query of one row means: `m` is `None` exactly when no target
      value reaches the threshold, and otherwise a target value that reaches it and that
      no target value beats. */
  predicate IsBestMatch(f: Scorer, q: string, values: seq<Cell>, threshold: int, m: Option<FuzzyResult>)
    requires AllStr(values)
  {
    && (m.None? <==> forall j :: 0 <= j < |values| ==> f(q, values[j].value.s) < threshold)
    && (m.Some? ==>
         && Some(Str(m.value.text)) in values
         && m.value.score == f(q, m.value.text)
         && m.value.score >= threshold
         && forall j :: 0 <= j < |values| ==> f(q, values[j].value.s) <= m.value.score)
  }

  /** Querying the distinct values of a column is querying the column. */
  lemma BestOfDistinct(fuzz: Scorers, query: Cell, values: seq<Cell>, algorithm: string, threshold: Value)
    requires FuzzyMatchBest(fuzz, query, PyList(Unique(values)), algorithm, threshold).Ok?
    ensures ArgsOk(fuzz, algorithm, query, PyList(Unique(values)), threshold)
    ensures AllStr(values)
    ensures IsBestMatch(fuzz[algorithm], query.value.s, values, threshold.i,
      FuzzyMatchBest(fuzz, query, PyList(Unique(values)), algorithm, threshold).value)
  {
    var u := Unique(values);
    forall j | 0 <= j < |values| ensures IsStr(values[j]) && exists k :: 0 <= k < |u| && u[k] == values[j] {
      assert values[j] in u;
    }
  }

  /** Best-match mode, one anchor row of a successful join: the row's query was valid,
      every target value is a string, and the text and score cells come from the best
      match among the distinct target values (a falsy text or score becoming missing). */
  lemma JoinBestMatch(fuzz: Scorers, anchor: Table, target: Table, args: JoinArgs, i: nat)
    requires WellFormed(anchor) && WellFormed(target)
    requires JoinTable(fuzz, anchor, target, args, AsList).Ok?
    requires args.approach == "best_match"
    requires i < |anchor.rows|
    ensures ColumnsOk(anchor, target, args)
    ensures args.algorithm in fuzz && args.threshold.Int? && 0 <= args.threshold.i <= 100
    ensures IsNonEmptyStr(anchor.rows[i][args.anchorColumn])
    ensures AllStr(Column(target.rows, args.targetColumn))
    ensures
      var out := JoinTable(fuzz, anchor, target, args, AsList).value.rows[i];
      var m := FuzzyMatchBest(fuzz, anchor.rows[i][args.anchorColumn],
        TargetChoices(AsList, target, args.targetColumn), args.algorithm, args.threshold).value;
      && IsBestMatch(fuzz[args.algorithm], anchor.rows[i][args.anchorColumn].value.s,
           Column(target.rows, args.targetColumn), args.threshold.i, m)
      && out[MatchColumn(args.anchorColumn, args.targetColumn)] == TextCell(m)
      && out[ScoreColumn(args.anchorColumn, args.targetColumn)] == ScoreCell(m)
  {
    var choices := TargetChoices(AsList, target, args.targetColumn);
    JoinTableRow(fuzz, anchor, target, args, AsList, i);
    var row := anchor.rows[i];
    assert BestRow(fuzz, row, target, args, choices) == Ok(JoinTable(fuzz, anchor, target, args, AsList).value.rows[i]);
    BestRowCells(fuzz, row, target, args, choices);
    BestOfDistinct(fuzz, row[args.anchorColumn], Column(target.rows, args.targetColumn), args.algorithm, args.threshold);
  }

  /** Best-match mode: an anchor value that the target column holds verbatim, under a
      scorer that gives a string and itself the full score, is scored 100. */
  lemma JoinExactMatch(fuzz: Scorers, anchor: Table, target: Table, args: JoinArgs, i: nat)
    requires WellFormed(anchor) && WellFormed(target)
    requires JoinTable(fuzz, anchor, target, args, AsList).Ok?
    requires args.approach == "best_match"
    requires args.anchorColumn in ColumnSet(anchor.columns) && args.targetColumn in ColumnSet(target.columns)
    requires i < |anchor.rows|
    requires anchor.rows[i][args.anchorColumn] in Column(target.rows, args.targetColumn)
    requires args.algorithm in fuzz && forall s :: fuzz[args.algorithm](s, s) == 100
    ensures JoinTable(fuzz, anchor, target, args, AsList).value.rows[i][ScoreColumn(args.anchorColumn, args.targetColumn)]
      == Some(Int(100))
  {
    var values := Column(target.rows, args.targetColumn);
    var q := anchor.rows[i][args.anchorColumn];
    JoinBestMatch(fuzz, anchor, target, args, i);
    var f := fuzz[args.algorithm];
    var m := FuzzyMatchBest(fuzz, q, TargetChoices(AsList, target, args.targetColumn), args.algorithm, args.threshold).value;
    assert IsBestMatch(f, q.value.s, values, args.threshold.i, m);
    var j :| 0 <= j < |values| && values[j] == q;
    assert f(q.value.s, values[j].value.s) == 100;
    assert m.Some? && m.value.score == 100;
  }

  /** One best-match row: a display cell is the cell of the first target row holding
      the matched text, or missing when there is none. */
  lemma BestRowDisplay(fuzz: Scorers, row: Row, target: Table, args: JoinArgs, choices: Choices, k: nat)
    requires args.anchorColumn in row
    requires WellFormed(target) && HasColumn(target.rows, args.targetColumn)
    requires args.approach == "best_match"
    requires BestRow(fuzz, row, target, args, choices).Ok?
    requires k < |args.displayColumns| && args.displayColumns[k] !in args.displayColumns[k + 1..]
    ensures FuzzyMatchBest(fuzz, row[args.anchorColumn], choices, args.algorithm, args.threshold).Ok?
    ensures
      var out := BestRow(fuzz, row, target, args, choices).value;
      var m := FuzzyMatchBest(fuzz, row[args.anchorColumn], choices, args.algorithm, args.threshold).value;
      var first := if m.Some? then FirstRow(target.rows, args.targetColumn, m.value.text) else None;
      && (first.None? ==> out[DisplayColumn(args.displayColumns[k])] == None)
      && (first.Some? ==>
           && args.displayColumns[k] in target.rows[first.value]
           && out[DisplayColumn(args.displayColumns[k])] == target.rows[first.value][args.displayColumns[k]])
  {
    BestRowCells(fuzz, row, target, args, choices);
    var m := FuzzyMatchBest(fuzz, row[args.anchorColumn], choices, args.algorithm, args.threshold).value;
    if m.Some? && FirstRow(target.rows, args.targetColumn, m.value.text).Some? {
      assert args.displayColumns[k] in args.displayColumns;
    }
  }

  /** Best-match mode, one anchor row of a successful join: every display cell comes
      from the first target row whose target column holds the matched text, and is
      missing when no row holds it. */
  lemma JoinDisplay(fuzz: Scorers, anchor: Table, target: Table, args: JoinArgs, i: nat, k: nat)
    requires WellFormed(anchor) && WellFormed(target)
    requires JoinTable(fuzz, anchor, target, args, AsList).Ok?
    requires args.approach == "best_match"
    requires i < |anchor.rows|
    requires k < |args.displayColumns| && args.displayColumns[k] !in args.displayColumns[k + 1..]
    ensures HasColumn(target.rows, args.targetColumn) && args.anchorColumn in anchor.rows[i]
    ensures FuzzyMatchBest(fuzz, anchor.rows[i][args.anchorColumn],
        TargetChoices(AsList, target, args.targetColumn), args.algorithm, args.threshold).Ok?
    ensures
      var out := JoinTable(fuzz, anchor, target, args, AsList).value.rows[i];
      var m := FuzzyMatchBest(fuzz, anchor.rows[i][args.anchorColumn],
        TargetChoices(AsList, target, args.targetColumn), args.algorithm, args.threshold).value;
      var first := if m.Some? then FirstRow(target.rows, args.targetColumn, m.value.text) else None;
      && (first.None? ==> out[DisplayColumn(args.displayColumns[k])] == None)
      && (first.Some? ==>
           && args.displayColumns[k] in target.rows[first.value]
           && out[DisplayColumn(args.displayColumns[k])] == target.rows[first.value][args.displayColumns[k]])
  {
    var choices := TargetChoices(AsList, target, args.targetColumn);
    JoinTableRow(fuzz, anchor, target, args, AsList, i);
    assert BestRow(fuzz, anchor.rows[i], target, args, choices) == Ok(JoinTable(fuzz, anchor, target, args, AsList).value.rows[i]);
    BestRowDisplay(fuzz, anchor.rows[i], target, args, choices, k);
  }

  /** All-match mode, one anchor row of a successful join: exactly one column is added,
      and it holds the row's all-match list against the distinct target values. */
  lemma JoinAllMatch(fuzz: Scorers, anchor: Table, target: Table, args: JoinArgs, i: nat)
    requires WellFormed(anchor) && WellFormed(target)
    requires JoinTable(fuzz, anchor, target, args, AsList).Ok?
    requires args.approach != "best_match"
    requires i < |anchor.rows|
    ensures args.approach == "all_match"
    ensures JoinTable(fuzz, anchor, target, args, AsList).value.columns
      == AddColumns(anchor.columns, [MatchColumn(args.anchorColumn, args.targetColumn)])
    ensures ArgsOk(fuzz, args.algorithm, anchor.rows[i][args.anchorColumn],
      TargetChoices(AsList, target, args.targetColumn), args.threshold)
    ensures JoinTable(fuzz, anchor, target, args, AsList).value.rows[i][MatchColumn(args.anchorColumn, args.targetColumn)]
      == Some(Matches(AllMatches(fuzz[args.algorithm], anchor.rows[i][args.anchorColumn].value.s,
           StrChoices(Unique(Column(target.rows, args.targetColumn))), args.threshold.i)))
  {
    JoinTableRow(fuzz, anchor, target, args, AsList, i);
  }

  /** With the distinct target values passed as a list, a join whose checks pass and
      whose every query is well-typed succeeds. */
  lemma JoinSucceeds(fuzz: Scorers, anchor: Table, target: Table, args: JoinArgs)
    requires WellFormed(anchor) && WellFormed(target)
    requires !IsEmpty(anchor) && !IsEmpty(target) && ColumnsOk(anchor, target, args) && ApproachOk(args)
    requires args.algorithm in fuzz && args.threshold.Int? && 0 <= args.threshold.i <= 100
    requires forall i :: 0 <= i < |anchor.rows| ==> IsNonEmptyStr(anchor.rows[i][args.anchorColumn])
    requires forall j :: 0 <= j < |target.rows| ==> IsStr(target.rows[j][args.targetColumn])
    requires args.approach == "best_match" ==> forall c :: c in args.displayColumns ==> c in ColumnSet(target.columns)
    ensures JoinTable(fuzz, anchor, target, args, AsList).Ok?
  {
    var choices := TargetChoices(AsList, target, args.targetColumn);
    var values := Column(target.rows, args.targetColumn);
    assert values[0] in Unique(values);
    forall k | 0 <= k < |Unique(values)| ensures IsStr(Unique(values)[k]) {
      assert Unique(values)[k] in values;
    }
    var rows := JoinRows(fuzz, anchor.rows, target, args, choices);
    if rows.Err? {
      var i := JoinRowsErr(fuzz, anchor.rows, target, args, choices);
      assert ArgsOk(fuzz, args.algorithm, anchor.rows[i][args.anchorColumn], choices, args.threshold);
      assert false;
    }
  }

  /** The join as written: the distinct target values reach the query functions as a
      numpy array, which their guard refuses, so every join that passes its checks raises
      `ValueError`. */
  lemma JoinAsWrittenRaises(fuzz: Scorers, anchor: Table, target: Table, args: JoinArgs)
    requires WellFormed(anchor) && WellFormed(target)
    requires !IsEmpty(anchor) && !IsEmpty(target) && ColumnsOk(anchor, target, args) && ApproachOk(args)
    ensures JoinTable(fuzz, anchor, target, args, AsArray) == Err(ValueError)
  {
    var choices := TargetChoices(AsArray, target, args.targetColumn);
    var rows := JoinRows(fuzz, anchor.rows, target, args, choices);
    assert JoinRow(fuzz, anchor.rows[0], target, args, choices).Err?;
    if rows.Ok? {
      JoinRowsOk(fuzz, anchor.rows, target, args, choices);
      assert false;
    }
    var i := JoinRowsErr(fuzz, anchor.rows, target, args, choices);
  }

  /** The algorithm name is not among the upfront checks: a join with an unknown
      algorithm passes them, and the first row's query raises `ValueError`, which ends the
      whole join. */
  lemma JoinUnknownAlgorithmRaises(fuzz: Scorers, anchor: Table, target: Table, args: JoinArgs)
    requires WellFormed(anchor) && WellFormed(target)
    requires !IsEmpty(anchor) && !IsEmpty(target) && ColumnsOk(anchor, target, args) && ApproachOk(args)
    requires args.algorithm !in fuzz
    ensures JoinTable(fuzz, anchor, target, args, AsList) == Err(ValueError)
  {
    var choices := TargetChoices(AsList, target, args.targetColumn);
    var rows := JoinRows(fuzz, anchor.rows, target, args, choices);
    assert JoinRow(fuzz, anchor.rows[0], target, args, choices).Err?;
    if rows.Ok? {
      JoinRowsOk(fuzz, anchor.rows, target, args, choices);
      assert false;
    }
    var i := JoinRowsErr(fuzz, anchor.rows, target, args, choices);
  }

  /** The query of one anchor row and the cells written from its answer. */
  method QueryRow(fuzz: Scorers, row: Row, target: Table, args: JoinArgs, choices: Choices)
      returns (joined: Result<Row, Error>)
    requires args.anchorColumn in row
    requires WellFormed(target) && HasColumn(target.rows, args.targetColumn)
    ensures joined == JoinRow(fuzz, row, target, args, choices)
  {
    if args.approach == "best_match" {
      joined := BestRow(fuzz, row, target, args, choices);
    } else {
      var matches := FuzzyAllMatch(fuzz, row[args.anchorColumn], choices, args.algorithm, args.threshold);
      if matches.Err? {
        joined := Err(matches.error);
      } else {
        joined := Ok(row[MatchColumn(args.anchorColumn, args.targetColumn) := Some(Matches(matches.value))]);
      }
    }
  }

  /** The `apply` over the anchor rows: one query per row, in order, stopping at the
      first row that raises. */
  method ApplyRows(fuzz: Scorers, rows: seq<Row>, target: Table, args: JoinArgs, choices: Choices)
      returns (r: Result<seq<Row>, Error>)
    requires HasColumn(rows, args.anchorColumn)
    requires WellFormed(target) && HasColumn(target.rows, args.targetColumn)
    ensures r == JoinRows(fuzz, rows, target, args, choices)
  {
    ghost var rs := RowResults(fuzz, rows, target, args, choices);
    var out: seq<Row> := [];
    var i := 0;
    while i < |rows|
      invariant 0 <= i <= |rows|
      invariant Collect(rs[..i]) == Ok(out)
    {
      var joined := QueryRow(fuzz, rows[i], target, args, choices);
      assert joined == rs[i];
      CollectStep(rs, i, out);
      if joined.Err? {
        CollectPrefixErr(rs, i + 1);
        return Err(joined.error);
      }
      out := out + [joined.value];
      i := i + 1;
    }
    assert rs[..i] == rs;
    return Ok(out);
  }

  /** `Fuzzy.fuzzy_join`: checks the arguments, queries every anchor row, and only then
      assigns the new columns into `anchor` (nothing is written when it raises). */
  method FuzzyJoinFrames(fuzz: Scorers, anchor: DataFrame, target: DataFrame, args: JoinArgs) returns (err: Option<Error>)
    requires anchor.Valid() && target.Valid()
    modifies anchor
    ensures var r := JoinTable(fuzz, old(anchor.Snapshot()), old(target.Snapshot()), args, AsList);
      if r.Ok? then err == None && anchor.Snapshot() == r.value
      else err == Some(r.error) && anchor.Snapshot() == old(anchor.Snapshot())
  {
    var a := anchor.Snapshot();
    var t := target.Snapshot();
    if IsEmpty(a) || IsEmpty(t) {
      return Some(EmptyDataFrame);
    }
    if !ColumnsOk(a, t, args) {
      return Some(MissingColumns);
    }
    if !ApproachOk(args) {
      return Some(InvalidFuzzyAlgorithm);
    }
    var choices := TargetChoices(AsList, t, args.targetColumn);
    var rows := ApplyRows(fuzz, a.rows, t, args, choices);
    if rows.Err? {
      return Some(rows.error);
    }
    anchor.columns := AddColumns(a.columns, NewColumns(args));
    anchor.rows := rows.value;
    return None;
  }
}
