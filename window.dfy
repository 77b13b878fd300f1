/** `Fuzzy.window_fuzzy_join`: the fuzzy join run separately inside each window, a
    window being one value of a column both frames share. */
module WindowJoin {
  import opened Wrappers
  import opened Frames
  import opened FuzzyQuery
  import opened FuzzyJoin

  /** The rows of `t` in window `w`, as a frame with `t`'s columns. */
  function InWindow(t: Table, windowCol: string, w: Cell): (r: Table)
    requires WellFormed(t) && windowCol in ColumnSet(t.columns)
    ensures WellFormed(r) && r.columns == t.columns && r.textColumns == t.textColumns
  {
    SelectWellFormed(t, windowCol, w);
    Table(t.columns, Select(t.rows, windowCol, w), t.textColumns)
  }

  /** One window: joined against the target rows of the same window when there are
      any, passed through unchanged otherwise. A window without target rows never raises,
      and a window's frame has one row per anchor row of the window. */
  function WindowPart(fuzz: Scorers, anchor: Table, target: Table, windowCol: string, args: JoinArgs, w: Cell)
    : (r: Result<Table, Error>)
    requires WellFormed(anchor) && WellFormed(target)
    requires windowCol in ColumnSet(anchor.columns) && windowCol in ColumnSet(target.columns)
    ensures r.Err? ==> TargetHas(target, windowCol, w)
    ensures r.Ok? ==> |r.value.rows| == |Select(anchor.rows, windowCol, w)|
  {
    var wa := InWindow(anchor, windowCol, w);
    var wt := InWindow(target, windowCol, w);
    assert windowCol in wt.columns;
    if !IsEmpty(wt) then JoinTable(fuzz, wa, wt, args, AsList) else Ok(wa)
  }

  /** The frame `pd.DataFrame(data=[], columns=None)` the loop starts from. */
  const NoFrame := Table([], [], {})

  /** The loop over the windows `ws`: each window's frame concatenated onto the result
      so far; the first window that raises aborts the whole join, with its exception. */
  function WindowsJoin(fuzz: Scorers, anchor: Table, target: Table, windowCol: string, args: JoinArgs, ws: seq<Cell>)
    : (r: Result<Table, Error>)
    requires WellFormed(anchor) && WellFormed(target)
    requires windowCol in ColumnSet(anchor.columns) && windowCol in ColumnSet(target.columns)
    ensures r.Err? ==> exists k :: 0 <= k < |ws| && WindowPart(fuzz, anchor, target, windowCol, args, ws[k]) == Err(r.error)
  {
    if |ws| == 0 then Ok(NoFrame)
    else
      var init := WindowsJoin(fuzz, anchor, target, windowCol, args, ws[..|ws| - 1]);
      if init.Err? then init
      else
        var part := WindowPart(fuzz, anchor, target, windowCol, args, ws[|ws| - 1]);
        if part.Err? then part else Ok(Concat(init.value, part.value))
  }

  /** `window_fuzzy_join` as a function of the frames: `Ok(None)` when the window column
      is missing from either frame; otherwise the windows are the distinct window values
      of the anchor in order of first appearance. */
  function WindowJoinSpec(fuzz: Scorers, anchor: Table, target: Table, windowCol: string, args: JoinArgs)
    : (r: Result<Option<Table>, Error>)
    requires WellFormed(anchor) && WellFormed(target)
    ensures r == Ok(None) <==> windowCol !in ColumnSet(anchor.columns) || windowCol !in ColumnSet(target.columns)
  {
    if windowCol in ColumnSet(anchor.columns) && windowCol in ColumnSet(target.columns) then
      var ws := Unique(Column(anchor.rows, windowCol));
      var r := WindowsJoin(fuzz, anchor, target, windowCol, args, ws);
      if r.Err? then Err(r.error) else Ok(Some(r.value))
    else
      Ok(None)
  }

  /** The anchor rows regrouped window by window, in the order of `ws`. */
  function Grouped(rows: seq<Row>, windowCol: string, ws: seq<Cell>): (r: seq<Row>)
    requires HasColumn(rows, windowCol)
    ensures forall x :: x in r ==> x in rows
    ensures HasColumn(r, windowCol)
  {
    if |ws| == 0 then []
    else Grouped(rows, windowCol, ws[..|ws| - 1]) + Select(rows, windowCol, ws[|ws| - 1])
  }

  /** The number of anchor rows that have a window value. */
  function CountPresent(rows: seq<Row>, windowCol: string): nat
    requires HasColumn(rows, windowCol)
  {
    if |rows| == 0 then 0
    else CountPresent(rows[..|rows| - 1], windowCol) + (if rows[|rows| - 1][windowCol].Some? then 1 else 0)
  }

  /** How many windows of `ws` the cell `c` falls into. */
  function CountWindows(ws: seq<Cell>, c: Cell): nat
  {
    if |ws| == 0 then 0
    else CountWindows(ws[..|ws| - 1], c) + (if CellEquals(c, ws[|ws| - 1]) then 1 else 0)
  }

  lemma {:induction false} CountWindowsDistinct(ws: seq<Cell>, c: Cell)
    requires Distinct(ws)
    ensures CountWindows(ws, c) == if c.Some? && c in ws then 1 else 0
  {
    if |ws| > 0 {
      var n := |ws| - 1;
      CountWindowsDistinct(ws[..n], c);
      assert ws == ws[..n] + [ws[n]];
      if c == ws[n] {
        assert c !in ws[..n];
      }
    }
  }

  /** One more anchor row adds one grouped row per window it falls into. */
  lemma {:induction false} GroupedAppendRow(rows: seq<Row>, row: Row, windowCol: string, ws: seq<Cell>)
    requires HasColumn(rows, windowCol) && windowCol in row
    ensures |Grouped(rows + [row], windowCol, ws)| == |Grouped(rows, windowCol, ws)| + CountWindows(ws, row[windowCol])
  {
    assert forall i :: 0 <= i < |rows| ==> rows[i] == (rows + [row])[i];
    if |ws| > 0 {
      GroupedAppendRow(rows, row, windowCol, ws[..|ws| - 1]);
      assert (rows + [row])[..|rows|] == rows;
    }
  }

  /** Regrouping by distinct windows that cover every present window value keeps exactly
      the rows that have a window value. */
  lemma {:induction false} GroupedCount(rows: seq<Row>, windowCol: string, ws: seq<Cell>)
    requires HasColumn(rows, windowCol)
    requires Distinct(ws)
    requires forall i :: 0 <= i < |rows| && rows[i][windowCol].Some? ==> rows[i][windowCol] in ws
    ensures |Grouped(rows, windowCol, ws)| == CountPresent(rows, windowCol)
  {
    if |rows| == 0 {
      GroupedEmpty(windowCol, ws);
    } else {
      var n := |rows| - 1;
      assert rows == rows[..n] + [rows[n]];
      GroupedAppendRow(rows[..n], rows[n], windowCol, ws);
      GroupedCount(rows[..n], windowCol, ws);
      CountWindowsDistinct(ws, rows[n][windowCol]);
    }
  }

  lemma {:induction false} GroupedEmpty(windowCol: string, ws: seq<Cell>)
    ensures Grouped([], windowCol, ws) == []
  {
    if |ws| > 0 {
      GroupedEmpty(windowCol, ws[..|ws| - 1]);
    }
  }

  /** Every row of `g` has a window value among `ws`. */
  predicate InWindows(g: seq<Row>, windowCol: string, ws: seq<Cell>)
  {
    forall p :: 0 <= p < |g| ==> windowCol in g[p] && g[p][windowCol] in ws
  }

  /** The rows of `g` come window by window, in the order of `ws`. */
  predicate WindowByWindow(g: seq<Row>, windowCol: string, ws: seq<Cell>)
    requires InWindows(g, windowCol, ws)
  {
    forall p, q :: 0 <= p < q < |g| ==> FirstIndex(ws, g[p][windowCol]) <= FirstIndex(ws, g[q][windowCol])
  }

  /** Appending the rows of the next window keeps the rows window by window. */
  lemma AppendWindow(gi: seq<Row>, sel: seq<Row>, windowCol: string, ws: seq<Cell>)
    requires |ws| > 0 && Distinct(ws)
    requires InWindows(gi, windowCol, ws[..|ws| - 1]) && WindowByWindow(gi, windowCol, ws[..|ws| - 1])
    requires forall q :: 0 <= q < |sel| ==> windowCol in sel[q] && sel[q][windowCol] == ws[|ws| - 1]
    ensures InWindows(gi + sel, windowCol, ws) && WindowByWindow(gi + sel, windowCol, ws)
  {
    var n := |ws| - 1;
    var g := gi + sel;
    assert ws == ws[..n] + [ws[n]];
    forall x | x in ws[..n] ensures FirstIndex(ws, x) == FirstIndex(ws[..n], x) {
      FirstIndexPrefix(ws[..n], [ws[n]], x);
    }
    assert FirstIndex(ws, ws[n]) == n;
    forall p | 0 <= p < |g| ensures windowCol in g[p] && g[p][windowCol] in ws {
      if p < |gi| { assert g[p] == gi[p]; } else { assert g[p] == sel[p - |gi|]; }
    }
    forall p, q | 0 <= p < q < |g|
      ensures FirstIndex(ws, g[p][windowCol]) <= FirstIndex(ws, g[q][windowCol])
    {
      if q < |gi| {
        assert g[p] == gi[p] && g[q] == gi[q];
      } else if p < |gi| {
        assert g[p] == gi[p] && g[q] == sel[q - |gi|];
      } else {
        assert g[p] == sel[p - |gi|] && g[q] == sel[q - |gi|];
      }
    }
  }

  /** The regrouped rows come window by window, in the order of `ws`. */
  lemma {:induction false} GroupedOrdered(rows: seq<Row>, windowCol: string, ws: seq<Cell>)
    requires HasColumn(rows, windowCol)
    requires Distinct(ws)
    ensures InWindows(Grouped(rows, windowCol, ws), windowCol, ws)
    ensures WindowByWindow(Grouped(rows, windowCol, ws), windowCol, ws)
  {
    if |ws| > 0 {
      var n := |ws| - 1;
      var sel := Select(rows, windowCol, ws[n]);
      GroupedOrdered(rows, windowCol, ws[..n]);
      forall q | 0 <= q < |sel| ensures windowCol in sel[q] && sel[q][windowCol] == ws[n] {
        assert sel[q] in sel;
      }
      AppendWindow(Grouped(rows, windowCol, ws[..n]), sel, windowCol, ws);
    }
  }

  lemma GroupedKeys(t: Table, windowCol: string, ws: seq<Cell>)
    requires WellFormed(t) && windowCol in ColumnSet(t.columns)
    ensures forall p :: 0 <= p < |Grouped(t.rows, windowCol, ws)| ==>
      Grouped(t.rows, windowCol, ws)[p].Keys == ColumnSet(t.columns)
  {
    var g := Grouped(t.rows, windowCol, ws);
    forall p | 0 <= p < |g| ensures g[p].Keys == ColumnSet(t.columns) {
      assert g[p] in t.rows;
      var j :| 0 <= j < |t.rows| && t.rows[j] == g[p];
    }
  }

  /** Whether the target has rows in window `w`. */
  predicate TargetHas(target: Table, windowCol: string, w: Cell)
    requires HasColumn(target.rows, windowCol)
  {
    |Select(target.rows, windowCol, w)| > 0
  }

  /** What one window's frame looks like: its rows are the anchor rows of the window,
      in order, with their anchor cells kept (the join's own columns aside); a window
      the target lacks gains no column. */
  predicate PartShaped(anchor: Table, target: Table, windowCol: string, args: JoinArgs, w: Cell, part: Table)
    requires HasColumn(anchor.rows, windowCol) && HasColumn(target.rows, windowCol)
  {
    var sel := Select(anchor.rows, windowCol, w);
    && WellFormed(part)
    && ColumnSet(anchor.columns) <= ColumnSet(part.columns)
    && |part.rows| == |sel|
    && (forall q, c :: 0 <= q < |sel| && c in ColumnSet(anchor.columns) && c !in NewColumns(args) ==>
          c in part.rows[q] && c in sel[q] && part.rows[q][c] == sel[q][c])
    && (!TargetHas(target, windowCol, w) ==> forall q :: 0 <= q < |sel| ==> part.rows[q].Keys == ColumnSet(anchor.columns))
  }

  /** A successful join of a well-formed frame keeps its columns and its cells. */
  lemma JoinKeepsAnchor(fuzz: Scorers, a: Table, t: Table, args: JoinArgs)
    requires WellFormed(a) && WellFormed(t)
    requires JoinTable(fuzz, a, t, args, AsList).Ok?
    ensures var r := JoinTable(fuzz, a, t, args, AsList).value;
      && ColumnSet(a.columns) <= ColumnSet(r.columns)
      && forall q, c :: 0 <= q < |a.rows| && c in ColumnSet(a.columns) && c !in NewColumns(args) ==>
           c in r.rows[q] && c in a.rows[q] && r.rows[q][c] == a.rows[q][c]
  {
    var r := JoinTable(fuzz, a, t, args, AsList).value;
    assert ColumnSet(r.columns) == ColumnSet(a.columns) + ColumnSet(NewColumns(args));
  }

  lemma WindowPartShape(fuzz: Scorers, anchor: Table, target: Table, windowCol: string, args: JoinArgs, w: Cell)
    requires WellFormed(anchor) && WellFormed(target)
    requires windowCol in ColumnSet(anchor.columns) && windowCol in ColumnSet(target.columns)
    requires WindowPart(fuzz, anchor, target, windowCol, args, w).Ok?
    ensures PartShaped(anchor, target, windowCol, args, w, WindowPart(fuzz, anchor, target, windowCol, args, w).value)
  {
    var wa := InWindow(anchor, windowCol, w);
    var wt := InWindow(target, windowCol, w);
    var sel := Select(anchor.rows, windowCol, w);
    assert wa.rows == sel;
    assert TargetHas(target, windowCol, w) <==> !IsEmpty(wt) by {
      assert windowCol in wt.columns;
    }
    if !IsEmpty(wt) {
      var part := JoinTable(fuzz, wa, wt, args, AsList).value;
      assert WindowPart(fuzz, anchor, target, windowCol, args, w).value == part;
      JoinKeepsAnchor(fuzz, wa, wt, args);
    } else {
      assert WindowPart(fuzz, anchor, target, windowCol, args, w).value == wa;
    }
  }

  /** The shape of a partial result `acc` against the regrouped rows `g` it stands
      for: well-formed, one row per grouped row, every anchor cell kept (the join's own
      columns aside), and every row of a window the target lacks missing in every column
      the anchor does not have. */
  predicate Shaped(anchor: Table, target: Table, windowCol: string, args: JoinArgs, g: seq<Row>, acc: Table)
    requires HasColumn(target.rows, windowCol)
  {
    && WellFormed(acc)
    && |acc.rows| == |g|
    && (|g| > 0 ==> ColumnSet(anchor.columns) <= ColumnSet(acc.columns))
    && (forall p, c :: 0 <= p < |g| && c in ColumnSet(anchor.columns) && c !in NewColumns(args) ==>
          c in acc.rows[p] && c in g[p] && acc.rows[p][c] == g[p][c])
    && (forall p, c ::
          (0 <= p < |g| && c in acc.rows[p] && c !in ColumnSet(anchor.columns)
           && windowCol in g[p] && !TargetHas(target, windowCol, g[p][windowCol])) ==>
          acc.rows[p][c] == None)
  }

  /** Anchor cells survive a concatenation on both sides. */
  lemma ConcatKeepsAnchorCells(keep: set<string>, newCols: seq<string>, gi: seq<Row>, init: Table, sel: seq<Row>, part: Table)
    requires WellFormed(init) && |init.rows| == |gi|
    requires |gi| > 0 ==> keep <= ColumnSet(init.columns)
    requires forall p, c :: 0 <= p < |gi| && c in keep && c !in newCols ==>
      c in init.rows[p] && c in gi[p] && init.rows[p][c] == gi[p][c]
    requires WellFormed(part) && |part.rows| == |sel| && keep <= ColumnSet(part.columns)
    requires forall q :: 0 <= q < |sel| ==> keep <= sel[q].Keys
    requires forall q, c :: 0 <= q < |sel| && c in keep && c !in newCols ==>
      part.rows[q][c] == sel[q][c]
    ensures var acc := Concat(init, part);
      forall p, c :: 0 <= p < |gi + sel| && c in keep && c !in newCols ==>
        c in acc.rows[p] && c in (gi + sel)[p] && acc.rows[p][c] == (gi + sel)[p][c]
  {
    var acc := Concat(init, part);
    var g := gi + sel;
    forall p, c | 0 <= p < |g| && c in keep && c !in newCols
      ensures c in acc.rows[p] && c in g[p] && acc.rows[p][c] == g[p][c]
    {
      if p < |gi| {
        ConcatCellLeft(init, part, p, c);
        assert g[p] == gi[p];
      } else {
        ConcatCellRight(init, part, p, c);
        assert g[p] == sel[p - |gi|];
        assert c in part.rows[p - |gi|];
      }
    }
  }

  /** Columns a target-less window never had stay missing through a concatenation. */
  lemma ConcatKeepsMissing(anchor: Table, target: Table, windowCol: string, gi: seq<Row>, init: Table,
                           sel: seq<Row>, part: Table, w: Cell)
    requires HasColumn(target.rows, windowCol)
    requires WellFormed(init) && |init.rows| == |gi|
    requires forall p, c ::
      (0 <= p < |gi| && c in init.rows[p] && c !in ColumnSet(anchor.columns)
       && windowCol in gi[p] && !TargetHas(target, windowCol, gi[p][windowCol])) ==>
      init.rows[p][c] == None
    requires WellFormed(part) && |part.rows| == |sel|
    requires forall q :: 0 <= q < |sel| ==> windowCol in sel[q] && sel[q][windowCol] == w
    requires !TargetHas(target, windowCol, w) ==>
      forall q :: 0 <= q < |sel| ==> part.rows[q].Keys == ColumnSet(anchor.columns)
    ensures var acc := Concat(init, part);
      forall p, c ::
        (0 <= p < |gi + sel| && c in acc.rows[p] && c !in ColumnSet(anchor.columns)
         && windowCol in (gi + sel)[p] && !TargetHas(target, windowCol, (gi + sel)[p][windowCol])) ==>
        acc.rows[p][c] == None
  {
    var acc := Concat(init, part);
    var g := gi + sel;
    forall p, c | 0 <= p < |g| && c in acc.rows[p] && c !in ColumnSet(anchor.columns)
        && windowCol in g[p] && !TargetHas(target, windowCol, g[p][windowCol])
      ensures acc.rows[p][c] == None
    {
      if p < |gi| {
        ConcatCellLeft(init, part, p, c);
        assert g[p] == gi[p];
      } else {
        ConcatCellRight(init, part, p, c);
        assert g[p] == sel[p - |gi|];
      }
    }
  }

  /** Concatenating one window's frame keeps the shape. */
  lemma ConcatShaped(anchor: Table, target: Table, windowCol: string, args: JoinArgs,
                     gi: seq<Row>, init: Table, w: Cell, part: Table)
    requires WellFormed(anchor) && WellFormed(target)
    requires windowCol in ColumnSet(anchor.columns) && windowCol in ColumnSet(target.columns)
    requires Shaped(anchor, target, windowCol, args, gi, init)
    requires PartShaped(anchor, target, windowCol, args, w, part)
    ensures Shaped(anchor, target, windowCol, args, gi + Select(anchor.rows, windowCol, w), Concat(init, part))
  {
    var sel := Select(anchor.rows, windowCol, w);
    SelectWellFormed(anchor, windowCol, w);
    assert forall q :: 0 <= q < |sel| ==> sel[q].Keys == ColumnSet(anchor.columns);
    assert forall q :: 0 <= q < |sel| ==> sel[q] in sel;
    ConcatKeepsAnchorCells(ColumnSet(anchor.columns), NewColumns(args), gi, init, sel, part);
    ConcatKeepsMissing(anchor, target, windowCol, gi, init, sel, part, w);
  }

  /** The result of the loop over `ws` has the shape of the anchor rows regrouped by `ws`. */
  lemma {:induction false} WindowsJoinShape(fuzz: Scorers, anchor: Table, target: Table, windowCol: string, args: JoinArgs, ws: seq<Cell>)
    requires WellFormed(anchor) && WellFormed(target)
    requires windowCol in ColumnSet(anchor.columns) && windowCol in ColumnSet(target.columns)
    requires WindowsJoin(fuzz, anchor, target, windowCol, args, ws).Ok?
    ensures Shaped(anchor, target, windowCol, args, Grouped(anchor.rows, windowCol, ws),
      WindowsJoin(fuzz, anchor, target, windowCol, args, ws).value)
  {
    if |ws| > 0 {
      var n := |ws| - 1;
      WindowsJoinShape(fuzz, anchor, target, windowCol, args, ws[..n]);
      GroupedKeys(anchor, windowCol, ws[..n]);
      WindowPartShape(fuzz, anchor, target, windowCol, args, ws[n]);
      ConcatShaped(anchor, target, windowCol, args, Grouped(anchor.rows, windowCol, ws[..n]),
        WindowsJoin(fuzz, anchor, target, windowCol, args, ws[..n]).value, ws[n],
        WindowPart(fuzz, anchor, target, windowCol, args, ws[n]).value);
    }
  }

  /** Every present window value of the anchor is one of its distinct window values. */
  lemma WindowsCover(anchor: Table, windowCol: string)
    requires WellFormed(anchor) && windowCol in ColumnSet(anchor.columns)
    ensures var ws := Unique(Column(anchor.rows, windowCol));
      && Distinct(ws)
      && forall i :: 0 <= i < |anchor.rows| && anchor.rows[i][windowCol].Some? ==> anchor.rows[i][windowCol] in ws
  {
    var col := Column(anchor.rows, windowCol);
    forall i | 0 <= i < |anchor.rows| && anchor.rows[i][windowCol].Some?
      ensures anchor.rows[i][windowCol] in Unique(col)
    {
      assert col[i] == anchor.rows[i][windowCol];
    }
  }

  /** Without missing window values, every row is counted. */
  lemma {:induction false} CountPresentAll(rows: seq<Row>, windowCol: string)
    requires HasColumn(rows, windowCol)
    requires forall i :: 0 <= i < |rows| ==> rows[i][windowCol].Some?
    ensures CountPresent(rows, windowCol) == |rows|
  {
    if |rows| > 0 {
      CountPresentAll(rows[..|rows| - 1], windowCol);
    }
  }

  /** The anchor rows in the order the window join emits them: window by window, in
      order of first appearance of the window value (`WindowOrder`), and within a window
      in anchor order (`WindowRowsInOrder`). */
  function Regrouped(anchor: Table, windowCol: string): (r: seq<Row>)
    requires WellFormed(anchor) && windowCol in ColumnSet(anchor.columns)
    ensures forall x :: x in r ==> x in anchor.rows
    ensures forall p :: 0 <= p < |r| ==> r[p].Keys == ColumnSet(anchor.columns)
  {
    GroupedKeys(anchor, windowCol, Unique(Column(anchor.rows, windowCol)));
    Grouped(anchor.rows, windowCol, Unique(Column(anchor.rows, windowCol)))
  }

  /** The window join emits one row per anchor row that has a window value: anchor rows
      whose window value is missing never match a window and are dropped. */
  lemma WindowJoinRowCount(fuzz: Scorers, anchor: Table, target: Table, windowCol: string, args: JoinArgs)
    requires WellFormed(anchor) && WellFormed(target)
    requires windowCol in ColumnSet(anchor.columns) && windowCol in ColumnSet(target.columns)
    requires WindowJoinSpec(fuzz, anchor, target, windowCol, args).Ok?
    requires WindowJoinSpec(fuzz, anchor, target, windowCol, args).value.Some?
    ensures |WindowJoinSpec(fuzz, anchor, target, windowCol, args).value.value.rows| == CountPresent(anchor.rows, windowCol)
  {
    var ws := Unique(Column(anchor.rows, windowCol));
    WindowsJoinShape(fuzz, anchor, target, windowCol, args, ws);
    WindowsCover(anchor, windowCol);
    GroupedCount(anchor.rows, windowCol, ws);
  }

  /** The windows are visited in order of first appearance in the anchor: a row of the
      regrouped anchor never has a window value that first appears later than that of a
      row after it. */
  lemma WindowOrder(anchor: Table, windowCol: string)
    requires WellFormed(anchor) && windowCol in ColumnSet(anchor.columns)
    ensures var g := Regrouped(anchor, windowCol);
      var col := Column(anchor.rows, windowCol);
      forall p, q :: 0 <= p < q < |g| ==>
        g[p][windowCol] in col && g[q][windowCol] in col
        && FirstIndex(col, g[p][windowCol]) <= FirstIndex(col, g[q][windowCol])
  {
    var col := Column(anchor.rows, windowCol);
    var ws := Unique(col);
    var g := Regrouped(anchor, windowCol);
    GroupedOrdered(anchor.rows, windowCol, ws);
    forall p, q | 0 <= p < q < |g|
      ensures g[p][windowCol] in col && g[q][windowCol] in col
      ensures FirstIndex(col, g[p][windowCol]) <= FirstIndex(col, g[q][windowCol])
    {
      UniqueRank(col, g[p][windowCol], g[q][windowCol]);
    }
  }

  /** Two distinct values in the order `unique()` lists them appear first in that order. */
  lemma UniqueRank(col: seq<Cell>, a: Cell, b: Cell)
    requires a in Unique(col) && b in Unique(col)
    requires FirstIndex(Unique(col), a) <= FirstIndex(Unique(col), b)
    ensures a in col && b in col && FirstIndex(col, a) <= FirstIndex(col, b)
  {
    var ws := Unique(col);
    var i := FirstIndex(ws, a);
    var j := FirstIndex(ws, b);
    UniqueFirstAppearance(col);
    if i < j {
      assert FirstIndex(col, ws[i]) < FirstIndex(col, ws[j]);
    }
  }

  /** The rows of window `w` among the regrouped rows: all rows of that window, in their
      order, when `w` is one of the windows `ws`, and none otherwise. */
  lemma {:induction false} GroupedWindowRows(rows: seq<Row>, windowCol: string, ws: seq<Cell>, w: Cell)
    requires HasColumn(rows, windowCol)
    requires Distinct(ws)
    ensures Select(Grouped(rows, windowCol, ws), windowCol, w)
      == if w.Some? && w in ws then Select(rows, windowCol, w) else []
  {
    if |ws| > 0 {
      var n := |ws| - 1;
      assert ws == ws[..n] + [ws[n]];
      GroupedWindowRows(rows, windowCol, ws[..n], w);
      SelectAppend(Grouped(rows, windowCol, ws[..n]), Select(rows, windowCol, ws[n]), windowCol, w);
      SelectTwice(rows, windowCol, ws[n], w);
      if w == ws[n] {
        assert w !in ws[..n];
      }
    }
  }

  /** Within each window the window join keeps anchor order: the regrouped rows of any
      window `w` are exactly the anchor rows of `w`, in the anchor's order. */
  lemma WindowRowsInOrder(anchor: Table, windowCol: string, w: Cell)
    requires WellFormed(anchor) && windowCol in ColumnSet(anchor.columns)
    ensures Select(Regrouped(anchor, windowCol), windowCol, w) == Select(anchor.rows, windowCol, w)
  {
    var ws := Unique(Column(anchor.rows, windowCol));
    GroupedWindowRows(anchor.rows, windowCol, ws, w);
    WindowsCover(anchor, windowCol);
    var sel := Select(anchor.rows, windowCol, w);
    assert |sel| > 0 ==> sel[0] in sel && sel[0] in anchor.rows;
  }

  /** When every anchor row has a window value, no row is lost. */
  lemma WindowJoinKeepsAllRows(fuzz: Scorers, anchor: Table, target: Table, windowCol: string, args: JoinArgs)
    requires WellFormed(anchor) && WellFormed(target)
    requires windowCol in ColumnSet(anchor.columns) && windowCol in ColumnSet(target.columns)
    requires forall i :: 0 <= i < |anchor.rows| ==> anchor.rows[i][windowCol].Some?
    requires WindowJoinSpec(fuzz, anchor, target, windowCol, args).Ok?
    requires WindowJoinSpec(fuzz, anchor, target, windowCol, args).value.Some?
    ensures |WindowJoinSpec(fuzz, anchor, target, windowCol, args).value.value.rows| == |anchor.rows|
  {
    WindowJoinRowCount(fuzz, anchor, target, windowCol, args);
    CountPresentAll(anchor.rows, windowCol);
  }

  /** Row `p` of the window join result is the regrouped anchor row `p`, its cells kept
      outside the join's own columns. */
  lemma WindowJoinKeepsCells(fuzz: Scorers, anchor: Table, target: Table, windowCol: string, args: JoinArgs)
    requires WellFormed(anchor) && WellFormed(target)
    requires windowCol in ColumnSet(anchor.columns) && windowCol in ColumnSet(target.columns)
    requires WindowJoinSpec(fuzz, anchor, target, windowCol, args).Ok?
    requires WindowJoinSpec(fuzz, anchor, target, windowCol, args).value.Some?
    ensures var t := WindowJoinSpec(fuzz, anchor, target, windowCol, args).value.value;
      var g := Regrouped(anchor, windowCol);
      && WellFormed(t)
      && |t.rows| == |g|
      && forall p, c :: 0 <= p < |g| && c in ColumnSet(anchor.columns) && c !in NewColumns(args) ==>
           c in t.rows[p] && c in g[p] && t.rows[p][c] == g[p][c]
  {
    WindowsJoinShape(fuzz, anchor, target, windowCol, args, Unique(Column(anchor.rows, windowCol)));
  }

  /** A row from a window the target has no rows for is passed through: missing in
      every column the anchor did not have. */
  lemma WindowJoinPassThrough(fuzz: Scorers, anchor: Table, target: Table, windowCol: string, args: JoinArgs)
    requires WellFormed(anchor) && WellFormed(target)
    requires windowCol in ColumnSet(anchor.columns) && windowCol in ColumnSet(target.columns)
    requires WindowJoinSpec(fuzz, anchor, target, windowCol, args).Ok?
    requires WindowJoinSpec(fuzz, anchor, target, windowCol, args).value.Some?
    ensures var t := WindowJoinSpec(fuzz, anchor, target, windowCol, args).value.value;
      var g := Regrouped(anchor, windowCol);
      && |t.rows| == |g|
      && forall p, c ::
        (0 <= p < |g| && c in t.rows[p] && c !in ColumnSet(anchor.columns)
         && !TargetHas(target, windowCol, g[p][windowCol])) ==>
        t.rows[p][c] == None
  {
    var ws := Unique(Column(anchor.rows, windowCol));
    WindowsJoinShape(fuzz, anchor, target, windowCol, args, ws);
  }

  /** Row `row` of the anchor came out as `out` scoped to its own window: when the target
      has rows in the row's window, the join's new columns of `out` hold the row joined
      against those target rows only, their distinct values being the candidates. */
  predicate RowScoped(fuzz: Scorers, target: Table, windowCol: string, args: JoinArgs, row: Row, out: Row)
    requires WellFormed(target) && windowCol in ColumnSet(target.columns)
  {
    windowCol in row && TargetHas(target, windowCol, row[windowCol]) ==>
      var wt := InWindow(target, windowCol, row[windowCol]);
      && args.anchorColumn in row
      && HasColumn(wt.rows, args.targetColumn)
      && var j := JoinRow(fuzz, row, wt, args, TargetChoices(AsList, wt, args.targetColumn));
         && j.Ok?
         && forall c :: c in NewColumns(args) ==> c in out && c in j.value && out[c] == j.value[c]
  }

  /** Every row of one window's frame is scoped to that window. */
  lemma PartScoped(fuzz: Scorers, anchor: Table, target: Table, windowCol: string, args: JoinArgs, w: Cell)
    requires WellFormed(anchor) && WellFormed(target)
    requires windowCol in ColumnSet(anchor.columns) && windowCol in ColumnSet(target.columns)
    requires WindowPart(fuzz, anchor, target, windowCol, args, w).Ok?
    ensures var sel := Select(anchor.rows, windowCol, w);
      var part := WindowPart(fuzz, anchor, target, windowCol, args, w).value;
      && WellFormed(part) && |part.rows| == |sel|
      && forall q :: 0 <= q < |sel| ==> RowScoped(fuzz, target, windowCol, args, sel[q], part.rows[q])
  {
    var wa := InWindow(anchor, windowCol, w);
    var wt := InWindow(target, windowCol, w);
    var sel := Select(anchor.rows, windowCol, w);
    var part := WindowPart(fuzz, anchor, target, windowCol, args, w).value;
    WindowPartShape(fuzz, anchor, target, windowCol, args, w);
    assert TargetHas(target, windowCol, w) <==> !IsEmpty(wt) by {
      assert windowCol in wt.columns;
    }
    forall q | 0 <= q < |sel| ensures RowScoped(fuzz, target, windowCol, args, sel[q], part.rows[q]) {
      assert sel[q] in sel;
      if TargetHas(target, windowCol, w) {
        assert part == JoinTable(fuzz, wa, wt, args, AsList).value;
        JoinTableRow(fuzz, wa, wt, args, AsList, q);
        assert wa.rows[q] == sel[q];
      }
    }
  }

  /** Scoping depends only on the cells of `out`: a row that keeps them stays scoped. */
  lemma RowScopedKeeps(fuzz: Scorers, target: Table, windowCol: string, args: JoinArgs, row: Row, out: Row, out': Row)
    requires WellFormed(target) && windowCol in ColumnSet(target.columns)
    requires RowScoped(fuzz, target, windowCol, args, row, out)
    requires forall c :: c in out ==> c in out' && out'[c] == out[c]
    ensures RowScoped(fuzz, target, windowCol, args, row, out')
  {
  }

  /** The rows of the first frame of a concatenation keep their scope. */
  lemma ConcatScopedLeft(fuzz: Scorers, target: Table, windowCol: string, args: JoinArgs,
                         gi: seq<Row>, init: Table, sel: seq<Row>, part: Table)
    requires WellFormed(target) && windowCol in ColumnSet(target.columns)
    requires WellFormed(init) && WellFormed(part) && |init.rows| == |gi|
    requires forall p :: 0 <= p < |gi| ==> RowScoped(fuzz, target, windowCol, args, gi[p], init.rows[p])
    ensures forall p :: 0 <= p < |gi| ==> RowScoped(fuzz, target, windowCol, args, (gi + sel)[p], Concat(init, part).rows[p])
  {
    forall p | 0 <= p < |gi|
      ensures RowScoped(fuzz, target, windowCol, args, (gi + sel)[p], Concat(init, part).rows[p])
    {
      assert (gi + sel)[p] == gi[p];
      ConcatRowLeft(init, part, p);
      RowScopedKeeps(fuzz, target, windowCol, args, gi[p], init.rows[p], Concat(init, part).rows[p]);
    }
  }

  /** The rows of the second frame of a concatenation keep their scope. */
  lemma ConcatScopedRight(fuzz: Scorers, target: Table, windowCol: string, args: JoinArgs,
                          gi: seq<Row>, init: Table, sel: seq<Row>, part: Table)
    requires WellFormed(target) && windowCol in ColumnSet(target.columns)
    requires WellFormed(init) && WellFormed(part) && |init.rows| == |gi| && |part.rows| == |sel|
    requires forall q :: 0 <= q < |sel| ==> RowScoped(fuzz, target, windowCol, args, sel[q], part.rows[q])
    ensures forall p :: |gi| <= p < |gi + sel| ==> RowScoped(fuzz, target, windowCol, args, (gi + sel)[p], Concat(init, part).rows[p])
  {
    forall p | |gi| <= p < |gi + sel|
      ensures RowScoped(fuzz, target, windowCol, args, (gi + sel)[p], Concat(init, part).rows[p])
    {
      var q := p - |gi|;
      assert (gi + sel)[p] == sel[q];
      ConcatRowRight(init, part, p);
      RowScopedKeeps(fuzz, target, windowCol, args, sel[q], part.rows[q], Concat(init, part).rows[p]);
    }
  }

  /** Rows scoped to their windows stay so through a concatenation. */
  lemma ConcatScoped(fuzz: Scorers, target: Table, windowCol: string, args: JoinArgs,
                     gi: seq<Row>, init: Table, sel: seq<Row>, part: Table)
    requires WellFormed(target) && windowCol in ColumnSet(target.columns)
    requires WellFormed(init) && |init.rows| == |gi|
    requires forall p :: 0 <= p < |gi| ==> RowScoped(fuzz, target, windowCol, args, gi[p], init.rows[p])
    requires WellFormed(part) && |part.rows| == |sel|
    requires forall q :: 0 <= q < |sel| ==> RowScoped(fuzz, target, windowCol, args, sel[q], part.rows[q])
    ensures var acc := Concat(init, part);
      forall p :: 0 <= p < |gi + sel| ==> RowScoped(fuzz, target, windowCol, args, (gi + sel)[p], acc.rows[p])
  {
    ConcatScopedLeft(fuzz, target, windowCol, args, gi, init, sel, part);
    ConcatScopedRight(fuzz, target, windowCol, args, gi, init, sel, part);
  }

  /** The loop over `ws` scopes every regrouped row to its own window. */
  lemma {:induction false} WindowsJoinScoped(fuzz: Scorers, anchor: Table, target: Table, windowCol: string,
                                             args: JoinArgs, ws: seq<Cell>)
    requires WellFormed(anchor) && WellFormed(target)
    requires windowCol in ColumnSet(anchor.columns) && windowCol in ColumnSet(target.columns)
    requires WindowsJoin(fuzz, anchor, target, windowCol, args, ws).Ok?
    ensures var g := Grouped(anchor.rows, windowCol, ws);
      var acc := WindowsJoin(fuzz, anchor, target, windowCol, args, ws).value;
      && |acc.rows| == |g|
      && forall p :: 0 <= p < |g| ==> RowScoped(fuzz, target, windowCol, args, g[p], acc.rows[p])
  {
    WindowsJoinShape(fuzz, anchor, target, windowCol, args, ws);
    if |ws| > 0 {
      var n := |ws| - 1;
      WindowsJoinScoped(fuzz, anchor, target, windowCol, args, ws[..n]);
      WindowsJoinShape(fuzz, anchor, target, windowCol, args, ws[..n]);
      PartScoped(fuzz, anchor, target, windowCol, args, ws[n]);
      ConcatScoped(fuzz, target, windowCol, args, Grouped(anchor.rows, windowCol, ws[..n]),
        WindowsJoin(fuzz, anchor, target, windowCol, args, ws[..n]).value, Select(anchor.rows, windowCol, ws[n]),
        WindowPart(fuzz, anchor, target, windowCol, args, ws[n]).value);
    }
  }

  /** Each window is matched only against the target rows of the same window: row `p` of
      the window join, when the target has rows in its window, holds in the join's new
      columns the regrouped anchor row `p` joined against the target rows of its window
      alone. */
  lemma WindowJoinScoped(fuzz: Scorers, anchor: Table, target: Table, windowCol: string, args: JoinArgs)
    requires WellFormed(anchor) && WellFormed(target)
    requires windowCol in ColumnSet(anchor.columns) && windowCol in ColumnSet(target.columns)
    requires WindowJoinSpec(fuzz, anchor, target, windowCol, args).Ok?
    requires WindowJoinSpec(fuzz, anchor, target, windowCol, args).value.Some?
    ensures var t := WindowJoinSpec(fuzz, anchor, target, windowCol, args).value.value;
      var g := Regrouped(anchor, windowCol);
      && |t.rows| == |g|
      && forall p :: 0 <= p < |g| ==> RowScoped(fuzz, target, windowCol, args, g[p], t.rows[p])
  {
    WindowsJoinScoped(fuzz, anchor, target, windowCol, args, Unique(Column(anchor.rows, windowCol)));
  }

  /** A window that raises ends the loop: the error of a prefix is the error of the whole. */
  lemma {:induction false} WindowsJoinPrefixErr(fuzz: Scorers, anchor: Table, target: Table, windowCol: string,
                                                args: JoinArgs, ws: seq<Cell>, n: nat)
    requires WellFormed(anchor) && WellFormed(target)
    requires windowCol in ColumnSet(anchor.columns) && windowCol in ColumnSet(target.columns)
    requires n <= |ws|
    requires WindowsJoin(fuzz, anchor, target, windowCol, args, ws[..n]).Err?
    ensures WindowsJoin(fuzz, anchor, target, windowCol, args, ws) == WindowsJoin(fuzz, anchor, target, windowCol, args, ws[..n])
    decreases |ws| - n
  {
    if n < |ws| {
      assert ws[..n + 1][..n] == ws[..n];
      WindowsJoinPrefixErr(fuzz, anchor, target, windowCol, args, ws, n + 1);
    } else {
      assert ws[..n] == ws;
    }
  }

  /** One more window: the loop's value on `ws[..i + 1]` from its value on `ws[..i]`. */
  lemma WindowsJoinStep(fuzz: Scorers, anchor: Table, target: Table, windowCol: string,
                        args: JoinArgs, ws: seq<Cell>, i: nat, acc: Table)
    requires WellFormed(anchor) && WellFormed(target)
    requires windowCol in ColumnSet(anchor.columns) && windowCol in ColumnSet(target.columns)
    requires i < |ws|
    requires WindowsJoin(fuzz, anchor, target, windowCol, args, ws[..i]) == Ok(acc)
    ensures var part := WindowPart(fuzz, anchor, target, windowCol, args, ws[i]);
      WindowsJoin(fuzz, anchor, target, windowCol, args, ws[..i + 1])
        == if part.Err? then part else Ok(Concat(acc, part.value))
  {
    assert ws[..i + 1][..i] == ws[..i];
  }

  /** The body of the window loop: the window's two frames as objects, and the in-place
      join of the anchor's one when the target's is not empty. */
  method JoinWindow(fuzz: Scorers, anchor: Table, target: Table, windowCol: string, args: JoinArgs, window: Cell)
      returns (part: Result<Table, Error>)
    requires WellFormed(anchor) && WellFormed(target)
    requires windowCol in ColumnSet(anchor.columns) && windowCol in ColumnSet(target.columns)
    ensures part == WindowPart(fuzz, anchor, target, windowCol, args, window)
  {
    var windowAnchor := new DataFrame(InWindow(anchor, windowCol, window));
    var windowTarget := new DataFrame(InWindow(target, windowCol, window));
    if !IsEmpty(windowTarget.Snapshot()) {
      var err := FuzzyJoinFrames(fuzz, windowAnchor, windowTarget, args);
      if err.Some? {
        return Err(err.value);
      }
    }
    return Ok(windowAnchor.Snapshot());
  }

  /** The loop over the window values `ws`, from the empty frame. */
  method JoinWindows(fuzz: Scorers, anchor: Table, target: Table, windowCol: string, args: JoinArgs, ws: seq<Cell>)
      returns (r: Result<Table, Error>)
    requires WellFormed(anchor) && WellFormed(target)
    requires windowCol in ColumnSet(anchor.columns) && windowCol in ColumnSet(target.columns)
    ensures r == WindowsJoin(fuzz, anchor, target, windowCol, args, ws)
  {
    var fuzzyFrame := NoFrame;
    var i := 0;
    while i < |ws|
      invariant 0 <= i <= |ws|
      invariant WindowsJoin(fuzz, anchor, target, windowCol, args, ws[..i]) == Ok(fuzzyFrame)
    {
      var part := JoinWindow(fuzz, anchor, target, windowCol, args, ws[i]);
      WindowsJoinStep(fuzz, anchor, target, windowCol, args, ws, i, fuzzyFrame);
      if part.Err? {
        WindowsJoinPrefixErr(fuzz, anchor, target, windowCol, args, ws, i + 1);
        return Err(part.error);
      }
      fuzzyFrame := Concat(fuzzyFrame, part.value);
      i := i + 1;
    }
    assert ws[..i] == ws;
    return Ok(fuzzyFrame);
  }

  /** `Fuzzy.window_fuzzy_join`: for each distinct window value of the anchor, the
      window's anchor rows are joined in place against the window's target rows (or
      kept as they are when there are none) and concatenated onto the result. Neither
      frame passed in is changed. */
  method WindowFuzzyJoin(fuzz: Scorers, anchor: DataFrame, target: DataFrame, windowCol: string, args: JoinArgs)
      returns (r: Result<Option<Table>, Error>)
    requires anchor.Valid() && target.Valid()
    ensures r == WindowJoinSpec(fuzz, anchor.Snapshot(), target.Snapshot(), windowCol, args)
  {
    var a := anchor.Snapshot();
    var t := target.Snapshot();
    if !(windowCol in ColumnSet(a.columns) && windowCol in ColumnSet(t.columns)) {
      return Ok(None);
    }
    var windowValues := Unique(Column(a.rows, windowCol));
    var joined := JoinWindows(fuzz, a, t, windowCol, args, windowValues);
    if joined.Err? {
      return Err(joined.error);
    }
    return Ok(Some(joined.value));
  }
}
