/** The slice of a pandas DataFrame that the fuzzy join relies on: named columns,
    rows as maps from column name to a cell that may be missing (NaN / None), a
    flag per column saying whether its dtype is `object` (text), first-appearance
    `unique()`, boolean row selection on `==`, and `concat` of two frames. */
module Frames {
  import opened Wrappers

  /** One match of `fuzzy_all_match` (the `FuzzyResult` class), also used for the
      `(text, score)` pair that `fuzzy_match_best` returns. */
  datatype FuzzyResult = FuzzyResult(text: string, score: int)

  /** A non-missing cell value. `Matches` is the list an all-match join stores in a
      cell; `Opaque` stands for every other Python object (floats, booleans, ...),
      distinguished only by identity. */
  datatype Value = Str(s: string) | Int(i: int) | Matches(ms: seq<FuzzyResult>) | Opaque(id: int)

  /** A cell: `None` is pandas' missing marker (NaN or None). */
  type Cell = Option<Value>

  type Row = map<string, Cell>

  /** A frame as a value. `textColumns` are the columns whose dtype is `object`. */
  datatype Table = Table(columns: seq<string>, rows: seq<Row>, textColumns: set<string>)

  function ColumnSet(cols: seq<string>): set<string>
  {
    set c | c in cols
  }

  /** Every row has exactly the frame's columns as keys. */
  predicate WellFormed(t: Table)
  {
    forall i :: 0 <= i < |t.rows| ==> t.rows[i].Keys == ColumnSet(t.columns)
  }

  /** `DataFrame.empty`: true when either axis has length zero, that is when the frame
      has no cells at all (`EmptyMeansNoCells`). */
  predicate IsEmpty(t: Table)
  {
    |t.rows| == 0 || |t.columns| == 0
  }

  /** A well-formed frame is empty exactly when none of its rows holds a cell. */
  lemma EmptyMeansNoCells(t: Table)
    requires WellFormed(t)
    ensures IsEmpty(t) <==> forall i :: 0 <= i < |t.rows| ==> t.rows[i].Keys == {}
  {
    if |t.columns| == 0 {
      assert ColumnSet(t.columns) == {};
    } else if |t.rows| > 0 {
      assert t.columns[0] in t.rows[0].Keys;
    }
  }

  predicate HasColumn(rows: seq<Row>, col: string)
  {
    forall i :: 0 <= i < |rows| ==> col in rows[i]
  }

  /** The cells of one column, top to bottom (`df[col]`). */
  function Column(rows: seq<Row>, col: string): (r: seq<Cell>)
    requires HasColumn(rows, col)
    ensures |r| == |rows|
    ensures forall i :: 0 <= i < |rows| ==> r[i] == rows[i][col]
  {
    if |rows| == 0 then [] else Column(rows[..|rows| - 1], col) + [rows[|rows| - 1][col]]
  }

  predicate Distinct<T(==)>(s: seq<T>)
  {
    forall i, j :: 0 <= i < j < |s| ==> s[i] != s[j]
  }

  /** `Series.unique()`: the distinct values of `s`, in order of first appearance. */
  function Unique<T(==,!new)>(s: seq<T>): (r: seq<T>)
    ensures forall x :: x in r <==> x in s
    ensures Distinct(r)
    ensures |r| <= |s|
  {
    if |s| == 0 then []
    else
      var u := Unique(s[..|s| - 1]);
      if s[|s| - 1] in u then u else u + [s[|s| - 1]]
  }

  /** The position at which `x` first appears in `s`. */
  function FirstIndex<T(==)>(s: seq<T>, x: T): (k: nat)
    requires x in s
    ensures k < |s| && s[k] == x
    ensures forall j :: 0 <= j < k ==> s[j] != x
  {
    if s[0] == x then 0 else FirstIndex(s[1..], x) + 1
  }

  /** A value first appearing in a prefix first appears at the same place in the whole. */
  lemma {:induction false} FirstIndexPrefix<T>(s: seq<T>, t: seq<T>, x: T)
    requires x in s
    ensures x in s + t && FirstIndex(s + t, x) == FirstIndex(s, x)
  {
    assert forall j :: 0 <= j < |s| ==> (s + t)[j] == s[j];
  }

  /** `unique()` lists the values in order of their first appearance. */
  lemma {:induction false} UniqueFirstAppearance<T(!new)>(s: seq<T>)
    ensures forall i, j :: 0 <= i < j < |Unique(s)| ==>
      FirstIndex(s, Unique(s)[i]) < FirstIndex(s, Unique(s)[j])
  {
    if |s| > 0 {
      var n := |s| - 1;
      var init := s[..n];
      var u := Unique(init);
      UniqueFirstAppearance(init);
      assert s == init + [s[n]];
      forall y | y in u ensures FirstIndex(s, y) == FirstIndex(init, y) {
        FirstIndexPrefix(init, [s[n]], y);
      }
      if s[n] !in u {
        assert FirstIndex(s, s[n]) == n;
        forall i | 0 <= i < |u| ensures FirstIndex(s, u[i]) < n {
          assert u[i] in u;
        }
      }
    }
  }

  /** Element-wise `==` of pandas: a missing cell equals nothing, not even another missing cell. */
  predicate CellEquals(a: Cell, b: Cell)
  {
    a.Some? && a == b
  }

  /** `df[df[col] == w]`: the rows whose `col` cell equals `w`, in their order. */
  function Select(rows: seq<Row>, col: string, w: Cell): (r: seq<Row>)
    requires HasColumn(rows, col)
    ensures |r| <= |rows|
    ensures forall x :: x in r ==> x in rows && CellEquals(x[col], w)
    ensures forall x :: x in rows && CellEquals(x[col], w) ==> x in r
    ensures HasColumn(r, col)
  {
    if |rows| == 0 then []
    else
      var init := Select(rows[..|rows| - 1], col, w);
      var last := rows[|rows| - 1];
      if CellEquals(last[col], w) then init + [last] else init
  }

  /** Selecting from one row keeps it exactly when its cell equals `w`. */
  lemma SelectOne(row: Row, col: string, w: Cell)
    requires col in row
    ensures Select([row], col, w) == if CellEquals(row[col], w) then [row] else []
  {
    assert [row][..0] == [];
  }

  /** Selection distributes over concatenation: the kept rows stay in their order, and
      a row kept twice appears twice. */
  lemma {:induction false} SelectAppend(a: seq<Row>, b: seq<Row>, col: string, w: Cell)
    requires HasColumn(a, col) && HasColumn(b, col)
    ensures HasColumn(a + b, col)
    ensures Select(a + b, col, w) == Select(a, col, w) + Select(b, col, w)
  {
    assert forall i :: 0 <= i < |a + b| ==> (a + b)[i] == if i < |a| then a[i] else b[i - |a|];
    if |b| == 0 {
      assert a + b == a;
    } else {
      var n := |b| - 1;
      assert (a + b)[..|a + b| - 1] == a + b[..n];
      SelectAppend(a, b[..n], col, w);
    }
  }

  /** Selecting window `w` from the rows of window `v` keeps them all when the two are
      the same (present) value, and none otherwise. */
  lemma {:induction false} SelectTwice(rows: seq<Row>, col: string, v: Cell, w: Cell)
    requires HasColumn(rows, col)
    ensures Select(Select(rows, col, v), col, w) == if CellEquals(v, w) then Select(rows, col, v) else []
  {
    if |rows| > 0 {
      var n := |rows| - 1;
      var init := Select(rows[..n], col, v);
      SelectTwice(rows[..n], col, v, w);
      if CellEquals(rows[n][col], v) {
        SelectAppend(init, [rows[n]], col, w);
        SelectOne(rows[n], col, w);
      }
    }
  }

  /** Selecting rows of a well-formed frame keeps it well-formed. */
  lemma SelectWellFormed(t: Table, col: string, w: Cell)
    requires WellFormed(t) && HasColumn(t.rows, col)
    ensures WellFormed(Table(t.columns, Select(t.rows, col, w), t.textColumns))
  {
    var s := Select(t.rows, col, w);
    forall i | 0 <= i < |s| ensures s[i].Keys == ColumnSet(t.columns) {
      assert s[i] in t.rows;
      var j :| 0 <= j < |t.rows| && t.rows[j] == s[i];
    }
  }

  /** `cols` followed by each name of `names` that is not yet present: the column
      list after assigning (or overwriting) the columns `names`. */
  function AddColumns(cols: seq<string>, names: seq<string>): (r: seq<string>)
    ensures ColumnSet(r) == ColumnSet(cols) + ColumnSet(names)
    ensures |r| >= |cols| && r[..|cols|] == cols
    ensures Distinct(cols) ==> Distinct(r)
    ensures Distinct(names) && (forall n :: n in names ==> n !in cols) ==> r == cols + names
  {
    if |names| == 0 then cols
    else
      var init := AddColumns(cols, names[..|names| - 1]);
      var n := names[|names| - 1];
      assert names == names[..|names| - 1] + [n];
      assert ColumnSet(names) == ColumnSet(names[..|names| - 1]) + {n};
      assert ColumnSet(init + [n]) == ColumnSet(init) + {n};
      if n in init then init else init + [n]
  }

  /** Assigns `cells[k]` to column `names[k]`, one after another, so that the last
      assignment to a name wins. */
  function Assign(row: Row, names: seq<string>, cells: seq<Cell>): (r: Row)
    requires |names| == |cells|
    ensures r.Keys == row.Keys + ColumnSet(names)
    ensures forall c :: c in row && c !in names ==> r[c] == row[c]
    decreases |names|
  {
    if |names| == 0 then row
    else
      assert ColumnSet(names) == {names[0]} + ColumnSet(names[1..]) by {
        assert names == [names[0]] + names[1..];
      }
      Assign(row[names[0] := cells[0]], names[1..], cells[1..])
  }

  /** A name that is not assigned again later holds the cell assigned to it. */
  lemma {:induction false} AssignLast(row: Row, names: seq<string>, cells: seq<Cell>, k: nat)
    requires |names| == |cells|
    requires k < |names| && names[k] !in names[k + 1..]
    ensures Assign(row, names, cells)[names[k]] == cells[k]
    decreases |names|
  {
    if k > 0 {
      assert names[1..][k - 1] == names[k] && names[1..][k..] == names[k + 1..];
      AssignLast(row[names[0] := cells[0]], names[1..], cells[1..], k - 1);
    }
  }

  /** A row widened to `cols`, the cells it lacks filled with the missing marker. */
  function Pad(row: Row, cols: seq<string>): (r: Row)
    ensures r.Keys == ColumnSet(cols)
    ensures forall c :: c in r ==> r[c] == (if c in row then row[c] else None)
  {
    map c | c in ColumnSet(cols) :: if c in row then row[c] else None
  }

  function PadAll(rows: seq<Row>, cols: seq<string>): (r: seq<Row>)
    ensures |r| == |rows|
    ensures forall i :: 0 <= i < |rows| ==> r[i] == Pad(rows[i], cols)
  {
    if |rows| == 0 then [] else PadAll(rows[..|rows| - 1], cols) + [Pad(rows[|rows| - 1], cols)]
  }

  /** `pd.concat([a, b])`: the union of the columns in order of appearance, then the
      rows of `a` followed by the rows of `b`, each padded to the union. */
  function Concat(a: Table, b: Table): (r: Table)
    ensures WellFormed(r)
    ensures |r.rows| == |a.rows| + |b.rows|
    ensures ColumnSet(r.columns) == ColumnSet(a.columns) + ColumnSet(b.columns)
  {
    var cols := AddColumns(a.columns, b.columns);
    Table(cols, PadAll(a.rows, cols) + PadAll(b.rows, cols), a.textColumns + b.textColumns)
  }

  /** The columns of a concatenation in order: those of `a` first, unchanged; when the
      columns of `b` are distinct and new to `a`, they follow in their own order. */
  lemma ConcatColumns(a: Table, b: Table)
    ensures |Concat(a, b).columns| >= |a.columns| && Concat(a, b).columns[..|a.columns|] == a.columns
    ensures Distinct(b.columns) && (forall n :: n in b.columns ==> n !in a.columns) ==>
      Concat(a, b).columns == a.columns + b.columns
  {
    var cols := AddColumns(a.columns, b.columns);
    assert Concat(a, b).columns == cols;
  }

  /** A cell of a concatenation, on a row from its first frame: that row's cell, or
      missing where that row had no such column. */
  lemma ConcatCellLeft(a: Table, b: Table, p: nat, c: string)
    requires WellFormed(a) && WellFormed(b)
    requires p < |a.rows|
    ensures c in a.rows[p] ==> c in Concat(a, b).rows[p] && Concat(a, b).rows[p][c] == a.rows[p][c]
    ensures c !in a.rows[p] && c in Concat(a, b).rows[p] ==> Concat(a, b).rows[p][c] == None
  {
    var cols := AddColumns(a.columns, b.columns);
    var left := PadAll(a.rows, cols);
    assert Concat(a, b).rows[p] == left[p] == Pad(a.rows[p], cols);
  }

  /** A cell of a concatenation, on a row from its second frame. */
  lemma ConcatCellRight(a: Table, b: Table, p: nat, c: string)
    requires WellFormed(a) && WellFormed(b)
    requires |a.rows| <= p < |a.rows| + |b.rows|
    ensures c in b.rows[p - |a.rows|] ==>
      c in Concat(a, b).rows[p] && Concat(a, b).rows[p][c] == b.rows[p - |a.rows|][c]
    ensures c !in b.rows[p - |a.rows|] && c in Concat(a, b).rows[p] ==> Concat(a, b).rows[p][c] == None
  {
    var cols := AddColumns(a.columns, b.columns);
    var right := PadAll(b.rows, cols);
    assert Concat(a, b).rows[p] == right[p - |a.rows|] == Pad(b.rows[p - |a.rows|], cols);
  }

  /** A row of a concatenation keeps every cell of the row of the first frame it comes from. */
  lemma ConcatRowLeft(a: Table, b: Table, p: nat)
    requires WellFormed(a) && WellFormed(b)
    requires p < |a.rows|
    ensures forall c :: c in a.rows[p] ==> c in Concat(a, b).rows[p] && Concat(a, b).rows[p][c] == a.rows[p][c]
  {
    forall c | c in a.rows[p] ensures c in Concat(a, b).rows[p] && Concat(a, b).rows[p][c] == a.rows[p][c] {
      ConcatCellLeft(a, b, p, c);
    }
  }

  /** A row of a concatenation keeps every cell of the row of the second frame it comes from. */
  lemma ConcatRowRight(a: Table, b: Table, p: nat)
    requires WellFormed(a) && WellFormed(b)
    requires |a.rows| <= p < |a.rows| + |b.rows|
    ensures forall c :: c in b.rows[p - |a.rows|] ==>
      c in Concat(a, b).rows[p] && Concat(a, b).rows[p][c] == b.rows[p - |a.rows|][c]
  {
    forall c | c in b.rows[p - |a.rows|]
      ensures c in Concat(a, b).rows[p] && Concat(a, b).rows[p][c] == b.rows[p - |a.rows|][c]
    {
      ConcatCellRight(a, b, p, c);
    }
  }

  /** A DataFrame object whose columns the join assigns in place. */
  class DataFrame {
    var columns: seq<string>
    var rows: seq<Row>
    var textColumns: set<string>

    function Snapshot(): Table
      reads this
    {
      Table(columns, rows, textColumns)
    }

    ghost predicate Valid()
      reads this
    {
      WellFormed(Snapshot())
    }

    constructor (t: Table)
      ensures Snapshot() == t
    {
      columns, rows, textColumns := t.columns, t.rows, t.textColumns;
    }
  }
}
