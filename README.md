# Fuzzy left join of dotutils, in Dafny

This project models the fuzzy-matching core of `dotutils` (`dotutils/fuzzy.py`):

- the two query functions `Fuzzy.fuzzy_match_best` and `Fuzzy.fuzzy_all_match` and the
  argument guard they share;
- `Fuzzy.fuzzy_join`, a row-preserving left join of a target frame onto an anchor frame
  that matches a text column of the anchor against the distinct values of a text column
  of the target, in `best_match` or `all_match` mode;
- `Fuzzy.window_fuzzy_join`, the same join run separately inside each window, a window
  being one value of a column both frames share;
- the exceptions `EmptyDataFrame`, `MissingColumns` and `InvalidFuzzyAlgorithm`, and the
  `FuzzyResult` record.

Files and modules:

- `wrappers.dfy` (`Wrappers`): `Option` (NaN / `None`) and `Result` (a value or the
  exception raised instead).
- `frames.dfy` (`Frames`): the slice of a pandas DataFrame the join relies on. A frame
  is a list of column names, rows that map column names to cells, and the set of
  columns whose dtype is `object`. A cell is `None` for NaN/`None`, or a value.
  The module also has `unique()` in first-appearance order, row selection by `==`
  (a missing cell equals nothing), `concat`, column assignment, and a `DataFrame`
  class whose fields the join overwrites in place.
- `fuzzy.dfy` (`FuzzyQuery`): the query functions. A rapidfuzz scorer is any total
  function into 0..100. The scorer entries of `fuzz.__dict__` are a map from algorithm
  name to scorer, passed in as a parameter. `fuzzy_all_match` is a method with the source's loop, proved equal to
  the function `AllMatches`.
- `join.dfy` (`FuzzyJoin`): `fuzzy_join`. The function `JoinTable` gives its
  value-level meaning. The method `FuzzyJoinFrames` checks the arguments, loops over the
  anchor rows (`ApplyRows`), and only then overwrites the anchor `DataFrame`'s columns
  and rows. It is proved to leave the anchor unchanged whenever the join raises.
- `window.dfy` (`WindowJoin`): `window_fuzzy_join`. The methods `WindowFuzzyJoin` /
  `JoinWindows` loop over the distinct anchor window values, rebinding the accumulated
  frame through `concat`. They are proved equal to the function `WindowJoinSpec`.

Each row of a join is computed by `JoinRow`: `BestRow` in best-match mode (the inner
`__fuzzy_match_best_conditional` written into the row), `AllRow` in all-match mode. A row
whose query raises ends the whole join with that exception (`Collect`, `JoinRows`).
`WindowPart` is one window's frame: joined against the target rows of that window, or the
anchor rows of the window unchanged when the target has none. `WindowsJoin` is the loop
over the windows, as a function.

Where the code and its documentation disagree, the model follows the code:

- An anchor row whose window value is missing matches no window (pandas `==` never
  holds for NaN), so `window_fuzzy_join` drops it. The result has one row per anchor row
  that has a window value (`WindowJoinRowCount`). It has one row per anchor row only when
  every window value is present (`WindowJoinKeepsAllRows`).
- Nothing in the join catches an exception raised by a row's query. One bad row aborts
  the whole join.
- Algorithm names are whatever scorers `fuzz.__dict__` holds, not a fixed list of five.
- The algorithm name, the threshold and the anchor cells are checked only inside each
  row's query, not before the rows are processed (`JoinUnknownAlgorithmRaises`).
- `fuzzy_match_best` filters non-string choices out. Its guard has already rejected
  every list that holds one, so the filter keeps everything (`StrChoicesKeepsAll`).
- `DataFrame.empty` is true for a frame with no rows or with no columns (`IsEmpty`).

## Model

| member | source | states |
|---|---|---|
| Frames.Unique | dotutils/fuzzy.py:268 | `unique()`: holds exactly the values of the column, each once |
| Frames.UniqueFirstAppearance | dotutils/fuzzy.py:268 | `unique()` lists the values in order of their first appearance |
| Frames.Column | dotutils/fuzzy.py:268 | `df[col]`: one cell per row, row `i`'s cell in that column at position `i` |
| Frames.EmptyMeansNoCells | dotutils/fuzzy.py:152 | `DataFrame.empty` (no rows or no columns) holds of a frame exactly when none of its rows holds a cell |
| Frames.Select | dotutils/fuzzy.py:271-276 | `df[df[col] == w]` keeps exactly the rows whose cell equals `w` (a missing cell equals nothing), each row a row of the input |
| Frames.SelectOne | dotutils/fuzzy.py:271-276 | a single row is kept exactly when its cell equals `w` |
| Frames.SelectAppend | dotutils/fuzzy.py:271-276 | selection distributes over concatenation of the rows, so the kept rows stay in the frame's order |
| Frames.SelectTwice | dotutils/fuzzy.py:271-276 | selecting a window inside a window keeps that window when the two values are equal, and nothing otherwise |
| Frames.Concat | dotutils/fuzzy.py:292 | `concat` of two frames has the rows of both, the union of their columns, and is well-formed; the column order is stated by `ConcatColumns` |
| Frames.ConcatColumns | dotutils/fuzzy.py:292 | `concat` keeps the first frame's columns in front, in order; distinct columns of the second frame that are new follow in their own order |
| Frames.AddColumns | dotutils/fuzzy.py:210 | assigning new columns keeps the old column order in front and adds each new name once; distinct names that are all new are appended in the order given |
| Frames.DataFrame.constructor | dotutils/fuzzy.py:147-228 | the anchor `DataFrame` object starts out holding the given frame value |
| Frames.Assign | dotutils/fuzzy.py:210-214 | a row gains exactly the assigned columns, and its other cells are unchanged |
| FuzzyQuery.ArgsOk | dotutils/fuzzy.py:53-62 | the query guard: the algorithm is known, the query a non-empty string, the choices a non-empty list of strings, the threshold an integer in 0..100; when it passes there is at least one string choice |
| FuzzyQuery.StrChoices | dotutils/fuzzy.py:64-67 | the type filter keeps exactly the string choices |
| FuzzyQuery.StrChoicesKeepsAll | dotutils/fuzzy.py:57-67 | once the guard has passed, the type filter keeps every choice, in order |
| FuzzyQuery.ArgMax | dotutils/fuzzy.py:69-74 | the first choice that no other choice outscores |
| FuzzyQuery.ExtractOne | dotutils/fuzzy.py:69-78 | `extractOne` with a cutoff: no result exactly when every choice scores below the cutoff; otherwise a choice, its score, at least the cutoff, and beaten by none |
| FuzzyQuery.FuzzyMatchBest | dotutils/fuzzy.py:44-80 | raises ValueError exactly when the guard fails; `(None, None)` exactly when no choice reaches the threshold; otherwise a choice with its own score, reaching the threshold, that no choice beats |
| FuzzyQuery.ZeroThresholdMatches | dotutils/fuzzy.py:53-78 | with threshold 0, a query that passes the guard always finds a match |
| FuzzyQuery.ExactMatchScores100 | dotutils/fuzzy.py:69-76 | a query found verbatim among the choices gets score 100 when the scorer gives a string and itself 100 |
| FuzzyQuery.Keep | dotutils/fuzzy.py:105 | `match_result and match_result >= threshold`: with a positive threshold this is just reaching the threshold |
| FuzzyQuery.AllMatches | dotutils/fuzzy.py:103-106 | every reported match is a choice with its own score, non-zero and at least the threshold |
| FuzzyQuery.AllMatchesMember | dotutils/fuzzy.py:103-108 | a choice is reported exactly when its score is non-zero and at least the threshold, so a zero score is dropped even at threshold 0 |
| FuzzyQuery.AllMatchesAppend | dotutils/fuzzy.py:103-106 | matching distributes over concatenation of the choices, so the matches follow the choice order and keep duplicates |
| FuzzyQuery.AllMatchSpec | dotutils/fuzzy.py:82-110 | raises ValueError exactly when the guard fails |
| FuzzyQuery.FuzzyAllMatch | dotutils/fuzzy.py:91-110 | the loop that appends each kept choice computes `AllMatchSpec` |
| FuzzyJoin.DisplayColumns | dotutils/fuzzy.py:205-207 | the display columns are named `target_<c>`, one per display column, in order |
| FuzzyJoin.NewColumns | dotutils/fuzzy.py:201-208 | the columns a join assigns: `f_<a>_<t>` first, then in best-match mode `f_score_<a>_<t>` and one `target_<c>` per display column; all-match mode (line 217) assigns only the first |
| FuzzyJoin.NewColumnsDistinct | dotutils/fuzzy.py:201-208 | the match name, the score name and each display name differ from one another; two display names collide only when built from the same name (`DisplayColumnInjective`) |
| FuzzyJoin.DisplayColumnInjective | dotutils/fuzzy.py:205-207 | `target_<c>` determines `c` |
| FuzzyJoin.DisplayColumnsDistinct | dotutils/fuzzy.py:205-207 | distinct display columns give distinct `target_<c>` names |
| FuzzyJoin.NewColumnsAllDistinct | dotutils/fuzzy.py:201-208 | the assigned names are pairwise different when the display columns are |
| FuzzyJoin.TextCell | dotutils/fuzzy.py:182 | the text cell is the matched text whenever there is a match with non-empty text, and missing otherwise |
| FuzzyJoin.ScoreCell | dotutils/fuzzy.py:182 | the score cell is present exactly when there is a match with a non-zero score, and then holds that score; a zero-score match (possible at threshold 0) leaves it missing |
| FuzzyJoin.FirstRow | dotutils/fuzzy.py:188-194 | the first target row whose target column holds the matched text, or none when no row holds it |
| FuzzyJoin.DisplayCells | dotutils/fuzzy.py:185-197 | the display cells come from the first target row holding the matched text; they are all missing when there is no match or no such row; KeyError exactly when such a row exists and a display column is absent |
| FuzzyJoin.BestRow | dotutils/fuzzy.py:173-214 | a best-match row raises ValueError or KeyError, or gains exactly the new columns and keeps every other cell |
| FuzzyJoin.AllRow | dotutils/fuzzy.py:216-225 | an all-match row raises ValueError, or gains exactly the one match column and keeps every other cell |
| FuzzyJoin.JoinRow | dotutils/fuzzy.py:171-225 | one anchor row joined in either mode: its errors and the columns it gains |
| FuzzyJoin.Collect | dotutils/fuzzy.py:210-225 | gathering the per-row results: a success has one row per result, a failure is the exception of one of the rows |
| FuzzyJoin.TargetChoices | dotutils/fuzzy.py:177 | the candidates are the distinct target-column values (`unique()`), and they arrive as a list exactly when the container is a list; line 220 passes the same |
| FuzzyJoin.JoinRows | dotutils/fuzzy.py:210-225 | `apply` over the anchor rows either raises a row's exception or yields one row per anchor row |
| FuzzyJoin.JoinRowsOk | dotutils/fuzzy.py:210-225 | row `i` of a successful `apply` is anchor row `i` joined on its own |
| FuzzyJoin.JoinRowsShape | dotutils/fuzzy.py:210-225 | the rows of a successful `apply` are one per anchor row, fit the anchor's columns widened by the new ones, and keep each anchor row's other cells |
| FuzzyJoin.JoinRowsErr | dotutils/fuzzy.py:210-225 | a failed `apply` fails with the exception of its first failing row, and every earlier row succeeds |
| FuzzyJoin.ColumnsOk | dotutils/fuzzy.py:155-162 | the column checks: once they pass, every anchor row has the anchor column and every target row the target column |
| FuzzyJoin.ApproachOk | dotutils/fuzzy.py:147-150 | the two accepted approaches are told apart by the columns they assign: `all_match` assigns `f_<a>_<t>` alone (line 217), `best_match` more (lines 201-208) |
| FuzzyJoin.JoinTable | dotutils/fuzzy.py:147-228 | EmptyDataFrame exactly when either frame has no rows or no columns; then MissingColumns exactly when a join column is absent or not text; then InvalidFuzzyAlgorithm exactly when the approach is unknown; a success keeps the anchor's row count, order and cells and appends the new columns |
| FuzzyJoin.JoinColumnsOrder | dotutils/fuzzy.py:201-214 | a successful join's columns are the anchor's followed by the new columns in order, when none of them is already an anchor column |
| FuzzyJoin.BestColumnsLand | dotutils/fuzzy.py:201-214 | the expanded row result lands under text, score and display columns in that order |
| FuzzyJoin.BestRowCells | dotutils/fuzzy.py:175-197 | a best-match row holds the query's text and score, each missing when falsy, and its display cells |
| FuzzyJoin.JoinTableRow | dotutils/fuzzy.py:152-225 | row `i` of a successful join is anchor row `i` joined on its own, after all checks passed |
| FuzzyJoin.BestOfDistinct | dotutils/fuzzy.py:175-180 | the best match among the distinct target values is the best match among all target values |
| FuzzyJoin.JoinBestMatch | dotutils/fuzzy.py:175-183 | in a successful best-match join, each row's query was valid, and its text and score cells hold the best match over the target column (falsy parts missing) |
| FuzzyJoin.JoinExactMatch | dotutils/fuzzy.py:175-183 | an anchor value the target column holds verbatim is scored 100 when the scorer gives a string and itself 100 |
| FuzzyJoin.BestRowDisplay | dotutils/fuzzy.py:185-197 | one row's display cell is that column of the first target row holding the matched text, or missing |
| FuzzyJoin.JoinDisplay | dotutils/fuzzy.py:185-214 | in a successful join, each display cell is that column of the first target row holding the matched text, or missing |
| FuzzyJoin.JoinAllMatch | dotutils/fuzzy.py:216-225 | all-match mode adds only `f_<a>_<t>`, holding each row's all-match list against the distinct target values |
| FuzzyJoin.JoinSucceeds | dotutils/fuzzy.py:171-225 | with the distinct values passed as a list, a join succeeds when its checks pass, its queries are all well-typed (known algorithm, integer threshold in 0..100, non-empty string anchor cells, string target cells) and, in best-match mode only, the target has every display column |
| FuzzyJoin.JoinAsWrittenRaises | dotutils/fuzzy.py:175-180 | as written, every join that passes its checks raises ValueError |
| FuzzyJoin.JoinUnknownAlgorithmRaises | dotutils/fuzzy.py:164-180 | an unknown algorithm name passes the upfront checks and raises ValueError from the first row's query |
| FuzzyJoin.QueryRow | dotutils/fuzzy.py:173-199 | one row's query and the cells written from it compute `JoinRow` |
| FuzzyJoin.ApplyRows | dotutils/fuzzy.py:210-225 | the loop over the anchor rows computes `JoinRows` |
| FuzzyJoin.FuzzyJoinFrames | dotutils/fuzzy.py:147-228 | the anchor frame becomes `JoinTable`'s result on success, and is left unchanged when the join raises |
| WindowJoin.InWindow | dotutils/fuzzy.py:271-276 | a window's slice of a frame keeps its columns and stays well-formed |
| WindowJoin.WindowJoinSpec | dotutils/fuzzy.py:259-294 | returns `None` exactly when the window column is absent from either frame; what each window is joined against is stated by `WindowJoinScoped` |
| WindowJoin.WindowPart | dotutils/fuzzy.py:271-290 | one window's frame: it raises only when the target has rows in the window, and has one row per anchor row of the window |
| WindowJoin.WindowsJoin | dotutils/fuzzy.py:270-292 | the loop over the windows as a function: a failure is the exception of one of the windows |
| WindowJoin.Grouped | dotutils/fuzzy.py:270-292 | the rows regrouped by window are anchor rows |
| WindowJoin.GroupedCount | dotutils/fuzzy.py:268-292 | regrouping by the distinct window values keeps exactly the rows that have a window value |
| WindowJoin.GroupedWindowRows | dotutils/fuzzy.py:270-292 | the regrouped rows of one visited window are exactly that window's anchor rows, in anchor order; an unvisited window has none |
| WindowJoin.GroupedOrdered | dotutils/fuzzy.py:270-292 | the regrouped rows come window by window, in the order the windows are visited |
| WindowJoin.WindowPartShape | dotutils/fuzzy.py:278-290 | a window's frame has its anchor rows in order with their cells; a window the target lacks gains no column |
| WindowJoin.WindowsJoinShape | dotutils/fuzzy.py:270-292 | the concatenated frame matches the regrouped anchor rows: same count, anchor cells kept, pass-through rows missing in every new column |
| WindowJoin.Regrouped | dotutils/fuzzy.py:268-292 | the anchor rows in emitted order are anchor rows with the anchor's columns; their order is stated by `WindowOrder` and `WindowRowsInOrder` |
| WindowJoin.WindowJoinRowCount | dotutils/fuzzy.py:259-294 | the result has one row per anchor row that has a window value |
| WindowJoin.WindowRowsInOrder | dotutils/fuzzy.py:268-292 | within each window the emitted rows are that window's anchor rows in anchor order |
| WindowJoin.UniqueRank | dotutils/fuzzy.py:268 | an earlier distinct value first appears in the column no later than a later one |
| WindowJoin.WindowOrder | dotutils/fuzzy.py:268-292 | windows are visited in order of first appearance in the anchor |
| WindowJoin.WindowJoinKeepsAllRows | dotutils/fuzzy.py:259-294 | when every anchor row has a window value, the result has as many rows as the anchor |
| WindowJoin.WindowJoinKeepsCells | dotutils/fuzzy.py:270-292 | row `p` of the result keeps the cells of the regrouped anchor row `p`, outside the join's own columns |
| WindowJoin.WindowJoinPassThrough | dotutils/fuzzy.py:278-292 | a row from a window with no target rows is missing in every column the anchor lacks |
| WindowJoin.PartScoped | dotutils/fuzzy.py:271-290 | each row of one window's frame, when the target has rows in the window, holds the anchor row joined against those target rows only |
| WindowJoin.ConcatScoped | dotutils/fuzzy.py:292 | `concat` keeps every row's join against its own window |
| WindowJoin.WindowsJoinScoped | dotutils/fuzzy.py:270-292 | after the loop every regrouped row holds its join against the target rows of its own window |
| WindowJoin.WindowJoinScoped | dotutils/fuzzy.py:259-294 | each window is matched only against the target rows of the same window: in every row whose window the target has, the new columns hold that row joined against that window's target rows alone |
| WindowJoin.WindowsJoinPrefixErr | dotutils/fuzzy.py:270-292 | a window that raises ends the loop with its exception |
| WindowJoin.JoinWindow | dotutils/fuzzy.py:271-290 | one window's body (select both frames, join in place or pass through) computes `WindowPart` |
| WindowJoin.JoinWindows | dotutils/fuzzy.py:267-292 | the loop over the windows computes `WindowsJoin` |
| WindowJoin.WindowFuzzyJoin | dotutils/fuzzy.py:259-294 | `window_fuzzy_join` computes `WindowJoinSpec` on the two frames |

## Left out

- Scorer internals: rapidfuzz's `fuzz.*` algorithms are not modelled. A scorer is an arbitrary total function into 0..100, and its float scores are integers here.
- FuzzyMatchBest: which of several equally good choices `process.extractOne` returns belongs to the library. The model returns the first one, and the contract promises only a choice that no other choice beats.
- Non-scorer entries of `fuzz.__dict__`: the guard (dotutils/fuzzy.py:54, 93) accepts any key of the module's dictionary, so a name such as `__name__` or `__doc__` passes it, and calling that entry at line 72 or 104 raises TypeError. Only the scorer entries are in the map `Scorers`, so that TypeError is not modelled; `JoinSucceeds` and the query contracts assume every accepted name is a scorer.
- tqdm progress bars (`tqdm.pandas()`, `progress_apply`, `tqdm(window_values)`) are output only.
- The pandas index: `reset_index` only renumbers rows, and rows here are positions in a sequence.
- Dtype inference is not modelled: the `object` dtype test is a set of text columns, and `concat`'s result takes the union of both frames' text columns.
- `columns_in_window` is always `None` (`list.extend` returns `None`), so the starting frame has no columns. It is modelled as the empty frame `NoFrame`.
- `target_df.copy()` is a copy of a value that is never changed, so the model uses the target frame directly.
- Values other than strings, integers and all-match lists are opaque. Python truthiness is modelled only for the cells the join tests: an empty text and a zero score.
- `dotutils/aws.py`, `dotutils/geocoding.py`, `dotutils/places.py`, `dotutils/routing.py`, `dotutils/geospatial.py` and `setup.py` are not part of this model. They are network, storage, vendor-SDK and float-geometry wrappers.

## Findings

| source | as written | input that shows it | evidently intended | confidence | as-written member | corrected member |
|---|---|---|---|---|---|---|
| dotutils/fuzzy.py:177 | `fuzzy_join` passes `target_df[target_column].unique()` as `choice_list`. That is a numpy array, and the query guard demands `type(choice_list) is list`. With more than one element, the array's truth test in the guard itself raises ValueError. So every row's query raises ValueError, and no join that passes its checks succeeds. The all-match branch at line 220 does the same. | anchor `[{name: "Jon Smith"}]`, target `[{name: "John Smith"}]`, threshold 80, `partial_ratio`: ValueError instead of a match | pass the distinct values as a list | high (not executed) | FuzzyJoin.JoinAsWrittenRaises | FuzzyJoin.JoinSucceeds |

`JoinTable` takes the container as a parameter. `AsArray` is the code as written and
`AsList` the corrected join. `FuzzyJoinFrames` and the window join use `AsList`.
