/** The two query functions of `dotutils/fuzzy.py`: `fuzzy_match_best` and
    `fuzzy_all_match`, together with the argument guard they share.

    The string-similarity algorithms of rapidfuzz are not modelled: a scorer is any
    total function from (query, choice) to an integer in 0..100, and the scorer
    entries of `fuzz.__dict__` are a map from algorithm name to scorer that the caller
    passes in. */
module FuzzyQuery {
  import opened Wrappers
  import opened Frames

  /** A rapidfuzz scorer such as `fuzz.partial_ratio`, scores as integers. */
  type Scorer = f: (string, string) -> int | forall a, b :: 0 <= f(a, b) <= 100
    witness (a: string, b: string) => 0

  /** The scorer entries of `fuzz.__dict__`, by name. The module's other entries
      (`__name__`, `__doc__`, ...) are not in this map. */
  type Scorers = map<string, Scorer>

  /** The exceptions the module raises (`KeyError` comes from pandas, on a display
      column that the target frame lacks). */
  datatype Error = ValueError | KeyError | EmptyDataFrame | MissingColumns | InvalidFuzzyAlgorithm

  /** The `choice_list` argument as Python sees it: a real `list`, or the numpy array
      that `Series.unique()` returns. */
  datatype Choices = PyList(items: seq<Cell>) | NpArray(items: seq<Cell>)

  predicate IsStr(c: Cell)
  {
    c.Some? && c.value.Str?
  }

  /** `x and type(x) is str`. */
  predicate IsNonEmptyStr(c: Cell)
  {
    IsStr(c) && c.value.s != ""
  }

  predicate AllStr(cs: seq<Cell>)
  {
    forall i :: 0 <= i < |cs| ==> IsStr(cs[i])
  }

  /** The guard both query functions test before doing anything. A numpy array never
      passes it: `type(choice_list) is list` is false for it, and with more than one
      element its truth value already raises `ValueError` — the same exception. */
  predicate ArgsOk(fuzz: Scorers, algorithm: string, query: Cell, choices: Choices, threshold: Value)
    ensures ArgsOk(fuzz, algorithm, query, choices, threshold) ==> |StrChoices(choices.items)| > 0
  {
    && algorithm in fuzz
    && IsNonEmptyStr(query)
    && choices.PyList?
    && |choices.items| > 0
    && AllStr(choices.items)
    && threshold.Int?
    && 0 <= threshold.i <= 100
  }

  /** `[choice for choice in choice_list if type(choice) is str]`. */
  function StrChoices(cs: seq<Cell>): (r: seq<string>)
    ensures |r| <= |cs|
    ensures forall x :: x in r <==> Some(Str(x)) in cs
  {
    if |cs| == 0 then []
    else
      var init := StrChoices(cs[..|cs| - 1]);
      assert cs == cs[..|cs| - 1] + [cs[|cs| - 1]];
      if IsStr(cs[|cs| - 1]) then init + [cs[|cs| - 1].value.s] else init
  }

  /** Once the guard has passed, the type filter of `fuzzy_match_best` keeps every choice. */
  lemma {:induction false} StrChoicesKeepsAll(cs: seq<Cell>)
    requires AllStr(cs)
    ensures |StrChoices(cs)| == |cs|
    ensures forall i :: 0 <= i < |cs| ==> cs[i] == Some(Str(StrChoices(cs)[i]))
  {
    if |cs| > 0 {
      StrChoicesKeepsAll(cs[..|cs| - 1]);
    }
  }

  /** The position of the first highest-scoring choice. */
  function ArgMax(f: Scorer, q: string, cs: seq<string>): (k: nat)
    requires |cs| > 0
    ensures k < |cs|
    ensures forall j :: 0 <= j < |cs| ==> f(q, cs[j]) <= f(q, cs[k])
    ensures forall j :: 0 <= j < k ==> f(q, cs[j]) < f(q, cs[k])
  {
    if |cs| == 1 then 0
    else
      var k := ArgMax(f, q, cs[..|cs| - 1]);
      if f(q, cs[|cs| - 1]) > f(q, cs[k]) then |cs| - 1 else k
  }

  /** `process.extractOne` with a score cutoff: the best choice when it scores at least
      `cutoff`. Which of several equally good choices it returns is the library's
      business; the model takes the first. */
  function ExtractOne(f: Scorer, q: string, cs: seq<string>, cutoff: int): (r: Option<FuzzyResult>)
    ensures r.None? <==> forall j :: 0 <= j < |cs| ==> f(q, cs[j]) < cutoff
    ensures r.Some? ==>
      && r.value.text in cs
      && r.value.score == f(q, r.value.text)
      && r.value.score >= cutoff
      && forall j :: 0 <= j < |cs| ==> f(q, cs[j]) <= r.value.score
  {
    if |cs| == 0 then None
    else
      var k := ArgMax(f, q, cs);
      if f(q, cs[k]) >= cutoff then Some(FuzzyResult(cs[k], f(q, cs[k]))) else None
  }

  /** `Fuzzy.fuzzy_match_best`: `Ok(None)` is the `(None, None)` answer. */
  function FuzzyMatchBest(fuzz: Scorers, query: Cell, choices: Choices, algorithm: string, threshold: Value)
    : (r: Result<Option<FuzzyResult>, Error>)
    ensures r.Err? <==> !ArgsOk(fuzz, algorithm, query, choices, threshold)
    ensures r.Err? ==> r.error == ValueError
    ensures r.Ok? ==>
      (r.value.None? <==>
        forall j :: 0 <= j < |choices.items| ==>
          fuzz[algorithm](query.value.s, choices.items[j].value.s) < threshold.i)
    ensures r.Ok? && r.value.Some? ==>
      && Some(Str(r.value.value.text)) in choices.items
      && r.value.value.score == fuzz[algorithm](query.value.s, r.value.value.text)
      && r.value.value.score >= threshold.i
      && forall j :: 0 <= j < |choices.items| ==>
           fuzz[algorithm](query.value.s, choices.items[j].value.s) <= r.value.value.score
  {
    if ArgsOk(fuzz, algorithm, query, choices, threshold) then
      var clean := StrChoices(choices.items);
      StrChoicesKeepsAll(choices.items);
      Ok(ExtractOne(fuzz[algorithm], query.value.s, clean, threshold.i))
    else
      Err(ValueError)
  }

  /** With a threshold of 0 every choice clears the cutoff, so a valid query always
      finds a match. */
  lemma ZeroThresholdMatches(fuzz: Scorers, query: Cell, choices: Choices, algorithm: string)
    requires ArgsOk(fuzz, algorithm, query, choices, Int(0))
    ensures FuzzyMatchBest(fuzz, query, choices, algorithm, Int(0)).Ok?
    ensures FuzzyMatchBest(fuzz, query, choices, algorithm, Int(0)).value.Some?
  {
    assert fuzz[algorithm](query.value.s, choices.items[0].value.s) >= 0;
  }

  /** A query that is itself among the choices, under a scorer that gives a string and
      itself the full score, is matched with score 100. */
  lemma ExactMatchScores100(fuzz: Scorers, query: Cell, choices: Choices, algorithm: string, threshold: Value)
    requires ArgsOk(fuzz, algorithm, query, choices, threshold)
    requires query in choices.items
    requires fuzz[algorithm](query.value.s, query.value.s) == 100
    ensures FuzzyMatchBest(fuzz, query, choices, algorithm, threshold).Ok?
    ensures FuzzyMatchBest(fuzz, query, choices, algorithm, threshold).value.Some?
    ensures FuzzyMatchBest(fuzz, query, choices, algorithm, threshold).value.value.score == 100
  {
    var j :| 0 <= j < |choices.items| && choices.items[j] == query;
    assert fuzz[algorithm](query.value.s, choices.items[j].value.s) == 100;
  }

  /** `if match_result and match_result >= threshold`: a zero score never counts, so the
      zero test matters only when the threshold is 0. */
  predicate Keep(score: int, threshold: int)
    ensures threshold > 0 ==> (Keep(score, threshold) <==> score >= threshold)
  {
    score != 0 && score >= threshold
  }

  /** The list `fuzzy_all_match` builds: every choice that is kept, with its score, in
      the order of the choices and with duplicates. */
  function AllMatches(f: Scorer, q: string, cs: seq<string>, threshold: int): (r: seq<FuzzyResult>)
    ensures |r| <= |cs|
    ensures forall m :: m in r ==> m.text in cs && m.score == f(q, m.text) && Keep(m.score, threshold)
  {
    if |cs| == 0 then []
    else
      var init := AllMatches(f, q, cs[..|cs| - 1], threshold);
      var c := cs[|cs| - 1];
      if Keep(f(q, c), threshold) then init + [FuzzyResult(c, f(q, c))] else init
  }

  /** A choice is reported exactly when it is kept. */
  lemma {:induction false} AllMatchesMember(f: Scorer, q: string, cs: seq<string>, threshold: int, c: string)
    ensures FuzzyResult(c, f(q, c)) in AllMatches(f, q, cs, threshold) <==> c in cs && Keep(f(q, c), threshold)
  {
    if |cs| > 0 {
      AllMatchesMember(f, q, cs[..|cs| - 1], threshold, c);
      assert cs == cs[..|cs| - 1] + [cs[|cs| - 1]];
    }
  }

  /** Matching distributes over concatenation of the choices: order and duplicates
      follow the choice list. */
  lemma {:induction false} AllMatchesAppend(f: Scorer, q: string, a: seq<string>, b: seq<string>, threshold: int)
    ensures AllMatches(f, q, a + b, threshold) == AllMatches(f, q, a, threshold) + AllMatches(f, q, b, threshold)
  {
    if |b| > 0 {
      assert (a + b)[..|a + b| - 1] == a + b[..|b| - 1];
      AllMatchesAppend(f, q, a, b[..|b| - 1], threshold);
    } else {
      assert a + b == a;
    }
  }

  /** `Fuzzy.fuzzy_all_match` as a value. */
  function AllMatchSpec(fuzz: Scorers, query: Cell, choices: Choices, algorithm: string, threshold: Value)
    : (r: Result<seq<FuzzyResult>, Error>)
    ensures r.Err? <==> !ArgsOk(fuzz, algorithm, query, choices, threshold)
    ensures r.Err? ==> r.error == ValueError
  {
    if ArgsOk(fuzz, algorithm, query, choices, threshold) then
      Ok(AllMatches(fuzz[algorithm], query.value.s, StrChoices(choices.items), threshold.i))
    else
      Err(ValueError)
  }

  /** `Fuzzy.fuzzy_all_match`: the loop that appends each kept choice. */
  method FuzzyAllMatch(fuzz: Scorers, query: Cell, choices: Choices, algorithm: string, threshold: Value)
    returns (r: Result<seq<FuzzyResult>, Error>)
    ensures r == AllMatchSpec(fuzz, query, choices, algorithm, threshold)
  {
    if !ArgsOk(fuzz, algorithm, query, choices, threshold) {
      return Err(ValueError);
    }
    var f := fuzz[algorithm];
    var q := query.value.s;
    var cs := StrChoices(choices.items);
    var matches: seq<FuzzyResult> := [];
    for i := 0 to |cs|
      invariant matches == AllMatches(f, q, cs[..i], threshold.i)
    {
      assert cs[..i + 1][..i] == cs[..i];
      var s := f(q, cs[i]);
      if s != 0 && s >= threshold.i {
        matches := matches + [FuzzyResult(cs[i], s)];
      }
    }
    assert cs[..|cs|] == cs;
    return Ok(matches);
  }
}
