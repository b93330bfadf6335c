/** Row-batch post-processing of the batch-primitive step: the second
    function-expression group applied to returned row groups (`processFE2`,
    `processFE2_oneRG`), the cross product of a large-side row with its
    small-side matches (`generateJoinResultSet`), and the copying of
    duplicate output columns. Rows are values of type parameters; the
    expression evaluator and the row mappings are function parameters. */
module RowBatches {

  /** A row group holds at most this many rows. */
  const MAX_BATCH_ROWS: nat := 8192

  /** A row group: its base RID, its DB root and its rows. */
  datatype RowBatch<T> = RowBatch(baseRid: int, dbRoot: int, rows: seq<T>)

  /** The rows of `rows` that pass `eval`, each mapped to the output layout
      (`applyMapping` and `setRid`), in their order. */
  function Passing<I, O>(rows: seq<I>, eval: I -> bool, project: I -> O): seq<O>
  {
    if rows == [] then []
    else
      var last := rows[|rows| - 1];
      Passing(rows[..|rows| - 1], eval, project) + (if eval(last) then [project(last)] else [])
  }

  lemma {:induction false} PassingAppend<I, O>(a: seq<I>, b: seq<I>, eval: I -> bool, project: I -> O)
    ensures Passing(a + b, eval, project) == Passing(a, eval, project) + Passing(b, eval, project)
    decreases |b|
  {
    if b == [] {
      assert a + b == a;
    } else {
      assert (a + b)[..|a + b| - 1] == a + b[..|b| - 1];
      PassingAppend(a, b[..|b| - 1], eval, project);
    }
  }

  /** At most one output row per input row; every output row comes from a
      passing input row, and every passing input row yields one. */
  lemma {:induction false} PassingFacts<I, O>(rows: seq<I>, eval: I -> bool, project: I -> O)
    ensures |Passing(rows, eval, project)| <= |rows|
    ensures forall o :: o in Passing(rows, eval, project) ==> exists r :: r in rows && eval(r) && o == project(r)
    ensures forall r :: r in rows && eval(r) ==> project(r) in Passing(rows, eval, project)
  {
    if rows != [] {
      var front := rows[..|rows| - 1];
      PassingFacts(front, eval, project);
      assert rows == front + [rows[|rows| - 1]];
      forall o | o in Passing(rows, eval, project) ensures exists r :: r in rows && eval(r) && o == project(r) {
        if o in Passing(front, eval, project) {
          var r :| r in front && eval(r) && o == project(r);
          assert r in rows;
        } else {
          assert rows[|rows| - 1] in rows;
        }
      }
    }
  }

  /** `processFE2_oneRG`: the passing rows of one row group, under its base
      RID and DB root. */
  method ProcessFE2OneRG<I, O>(input: RowBatch<I>, eval: I -> bool, project: I -> O) returns (output: RowBatch<O>)
    ensures output == RowBatch(input.baseRid, input.dbRoot, Passing(input.rows, eval, project))
  {
    output := RowBatch(input.baseRid, input.dbRoot, []);
    var i := 0;
    while i < |input.rows|
      invariant i <= |input.rows|
      invariant output == RowBatch(input.baseRid, input.dbRoot, Passing(input.rows[..i], eval, project))
    {
      assert input.rows[..i + 1][..i] == input.rows[..i];
      if eval(input.rows[i]) {
        output := output.(rows := output.rows + [project(input.rows[i])]);
      }
      i := i + 1;
    }
    assert input.rows[..|input.rows|] == input.rows;
  }

  /** The state of `processFE2`: the finished row groups and the one being
      filled. */
  datatype Fe2State<O> = Fe2State(results: seq<RowBatch<O>>, cur: RowBatch<O>)

  /** Before an input row group: an empty output group takes its base RID
      and DB root. */
  function Fe2Start<I, O>(st: Fe2State<O>, input: RowBatch<I>): Fe2State<O>
  {
    if |st.cur.rows| == 0 then st.(cur := RowBatch(input.baseRid, input.dbRoot, [])) else st
  }

  /** A passing row as written: it is appended, and then the output group is
      closed when it is full or its base RID or DB root differ from the
      input group's. */
  function Fe2RowAsWritten<I, O>(st: Fe2State<O>, input: RowBatch<I>, o: O): Fe2State<O>
  {
    var cur := st.cur.(rows := st.cur.rows + [o]);
    if |cur.rows| == MAX_BATCH_ROWS || cur.dbRoot != input.dbRoot || cur.baseRid != input.baseRid
    then Fe2State(st.results + [cur], RowBatch(input.baseRid, input.dbRoot, []))
    else Fe2State(st.results, cur)
  }

  /** The evidently intended step: a non-empty group from another base RID
      or DB root is closed before the row is appended, and a full group
      after. */
  function Fe2RowCorrected<I, O>(st: Fe2State<O>, input: RowBatch<I>, o: O): Fe2State<O>
  {
    var st1 :=
      if st.cur.dbRoot != input.dbRoot || st.cur.baseRid != input.baseRid
      then Fe2State(st.results + (if |st.cur.rows| > 0 then [st.cur] else []), RowBatch(input.baseRid, input.dbRoot, []))
      else st;
    var cur := st1.cur.(rows := st1.cur.rows + [o]);
    if |cur.rows| == MAX_BATCH_ROWS
    then Fe2State(st1.results + [cur], RowBatch(input.baseRid, input.dbRoot, []))
    else Fe2State(st1.results, cur)
  }

  /** One passing row, as written or corrected. */
  function Fe2Row<I, O>(st: Fe2State<O>, input: RowBatch<I>, o: O, corrected: bool): Fe2State<O>
  {
    if corrected then Fe2RowCorrected(st, input, o) else Fe2RowAsWritten(st, input, o)
  }

  /** The state after the first n rows of `input`. */
  function Fe2Rows<I, O>(st: Fe2State<O>, input: RowBatch<I>, n: nat, eval: I -> bool, project: I -> O, corrected: bool): Fe2State<O>
    requires n <= |input.rows|
  {
    if n == 0 then st
    else
      var s := Fe2Rows(st, input, n - 1, eval, project, corrected);
      if eval(input.rows[n - 1]) then Fe2Row(s, input, project(input.rows[n - 1]), corrected) else s
  }

  /** The state after the first n input groups. The output group starts
      with base RID -1. */
  function Fe2Batches<I, O>(inputs: seq<RowBatch<I>>, n: nat, eval: I -> bool, project: I -> O, corrected: bool): Fe2State<O>
    requires n <= |inputs|
  {
    if n == 0 then Fe2State([], RowBatch(-1, 0, []))
    else
      var b := inputs[n - 1];
      Fe2Rows(Fe2Start(Fe2Batches(inputs, n - 1, eval, project, corrected), b), b, |b.rows|, eval, project, corrected)
  }

  /** A last group is kept only when it holds rows. */
  function Fe2Finish<O>(st: Fe2State<O>): seq<RowBatch<O>>
  {
    if |st.cur.rows| > 0 then st.results + [st.cur] else st.results
  }

  function ProcessFE2AsWritten<I, O>(inputs: seq<RowBatch<I>>, eval: I -> bool, project: I -> O): seq<RowBatch<O>>
  {
    Fe2Finish(Fe2Batches(inputs, |inputs|, eval, project, false))
  }

  function ProcessFE2Corrected<I, O>(inputs: seq<RowBatch<I>>, eval: I -> bool, project: I -> O): seq<RowBatch<O>>
  {
    Fe2Finish(Fe2Batches(inputs, |inputs|, eval, project, true))
  }

  /** `processFE2` as written: filter and map every row of every input
      group into row groups of at most 8192 rows. */
  method ProcessFE2<I, O>(inputs: seq<RowBatch<I>>, eval: I -> bool, project: I -> O) returns (results: seq<RowBatch<O>>)
    ensures results == ProcessFE2AsWritten(inputs, eval, project)
  {
    var st: Fe2State<O> := Fe2State([], RowBatch(-1, 0, []));
    var i := 0;
    while i < |inputs|
      invariant i <= |inputs|
      invariant st == Fe2Batches(inputs, i, eval, project, false)
    {
      st := Fe2Start(st, inputs[i]);
      st := Fe2ScanGroup(st, inputs[i], eval, project, false);
      i := i + 1;
    }
    results := Fe2Finish(st);
  }

  /** The corrected `processFE2`. */
  method ProcessFE2Fixed<I, O>(inputs: seq<RowBatch<I>>, eval: I -> bool, project: I -> O) returns (results: seq<RowBatch<O>>)
    ensures results == ProcessFE2Corrected(inputs, eval, project)
  {
    var st: Fe2State<O> := Fe2State([], RowBatch(-1, 0, []));
    var i := 0;
    while i < |inputs|
      invariant i <= |inputs|
      invariant st == Fe2Batches(inputs, i, eval, project, true)
    {
      st := Fe2Start(st, inputs[i]);
      st := Fe2ScanGroup(st, inputs[i], eval, project, true);
      i := i + 1;
    }
    results := Fe2Finish(st);
  }

  /** The inner loop of `processFE2` over the rows of one input group. */
  method Fe2ScanGroup<I, O>(st0: Fe2State<O>, input: RowBatch<I>, eval: I -> bool, project: I -> O, corrected: bool)
    returns (st: Fe2State<O>)
    ensures st == Fe2Rows(st0, input, |input.rows|, eval, project, corrected)
  {
    st := st0;
    var j := 0;
    while j < |input.rows|
      invariant j <= |input.rows|
      invariant st == Fe2Rows(st0, input, j, eval, project, corrected)
    {
      if eval(input.rows[j]) {
        var o := project(input.rows[j]);
        if corrected {
          if st.cur.dbRoot != input.dbRoot || st.cur.baseRid != input.baseRid {
            if |st.cur.rows| > 0 {
              st := st.(results := st.results + [st.cur]);
            }
            st := st.(cur := RowBatch(input.baseRid, input.dbRoot, []));
          }
          st := st.(cur := st.cur.(rows := st.cur.rows + [o]));
          if |st.cur.rows| == MAX_BATCH_ROWS {
            st := Fe2State(st.results + [st.cur], RowBatch(input.baseRid, input.dbRoot, []));
          }
        } else {
          st := st.(cur := st.cur.(rows := st.cur.rows + [o]));
          if |st.cur.rows| == MAX_BATCH_ROWS || st.cur.dbRoot != input.dbRoot || st.cur.baseRid != input.baseRid {
            st := Fe2State(st.results + [st.cur], RowBatch(input.baseRid, input.dbRoot, []));
          }
        }
      }
      j := j + 1;
    }
  }

  /** The rows of a list of row groups, in order. */
  function Flatten<T>(batches: seq<RowBatch<T>>): seq<T>
  {
    if batches == [] then [] else Flatten(batches[..|batches| - 1]) + batches[|batches| - 1].rows
  }

  lemma {:induction false} FlattenAppend<T>(a: seq<RowBatch<T>>, b: RowBatch<T>)
    ensures Flatten(a + [b]) == Flatten(a) + b.rows
  {
    assert (a + [b])[..|a|] == a;
  }

  /** The rows of all input groups that pass, mapped, in input order. */
  function AllPassing<I, O>(inputs: seq<RowBatch<I>>, eval: I -> bool, project: I -> O): seq<O>
  {
    if inputs == [] then []
    else AllPassing(inputs[..|inputs| - 1], eval, project) + Passing(inputs[|inputs| - 1].rows, eval, project)
  }

  /** Every finished group holds 1 to 8192 rows and the open one fewer than
      8192. */
  predicate SizesOk<O>(st: Fe2State<O>)
  {
    (forall k :: 0 <= k < |st.results| ==> 0 < |st.results[k].rows| <= MAX_BATCH_ROWS) &&
    |st.cur.rows| < MAX_BATCH_ROWS
  }

  /** One passing row keeps the rows in order and the group sizes bounded. */
  lemma Fe2RowFacts<I, O>(st: Fe2State<O>, input: RowBatch<I>, o: O, corrected: bool)
    requires SizesOk(st)
    ensures SizesOk(Fe2Row(st, input, o, corrected))
    ensures Flatten(Fe2Row(st, input, o, corrected).results) + Fe2Row(st, input, o, corrected).cur.rows ==
      Flatten(st.results) + st.cur.rows + [o]
  {
    if corrected {
      Fe2RowCorrectedFacts(st, input, o);
    } else {
      Fe2RowAsWrittenFacts(st, input, o);
    }
  }

  lemma Fe2RowAsWrittenFacts<I, O>(st: Fe2State<O>, input: RowBatch<I>, o: O)
    requires SizesOk(st)
    ensures SizesOk(Fe2RowAsWritten(st, input, o))
    ensures Flatten(Fe2RowAsWritten(st, input, o).results) + Fe2RowAsWritten(st, input, o).cur.rows ==
      Flatten(st.results) + st.cur.rows + [o]
  {
    var cur := st.cur.(rows := st.cur.rows + [o]);
    if Fe2RowAsWritten(st, input, o).results != st.results {
      FlattenAppend(st.results, cur);
    }
  }

  lemma Fe2RowCorrectedFacts<I, O>(st: Fe2State<O>, input: RowBatch<I>, o: O)
    requires SizesOk(st)
    ensures SizesOk(Fe2RowCorrected(st, input, o))
    ensures Flatten(Fe2RowCorrected(st, input, o).results) + Fe2RowCorrected(st, input, o).cur.rows ==
      Flatten(st.results) + st.cur.rows + [o]
  {
    var started := RowBatch(input.baseRid, input.dbRoot, [o]);
    if (st.cur.dbRoot != input.dbRoot || st.cur.baseRid != input.baseRid) && |st.cur.rows| > 0 {
      assert Fe2RowCorrected(st, input, o) == Fe2State(st.results + [st.cur], started);
      FlattenAppend(st.results, st.cur);
    } else if st.cur.dbRoot != input.dbRoot || st.cur.baseRid != input.baseRid {
      assert Fe2RowCorrected(st, input, o) == Fe2State(st.results, started);
    } else {
      var cur := st.cur.(rows := st.cur.rows + [o]);
      if |cur.rows| == MAX_BATCH_ROWS {
        assert Fe2RowCorrected(st, input, o) == Fe2State(st.results + [cur], RowBatch(input.baseRid, input.dbRoot, []));
        FlattenAppend(st.results, cur);
      } else {
        assert Fe2RowCorrected(st, input, o) == Fe2State(st.results, cur);
      }
    }
  }

  /** Scanning the rows of one group appends its passing rows. */
  lemma {:induction false} Fe2RowsFacts<I, O>(st: Fe2State<O>, input: RowBatch<I>, n: nat, eval: I -> bool, project: I -> O, corrected: bool)
    requires n <= |input.rows| && SizesOk(st)
    ensures SizesOk(Fe2Rows(st, input, n, eval, project, corrected))
    ensures Flatten(Fe2Rows(st, input, n, eval, project, corrected).results) + Fe2Rows(st, input, n, eval, project, corrected).cur.rows ==
      Flatten(st.results) + st.cur.rows + Passing(input.rows[..n], eval, project)
  {
    if n > 0 {
      Fe2RowsFacts(st, input, n - 1, eval, project, corrected);
      Fe2RowsStep(st, input, n, eval, project, corrected);
    }
  }

  /** The last of n rows extends what the first n - 1 emitted. */
  lemma Fe2RowsStep<I, O>(st: Fe2State<O>, input: RowBatch<I>, n: nat, eval: I -> bool, project: I -> O, corrected: bool)
    requires 0 < n <= |input.rows|
    requires SizesOk(Fe2Rows(st, input, n - 1, eval, project, corrected))
    requires Flatten(Fe2Rows(st, input, n - 1, eval, project, corrected).results) + Fe2Rows(st, input, n - 1, eval, project, corrected).cur.rows ==
      Flatten(st.results) + st.cur.rows + Passing(input.rows[..n - 1], eval, project)
    ensures SizesOk(Fe2Rows(st, input, n, eval, project, corrected))
    ensures Flatten(Fe2Rows(st, input, n, eval, project, corrected).results) + Fe2Rows(st, input, n, eval, project, corrected).cur.rows ==
      Flatten(st.results) + st.cur.rows + Passing(input.rows[..n], eval, project)
  {
    var s := Fe2Rows(st, input, n - 1, eval, project, corrected);
    var before := Flatten(st.results) + st.cur.rows;
    var passed := Passing(input.rows[..n - 1], eval, project);
    var last := input.rows[n - 1];
    assert Passing(input.rows[..n], eval, project) == passed + (if eval(last) then [project(last)] else []) by {
      assert input.rows[..n][..n - 1] == input.rows[..n - 1];
    }
    if eval(last) {
      Fe2RowFacts(s, input, project(last), corrected);
      assert (before + passed) + [project(last)] == before + (passed + [project(last)]);
    } else {
      assert passed + [] == passed;
    }
  }

  /** After n input groups: the output rows so far are the passing rows of
      those groups, in order, in groups of 1 to 8192 rows. */
  lemma {:induction false} Fe2BatchesFacts<I, O>(inputs: seq<RowBatch<I>>, n: nat, eval: I -> bool, project: I -> O, corrected: bool)
    requires n <= |inputs|
    ensures SizesOk(Fe2Batches(inputs, n, eval, project, corrected))
    ensures Flatten(Fe2Batches(inputs, n, eval, project, corrected).results) + Fe2Batches(inputs, n, eval, project, corrected).cur.rows ==
      AllPassing(inputs[..n], eval, project)
  {
    if n > 0 {
      Fe2BatchesFacts(inputs, n - 1, eval, project, corrected);
      var b := inputs[n - 1];
      var s := Fe2Start(Fe2Batches(inputs, n - 1, eval, project, corrected), b);
      Fe2RowsFacts(s, b, |b.rows|, eval, project, corrected);
      assert b.rows[..|b.rows|] == b.rows;
      assert inputs[..n][..n - 1] == inputs[..n - 1];
    }
  }

  /** `processFE2` (as written and corrected alike) returns exactly the
      passing rows of its input, in input order, in row groups of 1 to 8192
      rows: no empty group is appended. */
  lemma ProcessFE2Facts<I, O>(inputs: seq<RowBatch<I>>, eval: I -> bool, project: I -> O, corrected: bool)
    ensures var out := Fe2Finish(Fe2Batches(inputs, |inputs|, eval, project, corrected));
            Flatten(out) == AllPassing(inputs, eval, project) &&
            forall k :: 0 <= k < |out| ==> 0 < |out[k].rows| <= MAX_BATCH_ROWS
  {
    var st := Fe2Batches(inputs, |inputs|, eval, project, corrected);
    Fe2BatchesFacts(inputs, |inputs|, eval, project, corrected);
    assert inputs[..|inputs|] == inputs;
    if |st.cur.rows| > 0 {
      FlattenAppend(st.results, st.cur);
    } else {
      assert st.cur.rows == [];
    }
  }

  /** A row tagged with the base RID and DB root of its row group. */
  datatype Tagged<T> = Tagged(baseRid: int, dbRoot: int, row: T)

  /** The rows of a list of row groups, each tagged with its group's base RID
      and DB root. */
  function TaggedRows<T>(batches: seq<RowBatch<T>>): seq<Tagged<T>>
  {
    if batches == [] then [] else TaggedRows(batches[..|batches| - 1]) + Tag(batches[|batches| - 1])
  }

  function Tag<T>(b: RowBatch<T>): seq<Tagged<T>>
  {
    seq(|b.rows|, k requires 0 <= k < |b.rows| => Tagged(b.baseRid, b.dbRoot, b.rows[k]))
  }

  /** The passing rows of every input group, tagged with that group's base
      RID and DB root: where each output row belongs. */
  function TaggedPassing<I, O>(inputs: seq<RowBatch<I>>, eval: I -> bool, project: I -> O): seq<Tagged<O>>
  {
    if inputs == [] then []
    else
      var b := inputs[|inputs| - 1];
      TaggedPassing(inputs[..|inputs| - 1], eval, project) + Tag(RowBatch(b.baseRid, b.dbRoot, Passing(b.rows, eval, project)))
  }

  lemma TagAppend<T>(b: RowBatch<T>, x: T)
    ensures Tag(b.(rows := b.rows + [x])) == Tag(b) + [Tagged(b.baseRid, b.dbRoot, x)]
  {
  }

  lemma {:induction false} TaggedRowsAppend<T>(a: seq<RowBatch<T>>, b: RowBatch<T>)
    ensures TaggedRows(a + [b]) == TaggedRows(a) + Tag(b)
  {
    assert (a + [b])[..|a|] == a;
  }

  /** The corrected step keeps the open group on the input group's base RID
      and DB root and every row under the tags of its own input group. */
  lemma Fe2RowCorrectedTags<I, O>(st: Fe2State<O>, input: RowBatch<I>, o: O)
    ensures var r := Fe2RowCorrected(st, input, o);
            r.cur.baseRid == input.baseRid && r.cur.dbRoot == input.dbRoot &&
            TaggedRows(r.results) + Tag(r.cur) == TaggedRows(st.results) + Tag(st.cur) + [Tagged(input.baseRid, input.dbRoot, o)]
  {
    var r := Fe2RowCorrected(st, input, o);
    var differs := st.cur.dbRoot != input.dbRoot || st.cur.baseRid != input.baseRid;
    var st1 :=
      if differs
      then Fe2State(st.results + (if |st.cur.rows| > 0 then [st.cur] else []), RowBatch(input.baseRid, input.dbRoot, []))
      else st;
    assert TaggedRows(st1.results) + Tag(st1.cur) == TaggedRows(st.results) + Tag(st.cur) by {
      if differs {
        if |st.cur.rows| > 0 {
          TaggedRowsAppend(st.results, st.cur);
        } else {
          assert st.results + [] == st.results;
        }
      }
    }
    var cur := st1.cur.(rows := st1.cur.rows + [o]);
    TagAppend(st1.cur, o);
    if |cur.rows| == MAX_BATCH_ROWS {
      TaggedRowsAppend(st1.results, cur);
    }
  }

  /** Corrected, scanning one input group appends its passing rows under
      its base RID and DB root. */
  lemma {:induction false} Fe2RowsCorrectedTags<I, O>(st: Fe2State<O>, input: RowBatch<I>, n: nat, eval: I -> bool, project: I -> O)
    requires n <= |input.rows|
    ensures var r := Fe2Rows(st, input, n, eval, project, true);
            TaggedRows(r.results) + Tag(r.cur) ==
              TaggedRows(st.results) + Tag(st.cur) + Tag(RowBatch(input.baseRid, input.dbRoot, Passing(input.rows[..n], eval, project)))
  {
    if n == 0 {
      assert Tag(RowBatch(input.baseRid, input.dbRoot, Passing(input.rows[..0], eval, project))) == [];
    } else {
      Fe2RowsCorrectedTags(st, input, n - 1, eval, project);
      var s := Fe2Rows(st, input, n - 1, eval, project, true);
      assert input.rows[..n][..n - 1] == input.rows[..n - 1];
      var before := Passing(input.rows[..n - 1], eval, project);
      if eval(input.rows[n - 1]) {
        var o := project(input.rows[n - 1]);
        Fe2RowCorrectedTags(s, input, o);
        TagAppend(RowBatch(input.baseRid, input.dbRoot, before), o);
      }
    }
  }

  /** Corrected, after n input groups every output row so far carries the
      tags of its input group. */
  lemma {:induction false} Fe2BatchesCorrectedTags<I, O>(inputs: seq<RowBatch<I>>, n: nat, eval: I -> bool, project: I -> O)
    requires n <= |inputs|
    ensures var st := Fe2Batches(inputs, n, eval, project, true);
            TaggedRows(st.results) + Tag(st.cur) == TaggedPassing(inputs[..n], eval, project)
  {
    if n > 0 {
      Fe2BatchesCorrectedTags(inputs, n - 1, eval, project);
      var b := inputs[n - 1];
      var prev := Fe2Batches(inputs, n - 1, eval, project, true);
      var s := Fe2Start(prev, b);
      assert TaggedRows(s.results) + Tag(s.cur) == TaggedRows(prev.results) + Tag(prev.cur);
      Fe2RowsCorrectedTags(s, b, |b.rows|, eval, project);
      assert b.rows[..|b.rows|] == b.rows;
      assert inputs[..n][..n - 1] == inputs[..n - 1];
    }
  }

  /** Corrected, every output row sits in a group with the base RID and DB
      root of the input group it came from. */
  lemma ProcessFE2CorrectedKeepsTags<I, O>(inputs: seq<RowBatch<I>>, eval: I -> bool, project: I -> O)
    ensures TaggedRows(ProcessFE2Corrected(inputs, eval, project)) == TaggedPassing(inputs, eval, project)
  {
    var st := Fe2Batches(inputs, |inputs|, eval, project, true);
    Fe2BatchesCorrectedTags(inputs, |inputs|, eval, project);
    assert inputs[..|inputs|] == inputs;
    if |st.cur.rows| > 0 {
      TaggedRowsAppend(st.results, st.cur);
    } else {
      assert Tag(st.cur) == [];
    }
  }

  /** Concrete evaluator and mapping: every row passes unchanged. */
  function KeepAll(r: int): bool { true }
  function SameRow(r: int): int { r }

  /** Two input groups with different base RIDs, one passing row each. */
  function TwoGroups(): seq<RowBatch<int>>
  {
    [RowBatch(0, 1, [7]), RowBatch(8192, 1, [9])]
  }

  /** As written, the row of the second group is appended to the open group
      of the first and leaves under the first group's base RID. */
  lemma ProcessFE2MisTagsRow()
    ensures ProcessFE2AsWritten(TwoGroups(), KeepAll, SameRow) == [RowBatch(0, 1, [7, 9])]
    ensures TaggedRows(ProcessFE2AsWritten(TwoGroups(), KeepAll, SameRow)) != TaggedPassing(TwoGroups(), KeepAll, SameRow)
  {
    TwoGroupsAsWritten();
    var out := [RowBatch(0, 1, [7, 9])];
    assert TaggedRows(out) == [Tagged(0, 1, 7), Tagged(0, 1, 9)] by {
      assert out[..0] == [];
    }
    TwoGroupsTagged();
  }

  lemma TwoGroupsAsWritten()
    ensures ProcessFE2AsWritten(TwoGroups(), KeepAll, SameRow) == [RowBatch(0, 1, [7, 9])]
  {
    var inputs := TwoGroups();
    TwoGroupsFirst(false);
    Fe2SingleRow(inputs, 2, KeepAll, SameRow, false);
    assert [7] + [9] == [7, 9];
    assert Fe2Batches(inputs, 2, KeepAll, SameRow, false) == Fe2State([RowBatch(0, 1, [7, 9])], RowBatch(8192, 1, []));
  }

  /** Group n-1 holds one passing row: the state after it is one row step. */
  lemma Fe2SingleRow<I, O>(inputs: seq<RowBatch<I>>, n: nat, eval: I -> bool, project: I -> O, corrected: bool)
    requires 0 < n <= |inputs| && |inputs[n - 1].rows| == 1 && eval(inputs[n - 1].rows[0])
    ensures var b := inputs[n - 1];
      Fe2Batches(inputs, n, eval, project, corrected) ==
      Fe2Row(Fe2Start(Fe2Batches(inputs, n - 1, eval, project, corrected), b), b, project(b.rows[0]), corrected)
  {
    var b := inputs[n - 1];
    var s := Fe2Start(Fe2Batches(inputs, n - 1, eval, project, corrected), b);
    assert Fe2Rows(s, b, 0, eval, project, corrected) == s;
    assert Fe2Rows(s, b, 1, eval, project, corrected) == Fe2Row(s, b, project(b.rows[0]), corrected);
  }

  /** After the first of the two groups, either way: one open group. */
  lemma TwoGroupsFirst(corrected: bool)
    ensures Fe2Batches(TwoGroups(), 1, KeepAll, SameRow, corrected) == Fe2State([], RowBatch(0, 1, [7]))
  {
    Fe2SingleRow(TwoGroups(), 1, KeepAll, SameRow, corrected);
  }

  /** Where the two rows belong: the second under base RID 8192. */
  lemma TwoGroupsTagged()
    ensures TaggedPassing(TwoGroups(), KeepAll, SameRow) == [Tagged(0, 1, 7), Tagged(8192, 1, 9)]
  {
    var inputs := TwoGroups();
    assert Passing([7], KeepAll, SameRow) == [7];
    assert Passing([9], KeepAll, SameRow) == [9];
    assert inputs[..1] == [RowBatch(0, 1, [7])];
    assert inputs[..1][..0] == [];
    assert TaggedPassing(inputs[..1], KeepAll, SameRow) == [Tagged(0, 1, 7)];
  }

  /** Corrected, each row leaves under its own group's base RID. */
  lemma ProcessFE2CorrectedSplitsGroups()
    ensures ProcessFE2Corrected(TwoGroups(), KeepAll, SameRow) == [RowBatch(0, 1, [7]), RowBatch(8192, 1, [9])]
  {
    var inputs := TwoGroups();
    TwoGroupsFirst(true);
    Fe2SingleRow(inputs, 2, KeepAll, SameRow, true);
    assert Fe2Batches(inputs, 2, KeepAll, SameRow, true) == Fe2State([RowBatch(0, 1, [7])], RowBatch(8192, 1, [9]));
  }

  /** One input group with fewer than 8192 passing rows comes out as the
      single group `processFE2_oneRG` would make of it, or as nothing when
      no row passes. */
  lemma ProcessFE2OfOneGroup<I, O>(b: RowBatch<I>, eval: I -> bool, project: I -> O, corrected: bool)
    requires |Passing(b.rows, eval, project)| < MAX_BATCH_ROWS
    ensures Fe2Finish(Fe2Batches([b], 1, eval, project, corrected)) ==
      if Passing(b.rows, eval, project) == [] then [] else [RowBatch(b.baseRid, b.dbRoot, Passing(b.rows, eval, project))]
  {
    var st := Fe2Start(Fe2State([], RowBatch(-1, 0, [])), b);
    assert b.rows[..|b.rows|] == b.rows;
    Fe2RowsOneGroup(st, b, |b.rows|, eval, project, corrected);
    assert b.rows[..|b.rows|] == b.rows;
  }

  lemma {:induction false} Fe2RowsOneGroup<I, O>(st: Fe2State<O>, b: RowBatch<I>, n: nat, eval: I -> bool, project: I -> O, corrected: bool)
    requires n <= |b.rows| && st == Fe2State([], RowBatch(b.baseRid, b.dbRoot, []))
    requires |Passing(b.rows[..n], eval, project)| < MAX_BATCH_ROWS
    ensures Fe2Rows(st, b, n, eval, project, corrected) == Fe2State([], RowBatch(b.baseRid, b.dbRoot, Passing(b.rows[..n], eval, project)))
  {
    if n > 0 {
      assert b.rows[..n][..n - 1] == b.rows[..n - 1];
      Fe2RowsOneGroup(st, b, n - 1, eval, project, corrected);
    }
  }

  // ---- generateJoinResultSet ----

  /** `Product(jo, d)`: the number of combinations of one row from each small
      side d, d+1, ... */
  function Product<S>(jo: seq<seq<S>>, d: nat): nat
    decreases |jo| - d
  {
    if d >= |jo| then 1 else |jo[d]| * Product(jo, d + 1)
  }

  /** The joined rows produced by the first n matches at small side `depth`,
      and the base row left behind: each match is mapped onto the base row
      (`applyMapping`), which carries on to the next match and the deeper
      sides; at the last side every mapped base row is emitted. */
  function JoinPrefix<S, B>(jo: seq<seq<S>>, depth: nat, base: B, n: nat, apply: (nat, S, B) -> B): (seq<B>, B)
    requires depth < |jo| && n <= |jo[depth]|
    decreases |jo| - depth, n
  {
    if n == 0 then ([], base)
    else
      var (rows, b) := JoinPrefix(jo, depth, base, n - 1, apply);
      var b1 := apply(depth, jo[depth][n - 1], b);
      if depth == |jo| - 1 then (rows + [b1], b1)
      else
        var (sub, b2) := JoinPrefix(jo, depth + 1, b1, |jo[depth + 1]|, apply);
        (rows + sub, b2)
  }

  lemma MulStep(a: nat, n: nat, p: nat)
    ensures (n - 1) * p + p == n * p || n == 0
  {
  }

  /** The cross product has one row per combination of matches. */
  lemma {:induction false} JoinPrefixCount<S, B>(jo: seq<seq<S>>, depth: nat, base: B, n: nat, apply: (nat, S, B) -> B)
    requires depth < |jo| && n <= |jo[depth]|
    ensures |JoinPrefix(jo, depth, base, n, apply).0| == n * Product(jo, depth + 1)
    decreases |jo| - depth, n
  {
    if n > 0 {
      JoinPrefixCount(jo, depth, base, n - 1, apply);
      var (rows, b) := JoinPrefix(jo, depth, base, n - 1, apply);
      var b1 := apply(depth, jo[depth][n - 1], b);
      var p := Product(jo, depth + 1);
      if depth < |jo| - 1 {
        JoinPrefixCount(jo, depth + 1, b1, |jo[depth + 1]|, apply);
        assert |JoinPrefix(jo, depth + 1, b1, |jo[depth + 1]|, apply).0| == p;
      } else {
        assert p == 1;
      }
      assert (n - 1) * p + p == n * p by { MulStep(0, n, p); }
    }
  }

  /** Output row groups of the join: the full groups pushed so far and the
      one being filled. */
  datatype JoinOut<B> = JoinOut(batches: seq<seq<B>>, cur: seq<B>)

  /** Adding rows to the output: a group that already holds 8192 rows is
      pushed before the next row goes into a new one. */
  function AddRows<B>(out: JoinOut<B>, rows: seq<B>): JoinOut<B>
  {
    if rows == [] then out
    else
      var o := AddRows(out, rows[..|rows| - 1]);
      var row := rows[|rows| - 1];
      if |o.cur| == MAX_BATCH_ROWS then JoinOut(o.batches + [o.cur], [row]) else JoinOut(o.batches, o.cur + [row])
  }

  lemma {:induction false} AddRowsAppend<B>(out: JoinOut<B>, a: seq<B>, b: seq<B>)
    ensures AddRows(out, a + b) == AddRows(AddRows(out, a), b)
    decreases |b|
  {
    if b == [] {
      assert a + b == a;
    } else {
      assert (a + b)[..|a + b| - 1] == a + b[..|b| - 1];
      AddRowsAppend(out, a, b[..|b| - 1]);
    }
  }

  function Concat<B>(batches: seq<seq<B>>): seq<B>
  {
    if batches == [] then [] else Concat(batches[..|batches| - 1]) + batches[|batches| - 1]
  }

  lemma ConcatAppend<B>(a: seq<seq<B>>, x: seq<B>)
    ensures Concat(a + [x]) == Concat(a) + x
  {
    assert (a + [x])[..|a|] == a;
  }

  /** What adding `rows` to `out` leaves in `r`: every row in order, the
      earlier groups untouched, only full groups pushed, at most 8192 rows
      in the open group and at least one once a row was added. */
  ghost predicate AddedRows<B>(out: JoinOut<B>, rows: seq<B>, r: JoinOut<B>)
  {
    Concat(r.batches) + r.cur == Concat(out.batches) + out.cur + rows &&
    |r.cur| <= MAX_BATCH_ROWS && (rows != [] ==> |r.cur| > 0) &&
    |out.batches| <= |r.batches| && r.batches[..|out.batches|] == out.batches &&
    forall k :: |out.batches| <= k < |r.batches| ==> |r.batches[k]| == MAX_BATCH_ROWS
  }

  /** Adding rows keeps every row in order, pushes only full groups and
      leaves at most 8192 rows in the open group. */
  lemma {:induction false} AddRowsFacts<B>(out: JoinOut<B>, rows: seq<B>)
    requires |out.cur| <= MAX_BATCH_ROWS
    ensures AddedRows(out, rows, AddRows(out, rows))
  {
    if rows != [] {
      var front := rows[..|rows| - 1];
      AddRowsFacts(out, front);
      AddOneRow(out, front, rows[|rows| - 1]);
      assert rows == front + [rows[|rows| - 1]];
    }
  }

  /** One more row after `front`. */
  lemma AddOneRow<B>(out: JoinOut<B>, front: seq<B>, row: B)
    requires |out.cur| <= MAX_BATCH_ROWS
    requires AddedRows(out, front, AddRows(out, front))
    ensures AddedRows(out, front + [row], AddRows(out, front + [row]))
  {
    var rows := front + [row];
    assert rows[..|rows| - 1] == front;
    var o := AddRows(out, front);
    if |o.cur| == MAX_BATCH_ROWS {
      PushFullGroup(out, front, o, row);
    } else {
      AppendToOpenGroup(out, front, o, row);
    }
  }

  /** A full open group is pushed and the row opens the next one. */
  lemma PushFullGroup<B>(out: JoinOut<B>, front: seq<B>, o: JoinOut<B>, row: B)
    requires AddedRows(out, front, o) && |o.cur| == MAX_BATCH_ROWS
    ensures AddedRows(out, front + [row], JoinOut(o.batches + [o.cur], [row]))
  {
    ConcatAppend(o.batches, o.cur);
    assert (o.batches + [o.cur])[..|out.batches|] == o.batches[..|out.batches|];
  }

  /** Otherwise the row joins the open group. */
  lemma AppendToOpenGroup<B>(out: JoinOut<B>, front: seq<B>, o: JoinOut<B>, row: B)
    requires AddedRows(out, front, o) && |o.cur| < MAX_BATCH_ROWS
    ensures AddedRows(out, front + [row], JoinOut(o.batches, o.cur + [row]))
  {
    var before := Concat(out.batches) + out.cur;
    calc {
      Concat(o.batches) + (o.cur + [row]);
      (Concat(o.batches) + o.cur) + [row];
      (before + front) + [row];
      before + (front + [row]);
    }
  }

  /** `generateJoinResultSet`: emit the cross product of the large-side row
      (already in `base`) with the small-side matches from side `depth` on,
      into the output row groups. Returns the base row as left by the last
      mapping. */
  method GenerateJoinResultSet<S, B>(jo: seq<seq<S>>, depth: nat, base0: B, apply: (nat, S, B) -> B, out0: JoinOut<B>)
    returns (base: B, out: JoinOut<B>)
    requires depth < |jo|
    ensures (out, base) == (AddRows(out0, JoinPrefix(jo, depth, base0, |jo[depth]|, apply).0),
                            JoinPrefix(jo, depth, base0, |jo[depth]|, apply).1)
    decreases |jo| - depth
  {
    base, out := base0, out0;
    var i := 0;
    if depth < |jo| - 1 {
      while i < |jo[depth]|
        invariant i <= |jo[depth]|
        invariant out == AddRows(out0, JoinPrefix(jo, depth, base0, i, apply).0)
        invariant base == JoinPrefix(jo, depth, base0, i, apply).1
      {
        base := apply(depth, jo[depth][i], base);
        JoinNestedStep(jo, depth, base0, i, apply, out0);
        base, out := GenerateJoinResultSet(jo, depth + 1, base, apply, out);
        i := i + 1;
      }
    } else {
      while i < |jo[depth]|
        invariant i <= |jo[depth]|
        invariant out == AddRows(out0, JoinPrefix(jo, depth, base0, i, apply).0)
        invariant base == JoinPrefix(jo, depth, base0, i, apply).1
      {
        JoinLastStep(jo, depth, base0, i, apply, out0);
        if |out.cur| == MAX_BATCH_ROWS {
          out := JoinOut(out.batches + [out.cur], []);
        }
        base := apply(depth, jo[depth][i], base);
        out := out.(cur := out.cur + [base]);
        i := i + 1;
      }
    }
  }

  /** Match i of a join step that is not the last: its rows are those of
      the next step, started from the row extended by that match. */
  lemma JoinNestedStep<S, B>(jo: seq<seq<S>>, depth: nat, base0: B, i: nat, apply: (nat, S, B) -> B, out0: JoinOut<B>)
    requires depth < |jo| - 1 && i < |jo[depth]|
    ensures var prev := JoinPrefix(jo, depth, base0, i, apply);
      var sub := JoinPrefix(jo, depth + 1, apply(depth, jo[depth][i], prev.1), |jo[depth + 1]|, apply);
      JoinPrefix(jo, depth, base0, i + 1, apply).1 == sub.1 &&
      AddRows(out0, JoinPrefix(jo, depth, base0, i + 1, apply).0) == AddRows(AddRows(out0, prev.0), sub.0)
  {
    var prev := JoinPrefix(jo, depth, base0, i, apply);
    var sub := JoinPrefix(jo, depth + 1, apply(depth, jo[depth][i], prev.1), |jo[depth + 1]|, apply);
    assert JoinPrefix(jo, depth, base0, i + 1, apply) == (prev.0 + sub.0, sub.1);
    AddRowsAppend(out0, prev.0, sub.0);
  }

  /** Match i of the last join step adds one row: into the open group, or
      into a new one when the open group is full. */
  lemma JoinLastStep<S, B>(jo: seq<seq<S>>, depth: nat, base0: B, i: nat, apply: (nat, S, B) -> B, out0: JoinOut<B>)
    requires depth == |jo| - 1 && i < |jo[depth]|
    ensures var prev := JoinPrefix(jo, depth, base0, i, apply);
      var row := apply(depth, jo[depth][i], prev.1);
      var o := AddRows(out0, prev.0);
      JoinPrefix(jo, depth, base0, i + 1, apply).1 == row &&
      AddRows(out0, JoinPrefix(jo, depth, base0, i + 1, apply).0) ==
        if |o.cur| == MAX_BATCH_ROWS then JoinOut(o.batches + [o.cur], [] + [row]) else JoinOut(o.batches, o.cur + [row])
  {
    var prev := JoinPrefix(jo, depth, base0, i, apply);
    var row := apply(depth, jo[depth][i], prev.1);
    assert JoinPrefix(jo, depth, base0, i + 1, apply) == (prev.0 + [row], row);
    assert (prev.0 + [row])[..|prev.0|] == prev.0;
  }

  /** The join output holds one row per combination of small-side matches,
      appended in order after the rows already there, and every group pushed
      on the way holds exactly 8192 rows. */
  lemma JoinResultFacts<S, B>(jo: seq<seq<S>>, base: B, apply: (nat, S, B) -> B, out: JoinOut<B>)
    requires 0 < |jo| && |out.cur| <= MAX_BATCH_ROWS
    ensures var rows := JoinPrefix(jo, 0, base, |jo[0]|, apply).0;
            var r := AddRows(out, rows);
            |rows| == Product(jo, 0) &&
            Concat(r.batches) + r.cur == Concat(out.batches) + out.cur + rows &&
            |r.cur| <= MAX_BATCH_ROWS &&
            forall k :: |out.batches| <= k < |r.batches| ==> |r.batches[k]| == MAX_BATCH_ROWS
  {
    JoinPrefixCount(jo, 0, base, |jo[0]|, apply);
    AddRowsFacts(out, JoinPrefix(jo, 0, base, |jo[0]|, apply).0);
  }

  // ---- duplicate output columns ----

  /** The index of the first occurrence of x in s. */
  function FirstIndex<K(==)>(s: seq<K>, x: K): (r: nat)
    requires x in s
    ensures r < |s| && s[r] == x && forall k :: 0 <= k < r ==> s[k] != x
  {
    if s[0] == x then 0 else 1 + FirstIndex(s[1..], x)
  }

  lemma {:induction false} FirstIndexPrefix<K>(s: seq<K>, t: seq<K>, x: K)
    requires x in s
    ensures x in s + t && FirstIndex(s + t, x) == FirstIndex(s, x)
  {
    var i := FirstIndex(s, x);
    assert (s + t)[i] == x;
    var j := FirstIndex(s + t, x);
    assert j <= i;
    assert s[j] == (s + t)[j];
  }

  /** `checkDupOutputColumns`: for each output column whose key (the source
      column it is mapped from) already appeared, the pair (column, first
      column with that key), in column order. */
  function DupPairs<K(==)>(keys: seq<K>): seq<(nat, nat)>
  {
    if keys == [] then []
    else
      var front := keys[..|keys| - 1];
      var k := keys[|keys| - 1];
      DupPairs(front) + (if k in front then [(|keys| - 1, FirstIndex(front, k))] else [])
  }

  /** A pair (i, j) is listed exactly when column i repeats the key whose
      first occurrence is column j < i. */
  lemma {:induction false} DupPairsIff<K>(keys: seq<K>, i: nat, j: nat)
    ensures (i, j) in DupPairs(keys) <==>
      i < |keys| && j < i && keys[j] == keys[i] && forall k :: 0 <= k < j ==> keys[k] != keys[i]
  {
    if keys != [] {
      var n := |keys|;
      var front := keys[..n - 1];
      var key := keys[n - 1];
      var tail: seq<(nat, nat)> := if key in front then [(n - 1, FirstIndex(front, key))] else [];
      assert DupPairs(keys) == DupPairs(front) + tail;
      DupPairsIff(front, i, j);
      DupPairsBound(front);
      if i < n - 1 {
        assert (i, j) !in tail;
        if j < i {
          EarlierKeysAgree(keys, i, j);
        }
      } else if i == n - 1 {
        assert (i, j) !in DupPairs(front);
        LastKeyPair(keys, j);
      } else {
        assert (i, j) !in DupPairs(front) && (i, j) !in tail;
      }
    }
  }

  /** Below the last key, `keys` and its front agree. */
  lemma EarlierKeysAgree<K>(keys: seq<K>, i: nat, j: nat)
    requires j < i < |keys| - 1
    ensures var front := keys[..|keys| - 1];
            (front[j] == front[i] && forall k :: 0 <= k < j ==> front[k] != front[i]) <==>
            (keys[j] == keys[i] && forall k :: 0 <= k < j ==> keys[k] != keys[i])
  {
    var front := keys[..|keys| - 1];
    assert forall k :: 0 <= k < j ==> front[k] == keys[k];
  }

  /** The last key's pair points at its first occurrence among the others. */
  lemma LastKeyPair<K>(keys: seq<K>, j: nat)
    requires keys != []
    ensures var n := |keys|;
            var front := keys[..n - 1];
            var key := keys[n - 1];
            (key in front && j == FirstIndex(front, key)) <==>
            (j < n - 1 && keys[j] == key && forall k :: 0 <= k < j ==> keys[k] != key)
  {
    var n := |keys|;
    var front := keys[..n - 1];
    var key := keys[n - 1];
    if j < n - 1 && keys[j] == key && (forall k :: 0 <= k < j ==> keys[k] != key) {
      assert front[j] == key;
      var f := FirstIndex(front, key);
      assert keys[f] == front[f];
    }
    if key in front && j == FirstIndex(front, key) {
      assert keys[j] == front[j];
      assert forall k :: 0 <= k < j ==> keys[k] == front[k];
    }
  }

  /** Listed pairs point backwards, from a column within `keys`. */
  lemma {:induction false} DupPairsBound<K>(keys: seq<K>)
    ensures forall p :: p in DupPairs(keys) ==> p.1 < p.0 < |keys|
  {
    if keys != [] {
      DupPairsBound(keys[..|keys| - 1]);
    }
  }

  /** Copy field `src` to field `dst` of a row, pair by pair (`copyField`). */
  function CopyFields<V>(row: seq<V>, pairs: seq<(nat, nat)>): (r: seq<V>)
    requires forall p :: p in pairs ==> p.0 < |row| && p.1 < |row|
    ensures |r| == |row|
  {
    if pairs == [] then row
    else
      var r := CopyFields(row, pairs[..|pairs| - 1]);
      var p := pairs[|pairs| - 1];
      r[p.0 := r[p.1]]
  }

  /** After copying the duplicate columns, every column of the row holds the
      value of the first column with the same key: duplicated output columns
      repeat their source. */
  lemma DupColumnsAgree<K, V>(keys: seq<K>, row: seq<V>)
    requires |row| == |keys|
    ensures forall p :: p in DupPairs(keys) ==> p.0 < |row| && p.1 < |row|
    ensures forall i :: 0 <= i < |row| ==> CopyFields(row, DupPairs(keys))[i] == row[FirstIndex(keys, keys[i])]
  {
    DupColumnsAgreePrefix(keys, row, |keys|);
    assert keys[..|keys|] == keys;
  }

  /** After the pairs of the first n columns, those columns hold the value
      of their key's first column and the others are untouched. */
  ghost predicate CopiedUpTo<K, V>(keys: seq<K>, row: seq<V>, n: nat)
    requires |row| == |keys| && n <= |keys|
  {
    (forall p :: p in DupPairs(keys[..n]) ==> p.0 < |row| && p.1 < |row|) &&
    forall i :: 0 <= i < |row| ==>
      CopyFields(row, DupPairs(keys[..n]))[i] == if i < n then row[FirstIndex(keys, keys[i])] else row[i]
  }

  lemma {:induction false} DupColumnsAgreePrefix<K, V>(keys: seq<K>, row: seq<V>, n: nat)
    requires |row| == |keys| && n <= |keys|
    ensures CopiedUpTo(keys, row, n)
  {
    if n == 0 {
      DupPairsBound(keys[..0]);
    } else {
      DupColumnsAgreePrefix(keys, row, n - 1);
      if keys[n - 1] in keys[..n - 1] {
        DupColumnsRepeatStep(keys, row, n);
      } else {
        DupColumnsNewStep(keys, row, n);
      }
    }
  }

  /** Column n-1 repeats a key: its pair copies the key's first column. */
  lemma DupColumnsRepeatStep<K, V>(keys: seq<K>, row: seq<V>, n: nat)
    requires |row| == |keys| && 0 < n <= |keys| && keys[n - 1] in keys[..n - 1]
    requires CopiedUpTo(keys, row, n - 1)
    ensures CopiedUpTo(keys, row, n)
  {
    DupStepRepeat(keys, n);
    DupPairsBound(keys[..n]);
    var f := FirstIndex(keys, keys[n - 1]);
    var before := DupPairs(keys[..n - 1]);
    var prev := CopyFields(row, before);
    var cur := CopyFields(row, DupPairs(keys[..n]));
    assert (before + [(n - 1, f)])[..|before|] == before;
    assert cur == prev[n - 1 := prev[f]];
    assert prev[f] == row[FirstIndex(keys, keys[f])];
    forall i | 0 <= i < |row|
      ensures cur[i] == if i < n then row[FirstIndex(keys, keys[i])] else row[i]
    {
    }
  }

  /** Column n-1 has a new key: nothing is copied into it. */
  lemma DupColumnsNewStep<K, V>(keys: seq<K>, row: seq<V>, n: nat)
    requires |row| == |keys| && 0 < n <= |keys| && keys[n - 1] !in keys[..n - 1]
    requires CopiedUpTo(keys, row, n - 1)
    ensures CopiedUpTo(keys, row, n)
  {
    DupStepNew(keys, n);
    DupPairsBound(keys[..n]);
    var cur := CopyFields(row, DupPairs(keys[..n]));
    assert cur == CopyFields(row, DupPairs(keys[..n - 1]));
    forall i | 0 <= i < |row|
      ensures cur[i] == if i < n then row[FirstIndex(keys, keys[i])] else row[i]
    {
    }
  }

  /** Column n-1 repeats an earlier key: one more pair, to its first
      occurrence. */
  lemma DupStepRepeat<K>(keys: seq<K>, n: nat)
    requires 0 < n <= |keys| && keys[n - 1] in keys[..n - 1]
    ensures FirstIndex(keys, keys[n - 1]) < n - 1
    ensures DupPairs(keys[..n]) == DupPairs(keys[..n - 1]) + [(n - 1, FirstIndex(keys, keys[n - 1]))]
  {
    FirstIndexInFront(keys, n);
    var prefix := keys[..n];
    assert prefix[..n - 1] == keys[..n - 1];
  }

  /** A key found among the first n - 1 keys is first found there. */
  lemma FirstIndexInFront<K>(keys: seq<K>, n: nat)
    requires 0 < n <= |keys| && keys[n - 1] in keys[..n - 1]
    ensures FirstIndex(keys, keys[n - 1]) == FirstIndex(keys[..n - 1], keys[n - 1])
  {
    assert keys[..n - 1] + keys[n - 1..] == keys;
    FirstIndexPrefix(keys[..n - 1], keys[n - 1..], keys[n - 1]);
  }

  /** Column n-1 has a new key: no pair, and it is its own first
      occurrence. */
  lemma DupStepNew<K>(keys: seq<K>, n: nat)
    requires 0 < n <= |keys| && keys[n - 1] !in keys[..n - 1]
    ensures FirstIndex(keys, keys[n - 1]) == n - 1
    ensures DupPairs(keys[..n]) == DupPairs(keys[..n - 1])
  {
    var front := keys[..n - 1];
    assert keys[..n][..n - 1] == front;
    forall k | 0 <= k < n - 1 ensures keys[k] != keys[n - 1] {
      assert keys[k] == front[k];
    }
  }

  /** `dupOutputColumns` over a row group: every row gets its duplicate
      columns copied, in place. */
  method DupOutputColumns<V>(rg: array<seq<V>>, pairs: seq<(nat, nat)>, width: nat)
    requires forall r :: 0 <= r < rg.Length ==> |rg[r]| == width
    requires forall p :: p in pairs ==> p.0 < width && p.1 < width
    modifies rg
    ensures forall r :: 0 <= r < rg.Length ==> rg[r] == CopyFields(old(rg[r]), pairs)
  {
    var i := 0;
    while i < rg.Length
      invariant i <= rg.Length
      invariant forall r :: 0 <= r < i ==> rg[r] == CopyFields(old(rg[r]), pairs)
      invariant forall r :: i <= r < rg.Length ==> rg[r] == old(rg[r])
    {
      var row := CopyRowFields(rg[i], pairs);
      rg[i] := row;
      i := i + 1;
    }
  }

  /** The inner loop of `dupOutputColumns` over the pairs, on one row. */
  method CopyRowFields<V>(row0: seq<V>, pairs: seq<(nat, nat)>) returns (row: seq<V>)
    requires forall p :: p in pairs ==> p.0 < |row0| && p.1 < |row0|
    ensures row == CopyFields(row0, pairs)
  {
    row := row0;
    var j := 0;
    while j < |pairs|
      invariant j <= |pairs|
      invariant row == CopyFields(row0, pairs[..j])
    {
      assert pairs[..j + 1][..j] == pairs[..j];
      row := row[pairs[j].0 := row[pairs[j].1]];
      j := j + 1;
    }
    assert pairs[..|pairs|] == pairs;
  }
}
