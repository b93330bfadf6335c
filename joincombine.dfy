/** The per-row join of the large side with the small sides that are joined
    on the UM, as done on each row group returned to the batch-primitive
    step: for every small side j, the matches found by its joiner are
    narrowed by the join's function-expression filter, turned around for an
    anti join, collapsed for a semi join, and checked for a scalar
    subquery; a large-side row whose matches run out is dropped. The
    joiner's hash lookup (`match`) and filter (`evaluateFilter`) are
    parameters. */
module JoinCombine {

  /** What kind of join a small side takes part in (the joiner's flags). */
  datatype JoinerKind = JoinerKind(
    inUM: bool,
    hasFEFilter: bool,
    antiJoin: bool,
    semiJoin: bool,
    scalar: bool,
    largeOuterJoin: bool,
    innerJoin: bool,
    smallOuterJoin: bool)

  /** A matched small-side row, or the small side's null row. */
  datatype Match<S> = Small(row: S) | NullRow

  /** The matches kept by the join filter and the number of failures seen,
      scanning from match z on. With `stopFirst` (anti joins, and semi
      joins that are not scalar) the scan ends at the first match that
      passes. */
  function FilterFrom<S>(m: seq<Match<S>>, z: nat, pass: Match<S> -> bool, stopFirst: bool): (seq<Match<S>>, nat)
    requires z <= |m|
    decreases |m| - z
  {
    if z == |m| then ([], 0)
    else if !pass(m[z]) then
      var r := FilterFrom(m, z + 1, pass, stopFirst);
      (r.0, r.1 + 1)
    else if stopFirst then ([m[z]], 0)
    else
      var r := FilterFrom(m, z + 1, pass, stopFirst);
      ([m[z]] + r.0, r.1)
  }

  /** The matches from z on that pass the filter, in order. */
  function Passing<S>(m: seq<Match<S>>, z: nat, pass: Match<S> -> bool): seq<Match<S>>
    requires z <= |m|
    decreases |m| - z
  {
    if z == |m| then [] else (if pass(m[z]) then [m[z]] else []) + Passing(m, z + 1, pass)
  }

  /** Without `stopFirst` the filter keeps exactly the passing matches and
      counts exactly the others; with it, the filter keeps the first passing
      match, if any, and counts the failures before it. Either way the
      remaining count `|m| - failures` is zero exactly when no match
      passes. */
  lemma {:induction false} FilterFacts<S>(m: seq<Match<S>>, z: nat, pass: Match<S> -> bool, stopFirst: bool)
    requires z <= |m|
    ensures var r := FilterFrom(m, z, pass, stopFirst);
            r.1 <= |m| - z &&
            (r.1 == |m| - z <==> Passing(m, z, pass) == []) &&
            (!stopFirst ==> r.0 == Passing(m, z, pass) && r.1 == |m| - z - |r.0|) &&
            (stopFirst ==> r.0 == (if Passing(m, z, pass) == [] then [] else [Passing(m, z, pass)[0]]))
    decreases |m| - z
  {
    if z < |m| {
      FilterFacts(m, z + 1, pass, stopFirst);
    }
  }

  /** `matchCount` and the joiner output of side j after the UM filter and
      the outer-join null row: the filter is applied only with matches. */
  function Filtered<S>(k: JoinerKind, m: seq<Match<S>>, pass: Match<S> -> bool): (seq<Match<S>>, int)
  {
    if k.inUM && k.hasFEFilter && |m| > 0 then
      var r := FilterFrom(m, 0, pass, k.antiJoin || (k.semiJoin && !k.scalar));
      if |m| - r.1 == 0 && k.largeOuterJoin then (r.0 + [NullRow], 1) else (r.0, |m| - r.1)
    else (m, |m|)
  }

  /** What side j leaves: its joiner output, `matchCount`, whether the loop
      over the small sides stops there, whether the scalar check fails, and
      the matches `markMatches` marks for a small outer join. */
  datatype SideResult<S> = SideResult(output: seq<Match<S>>, matchCount: int, stop: bool, scalarError: bool,
                                      marked: seq<Match<S>>)

  /** One small side for one large-side row. */
  function Side<S>(k: JoinerKind, m: seq<Match<S>>, pass: Match<S> -> bool): SideResult<S>
  {
    var f := Filtered(k, m, pass);
    var count := if k.inUM && k.antiJoin then (if f.1 != 0 then 0 else 1) else f.1;
    if k.inUM && count == 0 then SideResult([], 0, true, false, [])
    else
      var out := if k.inUM && !k.scalar && (k.antiJoin || k.semiJoin) then [NullRow] else f.0;
      var c := if k.inUM && !k.scalar && (k.antiJoin || k.semiJoin) then 1 else count;
      if c == 0 && k.innerJoin then SideResult(out, c, true, false, [])
      else SideResult(out, c, false, k.scalar && c > 1, if k.smallOuterJoin then out else [])
  }

  /** An anti join on the UM keeps the large-side row exactly when no match
      passes its filter (or there is no match at all). */
  lemma SideAntiJoin<S>(k: JoinerKind, m: seq<Match<S>>, pass: Match<S> -> bool)
    requires k.inUM && k.antiJoin && !k.largeOuterJoin
    ensures Side(k, m, pass).stop <==>
      (if k.hasFEFilter then Passing(m, 0, pass) != [] else |m| > 0)
    ensures !Side(k, m, pass).stop ==>
      Side(k, m, pass).output == (if k.scalar then Filtered(k, m, pass).0 else [NullRow]) &&
      Side(k, m, pass).matchCount == 1
  {
    if |m| > 0 && k.hasFEFilter {
      FilterFacts(m, 0, pass, true);
    } else if k.hasFEFilter {
      assert Passing(m, 0, pass) == [];
    }
  }

  /** A semi join on the UM that is not scalar keeps the large-side row
      exactly when some match passes, joined once with the null row. */
  lemma SideSemiJoin<S>(k: JoinerKind, m: seq<Match<S>>, pass: Match<S> -> bool)
    requires k.inUM && k.semiJoin && !k.antiJoin && !k.scalar && !k.largeOuterJoin
    ensures !Side(k, m, pass).stop <==> (if k.hasFEFilter then Passing(m, 0, pass) != [] else |m| > 0)
    ensures !Side(k, m, pass).stop ==> Side(k, m, pass).output == [NullRow] && Side(k, m, pass).matchCount == 1
  {
    if |m| > 0 && k.hasFEFilter {
      FilterFacts(m, 0, pass, true);
    } else if k.hasFEFilter {
      assert Passing(m, 0, pass) == [];
    }
  }

  /** An inner join on the UM with a filter joins the row with exactly the
      matches that pass, and drops it when none does. */
  lemma SideInnerJoin<S>(k: JoinerKind, m: seq<Match<S>>, pass: Match<S> -> bool)
    requires k.inUM && k.hasFEFilter && k.innerJoin && !k.antiJoin && !k.semiJoin && !k.largeOuterJoin
    ensures Side(k, m, pass).stop <==> Passing(m, 0, pass) == []
    ensures !Side(k, m, pass).stop ==>
      Side(k, m, pass).output == Passing(m, 0, pass) && Side(k, m, pass).matchCount == |Passing(m, 0, pass)|
    ensures Side(k, m, pass).scalarError <==> k.scalar && |Passing(m, 0, pass)| > 1
  {
    FilterFacts(m, 0, pass, false);
    if |m| == 0 {
      assert Passing(m, 0, pass) == [];
    }
  }

  /** A large outer join on the UM whose filter rejects every match keeps
      the row, joined with the null row. */
  lemma SideLargeOuterJoin<S>(k: JoinerKind, m: seq<Match<S>>, pass: Match<S> -> bool)
    requires k.inUM && k.hasFEFilter && k.largeOuterJoin && !k.antiJoin && !k.semiJoin && !k.innerJoin
    requires |m| > 0 && Passing(m, 0, pass) == []
    ensures !Side(k, m, pass).stop && Side(k, m, pass).output == [NullRow] && Side(k, m, pass).matchCount == 1
  {
    FilterFacts(m, 0, pass, false);
  }

  /** The state of the loop over the small sides for one large-side row;
      `marked[j]` holds the matches of side j marked for this row. */
  datatype RowJoin<S> = RowJoin(outputs: seq<seq<Match<S>>>, matchCount: int, stopped: bool, scalarError: bool,
                                marked: seq<seq<Match<S>>>)

  /** No side has marked anything yet. */
  function NoMarks<S>(n: nat): (r: seq<seq<Match<S>>>)
    ensures |r| == n && forall j :: 0 <= j < n ==> r[j] == []
  {
    seq(n, j => [])
  }

  /** After the first n small sides: each side's output is recorded (a
      side after the stop keeps its raw matches), `matchCount` is the last
      processed side's, the scalar check failure is remembered, and each
      side reached records what it marked. */
  function JoinSides<S>(kinds: seq<JoinerKind>, matches: seq<seq<Match<S>>>, pass: (nat, Match<S>) -> bool, n: nat): (r: RowJoin<S>)
    requires |kinds| == |matches| && n <= |kinds|
    ensures |r.outputs| == |matches| && |r.marked| == |matches|
    ensures r.stopped ==> r.matchCount == 0
  {
    if n == 0 then RowJoin(matches, 0, false, false, NoMarks(|matches|))
    else
      var st := JoinSides(kinds, matches, pass, n - 1);
      if st.stopped then st
      else
        var r := Side(kinds[n - 1], matches[n - 1], z => pass(n - 1, z));
        RowJoin(st.outputs[n - 1 := r.output], r.matchCount, r.stop, st.scalarError || r.scalarError,
                st.marked[n - 1 := r.marked])
  }

  /** Once the loop stops, later sides change nothing. */
  lemma {:induction false} JoinSidesStopped<S>(kinds: seq<JoinerKind>, matches: seq<seq<Match<S>>>, pass: (nat, Match<S>) -> bool, n: nat, m: nat)
    requires |kinds| == |matches| && n <= m <= |kinds|
    requires JoinSides(kinds, matches, pass, n).stopped
    ensures JoinSides(kinds, matches, pass, m) == JoinSides(kinds, matches, pass, n)
    decreases m - n
  {
    if m > n {
      JoinSidesStopped(kinds, matches, pass, n, m - 1);
    }
  }

  /** The loop over the small sides for one large-side row: the joiner
      output per side, the final `matchCount` (the row is emitted exactly
      when it is positive), and whether a scalar check failed. */
  method JoinRow<S>(kinds: seq<JoinerKind>, matches: seq<seq<Match<S>>>, pass: (nat, Match<S>) -> bool)
    returns (outputs: seq<seq<Match<S>>>, matchCount: int, stopped: bool, scalarError: bool, marked: seq<seq<Match<S>>>)
    requires |kinds| == |matches|
    ensures JoinSides(kinds, matches, pass, |kinds|) == RowJoin(outputs, matchCount, stopped, scalarError, marked)
  {
    outputs, matchCount, stopped, scalarError, marked := matches, 0, false, false, NoMarks(|matches|);
    var j := 0;
    while j < |kinds|
      invariant j <= |kinds|
      invariant JoinSides(kinds, matches, pass, j) == RowJoin(outputs, matchCount, false, scalarError, marked)
    {
      var r := Side(kinds[j], matches[j], z => pass(j, z));
      outputs := outputs[j := r.output];
      matchCount := r.matchCount;
      scalarError := scalarError || r.scalarError;
      marked := marked[j := r.marked];
      if r.stop {
        stopped := true;
        JoinSidesStopped(kinds, matches, pass, j + 1, |kinds|);
        return;
      }
      j := j + 1;
    }
  }

  /** Plain inner joins on the UM without filters: the row is emitted
      exactly when every small side has a match, joined with all of them. */
  lemma {:induction false} InnerJoinsNeedEveryMatch<S>(kinds: seq<JoinerKind>, matches: seq<seq<Match<S>>>, pass: (nat, Match<S>) -> bool, n: nat)
    requires |kinds| == |matches| && 0 < n <= |kinds|
    requires forall j :: 0 <= j < |kinds| ==>
      kinds[j].inUM && kinds[j].innerJoin && !kinds[j].hasFEFilter && !kinds[j].antiJoin && !kinds[j].semiJoin
    ensures var r := JoinSides(kinds, matches, pass, n);
            (r.matchCount > 0 <==> forall j :: 0 <= j < n ==> |matches[j]| > 0) &&
            r.outputs == matches
  {
    var r := JoinSides(kinds, matches, pass, n);
    var k := kinds[n - 1];
    var side := Side(k, matches[n - 1], z => pass(n - 1, z));
    assert side.matchCount == |matches[n - 1]| && side.output == matches[n - 1] && (side.stop <==> |matches[n - 1]| == 0);
    if n == 1 {
      assert JoinSides(kinds, matches, pass, 0) == RowJoin(matches, 0, false, false, NoMarks(|matches|));
      assert matches[0 := matches[0]] == matches;
    } else {
      InnerJoinsNeedEveryMatch(kinds, matches, pass, n - 1);
      var st := JoinSides(kinds, matches, pass, n - 1);
      if !st.stopped {
        assert st.outputs[n - 1 := matches[n - 1]] == matches;
      }
    }
  }

  /** A side on the UM that drops the row ends the loop with `matchCount`
      zero: nothing is emitted for the row. */
  lemma {:induction false} DroppedRowEmitsNothing<S>(kinds: seq<JoinerKind>, matches: seq<seq<Match<S>>>, pass: (nat, Match<S>) -> bool, j: nat)
    requires |kinds| == |matches| && j < |kinds|
    requires !JoinSides(kinds, matches, pass, j).stopped
    requires Side(kinds[j], matches[j], z => pass(j, z)).stop
    ensures JoinSides(kinds, matches, pass, |kinds|).matchCount == 0
  {
    JoinSidesStopped(kinds, matches, pass, j + 1, |kinds|);
  }

  /** While the loop has not stopped, every side it went through that takes
      part in a small outer join has marked exactly its joiner output, and
      no other side has marked anything; in particular this holds for every
      row that is emitted. */
  lemma {:induction false} MarksFollowOutputs<S>(kinds: seq<JoinerKind>, matches: seq<seq<Match<S>>>, pass: (nat, Match<S>) -> bool, n: nat)
    requires |kinds| == |matches| && n <= |kinds|
    requires !JoinSides(kinds, matches, pass, n).stopped
    ensures var r := JoinSides(kinds, matches, pass, n);
            forall j :: 0 <= j < |kinds| ==>
              r.marked[j] == (if j < n && kinds[j].smallOuterJoin then r.outputs[j] else [])
  {
    if n > 0 {
      MarksFollowOutputs(kinds, matches, pass, n - 1);
    }
  }

  /** The loop over the rows of one row group, after the first n rows, for
      the small-side matches `rows[k]` of row k and the join filters
      `pass(k)` of row k: the results of the rows joined, and whether the
      step is cancelled. A failed scalar check sets ERR_MORE_THAN_1_ROW and
      aborts the step; the row is still joined, and the loop, which tests
      `cancelled()` before each row, stops after it. */
  function JoinRows<S>(kinds: seq<JoinerKind>, rows: seq<seq<seq<Match<S>>>>, pass: nat -> (nat, Match<S>) -> bool,
                       cancelled: bool, n: nat): (r: (seq<RowJoin<S>>, bool))
    requires n <= |rows| && forall k :: 0 <= k < |rows| ==> |rows[k]| == |kinds|
    ensures |r.0| <= n
  {
    if n == 0 then ([], cancelled)
    else
      var st := JoinRows(kinds, rows, pass, cancelled, n - 1);
      if st.1 then st
      else
        var rj := JoinSides(kinds, rows[n - 1], pass(n - 1), |kinds|);
        (st.0 + [rj], rj.scalarError)
  }

  /** Once cancelled, later rows change nothing. */
  lemma {:induction false} JoinRowsCancelled<S>(kinds: seq<JoinerKind>, rows: seq<seq<seq<Match<S>>>>, pass: nat -> (nat, Match<S>) -> bool,
                                                cancelled: bool, n: nat, m: nat)
    requires n <= m <= |rows| && forall k :: 0 <= k < |rows| ==> |rows[k]| == |kinds|
    requires JoinRows(kinds, rows, pass, cancelled, n).1
    ensures JoinRows(kinds, rows, pass, cancelled, m) == JoinRows(kinds, rows, pass, cancelled, n)
    decreases m - n
  {
    if m > n {
      JoinRowsCancelled(kinds, rows, pass, cancelled, n, m - 1);
    }
  }

  /** The rows joined are the first ones, each joined on its own: the k-th
      result, if there is one, is row k joined. */
  lemma {:induction false} JoinRowsEach<S>(kinds: seq<JoinerKind>, rows: seq<seq<seq<Match<S>>>>, pass: nat -> (nat, Match<S>) -> bool,
                                           cancelled: bool, n: nat, k: nat)
    requires n <= |rows| && forall i :: 0 <= i < |rows| ==> |rows[i]| == |kinds|
    requires k < |JoinRows(kinds, rows, pass, cancelled, n).0|
    ensures JoinRows(kinds, rows, pass, cancelled, n).0[k] == JoinSides(kinds, rows[k], pass(k), |kinds|)
  {
    var all := JoinRows(kinds, rows, pass, cancelled, n).0;
    var st := JoinRows(kinds, rows, pass, cancelled, n - 1);
    JoinRowsUnfold(kinds, rows, pass, cancelled, n);
    if !st.1 && k == n - 1 {
      assert all[k] == JoinSides(kinds, rows[n - 1], pass(n - 1), |kinds|);
    } else {
      JoinRowsEach(kinds, rows, pass, cancelled, n - 1, k);
      assert all[k] == st.0[k];
    }
  }

  /** One step of the row loop: a cancelled loop stays as it is, otherwise
      the row joined is appended after the n - 1 rows before it. */
  lemma JoinRowsUnfold<S>(kinds: seq<JoinerKind>, rows: seq<seq<seq<Match<S>>>>, pass: nat -> (nat, Match<S>) -> bool,
                          cancelled: bool, n: nat)
    requires 0 < n <= |rows| && forall i :: 0 <= i < |rows| ==> |rows[i]| == |kinds|
    ensures var st := JoinRows(kinds, rows, pass, cancelled, n - 1);
            var r := JoinRows(kinds, rows, pass, cancelled, n);
            (st.1 ==> r == st) &&
            (!st.1 ==> |st.0| == n - 1 && r.0 == st.0 + [JoinSides(kinds, rows[n - 1], pass(n - 1), |kinds|)])
  {
    JoinRowsStop(kinds, rows, pass, cancelled, n - 1);
  }

  /** Every row before the last one joined passed the scalar check; the
      loop is cancelled exactly when it started so or the last row joined
      failed the check, and it leaves rows unjoined only when cancelled. */
  lemma {:induction false} JoinRowsStop<S>(kinds: seq<JoinerKind>, rows: seq<seq<seq<Match<S>>>>, pass: nat -> (nat, Match<S>) -> bool,
                                           cancelled: bool, n: nat)
    requires n <= |rows| && forall k :: 0 <= k < |rows| ==> |rows[k]| == |kinds|
    ensures var r := JoinRows(kinds, rows, pass, cancelled, n);
            (forall k :: 0 <= k < |r.0| - 1 ==> !r.0[k].scalarError) &&
            (r.1 <==> cancelled || (|r.0| > 0 && r.0[|r.0| - 1].scalarError)) &&
            (|r.0| < n ==> r.1) &&
            (cancelled ==> r.0 == [])
  {
    if n > 0 {
      JoinRowsStop(kinds, rows, pass, cancelled, n - 1);
      var st := JoinRows(kinds, rows, pass, cancelled, n - 1);
      if !st.1 {
        var r := JoinRows(kinds, rows, pass, cancelled, n);
        assert r.0[..|st.0|] == st.0;
      }
    }
  }

  /** A row joined while the loop is not cancelled is appended, and its
      scalar check decides whether the loop is cancelled after it. */
  lemma JoinRowsNext<S>(kinds: seq<JoinerKind>, rows: seq<seq<seq<Match<S>>>>, pass: nat -> (nat, Match<S>) -> bool,
                        cancelled: bool, k: nat, joined: RowJoin<S>)
    requires k < |rows| && forall i :: 0 <= i < |rows| ==> |rows[i]| == |kinds|
    requires !JoinRows(kinds, rows, pass, cancelled, k).1
    requires joined == JoinSides(kinds, rows[k], pass(k), |kinds|)
    ensures JoinRows(kinds, rows, pass, cancelled, k + 1)
            == (JoinRows(kinds, rows, pass, cancelled, k).0 + [joined], joined.scalarError)
  {
  }

  /** The row loop: join row after row while the step is not cancelled; a
      failed scalar check aborts the step after its row. */
  method JoinRowGroup<S>(kinds: seq<JoinerKind>, rows: seq<seq<seq<Match<S>>>>, pass: nat -> (nat, Match<S>) -> bool,
                         cancelled0: bool)
    returns (results: seq<RowJoin<S>>, cancelled: bool)
    requires forall k :: 0 <= k < |rows| ==> |rows[k]| == |kinds|
    ensures (results, cancelled) == JoinRows(kinds, rows, pass, cancelled0, |rows|)
  {
    results, cancelled := [], cancelled0;
    var k := 0;
    while k < |rows| && !cancelled
      invariant k <= |rows|
      invariant (results, cancelled) == JoinRows(kinds, rows, pass, cancelled0, k)
    {
      var outputs, matchCount, stopped, scalarError, marked := JoinRow(kinds, rows[k], pass(k));
      var joined := RowJoin(outputs, matchCount, stopped, scalarError, marked);
      JoinRowsNext(kinds, rows, pass, cancelled0, k, joined);
      results := results + [joined];
      if scalarError {
        cancelled := true;
      }
      k := k + 1;
    }
    if k < |rows| {
      JoinRowsCancelled(kinds, rows, pass, cancelled0, k, |rows|);
    }
  }
}
