/** The extent-count retry loop at the start of `TupleBPS::run`: while the
    step's columns disagree on their number of extents, wait and reload the
    extent lists, at most `retryMax` times; then either give up with
    ERR_TUPLE_BPS or go on. The loop is stated over two parameters: whether
    the counts agree after k reloads, and whether reload k+1 throws. */
module Lifecycle {

  const RETRY_MAX: nat := 1000

  /** Whether `run` goes on after the loop, reports the inconsistent count,
      or reports an exception thrown by a reload. */
  datatype RunStart = Proceed | CountError | ReloadError

  /** The loop's end: the value of `retryCounter`, the number of reloads
      done, and what `run` does next. */
  datatype RetryResult = RetryResult(counter: nat, reloads: nat, outcome: RunStart)

  /** After `counter` failed tests and as many reloads: the loop as written,
      `while (!goodExtentCount() && retryCounter++ < retryMax)`, followed
      by the test `retryCounter == retryMax`. The post-increment runs on the
      test that fails too. */
  function AsWrittenFrom(consistent: nat -> bool, throws: nat -> bool, counter: nat): RetryResult
    requires counter <= RETRY_MAX
    decreases RETRY_MAX - counter
  {
    if consistent(counter) then AfterLoop(counter, counter)
    else if counter >= RETRY_MAX then AfterLoop(counter + 1, counter)
    else if throws(counter) then RetryResult(counter + 1, counter, ReloadError)
    else AsWrittenFrom(consistent, throws, counter + 1)
  }

  /** The test after the loop as written. */
  function AfterLoop(counter: nat, reloads: nat): RetryResult
  {
    RetryResult(counter, reloads, if counter == RETRY_MAX then CountError else Proceed)
  }

  /** The retry loop of `run` as written. */
  method RetryAsWritten(consistent: nat -> bool, throws: nat -> bool) returns (r: RetryResult)
    ensures r == AsWrittenFrom(consistent, throws, 0)
  {
    var retryCounter := 0;
    var reloads := 0;
    while !consistent(reloads)
      invariant reloads == retryCounter <= RETRY_MAX
      invariant AsWrittenFrom(consistent, throws, retryCounter) == AsWrittenFrom(consistent, throws, 0)
      decreases RETRY_MAX - retryCounter
    {
      var more := retryCounter < RETRY_MAX;
      retryCounter := retryCounter + 1;
      if !more {
        return AfterLoop(retryCounter, reloads);
      }
      if throws(reloads) {
        return RetryResult(retryCounter, reloads, ReloadError);
      }
      reloads := reloads + 1;
    }
    r := AfterLoop(retryCounter, reloads);
  }

  /** As written, the count error is reported exactly when the counts first
      agree after the last permitted reload. */
  lemma {:induction false} AsWrittenErrorIff(consistent: nat -> bool, throws: nat -> bool, counter: nat)
    requires counter <= RETRY_MAX
    ensures AsWrittenFrom(consistent, throws, counter).outcome == CountError <==>
      (forall k :: counter <= k < RETRY_MAX ==> !consistent(k) && !throws(k)) && consistent(RETRY_MAX)
    decreases RETRY_MAX - counter
  {
    if counter < RETRY_MAX {
      AsWrittenErrorIff(consistent, throws, counter + 1);
    }
  }

  /** As written, counts that never agree leave `retryCounter` at
      `retryMax + 1`, and `run` goes on with inconsistent extent lists. */
  lemma {:induction false} AsWrittenProceedsWhenNeverConsistent(consistent: nat -> bool, throws: nat -> bool, counter: nat)
    requires counter <= RETRY_MAX
    requires forall k :: counter <= k <= RETRY_MAX ==> !consistent(k)
    requires forall k :: counter <= k < RETRY_MAX ==> !throws(k)
    ensures AsWrittenFrom(consistent, throws, counter) == RetryResult(RETRY_MAX + 1, RETRY_MAX, Proceed)
    decreases RETRY_MAX - counter
  {
    if counter < RETRY_MAX {
      AsWrittenProceedsWhenNeverConsistent(consistent, throws, counter + 1);
    }
  }

  /** Concrete reload histories: counts that never agree, counts that agree
      only after the 1000th reload, and reloads that never throw. */
  function NeverConsistent(k: nat): bool { false }
  function ConsistentOnlyAtLast(k: nat): bool { k == RETRY_MAX }
  function NeverThrows(k: nat): bool { false }

  /** The two inputs that show the discrepancy. */
  lemma AsWrittenCounterexamples()
    ensures AsWrittenFrom(NeverConsistent, NeverThrows, 0).outcome == Proceed
    ensures AsWrittenFrom(ConsistentOnlyAtLast, NeverThrows, 0).outcome == CountError
  {
    AsWrittenProceedsWhenNeverConsistent(NeverConsistent, NeverThrows, 0);
    AsWrittenErrorIff(ConsistentOnlyAtLast, NeverThrows, 0);
  }

  /** The evidently intended loop: reload while the counts disagree and
      fewer than `retryMax` reloads were done, then report the error exactly
      when they still disagree. */
  function Corrected(consistent: nat -> bool, throws: nat -> bool, counter: nat): RetryResult
    requires counter <= RETRY_MAX
    decreases RETRY_MAX - counter
  {
    if consistent(counter) then RetryResult(counter, counter, Proceed)
    else if counter == RETRY_MAX then RetryResult(counter, counter, CountError)
    else if throws(counter) then RetryResult(counter + 1, counter, ReloadError)
    else Corrected(consistent, throws, counter + 1)
  }

  /** The corrected loop goes on only with agreeing counts, reports the count
      error exactly when they never agreed within `retryMax` reloads, and
      reloads at most `retryMax` times. */
  lemma {:induction false} CorrectedIsSound(consistent: nat -> bool, throws: nat -> bool, counter: nat)
    requires counter <= RETRY_MAX
    ensures Corrected(consistent, throws, counter).reloads <= RETRY_MAX
    ensures Corrected(consistent, throws, counter).outcome == Proceed ==>
      consistent(Corrected(consistent, throws, counter).reloads)
    ensures Corrected(consistent, throws, counter).outcome == CountError <==>
      (forall k :: counter <= k <= RETRY_MAX ==> !consistent(k)) &&
      (forall k :: counter <= k < RETRY_MAX ==> !throws(k))
    ensures Corrected(consistent, throws, counter).outcome == ReloadError ==>
      throws(Corrected(consistent, throws, counter).reloads)
    decreases RETRY_MAX - counter
  {
    if counter < RETRY_MAX {
      CorrectedIsSound(consistent, throws, counter + 1);
    }
  }

  /** The two loops reload equally often and differ only when they reach the
      last permitted reload: there, each goes on where the other reports the
      count error. */
  lemma {:induction false} AsWrittenVsCorrected(consistent: nat -> bool, throws: nat -> bool, counter: nat)
    requires counter <= RETRY_MAX
    ensures var a := AsWrittenFrom(consistent, throws, counter);
            var c := Corrected(consistent, throws, counter);
            a.reloads == c.reloads &&
            (a.reloads < RETRY_MAX ==> a.outcome == c.outcome) &&
            (a.reloads == RETRY_MAX ==>
              a.outcome != ReloadError && c.outcome != ReloadError && a.outcome != c.outcome)
    decreases RETRY_MAX - counter
  {
    if counter < RETRY_MAX && !consistent(counter) && !throws(counter) {
      AsWrittenVsCorrected(consistent, throws, counter + 1);
    }
  }

  /** On the two histories above the corrected loop reports the error for the
      first and goes on for the second. */
  lemma CorrectedOnCounterexamples()
    ensures Corrected(NeverConsistent, NeverThrows, 0).outcome == CountError
    ensures Corrected(ConsistentOnlyAtLast, NeverThrows, 0).outcome == Proceed
  {
    CorrectedIsSound(NeverConsistent, NeverThrows, 0);
    CorrectedIsSound(ConsistentOnlyAtLast, NeverThrows, 0);
    assert ConsistentOnlyAtLast(RETRY_MAX);
    assert !NeverThrows(Corrected(ConsistentOnlyAtLast, NeverThrows, 0).reloads);
  }
}
