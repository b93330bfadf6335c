/** The job-step base types: the positional list of output data lists that
    connects steps, the shared error record, and the status, cancellation and
    delayed-run bookkeeping every step carries. */
module JobSteps {
  import opened Wrappers

  /** `s` with `v` inserted contiguously at position `pos`, as
      `vector::insert(begin() + pos, first, last)` leaves it. */
  function InsertAt<T>(s: seq<T>, pos: nat, v: seq<T>): (r: seq<T>)
    requires pos <= |s|
    ensures |r| == |s| + |v|
    ensures forall i :: 0 <= i < pos ==> r[i] == s[i]
    ensures forall i :: 0 <= i < |v| ==> r[pos + i] == v[i]
    ensures forall i :: pos <= i < |s| ==> r[i + |v|] == s[i]
  {
    s[..pos] + v + s[pos..]
  }

  /** Inserting a single element at the end is appending it, so `outAdd(spdl)`
      and `outAdd(spdl, outSize())` leave the same list. */
  lemma {:induction false} InsertAtEndIsAppend<T>(s: seq<T>, x: T)
    ensures InsertAt(s, |s|, [x]) == s + [x]
  {
    assert s[..|s|] == s;
    assert s[|s|..] == [];
  }

  /** Inserting `u` and then `v` right after it is inserting `u + v` at once:
      the vector overload of `outAdd` is the single-element one repeated. */
  lemma {:induction false} InsertAtConsecutive<T>(s: seq<T>, pos: nat, u: seq<T>, v: seq<T>)
    requires pos <= |s|
    ensures InsertAt(InsertAt(s, pos, u), pos + |u|, v) == InsertAt(s, pos, u + v)
  {
    var t := InsertAt(s, pos, u);
    assert t == (s[..pos] + u) + s[pos..];
    assert t[..pos + |u|] == s[..pos] + u;
    assert t[pos + |u|..] == s[pos..];
    calc {
      InsertAt(t, pos + |u|, v);
      t[..pos + |u|] + v + t[pos + |u|..];
      (s[..pos] + u) + v + s[pos..];
      { assert (s[..pos] + u) + v == s[..pos] + (u + v); }
      s[..pos] + (u + v) + s[pos..];
      InsertAt(s, pos, u + v);
    }
  }

  /** Connects a step to the data lists it writes. Only the output list is
      modelled; the input list and its accessors are deprecated in the source. */
  class JobStepAssociation<T> {
    var outDataList: seq<T>

    constructor ()
      ensures outDataList == []
    {
      outDataList := [];
    }

    /** `outAdd(spdl)`: appends. */
    method OutAdd(spdl: T)
      modifies this
      ensures outDataList == old(outDataList) + [spdl]
    {
      outDataList := outDataList + [spdl];
    }

    /** `outAdd(spdl, pos)`: throws logic_error past the end, else inserts at `pos`. */
    method OutAddAt(spdl: T, pos: nat) returns (r: Outcome)
      modifies this
      ensures r.Fail? <==> pos > |old(outDataList)|
      ensures r.Fail? ==> r.error == LogicError && outDataList == old(outDataList)
      ensures r.Pass? ==> outDataList == InsertAt(old(outDataList), pos, [spdl])
      ensures r.Pass? ==> outDataList[pos] == spdl
    {
      if pos > |outDataList| {
        return Fail(LogicError);
      }
      outDataList := outDataList[..pos] + [spdl] + outDataList[pos..];
      r := Pass;
    }

    /** `outAdd(spdlVec, pos)`: the same bound check, then a contiguous insert. */
    method OutAddAllAt(spdlVec: seq<T>, pos: nat) returns (r: Outcome)
      modifies this
      ensures r.Fail? <==> pos > |old(outDataList)|
      ensures r.Fail? ==> r.error == LogicError && outDataList == old(outDataList)
      ensures r.Pass? ==> outDataList == InsertAt(old(outDataList), pos, spdlVec)
      ensures r.Pass? ==> |outDataList| == |old(outDataList)| + |spdlVec|
    {
      if pos > |outDataList| {
        return Fail(LogicError);
      }
      outDataList := outDataList[..pos] + spdlVec + outDataList[pos..];
      r := Pass;
    }

    function OutSize(): nat
      reads this
    {
      |outDataList|
    }

    /** `outAt(i)`: bounds-checked through `vector::at`. */
    function OutAt(i: nat): (r: Result<T>)
      reads this
      ensures r.Ok? <==> i < |outDataList|
      ensures r.Ok? ==> r.value == outDataList[i]
      ensures r.Err? ==> r.error == OutOfRange
    {
      if i < |outDataList| then Ok(outDataList[i]) else Err(OutOfRange)
    }
  }

  /** The error record a step reports through; steps share it by pointer. */
  class ErrorInfo {
    var errCode: Uint32
    var errMsg: string

    /** The default constructor: code 0, empty message. */
    constructor ()
      ensures errCode == 0 && errMsg == ""
    {
      errCode := 0;
      errMsg := "";
    }

    /** The converting constructor from a 16-bit code. */
    constructor FromCode(v: Uint16)
      ensures errCode == v && errMsg == ""
    {
      errCode := v;
      errMsg := "";
    }

    /** `operator=(uint16_t)`: sets the code and clears the message. */
    method Assign(v: Uint16)
      modifies this
      ensures errCode == v && errMsg == ""
    {
      errCode := v;
      errMsg := "";
    }
  }

  /** The state every job step carries: the (shared) error record, the die
      flag set by abort, and the delayed-run counter. */
  class JobStep {
    var errInfo: ErrorInfo
    var die: bool
    var delayedRunFlag: bool
    var waitToRunStepCnt: Uint32

    constructor (e: ErrorInfo)
      ensures errInfo == e && !die && !delayedRunFlag && waitToRunStepCnt == 0
    {
      errInfo := e;
      die := false;
      delayedRunFlag := false;
      waitToRunStepCnt := 0;
    }

    function Status(): Uint32
      reads this, errInfo
    {
      errInfo.errCode
    }

    /** `cancelled()`: an error code is set or the step is dying. */
    predicate Cancelled()
      reads this, errInfo
    {
      errInfo.errCode > 0 || die
    }

    /** `status(s)`: overwrites the code, whatever it was. */
    method SetStatus(s: Uint32)
      modifies errInfo
      ensures errInfo.errCode == s && errInfo.errMsg == old(errInfo.errMsg)
      ensures s > 0 ==> Cancelled()
    {
      errInfo.errCode := s;
    }

    /** `errorMessage(s)`. */
    method SetErrorMessage(s: string)
      modifies errInfo
      ensures errInfo.errMsg == s && errInfo.errCode == old(errInfo.errCode)
    {
      errInfo.errMsg := s;
    }

    /** `statusPtr(sp)`: makes this step share `sp`. */
    method SetStatusPtr(sp: ErrorInfo)
      modifies this
      ensures errInfo == sp
      ensures die == old(die) && delayedRunFlag == old(delayedRunFlag)
      ensures waitToRunStepCnt == old(waitToRunStepCnt)
    {
      errInfo := sp;
    }

    /** `JobStep::abort()`: sets the die flag, so the step is cancelled. */
    method Abort()
      modifies this
      ensures die && Cancelled()
      ensures errInfo == old(errInfo)
      ensures delayedRunFlag == old(delayedRunFlag) && waitToRunStepCnt == old(waitToRunStepCnt)
    {
      die := true;
    }

    function DelayedRun(): bool
      reads this
    {
      delayedRunFlag
    }

    function WaitToRunStepCnt(): Uint32
      reads this
    {
      waitToRunStepCnt
    }

    /** `incWaitToRunStepCnt()`: marks the step delayed and counts one more
        step it waits for (a 32-bit counter). */
    method IncWaitToRunStepCnt()
      modifies this
      ensures delayedRunFlag
      ensures waitToRunStepCnt == U32(old(waitToRunStepCnt) + 1)
      ensures errInfo == old(errInfo) && die == old(die)
    {
      delayedRunFlag := true;
      waitToRunStepCnt := U32(waitToRunStepCnt + 1);
    }

    /** `decWaitToRunStepCnt()`: decrements the counter and returns its new
        value converted to `int`. */
    method DecWaitToRunStepCnt() returns (r: int)
      modifies this
      ensures waitToRunStepCnt == U32(old(waitToRunStepCnt) - 1)
      ensures r == ToInt32(waitToRunStepCnt)
      ensures 0 < old(waitToRunStepCnt) <= TWO_TO_31 ==> r == old(waitToRunStepCnt) - 1
      ensures old(waitToRunStepCnt) == 0 ==> r == -1
      ensures errInfo == old(errInfo) && die == old(die) && delayedRunFlag == old(delayedRunFlag)
    {
      waitToRunStepCnt := U32(waitToRunStepCnt - 1);
      r := ToInt32(waitToRunStepCnt);
    }

    /** `resetDelayedRun()`: clears the flag and the counter. */
    method ResetDelayedRun()
      modifies this
      ensures !delayedRunFlag && waitToRunStepCnt == 0
      ensures errInfo == old(errInfo) && die == old(die)
    {
      delayedRunFlag := false;
      waitToRunStepCnt := 0;
    }
  }

  /** Steps that share one error record see each other's errors: a non-zero
      status set through one of them cancels the other. */
  method SharedStatusCancelsBoth(a: JobStep, b: JobStep, code: Uint32)
    requires a.errInfo == b.errInfo && code > 0
    modifies a.errInfo
    ensures a.Cancelled() && b.Cancelled()
    ensures b.Status() == code
  {
    a.SetStatus(code);
  }
}
