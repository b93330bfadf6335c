/** The batch-primitive step (`TupleBPS`) as an object: its extent
    bookkeeping, casual-partition flags, job construction, the run/join
    life cycle, and the per-row helpers that use its state. Messaging,
    threads and the primitive processor are not part of this model. */
module TupleBpsStep {
  import opened Wrappers
  import opened Extents
  import opened Jobs
  import opened Pruning
  import opened JobSteps
  import RB = RowBatches
  import JC = JoinCombine
  import LC = Lifecycle

  /** The value `fExtentsPerSegFile` has unless the configuration sets it. */
  const DEFAULT_EXTENTS_PER_SEG_FILE: nat := 2

  /** The extent list of column `oid` in the step's map, or none. */
  function OwnExtents(extentsMap: map<int, seq<Extent>>, oid: int): seq<Extent>
  {
    if oid in extentsMap then extentsMap[oid] else []
  }

  /** `extentsMap[fOid]` creates an empty entry when the column has none. */
  function WithOwnEntry(extentsMap: map<int, seq<Extent>>, oid: int): map<int, seq<Extent>>
  {
    if oid in extentsMap then extentsMap else extentsMap[oid := []]
  }

  /** The map `reloadExtentLists` builds: for every column command, in list
      order, the extents of that column keyed by first LBID; a later command
      on the same column replaces an earlier one's entry. */
  function ExtentsMapOf(cmds: seq<ColumnCommand>): map<int, seq<Extent>>
  {
    if cmds == [] then map[]
    else
      var last := cmds[|cmds| - 1];
      var m := ExtentsMapOf(cmds[..|cmds| - 1]);
      if last.isColumn then m[last.oid := KeyedByStart(last.extents)] else m
  }

  /** Command `i` is the last column command on column `k`. */
  predicate LastOn(cmds: seq<ColumnCommand>, i: nat, k: int)
    requires i < |cmds|
  {
    cmds[i].isColumn && cmds[i].oid == k &&
    forall j :: i < j < |cmds| ==> !(cmds[j].isColumn && cmds[j].oid == k)
  }

  /** The rebuilt map has an entry exactly for the columns of the command
      list. */
  lemma {:induction false} ExtentsMapOfKeys(cmds: seq<ColumnCommand>, k: int)
    ensures k in ExtentsMapOf(cmds) <==> exists i :: 0 <= i < |cmds| && cmds[i].isColumn && cmds[i].oid == k
  {
    if cmds != [] {
      var front := cmds[..|cmds| - 1];
      ExtentsMapOfKeys(front, k);
      if k in ExtentsMapOf(front) {
        var i :| 0 <= i < |front| && front[i].isColumn && front[i].oid == k;
        assert cmds[i] == front[i];
      }
      if exists i :: 0 <= i < |cmds| && cmds[i].isColumn && cmds[i].oid == k {
        var i :| 0 <= i < |cmds| && cmds[i].isColumn && cmds[i].oid == k;
        if i < |front| {
          assert front[i] == cmds[i];
        }
      }
    }
  }

  /** Each entry of the rebuilt map is keyed from the last command on that
      column. */
  lemma {:induction false} ExtentsMapOfLastWins(cmds: seq<ColumnCommand>, k: int, i: nat)
    requires i < |cmds| && LastOn(cmds, i, k)
    ensures k in ExtentsMapOf(cmds) && ExtentsMapOf(cmds)[k] == KeyedByStart(cmds[i].extents)
  {
    if i < |cmds| - 1 {
      var front := cmds[..|cmds| - 1];
      assert front[i] == cmds[i];
      forall j | i < j < |front| ensures !(front[j].isColumn && front[j].oid == k) {
        assert front[j] == cmds[j];
      }
      ExtentsMapOfLastWins(front, k, i);
    }
  }

  /** Column commands with their extents replaced by a reload: each column
      command gets the list the extent map returns for it. */
  function Reloaded(cmds: seq<ColumnCommand>, lists: seq<seq<Extent>>): (r: seq<ColumnCommand>)
    requires |lists| == |cmds|
    ensures |r| == |cmds|
    ensures forall i :: 0 <= i < |cmds| ==> r[i].isColumn == cmds[i].isColumn && r[i].oid == cmds[i].oid
  {
    seq(|cmds|, i requires 0 <= i < |cmds| => if cmds[i].isColumn then cmds[i].(extents := lists[i]) else cmds[i])
  }

  /** The extent lists one reload returns, for the filter and the projection
      commands. */
  datatype ReloadLists = ReloadLists(filters: seq<seq<Extent>>, projections: seq<seq<Extent>>)

  /** A second reload replaces what the first one left. */
  lemma ReloadedTwice(cmds: seq<ColumnCommand>, a: seq<seq<Extent>>, b: seq<seq<Extent>>)
    requires |a| == |cmds| && |b| == |cmds|
    ensures Reloaded(Reloaded(cmds, a), b) == Reloaded(cmds, b)
  {
  }

  /** Every extent of every column command lies on a DB root numbered from 1. */
  predicate RootsFromOne(cmds: seq<ColumnCommand>)
  {
    forall i, e :: 0 <= i < |cmds| && cmds[i].isColumn && e in cmds[i].extents ==> e.dbRoot >= 1
  }

  /** Every extent of every list lies on a DB root numbered from 1. */
  predicate ListsFromOne(lists: seq<seq<Extent>>)
  {
    forall i, e :: 0 <= i < |lists| && e in lists[i] ==> e.dbRoot >= 1
  }

  /** The rebuilt map holds only extents of the column commands. */
  lemma {:induction false} ExtentsMapOfRoots(cmds: seq<ColumnCommand>, oid: int)
    requires RootsFromOne(cmds)
    ensures forall e :: e in OwnExtents(ExtentsMapOf(cmds), oid) ==> e.dbRoot >= 1
  {
    if cmds != [] {
      var front := cmds[..|cmds| - 1];
      var last := cmds[|cmds| - 1];
      forall i, e | 0 <= i < |front| && front[i].isColumn && e in front[i].extents ensures e.dbRoot >= 1 {
        assert front[i] == cmds[i];
      }
      ExtentsMapOfRoots(front, oid);
      if last.isColumn && last.oid == oid {
        KeyedByStartFacts(last.extents);
      }
    }
  }

  /** Reloaded commands whose lists number roots from 1 do so too. */
  lemma ReloadedRoots(filters: seq<ColumnCommand>, projections: seq<ColumnCommand>, lists: ReloadLists)
    requires |lists.filters| == |filters| && |lists.projections| == |projections|
    requires ListsFromOne(lists.filters) && ListsFromOne(lists.projections)
    ensures RootsFromOne(Reloaded(filters, lists.filters) + Reloaded(projections, lists.projections))
  {
    var f := Reloaded(filters, lists.filters);
    var c := f + Reloaded(projections, lists.projections);
    forall i, e | 0 <= i < |c| && c[i].isColumn && e in c[i].extents ensures e.dbRoot >= 1 {
      if i < |f| {
        assert e in lists.filters[i];
      } else {
        assert e in lists.projections[i - |f|];
      }
    }
  }

  /** One reload's lists: one per command, roots numbered from 1. */
  predicate ReloadFits(lists: ReloadLists, filterCount: nat, projectionCount: nat)
  {
    |lists.filters| == filterCount && |lists.projections| == projectionCount &&
    ListsFromOne(lists.filters) && ListsFromOne(lists.projections)
  }

  /** The map a reload of `filters` and `projections` rebuilds, with the
      entry `initExtentMarkers` adds for the column. */
  function MapAfterReload(filters: seq<ColumnCommand>, projections: seq<ColumnCommand>,
                          lists: ReloadLists, oid: int): map<int, seq<Extent>>
    requires |lists.filters| == |filters| && |lists.projections| == |projections|
  {
    WithOwnEntry(ExtentsMapOf(Reloaded(filters, lists.filters) + Reloaded(projections, lists.projections)), oid)
  }

  /** Whether `goodExtentCount` holds after k reloads, starting from map `m0`
      and the commands `filters` and `projections`: each reload rebuilds the
      map from scratch. */
  predicate CountsAgreeAt(m0: map<int, seq<Extent>>, filters: seq<ColumnCommand>, projections: seq<ColumnCommand>,
                          reloads: nat -> Result<ReloadLists>, oid: int, k: nat)
  {
    if k == 0 then ConsistentCounts(m0)
    else
      reloads(k - 1).Ok? && ReloadFits(reloads(k - 1).value, |filters|, |projections|) &&
      ConsistentCounts(MapAfterReload(filters, projections, reloads(k - 1).value, oid))
  }

  /** The same, as the history the retry loop observes. */
  function CountsAgreeAfter(m0: map<int, seq<Extent>>, filters: seq<ColumnCommand>, projections: seq<ColumnCommand>,
                            reloads: nat -> Result<ReloadLists>, oid: int): nat -> bool
  {
    (k: nat) => CountsAgreeAt(m0, filters, projections, reloads, oid, k)
  }

  /** The retry loop of `run` over these reloads, from `counter` reloads on,
      as written: `while (!goodExtentCount() && retryCounter++ < retryMax)`
      reloads until the counts agree, the counter test fails or a reload
      throws; the counter is incremented by the failing test too, and the
      test `retryCounter == retryMax` after the loop decides between going
      on and the count error. */
  function RetryFrom(m0: map<int, seq<Extent>>, filters: seq<ColumnCommand>, projections: seq<ColumnCommand>,
                     reloads: nat -> Result<ReloadLists>, oid: int, counter: nat): LC.RetryResult
    requires counter <= LC.RETRY_MAX
    decreases LC.RETRY_MAX - counter
  {
    if CountsAgreeAt(m0, filters, projections, reloads, oid, counter) then LC.AfterLoop(counter, counter)
    else if counter == LC.RETRY_MAX then LC.AfterLoop(counter + 1, counter)
    else if reloads(counter).Err? then LC.RetryResult(counter + 1, counter, LC.ReloadError)
    else RetryFrom(m0, filters, projections, reloads, oid, counter + 1)
  }

  /** One step of that loop. */
  lemma RetryFromUnfold(m0: map<int, seq<Extent>>, filters: seq<ColumnCommand>, projections: seq<ColumnCommand>,
                        reloads: nat -> Result<ReloadLists>, oid: int, k: nat)
    requires k <= LC.RETRY_MAX
    ensures var agree := CountsAgreeAt(m0, filters, projections, reloads, oid, k);
            var r := RetryFrom(m0, filters, projections, reloads, oid, k);
            (agree ==> r == LC.AfterLoop(k, k)) &&
            (!agree && k == LC.RETRY_MAX ==> r == LC.AfterLoop(k + 1, k)) &&
            (!agree && k < LC.RETRY_MAX && reloads(k).Err? ==> r == LC.RetryResult(k + 1, k, LC.ReloadError)) &&
            (!agree && k < LC.RETRY_MAX && reloads(k).Ok? ==> r == RetryFrom(m0, filters, projections, reloads, oid, k + 1))
  {
  }

  /** That loop is the loop as written on the history of this step's
      reloads. */
  lemma {:induction false} RetryFromIsAsWritten(m0: map<int, seq<Extent>>, filters: seq<ColumnCommand>, projections: seq<ColumnCommand>,
                                                reloads: nat -> Result<ReloadLists>, oid: int, counter: nat)
    requires counter <= LC.RETRY_MAX
    ensures RetryFrom(m0, filters, projections, reloads, oid, counter) ==
            LC.AsWrittenFrom(CountsAgreeAfter(m0, filters, projections, reloads, oid), ReloadThrows(reloads), counter)
    decreases LC.RETRY_MAX - counter
  {
    if counter < LC.RETRY_MAX {
      RetryFromIsAsWritten(m0, filters, projections, reloads, oid, counter + 1);
    }
  }

  /** Against the evidently intended loop on the same reloads: the step
      reloads as often, ends the same way when it stops before the last
      permitted reload, and ends the other way round when it reaches it:
      it goes on with counts that never agreed, and reports the count error
      for counts that agree after the last reload. */
  lemma RetryFromVsCorrected(m0: map<int, seq<Extent>>, filters: seq<ColumnCommand>, projections: seq<ColumnCommand>,
                             reloads: nat -> Result<ReloadLists>, oid: int)
    ensures var a := RetryFrom(m0, filters, projections, reloads, oid, 0);
            var c := LC.Corrected(CountsAgreeAfter(m0, filters, projections, reloads, oid), ReloadThrows(reloads), 0);
            a.reloads == c.reloads &&
            (a.reloads < LC.RETRY_MAX ==> a.outcome == c.outcome) &&
            (a.reloads == LC.RETRY_MAX ==>
              a.outcome != LC.ReloadError && c.outcome != LC.ReloadError && a.outcome != c.outcome)
  {
    RetryFromIsAsWritten(m0, filters, projections, reloads, oid, 0);
    LC.AsWrittenVsCorrected(CountsAgreeAfter(m0, filters, projections, reloads, oid), ReloadThrows(reloads), 0);
  }

  /** None of the first k count tests agreed and none of the first k
      reloads threw. */
  predicate NoStopBefore(m0: map<int, seq<Extent>>, filters: seq<ColumnCommand>, projections: seq<ColumnCommand>,
                         reloads: nat -> Result<ReloadLists>, oid: int, k: nat)
  {
    k == 0 ||
    (NoStopBefore(m0, filters, projections, reloads, oid, k - 1) &&
     !CountsAgreeAt(m0, filters, projections, reloads, oid, k - 1) && reloads(k - 1).Ok?)
  }

  /** One more reload that returned lists without the counts agreeing. */
  lemma NoStopAdvances(m0: map<int, seq<Extent>>, filters: seq<ColumnCommand>, projections: seq<ColumnCommand>,
                       reloads: nat -> Result<ReloadLists>, oid: int, k: nat)
    requires k >= 1 && NoStopBefore(m0, filters, projections, reloads, oid, k - 1)
    requires !CountsAgreeAt(m0, filters, projections, reloads, oid, k - 1) && reloads(k - 1).Ok?
    ensures NoStopBefore(m0, filters, projections, reloads, oid, k)
  {
  }

  /** Such reloads leave the result of the loop unchanged. */
  lemma {:induction false} RetryFromSkips(m0: map<int, seq<Extent>>, filters: seq<ColumnCommand>, projections: seq<ColumnCommand>,
                                          reloads: nat -> Result<ReloadLists>, oid: int, k: nat)
    requires k <= LC.RETRY_MAX && NoStopBefore(m0, filters, projections, reloads, oid, k)
    ensures RetryFrom(m0, filters, projections, reloads, oid, 0) == RetryFrom(m0, filters, projections, reloads, oid, k)
  {
    if k > 0 {
      RetryFromSkips(m0, filters, projections, reloads, oid, k - 1);
      RetryFromUnfold(m0, filters, projections, reloads, oid, k - 1);
    }
  }

  /** Where the retry loop stops after k such reloads (the counts agree,
      the counter test fails after `retryMax` reloads, or reload k + 1
      throws), the loop's result is that stop: agreeing counts go on unless
      they agree only after the last reload, a failing counter test goes
      on, and a throwing reload is reported. */
  lemma RetryEndsAt(m0: map<int, seq<Extent>>, filters: seq<ColumnCommand>, projections: seq<ColumnCommand>,
                    reloads: nat -> Result<ReloadLists>, oid: int, k: nat)
    requires k <= LC.RETRY_MAX && NoStopBefore(m0, filters, projections, reloads, oid, k)
    requires CountsAgreeAt(m0, filters, projections, reloads, oid, k) || k == LC.RETRY_MAX || reloads(k).Err?
    ensures var r := RetryFrom(m0, filters, projections, reloads, oid, 0);
            var agree := CountsAgreeAt(m0, filters, projections, reloads, oid, k);
            r.reloads == k &&
            r.counter == (if agree then k else k + 1) &&
            r.outcome == if agree then (if k == LC.RETRY_MAX then LC.CountError else LC.Proceed)
                         else if k == LC.RETRY_MAX then LC.Proceed else LC.ReloadError
  {
    RetryFromSkips(m0, filters, projections, reloads, oid, k);
    RetryFromUnfold(m0, filters, projections, reloads, oid, k);
  }

  /** Whether reload k + 1 throws. */
  function ReloadThrows(reloads: nat -> Result<ReloadLists>): nat -> bool
  {
    (k: nat) => reloads(k).Err?
  }

  /** The loop's end that each outcome of `run` follows. */
  function StartPhase(r: RunOutcome): LC.RunStart
  {
    match r
    case CountError => LC.CountError
    case ReloadError => LC.ReloadError
    case _ => LC.Proceed
  }

  /** The flags `prepCasualPartitioning` leaves. */
  function PreppedFlags(scanFlags: seq<bool>, runtimeFlags: seq<bool>, oid: int): (r: seq<bool>)
    requires |scanFlags| <= |runtimeFlags|
    ensures |r| == |scanFlags|
  {
    seq(|scanFlags|, i requires 0 <= i < |scanFlags| => PrepFlag(scanFlags[i], runtimeFlags[i], oid))
  }

  /** For user columns the prepared flags are those both passes keep; for
      system-catalog columns every extent is scanned. */
  lemma PreppedFlagsMeaning(scanFlags: seq<bool>, runtimeFlags: seq<bool>, oid: int, i: nat)
    requires |scanFlags| <= |runtimeFlags| && i < |scanFlags|
    ensures PreppedFlags(scanFlags, runtimeFlags, oid)[i] <==>
      oid < FIRST_USER_OID || (scanFlags[i] && runtimeFlags[i])
  {
    PrepFlagFacts(scanFlags[i], runtimeFlags[i], oid);
  }

  /** The loop of `prepCasualPartitioning`. */
  method PrepFlags(scanFlags: seq<bool>, runtimeFlags: seq<bool>, oid: int) returns (r: seq<bool>)
    requires |scanFlags| <= |runtimeFlags|
    ensures r == PreppedFlags(scanFlags, runtimeFlags, oid)
  {
    r := scanFlags;
    var i := 0;
    while i < |scanFlags|
      invariant i <= |scanFlags| && |r| == |scanFlags|
      invariant forall j :: 0 <= j < |scanFlags| ==>
        r[j] == if j < i then PrepFlag(scanFlags[j], runtimeFlags[j], oid) else scanFlags[j]
    {
      if oid >= FIRST_USER_OID {
        r := r[i := r[i] && runtimeFlags[i]];
      } else {
        r := r[i := true];
      }
      i := i + 1;
    }
  }

  /** The loop that fills one entry of the map: `mref[start] = e` for each
      extent in list order. */
  method KeyExtents(extents: seq<Extent>) returns (keyed: seq<Extent>)
    ensures keyed == KeyedByStart(extents)
  {
    keyed := [];
    var j := 0;
    while j < |extents|
      invariant j <= |extents| && keyed == KeyedByStart(extents[..j])
    {
      assert extents[..j + 1][..j] == extents[..j];
      keyed := Upsert(keyed, extents[j]);
      j := j + 1;
    }
    assert extents[..|extents|] == extents;
  }

  /** The two loops of `reloadExtentLists` that rebuild the map, over the
      filter commands and then the projection commands. */
  method RebuildExtentsMap(filters: seq<ColumnCommand>, projections: seq<ColumnCommand>)
    returns (m: map<int, seq<Extent>>)
    ensures m == ExtentsMapOf(filters + projections)
  {
    m := map[];
    var i := 0;
    while i < |filters|
      invariant i <= |filters| && m == ExtentsMapOf(filters[..i])
    {
      assert filters[..i + 1][..i] == filters[..i];
      if filters[i].isColumn {
        var keyed := KeyExtents(filters[i].extents);
        m := m[filters[i].oid := keyed];
      }
      i := i + 1;
    }
    assert filters + projections[..0] == filters[..|filters|];
    i := 0;
    while i < |projections|
      invariant i <= |projections| && m == ExtentsMapOf(filters + projections[..i])
    {
      assert (filters + projections[..i + 1])[..|filters| + i] == filters + projections[..i];
      assert (filters + projections[..i + 1])[|filters| + i] == projections[i];
      if projections[i].isColumn {
        var keyed := KeyExtents(projections[i].extents);
        m := m[projections[i].oid := keyed];
      }
      i := i + 1;
    }
    assert projections[..|projections|] == projections;
  }

  /** What `run` did. */
  datatype RunOutcome = AlreadyRan | Started | CountError | ReloadError | StartError

  /** Where the start of the primitive processor throws, if it does: while
      creating and sending it, while sending the joiner, or while starting
      the threads. */
  datatype StartFault = NoFault | SendFault | JoinerFault | ThreadFault

  /** The step's view of the column's extents. */
  datatype ExtentLayout = ExtentLayout(
    extentsMap: map<int, seq<Extent>>,
    scannedExtents: seq<Extent>,
    numExtents: nat,
    scanFlags: seq<bool>,
    runtimeCPFlags: seq<bool>,
    lastExtent: seq<int>,
    lastScannedLBID: seq<int>,
    numDBRoots: nat)

  /** The step's progress flags and counters. */
  datatype Progress = Progress(
    cpEvaluated: bool,
    runExecuted: bool,
    joinRan: bool,
    bppAllocated: bool,
    outputEnded: bool,
    numBlksSkipped: nat)

  /** `n` flags, all set: every extent is scanned until pruning says not. */
  function AllSet(n: nat): (r: seq<bool>)
    ensures |r| == n && forall i :: 0 <= i < n ==> r[i]
  {
    seq(n, _ => true)
  }

  /** The count of extents per segment file, as `extentCountPerDbFile`
      holds it for the extents of `ref`. */
  method CountPerFile(ref: seq<Extent>) returns (counts: map<(nat, nat), nat>)
    ensures forall e :: e in ref ==> (e.partitionNum, e.segmentNum) in counts
    ensures forall key :: key in counts ==> counts[key] == FileCount(ref, key.0, key.1)
  {
    counts := map[];
    var i := 0;
    while i < |ref|
      invariant i <= |ref|
      invariant forall j :: 0 <= j < i ==> (ref[j].partitionNum, ref[j].segmentNum) in counts
      invariant forall key :: key in counts ==> counts[key] == FileCount(ref[..i], key.0, key.1)
    {
      var key := (ref[i].partitionNum, ref[i].segmentNum);
      assert ref[..i + 1][..i] == ref[..i];
      var c := if key in counts then counts[key] else 0;
      assert c == FileCount(ref[..i], key.0, key.1) by {
        if key !in counts {
          FileCountZero(ref[..i], key.0, key.1);
        }
      }
      counts := counts[key := c + 1];
      i := i + 1;
    }
    assert ref[..|ref|] == ref;
    forall e | e in ref ensures (e.partitionNum, e.segmentNum) in counts {
      var j :| 0 <= j < |ref| && ref[j] == e;
    }
  }

  /** A file none of whose extents is in the list counts zero. */
  lemma {:induction false} FileCountZero(s: seq<Extent>, partition: nat, segment: nat)
    requires forall j :: 0 <= j < |s| ==> (s[j].partitionNum, s[j].segmentNum) != (partition, segment)
    ensures FileCount(s, partition, segment) == 0
  {
    if s != [] {
      FileCountZero(s[..|s| - 1], partition, segment);
    }
  }

  /** The step. Fields are those of `TupleBPS` that the modelled operations
      read or write; `step` is its `JobStep` part. */
  class TupleBps {
    // Set when the step is built and never changed by the modelled operations.
    const step: JobStep
    const oid: int
    const extentsPerSegFile: nat
    const ignoreCP: bool
    const colWidth: nat
    const threadsPerScan: nat
    const divShift: nat
    const rpbShift: nat

    // The filter and projection commands; a reload replaces their extents.
    var filterCmds: seq<ColumnCommand>
    var projectCmds: seq<ColumnCommand>
    var dupColumns: seq<(nat, nat)>

    // Whether the filters are combined with AND (`bop == BOP_AND`).
    var bopAnd: bool

    // The extent layout of the scanned column.
    var extentsMap: map<int, seq<Extent>>
    var scannedExtents: seq<Extent>
    var numExtents: nat
    var scanFlags: seq<bool>
    var runtimeCPFlags: seq<bool>
    var lastExtent: seq<int>
    var lastScannedLBID: seq<int>
    var numDBRoots: nat

    // Progress flags and counters.
    var cpEvaluated: bool
    var runExecuted: bool
    var joinRan: bool
    var bppAllocated: bool
    var outputEnded: bool
    var numBlksSkipped: nat

    function LayoutOf(): ExtentLayout
      reads this`extentsMap, this`scannedExtents, this`numExtents, this`scanFlags, this`runtimeCPFlags, this`lastExtent, this`lastScannedLBID, this`numDBRoots
    {
      ExtentLayout(extentsMap, scannedExtents, numExtents, scanFlags, runtimeCPFlags, lastExtent, lastScannedLBID, numDBRoots)
    }

    function CommandsOf(): (seq<ColumnCommand>, seq<ColumnCommand>, seq<(nat, nat)>)
      reads this`filterCmds, this`projectCmds, this`dupColumns
    {
      (filterCmds, projectCmds, dupColumns)
    }

    function ProgressOf(): Progress
      reads this`cpEvaluated, this`runExecuted, this`joinRan, this`bppAllocated, this`outputEnded, this`numBlksSkipped
    {
      Progress(cpEvaluated, runExecuted, joinRan, bppAllocated, outputEnded, numBlksSkipped)
    }

    /** The layout is consistent and the divisors `makeJobs` uses are not
        zero. */
    predicate Valid()
      reads this`extentsMap, this`scannedExtents, this`numExtents, this`scanFlags, this`runtimeCPFlags, this`lastExtent, this`lastScannedLBID, this`numDBRoots
    {
      LayoutValid(LayoutOf(), oid) && colWidth > 0 && threadsPerScan > 0
    }

    /** The constructor from a column scan step: the column's extents keyed
        by first LBID, the default or configured extents per segment file,
        AND as the filter operator, nothing run yet; then the markers. */
    constructor FromScan(js: JobStep, columnOid: int, extents: seq<Extent>,
                         filters: seq<ColumnCommand>, projections: seq<ColumnCommand>,
                         width: nat, threads: nat, epsfSetting: Option<nat>,
                         shift: nat, rpb: nat, ignoreCasualPartitions: bool, configuredRoots: nat)
      requires width > 0 && threads > 0
      requires forall e :: e in extents ==> e.dbRoot >= 1
      ensures Valid()
      ensures step == js && oid == columnOid && filterCmds == filters && projectCmds == projections
      ensures ignoreCP == ignoreCasualPartitions && colWidth == width && threadsPerScan == threads
      ensures divShift == shift && rpbShift == rpb
      ensures extentsPerSegFile == (if epsfSetting.Some? then epsfSetting.value else DEFAULT_EXTENTS_PER_SEG_FILE)
      ensures LayoutOf() == MarkedLayout(map[columnOid := KeyedByStart(extents)], columnOid, extentsPerSegFile, configuredRoots)
      ensures ProgressOf() == Progress(false, false, false, false, false, 0) && bopAnd && dupColumns == []
    {
      var keyed := KeyedByStart(extents);
      KeyedByStartFacts(extents);
      var epsf := if epsfSetting.Some? then epsfSetting.value else DEFAULT_EXTENTS_PER_SEG_FILE;
      var m := Markers(keyed, epsf, configuredRoots);
      step := js;
      oid := columnOid;
      filterCmds := filters;
      projectCmds := projections;
      extentsMap := map[columnOid := keyed];
      scannedExtents := m.scanned;
      numExtents := |m.scanned|;
      scanFlags := AllSet(|m.scanned|);
      runtimeCPFlags := AllSet(|m.scanned|);
      lastExtent := m.last;
      lastScannedLBID := m.lbids;
      numDBRoots := m.roots;
      extentsPerSegFile := epsf;
      cpEvaluated := false;
      ignoreCP := ignoreCasualPartitions;
      bopAnd := true;
      colWidth := width;
      threadsPerScan := threads;
      numBlksSkipped := 0;
      divShift := shift;
      rpbShift := rpb;
      dupColumns := [];
      runExecuted := false;
      joinRan := false;
      bppAllocated := false;
      outputEnded := false;
      new;
      MarkedLayoutValid(extentsMap, oid, extentsPerSegFile, configuredRoots);
    }

    /** `initExtentMarkers`: rebuild the sorted extent list of the column
        and the per-root markers from the column's entry in the map. */
    method InitExtentMarkers(configuredRoots: nat)
      requires forall e :: e in OwnExtents(extentsMap, oid) ==> e.dbRoot >= 1
      requires colWidth > 0 && threadsPerScan > 0
      modifies this`extentsMap, this`scannedExtents, this`numExtents, this`scanFlags, this`runtimeCPFlags, this`lastExtent, this`lastScannedLBID, this`numDBRoots
      ensures Valid()
      ensures LayoutOf() == MarkedLayout(old(extentsMap), oid, extentsPerSegFile, configuredRoots)
      ensures CommandsOf() == old(CommandsOf()) && ProgressOf() == old(ProgressOf())
    {
      var ref := OwnExtents(extentsMap, oid);
      var m := Markers(ref, extentsPerSegFile, configuredRoots);
      MarkedLayoutValid(extentsMap, oid, extentsPerSegFile, configuredRoots);
      SetLayout(ExtentLayout(WithOwnEntry(extentsMap, oid), m.scanned, |m.scanned|,
                             AllSet(|m.scanned|), AllSet(|m.scanned|), m.last, m.lbids, m.roots));
    }

    /** Store a new extent layout. */
    method SetLayout(l: ExtentLayout)
      modifies this`extentsMap, this`scannedExtents, this`numExtents, this`scanFlags, this`runtimeCPFlags, this`lastExtent, this`lastScannedLBID, this`numDBRoots
      ensures LayoutOf() == l
    {
      extentsMap, scannedExtents, numExtents, scanFlags := l.extentsMap, l.scannedExtents, l.numExtents, l.scanFlags;
      runtimeCPFlags, lastExtent, lastScannedLBID, numDBRoots := l.runtimeCPFlags, l.lastExtent, l.lastScannedLBID, l.numDBRoots;
    }

    /** `goodExtentCount`: every column has as many extents as the first
        entry of the map (any entry gives the same answer). */
    method GoodExtentCount() returns (good: bool)
      requires extentsMap.Keys != {}
      ensures good <==> ConsistentCounts(extentsMap)
    {
      NonemptyHasMember(extentsMap.Keys);
      var first :| first in extentsMap.Keys;
      var eCount := |extentsMap[first]|;
      var keys := extentsMap.Keys;
      while keys != {}
        invariant keys <= extentsMap.Keys
        invariant forall k :: k in extentsMap && k !in keys ==> |extentsMap[k]| == eCount
        decreases |keys|
      {
        NonemptyHasMember(keys);
        var k :| k in keys;
        if |extentsMap[k]| != eCount {
          return false;
        }
        keys := keys - {k};
      }
      good := true;
    }

    /** `reloadExtentLists`: every column command takes the extent list of
        this reload, the map is rebuilt from the filter and then the
        projection commands, and the markers are recomputed. */
    method ReloadExtentLists(lists: ReloadLists, configuredRoots: nat)
      requires ReloadFits(lists, |filterCmds|, |projectCmds|)
      requires colWidth > 0 && threadsPerScan > 0
      modifies this`filterCmds, this`projectCmds
      modifies this`extentsMap, this`scannedExtents, this`numExtents, this`scanFlags, this`runtimeCPFlags, this`lastExtent, this`lastScannedLBID, this`numDBRoots
      ensures filterCmds == Reloaded(old(filterCmds), lists.filters)
      ensures projectCmds == Reloaded(old(projectCmds), lists.projections)
      ensures Valid()
      ensures LayoutOf() == MarkedLayout(ExtentsMapOf(filterCmds + projectCmds), oid, extentsPerSegFile, configuredRoots)
      ensures dupColumns == old(dupColumns) && ProgressOf() == old(ProgressOf())
    {
      ReloadedRoots(filterCmds, projectCmds, lists);
      filterCmds := Reloaded(filterCmds, lists.filters);
      projectCmds := Reloaded(projectCmds, lists.projections);
      var m := RebuildExtentsMap(filterCmds, projectCmds);
      ExtentsMapOfRoots(filterCmds + projectCmds, oid);
      extentsMap := m;
      InitExtentMarkers(configuredRoots);
    }

    /** The commands after `done` reloads of the retry loop, from the
        commands `filters0` and `projections0` it started with: unchanged
        before the first reload; after reload k they hold the extent lists
        of reload k. */
    ghost function Retried(filters0: seq<ColumnCommand>, projections0: seq<ColumnCommand>,
                           reloads: nat -> Result<ReloadLists>, done: nat)
      : (seq<ColumnCommand>, seq<ColumnCommand>)
    {
      if done == 0 || reloads(done - 1).Err? || !ReloadFits(reloads(done - 1).value, |filters0|, |projections0|) then
        (filters0, projections0)
      else
        (Reloaded(filters0, reloads(done - 1).value.filters), Reloaded(projections0, reloads(done - 1).value.projections))
    }

    /** The layout after `done` reloads, when the commands are `cmds`: the
        one the step started with, or the one `initExtentMarkers` builds from
        the map rebuilt from the commands. */
    ghost function RetriedLayout(layout0: ExtentLayout, cmds: (seq<ColumnCommand>, seq<ColumnCommand>), done: nat, configuredRoots: nat)
      : ExtentLayout
    {
      if done == 0 then layout0 else MarkedLayout(ExtentsMapOf(cmds.0 + cmds.1), oid, extentsPerSegFile, configuredRoots)
    }

    /** The step is in the state `Retried` and `RetriedLayout` describe,
        after reloads that all returned lists that fit. */
    ghost predicate RetryState(filters0: seq<ColumnCommand>, projections0: seq<ColumnCommand>, layout0: ExtentLayout,
                               reloads: nat -> Result<ReloadLists>, done: nat, configuredRoots: nat)
      reads this`filterCmds, this`projectCmds
      reads this`extentsMap, this`scannedExtents, this`numExtents, this`scanFlags, this`runtimeCPFlags, this`lastExtent, this`lastScannedLBID, this`numDBRoots
    {
      Valid() &&
      (done > 0 ==> reloads(done - 1).Ok? && ReloadFits(reloads(done - 1).value, |filters0|, |projections0|)) &&
      (filterCmds, projectCmds) == Retried(filters0, projections0, reloads, done) &&
      LayoutOf() == RetriedLayout(layout0, (filterCmds, projectCmds), done, configuredRoots)
    }

    /** The body of the retry loop when reload `done` + 1 returns lists:
        reload them, then test the counts, which agree exactly when they
        agree in the map rebuilt from those lists. */
    method RetryStep(ghost m0: map<int, seq<Extent>>, ghost filters0: seq<ColumnCommand>, ghost projections0: seq<ColumnCommand>,
                     ghost layout0: ExtentLayout, reloads: nat -> Result<ReloadLists>, done: nat, configuredRoots: nat)
      returns (good: bool, next: nat)
      requires RetryState(filters0, projections0, layout0, reloads, done, configuredRoots)
      requires NoStopBefore(m0, filters0, projections0, reloads, oid, done)
      requires reloads(done).Ok? && ReloadFits(reloads(done).value, |filters0|, |projections0|)
      requires done < LC.RETRY_MAX && !CountsAgreeAt(m0, filters0, projections0, reloads, oid, done)
      modifies this`filterCmds, this`projectCmds
      modifies this`extentsMap, this`scannedExtents, this`numExtents, this`scanFlags, this`runtimeCPFlags, this`lastExtent, this`lastScannedLBID, this`numDBRoots
      ensures next == done + 1
      ensures RetryState(filters0, projections0, layout0, reloads, next, configuredRoots)
      ensures NoStopBefore(m0, filters0, projections0, reloads, oid, next)
      ensures good == CountsAgreeAt(m0, filters0, projections0, reloads, oid, next)
      ensures dupColumns == old(dupColumns) && ProgressOf() == old(ProgressOf())
    {
      next := done + 1;
      NoStopAdvances(m0, filters0, projections0, reloads, oid, next);
      var lists := reloads(done).value;
      ghost var cmds := (Reloaded(filters0, lists.filters), Reloaded(projections0, lists.projections));
      assert Retried(filters0, projections0, reloads, next) == cmds;
      if done > 0 {
        ReloadedTwice(filters0, reloads(done - 1).value.filters, lists.filters);
        ReloadedTwice(projections0, reloads(done - 1).value.projections, lists.projections);
      }
      assert Reloaded(filterCmds, lists.filters) == cmds.0 && Reloaded(projectCmds, lists.projections) == cmds.1;
      ReloadExtentLists(lists, configuredRoots);
      assert extentsMap == MapAfterReload(filters0, projections0, lists, oid);
      good := GoodExtentCount();
    }

    /** The retry loop at the start of `run`, as written: reload while the
      counts disagree and the post-incremented counter test passes.
      `reloads(k)` is what reload k + 1 returns or throws. */
    method RetryReloads(reloads: nat -> Result<ReloadLists>, configuredRoots: nat)
      returns (start: LC.RunStart, reloadsDone: nat, retryCounter: nat)
      requires Valid()
      requires forall k :: reloads(k).Ok? ==> ReloadFits(reloads(k).value, |filterCmds|, |projectCmds|)
      modifies this`filterCmds, this`projectCmds
      modifies this`extentsMap, this`scannedExtents, this`numExtents, this`scanFlags, this`runtimeCPFlags, this`lastExtent, this`lastScannedLBID, this`numDBRoots
      ensures RetryState(old(filterCmds), old(projectCmds), old(LayoutOf()), reloads, reloadsDone, configuredRoots)
      ensures RetryFrom(old(extentsMap), old(filterCmds), old(projectCmds), reloads, oid, 0) ==
              LC.RetryResult(retryCounter, reloadsDone, start)
      ensures dupColumns == old(dupColumns) && ProgressOf() == old(ProgressOf())
    {
      var good := GoodExtentCount();
      start, reloadsDone, retryCounter := RetryLoop(extentsMap, filterCmds, projectCmds, LayoutOf(), reloads, configuredRoots, good);
    }

    /** The loop of `RetryReloads`, from the state `m0`, `filters0`,
        `projections0`, `layout0` it started in and the first count test
        `good0`. Whether reload k + 1 will throw is `reloads(k).Err?`; the
        loop leaves when it would. */
    method RetryLoop(ghost m0: map<int, seq<Extent>>, ghost filters0: seq<ColumnCommand>, ghost projections0: seq<ColumnCommand>,
                     ghost layout0: ExtentLayout, reloads: nat -> Result<ReloadLists>, configuredRoots: nat, good0: bool)
      returns (start: LC.RunStart, reloadsDone: nat, retryCounter: nat)
      requires RetryState(filters0, projections0, layout0, reloads, 0, configuredRoots)
      requires good0 == CountsAgreeAt(m0, filters0, projections0, reloads, oid, 0)
      requires forall k :: reloads(k).Ok? ==> ReloadFits(reloads(k).value, |filters0|, |projections0|)
      modifies this`filterCmds, this`projectCmds
      modifies this`extentsMap, this`scannedExtents, this`numExtents, this`scanFlags, this`runtimeCPFlags, this`lastExtent, this`lastScannedLBID, this`numDBRoots
      ensures RetryState(filters0, projections0, layout0, reloads, reloadsDone, configuredRoots)
      ensures RetryFrom(m0, filters0, projections0, reloads, oid, 0) == LC.RetryResult(retryCounter, reloadsDone, start)
      ensures dupColumns == old(dupColumns) && ProgressOf() == old(ProgressOf())
    {
      var good := good0;
      reloadsDone, retryCounter := 0, 0;
      while !good && retryCounter < LC.RETRY_MAX && reloads(reloadsDone).Ok?
        invariant retryCounter == reloadsDone <= LC.RETRY_MAX
        invariant RetryState(filters0, projections0, layout0, reloads, reloadsDone, configuredRoots)
        invariant good == CountsAgreeAt(m0, filters0, projections0, reloads, oid, reloadsDone)
        invariant NoStopBefore(m0, filters0, projections0, reloads, oid, reloadsDone)
        invariant dupColumns == old(dupColumns) && ProgressOf() == old(ProgressOf())
        decreases LC.RETRY_MAX - retryCounter
      {
        retryCounter := retryCounter + 1;
        good, reloadsDone := RetryStep(m0, filters0, projections0, layout0, reloads, reloadsDone, configuredRoots);
      }
      if !good {
        // The test that ended the loop still incremented the counter.
        retryCounter := retryCounter + 1;
      }
      if !good && reloadsDone < LC.RETRY_MAX {
        start := LC.ReloadError;
      } else {
        start := if retryCounter == LC.RETRY_MAX then LC.CountError else LC.Proceed;
      }
      RetryEndsAt(m0, filters0, projections0, reloads, oid, reloadsDone);
    }

    /** The failure path of `run`: report ERR_TUPLE_BPS unless an error is
        already reported, and end the output. */
    method FailRun()
      modifies this`outputEnded, step.errInfo
      ensures outputEnded
      ensures step.Status() == if old(step.Status()) == 0 then ERR_TUPLE_BPS else old(step.Status())
      ensures LayoutOf() == old(LayoutOf()) && CommandsOf() == old(CommandsOf())
      ensures cpEvaluated == old(cpEvaluated) && runExecuted == old(runExecuted) && joinRan == old(joinRan)
      ensures bppAllocated == old(bppAllocated) && numBlksSkipped == old(numBlksSkipped)
    {
      if step.Status() == 0 {
        step.SetStatus(ERR_TUPLE_BPS);
      }
      outputEnded := true;
    }

    /** `prepCasualPartitioning`: fold the runtime flags into the scan flags
        of a user column; scan every extent of a system-catalog column. */
    method PrepCasualPartitioning()
      requires Valid()
      modifies this`scanFlags
      ensures scanFlags == PreppedFlags(old(scanFlags), runtimeCPFlags, oid)
      ensures Valid()
      ensures LayoutOf() == old(LayoutOf()).(scanFlags := scanFlags)
    {
      var r := PrepFlags(scanFlags, runtimeCPFlags, oid);
      scanFlags := r;
    }

    /** `run`, once: the retry loop as written, then the start of the primitive
        processor, which throws at `fault` if anywhere; the processor is
        allocated once it is sent, and the flags are prepared before the
        threads start. */
    method Run(reloads: nat -> Result<ReloadLists>, configuredRoots: nat, fault: StartFault)
      returns (r: RunOutcome, reloadsDone: nat)
      requires Valid()
      requires forall k :: reloads(k).Ok? ==> ReloadFits(reloads(k).value, |filterCmds|, |projectCmds|)
      modifies this`filterCmds, this`projectCmds
      modifies this`extentsMap, this`scannedExtents, this`numExtents, this`scanFlags, this`runtimeCPFlags, this`lastExtent, this`lastScannedLBID, this`numDBRoots
      modifies this`runExecuted, this`bppAllocated, this`outputEnded, step.errInfo
      ensures Valid() && runExecuted
      ensures r == AlreadyRan <==> old(runExecuted)
      ensures r == AlreadyRan ==>
        reloadsDone == 0 && LayoutOf() == old(LayoutOf()) && CommandsOf() == old(CommandsOf()) &&
        ProgressOf() == old(ProgressOf()) && step.Status() == old(step.Status())
      ensures r != AlreadyRan ==>
        RetryFrom(old(extentsMap), old(filterCmds), old(projectCmds), reloads, oid, 0).reloads == reloadsDone &&
        RetryFrom(old(extentsMap), old(filterCmds), old(projectCmds), reloads, oid, 0).outcome == StartPhase(r)
      ensures StartPhase(r) == LC.Proceed && r != AlreadyRan ==> (r == Started <==> fault == NoFault)
      ensures r != AlreadyRan ==>
        outputEnded == (old(outputEnded) || r != Started) &&
        bppAllocated == (old(bppAllocated) || r == Started || (r == StartError && fault != SendFault)) &&
        step.Status() == if r == Started || old(step.Status()) != 0 then old(step.Status()) else ERR_TUPLE_BPS
      ensures r != AlreadyRan ==>
        var cmds := Retried(old(filterCmds), old(projectCmds), reloads, reloadsDone);
        var layout := RetriedLayout(old(LayoutOf()), cmds, reloadsDone, configuredRoots);
        filterCmds == cmds.0 && projectCmds == cmds.1 &&
        LayoutOf() == if r == Started || (r == StartError && fault == ThreadFault)
                      then layout.(scanFlags := PreppedFlags(layout.scanFlags, layout.runtimeCPFlags, oid))
                      else layout
    {
      if runExecuted {
        return AlreadyRan, 0;
      }
      runExecuted := true;
      var start, retryCounter;
      start, reloadsDone, retryCounter := RetryReloads(reloads, configuredRoots);
      r := StartAfterRetry(start, fault);
    }

    /** What `run` does once the retry loop ended with `start`: start the
        primitive processor when it may go on, otherwise fail. */
    method StartAfterRetry(start: LC.RunStart, fault: StartFault) returns (r: RunOutcome)
      requires Valid()
      modifies this`scanFlags, this`bppAllocated, this`outputEnded, step.errInfo
      ensures Valid() && r != AlreadyRan && StartPhase(r) == start
      ensures start == LC.Proceed ==> (r == Started <==> fault == NoFault)
      ensures outputEnded == (old(outputEnded) || r != Started)
      ensures bppAllocated == (old(bppAllocated) || r == Started || (r == StartError && fault != SendFault))
      ensures step.Status() == if r == Started || old(step.Status()) != 0 then old(step.Status()) else ERR_TUPLE_BPS
      ensures LayoutOf() == if r == Started || (r == StartError && fault == ThreadFault)
                            then old(LayoutOf()).(scanFlags := PreppedFlags(old(scanFlags), runtimeCPFlags, oid))
                            else old(LayoutOf())
    {
      if start == LC.Proceed {
        r := StartProcessor(fault);
      } else {
        FailRun();
        r := if start == LC.CountError then CountError else ReloadError;
      }
    }

    /** The second half of `run`: create and send the primitive processor,
        after which it counts as allocated, send the joiner, prepare the
        flags and start the threads; an exception at `fault` takes the
        failure path. */
    method StartProcessor(fault: StartFault) returns (r: RunOutcome)
      requires Valid()
      modifies this`scanFlags, this`bppAllocated, this`outputEnded, step.errInfo
      ensures Valid()
      ensures r == (if fault == NoFault then Started else StartError)
      ensures bppAllocated == (old(bppAllocated) || fault != SendFault)
      ensures outputEnded == (old(outputEnded) || fault != NoFault)
      ensures step.Status() == if fault == NoFault || old(step.Status()) != 0 then old(step.Status()) else ERR_TUPLE_BPS
      ensures scanFlags == if fault == NoFault || fault == ThreadFault then PreppedFlags(old(scanFlags), runtimeCPFlags, oid) else old(scanFlags)
    {
      if fault == SendFault {
        FailRun();
        return StartError;
      }
      bppAllocated := true;
      if fault == JoinerFault {
        FailRun();
        return StartError;
      }
      PrepCasualPartitioning();
      if fault == ThreadFault {
        FailRun();
        return StartError;
      }
      r := Started;
    }

    /** `storeCasualPartitionInfo`: on its first call, overwrite each
        extent's scan flag with whether every CP filter column keeps it,
        the columns tried in order and the first that rules the extent out
        ending the test; later calls change nothing. */
    method StoreCasualPartitionInfo(pred: CpPredicate)
      requires Valid()
      requires !cpEvaluated ==> forall idx :: 0 <= idx < numExtents ==> HasExtent(CpColumns(filterCmds), idx)
      modifies this`scanFlags, this`cpEvaluated
      ensures Valid() && cpEvaluated
      ensures scanFlags == StoredFlags(old(scanFlags), old(cpEvaluated), filterCmds, ignoreCP, pred)
      ensures LayoutOf() == old(LayoutOf()).(scanFlags := scanFlags)
    {
      if cpEvaluated {
        return;
      }
      cpEvaluated := true;
      if |filterCmds| == 0 {
        return;
      }
      var cols := CollectCpColumns(filterCmds);
      if |cols| == 0 {
        return;
      }
      var idx := 0;
      while idx < numExtents
        invariant idx <= numExtents && |scanFlags| == numExtents && cpEvaluated
        invariant forall j :: 0 <= j < numExtents ==>
          scanFlags[j] == (if j < idx then ExtentPasses(cols, j, ignoreCP, pred) else old(scanFlags)[j])
      {
        var keep := ExtentKept(cols, idx, ignoreCP, pred);
        scanFlags := scanFlags[idx := keep];
        idx := idx + 1;
      }
    }

    /** The view of the step `makeJobs` works from, with the DB root to
        connection map of the configuration. */
    function ScanLayoutOf(connections: map<nat, nat>): ScanLayout
      reads this`scannedExtents, this`scanFlags, this`lastExtent
    {
      ScanLayout(scannedExtents, scanFlags, lastExtent, connections, colWidth, threadsPerScan)
    }

    /** `setBOP`: the operator combining the filters; only whether it is
        AND matters to the modelled operations. */
    method SetBop(isAnd: bool)
      modifies this`bopAnd
      ensures bopAnd == isAnd
    {
      bopAnd := isAnd;
    }

    /** `makeJobs`: for a user column filtered with AND, evaluate the CP
        flags first; then plan the jobs extent by extent, counting the
        LBIDs the flags skip, and throw ERR_DATA_OFFLINE at the first
        selected extent whose DB root has no connection. The skipped count
        grows by what was counted before a throw too. */
    method MakeJobs(connections: map<nat, nat>, pred: CpPredicate) returns (outcome: Result<seq<Job>>)
      requires Valid()
      requires oid >= FIRST_USER_OID && bopAnd && !cpEvaluated ==>
        forall idx :: 0 <= idx < numExtents ==> HasExtent(CpColumns(filterCmds), idx)
      modifies this`scanFlags, this`cpEvaluated, this`numBlksSkipped
      ensures Valid()
      ensures cpEvaluated == (old(cpEvaluated) || (oid >= FIRST_USER_OID && bopAnd))
      ensures scanFlags == if oid >= FIRST_USER_OID && bopAnd
                           then StoredFlags(old(scanFlags), old(cpEvaluated), filterCmds, ignoreCP, pred)
                           else old(scanFlags)
      ensures LayoutOf() == old(LayoutOf()).(scanFlags := scanFlags)
      ensures WellFormed(ScanLayoutOf(connections))
      ensures outcome == PlanJobs(ScanLayoutOf(connections), numExtents).outcome
      ensures numBlksSkipped == old(numBlksSkipped) + PlanJobs(ScanLayoutOf(connections), numExtents).skipped
    {
      if oid >= FIRST_USER_OID && bopAnd {
        StoreCasualPartitionInfo(pred);
      }
      var skipped;
      outcome, skipped := BuildJobs(ScanLayoutOf(connections));
      numBlksSkipped := numBlksSkipped + skipped;
    }

    /** `getFBO`: the file block offset of `lbid` from the first scanned
        extent that holds it, or a logic_error. */
    method GetFbo(lbid: int) returns (r: Result<int>)
      requires Valid()
      ensures r == Fbo(scannedExtents, lbid, divShift)
    {
      var i := 0;
      while i < numExtents
        invariant i <= numExtents
        invariant forall j :: 0 <= j < i ==> !HoldsLbid(scannedExtents[j], lbid)
      {
        var e := scannedExtents[i];
        var lastLbid := e.start + e.size * 1024 - 1;
        if lbid >= e.start && lbid <= lastLbid {
          assert FirstHolding(scannedExtents, lbid, 0) == i;
          return Ok(lbid - e.start + U32(i * Pow2(divShift)));
        }
        i := i + 1;
      }
      r := Err(LogicError);
    }

    /** `scanit`: a row of a system-catalog column is always scanned; a row
        of a user column is scanned exactly when both the scan flag and the
        runtime flag of its extent are set, which is the flag
        `prepCasualPartitioning` derives for that extent. */
    function Scanit(rid: nat): (scan: bool)
      reads this`scanFlags, this`runtimeCPFlags
      requires oid >= FIRST_USER_OID ==>
        ExtentOfRid(rid, rpbShift, divShift) < |scanFlags| && ExtentOfRid(rid, rpbShift, divShift) < |runtimeCPFlags|
      ensures oid < FIRST_USER_OID ==> scan
      ensures oid >= FIRST_USER_OID ==>
        var k := ExtentOfRid(rid, rpbShift, divShift);
        (scan <==> scanFlags[k] && runtimeCPFlags[k]) &&
        (|scanFlags| <= |runtimeCPFlags| ==> scan == PreppedFlags(scanFlags, runtimeCPFlags, oid)[k])
    {
      if oid < FIRST_USER_OID then true
      else
        var extentIndex := ExtentOfRid(rid, rpbShift, divShift);
        scanFlags[extentIndex] && runtimeCPFlags[extentIndex]
    }

    /** `addCPPredicates`: when it applies, fail on a column without
        extents; otherwise add the column's extents to the map if missing
        and AND the runtime flag of the j-th extent with the range or value
        test on its cached range. The list walked is the sorted one when the
        column is in the map, and otherwise the catalog's list as the second
        lookup returns it (`AddCpListAsWritten`). */
    method AddCPPredicates(colOid: int, vals: seq<int>, isRange: bool, catalog: seq<Extent>,
                           minMax: int -> MinMax, overlap: RangeOverlap, single: SingleValue)
      returns (outcome: Outcome)
      requires Valid()
      requires isRange ==> |vals| >= 2
      requires |catalog| <= numExtents
      modifies this`extentsMap, this`runtimeCPFlags
      ensures Valid()
      ensures LayoutOf() == old(LayoutOf()).(extentsMap := extentsMap, runtimeCPFlags := runtimeCPFlags)
      ensures outcome.Fail? <==> AddCpApplies(filterCmds + projectCmds, colOid, ignoreCP, oid) && catalog == []
      ensures outcome.Fail? ==> outcome.error == RuntimeError
      ensures outcome.Fail? || !AddCpApplies(filterCmds + projectCmds, colOid, ignoreCP, oid) ==>
        extentsMap == old(extentsMap) && runtimeCPFlags == old(runtimeCPFlags)
      ensures outcome.Pass? && AddCpApplies(filterCmds + projectCmds, colOid, ignoreCP, oid) ==>
        extentsMap == (if colOid in old(extentsMap) then old(extentsMap)
                       else old(extentsMap)[colOid := KeyedByStart(catalog)]) &&
        runtimeCPFlags == RuntimeFlags(old(runtimeCPFlags), AddCpListAsWritten(catalog, colOid in old(extentsMap)),
                                       minMax, vals, isRange, overlap, single)
    {
      if ignoreCP || oid < FIRST_USER_OID {
        return Pass;
      }
      var cmds := filterCmds + projectCmds;
      var k := FindColumn(cmds, colOid);
      if k < 0 {
        return Pass;
      }
      var cmd := cmds[k];
      if !cmd.cpType || cmd.fcnOrd != 0 || cmd.isDict {
        return Pass;
      }
      if catalog == [] {
        return Fail(RuntimeError);
      }
      var extents := AddCpListAsWritten(catalog, colOid in extentsMap);
      AddCpListAsWrittenFacts(catalog, colOid in extentsMap);
      ApplyRuntimePredicates(colOid, extents, vals, isRange, minMax, overlap, single);
      outcome := Pass;
    }

    /** The part of `addCPPredicates` that applies: the column gets a map
        entry keyed from `extents` unless it has one, and each runtime flag
        is cleared when its extent's range rules the predicate out. */
    method ApplyRuntimePredicates(colOid: int, extents: seq<Extent>, vals: seq<int>, isRange: bool,
                                  minMax: int -> MinMax, overlap: RangeOverlap, single: SingleValue)
      requires Valid()
      requires isRange ==> |vals| >= 2
      requires |extents| <= numExtents
      modifies this`extentsMap, this`runtimeCPFlags
      ensures Valid()
      ensures LayoutOf() == old(LayoutOf()).(extentsMap := extentsMap, runtimeCPFlags := runtimeCPFlags)
      ensures extentsMap == if colOid in old(extentsMap) then old(extentsMap) else old(extentsMap)[colOid := KeyedByStart(extents)]
      ensures runtimeCPFlags == RuntimeFlags(old(runtimeCPFlags), extents, minMax, vals, isRange, overlap, single)
    {
      if colOid !in extentsMap {
        extentsMap := extentsMap[colOid := KeyedByStart(extents)];
      }
      runtimeCPFlags := UpdateRuntimeFlags(runtimeCPFlags, extents, minMax, vals, isRange, overlap, single);
    }

    /** `checkDupOutputColumns`: list, for each output column whose key an
        earlier column already has, the pair of its index and the index of
        the key's first column, remembered in a key map. */
    method CheckDupOutputColumns(keys: seq<nat>)
      modifies this`dupColumns
      ensures dupColumns == RB.DupPairs(keys)
    {
      var keymap: map<nat, nat> := map[];
      dupColumns := [];
      var i := 0;
      while i < |keys|
        invariant i <= |keys|
        invariant dupColumns == RB.DupPairs(keys[..i])
        invariant forall key :: key in keymap <==> key in keys[..i]
        invariant forall key :: key in keymap ==> key in keys[..i] && keymap[key] == RB.FirstIndex(keys[..i], key)
      {
        var front := keys[..i];
        assert keys[..i + 1] == front + [keys[i]];
        forall key | key in keymap
          ensures key in keys[..i + 1] && RB.FirstIndex(keys[..i + 1], key) == keymap[key]
        {
          RB.FirstIndexPrefix(front, [keys[i]], key);
        }
        if keys[i] !in keymap {
          assert keys[..i + 1][i] == keys[i];
          keymap := keymap[keys[i] := i];
        } else {
          dupColumns := dupColumns + [(i, keymap[keys[i]])];
        }
        i := i + 1;
      }
      assert keys[..|keys|] == keys;
    }

    /** `join`, once: a step that has run and still holds its primitive
        processor releases it. */
    method Join() returns (ran: bool)
      modifies this`joinRan, this`bppAllocated
      ensures joinRan
      ensures ran <==> !old(joinRan)
      ensures bppAllocated == (old(bppAllocated) && !(ran && runExecuted))
    {
      if joinRan {
        return false;
      }
      joinRan := true;
      ran := true;
      if runExecuted && bppAllocated {
        bppAllocated := false;
      }
    }

    /** `abort`: a step that is not already dying aborts its `JobStep`
        part, after which it counts as cancelled. */
    method Abort() returns (acted: bool)
      modifies step
      ensures acted <==> !old(step.die)
      ensures step.die && step.Cancelled()
      ensures step.errInfo == old(step.errInfo)
      ensures step.delayedRunFlag == old(step.delayedRunFlag) && step.waitToRunStepCnt == old(step.waitToRunStepCnt)
    {
      if step.die {
        return false;
      }
      step.Abort();
      acted := true;
    }
  }

  /** The sizes of a layout agree, every scanned extent's root has a marker
      that is -1 or an index of the list, and the column has an entry in
      the map. */
  predicate LayoutValid(l: ExtentLayout, oid: int)
  {
    |l.scannedExtents| == l.numExtents && |l.scanFlags| == l.numExtents && |l.runtimeCPFlags| == l.numExtents &&
    |l.lastExtent| == l.numDBRoots && |l.lastScannedLBID| == l.numDBRoots &&
    (forall k :: 0 <= k < l.numDBRoots ==> -1 <= l.lastExtent[k] < l.numExtents) &&
    (forall i :: 0 <= i < l.numExtents ==> 1 <= l.scannedExtents[i].dbRoot <= l.numDBRoots) &&
    oid in l.extentsMap
  }

  /** What `initExtentMarkers` leaves, from the map `extentsMap`, for column
      `oid`: the column has an entry, and the layout is that of its markers
      with every flag set. */
  function MarkedLayout(extentsMap: map<int, seq<Extent>>, oid: int, epsf: nat, configured: nat): ExtentLayout
  {
    var m := MarkersFor(OwnExtents(extentsMap, oid), epsf, configured);
    ExtentLayout(WithOwnEntry(extentsMap, oid), m.scanned, |m.scanned|,
                 AllSet(|m.scanned|), AllSet(|m.scanned|), m.last, m.lbids, m.roots)
  }

  /** The layout `initExtentMarkers` builds is consistent when roots are
      numbered from 1. */
  lemma MarkedLayoutValid(extentsMap: map<int, seq<Extent>>, oid: int, epsf: nat, configured: nat)
    requires forall e :: e in OwnExtents(extentsMap, oid) ==> e.dbRoot >= 1
    ensures LayoutValid(MarkedLayout(extentsMap, oid, epsf, configured), oid)
  {
    MarkersForFacts(OwnExtents(extentsMap, oid), epsf, configured);
    MarkersCoverRoots(OwnExtents(extentsMap, oid), epsf, configured);
  }

  /** The extent list, root count, per-root markers and last scanned LBIDs
      `initExtentMarkers` derives from the extents `ref` of the column. */
  datatype MarkerSet = MarkerSet(scanned: seq<Extent>, roots: nat, last: seq<int>, lbids: seq<int>)

  /** The markers for `ref`: the sorted list with single-extent files of HWM
      0 relabelled, the configured root count widened to every extent's
      root, each root's last available extent (by the status before
      relabelling) and the LBID of that extent's HWM block. */
  function MarkersFor(ref: seq<Extent>, epsf: nat, configured: nat): MarkerSet
  {
    var sorted := SortExtents(ref);
    var roots := RootCount(sorted, configured);
    var last := LastExtentMarkers(sorted, roots);
    MarkerSet(RelabelAll(sorted, ref, epsf), roots, last,
              seq(roots, k requires 0 <= k < roots => LastScannedLbid(sorted, last[k])))
  }

  /** The sizes of the markers agree: one extent per extent of `ref`, one
      marker and one LBID per root, at least the configured roots, and each
      marker -1 or an index of the list. */
  lemma MarkersForFacts(ref: seq<Extent>, epsf: nat, configured: nat)
    ensures var m := MarkersFor(ref, epsf, configured);
      |m.scanned| == |ref| && |m.last| == m.roots && |m.lbids| == m.roots &&
      m.roots >= configured &&
      forall k :: 0 <= k < m.roots ==> -1 <= m.last[k] < |m.scanned|
  {
  }

  /** A set that is not empty has a member to pick. */
  lemma NonemptyHasMember(s: set<int>)
    requires s != {}
    ensures exists x :: x in s
  {
    if forall x :: x !in s {
      assert false;
    }
  }

  /** Every scanned extent's root has a marker, when roots are numbered
      from 1. */
  lemma MarkersCoverRoots(ref: seq<Extent>, epsf: nat, configured: nat)
    requires forall e :: e in ref ==> e.dbRoot >= 1
    ensures forall j :: 0 <= j < |ref| ==>
      1 <= MarkersFor(ref, epsf, configured).scanned[j].dbRoot <= MarkersFor(ref, epsf, configured).roots
  {
    var sorted := SortExtents(ref);
    SortExtentsFacts(ref);
    forall j | 0 <= j < |ref| ensures 1 <= sorted[j].dbRoot {
      assert sorted[j] in multiset(ref);
    }
  }

  /** The computation of `initExtentMarkers` on values. */
  method Markers(ref: seq<Extent>, epsf: nat, configured: nat) returns (m: MarkerSet)
    requires forall e :: e in ref ==> e.dbRoot >= 1
    ensures m == MarkersFor(ref, epsf, configured)
  {
    var sorted := SortExtents(ref);
    SortExtentsFacts(ref);
    var scanned, roots, last := ScanExtents(sorted, ref, epsf, configured);
    var lbids := ScannedLbids(sorted, scanned, last, ref, epsf);
    m := MarkerSet(scanned, roots, last, lbids);
  }

  /** The loop of `initExtentMarkers` over the sorted extents: widen the
      root count to each extent's root, move that root's marker to the
      extent when it is available, and relabel a single-extent file with
      HWM 0. The counts per file are those of the unsorted list `ref`. */
  method ScanExtents(sorted: seq<Extent>, ref: seq<Extent>, epsf: nat, configured: nat)
    returns (scanned: seq<Extent>, roots: nat, last: seq<int>)
    requires multiset(sorted) == multiset(ref)
    requires forall e :: e in ref ==> e.dbRoot >= 1
    ensures scanned == RelabelAll(sorted, ref, epsf)
    ensures roots == RootCount(sorted, configured)
    ensures last == LastExtentMarkers(sorted, roots)
  {
    var counts: map<(nat, nat), nat> := map[];
    if epsf > 1 {
      counts := CountPerFile(ref);
    }
    scanned := sorted;
    roots := configured;
    last := seq(roots, _ => -1);
    var i := 0;
    ScanStarts(sorted, ref, epsf, configured);
    while i < |sorted|
      invariant i <= |sorted|
      invariant ScanInvariant(sorted, ref, epsf, configured, i, scanned, roots, last)
    {
      scanned, roots, last := ScanStep(sorted, ref, epsf, configured, counts, i, scanned, roots, last);
      i := i + 1;
    }
    ScanEnds(sorted, ref, epsf, configured, scanned, roots, last);
  }

  /** Before the first extent nothing is relabelled, the configured roots
      are counted and no root has a usable extent. */
  lemma ScanStarts(sorted: seq<Extent>, ref: seq<Extent>, epsf: nat, configured: nat)
    ensures ScanInvariant(sorted, ref, epsf, configured, 0, sorted, configured, seq(configured, _ => -1))
  {
    assert sorted[..0] == [];
  }

  /** After the last extent the loop's state is the relabelled list, the
      root count of the whole list and its markers. */
  lemma ScanEnds(sorted: seq<Extent>, ref: seq<Extent>, epsf: nat, configured: nat,
                 scanned: seq<Extent>, roots: nat, last: seq<int>)
    requires ScanInvariant(sorted, ref, epsf, configured, |sorted|, scanned, roots, last)
    ensures scanned == RelabelAll(sorted, ref, epsf)
    ensures roots == RootCount(sorted, configured)
    ensures last == LastExtentMarkers(sorted, roots)
  {
    assert sorted[..|sorted|] == sorted;
  }

  /** What the loop of `initExtentMarkers` has done after `i` extents. */
  predicate ScanInvariant(sorted: seq<Extent>, ref: seq<Extent>, epsf: nat, configured: nat, i: nat,
                          scanned: seq<Extent>, roots: nat, last: seq<int>)
    requires i <= |sorted|
  {
    |scanned| == |sorted| &&
    (forall j :: 0 <= j < |sorted| ==> scanned[j] == if j < i then Relabel(sorted[j], ref, epsf) else sorted[j]) &&
    roots == RootCount(sorted[..i], configured) && |last| == roots &&
    forall k :: 0 <= k < roots ==> last[k] == LastAvailableBefore(sorted, k + 1, i)
  }

  /** One iteration of that loop, on extent `i`. */
  method ScanStep(sorted: seq<Extent>, ref: seq<Extent>, epsf: nat, configured: nat,
                  counts: map<(nat, nat), nat>, i: nat, scanned: seq<Extent>, roots: nat, last: seq<int>)
    returns (scanned1: seq<Extent>, roots1: nat, last1: seq<int>)
    requires i < |sorted| && multiset(sorted) == multiset(ref)
    requires forall e :: e in ref ==> e.dbRoot >= 1
    requires epsf > 1 ==> forall e :: e in ref ==> (e.partitionNum, e.segmentNum) in counts
    requires forall key :: key in counts ==> counts[key] == FileCount(ref, key.0, key.1)
    requires ScanInvariant(sorted, ref, epsf, configured, i, scanned, roots, last)
    ensures ScanInvariant(sorted, ref, epsf, configured, i + 1, scanned1, roots1, last1)
  {
    var e := scanned[i];
    assert e == sorted[i];
    assert e in ref by {
      assert e in multiset(sorted);
    }
    roots1, last1 := AdvanceMarkers(sorted, configured, i, roots, last);
    var r := RelabelOne(e, ref, epsf, counts);
    scanned1 := scanned[i := r];
  }

  /** The relabelling of one extent, with the per-file counts read from
      `counts`, which are kept only when there are several extents per
      segment file. */
  method RelabelOne(e: Extent, ref: seq<Extent>, epsf: nat, counts: map<(nat, nat), nat>) returns (r: Extent)
    requires e in ref
    requires epsf > 1 ==> (e.partitionNum, e.segmentNum) in counts
    requires forall key :: key in counts ==> counts[key] == FileCount(ref, key.0, key.1)
    ensures r == Relabel(e, ref, epsf)
  {
    r := e;
    if epsf > 1 && e.hwm == 0 {
      if counts[(e.partitionNum, e.segmentNum)] == 1 {
        r := e.(status := EXTENT_STATUS_MAX + 1);
      }
    }
  }

  /** One step of the marker loop, for extent `i`: the widened root count
      and the markers over `sorted[..i+1]`. */
  method AdvanceMarkers(sorted: seq<Extent>, configured: nat, i: nat, roots: nat, last: seq<int>)
    returns (roots1: nat, last1: seq<int>)
    requires i < |sorted| && sorted[i].dbRoot >= 1
    requires roots == RootCount(sorted[..i], configured) && |last| == roots
    requires forall k :: 0 <= k < roots ==> last[k] == LastAvailableBefore(sorted, k + 1, i)
    ensures roots1 == RootCount(sorted[..i + 1], configured) && |last1| == roots1
    ensures forall k :: 0 <= k < roots1 ==> last1[k] == LastAvailableBefore(sorted, k + 1, i + 1)
  {
    var e := sorted[i];
    assert sorted[..i + 1][..i] == sorted[..i];
    roots1, last1 := roots, last;
    if e.dbRoot > roots {
      last1 := last + seq(e.dbRoot - roots, _ => -1);
      roots1 := e.dbRoot;
      forall j | 0 <= j < i ensures sorted[j].dbRoot <= roots {
        assert sorted[..i][j] == sorted[j];
      }
    }
    if e.status == EXTENT_AVAILABLE && last1[e.dbRoot - 1] < i {
      last1 := last1[e.dbRoot - 1 := i];
    }
  }

  /** The loop after it: each root's last scanned LBID, read from the
      relabelled list, which keeps every field but the status. */
  method ScannedLbids(sorted: seq<Extent>, scanned: seq<Extent>, last: seq<int>, ref: seq<Extent>, epsf: nat)
    returns (lbids: seq<int>)
    requires scanned == RelabelAll(sorted, ref, epsf)
    requires forall k :: 0 <= k < |last| ==> -1 <= last[k] < |sorted|
    ensures |lbids| == |last|
    ensures forall k :: 0 <= k < |last| ==> lbids[k] == LastScannedLbid(sorted, last[k])
  {
    lbids := [];
    var k := 0;
    while k < |last|
      invariant k <= |last| && |lbids| == k
      invariant forall r :: 0 <= r < k ==> lbids[r] == LastScannedLbid(sorted, last[r])
    {
      if last[k] != -1 {
        var x := scanned[last[k]];
        lbids := lbids + [x.start + (x.hwm - x.blockOffset)];
      } else {
        lbids := lbids + [-1];
      }
      k := k + 1;
    }
  }
}
