/** Job construction for a scan (`makeJobs`): which extents are scanned, how
    many LBIDs and logical blocks each holds, how that work is split into jobs
    of at least 16 blocks, and how many blocks casual partitioning skipped. */
module Jobs {
  import opened Wrappers
  import opened Extents

  /** Engine error codes. Their numeric values live in the engine's error-id
      header, which is not part of this model: only that they are non-zero
      and distinct matters here. */
  const ERR_TUPLE_BPS: Uint16 := 2001
  const ERR_DATA_OFFLINE: Uint16 := 2002
  const ERR_MORE_THAN_1_ROW: Uint16 := 2003

  /** The least number of blocks a job is given when the extent has more. */
  const MIN_BLOCKS_PER_JOB: nat := 16

  /** One primitive message ready to send: its DB root, the connection it
      goes to, and the blocks it covers (the message carries `startLbid`
      and a count equal to `expectedResponses`). */
  datatype Job = Job(dbRoot: nat, connectionNum: nat, expectedResponses: nat, startLbid: int)

  /** What `makeJobs` reads from the step: the sorted extents, their scan
      flags, the per-root markers, the DB-root-to-connection map, the column
      width and the number of PrimProc threads per scan. */
  datatype ScanLayout = ScanLayout(
    extents: seq<Extent>,
    scanFlags: seq<bool>,
    lastExtent: seq<int>,
    connections: map<nat, nat>,
    colWidth: nat,
    threadsPerScan: nat)

  /** Every extent's root has a marker, and the divisors are non-zero. */
  predicate WellFormed(l: ScanLayout)
  {
    |l.scanFlags| == |l.extents| &&
    (forall i :: 0 <= i < |l.extents| ==> 1 <= l.extents[i].dbRoot <= |l.lastExtent|) &&
    l.colWidth > 0 && l.threadsPerScan > 0
  }

  /** `lastExtent[dbRoot - 1]` for extent i. */
  function Marker(l: ScanLayout, i: nat): int
    requires WellFormed(l) && i < |l.extents|
  {
    l.lastExtent[l.extents[i].dbRoot - 1]
  }

  /** The LBIDs of extent i that hold data (a 32-bit unsigned value): a whole
      extent when its HWM is 0 but a later usable extent of the root exists
      and it is not a relabelled single-block file; otherwise the blocks up
      to the HWM. */
  function LbidsToScan(l: ScanLayout, i: nat): Uint32
    requires WellFormed(l) && i < |l.extents|
  {
    var e := l.extents[i];
    if e.hwm == 0 && i < Marker(l, i) && e.status <= EXTENT_STATUS_MAX
    then U32(e.size * 1024)
    else U32(e.hwm - e.blockOffset + 1)
  }

  /** A relabelled single-extent file with HWM 0 scans a single LBID. */
  lemma {:induction false} LoneZeroHwmScansOneLbid(l: ScanLayout, i: nat, all: seq<Extent>, epsf: nat)
    requires WellFormed(l) && i < |l.extents|
    requires LoneZeroHwm(l.extents[i], all, epsf) && l.extents[i].blockOffset == 0
    requires l.extents[i].status == Relabel(l.extents[i], all, epsf).status
    ensures LbidsToScan(l, i) == 1
  {
    assert l.extents[i].status == EXTENT_STATUS_MAX + 1;
  }

  /** Extent i is at or before its root's last usable extent. */
  predicate Eligible(l: ScanLayout, i: nat)
    requires WellFormed(l) && i < |l.extents|
  {
    i <= Marker(l, i)
  }

  /** Extent i is scanned: casual partitioning keeps it and it is eligible. */
  predicate Selected(l: ScanLayout, i: nat)
    requires WellFormed(l) && i < |l.extents|
  {
    l.scanFlags[i] && Eligible(l, i)
  }

  /** The LBIDs `fNumBlksSkipped` grows by for extent i. */
  function SkippedLbids(l: ScanLayout, i: nat): nat
    requires WellFormed(l) && i < |l.extents|
  {
    if !l.scanFlags[i] && Eligible(l, i) then LbidsToScan(l, i) else 0
  }

  /** The logical blocks covering `lbids` LBIDs of a column `colWidth` bytes
      wide. */
  function BlocksToScan(lbids: nat, colWidth: nat): (r: nat)
    requires colWidth > 0
    ensures r * colWidth >= lbids
    ensures r > 0 ==> (r - 1) * colWidth < lbids
    ensures r == 0 <==> lbids == 0
  {
    if lbids % colWidth != 0 then lbids / colWidth + 1 else lbids / colWidth
  }

  /** The blocks one job covers: an even share per PrimProc thread, but at
      least 16. */
  function BlocksPerJob(blocks: nat, threadsPerScan: nat): (r: nat)
    requires threadsPerScan > 0
    ensures r >= MIN_BLOCKS_PER_JOB
    ensures r * threadsPerScan + threadsPerScan > blocks
    ensures r == MIN_BLOCKS_PER_JOB || r * threadsPerScan <= blocks
  {
    var share := blocks / threadsPerScan;
    if share > MIN_BLOCKS_PER_JOB then share else MIN_BLOCKS_PER_JOB
  }

  /** The jobs `remaining` blocks from LBID `start` are split into, `perJob`
      blocks at a time. */
  function SplitExtent(dbRoot: nat, conn: nat, start: int, remaining: nat, perJob: nat, colWidth: nat): seq<Job>
    requires perJob > 0
    decreases remaining
  {
    if remaining == 0 then []
    else
      var n := if remaining < perJob then remaining else perJob;
      [Job(dbRoot, conn, n, start)] + SplitExtent(dbRoot, conn, start + colWidth * n, remaining - n, perJob, colWidth)
  }

  /** The blocks a list of jobs covers. */
  function TotalBlocks(jobs: seq<Job>): nat
  {
    if jobs == [] then 0 else TotalBlocks(jobs[..|jobs| - 1]) + jobs[|jobs| - 1].expectedResponses
  }

  lemma {:induction false} TotalBlocksAppend(a: seq<Job>, b: seq<Job>)
    ensures TotalBlocks(a + b) == TotalBlocks(a) + TotalBlocks(b)
    decreases |b|
  {
    if b == [] {
      assert a + b == a;
    } else {
      assert (a + b)[..|a + b| - 1] == a + b[..|b| - 1];
      TotalBlocksAppend(a, b[..|b| - 1]);
    }
  }

  /** The jobs of one extent cover exactly its blocks. */
  lemma {:induction false} SplitExtentCovers(dbRoot: nat, conn: nat, start: int, remaining: nat, perJob: nat, colWidth: nat)
    requires perJob > 0
    ensures TotalBlocks(SplitExtent(dbRoot, conn, start, remaining, perJob, colWidth)) == remaining
    decreases remaining
  {
    if remaining > 0 {
      var js := SplitExtent(dbRoot, conn, start, remaining, perJob, colWidth);
      var n := if remaining < perJob then remaining else perJob;
      var rest := SplitExtent(dbRoot, conn, start + colWidth * n, remaining - n, perJob, colWidth);
      SplitExtentCovers(dbRoot, conn, start + colWidth * n, remaining - n, perJob, colWidth);
      assert js == [js[0]] + rest;
      TotalBlocksAppend([js[0]], rest);
      assert TotalBlocks([js[0]]) == n by {
        assert [js[0]][..0] == [];
      }
    }
  }

  /** An extent is split into as few jobs of `perJob` blocks as can hold it:
      ceil(remaining / perJob) of them. */
  lemma {:induction false} SplitExtentCount(dbRoot: nat, conn: nat, start: int, remaining: nat, perJob: nat, colWidth: nat)
    requires perJob > 0
    ensures |SplitExtent(dbRoot, conn, start, remaining, perJob, colWidth)| * perJob >= remaining
    ensures remaining > 0 ==> (|SplitExtent(dbRoot, conn, start, remaining, perJob, colWidth)| - 1) * perJob < remaining
    decreases remaining
  {
    if remaining > 0 {
      var n := if remaining < perJob then remaining else perJob;
      var c := |SplitExtent(dbRoot, conn, start + colWidth * n, remaining - n, perJob, colWidth)|;
      SplitExtentCount(dbRoot, conn, start + colWidth * n, remaining - n, perJob, colWidth);
      assert |SplitExtent(dbRoot, conn, start, remaining, perJob, colWidth)| == c + 1;
      SuccTimes(c, perJob);
      if c > 0 {
        SuccTimes(c - 1, perJob);
      }
    }
  }

  lemma SuccTimes(c: int, p: int)
    ensures (c + 1) * p == c * p + p
  {
  }

  /** The k-th job of an extent goes to the extent's root and connection,
      holds between 1 and `perJob` blocks (exactly `perJob` unless it is the
      last), and starts `colWidth * perJob * k` LBIDs after the extent: each
      starting LBID is the previous one plus `colWidth` times its blocks. */
  lemma {:induction false} SplitExtentJob(dbRoot: nat, conn: nat, start: int, remaining: nat, perJob: nat, colWidth: nat, k: nat)
    requires perJob > 0
    requires k < |SplitExtent(dbRoot, conn, start, remaining, perJob, colWidth)|
    ensures SplitExtent(dbRoot, conn, start, remaining, perJob, colWidth)[k].dbRoot == dbRoot
    ensures SplitExtent(dbRoot, conn, start, remaining, perJob, colWidth)[k].connectionNum == conn
    ensures 0 < SplitExtent(dbRoot, conn, start, remaining, perJob, colWidth)[k].expectedResponses <= perJob
    ensures k < |SplitExtent(dbRoot, conn, start, remaining, perJob, colWidth)| - 1 ==>
      SplitExtent(dbRoot, conn, start, remaining, perJob, colWidth)[k].expectedResponses == perJob
    ensures SplitExtent(dbRoot, conn, start, remaining, perJob, colWidth)[k].startLbid == start + colWidth * perJob * k
    decreases remaining
  {
    var js := SplitExtent(dbRoot, conn, start, remaining, perJob, colWidth);
    var n := if remaining < perJob then remaining else perJob;
    var rest := SplitExtent(dbRoot, conn, start + colWidth * n, remaining - n, perJob, colWidth);
    assert js == [Job(dbRoot, conn, n, start)] + rest;
    if k > 0 {
      assert js[k] == rest[k - 1];
      SplitExtentJob(dbRoot, conn, start + colWidth * n, remaining - n, perJob, colWidth, k - 1);
      assert n == perJob;
      MulDistributes(colWidth * perJob, 1, k - 1);
    } else if |js| > 1 {
      assert rest != [];
    }
  }

  lemma MulDistributes(a: int, b: int, c: int)
    ensures a * (b + c) == a * b + a * c
  {
  }

  /** The jobs `makeJobs` issues for selected extent i. */
  function ExtentJobs(l: ScanLayout, i: nat): seq<Job>
    requires WellFormed(l) && i < |l.extents| && l.extents[i].dbRoot in l.connections
  {
    var e := l.extents[i];
    var blocks := BlocksToScan(LbidsToScan(l, i), l.colWidth);
    SplitExtent(e.dbRoot, l.connections[e.dbRoot], e.start, blocks,
      BlocksPerJob(blocks, l.threadsPerScan), l.colWidth)
  }

  /** What `makeJobs` has produced after the first n extents: the jobs, or
      the offline error, and the skipped LBIDs counted so far. */
  datatype JobPlan = JobPlan(outcome: Result<seq<Job>>, skipped: nat)

  function PlanJobs(l: ScanLayout, n: nat): (p: JobPlan)
    requires WellFormed(l) && n <= |l.extents|
  {
    if n == 0 then JobPlan(Ok([]), 0)
    else
      var p := PlanJobs(l, n - 1);
      var i := n - 1;
      if p.outcome.Err? then p
      else
        var skipped := p.skipped + SkippedLbids(l, i);
        if !Selected(l, i) then JobPlan(p.outcome, skipped)
        else if l.extents[i].dbRoot !in l.connections then JobPlan(Err(IdbError(ERR_DATA_OFFLINE)), skipped)
        else JobPlan(Ok(p.outcome.value + ExtentJobs(l, i)), skipped)
  }

  /** Once `makeJobs` has thrown, later extents change nothing. */
  lemma {:induction false} PlanErrSticks(l: ScanLayout, n: nat, m: nat)
    requires WellFormed(l) && n <= m <= |l.extents|
    requires PlanJobs(l, n).outcome.Err?
    ensures PlanJobs(l, m) == PlanJobs(l, n)
    decreases m - n
  {
    if m > n {
      PlanErrSticks(l, n, m - 1);
    }
  }

  /** The loop of `makeJobs` over the sorted extents: work out each extent's
      LBIDs, count the LBIDs of extents casual partitioning rules out, skip
      extents past their root's marker, throw ERR_DATA_OFFLINE for a
      selected extent on a root without a connection, and split every other
      selected extent into jobs. */
  method BuildJobs(l: ScanLayout) returns (outcome: Result<seq<Job>>, skipped: nat)
    requires WellFormed(l)
    ensures JobPlan(outcome, skipped) == PlanJobs(l, |l.extents|)
  {
    var jobs: seq<Job> := [];
    skipped := 0;
    var i := 0;
    while i < |l.extents|
      invariant i <= |l.extents|
      invariant PlanJobs(l, i) == JobPlan(Ok(jobs), skipped)
    {
      var e := l.extents[i];
      var marker := l.lastExtent[e.dbRoot - 1];
      var lbidsToScan: Uint32;
      if e.hwm == 0 && i < marker && e.status <= EXTENT_STATUS_MAX {
        lbidsToScan := U32(e.size * 1024);
      } else {
        lbidsToScan := U32(e.hwm - e.blockOffset + 1);
      }
      assert lbidsToScan == LbidsToScan(l, i);
      if !l.scanFlags[i] && i <= marker {
        skipped := skipped + lbidsToScan;
      }
      if l.scanFlags[i] && i <= marker {
        if e.dbRoot !in l.connections {
          PlanErrSticks(l, i + 1, |l.extents|);
          return Err(IdbError(ERR_DATA_OFFLINE)), skipped;
        }
        var more := SplitIntoJobs(l, i, lbidsToScan);
        jobs := jobs + more;
      }
      i := i + 1;
    }
    outcome := Ok(jobs);
  }

  /** The inner loop of `makeJobs` for selected extent i: jobs of
      `blocksPerJob` blocks (the last one what remains), each starting
      `colWidth` LBIDs per block after the previous one. */
  method SplitIntoJobs(l: ScanLayout, i: nat, lbidsToScan: Uint32) returns (jobs: seq<Job>)
    requires WellFormed(l) && i < |l.extents| && l.extents[i].dbRoot in l.connections
    requires lbidsToScan == LbidsToScan(l, i)
    ensures jobs == ExtentJobs(l, i)
  {
    var e := l.extents[i];
    var conn := l.connections[e.dbRoot];
    var blocksToScan: nat;
    if lbidsToScan % l.colWidth != 0 {
      blocksToScan := lbidsToScan / l.colWidth + 1;
    } else {
      blocksToScan := lbidsToScan / l.colWidth;
    }
    var blocksPerJob := blocksToScan / l.threadsPerScan;
    if blocksPerJob < MIN_BLOCKS_PER_JOB {
      blocksPerJob := MIN_BLOCKS_PER_JOB;
    }
    jobs := EmitJobs(e.dbRoot, conn, e.start, blocksToScan, blocksPerJob, l.colWidth);
  }

  /** The job loop of `makeJobs` for one extent: jobs of `perJob` blocks,
      the last one taking what remains, each starting where the previous
      one ended. */
  method EmitJobs(dbRoot: nat, conn: nat, start: int, blocks: nat, perJob: nat, colWidth: nat) returns (jobs: seq<Job>)
    requires perJob > 0
    ensures jobs == SplitExtent(dbRoot, conn, start, blocks, perJob, colWidth)
  {
    var blocksToScan: nat := blocks;
    var startingLbid := start;
    jobs := [];
    while blocksToScan > 0
      invariant jobs + SplitExtent(dbRoot, conn, startingLbid, blocksToScan, perJob, colWidth) == SplitExtent(dbRoot, conn, start, blocks, perJob, colWidth)
    {
      var blocksThisJob := if blocksToScan < perJob then blocksToScan else perJob;
      jobs := jobs + [Job(dbRoot, conn, blocksThisJob, startingLbid)];
      blocksToScan := blocksToScan - blocksThisJob;
      startingLbid := startingLbid + colWidth * blocksThisJob;
    }
  }

  /** Some extent below n is selected but lies on a root with no connection. */
  predicate OfflineBefore(l: ScanLayout, n: nat)
    requires WellFormed(l) && n <= |l.extents|
  {
    exists i :: 0 <= i < n && Selected(l, i) && l.extents[i].dbRoot !in l.connections
  }

  /** `makeJobs` fails exactly when a selected extent's root is offline, and
      then with ERR_DATA_OFFLINE. */
  lemma {:induction false} PlanFailsIffOffline(l: ScanLayout, n: nat)
    requires WellFormed(l) && n <= |l.extents|
    ensures PlanJobs(l, n).outcome.Err? <==> OfflineBefore(l, n)
    ensures PlanJobs(l, n).outcome.Err? ==> PlanJobs(l, n).outcome.error == IdbError(ERR_DATA_OFFLINE)
  {
    if n > 0 {
      PlanFailsIffOffline(l, n - 1);
      if OfflineBefore(l, n - 1) {
        var i :| 0 <= i < n - 1 && Selected(l, i) && l.extents[i].dbRoot !in l.connections;
        assert 0 <= i < n;
      }
    }
  }

  /** Blocks of the selected extents below n. */
  function SelectedBlocks(l: ScanLayout, n: nat): nat
    requires WellFormed(l) && n <= |l.extents|
  {
    if n == 0 then 0
    else
      var blocks := if Selected(l, n - 1) then BlocksToScan(LbidsToScan(l, n - 1), l.colWidth) else 0;
      SelectedBlocks(l, n - 1) + blocks
  }

  /** LBIDs of the eligible extents below n, scanned and skipped alike. */
  function EligibleLbids(l: ScanLayout, n: nat): nat
    requires WellFormed(l) && n <= |l.extents|
  {
    if n == 0 then 0
    else EligibleLbids(l, n - 1) + (if Eligible(l, n - 1) then LbidsToScan(l, n - 1) else 0)
  }

  /** LBIDs of the selected extents below n. */
  function SelectedLbids(l: ScanLayout, n: nat): nat
    requires WellFormed(l) && n <= |l.extents|
  {
    if n == 0 then 0
    else SelectedLbids(l, n - 1) + (if Selected(l, n - 1) then LbidsToScan(l, n - 1) else 0)
  }

  /** The jobs of a selected extent all go to its root and that root's
      connection, cover its blocks, and exist exactly when it has data. */
  lemma ExtentJobsFacts(l: ScanLayout, i: nat)
    requires WellFormed(l) && i < |l.extents| && l.extents[i].dbRoot in l.connections
    ensures forall j :: j in ExtentJobs(l, i) ==>
      j.dbRoot == l.extents[i].dbRoot && j.connectionNum == l.connections[l.extents[i].dbRoot]
    ensures TotalBlocks(ExtentJobs(l, i)) == BlocksToScan(LbidsToScan(l, i), l.colWidth)
    ensures |ExtentJobs(l, i)| > 0 <==> LbidsToScan(l, i) > 0
  {
    var e := l.extents[i];
    var blocks := BlocksToScan(LbidsToScan(l, i), l.colWidth);
    var perJob := BlocksPerJob(blocks, l.threadsPerScan);
    var conn := l.connections[e.dbRoot];
    var js := ExtentJobs(l, i);
    SplitExtentCovers(e.dbRoot, conn, e.start, blocks, perJob, l.colWidth);
    SplitExtentCount(e.dbRoot, conn, e.start, blocks, perJob, l.colWidth);
    forall j | j in js ensures j.dbRoot == e.dbRoot && j.connectionNum == conn {
      var k :| 0 <= k < |js| && js[k] == j;
      SplitExtentJob(e.dbRoot, conn, e.start, blocks, perJob, l.colWidth, k);
    }
  }

  /** When it succeeds, `makeJobs` asks for exactly the blocks of the selected
      extents, sends every job to its root's connection, and counts as
      skipped exactly the eligible LBIDs it does not scan. */
  lemma {:induction false} PlanAccounting(l: ScanLayout, n: nat)
    requires WellFormed(l) && n <= |l.extents|
    requires PlanJobs(l, n).outcome.Ok?
    ensures TotalBlocks(PlanJobs(l, n).outcome.value) == SelectedBlocks(l, n)
    ensures PlanJobs(l, n).skipped + SelectedLbids(l, n) == EligibleLbids(l, n)
    ensures forall j :: j in PlanJobs(l, n).outcome.value ==>
      j.dbRoot in l.connections && j.connectionNum == l.connections[j.dbRoot]
  {
    if n > 0 {
      var i := n - 1;
      var p := PlanJobs(l, i);
      PlanAccounting(l, i);
      if Selected(l, i) {
        ExtentJobsFacts(l, i);
        TotalBlocksAppend(p.outcome.value, ExtentJobs(l, i));
      }
    }
  }

  /** Extent i adds jobs to the plan exactly when it is selected and has
      LBIDs to scan. */
  lemma {:induction false} ExtentYieldsJobsIffSelected(l: ScanLayout, i: nat)
    requires WellFormed(l) && i < |l.extents|
    requires PlanJobs(l, i + 1).outcome.Ok?
    ensures PlanJobs(l, i).outcome.Ok?
    ensures Selected(l, i) && LbidsToScan(l, i) > 0 <==>
      |PlanJobs(l, i + 1).outcome.value| > |PlanJobs(l, i).outcome.value|
  {
    if Selected(l, i) {
      ExtentJobsFacts(l, i);
    }
  }

  /** With extents sorted by root (as `initExtentMarkers` leaves them), the
      jobs come out grouped by DB root in ascending order. */
  lemma {:induction false} PlanGroupedByRoot(l: ScanLayout, n: nat)
    requires WellFormed(l) && n <= |l.extents|
    requires SortedExtents(l.extents)
    requires PlanJobs(l, n).outcome.Ok?
    ensures forall a, b :: 0 <= a < b < |PlanJobs(l, n).outcome.value| ==>
      PlanJobs(l, n).outcome.value[a].dbRoot <= PlanJobs(l, n).outcome.value[b].dbRoot
    ensures n > 0 ==> forall j :: j in PlanJobs(l, n).outcome.value ==> j.dbRoot <= l.extents[n - 1].dbRoot
  {
    if n > 0 {
      var i := n - 1;
      var before := PlanJobs(l, i).outcome.value;
      PlanGroupedByRoot(l, i);
      var root := l.extents[i].dbRoot;
      assert forall j :: j in before ==> j.dbRoot <= root by {
        if i > 0 {
          assert ExtentLe(l.extents[i - 1], l.extents[i]);
        }
      }
      if Selected(l, i) {
        ExtentJobsFacts(l, i);
        AppendKeepsGrouping(before, ExtentJobs(l, i), root);
      }
    }
  }

  /** Appending jobs of one root to jobs of lower roots keeps them grouped. */
  lemma AppendKeepsGrouping(a: seq<Job>, b: seq<Job>, root: nat)
    requires forall x, y :: 0 <= x < y < |a| ==> a[x].dbRoot <= a[y].dbRoot
    requires forall j :: j in a ==> j.dbRoot <= root
    requires forall j :: j in b ==> j.dbRoot == root
    ensures forall x, y :: 0 <= x < y < |a + b| ==> (a + b)[x].dbRoot <= (a + b)[y].dbRoot
    ensures forall j :: j in a + b ==> j.dbRoot <= root
  {
    var c := a + b;
    forall x, y | 0 <= x < y < |c| ensures c[x].dbRoot <= c[y].dbRoot {
      if y >= |a| {
        assert c[y] == b[y - |a|];
        if x < |a| {
          assert c[x] == a[x];
        } else {
          assert c[x] == b[x - |a|];
        }
      }
    }
  }
}
