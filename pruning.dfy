/** Casual-partition (CP) pruning: the per-extent scan flags that the step's
    column filters, the runtime join feedback and the system-catalog rule
    combine. The range tests themselves belong to `LBIDList` and are
    parameters here. */
module Pruning {
  import opened Wrappers
  import opened Extents

  /** Object ids below this one belong to the system catalog. */
  const FIRST_USER_OID: int := 3000

  /** One command of the primitive step's filter or projection list. Only
      column commands (`ColumnCommandJL`) carry extents; `cpType` is what
      `LBIDList::CasualPartitionDataType` answers for the column's type and
      width. */
  datatype ColumnCommand = ColumnCommand(
    isColumn: bool,
    oid: int,
    cpType: bool,
    fcnOrd: int,
    isDict: bool,
    extents: seq<Extent>)

  /** `CasualPartitionPredicate` for a column's filter, given an extent's
      cached minimum and maximum. */
  type CpPredicate = (ColumnCommand, int, int) -> bool

  /** A column whose cached ranges `storeCasualPartitionInfo` consults: a
      column command that is no function column and has a CP type. */
  predicate IsCpColumn(c: ColumnCommand)
  {
    c.isColumn && c.fcnOrd == 0 && c.cpType
  }

  /** The CP columns among `cmds`, in their order (`cpColVec`). */
  function CpColumns(cmds: seq<ColumnCommand>): seq<ColumnCommand>
  {
    if cmds == [] then []
    else CpColumns(cmds[..|cmds| - 1]) + (if IsCpColumn(cmds[|cmds| - 1]) then [cmds[|cmds| - 1]] else [])
  }

  /** `cpColVec` holds exactly the CP columns of the filter list. */
  lemma {:induction false} CpColumnsMembers(cmds: seq<ColumnCommand>)
    ensures forall c :: c in CpColumns(cmds) <==> c in cmds && IsCpColumn(c)
    ensures |CpColumns(cmds)| <= |cmds|
  {
    if cmds != [] {
      CpColumnsMembers(cmds[..|cmds| - 1]);
      assert cmds == cmds[..|cmds| - 1] + [cmds[|cmds| - 1]];
    }
  }

  /** Column `c` does not rule out extent `e`: CP is ignored, the extent's
      range is not valid, or the filter may match inside the range. */
  predicate ColumnKeeps(c: ColumnCommand, e: Extent, ignoreCP: bool, pred: CpPredicate)
  {
    ignoreCP || !e.cpValid || pred(c, e.cpLo, e.cpHi)
  }

  /** Every CP column has an extent at position `idx`. */
  predicate HasExtent(cols: seq<ColumnCommand>, idx: nat)
  {
    forall i :: 0 <= i < |cols| ==> idx < |cols[i].extents|
  }

  /** Extent `idx` is scanned after `storeCasualPartitionInfo`: no CP column
      rules it out. */
  predicate ExtentPasses(cols: seq<ColumnCommand>, idx: nat, ignoreCP: bool, pred: CpPredicate)
    requires HasExtent(cols, idx)
  {
    forall i :: 0 <= i < |cols| ==> ColumnKeeps(cols[i], cols[i].extents[idx], ignoreCP, pred)
  }

  /** The flags `storeCasualPartitionInfo` leaves for the first `n` extents. */
  function CpFlags(cols: seq<ColumnCommand>, n: nat, ignoreCP: bool, pred: CpPredicate): (r: seq<bool>)
    requires forall idx :: 0 <= idx < n ==> HasExtent(cols, idx)
    ensures |r| == n
  {
    seq(n, idx requires 0 <= idx < n => ExtentPasses(cols, idx, ignoreCP, pred))
  }

  /** The inner loop of `storeCasualPartitionInfo`: AND together, column by
      column, whether each CP column keeps extent `idx`, stopping at the
      first column that rules it out. */
  method ExtentKept(cols: seq<ColumnCommand>, idx: nat, ignoreCP: bool, pred: CpPredicate)
    returns (keep: bool)
    requires HasExtent(cols, idx)
    ensures keep == ExtentPasses(cols, idx, ignoreCP, pred)
  {
    keep := true;
    var i := 0;
    while i < |cols|
      invariant i <= |cols|
      invariant keep <==> forall k :: 0 <= k < i ==> ColumnKeeps(cols[k], cols[k].extents[idx], ignoreCP, pred)
    {
      keep := keep && ColumnKeeps(cols[i], cols[i].extents[idx], ignoreCP, pred);
      if !keep {
        return;
      }
      i := i + 1;
    }
  }

  /** The loop that builds `cpColVec`. */
  method CollectCpColumns(cmds: seq<ColumnCommand>) returns (cols: seq<ColumnCommand>)
    ensures cols == CpColumns(cmds)
  {
    cols := [];
    var i := 0;
    while i < |cmds|
      invariant i <= |cmds|
      invariant cols == CpColumns(cmds[..i])
    {
      assert cmds[..i + 1][..i] == cmds[..i];
      if IsCpColumn(cmds[i]) {
        cols := cols + [cmds[i]];
      }
      i := i + 1;
    }
    assert cmds[..|cmds|] == cmds;
  }

  /** With CP ignored, every extent is scanned. */
  lemma IgnoredCpKeepsAll(cols: seq<ColumnCommand>, n: nat, pred: CpPredicate)
    requires forall idx :: 0 <= idx < n ==> HasExtent(cols, idx)
    ensures forall idx :: 0 <= idx < n ==> CpFlags(cols, n, true, pred)[idx]
  {
  }

  /** An extent is dropped exactly when some CP column has a valid range for
      it that its filter rules out. */
  lemma CpFlagFalseIff(cols: seq<ColumnCommand>, n: nat, ignoreCP: bool, pred: CpPredicate, idx: nat)
    requires forall k :: 0 <= k < n ==> HasExtent(cols, k)
    requires idx < n && HasExtent(cols, idx)
    ensures !CpFlags(cols, n, ignoreCP, pred)[idx] <==>
      !ignoreCP && (exists i :: 0 <= i < |cols| && cols[i].extents[idx].cpValid &&
                      !pred(cols[i], cols[i].extents[idx].cpLo, cols[i].extents[idx].cpHi))
  {
  }

  /** Each further CP column can only drop more extents. */
  lemma MoreColumnsPruneMore(cols: seq<ColumnCommand>, extra: seq<ColumnCommand>, idx: nat, ignoreCP: bool, pred: CpPredicate)
    requires HasExtent(cols + extra, idx)
    ensures HasExtent(cols, idx)
    ensures ExtentPasses(cols + extra, idx, ignoreCP, pred) ==> ExtentPasses(cols, idx, ignoreCP, pred)
  {
    forall i | 0 <= i < |cols| ensures idx < |cols[i].extents| && (cols + extra)[i] == cols[i] {
      assert (cols + extra)[i] == cols[i];
    }
  }

  /** The scan flags after `storeCasualPartitionInfo` on `flags`, one per
      extent: a second call, or a filter list without CP columns, leaves
      them as they are; otherwise each flag is overwritten by whether the
      CP columns keep its extent. */
  function StoredFlags(flags: seq<bool>, evaluated: bool, filters: seq<ColumnCommand>,
                       ignoreCP: bool, pred: CpPredicate): (r: seq<bool>)
    requires !evaluated ==> forall idx :: 0 <= idx < |flags| ==> HasExtent(CpColumns(filters), idx)
    ensures |r| == |flags|
  {
    if evaluated || CpColumns(filters) == [] then flags
    else CpFlags(CpColumns(filters), |flags|, ignoreCP, pred)
  }

  /** Once evaluated, the flags no longer change; before, with some CP
      column, flag idx says whether extent idx passes every CP column's
      filter, whatever the flag was before. */
  lemma StoredFlagsFacts(flags: seq<bool>, filters: seq<ColumnCommand>, ignoreCP: bool, pred: CpPredicate)
    requires forall idx :: 0 <= idx < |flags| ==> HasExtent(CpColumns(filters), idx)
    ensures StoredFlags(StoredFlags(flags, false, filters, ignoreCP, pred), true, filters, ignoreCP, pred) ==
            StoredFlags(flags, false, filters, ignoreCP, pred)
    ensures CpColumns(filters) != [] ==> forall idx :: 0 <= idx < |flags| ==>
      (StoredFlags(flags, false, filters, ignoreCP, pred)[idx] <==> ExtentPasses(CpColumns(filters), idx, ignoreCP, pred))
    ensures CpColumns(filters) == [] ==> StoredFlags(flags, false, filters, ignoreCP, pred) == flags
  {
  }

  /** The index of the first column command of `cmds` on column `oid`, or
      -1 when there is none. */
  function FirstColumn(cmds: seq<ColumnCommand>, oid: int): (k: int)
    ensures k == -1 || 0 <= k < |cmds|
    ensures k == -1 <==> forall j :: 0 <= j < |cmds| ==> !(cmds[j].isColumn && cmds[j].oid == oid)
    ensures k >= 0 ==> (cmds[k].isColumn && cmds[k].oid == oid &&
                        forall j :: 0 <= j < k ==> !(cmds[j].isColumn && cmds[j].oid == oid))
  {
    if cmds == [] then -1
    else if cmds[0].isColumn && cmds[0].oid == oid then 0
    else
      var k := FirstColumn(cmds[1..], oid);
      if k < 0 then -1 else k + 1
  }

  /** The search loop of `addCPPredicates` over the filter then projection
      commands. */
  method FindColumn(cmds: seq<ColumnCommand>, oid: int) returns (k: int)
    ensures k == FirstColumn(cmds, oid)
  {
    var i := 0;
    while i < |cmds|
      invariant i <= |cmds|
      invariant forall j :: 0 <= j < i ==> !(cmds[j].isColumn && cmds[j].oid == oid)
    {
      if cmds[i].isColumn && cmds[i].oid == oid {
        return i;
      }
      i := i + 1;
    }
    k := -1;
  }

  /** The command found is one whose cached ranges `addCPPredicates` uses:
      a column with a CP type, no function column, no dictionary. */
  predicate RuntimeCpColumn(c: ColumnCommand)
  {
    c.cpType && c.fcnOrd == 0 && !c.isDict
  }

  /** The flag `prepCasualPartitioning` leaves for one extent: user columns
      AND in the runtime flag, system-catalog columns are always scanned. */
  function PrepFlag(scanFlag: bool, runtimeFlag: bool, oid: int): bool
  {
    if oid >= FIRST_USER_OID then scanFlag && runtimeFlag else true
  }

  /** For user columns `prepCasualPartitioning` never turns a flag on; for
      system-catalog columns it turns every flag on. */
  lemma PrepFlagFacts(scanFlag: bool, runtimeFlag: bool, oid: int)
    ensures oid >= FIRST_USER_OID ==> (PrepFlag(scanFlag, runtimeFlag, oid) <==> scanFlag && runtimeFlag)
    ensures oid < FIRST_USER_OID ==> PrepFlag(scanFlag, runtimeFlag, oid)
    ensures oid >= FIRST_USER_OID && PrepFlag(scanFlag, runtimeFlag, oid) ==> scanFlag
  {
  }

  /** What `LBIDList::GetMinMax` reports for an extent: whether its cached
      range is valid, and the range. */
  datatype MinMax = MinMax(valid: bool, lo: int, hi: int)

  /** `checkRangeOverlap(min, max, lo, hi)` and `checkSingleValue(min, max,
      v)` for the column's type. */
  type RangeOverlap = (int, int, int, int) -> bool
  type SingleValue = (int, int, int) -> bool

  /** Some value of `vals` may lie in [lo, hi]. */
  predicate AnyValueInRange(vals: seq<int>, lo: int, hi: int, single: SingleValue)
  {
    exists k :: 0 <= k < |vals| && single(lo, hi, vals[k])
  }

  /** The loop over `vals` in `addCPPredicates`: OR of the single-value tests. */
  method Intersects(vals: seq<int>, lo: int, hi: int, single: SingleValue) returns (intersection: bool)
    ensures intersection == AnyValueInRange(vals, lo, hi, single)
  {
    intersection := false;
    var k := 0;
    while k < |vals|
      invariant k <= |vals|
      invariant intersection <==> exists k2 :: 0 <= k2 < k && single(lo, hi, vals[k2])
    {
      intersection := intersection || single(lo, hi, vals[k]);
      k := k + 1;
    }
  }

  /** The runtime flag `addCPPredicates` leaves for one extent with range
      `mm`: an invalid range keeps the flag, a valid one ANDs in the range or
      value test. */
  function RuntimeFlag(flag: bool, mm: MinMax, vals: seq<int>, isRange: bool,
                       overlap: RangeOverlap, single: SingleValue): bool
    requires isRange ==> |vals| >= 2
  {
    if !mm.valid then flag
    else if isRange then overlap(mm.lo, mm.hi, vals[0], vals[1]) && flag
    else AnyValueInRange(vals, mm.lo, mm.hi, single) && flag
  }

  /** `addCPPredicates` only ANDs into a flag: it never turns one on, and it
      turns one off only for a valid range that fails the test. */
  lemma RuntimeFlagOnlyClears(flag: bool, mm: MinMax, vals: seq<int>, isRange: bool,
                              overlap: RangeOverlap, single: SingleValue)
    requires isRange ==> |vals| >= 2
    ensures RuntimeFlag(flag, mm, vals, isRange, overlap, single) ==> flag
    ensures flag && !RuntimeFlag(flag, mm, vals, isRange, overlap, single) ==>
      mm.valid && (if isRange then !overlap(mm.lo, mm.hi, vals[0], vals[1])
                   else forall k :: 0 <= k < |vals| ==> !single(mm.lo, mm.hi, vals[k]))
  {
  }

  /** The runtime flags after `addCPPredicates` has walked `extents`, the
      j-th extent updating the j-th flag. */
  function RuntimeFlags(flags: seq<bool>, extents: seq<Extent>, minMax: int -> MinMax,
                        vals: seq<int>, isRange: bool, overlap: RangeOverlap, single: SingleValue): (r: seq<bool>)
    requires |extents| <= |flags|
    requires isRange ==> |vals| >= 2
    ensures |r| == |flags|
  {
    seq(|flags|, j requires 0 <= j < |flags| =>
      if j < |extents| then RuntimeFlag(flags[j], minMax(extents[j].start), vals, isRange, overlap, single)
      else flags[j])
  }

  /** `addCPPredicates` acts: CP is not ignored, the step's column is a
      user column, and the first command on column `colOid` is one whose
      cached ranges are used. */
  predicate AddCpApplies(cmds: seq<ColumnCommand>, colOid: int, ignoreCP: bool, stepOid: int)
  {
    !ignoreCP && stepOid >= FIRST_USER_OID && FirstColumn(cmds, colOid) >= 0 &&
    RuntimeCpColumn(cmds[FirstColumn(cmds, colOid)])
  }

  /** The loop of `addCPPredicates` over the column's extents, the j-th
      extent updating the j-th runtime flag. */
  method UpdateRuntimeFlags(flags: seq<bool>, extents: seq<Extent>, minMax: int -> MinMax,
                            vals: seq<int>, isRange: bool, overlap: RangeOverlap, single: SingleValue)
    returns (r: seq<bool>)
    requires |extents| <= |flags|
    requires isRange ==> |vals| >= 2
    ensures r == RuntimeFlags(flags, extents, minMax, vals, isRange, overlap, single)
  {
    r := flags;
    var j := 0;
    while j < |extents|
      invariant j <= |extents| && |r| == |flags|
      invariant forall i :: 0 <= i < |flags| ==>
        r[i] == (if i < j then RuntimeFlag(flags[i], minMax(extents[i].start), vals, isRange, overlap, single) else flags[i])
    {
      var mm := minMax(extents[j].start);
      if mm.valid {
        if isRange {
          r := r[j := overlap(mm.lo, mm.hi, vals[0], vals[1]) && r[j]];
        } else {
          var intersection := Intersects(vals, mm.lo, mm.hi, single);
          r := r[j := intersection && r[j]];
        }
      }
      j := j + 1;
    }
  }

  /** Across all the flags, `addCPPredicates` never turns one on, and leaves
      the flags past the column's extents alone. */
  lemma RuntimeFlagsOnlyClear(flags: seq<bool>, extents: seq<Extent>, minMax: int -> MinMax,
                              vals: seq<int>, isRange: bool, overlap: RangeOverlap, single: SingleValue)
    requires |extents| <= |flags|
    requires isRange ==> |vals| >= 2
    ensures forall j :: 0 <= j < |flags| && RuntimeFlags(flags, extents, minMax, vals, isRange, overlap, single)[j] ==> flags[j]
    ensures forall j :: |extents| <= j < |flags| ==> RuntimeFlags(flags, extents, minMax, vals, isRange, overlap, single)[j] == flags[j]
  {
    forall j | 0 <= j < |extents|
      ensures RuntimeFlags(flags, extents, minMax, vals, isRange, overlap, single)[j] ==> flags[j]
    {
      RuntimeFlagOnlyClears(flags[j], minMax(extents[j].start), vals, isRange, overlap, single);
    }
  }

  /** As written, when the column's extents are not in the step's map the
      list walked is the catalog's list as the second lookup returned it:
      `extents` is re-fetched over the sorted copy. Flag j then takes the
      test of the catalog's j-th extent, not of the j-th extent in
      `ExtentSorter` order, whereas flag j belongs to the j-th sorted extent
      everywhere else in the step. */
  function AddCpListAsWritten(catalogList: seq<Extent>, inMap: bool): seq<Extent>
  {
    if inMap then SortExtents(catalogList) else catalogList
  }

  /** The list the flags are evidently meant to follow: the sorted one. */
  function AddCpList(catalogList: seq<Extent>): (r: seq<Extent>)
    ensures SortedExtents(r) && multiset(r) == multiset(catalogList)
  {
    SortExtentsFacts(catalogList);
    SortExtents(catalogList)
  }

  /** Either way the list walked holds the catalog's extents, and with the
      column already in the map it is the sorted list the flags follow. */
  lemma AddCpListAsWrittenFacts(catalogList: seq<Extent>, inMap: bool)
    ensures |AddCpListAsWritten(catalogList, inMap)| == |catalogList|
    ensures multiset(AddCpListAsWritten(catalogList, inMap)) == multiset(catalogList)
    ensures inMap ==> AddCpListAsWritten(catalogList, inMap) == AddCpList(catalogList)
  {
    SortExtentsFacts(catalogList);
  }

  /** Two extents on different DB roots, listed by the catalog in reverse
      sorted order, whose cached ranges respectively fail and pass a range
      test. */
  function WitnessExtent(root: nat, lo: int): Extent
  {
    Extent(root * 1000, 8, root, 0, 0, 0, 10, EXTENT_AVAILABLE, lo, lo + 10, true)
  }

  /** The cached ranges of the two witness extents, and a plain interval
      test standing for the type-specific ones. */
  function WitnessMinMax(start: int): MinMax
  {
    if start == 1000 then MinMax(true, 0, 10) else MinMax(true, 100, 110)
  }

  function WitnessOverlap(lo: int, hi: int, vlo: int, vhi: int): bool
  {
    lo <= vhi && vlo <= hi
  }

  function WitnessSingle(lo: int, hi: int, v: int): bool
  {
    lo <= v <= hi
  }

  /** Sorting puts the root-1 extent first. */
  lemma WitnessSorted()
    ensures AddCpList([WitnessExtent(2, 100), WitnessExtent(1, 0)]) == [WitnessExtent(1, 0), WitnessExtent(2, 100)]
  {
    var a := WitnessExtent(1, 0);
    var b := WitnessExtent(2, 100);
    assert ExtentLe(a, b) && !ExtentLe(b, a);
    assert [b, a][..1] == [b];
    assert SortExtents([b]) == [b];
    assert SortExtents([b, a]) == InsertSorted(a, [b]) == [a, b];
  }

  /** The discrepancy: for a column missing from the map, the as-written
      list clears the flag of the wrong extent. Extent B (root 2, range
      [100, 110]) comes before extent A (root 1, range [0, 10]) in the
      catalog's list; the predicate range is [0, 50], so A overlaps and B
      does not. Sorted, A is extent 0 and B extent 1, so flag 1 should go
      false; as written flag 0 does. */
  lemma AddCpAsWrittenMisplacesFlag()
    ensures RuntimeFlags([true, true], AddCpListAsWritten([WitnessExtent(2, 100), WitnessExtent(1, 0)], false),
              WitnessMinMax, [0, 50], true, WitnessOverlap, WitnessSingle) == [false, true]
    ensures RuntimeFlags([true, true], AddCpList([WitnessExtent(2, 100), WitnessExtent(1, 0)]),
              WitnessMinMax, [0, 50], true, WitnessOverlap, WitnessSingle) == [true, false]
  {
    var a := WitnessExtent(1, 0);
    var b := WitnessExtent(2, 100);
    WitnessSorted();
    var vals := [0, 50];
    assert a.start == 1000 && b.start == 2000;
    var fa := RuntimeFlag(true, WitnessMinMax(a.start), vals, true, WitnessOverlap, WitnessSingle);
    var fb := RuntimeFlag(true, WitnessMinMax(b.start), vals, true, WitnessOverlap, WitnessSingle);
    assert fa by {
      assert WitnessMinMax(a.start) == MinMax(true, 0, 10);
      assert WitnessOverlap(0, 10, vals[0], vals[1]);
    }
    assert !fb by {
      assert WitnessMinMax(b.start) == MinMax(true, 100, 110);
      assert !WitnessOverlap(100, 110, vals[0], vals[1]);
    }
    var w := RuntimeFlags([true, true], [b, a], WitnessMinMax, vals, true, WitnessOverlap, WitnessSingle);
    assert w[0] == fb && w[1] == fa;
    var c := RuntimeFlags([true, true], [a, b], WitnessMinMax, vals, true, WitnessOverlap, WitnessSingle);
    assert c[0] == fa && c[1] == fb;
  }
}
