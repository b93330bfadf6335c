/** Extent bookkeeping of the batch-primitive step: the sorted list of the
    scanned column's extents, the per-DB-root "last usable extent" markers, the
    relabelling of single-extent segment files whose HWM is 0, and the
    extent-count consistency test across the step's columns. */
module Extents {
  import opened Wrappers

  /** Extent states from the extent map. Their numeric values live in the
      extent-map headers, which are not part of this model; what matters
      below is only that EXTENT_STATUS_MAX + 1 is no valid state. */
  const EXTENT_AVAILABLE: int := 0
  const EXTENT_STATUS_MAX: int := 2

  /** One extent-map entry (`BRM::EMEntry`) of a column. */
  datatype Extent = Extent(
    start: int,         // range.start: the first LBID of the extent
    size: nat,          // range.size: the extent's size in units of 1024 blocks
    dbRoot: nat,        // DB roots are numbered from 1
    partitionNum: nat,
    segmentNum: nat,
    blockOffset: nat,   // offset of the extent's first block in its segment file
    hwm: nat,           // high-water mark: last written block of the segment file
    status: int,
    cpLo: int,          // cached casual-partition range and its validity
    cpHi: int,
    cpValid: bool)

  /** The order `ExtentSorter` puts extents in: by DB root, partition, block
      offset, then segment. */
  predicate ExtentLe(a: Extent, b: Extent)
  {
    a.dbRoot < b.dbRoot ||
    (a.dbRoot == b.dbRoot &&
      (a.partitionNum < b.partitionNum ||
      (a.partitionNum == b.partitionNum &&
        (a.blockOffset < b.blockOffset ||
        (a.blockOffset == b.blockOffset && a.segmentNum <= b.segmentNum)))))
  }

  predicate SortedExtents(s: seq<Extent>)
  {
    forall i, j :: 0 <= i < j < |s| ==> ExtentLe(s[i], s[j])
  }

  /** `x` inserted into the list `s` before its first larger element. */
  function InsertSorted(x: Extent, s: seq<Extent>): (r: seq<Extent>)
    ensures multiset(r) == multiset(s) + multiset{x}
    ensures |r| == |s| + 1
  {
    if s == [] then [x]
    else if ExtentLe(x, s[0]) then [x] + s
    else
      assert s == [s[0]] + s[1..];
      [s[0]] + InsertSorted(x, s[1..])
  }

  /** Inserting into a sorted list keeps it sorted. */
  lemma {:induction false} InsertSortedKeepsOrder(x: Extent, s: seq<Extent>)
    requires SortedExtents(s)
    ensures SortedExtents(InsertSorted(x, s))
  {
    if s != [] && !ExtentLe(x, s[0]) {
      var rest := InsertSorted(x, s[1..]);
      assert SortedExtents(s[1..]) by {
        forall i, j | 0 <= i < j < |s[1..]| ensures ExtentLe(s[1..][i], s[1..][j]) {
          assert s[1..][i] == s[i + 1] && s[1..][j] == s[j + 1];
        }
      }
      InsertSortedKeepsOrder(x, s[1..]);
      forall k | 0 <= k < |rest| ensures ExtentLe(s[0], rest[k]) {
        HeadBelowInserted(x, s, rest[k]);
      }
      SortedCons(s[0], rest);
    }
  }

  /** Every element of the tail with x inserted is at least the head, when
      x is not below the head. */
  lemma HeadBelowInserted(x: Extent, s: seq<Extent>, y: Extent)
    requires SortedExtents(s) && s != [] && !ExtentLe(x, s[0])
    requires y in multiset(InsertSorted(x, s[1..]))
    ensures ExtentLe(s[0], y)
  {
    if y != x {
      assert y in multiset(s[1..]);
      var j :| 0 <= j < |s[1..]| && s[1..][j] == y;
      assert s[1..][j] == s[j + 1];
    }
  }

  /** A sorted list behind an element below all of it is sorted. */
  lemma SortedCons(h: Extent, rest: seq<Extent>)
    requires SortedExtents(rest)
    requires forall k :: 0 <= k < |rest| ==> ExtentLe(h, rest[k])
    ensures SortedExtents([h] + rest)
  {
    var r := [h] + rest;
    forall i, j | 0 <= i < j < |r| ensures ExtentLe(r[i], r[j]) {
      if i == 0 {
        assert r[j] == rest[j - 1];
      } else {
        assert r[i] == rest[i - 1] && r[j] == rest[j - 1];
      }
    }
  }

  /** `sort(scannedExtents.begin(), scannedExtents.end(), ExtentSorter())`:
      a sorted permutation. Extents that compare equal get one fixed order. */
  function SortExtents(s: seq<Extent>): (r: seq<Extent>)
    ensures |r| == |s|
  {
    if s == [] then [] else InsertSorted(s[|s| - 1], SortExtents(s[..|s| - 1]))
  }

  /** The sorted list is ordered by `ExtentSorter` and holds the same
      extents. */
  lemma {:induction false} SortExtentsFacts(s: seq<Extent>)
    ensures SortedExtents(SortExtents(s))
    ensures multiset(SortExtents(s)) == multiset(s)
  {
    if s != [] {
      var front := s[..|s| - 1];
      SortExtentsFacts(front);
      InsertSortedKeepsOrder(s[|s| - 1], SortExtents(front));
      assert multiset(s) == multiset(front) + multiset{s[|s| - 1]} by {
        assert s == front + [s[|s| - 1]];
      }
    }
  }

  /** How many extents of `s` lie in segment file (partition, segment); the
      source counts them in `extentCountPerDbFile`, keyed by the pair. */
  function FileCount(s: seq<Extent>, partition: nat, segment: nat): (n: nat)
    ensures n <= |s|
  {
    if s == [] then 0
    else
      var last := s[|s| - 1];
      FileCount(s[..|s| - 1], partition, segment) +
        (if last.partitionNum == partition && last.segmentNum == segment then 1 else 0)
  }

  /** A file holding at least one extent counts it. */
  lemma {:induction false} FileCountPositive(s: seq<Extent>, k: nat)
    requires k < |s|
    ensures FileCount(s, s[k].partitionNum, s[k].segmentNum) >= 1
  {
    if k < |s| - 1 {
      FileCountPositive(s[..|s| - 1], k);
    }
  }

  /** Whether extent `e`, from a list whose per-file counts are those of
      `all`, is a single-extent segment file with HWM 0 (bug 5322): such a
      file holds one written block, not a full extent. */
  predicate LoneZeroHwm(e: Extent, all: seq<Extent>, extentsPerSegFile: nat)
  {
    extentsPerSegFile > 1 && e.hwm == 0 && FileCount(all, e.partitionNum, e.segmentNum) == 1
  }

  /** The relabelling `initExtentMarkers` applies to one extent. */
  function Relabel(e: Extent, all: seq<Extent>, extentsPerSegFile: nat): (r: Extent)
    ensures r.status == (if LoneZeroHwm(e, all, extentsPerSegFile) then EXTENT_STATUS_MAX + 1 else e.status)
    ensures r.(status := e.status) == e
  {
    if LoneZeroHwm(e, all, extentsPerSegFile) then e.(status := EXTENT_STATUS_MAX + 1) else e
  }

  function RelabelAll(s: seq<Extent>, all: seq<Extent>, extentsPerSegFile: nat): (r: seq<Extent>)
    ensures |r| == |s|
  {
    seq(|s|, i requires 0 <= i < |s| => Relabel(s[i], all, extentsPerSegFile))
  }

  /** Relabelling never makes an extent available, changes no other field,
      and keeps the list sorted. */
  lemma {:induction false} RelabelKeepsOrderAndAvailability(s: seq<Extent>, all: seq<Extent>, epsf: nat)
    requires SortedExtents(s)
    ensures SortedExtents(RelabelAll(s, all, epsf))
    ensures forall i :: 0 <= i < |s| ==>
      (RelabelAll(s, all, epsf)[i].status == EXTENT_AVAILABLE ==> s[i].status == EXTENT_AVAILABLE)
    ensures forall i :: 0 <= i < |s| ==> RelabelAll(s, all, epsf)[i] == s[i].(status := RelabelAll(s, all, epsf)[i].status)
  {
    var r := RelabelAll(s, all, epsf);
    forall i, j | 0 <= i < j < |r| ensures ExtentLe(r[i], r[j]) {
      assert ExtentLe(s[i], s[j]);
    }
  }

  /** Extent `e` is usable on DB root `root`: it lies there and is available. */
  predicate AvailableOn(e: Extent, root: nat)
  {
    e.dbRoot == root && e.status == EXTENT_AVAILABLE
  }

  /** The largest index below `n` of an available extent on DB root `root`,
      or -1 when there is none. */
  function LastAvailableBefore(s: seq<Extent>, root: nat, n: nat): (r: int)
    requires n <= |s|
    ensures -1 <= r < n
    ensures r == -1 <==> forall i :: 0 <= i < n ==> !AvailableOn(s[i], root)
    ensures r >= 0 ==> AvailableOn(s[r], root)
    ensures r >= 0 ==> forall i :: r < i < n ==> !AvailableOn(s[i], root)
  {
    if n == 0 then -1
    else if AvailableOn(s[n - 1], root) then n - 1
    else LastAvailableBefore(s, root, n - 1)
  }

  /** The number of DB roots after `initExtentMarkers` has widened the
      configured count to cover every extent's root. */
  function RootCount(s: seq<Extent>, configured: nat): (r: nat)
    ensures r >= configured
    ensures forall i :: 0 <= i < |s| ==> s[i].dbRoot <= r
    ensures r == configured || exists i :: 0 <= i < |s| && s[i].dbRoot == r
  {
    if s == [] then configured
    else
      var before := RootCount(s[..|s| - 1], configured);
      var last := s[|s| - 1].dbRoot;
      assert forall i :: 0 <= i < |s| - 1 ==> s[i] == s[..|s| - 1][i];
      if last > before then last else before
  }

  /** The per-root markers: `lastExtent[r]` for DB root r + 1. */
  function LastExtentMarkers(s: seq<Extent>, roots: nat): (r: seq<int>)
    ensures |r| == roots
  {
    seq(roots, k requires 0 <= k < roots => LastAvailableBefore(s, k + 1, |s|))
  }

  /** `lastScannedLBID` for one root: the LBID of the HWM block in that root's
      last usable extent, or -1. */
  function LastScannedLbid(s: seq<Extent>, marker: int): (r: int)
    requires -1 <= marker < |s|
  {
    if marker == -1 then -1
    else s[marker].start + (s[marker].hwm - s[marker].blockOffset)
  }

  /** Every column of the step has as many extents as every other, which is
      what `goodExtentCount` tests against the first column. */
  predicate ConsistentCounts(extentsMap: map<int, seq<Extent>>)
  {
    forall a, b :: a in extentsMap && b in extentsMap ==> |extentsMap[a]| == |extentsMap[b]|
  }

  /** Extents are identified by their first LBID. */
  predicate DistinctStarts(s: seq<Extent>)
  {
    forall i, j :: 0 <= i < j < |s| ==> s[i].start != s[j].start
  }

  /** The position of the extent starting at `start`, or -1. */
  function FindStart(s: seq<Extent>, start: int): (r: int)
    ensures -1 <= r < |s|
    ensures r >= 0 ==> s[r].start == start
    ensures r == -1 ==> forall k :: 0 <= k < |s| ==> s[k].start != start
  {
    if s == [] then -1
    else if s[|s| - 1].start == start then |s| - 1
    else
      var r := FindStart(s[..|s| - 1], start);
      assert forall k :: 0 <= k < |s| - 1 ==> s[k] == s[..|s| - 1][k];
      r
  }

  /** `mref[e.range.start] = e` on a hash map keyed by first LBID: replaces
      the entry with that start, or adds one. */
  function Upsert(s: seq<Extent>, e: Extent): seq<Extent>
  {
    var k := FindStart(s, e.start);
    if k >= 0 then s[k := e] else s + [e]
  }

  /** The hash map `reloadExtentLists` builds from a column's extent list:
      one entry per first LBID, the later extent winning. */
  function KeyedByStart(s: seq<Extent>): seq<Extent>
  {
    if s == [] then [] else Upsert(KeyedByStart(s[..|s| - 1]), s[|s| - 1])
  }

  /** The map holds distinct keys, only extents of the list, and an entry for
      every first LBID of the list. */
  lemma {:induction false} KeyedByStartFacts(s: seq<Extent>)
    ensures DistinctStarts(KeyedByStart(s))
    ensures forall e :: e in KeyedByStart(s) ==> e in s
    ensures forall j :: 0 <= j < |s| ==> FindStart(KeyedByStart(s), s[j].start) >= 0
    ensures |KeyedByStart(s)| <= |s|
  {
    if s != [] {
      var front := s[..|s| - 1];
      var x := s[|s| - 1];
      KeyedByStartFacts(front);
      UpsertFacts(KeyedByStart(front), x);
      var r := KeyedByStart(s);
      forall j | 0 <= j < |s| ensures FindStart(r, s[j].start) >= 0 {
        if j < |s| - 1 {
          assert s[j] == front[j];
        }
      }
      forall e | e in r ensures e in s {
        if e != x {
          var i :| 0 <= i < |front| && front[i] == e;
          assert s[i] == e;
        }
      }
    }
  }

  /** Upserting keeps starts distinct, adds at most the new extent, and
      keeps every start found before, plus the new one. */
  lemma UpsertFacts(m: seq<Extent>, x: Extent)
    requires DistinctStarts(m)
    ensures var r := Upsert(m, x);
      DistinctStarts(r) && |r| <= |m| + 1 &&
      (forall e :: e in r ==> e in m || e == x) &&
      FindStart(r, x.start) >= 0 &&
      forall st :: FindStart(m, st) >= 0 ==> FindStart(r, st) >= 0
  {
    var k := FindStart(m, x.start);
    var r := Upsert(m, x);
    assert r[if k >= 0 then k else |m|] == x;
    forall st | FindStart(m, st) >= 0 ensures FindStart(r, st) >= 0 {
      var i := FindStart(m, st);
      assert r[i].start == st;
    }
  }

  /** The later of two extents with the same first LBID is the one kept: an
      extent no later extent shares its start with is in the map. */
  lemma {:induction false} KeyedByStartLastWins(s: seq<Extent>, j: nat)
    requires j < |s|
    requires forall j2 :: j < j2 < |s| ==> s[j2].start != s[j].start
    ensures s[j] in KeyedByStart(s)
  {
    var front := s[..|s| - 1];
    var x := s[|s| - 1];
    if j < |s| - 1 {
      assert s[j] == front[j];
      KeyedByStartLastWins(front, j);
      var m := KeyedByStart(front);
      var i :| 0 <= i < |m| && m[i] == s[j];
      var k := FindStart(m, x.start);
      if k >= 0 {
        assert k != i;
        assert KeyedByStart(s)[i] == s[j];
      } else {
        assert KeyedByStart(s)[i] == s[j];
      }
    } else {
      var m := KeyedByStart(front);
      var k := FindStart(m, x.start);
      assert KeyedByStart(s)[if k >= 0 then k else |m|] == x;
    }
  }

  /** A list whose first LBIDs are distinct is its own map. */
  lemma {:induction false} KeyedByStartOfDistinct(s: seq<Extent>)
    requires DistinctStarts(s)
    ensures KeyedByStart(s) == s
  {
    if s != [] {
      var front := s[..|s| - 1];
      KeyedByStartOfDistinct(front);
      assert FindStart(front, s[|s| - 1].start) == -1;
      assert s == front + [s[|s| - 1]];
    }
  }
  /** Extent `e` holds LBID `lbid`: it lies between the extent's first LBID
      and its last, `size` * 1024 - 1 LBIDs further. */
  predicate HoldsLbid(e: Extent, lbid: int)
  {
    e.start <= lbid <= e.start + e.size * 1024 - 1
  }

  /** The index of the first extent at or after i that holds `lbid`, or -1
      when none does. */
  function FirstHolding(s: seq<Extent>, lbid: int, i: nat): (k: int)
    ensures k == -1 || i <= k < |s|
    ensures k == -1 <==> forall j :: i <= j < |s| ==> !HoldsLbid(s[j], lbid)
    ensures k >= 0 ==> HoldsLbid(s[k], lbid) && forall j :: i <= j < k ==> !HoldsLbid(s[j], lbid)
    decreases |s| - i
  {
    if i >= |s| then -1
    else if HoldsLbid(s[i], lbid) then i
    else FirstHolding(s, lbid, i + 1)
  }

  /** `getFBO(lbid)`: the offset of `lbid` in the first extent holding it,
      plus that extent's index shifted left by `divShift` (a 32-bit shift),
      or a logic_error when no extent holds it. */
  function Fbo(s: seq<Extent>, lbid: int, divShift: nat): (r: Result<int>)
  {
    var k := FirstHolding(s, lbid, 0);
    if k < 0 then Err(LogicError) else Ok(lbid - s[k].start + U32(k * Pow2(divShift)))
  }

  /** The FBO of an LBID of extent k splits back into k and the offset
      inside the extent, when an extent fits in 2^divShift blocks and the
      shifted index fits in 32 bits: dividing by 2^divShift, as `scanit`
      does, finds the extent again. */
  lemma FboSplitsBack(e: Extent, lbid: int, k: nat, divShift: nat)
    requires HoldsLbid(e, lbid)
    requires e.size * 1024 <= Pow2(divShift) && k * Pow2(divShift) < TWO_TO_32
    ensures (lbid - e.start + U32(k * Pow2(divShift))) / Pow2(divShift) == k
    ensures (lbid - e.start + U32(k * Pow2(divShift))) % Pow2(divShift) == lbid - e.start
  {
    var p := Pow2(divShift);
    var off := lbid - e.start;
    assert 0 <= off < p;
    assert U32(k * p) == k * p;
    DivModOfMultiple(k, p, off);
  }

  /** The extent index `scanit` computes for row id `rid`: the block is
      `rid` shifted right by `rpbShift`, the extent that block shifted right
      by `divShift`, kept in the 32-bit `extentIndex`. */
  function ExtentOfRid(rid: nat, rpbShift: nat, divShift: nat): Uint32
  {
    var fbo := rid / Pow2(rpbShift);
    U32(fbo / Pow2(divShift))
  }

  /** Every row id of a block whose FBO `getFBO` returned, `scanit` maps
      back to the extent that holds the LBID, when each extent fits in
      2^divShift blocks and the shifted indexes fit in 32 bits. */
  lemma RidFindsExtent(s: seq<Extent>, lbid: int, divShift: nat, rpbShift: nat, w: nat)
    requires Fbo(s, lbid, divShift).Ok?
    requires forall j :: 0 <= j < |s| ==> s[j].size * 1024 <= Pow2(divShift)
    requires |s| * Pow2(divShift) <= TWO_TO_32
    requires w < Pow2(rpbShift)
    ensures Fbo(s, lbid, divShift).value >= 0
    ensures ExtentOfRid(Fbo(s, lbid, divShift).value * Pow2(rpbShift) + w, rpbShift, divShift) == FirstHolding(s, lbid, 0)
  {
    var k := FirstHolding(s, lbid, 0);
    var p := Pow2(divShift);
    MulMono(k + 1, |s|, p);
    FboSplitsBack(s[k], lbid, k, divShift);
    var fbo := Fbo(s, lbid, divShift).value;
    assert fbo == lbid - s[k].start + U32(k * p);
    DivModOfMultiple(fbo, Pow2(rpbShift), w);
    MulMono(1, p, k + 1);
    assert k < TWO_TO_32;
  }

  lemma MulMono(a: nat, b: nat, p: nat)
    requires a <= b
    ensures a * p <= b * p
  {
  }

  lemma DivModOfMultiple(k: nat, p: nat, off: nat)
    requires off < p
    ensures (k * p + off) / p == k && (k * p + off) % p == off
  {
    var q := (k * p + off) / p;
    var r := (k * p + off) % p;
    assert q * p + r == k * p + off;
    var d := q - k;
    assert d * p == off - r;
    if d >= 1 {
      MulAtLeast(d, p);
      assert false;
    } else if d <= -1 {
      MulAtLeast(-d, p);
      assert false;
    }
  }

  lemma MulAtLeast(a: int, p: nat)
    requires a >= 1
    ensures a * p >= p
  {
  }
}
