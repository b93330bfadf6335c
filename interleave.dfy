/** `interleaveJobs`: the jobs, grouped by DB root, are bucketed by
    connection and then emitted round-robin over the connections, so that
    consecutive messages go to different PMs. */
module Interleave {
  import opened Jobs

  /** The jobs of `jobs` bound for connection `c`, in their order. */
  function Bin(jobs: seq<Job>, c: nat): seq<Job>
  {
    if jobs == [] then []
    else
      var last := jobs[|jobs| - 1];
      Bin(jobs[..|jobs| - 1], c) + (if last.connectionNum == c then [last] else [])
  }

  /** A bin holds jobs of the list, all for its connection. */
  lemma {:induction false} BinMembers(jobs: seq<Job>, c: nat)
    ensures forall j :: j in Bin(jobs, c) ==> j in jobs && j.connectionNum == c
  {
    if jobs != [] {
      BinMembers(jobs[..|jobs| - 1], c);
    }
  }

  lemma {:induction false} BinAppend(a: seq<Job>, b: seq<Job>, c: nat)
    ensures Bin(a + b, c) == Bin(a, c) + Bin(b, c)
    decreases |b|
  {
    if b == [] {
      assert a + b == a;
    } else {
      assert (a + b)[..|a + b| - 1] == a + b[..|b| - 1];
      BinAppend(a, b[..|b| - 1], c);
    }
  }

  /** A list whose jobs all go to connection `c` is its own bin. */
  lemma {:induction false} BinOfUniform(s: seq<Job>, c: nat)
    requires forall j :: j in s ==> j.connectionNum == c
    ensures Bin(s, c) == s
  {
    if s != [] {
      BinOfUniform(s[..|s| - 1], c);
      assert s == s[..|s| - 1] + [s[|s| - 1]];
    }
  }

  /** A list with no job for connection `c` has an empty bin. */
  lemma {:induction false} BinOfOther(s: seq<Job>, c: nat)
    requires forall j :: j in s ==> j.connectionNum != c
    ensures Bin(s, c) == []
  {
    if s != [] {
      BinOfOther(s[..|s| - 1], c);
    }
  }

  /** The "real" PM count: one more than the largest connection number. */
  function PmCount(jobs: seq<Job>): (r: nat)
    ensures forall j :: j in jobs ==> j.connectionNum < r
    ensures jobs == [] ==> r == 0
  {
    if jobs == [] then 0
    else
      var before := PmCount(jobs[..|jobs| - 1]);
      var last := jobs[|jobs| - 1];
      assert forall j :: j in jobs ==> j in jobs[..|jobs| - 1] || j == last;
      if before < last.connectionNum + 1 then last.connectionNum + 1 else before
  }

  /** The first job of each non-empty bin, in connection order. */
  function Heads(bins: seq<seq<Job>>): seq<Job>
  {
    if bins == [] then []
    else
      var last := bins[|bins| - 1];
      Heads(bins[..|bins| - 1]) + (if last == [] then [] else [last[0]])
  }

  /** Every bin with its first job removed. */
  function Tails(bins: seq<seq<Job>>): seq<seq<Job>>
  {
    seq(|bins|, c requires 0 <= c < |bins| => if bins[c] == [] then [] else bins[c][1..])
  }

  /** The number of jobs held by all bins. */
  function BinsSize(bins: seq<seq<Job>>): nat
  {
    if bins == [] then 0 else BinsSize(bins[..|bins| - 1]) + |bins[|bins| - 1]|
  }

  /** Taking one round removes exactly the jobs it emits, and a round of
      bins that still hold jobs emits at least one. */
  lemma {:induction false} RoundShrinks(bins: seq<seq<Job>>)
    ensures BinsSize(Tails(bins)) + |Heads(bins)| == BinsSize(bins)
    ensures BinsSize(bins) > 0 ==> |Heads(bins)| > 0
  {
    if bins != [] {
      var front := bins[..|bins| - 1];
      RoundShrinks(front);
      assert Tails(bins)[..|bins| - 1] == Tails(front);
    }
  }

  /** Rounds of heads until every bin is empty. */
  function RoundRobin(bins: seq<seq<Job>>): seq<Job>
    decreases BinsSize(bins)
  {
    if BinsSize(bins) == 0 then []
    else
      RoundShrinks(bins);
      Heads(bins) + RoundRobin(Tails(bins))
  }

  /** One round of a non-empty set of bins, then the rest. */
  lemma RoundRobinUnfold(bins: seq<seq<Job>>)
    requires BinsSize(bins) > 0
    ensures RoundRobin(bins) == Heads(bins) + RoundRobin(Tails(bins))
    ensures BinsSize(Tails(bins)) + |Heads(bins)| == BinsSize(bins) && |Heads(bins)| > 0
  {
    RoundShrinks(bins);
  }

  /** The bins of `jobs`, one per connection below the PM count. */
  function BinsOf(jobs: seq<Job>): seq<seq<Job>>
  {
    seq(PmCount(jobs), c requires 0 <= c < PmCount(jobs) => Bin(jobs, c))
  }

  /** What `interleaveJobs` leaves in `*jobs`. */
  function Interleaved(jobs: seq<Job>): seq<Job>
  {
    RoundRobin(BinsOf(jobs))
  }

  /** `interleaveJobs(&jobs)`: compute the PM count, bucket by connection,
      then take one job from every non-empty bucket per round. The early
      return on a single PM sits before the count is computed and never
      fires, so it is not part of the method. */
  method InterleaveJobs(jobs: seq<Job>) returns (newJobs: seq<Job>)
    ensures newJobs == Interleaved(jobs)
  {
    var pmCount := CountPms(jobs);
    var bins := Bucket(jobs, pmCount);
    BinsOfSize(jobs);

    ghost var initial := bins;
    newJobs := [];
    while |newJobs| < |jobs|
      invariant newJobs + RoundRobin(bins) == RoundRobin(initial)
      invariant |newJobs| + BinsSize(bins) == |jobs|
      decreases |jobs| - |newJobs|
    {
      var round, noWorkDone;
      ghost var roundStart := bins;
      round, bins, noWorkDone := EmitRound(bins);
      RoundRobinUnfold(roundStart);
      // the `idbassert(!noWorkDone)` of the source holds
      assert !noWorkDone;
      assert newJobs + round + RoundRobin(bins) == newJobs + RoundRobin(roundStart);
      newJobs := newJobs + round;
    }
  }

  /** The first loop of `interleaveJobs`: the PM count is one more than the
      largest connection number in use. */
  method CountPms(jobs: seq<Job>) returns (pmCount: nat)
    ensures pmCount == PmCount(jobs)
  {
    pmCount := 0;
    var i := 0;
    while i < |jobs|
      invariant i <= |jobs|
      invariant pmCount == PmCount(jobs[..i])
    {
      assert jobs[..i + 1][..i] == jobs[..i];
      if pmCount < jobs[i].connectionNum + 1 {
        pmCount := jobs[i].connectionNum + 1;
      }
      i := i + 1;
    }
    assert jobs[..|jobs|] == jobs;
  }

  /** The second loop of `interleaveJobs`: every job is appended to the bin
      of its connection. */
  method Bucket(jobs: seq<Job>, pmCount: nat) returns (bins: seq<seq<Job>>)
    requires pmCount == PmCount(jobs)
    ensures bins == BinsOf(jobs)
  {
    bins := seq(pmCount, _ => []);
    var i := 0;
    while i < |jobs|
      invariant i <= |jobs| && |bins| == pmCount
      invariant forall c :: 0 <= c < pmCount ==> bins[c] == Bin(jobs[..i], c)
    {
      assert jobs[..i + 1][..i] == jobs[..i];
      assert jobs[i] in jobs;
      var conn := jobs[i].connectionNum;
      bins := bins[conn := bins[conn] + [jobs[i]]];
      i := i + 1;
    }
    assert jobs[..|jobs|] == jobs;
  }

  /** One pass of the inner `for` loop of `interleaveJobs`: the front job of
      every non-empty bin, in connection order, is moved out. */
  method EmitRound(bins: seq<seq<Job>>) returns (round: seq<Job>, rest: seq<seq<Job>>, noWorkDone: bool)
    ensures round == Heads(bins) && rest == Tails(bins)
    ensures noWorkDone <==> round == []
  {
    round := [];
    rest := bins;
    noWorkDone := true;
    var i := 0;
    while i < |bins|
      invariant i <= |bins|
      invariant rest == Tails(bins[..i]) + bins[i..]
      invariant round == Heads(bins[..i])
      invariant noWorkDone <==> round == []
    {
      RoundStep(bins, i);
      assert rest[i] == bins[i];
      if rest[i] != [] {
        round := round + [rest[i][0]];
        rest := rest[i := rest[i][1..]];
        noWorkDone := false;
      }
      i := i + 1;
    }
    assert bins[..|bins|] == bins;
  }

  /** One step of the inner loop: bin i's head, if any, joins the round and
      bin i loses it. */
  lemma RoundStep(bins: seq<seq<Job>>, i: nat)
    requires i < |bins|
    ensures bins[i] == [] ==> Heads(bins[..i + 1]) == Heads(bins[..i])
    ensures bins[i] != [] ==> Heads(bins[..i + 1]) == Heads(bins[..i]) + [bins[i][0]]
    ensures bins[i] == [] ==> Tails(bins[..i + 1]) + bins[i + 1..] == Tails(bins[..i]) + bins[i..]
    ensures bins[i] != [] ==> Tails(bins[..i + 1]) + bins[i + 1..] == (Tails(bins[..i]) + bins[i..])[i := bins[i][1..]]
  {
    assert bins[..i + 1][..i] == bins[..i];
    var lhs := Tails(bins[..i + 1]) + bins[i + 1..];
    var mid := Tails(bins[..i]) + bins[i..];
    var rhs := mid[i := if bins[i] == [] then [] else bins[i][1..]];
    assert |lhs| == |rhs|;
    forall k | 0 <= k < |lhs| ensures lhs[k] == rhs[k] {
      if k < i {
        assert lhs[k] == Tails(bins[..i + 1])[k];
      } else if k > i {
        assert lhs[k] == bins[k];
      }
    }
    if bins[i] == [] {
      assert rhs == mid;
    }
  }

  /** The jobs in all bins, as a multiset. */
  function BinsMultiset(bins: seq<seq<Job>>): multiset<Job>
  {
    if bins == [] then multiset{} else BinsMultiset(bins[..|bins| - 1]) + multiset(bins[|bins| - 1])
  }

  lemma {:induction false} BinsMultisetSize(bins: seq<seq<Job>>)
    ensures |BinsMultiset(bins)| == BinsSize(bins)
  {
    if bins != [] {
      BinsMultisetSize(bins[..|bins| - 1]);
    }
  }

  lemma Regroup(a: multiset<Job>, b: multiset<Job>, c: multiset<Job>, d: multiset<Job>)
    ensures (a + b) + (c + d) == (a + c) + (b + d)
  {
  }

  /** One round moves its heads out of the bins and nothing else. */
  lemma {:induction false} RoundMultiset(bins: seq<seq<Job>>)
    ensures multiset(Heads(bins)) + BinsMultiset(Tails(bins)) == BinsMultiset(bins)
  {
    if bins != [] {
      var front := bins[..|bins| - 1];
      RoundMultiset(front);
      RoundOfLastBin(bins);
    }
  }

  /** The last bin gives its head to the round and keeps its tail. */
  lemma RoundOfLastBin(bins: seq<seq<Job>>)
    requires bins != []
    ensures var front := bins[..|bins| - 1];
      multiset(Heads(bins)) + BinsMultiset(Tails(bins)) ==
      (multiset(Heads(front)) + BinsMultiset(Tails(front))) + multiset(bins[|bins| - 1])
  {
    var front := bins[..|bins| - 1];
    var last := bins[|bins| - 1];
    var head := if last == [] then [] else [last[0]];
    var tail := if last == [] then [] else last[1..];
    var t := Tails(bins);
    assert BinsMultiset(t) == BinsMultiset(Tails(front)) + multiset(tail) by {
      assert t[..|t| - 1] == Tails(front);
      assert t[|t| - 1] == tail;
    }
    assert multiset(Heads(bins)) == multiset(Heads(front)) + multiset(head) by {
      assert Heads(bins) == Heads(front) + head;
    }
    assert multiset(last) == multiset(head) + multiset(tail) by {
      assert last == head + tail;
    }
    Regroup(multiset(Heads(front)), multiset(head), BinsMultiset(Tails(front)), multiset(tail));
  }

  lemma {:induction false} RoundRobinMultiset(bins: seq<seq<Job>>)
    ensures multiset(RoundRobin(bins)) == BinsMultiset(bins)
    decreases BinsSize(bins)
  {
    BinsMultisetSize(bins);
    if BinsSize(bins) > 0 {
      RoundShrinks(bins);
      RoundRobinMultiset(Tails(bins));
      RoundMultiset(bins);
    }
  }

  /** Adding a job to bin k adds it to the multiset of all bins. */
  lemma {:induction false} BinsMultisetAdd(bins: seq<seq<Job>>, k: nat, x: Job)
    requires k < |bins|
    ensures BinsMultiset(bins[k := bins[k] + [x]]) == BinsMultiset(bins) + multiset{x}
  {
    var b2 := bins[k := bins[k] + [x]];
    if k < |bins| - 1 {
      assert b2[..|b2| - 1] == bins[..|bins| - 1][k := bins[k] + [x]];
      BinsMultisetAdd(bins[..|bins| - 1], k, x);
    } else {
      assert b2[..|b2| - 1] == bins[..|bins| - 1];
    }
  }

  /** The bins of a prefix of `jobs`, over `count` connections. */
  function BinsOfPrefix(jobs: seq<Job>, count: nat): (r: seq<seq<Job>>)
    ensures |r| == count
    ensures forall c :: 0 <= c < count ==> r[c] == Bin(jobs, c)
  {
    seq(count, c requires 0 <= c < count => Bin(jobs, c))
  }

  /** Bucketing by connection loses and invents no job. */
  lemma {:induction false} BinsPartition(jobs: seq<Job>, count: nat)
    requires forall j :: j in jobs ==> j.connectionNum < count
    ensures BinsMultiset(BinsOfPrefix(jobs, count)) == multiset(jobs)
  {
    if jobs == [] {
      EmptyBins(count);
    } else {
      var front := jobs[..|jobs| - 1];
      var x := jobs[|jobs| - 1];
      assert jobs == front + [x];
      assert forall j :: j in front ==> j in jobs;
      BinsPartition(front, count);
      var updated := BinsOfPrefix(front, count)[x.connectionNum := BinsOfPrefix(front, count)[x.connectionNum] + [x]];
      forall c | 0 <= c < count ensures BinsOfPrefix(jobs, count)[c] == updated[c] {
        assert jobs[..|jobs| - 1] == front;
      }
      assert BinsOfPrefix(jobs, count) == updated;
      BinsMultisetAdd(BinsOfPrefix(front, count), x.connectionNum, x);
    }
  }

  lemma {:induction false} EmptyBins(count: nat)
    ensures BinsMultiset(BinsOfPrefix([], count)) == multiset{}
  {
    if count > 0 {
      assert BinsOfPrefix([], count)[..count - 1] == BinsOfPrefix([], count - 1);
      EmptyBins(count - 1);
    }
  }

  lemma BinsOfSize(jobs: seq<Job>)
    ensures BinsSize(BinsOf(jobs)) == |jobs|
  {
    BinsPartition(jobs, PmCount(jobs));
    assert BinsOf(jobs) == BinsOfPrefix(jobs, PmCount(jobs));
    BinsMultisetSize(BinsOf(jobs));
  }

  /** `interleaveJobs` returns a permutation of its input. */
  lemma InterleavedIsPermutation(jobs: seq<Job>)
    ensures multiset(Interleaved(jobs)) == multiset(jobs)
    ensures |Interleaved(jobs)| == |jobs|
  {
    RoundRobinMultiset(BinsOf(jobs));
    BinsPartition(jobs, PmCount(jobs));
    assert BinsOf(jobs) == BinsOfPrefix(jobs, PmCount(jobs));
    assert |multiset(Interleaved(jobs))| == |multiset(jobs)|;
  }

  /** Bin c holds only jobs for connection c. */
  predicate BinsWellFormed(bins: seq<seq<Job>>)
  {
    forall c, j :: 0 <= c < |bins| && j in bins[c] ==> j.connectionNum == c
  }

  /** A round holds, for connection c, the first job of bin c if any. */
  lemma {:induction false} BinOfHeads(bins: seq<seq<Job>>, c: nat)
    requires BinsWellFormed(bins)
    ensures Bin(Heads(bins), c) == if c < |bins| && bins[c] != [] then [bins[c][0]] else []
  {
    if bins != [] {
      FrontWellFormed(bins);
      BinOfHeads(bins[..|bins| - 1], c);
      BinOfHeadsStep(bins, c);
    }
  }

  lemma FrontWellFormed(bins: seq<seq<Job>>)
    requires BinsWellFormed(bins) && bins != []
    ensures BinsWellFormed(bins[..|bins| - 1])
  {
    var front := bins[..|bins| - 1];
    forall k, j: Job | 0 <= k < |front| && j in front[k] ensures j.connectionNum == k {
      assert front[k] == bins[k];
    }
  }

  /** The last bin's head, if any, is the round's last job. */
  lemma BinOfHeadsStep(bins: seq<seq<Job>>, c: nat)
    requires BinsWellFormed(bins) && bins != []
    requires var front := bins[..|bins| - 1];
      Bin(Heads(front), c) == if c < |front| && front[c] != [] then [front[c][0]] else []
    ensures Bin(Heads(bins), c) == if c < |bins| && bins[c] != [] then [bins[c][0]] else []
  {
    var front := bins[..|bins| - 1];
    var last := bins[|bins| - 1];
    var tailPart := if last == [] then [] else [last[0]];
    BinAppend(Heads(front), tailPart, c);
    if last != [] {
      assert last[0] in last;
    }
  }

  /** Round-robin keeps each bin's order: the jobs emitted for connection c
      are bin c, in order. */
  lemma {:induction false} BinOfRoundRobin(bins: seq<seq<Job>>, c: nat)
    requires BinsWellFormed(bins)
    ensures Bin(RoundRobin(bins), c) == if c < |bins| then bins[c] else []
    decreases BinsSize(bins)
  {
    if BinsSize(bins) == 0 {
      if c < |bins| {
        EmptyBinsAreEmpty(bins, c);
      }
    } else {
      RoundShrinks(bins);
      TailsWellFormed(bins);
      BinOfRoundRobin(Tails(bins), c);
      BinOfRound(bins, c);
    }
  }

  /** Removing the heads keeps every job in its connection's bin. */
  lemma TailsWellFormed(bins: seq<seq<Job>>)
    requires BinsWellFormed(bins)
    ensures BinsWellFormed(Tails(bins))
  {
    var t := Tails(bins);
    forall k, j: Job | 0 <= k < |t| && j in t[k] ensures j.connectionNum == k {
      assert j in bins[k];
    }
  }

  /** One round, then the rest: bin c gets its head from the round and its
      tail from the rest. */
  lemma BinOfRound(bins: seq<seq<Job>>, c: nat)
    requires BinsWellFormed(bins) && BinsSize(bins) > 0
    requires Bin(RoundRobin(Tails(bins)), c) == if c < |bins| then Tails(bins)[c] else []
    ensures Bin(RoundRobin(bins), c) == if c < |bins| then bins[c] else []
  {
    RoundRobinUnfold(bins);
    BinOfHeads(bins, c);
    BinAppend(Heads(bins), RoundRobin(Tails(bins)), c);
    if c < |bins| && bins[c] != [] {
      HeadThenTail(bins[c]);
    }
  }

  lemma HeadThenTail(s: seq<Job>)
    requires s != []
    ensures s == [s[0]] + s[1..]
  {
  }

  lemma {:induction false} EmptyBinsAreEmpty(bins: seq<seq<Job>>, c: nat)
    requires BinsSize(bins) == 0 && c < |bins|
    ensures bins[c] == []
  {
    if c < |bins| - 1 {
      EmptyBinsAreEmpty(bins[..|bins| - 1], c);
    }
  }

  /** Jobs sharing a connection keep their relative order. */
  lemma InterleavedKeepsConnectionOrder(jobs: seq<Job>, c: nat)
    ensures Bin(Interleaved(jobs), c) == Bin(jobs, c)
  {
    var bins := BinsOf(jobs);
    assert BinsWellFormed(bins) by {
      forall k, j: Job | 0 <= k < |bins| && j in bins[k] ensures j.connectionNum == k {
        BinMembers(jobs, k);
      }
    }
    BinOfRoundRobin(bins, c);
    if c >= |bins| {
      BinOfOther(jobs, c);
    }
  }

  /** With a single connection in use the interleaving changes nothing,
      which is what the never-taken early return meant to short-cut. */
  lemma SingleConnectionUnchanged(jobs: seq<Job>, c: nat)
    requires forall j :: j in jobs ==> j.connectionNum == c
    ensures Interleaved(jobs) == jobs
  {
    InterleavedIsPermutation(jobs);
    InterleavedKeepsConnectionOrder(jobs, c);
    BinOfUniform(jobs, c);
    forall j | j in Interleaved(jobs) ensures j.connectionNum == c {
      assert j in multiset(Interleaved(jobs));
    }
    BinOfUniform(Interleaved(jobs), c);
  }

  /** An independent statement of the order: round r emits the r-th job of
      every bin that has one, in ascending connection order. */
  function Round(bins: seq<seq<Job>>, r: nat): seq<Job>
  {
    if bins == [] then []
    else
      var last := bins[|bins| - 1];
      Round(bins[..|bins| - 1], r) + (if r < |last| then [last[r]] else [])
  }

  /** Rounds r, r+1, ..., r+count-1, concatenated. */
  function Rounds(bins: seq<seq<Job>>, r: nat, count: nat): seq<Job>
    decreases count
  {
    if count == 0 then [] else Round(bins, r) + Rounds(bins, r + 1, count - 1)
  }

  /** The length of the longest bin. */
  function MaxLen(bins: seq<seq<Job>>): nat
  {
    if bins == [] then 0
    else
      var front := MaxLen(bins[..|bins| - 1]);
      var last := |bins[|bins| - 1]|;
      if last > front then last else front
  }

  /** MaxLen bounds every bin and is the length of one of them. */
  lemma {:induction false} MaxLenBounds(bins: seq<seq<Job>>)
    ensures forall c :: 0 <= c < |bins| ==> |bins[c]| <= MaxLen(bins)
    ensures bins != [] ==> exists c :: 0 <= c < |bins| && |bins[c]| == MaxLen(bins)
  {
    if bins != [] {
      var front := bins[..|bins| - 1];
      MaxLenBounds(front);
      assert forall c :: 0 <= c < |bins| - 1 ==> bins[c] == front[c];
      if |bins[|bins| - 1]| <= MaxLen(front) && front != [] {
        var c :| 0 <= c < |front| && |front[c]| == MaxLen(front);
        assert |bins[c]| == MaxLen(bins);
      }
    }
  }

  lemma {:induction false} HeadsIsRoundZero(bins: seq<seq<Job>>)
    ensures Heads(bins) == Round(bins, 0)
  {
    if bins != [] {
      HeadsIsRoundZero(bins[..|bins| - 1]);
    }
  }

  lemma {:induction false} RoundOfTails(bins: seq<seq<Job>>, r: nat)
    ensures Round(Tails(bins), r) == Round(bins, r + 1)
  {
    if bins != [] {
      assert Tails(bins)[..|bins| - 1] == Tails(bins[..|bins| - 1]);
      RoundOfTails(bins[..|bins| - 1], r);
    }
  }

  lemma {:induction false} RoundsOfTails(bins: seq<seq<Job>>, r: nat, count: nat)
    ensures Rounds(Tails(bins), r, count) == Rounds(bins, r + 1, count)
    decreases count
  {
    if count > 0 {
      RoundOfTails(bins, r);
      RoundsOfTails(bins, r + 1, count - 1);
    }
  }

  lemma {:induction false} MaxLenOfTails(bins: seq<seq<Job>>)
    requires BinsSize(bins) > 0
    ensures MaxLen(Tails(bins)) + 1 == MaxLen(bins)
  {
    var t := Tails(bins);
    var m := MaxLen(bins);
    MaxLenBounds(bins);
    MaxLenBounds(t);
    if m == 0 {
      forall c | 0 <= c < |bins| ensures bins[c] == [] {
      }
      NoJobsInEmptyBins(bins);
      assert false;
    }
    var c :| 0 <= c < |bins| && |bins[c]| == m;
    assert |t[c]| == m - 1;
    forall k | 0 <= k < |t| ensures |t[k]| <= m - 1 {
      assert |bins[k]| <= m;
    }
    var c2 :| 0 <= c2 < |t| && |t[c2]| == MaxLen(t);
  }

  lemma {:induction false} NoJobsInEmptyBins(bins: seq<seq<Job>>)
    requires forall c :: 0 <= c < |bins| ==> bins[c] == []
    ensures BinsSize(bins) == 0
  {
    if bins != [] {
      NoJobsInEmptyBins(bins[..|bins| - 1]);
    }
  }

  lemma {:induction false} EmptyRoundsEmpty(bins: seq<seq<Job>>)
    requires BinsSize(bins) == 0
    ensures MaxLen(bins) == 0
  {
    if bins != [] {
      MaxLenBounds(bins);
      var c :| 0 <= c < |bins| && |bins[c]| == MaxLen(bins);
      EmptyBinsAreEmpty(bins, c);
    }
  }

  /** Round-robin over the bins is the concatenation of its rounds. */
  lemma {:induction false} RoundRobinIsRounds(bins: seq<seq<Job>>)
    ensures RoundRobin(bins) == Rounds(bins, 0, MaxLen(bins))
    decreases BinsSize(bins)
  {
    if BinsSize(bins) == 0 {
      EmptyRoundsEmpty(bins);
    } else {
      RoundShrinks(bins);
      RoundRobinIsRounds(Tails(bins));
      RoundThenRounds(bins);
    }
  }

  /** Round 0 is the heads; the rounds of the tails are rounds 1, 2, .... */
  lemma RoundThenRounds(bins: seq<seq<Job>>)
    requires BinsSize(bins) > 0
    requires RoundRobin(Tails(bins)) == Rounds(Tails(bins), 0, MaxLen(Tails(bins)))
    ensures RoundRobin(bins) == Rounds(bins, 0, MaxLen(bins))
  {
    MaxLenOfTails(bins);
    TailsAreLaterRounds(bins);
    HeadsIsRoundZero(bins);
    RoundRobinUnfold(bins);
    RoundsUnfold(bins, 0, MaxLen(Tails(bins)));
  }

  lemma TailsAreLaterRounds(bins: seq<seq<Job>>)
    requires RoundRobin(Tails(bins)) == Rounds(Tails(bins), 0, MaxLen(Tails(bins)))
    ensures RoundRobin(Tails(bins)) == Rounds(bins, 1, MaxLen(Tails(bins)))
  {
    RoundsOfTails(bins, 0, MaxLen(Tails(bins)));
  }

  lemma RoundsUnfold(bins: seq<seq<Job>>, r: nat, count: nat)
    ensures Rounds(bins, r, count + 1) == Round(bins, r) + Rounds(bins, r + 1, count)
  {
  }

  /** `interleaveJobs` emits round 0, then round 1, and so on, where round r
      holds the r-th job of every connection that has one, in ascending
      connection order. */
  lemma InterleavedByRounds(jobs: seq<Job>)
    ensures Interleaved(jobs) == Rounds(BinsOf(jobs), 0, MaxLen(BinsOf(jobs)))
  {
    RoundRobinIsRounds(BinsOf(jobs));
  }
}
