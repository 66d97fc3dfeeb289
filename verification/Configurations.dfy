/** The configuration of a simulation: how the accesses are split over processes and
    segments, when a workload can be built, and what the accesses then are. */
module Configurations {
  import opened Core
  import opened Addresses
  import opened Workloads

  datatype PolicyType = FIFO | LRU | CLOCK | OPTIMAL

  datatype WorkloadType = SEQUENTIAL | RANDOM | LOCALITY | MIXED

  datatype Segment = Segment(kind: WorkloadType, accessCount: nat)

  datatype Configuration = Configuration(
    frameCount: nat, pageSize: PageSize, processCount: nat, pageCountPerProcess: nat, memoryAccessCount: nat,
    policy: PolicyType, workload: WorkloadType, segments: seq<Segment>,
    temporalStrength: real, spatialStrength: real, workingSetSize: nat)

  predicate Validated(c: Configuration) {
    && c.frameCount > 0 && c.processCount > 0 && c.pageCountPerProcess > 0 && c.memoryAccessCount > 0
    && (c.workload == LOCALITY ==> LocalityParametersFit(c))
    && (c.workload == MIXED ==>
          c.segments != [] && forall s :: s in c.segments ==> s.accessCount > 0 && s.kind != MIXED)
  }

  // --------------------------------------------------------------- the access split

  /** Accesses of process number `i`, counted from 0. */
  function Share(total: nat, processes: nat, i: nat): nat
    requires processes > 0
  {
    total / processes + (if i < total % processes then 1 else 0)
  }

  function ShareSum(total: nat, processes: nat, n: nat): nat
    requires processes > 0
  {
    if n == 0 then 0 else ShareSum(total, processes, n - 1) + Share(total, processes, n - 1)
  }

  lemma {:induction false} SharesUpTo(total: nat, processes: nat, n: nat)
    requires processes > 0 && n <= processes
    ensures ShareSum(total, processes, n)
         == n * (total / processes) + (if n < total % processes then n else total % processes)
  {
    if n > 0 {
      SharesUpTo(total, processes, n - 1);
      Product(n, total / processes);
    }
  }

  lemma Product(n: nat, base: nat)
    requires n > 0
    ensures n * base == (n - 1) * base + base
  {
  }

  /** The shares add up to exactly the configured number of accesses. */
  lemma SharesAddUp(total: nat, processes: nat)
    requires processes > 0
    ensures ShareSum(total, processes, processes) == total
  {
    SharesUpTo(total, processes, processes);
    assert total == processes * (total / processes) + total % processes;
  }

  /** No two shares differ by more than one, and the larger ones come first. */
  lemma SharesAreEven(total: nat, processes: nat, i: nat, j: nat)
    requires processes > 0 && i <= j
    ensures Share(total, processes, j) <= Share(total, processes, i) <= Share(total, processes, j) + 1
  {
  }

  function SegmentSum(segments: seq<Segment>): nat {
    if segments == [] then 0 else SegmentSum(segments[..|segments| - 1]) + segments[|segments| - 1].accessCount
  }

  /** Accesses one process generates: its share, or less when the segments run out first. */
  function ProcessAccesses(c: Configuration, i: nat): nat
    requires c.processCount > 0
  {
    var share := Share(c.memoryAccessCount, c.processCount, i);
    if c.workload == MIXED then Min(share, SegmentSum(c.segments)) else share
  }

  function TotalAccesses(c: Configuration, n: nat): nat
    requires c.processCount > 0
  {
    if n == 0 then 0 else TotalAccesses(c, n - 1) + ProcessAccesses(c, n - 1)
  }

  // ------------------------------------------------------ when a workload can be built

  /** Locality parameters a locality generator accepts. The validator checks them only when
      the whole workload is of that kind. */
  predicate LocalityParametersFit(c: Configuration) {
    0.0 <= c.temporalStrength <= 1.0 && 0.0 <= c.spatialStrength <= 1.0 && 0 < c.workingSetSize <= c.pageCountPerProcess
  }

  /** Generators of this kind accept the configured address space. */
  predicate KindFits(kind: WorkloadType, c: Configuration) {
    && c.pageCountPerProcess > 0 && c.pageCountPerProcess - 1 <= U64_MAX / c.pageSize
    && (kind == LOCALITY ==> LocalityParametersFit(c))
  }

  /** Segment `i` still receives accesses of a share. */
  predicate Receives(c: Configuration, share: nat, i: nat)
    requires i < |c.segments|
  {
    SegmentSum(c.segments[..i]) < share && c.segments[i].accessCount > 0
  }

  ghost predicate SegmentsFit(c: Configuration, share: nat, n: nat)
    requires n <= |c.segments|
  {
    forall i :: 0 <= i < n && Receives(c, share, i) ==> KindFits(c.segments[i].kind, c)
  }

  ghost predicate ProcessFits(c: Configuration, i: nat)
    requires c.processCount > 0
  {
    var share := Share(c.memoryAccessCount, c.processCount, i);
    if c.workload == MIXED then SegmentsFit(c, share, |c.segments|) else share > 0 && KindFits(c.workload, c)
  }

  /** The configurations whose simulation completes. */
  ghost predicate Completes(c: Configuration)
    requires c.processCount > 0
  {
    && c.pageCountPerProcess <= U64_MAX / c.pageSize
    && forall i :: 0 <= i < c.processCount ==> ProcessFits(c, i)
  }

  /** A validated configuration completes exactly when its address space fits 64 bits and,
      if it is mixed, no locality segment with unfit parameters comes before the largest
      share ends, and otherwise there are at least as many accesses as processes. */
  lemma CompletesIff(c: Configuration)
    requires Validated(c)
    ensures Completes(c) <==>
      && c.pageCountPerProcess <= U64_MAX / c.pageSize
      && if c.workload == MIXED then LocalityParametersFit(c) || NoLocalityWithin(c, LargestShare(c))
         else c.processCount <= c.memoryAccessCount
  {
    if c.workload == MIXED {
      MixedCompletesIff(c);
    } else {
      UnmixedCompletesIff(c);
    }
  }

  /** The share of the first process, which no other exceeds: the accesses divided by the
      processes, rounded up. */
  function LargestShare(c: Configuration): nat
    requires c.processCount > 0
  {
    Share(c.memoryAccessCount, c.processCount, 0)
  }

  /** The locality segments come after `share` accesses. */
  predicate NoLocalityWithin(c: Configuration, share: nat) {
    forall i :: 0 <= i < |c.segments| && c.segments[i].kind == LOCALITY ==> SegmentSum(c.segments[..i]) >= share
  }

  lemma UnmixedCompletesIff(c: Configuration)
    requires Validated(c) && c.workload != MIXED
    ensures Completes(c) <==> c.pageCountPerProcess <= U64_MAX / c.pageSize && c.processCount <= c.memoryAccessCount
  {
    var total, n := c.memoryAccessCount, c.processCount;
    assert total == n * (total / n) + total % n;
    if n <= total {
      assert total / n >= 1;
    } else {
      assert Share(total, n, n - 1) == 0 by { assert total / n == 0; }
      assert !ProcessFits(c, n - 1);
    }
  }

  lemma MixedCompletesIff(c: Configuration)
    requires Validated(c) && c.workload == MIXED
    ensures Completes(c) <==>
      c.pageCountPerProcess <= U64_MAX / c.pageSize && (LocalityParametersFit(c) || NoLocalityWithin(c, LargestShare(c)))
  {
    hide SegmentsFit, SegmentSum, NoLocalityWithin, Share;
    if c.pageCountPerProcess <= U64_MAX / c.pageSize {
      forall i | 0 <= i < c.processCount
        ensures ProcessFits(c, 0) ==> ProcessFits(c, i)
      {
        LargestShareIs(c, i);
        if ProcessFits(c, 0) {
          SmallerShareFits(c, LargestShare(c), Share(c.memoryAccessCount, c.processCount, i));
        }
      }
      LocalitySegmentsFit(c, LargestShare(c));
      assert ProcessFits(c, 0) <==> SegmentsFit(c, LargestShare(c), |c.segments|);
    }
  }

  lemma LargestShareIs(c: Configuration, i: nat)
    requires c.processCount > 0
    ensures Share(c.memoryAccessCount, c.processCount, i) <= LargestShare(c)
  {
  }

  lemma SmallerShareFits(c: Configuration, share: nat, smaller: nat)
    requires smaller <= share && SegmentsFit(c, share, |c.segments|)
    ensures SegmentsFit(c, smaller, |c.segments|)
  {
    assert forall i :: 0 <= i < |c.segments| && Receives(c, smaller, i) ==> Receives(c, share, i);
  }

  lemma LocalitySegmentsFit(c: Configuration, share: nat)
    requires Validated(c) && c.workload == MIXED && c.pageCountPerProcess <= U64_MAX / c.pageSize
    ensures SegmentsFit(c, share, |c.segments|) <==> LocalityParametersFit(c) || NoLocalityWithin(c, share)
  {
    forall i | 0 <= i < |c.segments|
      ensures Receives(c, share, i) <==> SegmentSum(c.segments[..i]) < share
    {
      assert c.segments[i] in c.segments;
    }
  }

  /** Validated, and aborting: the only process gets a locality segment with no working set. */
  lemma ValidatedMixedAborts()
    ensures var c := Configuration(1, 1, 1, 1, 1, FIFO, MIXED, [Segment(LOCALITY, 10)], 0.0, 0.0, 0);
      Validated(c) && !Completes(c)
  {
    var c := Configuration(1, 1, 1, 1, 1, FIFO, MIXED, [Segment(LOCALITY, 10)], 0.0, 0.0, 0);
    assert c.segments[0].kind == LOCALITY && SegmentSum(c.segments[..0]) == 0;
    CompletesIff(c);
  }

  predicate SegmentsCover(c: Configuration)
    requires c.processCount > 0
  {
    c.workload == MIXED ==> LargestShare(c) <= SegmentSum(c.segments)
  }

  /** A run makes the configured number of accesses exactly when the segments of a mixed
      workload cover the largest share. */
  lemma TotalIsConfiguredIff(c: Configuration)
    requires c.processCount > 0
    ensures TotalAccesses(c, c.processCount) == c.memoryAccessCount <==> SegmentsCover(c)
  {
    SharesAddUp(c.memoryAccessCount, c.processCount);
    TotalAgainstShares(c, c.processCount);
  }

  lemma {:induction false} TotalAgainstShares(c: Configuration, n: nat)
    requires c.processCount > 0
    ensures TotalAccesses(c, n) <= ShareSum(c.memoryAccessCount, c.processCount, n)
    ensures n > 0 ==> (TotalAccesses(c, n) == ShareSum(c.memoryAccessCount, c.processCount, n)
                       <==> SegmentsCover(c))
  {
    hide Share;
    if n > 0 {
      TotalAgainstShares(c, n - 1);
      LargestShareIs(c, n - 1);
    }
  }

  // ----------------------------------------------------- what each kind of workload is

  /** Reads of the pages of the address space, one after the other and round again. */
  ghost predicate SequentialShape(s: Accesses, q: ProcessId, c: Configuration) {
    && Generated(s, q, c.pageCountPerProcess, c.pageSize)
    && c.pageCountPerProcess > 0
    && forall i :: 0 <= i < |s| ==> s[i].address == (i % c.pageCountPerProcess) * c.pageSize
  }

  /** What a workload of one kind is for process `q`. */
  ghost predicate FollowsKind(kind: WorkloadType, q: ProcessId, c: Configuration, s: Accesses) {
    match kind
    case SEQUENTIAL => s == [] || SequentialShape(s, q, c)
    case RANDOM => Generated(s, q, c.pageCountPerProcess, c.pageSize)
    case LOCALITY =>
      s == [] || LocalityShape(s, q, c.pageCountPerProcess, c.pageSize, c.temporalStrength, c.spatialStrength, c.workingSetSize)
    case MIXED => false
  }

  /** Accesses granted before segment `i` of a share. */
  function Granted(c: Configuration, share: nat, i: nat): nat
    requires i <= |c.segments|
  {
    Min(share, SegmentSum(c.segments[..i]))
  }

  /** Segment `i` of a process's accesses: where the segments before it end, and as long as it
      is configured or the share lasts. */
  ghost predicate SegmentFollows(q: ProcessId, c: Configuration, share: nat, s: Accesses, i: nat)
    requires i < |c.segments|
  {
    && Granted(c, share, i) <= Granted(c, share, i + 1) <= |s|
    && FollowsKind(c.segments[i].kind, q, c, s[Granted(c, share, i)..Granted(c, share, i + 1)])
  }

  ghost predicate SegmentsFollow(q: ProcessId, c: Configuration, share: nat, s: Accesses, n: nat)
    requires n <= |c.segments|
  {
    forall i :: 0 <= i < n ==> SegmentFollows(q, c, share, s, i)
  }

  /** The accesses of process number `i`, counted from 0: its share of the configured kind, or
      of the segments in their order. */
  ghost predicate ProcessFollows(c: Configuration, i: nat, s: Accesses)
    requires c.processCount > 0
  {
    var share := Share(c.memoryAccessCount, c.processCount, i);
    if c.workload == MIXED then |s| == Min(share, SegmentSum(c.segments)) && SegmentsFollow(i + 1, c, share, s, |c.segments|)
    else |s| == share && FollowsKind(c.workload, i + 1, c, s)
  }

  /** The accesses of a run: those of every process, one process after the other. */
  ghost predicate AccessesFollow(c: Configuration, s: Accesses)
    requires c.processCount > 0
  {
    && |s| == TotalAccesses(c, c.processCount)
    && forall i :: 0 <= i < c.processCount ==> ProcessAt(c, s, i)
  }

  ghost predicate ProcessAt(c: Configuration, s: Accesses, i: nat)
    requires c.processCount > 0
  {
    && TotalAccesses(c, i + 1) <= |s|
    && ProcessFollows(c, i, s[TotalAccesses(c, i)..TotalAccesses(c, i + 1)])
  }

  // ------------------------------------------------------------ segment by segment

  lemma SegmentServed(c: Configuration, share: nat, n: nat)
    requires n < |c.segments| && SegmentsFit(c, share, n)
    requires Receives(c, share, n) ==> KindFits(c.segments[n].kind, c)
    ensures SegmentsFit(c, share, n + 1)
  {
  }

  lemma SegmentRefused(c: Configuration, share: nat, n: nat)
    requires n < |c.segments| && Receives(c, share, n) && !KindFits(c.segments[n].kind, c)
    ensures !SegmentsFit(c, share, |c.segments|)
  {
  }

  lemma RestUnreached(c: Configuration, share: nat, n: nat)
    requires n <= |c.segments| && SegmentSum(c.segments[..n]) >= share && SegmentsFit(c, share, n)
    ensures SegmentsFit(c, share, |c.segments|)
  {
    forall i | n <= i < |c.segments|
      ensures !Receives(c, share, i)
    {
      SegmentSumMonotone(c.segments[..i], n);
      assert c.segments[..i][..n] == c.segments[..n];
    }
  }

  lemma SegmentSumGrows(segments: seq<Segment>, n: nat)
    requires n < |segments|
    ensures SegmentSum(segments[..n + 1]) == SegmentSum(segments[..n]) + segments[n].accessCount
  {
    assert segments[..n + 1][..n] == segments[..n];
  }

  lemma {:induction false} SegmentSumMonotone(segments: seq<Segment>, n: nat)
    requires n <= |segments|
    ensures SegmentSum(segments[..n]) <= SegmentSum(segments)
    decreases |segments| - n
  {
    if n < |segments| {
      SegmentSumGrows(segments, n);
      SegmentSumMonotone(segments, n + 1);
    } else {
      assert segments[..n] == segments;
    }
  }

  /** What follows in the order of the segments still does when more is appended, and so does
      a part of the next segment's kind and length. */
  lemma LongerFollows(q: ProcessId, c: Configuration, share: nat, s: Accesses, more: Accesses, n: nat)
    requires n < |c.segments| && SegmentsFollow(q, c, share, s, n) && |s| == Granted(c, share, n)
    requires |more| == Granted(c, share, n + 1) - Granted(c, share, n) && FollowsKind(c.segments[n].kind, q, c, more)
    ensures SegmentsFollow(q, c, share, s + more, n + 1)
  {
    hide FollowsKind, Granted;
    forall i | 0 <= i < n + 1
      ensures SegmentFollows(q, c, share, s + more, i)
    {
      var from, to := Granted(c, share, i), Granted(c, share, i + 1);
      if i < n {
        assert SegmentFollows(q, c, share, s, i);
        assert (s + more)[from..to] == s[from..to];
      } else {
        assert (s + more)[from..to] == more;
      }
    }
  }
}
