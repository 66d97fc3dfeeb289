/** The counters: the balance of faults, replacements and allocated frames, the sums of the
    per-process statistics, and the executor's aggregate of the results. */
module Counters {
  import opened Core
  import opened Addresses
  import opened PolicyModel
  import opened MemoryModel
  import opened MmuModel
  import opened MmuInvariant
  import opened MmuRuns
  import opened Paging
  import opened AccessRuns
  import opened ReachedUnits

  // ------------------------------------------------------------- sums over processes

  ghost function SumAccesses(s: map<ProcessId, ProcessCounters>): nat {
    if s.Keys == {} then 0 else var q :| q in s.Keys; s[q].accesses + SumAccesses(s - {q})
  }

  ghost function SumFaults(s: map<ProcessId, ProcessCounters>): nat {
    if s.Keys == {} then 0 else var q :| q in s.Keys; s[q].pageFaults + SumFaults(s - {q})
  }

  lemma {:induction false} SumWithout(s: map<ProcessId, ProcessCounters>, q: ProcessId)
    requires q in s
    ensures SumAccesses(s) == s[q].accesses + SumAccesses(s - {q})
    ensures SumFaults(s) == s[q].pageFaults + SumFaults(s - {q})
    decreases |s|
  {
    SumAccessesWithout(s, q);
    SumFaultsWithout(s, q);
  }

  lemma {:induction false} SumAccessesWithout(s: map<ProcessId, ProcessCounters>, q: ProcessId)
    requires q in s
    ensures SumAccesses(s) == s[q].accesses + SumAccesses(s - {q})
    decreases |s|
  {
    var r :| r in s.Keys && SumAccesses(s) == s[r].accesses + SumAccesses(s - {r});
    if r != q {
      SumAccessesWithout(s - {r}, q);
      SumAccessesWithout(s - {q}, r);
      assert s - {r} - {q} == s - {q} - {r};
    }
  }

  lemma {:induction false} SumFaultsWithout(s: map<ProcessId, ProcessCounters>, q: ProcessId)
    requires q in s
    ensures SumFaults(s) == s[q].pageFaults + SumFaults(s - {q})
    decreases |s|
  {
    var r :| r in s.Keys && SumFaults(s) == s[r].pageFaults + SumFaults(s - {r});
    if r != q {
      SumFaultsWithout(s - {r}, q);
      SumFaultsWithout(s - {q}, r);
      assert s - {r} - {q} == s - {q} - {r};
    }
  }

  /** The totals are the sums of the per-process counters. */
  ghost predicate Totalled(s: FaultStatistics) {
    SumAccesses(s.processes) == s.totalAccesses && SumFaults(s.processes) == s.totalPageFaults
  }

  lemma SumUpdate(s: map<ProcessId, ProcessCounters>, q: ProcessId, c: ProcessCounters)
    ensures var old' := if q in s then s[q] else ProcessCounters(0, 0);
      && SumAccesses(s[q := c]) == SumAccesses(s) + c.accesses - old'.accesses
      && SumFaults(s[q := c]) == SumFaults(s) + c.pageFaults - old'.pageFaults
  {
    SumWithout(s[q := c], q);
    if q in s {
      SumWithout(s, q);
      assert s[q := c] - {q} == s - {q};
    } else {
      assert s[q := c] - {q} == s;
    }
  }

  lemma RecordingKeepsTotals(s: FaultStatistics, q: ProcessId)
    requires Totalled(s)
    ensures Totalled(s.RecordAccess(q)) && Totalled(s.RecordPageFault(q))
  {
    var c := s.Of(q);
    SumUpdate(s.processes, q, c.(accesses := c.accesses + 1));
    SumUpdate(s.processes, q, c.(pageFaults := c.pageFaults + 1));
  }

  // ------------------------------------------------------------------------ balance

  /** Faults less replacements are the allocated frames; the unit, its policy and the
      statistics agree on what they all count. */
  ghost predicate Balanced(m: Mmu) {
    && m.faults == m.replacements + Occupied(m.memory.frames)
    && m.dirtyEvictions <= m.replacements <= m.faults
    && m.policy.replacementCount == m.replacements
    && m.policy.dirtyEvictionCount == m.dirtyEvictions
    && m.statistics.totalPageFaults == m.faults
    && Totalled(m.statistics)
  }

  lemma HitBalanced(m: Mmu, a: MemoryAccess, p: PageId)
    requires Balanced(m) && p in m.pages && p in m.memory.table
    ensures Balanced(Hit(m, a, p))
  {
    RecordingKeepsTotals(m.statistics, a.process);
  }

  lemma LoadBalanced(m: Mmu, a: MemoryAccess, p: PageId, f: FrameId)
    requires Balanced(m) && p in m.pages && f < |m.memory.frames| && m.memory.frames[f].None?
    ensures Balanced(Load(m, a, p, f))
  {
    RecordingKeepsTotals(m.statistics, a.process);
    RecordingKeepsTotals(m.statistics.RecordAccess(a.process), a.process);
    OccupiedUpdate(m.memory.frames, f, Some(p));
  }

  lemma ReplaceBalanced(m: Mmu, a: MemoryAccess, p: PageId, v: PageId, f: FrameId)
    requires Balanced(m) && p in m.pages && v in m.pages && f < |m.memory.frames| && m.memory.frames[f].Some?
    requires m.policy.ChooseVictim().1.Some?
    ensures Balanced(Replace(m, a, p, v, f))
  {
    hide Totalled;
    RecordingKeepsTotals(m.statistics, a.process);
    RecordingKeepsTotals(m.statistics.RecordAccess(a.process), a.process);
    OccupiedUpdate(m.memory.frames, f, Some(p));
  }

  /** A served access keeps the balance. */
  lemma AccessBalanced(m: Mmu, a: MemoryAccess)
    requires Consistent(m) && Balanced(m) && (Access(m, a).1.success || Target(m, a).None?)
    ensures Balanced(Access(m, a).0)
  {
    hide Access, Balanced, Inverse, PagesAgree;
    AccessSucceedsIff(m, a);
    if Target(m, a).None? {
      AccessRefused(m, a);
    } else {
      var p := Target(m, a).value;
      if p in m.memory.table {
        AccessHits(m, a, p);
        HitBalanced(m, a, p);
      } else if !Full(m) {
        var f := AccessLoads(m, a, p);
        LoadBalanced(m, a, p, f);
      } else {
        var v, f := AccessReplaces(m, a, p);
        ReplaceBalanced(m, a, p, v, f);
      }
    }
  }

  lemma AsNewBalanced(m: Mmu)
    ensures Balanced(AsNew(m))
  {
    EmptyFramesUnoccupied(AsNew(m).memory.frames);
  }

  lemma StepBalanced(m: Mmu, op: Op, m': Mmu)
    requires Ready(m) && Balanced(m) && Step(m, op, m')
    ensures Ready(m') && Balanced(m')
  {
    hide Access;
    StepPreserves(m, op, m');
    match op
    case DoAccess(a) =>
      if Target(m, a).Some? {
        AccessIsTotal(m, a);
      }
      AccessBalanced(m, a);
    case DoReset =>
      var order :| ResetTo(m, order, m');
      ResetIsAsNew(m, order);
      AsNewBalanced(m);
    case Register(_) =>
    case RegisterAt(_, _) =>
    case Supply(_) =>
  }

  /** In every state of every run with a policy of the repository, at least one frame and
      addressable memory, the counters balance. */
  lemma {:induction false} RunsBalance(states: seq<Mmu>, ops: seq<Op>, n: nat)
    requires Run(states, ops) && n <= |ops| && Ready(states[0]) && Balanced(states[0])
    ensures Ready(states[n]) && Balanced(states[n])
  {
    hide Ready, Balanced, Step;
    if n > 0 {
      RunsBalance(states, ops, n - 1);
      assert StepAt(states, ops, n - 1);
      StepBalanced(states[n - 1], ops[n - 1], states[n]);
    }
  }

  lemma InitialBalanced(k: nat, d: Discipline, size: PageSize)
    ensures Balanced(Initial(k, d, size))
  {
    EmptyFramesUnoccupied(Initial(k, d, size).memory.frames);
  }

  // ------------------------------------------------------- allocated frames of a run

  lemma {:induction false} ResidentWithinReferenced(m: Mmu, accesses: seq<MemoryAccess>, n: nat)
    requires Ready(m) && Resident(m) == {} && Serviceable(m, accesses) && n <= |accesses|
    ensures var (X, W) := (Resident(After(m, accesses, n)), PagesIn(TraceOf(m, accesses), 0, n));
      X <= W && (X == W || |X| == Capacity(m))
  {
    hide Access, Ready, Target, PagesIn, Resident, Capacity;
    var t := TraceOf(m, accesses);
    if n == 0 {
      NothingReferenced(t);
    } else {
      var before := After(m, accesses, n - 1);
      ResidentWithinReferenced(m, accesses, n - 1);
      PagesInGrow(t, 0, n - 1);
      ReadyAfter(m, accesses, n - 1);
      ServedCount(before, accesses[n - 1]);
      WithinStep(Capacity(m), Resident(before), Resident(After(m, accesses, n)), PagesIn(t, 0, n - 1), t[n - 1]);
    }
  }

  lemma WithinStep(k: nat, X: set<PageId>, Y: set<PageId>, W: set<PageId>, p: PageId)
    requires X <= W && (X == W || |X| == k) && |X| <= k
    requires Y <= X + {p} && (|X| < k || p in X ==> Y == X + {p}) && (|X| == k ==> |Y| == k)
    ensures Y <= W + {p} && (Y == W + {p} || |Y| == k)
  {
  }

  lemma NothingReferenced(t: Trace)
    ensures PagesIn(t, 0, 0) == {}
  {
  }

  lemma ServedCount(m: Mmu, a: MemoryAccess)
    requires Ready(m) && Target(m, a).Some?
    ensures var (p, X, Y) := (Target(m, a).value, Resident(m), Resident(Access(m, a).0));
      && Y <= X + {p} && |X| <= Capacity(m)
      && (|X| < Capacity(m) || p in X ==> Y == X + {p})
      && (|X| == Capacity(m) ==> |Y| == Capacity(m))
  {
    hide Access, Ready, Resident;
    assert Consistent(m) by { ReadyConsistent(m); }
    AccessIsTotalWhenReady(m, a);
    ResidentCount(m);
    var v, f := ServedResidency(m, a);
    var p, X, Y := Target(m, a).value, Resident(m), Resident(Access(m, a).0);
    if p in X {
      assert X + {p} == X;
    }
  }

  lemma ReadyConsistent(m: Mmu)
    requires Ready(m)
    ensures Consistent(m)
  {
  }

  lemma AccessIsTotalWhenReady(m: Mmu, a: MemoryAccess)
    requires Ready(m) && Target(m, a).Some?
    ensures Access(m, a).1.success
  {
    AccessIsTotal(m, a);
  }

  /** After any run from empty memory, faults less replacements, the allocated frames and
      the smaller of the frame count and the number of distinct pages named are equal. */
  lemma FaultsConserved(m: Mmu, accesses: seq<MemoryAccess>)
    requires Ready(m) && Balanced(m) && Resident(m) == {}
    ensures var m' := After(m, accesses, |accesses|);
      && m'.faults - m'.replacements == Occupied(m'.memory.frames)
      && Occupied(m'.memory.frames) == Min(Capacity(m), |PagesNamed(m, accesses)|)
      && m'.dirtyEvictions <= m'.replacements <= m'.faults
      && m'.policy.replacementCount == m'.replacements && m'.policy.dirtyEvictionCount == m'.dirtyEvictions
      && m'.faults == m'.statistics.totalPageFaults == SumFaults(m'.statistics.processes)
  {
    hide Access, Ready, Target, PagesNamed, Balanced;
    var known := Known(m, accesses);
    var t := TraceOf(m, known);
    ReadyConsistent(m);
    UnknownAccessesVanish(m, accesses);
    KnownPages(m, accesses);
    assert t[0..|t|] == t;
    ServedFaultsConserved(m, known);
  }

  lemma ServedFaultsConserved(m: Mmu, accesses: seq<MemoryAccess>)
    requires Ready(m) && Balanced(m) && Resident(m) == {} && Serviceable(m, accesses)
    ensures var (n, m') := (|accesses|, After(m, accesses, |accesses|));
      && Balanced(m') && m'.faults - m'.replacements == Occupied(m'.memory.frames)
      && Occupied(m'.memory.frames) == Min(Capacity(m), |PagesIn(TraceOf(m, accesses), 0, n)|)
      && m'.dirtyEvictions <= m'.replacements <= m'.faults
      && m'.policy.replacementCount == m'.replacements && m'.policy.dirtyEvictionCount == m'.dirtyEvictions
      && m'.faults == m'.statistics.totalPageFaults == SumFaults(m'.statistics.processes)
  {
    hide Access, Target, PagesIn;
    var n, m' := |accesses|, After(m, accesses, |accesses|);
    RunBalanced(m, accesses, n);
    ResidentWithinReferenced(m, accesses, n);
    ReadyAfter(m, accesses, n);
    ResidentCount(m');
    SubsetCardinality(Resident(m'), PagesIn(TraceOf(m, accesses), 0, n));
  }

  lemma {:induction false} RunBalanced(m: Mmu, accesses: seq<MemoryAccess>, n: nat)
    requires Ready(m) && Balanced(m) && Serviceable(m, accesses) && n <= |accesses|
    ensures Balanced(After(m, accesses, n))
  {
    hide Access, Ready, Balanced, Target;
    if n > 0 {
      RunBalanced(m, accesses, n - 1);
      ReadyAfter(m, accesses, n - 1);
      ReadyConsistent(After(m, accesses, n - 1));
      AccessIsTotalWhenReady(After(m, accesses, n - 1), accesses[n - 1]);
      AccessBalanced(After(m, accesses, n - 1), accesses[n - 1]);
    }
  }

  // ----------------------------------------------------------------- the executor

  datatype ExecutionStatistics = ExecutionStatistics(
    accesses: nat, successful: nat, failed: nat, pageFaults: nat, pageReplacements: nat, dirtyEvictions: nat)
  {
    function Record(r: AccessResult): ExecutionStatistics {
      ExecutionStatistics(
        accesses + 1,
        if r.success then successful + 1 else successful,
        if r.success then failed else failed + 1,
        if r.pageFault then pageFaults + 1 else pageFaults,
        if r.pageReplacement then pageReplacements + 1 else pageReplacements,
        if r.dirtyEviction then dirtyEvictions + 1 else dirtyEvictions)
    }
  }

  const NO_EXECUTION := ExecutionStatistics(0, 0, 0, 0, 0, 0)

  /** What the executor accumulates over the first `n` accesses. */
  function Tally(m: Mmu, accesses: seq<MemoryAccess>, n: nat): ExecutionStatistics
    requires n <= |accesses|
  {
    if n == 0 then NO_EXECUTION else Tally(m, accesses, n - 1).Record(ResultAt(m, accesses, n - 1))
  }

  // The accesses, of the first `n`, whose results report each outcome.

  ghost function Successes(m: Mmu, accesses: seq<MemoryAccess>, n: nat): set<nat>
    requires n <= |accesses|
  {
    set i: nat | i < n && ResultAt(m, accesses, i).success
  }

  ghost function Failures(m: Mmu, accesses: seq<MemoryAccess>, n: nat): set<nat>
    requires n <= |accesses|
  {
    set i: nat | i < n && !ResultAt(m, accesses, i).success
  }

  ghost function Faulting(m: Mmu, accesses: seq<MemoryAccess>, n: nat): set<nat>
    requires n <= |accesses|
  {
    set i: nat | i < n && ResultAt(m, accesses, i).pageFault
  }

  ghost function Replacing(m: Mmu, accesses: seq<MemoryAccess>, n: nat): set<nat>
    requires n <= |accesses|
  {
    set i: nat | i < n && ResultAt(m, accesses, i).pageReplacement
  }

  ghost function DirtyEvicting(m: Mmu, accesses: seq<MemoryAccess>, n: nat): set<nat>
    requires n <= |accesses|
  {
    set i: nat | i < n && ResultAt(m, accesses, i).dirtyEviction
  }

  /** What each total counts. */
  lemma {:induction false} TallyCountsResults(m: Mmu, accesses: seq<MemoryAccess>, n: nat)
    requires n <= |accesses|
    ensures var s := Tally(m, accesses, n);
      && s.accesses == n
      && s.successful == |Successes(m, accesses, n)| && s.failed == |Failures(m, accesses, n)|
      && s.pageFaults == |Faulting(m, accesses, n)| && s.pageReplacements == |Replacing(m, accesses, n)|
      && s.dirtyEvictions == |DirtyEvicting(m, accesses, n)|
  {
    hide Successes, Failures, Faulting, Replacing, DirtyEvicting, ResultAt;
    if n == 0 {
      NothingCounted(m, accesses);
    } else {
      TallyCountsResults(m, accesses, n - 1);
      OneMoreSuccess(m, accesses, n - 1);
      OneMoreFailure(m, accesses, n - 1);
      OneMoreFault(m, accesses, n - 1);
      OneMoreReplacement(m, accesses, n - 1);
      OneMoreDirtyEviction(m, accesses, n - 1);
    }
  }

  lemma NothingCounted(m: Mmu, accesses: seq<MemoryAccess>)
    ensures Successes(m, accesses, 0) == Failures(m, accesses, 0) == Faulting(m, accesses, 0) == {}
    ensures Replacing(m, accesses, 0) == DirtyEvicting(m, accesses, 0) == {}
  {
  }

  lemma OneMoreSuccess(m: Mmu, accesses: seq<MemoryAccess>, n: nat)
    requires n < |accesses|
    ensures |Successes(m, accesses, n + 1)| == |Successes(m, accesses, n)| + (if ResultAt(m, accesses, n).success then 1 else 0)
  {
    hide ResultAt;
    assert Successes(m, accesses, n + 1) == Successes(m, accesses, n) + (if ResultAt(m, accesses, n).success then {n} else {});
  }

  lemma OneMoreFailure(m: Mmu, accesses: seq<MemoryAccess>, n: nat)
    requires n < |accesses|
    ensures |Failures(m, accesses, n + 1)| == |Failures(m, accesses, n)| + (if !ResultAt(m, accesses, n).success then 1 else 0)
  {
    hide ResultAt;
    assert Failures(m, accesses, n + 1) == Failures(m, accesses, n) + (if !ResultAt(m, accesses, n).success then {n} else {});
  }

  lemma OneMoreFault(m: Mmu, accesses: seq<MemoryAccess>, n: nat)
    requires n < |accesses|
    ensures |Faulting(m, accesses, n + 1)| == |Faulting(m, accesses, n)| + (if ResultAt(m, accesses, n).pageFault then 1 else 0)
  {
    hide ResultAt;
    assert Faulting(m, accesses, n + 1) == Faulting(m, accesses, n) + (if ResultAt(m, accesses, n).pageFault then {n} else {});
  }

  lemma OneMoreReplacement(m: Mmu, accesses: seq<MemoryAccess>, n: nat)
    requires n < |accesses|
    ensures |Replacing(m, accesses, n + 1)| == |Replacing(m, accesses, n)| + (if ResultAt(m, accesses, n).pageReplacement then 1 else 0)
  {
    hide ResultAt;
    assert Replacing(m, accesses, n + 1) == Replacing(m, accesses, n) + (if ResultAt(m, accesses, n).pageReplacement then {n} else {});
  }

  lemma OneMoreDirtyEviction(m: Mmu, accesses: seq<MemoryAccess>, n: nat)
    requires n < |accesses|
    ensures |DirtyEvicting(m, accesses, n + 1)| == |DirtyEvicting(m, accesses, n)| + (if ResultAt(m, accesses, n).dirtyEviction then 1 else 0)
  {
    hide ResultAt;
    assert DirtyEvicting(m, accesses, n + 1) == DirtyEvicting(m, accesses, n) + (if ResultAt(m, accesses, n).dirtyEviction then {n} else {});
  }

  /** What is known before an access that will be served. */
  predicate Servable(m: Mmu, a: MemoryAccess) {
    Target(m, a).Some? && (Target(m, a).value in m.memory.table || !Full(m) || UsableVictim(m, a))
  }

  /** The accesses that fail are those that meet a state in which they cannot be served. */
  lemma FailuresAreUnservable(m: Mmu, accesses: seq<MemoryAccess>, n: nat)
    requires Consistent(m) && n <= |accesses|
    ensures Failures(m, accesses, n) == set i: nat | i < n && !Servable(After(m, accesses, i), accesses[i])
  {
    hide Access, Consistent, Servable, After;
    forall i: nat | i < n
      ensures ResultAt(m, accesses, i).success <==> Servable(After(m, accesses, i), accesses[i])
    {
      ConsistentAfter(m, accesses, i);
      ServedIffServable(After(m, accesses, i), accesses[i]);
    }
  }

  lemma ServedIffServable(m: Mmu, a: MemoryAccess)
    requires Consistent(m)
    ensures Access(m, a).1.success <==> Servable(m, a)
  {
    hide Access, Consistent;
    AccessSucceedsIff(m, a);
  }

  // ------------------------------------------------------------ per-process counters

  /** The accesses of process `q` among the first `n` that name a page of its own. */
  ghost function OwnAccesses(m: Mmu, accesses: seq<MemoryAccess>, n: nat, q: ProcessId): set<nat>
    requires n <= |accesses|
  {
    set i: nat | i < n && accesses[i].process == q && Target(m, accesses[i]).Some?
  }

  /** Those of them that met their page out of memory. */
  ghost function OwnFaults(m: Mmu, accesses: seq<MemoryAccess>, n: nat, q: ProcessId): set<nat>
    requires n <= |accesses|
  {
    set i: nat | i < n && accesses[i].process == q && Misses(After(m, accesses, i), accesses[i])
  }

  predicate Misses(m: Mmu, a: MemoryAccess) {
    Target(m, a).Some? && Target(m, a).value !in m.memory.table
  }

  /** One access is recorded for its own process, as a fault too when it misses, whatever the
      policy answers. */
  lemma AccessRecorded(m: Mmu, a: MemoryAccess, q: ProcessId)
    requires Consistent(m)
    ensures var (s, s') := (m.statistics.Of(q), Access(m, a).0.statistics.Of(q));
      && s'.accesses == s.accesses + (if a.process == q && Target(m, a).Some? then 1 else 0)
      && s'.pageFaults == s.pageFaults + (if a.process == q && Misses(m, a) then 1 else 0)
  {
    hide Access, Inverse, PagesAgree, UsableVictim;
    AccessSucceedsIff(m, a);
    if !Access(m, a).1.success {
      AccessRefused(m, a);
    } else {
      var p := Target(m, a).value;
      if p in m.memory.table {
        AccessHits(m, a, p);
      } else if !Full(m) {
        var f := AccessLoads(m, a, p);
      } else {
        var v, f := AccessReplaces(m, a, p);
      }
    }
  }

  /** After any run, with any policy, each process's counters have grown by the numbers of its
      own accesses and of its own faults. */
  lemma {:induction false} ProcessCountersCount(m: Mmu, accesses: seq<MemoryAccess>, n: nat, q: ProcessId)
    requires Consistent(m) && n <= |accesses|
    ensures var (s, s') := (m.statistics.Of(q), After(m, accesses, n).statistics.Of(q));
      && s'.accesses == s.accesses + |OwnAccesses(m, accesses, n, q)|
      && s'.pageFaults == s.pageFaults + |OwnFaults(m, accesses, n, q)|
  {
    hide Access, Consistent, Target, Misses, OwnAccesses, OwnFaults;
    if n == 0 {
      NothingOwn(m, accesses, q);
    } else {
      ProcessCountersCount(m, accesses, n - 1, q);
      ConsistentAfter(m, accesses, n - 1);
      AccessRecorded(After(m, accesses, n - 1), accesses[n - 1], q);
      OneMoreOwnAccess(m, accesses, n - 1, q);
      OneMoreOwnFault(m, accesses, n - 1, q);
    }
  }

  lemma NothingOwn(m: Mmu, accesses: seq<MemoryAccess>, q: ProcessId)
    ensures OwnAccesses(m, accesses, 0, q) == OwnFaults(m, accesses, 0, q) == {}
  {
  }

  lemma OneMoreOwnAccess(m: Mmu, accesses: seq<MemoryAccess>, n: nat, q: ProcessId)
    requires n < |accesses|
    ensures |OwnAccesses(m, accesses, n + 1, q)|
         == |OwnAccesses(m, accesses, n, q)| + (if accesses[n].process == q && Target(m, accesses[n]).Some? then 1 else 0)
  {
    hide Target;
    var own := accesses[n].process == q && Target(m, accesses[n]).Some?;
    assert OwnAccesses(m, accesses, n + 1, q) == OwnAccesses(m, accesses, n, q) + (if own then {n} else {});
  }

  lemma OneMoreOwnFault(m: Mmu, accesses: seq<MemoryAccess>, n: nat, q: ProcessId)
    requires n < |accesses|
    ensures |OwnFaults(m, accesses, n + 1, q)|
         == |OwnFaults(m, accesses, n, q)| + (if accesses[n].process == q && Misses(After(m, accesses, n), accesses[n]) then 1 else 0)
  {
    hide Misses, After;
    var fault := accesses[n].process == q && Misses(After(m, accesses, n), accesses[n]);
    assert OwnFaults(m, accesses, n + 1, q) == OwnFaults(m, accesses, n, q) + (if fault then {n} else {});
  }

  /** A fault the unit counted although the result does not say so. */
  predicate SilentFault(r: AccessResult) {
    r.error == Some(InvalidVictim) || r.error == Some(AddressOverflow)
  }

  function SilentFaults(m: Mmu, accesses: seq<MemoryAccess>, n: nat): nat
    requires n <= |accesses|
  {
    if n == 0 then 0 else SilentFaults(m, accesses, n - 1) + (if SilentFault(ResultAt(m, accesses, n - 1)) then 1 else 0)
  }

  /** What one access adds to each counter, from any consistent state and whatever the
      policy answers. */
  lemma AccessCounts(m: Mmu, a: MemoryAccess)
    requires Consistent(m)
    ensures var (m', r) := Access(m, a);
      && m'.faults == m.faults + (if r.pageFault then 1 else 0) + (if SilentFault(r) then 1 else 0)
      && m'.replacements == m.replacements + (if r.pageReplacement then 1 else 0)
      && m'.dirtyEvictions == m.dirtyEvictions + (if r.dirtyEviction then 1 else 0)
      && (r.success ==> !SilentFault(r))
  {
    hide Access, Inverse, PagesAgree;
    AccessSucceedsIff(m, a);
    if !Access(m, a).1.success {
      AccessRefused(m, a);
    } else {
      var p := Target(m, a).value;
      if p in m.memory.table {
        AccessHits(m, a, p);
      } else if !Full(m) {
        var f := AccessLoads(m, a, p);
      } else {
        var v, f := AccessReplaces(m, a, p);
      }
    }
  }

  /** What is known before the access when its fault will not be reported: the page has to
      be loaded, memory is full, and the policy names a frame that cannot be used. */
  predicate FaultOverlooked(m: Mmu, a: MemoryAccess) {
    && Target(m, a).Some? && Target(m, a).value !in m.memory.table && Full(m)
    && m.policy.ChooseVictim().1.Some? && !UsableVictim(m, a)
  }

  lemma SilentFaultIff(m: Mmu, a: MemoryAccess)
    requires Consistent(m)
    ensures SilentFault(Access(m, a).1) <==> FaultOverlooked(m, a)
  {
    hide Access, Inverse, PagesAgree, UsableVictim;
    AccessSucceedsIff(m, a);
    if Access(m, a).1.success {
      AccessCounts(m, a);
    } else {
      AccessRefused(m, a);
    }
  }

  /** The executor's totals against the unit's: replacements and dirty evictions always
      agree; faults agree up to the faults that ended in an invalid victim or an
      unrepresentable address, which the unit counts and the result does not report. */
  lemma {:induction false} ExecutorAgrees(m: Mmu, accesses: seq<MemoryAccess>, n: nat)
    requires Consistent(m) && n <= |accesses|
    ensures var (s, m') := (Tally(m, accesses, n), After(m, accesses, n));
      && s.accesses == n == s.successful + s.failed
      && m'.faults - m.faults == s.pageFaults + SilentFaults(m, accesses, n)
      && m'.replacements - m.replacements == s.pageReplacements
      && m'.dirtyEvictions - m.dirtyEvictions == s.dirtyEvictions
  {
    hide Access, Consistent;
    if n > 0 {
      ExecutorAgrees(m, accesses, n - 1);
      ConsistentAfter(m, accesses, n - 1);
      AccessCounts(After(m, accesses, n - 1), accesses[n - 1]);
    }
  }

  lemma {:induction false} NoSilentFaultsIff(m: Mmu, accesses: seq<MemoryAccess>, n: nat)
    requires Consistent(m) && n <= |accesses|
    ensures SilentFaults(m, accesses, n) == 0
       <==> forall i :: 0 <= i < n ==> !FaultOverlooked(After(m, accesses, i), accesses[i])
  {
    hide Access, Consistent, FaultOverlooked;
    if n > 0 {
      NoSilentFaultsIff(m, accesses, n - 1);
      ConsistentAfter(m, accesses, n - 1);
      SilentFaultIff(After(m, accesses, n - 1), accesses[n - 1]);
    }
  }

  /** The two fault totals are equal exactly when no access of the run met a full memory
      and a victim that cannot be used. */
  lemma FaultTotalsAgreeIff(m: Mmu, accesses: seq<MemoryAccess>, n: nat)
    requires Consistent(m) && n <= |accesses|
    ensures Tally(m, accesses, n).pageFaults == After(m, accesses, n).faults - m.faults
       <==> forall i :: 0 <= i < n ==> !FaultOverlooked(After(m, accesses, i), accesses[i])
  {
    hide Access, Consistent, FaultOverlooked;
    ExecutorAgrees(m, accesses, n);
    NoSilentFaultsIff(m, accesses, n);
  }

  /** With `k` frames of `size` bytes and a policy of the repository no access to a reached
      unit hides its fault exactly when the whole memory is addressable. */
  lemma NoFaultHiddenIff(k: nat, size: PageSize)
    ensures (forall m, a :: Reached(m, k, size) ==> !SilentFault(Access(m, a).1)) <==> k * size <= TWO_TO_THE_64
  {
    hide Access, Reached, Ready;
    if k * size <= TWO_TO_THE_64 {
      forall m, a | Reached(m, k, size)
        ensures !SilentFault(Access(m, a).1)
      {
        ReachedAgrees(m, k, size);
        AddressableHidesNothing(m, a);
      }
    } else {
      var m, a := HiddenFault(k, size);
    }
  }

  lemma AddressableHidesNothing(m: Mmu, a: MemoryAccess)
    requires FourViews(m) && |m.memory.frames| * m.pageSize <= TWO_TO_THE_64
    ensures !SilentFault(Access(m, a).1)
  {
    hide Access, Inverse, PagesAgree;
    SilentFaultIff(m, a);
    if Target(m, a).Some? && |m.memory.frames| >= 1 {
      AccessIsTotal(m, a);
      AccessCounts(m, a);
    } else if Target(m, a).Some? {
      ViewsHaveEqualSize(m);
      VictimIsTracked(m.policy.discipline);
    }
  }

  /** In a larger memory FIFO gets to name the frame that contains address 2^64 for an access
      that needs an offset from that address on: the unit counts a fault that the result
      does not report. Three frames of 2^63 bytes suffice. */
  lemma HiddenFault(k: nat, size: PageSize) returns (m: Mmu, a: MemoryAccess)
    requires k * size > TWO_TO_THE_64
    ensures Reached(m, k, size)
    ensures SilentFault(Access(m, a).1) && !Access(m, a).1.pageFault && Access(m, a).0.faults == m.faults + 1
  {
    hide Access, Reached, Cycle, CycledQueue;
    var f, o := FrameAtTheEnd(k, size);
    var n := k + f;
    m, a := Cycle(k, size, n + 1, n), Touching(n, o);
    CycleReached(k, size, n + 1, n);
    CycledState(m, k, size, n + 1, n);
    QueueReplaces(k, n);
    MakePhysicalAddressExact(f, o, size);
    DecomposeUnique(o, size, 0, o);
    assert Target(m, a) == Some(n);
    SilentFaultIff(m, a);
    AccessCounts(m, a);
    HiddenIsUnreported(m, a);
  }

  lemma HiddenIsUnreported(m: Mmu, a: MemoryAccess)
    requires Consistent(m) && SilentFault(Access(m, a).1)
    ensures !Access(m, a).1.pageFault
  {
    hide Access, Inverse;
    AccessCounts(m, a);
    AccessRefused(m, a);
  }

  /** When every page is registered to its accessor and memory is addressable, nothing
      fails and the fault counts agree exactly. */
  lemma {:induction false} ExecutorServesAll(m: Mmu, accesses: seq<MemoryAccess>, n: nat)
    requires Ready(m) && Serviceable(m, accesses) && n <= |accesses|
    ensures Tally(m, accesses, n).failed == 0 && SilentFaults(m, accesses, n) == 0
  {
    hide Access, Ready, Target;
    if n > 0 {
      var before := After(m, accesses, n - 1);
      ExecutorServesAll(m, accesses, n - 1);
      ReadyAfter(m, accesses, n - 1);
      ReadyConsistent(before);
      AccessIsTotalWhenReady(before, accesses[n - 1]);
      AccessCounts(before, accesses[n - 1]);
    }
  }
}
