/** The executor: it drives the unit through a list of accesses and aggregates the results. */
module Execution {
  import opened MmuModel
  import opened MmuInvariant
  import opened AccessRuns
  import opened Counters
  import opened MemoryManagement

  datatype ExecutionRecord = ExecutionRecord(access: MemoryAccess, result: AccessResult)

  class MemoryAccessExecutor {
    const unit: MemoryManagementUnit

    constructor (unit: MemoryManagementUnit)
      ensures this.unit == unit
    {
      this.unit := unit;
    }

    /** Runs the accesses in order. Every access and its result is recorded; replacements and
        dirty evictions always total what the unit counted, and when every access names a page
        of its own process nothing fails and the fault totals agree as well. */
    method Execute(accesses: seq<MemoryAccess>) returns (records: seq<ExecutionRecord>, statistics: ExecutionStatistics)
      requires unit.Valid()
      modifies unit.Footprint()
      ensures unit.Valid() && unit.Model() == After(old(unit.Model()), accesses, |accesses|)
      ensures |records| == |accesses|
      ensures forall i :: 0 <= i < |accesses| ==>
        records[i] == ExecutionRecord(accesses[i], ResultAt(old(unit.Model()), accesses, i))
      ensures statistics == Tally(old(unit.Model()), accesses, |accesses|)
      ensures Sums(records, statistics)
      ensures Consistent(old(unit.Model())) ==>
        && statistics.pageReplacements == unit.replacements - old(unit.replacements)
        && statistics.dirtyEvictions == unit.dirtyEvictions - old(unit.dirtyEvictions)
      ensures Ready(old(unit.Model())) && Serviceable(old(unit.Model()), accesses) ==>
        && statistics.failed == 0 && statistics.successful == |accesses|
        && statistics.pageFaults == unit.faults - old(unit.faults)
    {
      hide Access, Ready, Serviceable, Consistent, After, Tally, ResultAt, Sums;
      ghost var m := unit.Model();
      records, statistics := [], NO_EXECUTION;
      Nothing(m, accesses);
      var i := 0;
      while i < |accesses|
        invariant i <= |accesses| && unit.Valid() && unit.Model() == After(m, accesses, i)
        invariant |records| == i
        invariant forall j :: 0 <= j < i ==> records[j] == ExecutionRecord(accesses[j], ResultAt(m, accesses, j))
        invariant statistics == Tally(m, accesses, i)
      {
        var result := unit.Access(accesses[i]);
        records := records + [ExecutionRecord(accesses[i], result)];
        statistics := statistics.Record(result);
        OneMore(m, accesses, i);
        i := i + 1;
      }
      Totals(m, accesses);
      RecordsSum(m, accesses, records);
    }

    /** Every total is the number of records that report it. */
    static ghost predicate Sums(records: seq<ExecutionRecord>, statistics: ExecutionStatistics) {
      && statistics.accesses == |records|
      && statistics.successful == |set i: nat | i < |records| && records[i].result.success|
      && statistics.failed == |set i: nat | i < |records| && !records[i].result.success|
      && statistics.pageFaults == |set i: nat | i < |records| && records[i].result.pageFault|
      && statistics.pageReplacements == |set i: nat | i < |records| && records[i].result.pageReplacement|
      && statistics.dirtyEvictions == |set i: nat | i < |records| && records[i].result.dirtyEviction|
    }

    static lemma RecordsSum(m: Mmu, accesses: seq<MemoryAccess>, records: seq<ExecutionRecord>)
      requires |records| == |accesses|
      requires forall i :: 0 <= i < |accesses| ==> records[i].result == ResultAt(m, accesses, i)
      ensures Sums(records, Tally(m, accesses, |accesses|))
    {
      hide ResultAt, Tally;
      var n := |accesses|;
      TallyCountsResults(m, accesses, n);
      assert Successes(m, accesses, n) == set i: nat | i < n && records[i].result.success;
      assert Failures(m, accesses, n) == set i: nat | i < n && !records[i].result.success;
      assert Faulting(m, accesses, n) == set i: nat | i < n && records[i].result.pageFault;
      assert Replacing(m, accesses, n) == set i: nat | i < n && records[i].result.pageReplacement;
      assert DirtyEvicting(m, accesses, n) == set i: nat | i < n && records[i].result.dirtyEviction;
    }

    static lemma Nothing(m: Mmu, accesses: seq<MemoryAccess>)
      ensures After(m, accesses, 0) == m && Tally(m, accesses, 0) == NO_EXECUTION
    {
    }

    static lemma OneMore(m: Mmu, accesses: seq<MemoryAccess>, i: nat)
      requires i < |accesses|
      ensures (After(m, accesses, i + 1), ResultAt(m, accesses, i)) == Access(After(m, accesses, i), accesses[i])
      ensures Tally(m, accesses, i + 1) == Tally(m, accesses, i).Record(ResultAt(m, accesses, i))
    {
    }

    static lemma Totals(m: Mmu, accesses: seq<MemoryAccess>)
      ensures Consistent(m) ==>
        && Tally(m, accesses, |accesses|).pageReplacements == After(m, accesses, |accesses|).replacements - m.replacements
        && Tally(m, accesses, |accesses|).dirtyEvictions == After(m, accesses, |accesses|).dirtyEvictions - m.dirtyEvictions
      ensures Ready(m) && Serviceable(m, accesses) ==>
        && Tally(m, accesses, |accesses|).failed == 0 && Tally(m, accesses, |accesses|).successful == |accesses|
        && Tally(m, accesses, |accesses|).pageFaults == After(m, accesses, |accesses|).faults - m.faults
    {
      hide Access, Ready, Serviceable, Consistent, Tally, After;
      if Consistent(m) {
        ExecutorAgrees(m, accesses, |accesses|);
      }
      if Ready(m) && Serviceable(m, accesses) {
        ReadyConsistent(m);
        ExecutorAgrees(m, accesses, |accesses|);
        ExecutorServesAll(m, accesses, |accesses|);
      }
    }
  }
}
