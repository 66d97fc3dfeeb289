/** When more frames can hurt the unit with FIFO. */
module FifoRuns {
  import opened Addresses
  import opened PolicyModel
  import opened MmuModel
  import opened MmuInvariant
  import opened MmuRuns
  import opened Paging
  import opened OrderTheory
  import opened FifoTheory
  import opened AccessRuns
  import opened PolicyRuns
  import opened ReachedUnits

  /** Two units with FIFO over empty memory, with `k` and `k'` frames, about to serve the
      same trace. */
  ghost predicate FifoPair(
    m: Mmu, accesses: seq<MemoryAccess>, larger: Mmu, others: seq<MemoryAccess>, k: nat, k': nat)
  {
    && FifoStart(m, accesses, k) && FifoStart(larger, others, k')
    && TraceOf(larger, others) == TraceOf(m, accesses)
  }

  ghost predicate FifoStart(m: Mmu, accesses: seq<MemoryAccess>, k: nat) {
    Starts(m, accesses) && m.policy.discipline.Fifo? && Capacity(m) == k
  }

  function NewFaults(m: Mmu, accesses: seq<MemoryAccess>): int {
    After(m, accesses, |accesses|).faults - m.faults
  }

  lemma FaultsOfFifo(m: Mmu, accesses: seq<MemoryAccess>, k: nat)
    requires FifoStart(m, accesses, k)
    ensures k >= 1
    ensures NewFaults(m, accesses) == Faults(TraceOf(m, accesses), FifoResidency(k, TraceOf(m, accesses)))
  {
    hide Access, Ready, Target, FifoResidency;
    CapacityPositive(m);
    ResidencyFollows(m, accesses);
    ReadyServesAll(m, accesses);
    RunCountsFaults(m, accesses, |accesses|);
  }

  /** Exchanging `k` frames for `k'` never costs a unit with FIFO a fault, whatever it serves,
      exactly when `k'` is `k` or at least `2k - 1`. */
  lemma MoreFramesNeverHurtFifoIff(k: nat, k': nat)
    requires 1 <= k <= k' <= TWO_TO_THE_64
    ensures (forall m, accesses, larger, others ::
               FifoPair(m, accesses, larger, others, k, k') ==> NewFaults(larger, others) <= NewFaults(m, accesses))
       <==> k' == k || 2 * k - 1 <= k'
  {
    hide FifoPair;
    if k' == k || 2 * k - 1 <= k' {
      forall m, accesses, larger, others | FifoPair(m, accesses, larger, others, k, k')
        ensures NewFaults(larger, others) <= NewFaults(m, accesses)
      {
        EnoughFramesNeverHurt(m, accesses, larger, others, k, k');
      }
    } else {
      var m, larger, accesses := AnomalousUnits(k, k');
    }
  }

  lemma EnoughFramesNeverHurt(
    m: Mmu, accesses: seq<MemoryAccess>, larger: Mmu, others: seq<MemoryAccess>, k: nat, k': nat)
    requires FifoPair(m, accesses, larger, others, k, k') && (k' == k || 2 * k - 1 <= k')
    ensures NewFaults(larger, others) <= NewFaults(m, accesses)
  {
    hide Ready, Serviceable, NewFaults;
    FaultsOfFifo(m, accesses, k);
    FaultsOfFifo(larger, others, k');
    FifoMonotoneWhen(k, k', TraceOf(m, accesses));
  }

  /** Two units reached by registrations alone, the larger of which faults once more: three
      and four frames are the least. */
  lemma AnomalousUnits(k: nat, k': nat) returns (m: Mmu, larger: Mmu, accesses: seq<MemoryAccess>)
    requires 1 <= k < k' < 2 * k - 1 && k' <= TWO_TO_THE_64
    ensures Reached(m, k, 1) && Reached(larger, k', 1)
    ensures FifoPair(m, accesses, larger, accesses, k, k')
    ensures NewFaults(larger, accesses) == NewFaults(m, accesses) + 1
  {
    hide Reached, Starts, NewFaults;
    var t := Anomaly(k, k');
    m, larger, accesses := Populated(k, Fifo([]), 1, k' + 1), Populated(k', Fifo([]), 1, k' + 1), TouchAll(t);
    AnomalyPages(k, k');
    FifoServes(k, k' + 1, t);
    FifoServes(k', k' + 1, t);
    FaultsOfFifo(m, accesses, k);
    FaultsOfFifo(larger, accesses, k');
    ManyFollow(k, k');
    FewFollow(k, k');
  }

  lemma AnomalyPages(k: nat, k': nat)
    requires 1 <= k < k'
    ensures forall i :: 0 <= i < |Anomaly(k, k')| ==> Anomaly(k, k')[i] < k' + 1
  {
  }

  lemma FifoServes(k: nat, n: nat, t: Trace)
    requires 1 <= k <= TWO_TO_THE_64 && forall i :: 0 <= i < |t| ==> t[i] < n
    ensures var m := Populated(k, Fifo([]), 1, n);
      FifoStart(m, TouchAll(t), k) && TraceOf(m, TouchAll(t)) == t && Reached(m, k, 1)
  {
    hide Reached, Target, Holds;
    var m := Populated(k, Fifo([]), 1, n);
    TraceIsServed(k, Fifo([]), 1, n, t);
    ReachedAgrees(m, k, 1);
    PopulatedReached(k, Fifo([]), 1, n);
    StartFrames(m, k, 1, n);
  }
}
