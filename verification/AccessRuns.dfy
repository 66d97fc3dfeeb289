/** Runs of accesses, seen as demand-paging schedules: the resident sets, the faults, and
    the optimality of Optimal. */
module AccessRuns {
  import opened Core
  import opened Entries
  import opened Addresses
  import opened PolicyModel
  import opened MemoryModel
  import opened MmuModel
  import opened MmuInvariant
  import opened Paging

  /** The unit after the first `n` accesses. */
  function After(m: Mmu, accesses: seq<MemoryAccess>, n: nat): Mmu
    requires n <= |accesses|
  {
    if n == 0 then m else Access(After(m, accesses, n - 1), accesses[n - 1]).0
  }

  function ResultAt(m: Mmu, accesses: seq<MemoryAccess>, i: nat): AccessResult
    requires i < |accesses|
  {
    Access(After(m, accesses, i), accesses[i]).1
  }

  /** Four views in agreement, at least one frame, all of physical memory addressable. */
  ghost predicate Ready(m: Mmu) {
    FourViews(m) && |m.memory.frames| >= 1 && |m.memory.frames| * m.pageSize <= TWO_TO_THE_64
  }

  ghost predicate Serviceable(m: Mmu, accesses: seq<MemoryAccess>) {
    forall i :: 0 <= i < |accesses| ==> Target(m, accesses[i]).Some?
  }

  function TraceOf(m: Mmu, accesses: seq<MemoryAccess>): (t: Trace)
    requires Serviceable(m, accesses)
    ensures |t| == |accesses|
  {
    seq(|accesses|, i requires 0 <= i < |accesses| => Target(m, accesses[i]).value)
  }

  function Resident(m: Mmu): set<PageId> {
    m.memory.table.Keys
  }

  function ResidencyOf(m: Mmu, accesses: seq<MemoryAccess>): (S: Residency)
    ensures |S| == |accesses| + 1
  {
    seq(|accesses| + 1, i requires 0 <= i <= |accesses| => Resident(After(m, accesses, i)))
  }

  function Capacity(m: Mmu): nat {
    |m.memory.frames|
  }

  lemma {:induction false} ReadyAfter(m: Mmu, accesses: seq<MemoryAccess>, n: nat)
    requires Ready(m) && n <= |accesses|
    ensures Ready(After(m, accesses, n))
    ensures Capacity(After(m, accesses, n)) == Capacity(m)
    ensures forall a :: Target(After(m, accesses, n), a) == Target(m, a)
  {
    if n > 0 {
      ReadyAfter(m, accesses, n - 1);
      AccessPreserves(After(m, accesses, n - 1), accesses[n - 1]);
    }
  }

  lemma {:induction false} ConsistentAfter(m: Mmu, accesses: seq<MemoryAccess>, n: nat)
    requires Consistent(m) && n <= |accesses|
    ensures Consistent(After(m, accesses, n))
    ensures Capacity(After(m, accesses, n)) == Capacity(m)
    ensures forall a :: Target(After(m, accesses, n), a) == Target(m, a)
  {
    hide Access, Consistent;
    if n > 0 {
      ConsistentAfter(m, accesses, n - 1);
      AccessPreserves(After(m, accesses, n - 1), accesses[n - 1]);
    }
  }

  // ------------------------------------------------- accesses to pages nobody registered

  /** The accesses whose process has the page registered. */
  function Known(m: Mmu, accesses: seq<MemoryAccess>): (known: seq<MemoryAccess>)
    ensures Serviceable(m, known)
    ensures forall a :: a in known <==> a in accesses && Target(m, a).Some?
  {
    if accesses == [] then []
    else
      var n := |accesses| - 1;
      Known(m, accesses[..n]) + (if Target(m, accesses[n]).Some? then [accesses[n]] else [])
  }

  /** The pages a run names. */
  function PagesNamed(m: Mmu, accesses: seq<MemoryAccess>): set<PageId> {
    set a | a in accesses && Target(m, a).Some? :: Target(m, a).value
  }

  lemma KnownPages(m: Mmu, accesses: seq<MemoryAccess>)
    ensures Elements(TraceOf(m, Known(m, accesses))) == PagesNamed(m, accesses)
  {
    hide Target;
    var known := Known(m, accesses);
    var t := TraceOf(m, known);
    forall p | p in PagesNamed(m, accesses)
      ensures p in t
    {
      var a :| a in accesses && Target(m, a) == Some(p);
      var i :| 0 <= i < |known| && known[i] == a;
      assert t[i] == p;
    }
    forall p | p in t
      ensures p in PagesNamed(m, accesses)
    {
      var i :| 0 <= i < |t| && t[i] == p;
      assert known[i] in known;
    }
  }

  lemma {:induction false} AfterPrefix(m: Mmu, accesses: seq<MemoryAccess>, more: seq<MemoryAccess>, n: nat)
    requires n <= |accesses|
    ensures After(m, accesses + more, n) == After(m, accesses, n)
  {
    if n > 0 {
      AfterPrefix(m, accesses, more, n - 1);
    }
  }

  /** Any run leaves the unit where the run of its known accesses leaves it. */
  lemma {:induction false} UnknownAccessesVanish(m: Mmu, accesses: seq<MemoryAccess>)
    requires Consistent(m)
    ensures After(m, accesses, |accesses|) == After(m, Known(m, accesses), |Known(m, accesses)|)
  {
    hide Access, Consistent, Target;
    if accesses != [] {
      var n := |accesses| - 1;
      var init, last := accesses[..n], accesses[n];
      var known, before := Known(m, init), After(m, init, n);
      assert accesses == init + [last];
      AfterPrefix(m, init, [last], n);
      UnknownAccessesVanish(m, init);
      ConsistentAfter(m, init, n);
      if Target(m, last).Some? {
        AfterPrefix(m, known, [last], |known|);
        assert After(m, known + [last], |known| + 1) == Access(before, last).0;
      } else {
        assert Known(m, accesses) == known;
        UnknownChangesNothing(before, last);
      }
    }
  }

  lemma UnknownChangesNothing(m: Mmu, a: MemoryAccess)
    requires Consistent(m) && Target(m, a).None?
    ensures Access(m, a).0 == m
  {
    hide Access, Inverse;
    AccessSucceedsIff(m, a);
    AccessRefused(m, a);
  }

  lemma ResidentCount(m: Mmu)
    requires Consistent(m)
    ensures |Resident(m)| == Occupied(m.memory.frames) <= Capacity(m)
    ensures Full(m) <==> |Resident(m)| == Capacity(m)
  {
    InverseHolds(m.memory);
    HeldPagesCardinality(m.memory.frames);
    OccupiedBound(m.memory.frames);
  }

  lemma HitResidency(m: Mmu, a: MemoryAccess, p: PageId)
    requires p in m.pages && p in m.memory.table
    ensures Resident(Hit(m, a, p)) == Resident(m) && Hit(m, a, p).faults == m.faults
  {
  }

  lemma LoadResidency(m: Mmu, a: MemoryAccess, p: PageId, f: FrameId)
    requires p in m.pages && f < |m.memory.frames|
    ensures Resident(Load(m, a, p, f)) == Resident(m) + {p} && Load(m, a, p, f).faults == m.faults + 1
  {
  }

  lemma ReplaceResidency(m: Mmu, a: MemoryAccess, p: PageId, v: PageId, f: FrameId)
    requires p in m.pages && v in m.pages && f < |m.memory.frames| && Lookup(m.memory, v).Some?
    ensures v in Resident(m)
    ensures Resident(Replace(m, a, p, v, f)) == Resident(m) - {v} + {p} && Replace(m, a, p, v, f).faults == m.faults + 1
  {
  }

  /** What a served access does to the resident set; `v` is the victim of a replacement and
      `f` its frame. */
  lemma ServedResidency(m: Mmu, a: MemoryAccess) returns (v: PageId, f: FrameId)
    requires Consistent(m) && Access(m, a).1.success
    ensures Target(m, a).Some?
    ensures var (p, X, Y) := (Target(m, a).value, Resident(m), Resident(Access(m, a).0));
      if p in X then Y == X
      else if |X| < Capacity(m) then Y == X + {p}
      else |X| == Capacity(m) && v in X && Y == X - {v} + {p}
           && m.policy.ChooseVictim().1 == Some(f) && f < |m.memory.frames| && m.memory.frames[f] == Some(v)
    ensures Access(m, a).1.pageFault <==> Target(m, a).value !in Resident(m)
    ensures Access(m, a).0.faults == m.faults + (if Target(m, a).value in Resident(m) then 0 else 1)
  {
    hide Access, Hit, Load, Replace, UsableVictim, Full, Inverse, PagesAgree;
    AccessSucceedsIff(m, a);
    ResidentCount(m);
    var p := Target(m, a).value;
    v, f := 0, 0;
    if p in m.memory.table {
      AccessHits(m, a, p);
      HitResidency(m, a, p);
    } else if !Full(m) {
      f := AccessLoads(m, a, p);
      LoadResidency(m, a, p, f);
    } else {
      v, f := AccessReplaces(m, a, p);
      ReplaceResidency(m, a, p, v, f);
    }
  }

  /** One served access is one demand-paging step, and reports a fault exactly when the
      page was not resident. */
  lemma AccessIsDemandStep(m: Mmu, a: MemoryAccess)
    requires Consistent(m) && Access(m, a).1.success
    ensures Target(m, a).Some?
    ensures DemandStep(Capacity(m), Target(m, a).value, Resident(m), Resident(Access(m, a).0))
    ensures Access(m, a).1.pageFault <==> Target(m, a).value !in Resident(m)
    ensures Access(m, a).0.faults == m.faults + (if Target(m, a).value in Resident(m) then 0 else 1)
  {
    hide Access, Inverse, PagesAgree;
    var v, f := ServedResidency(m, a);
    AccessPreserves(m, a);
    ResidentCount(Access(m, a).0);
  }

  lemma ResidencyAt(m: Mmu, accesses: seq<MemoryAccess>, i: nat)
    requires i <= |accesses|
    ensures ResidencyOf(m, accesses)[i] == Resident(After(m, accesses, i))
  {
  }

  /** Every access succeeds, whatever the policy. */
  ghost predicate AllServed(m: Mmu, accesses: seq<MemoryAccess>) {
    && Consistent(m) && Serviceable(m, accesses)
    && forall i :: 0 <= i < |accesses| ==> ResultAt(m, accesses, i).success
  }

  /** A ready unit serves every page registered to its accessor. */
  lemma ReadyServesAll(m: Mmu, accesses: seq<MemoryAccess>)
    requires Ready(m) && Serviceable(m, accesses)
    ensures AllServed(m, accesses)
  {
    hide Access, Target;
    forall i | 0 <= i < |accesses|
      ensures ResultAt(m, accesses, i).success
    {
      ReadyAfter(m, accesses, i);
      AccessIsTotal(After(m, accesses, i), accesses[i]);
    }
  }

  lemma ServedAt(m: Mmu, accesses: seq<MemoryAccess>, i: nat)
    requires AllServed(m, accesses) && i < |accesses|
    ensures var before := After(m, accesses, i);
      && Consistent(before) && Capacity(before) == Capacity(m) && Target(before, accesses[i]) == Target(m, accesses[i])
      && Access(before, accesses[i]).1.success
  {
    hide Access, Target;
    ConsistentAfter(m, accesses, i);
    assert ResultAt(m, accesses, i).success;
  }

  lemma RunDemands(m: Mmu, accesses: seq<MemoryAccess>, i: nat)
    requires AllServed(m, accesses) && i < |accesses|
    ensures DemandStep(Capacity(m), TraceOf(m, accesses)[i], ResidencyOf(m, accesses)[i], ResidencyOf(m, accesses)[i + 1])
  {
    hide Access, Consistent, DemandStep, Target;
    ResidencyAt(m, accesses, i);
    ResidencyAt(m, accesses, i + 1);
    ServedAt(m, accesses, i);
    AccessIsDemandStep(After(m, accesses, i), accesses[i]);
  }

  /** A run from empty memory whose accesses all succeed is a demand-paging schedule,
      whatever the policy, and the unit's fault counter counts the schedule's faults. */
  lemma RunIsSchedule(m: Mmu, accesses: seq<MemoryAccess>)
    requires AllServed(m, accesses) && Resident(m) == {}
    ensures Schedule(Capacity(m), TraceOf(m, accesses), ResidencyOf(m, accesses))
  {
    hide Access, Consistent, DemandStep, Target;
    var k, t, S := Capacity(m), TraceOf(m, accesses), ResidencyOf(m, accesses);
    forall i | 0 <= i < |t|
      ensures DemandStep(k, t[i], S[i], S[i + 1])
    {
      RunDemands(m, accesses, i);
    }
  }

  lemma {:induction false} RunCountsFaults(m: Mmu, accesses: seq<MemoryAccess>, n: nat)
    requires AllServed(m, accesses) && n <= |accesses|
    ensures After(m, accesses, n).faults == m.faults + FaultsIn(TraceOf(m, accesses), ResidencyOf(m, accesses), 0, n)
  {
    hide Access, Consistent, DemandStep, Target;
    if n > 0 {
      RunCountsFaults(m, accesses, n - 1);
      ServedAt(m, accesses, n - 1);
      AccessIsDemandStep(After(m, accesses, n - 1), accesses[n - 1]);
      FaultsSplit(TraceOf(m, accesses), ResidencyOf(m, accesses), 0, n - 1, n);
    }
  }

  // ---------------------------------------------------------------------- Optimal

  /** Loaded with exactly the trace it is about to serve. */
  ghost predicate Primed(m: Mmu, accesses: seq<MemoryAccess>)
    requires Serviceable(m, accesses)
  {
    && m.policy.discipline.Optimal?
    && m.policy.discipline.reference == TraceOf(m, accesses)
    && m.policy.discipline.position == 0
  }

  /** Supplying the trace to be served primes any ready unit with the Optimal policy. */
  lemma SupplyPrimes(m: Mmu, accesses: seq<MemoryAccess>)
    requires Ready(m) && Serviceable(m, accesses) && m.policy.discipline.Optimal?
    ensures var d := m.policy.discipline.(reference := TraceOf(m, accesses), position := 0);
      var m' := m.(policy := m.policy.(discipline := d));
      Ready(m') && Serviceable(m', accesses) && Primed(m', accesses) && Resident(m') == Resident(m)
  {
    var d := m.policy.discipline.(reference := TraceOf(m, accesses), position := 0);
    var m' := m.(policy := m.policy.(discipline := d));
    assert forall a :: Target(m', a) == Target(m, a);
    assert Registered(m');
  }

  ghost predicate CursorAt(d: Discipline, t: Trace, i: nat) {
    d.Optimal? && d.reference == t && d.position == i
  }

  lemma CursorStep(m: Mmu, a: MemoryAccess, t: Trace, i: nat)
    requires Ready(m) && i < |t| && Target(m, a) == Some(t[i]) && CursorAt(m.policy.discipline, t, i)
    ensures CursorAt(Access(m, a).0.policy.discipline, t, i + 1)
  {
    hide Access;
    var p := t[i];
    AccessIsTotal(m, a);
    AccessSucceedsIff(m, a);
    if p in m.memory.table {
      AccessHits(m, a, p);
    } else if !Full(m) {
      var f := AccessLoads(m, a, p);
      CursorLoads(m.policy.discipline, t, i, f);
    } else {
      var v, f := AccessReplaces(m, a, p);
      CursorReplaces(m.policy.discipline, t, i, v, f);
    }
  }

  lemma CursorLoads(d: Discipline, t: Trace, i: nat, f: FrameId)
    requires i < |t| && CursorAt(d, t, i)
    ensures CursorAt(d.Accessed(t[i], f).Loaded(t[i], f), t, i + 1)
  {
  }

  /** The access notification comes while the new page is not yet tracked and still moves
      the cursor. */
  lemma CursorReplaces(d: Discipline, t: Trace, i: nat, v: PageId, f: FrameId)
    requires i < |t| && CursorAt(d, t, i)
    ensures CursorAt(d.ChooseVictim().0.Removed(v, f).Accessed(t[i], f).Loaded(t[i], f), t, i + 1)
  {
  }

  /** The cursor equals the number of completed accesses. */
  lemma {:induction false} CursorFollowsRun(m: Mmu, accesses: seq<MemoryAccess>, n: nat)
    requires Ready(m) && Serviceable(m, accesses) && Primed(m, accesses) && n <= |accesses|
    ensures CursorAt(After(m, accesses, n).policy.discipline, TraceOf(m, accesses), n)
  {
    hide Access, Ready, DemandStep, Target;
    if n > 0 {
      var before, t := After(m, accesses, n - 1), TraceOf(m, accesses);
      assert CursorAt(before.policy.discipline, t, n - 1) by { CursorFollowsRun(m, accesses, n - 1); }
      assert Ready(before) && Target(before, accesses[n - 1]) == Some(t[n - 1]) by { ReadyAfter(m, accesses, n - 1); }
      assert CursorAt(After(m, accesses, n).policy.discipline, t, n) by { CursorStep(before, accesses[n - 1], t, n - 1); }
    }
  }

  /** The frame Optimal names holds the resident page used farthest away. */
  lemma VictimIsFarthest(m: Mmu, t: Trace, i: nat, v: PageId, f: FrameId)
    requires FourViews(m) && i <= |t| && CursorAt(m.policy.discipline, t, i)
    requires m.policy.ChooseVictim().1 == Some(f) && f < |m.memory.frames| && m.memory.frames[f] == Some(v)
    ensures forall x :: x in Resident(m) ==> Next(t, i, x) <= Next(t, i, v)
  {
    var s := m.policy.discipline.residency;
    var b := Farthest(s, t, i, |s|);
    TablePairsMembers(m.memory.table);
    assert PairOf(s[b]) in Pairs(s);
    assert Lookup(m.memory, s[b].page) == Some(f);
    forall x | x in Resident(m)
      ensures Next(t, i, x) <= Next(t, i, v)
    {
      assert Pair(x, m.memory.table[x]) in Pairs(s);
      var j :| 0 <= j < |s| && PairOf(s[j]) == Pair(x, m.memory.table[x]);
      assert s[j].page == x;
    }
  }

  lemma AccessIsFarthestStep(m: Mmu, a: MemoryAccess, t: Trace, i: nat)
    requires Ready(m) && i < |t| && Target(m, a) == Some(t[i]) && CursorAt(m.policy.discipline, t, i)
    ensures FarthestStep(Capacity(m), t, i, Resident(m), Resident(Access(m, a).0))
  {
    hide Access, Resident, Capacity;
    AccessIsTotal(m, a);
    var v, f := ServedResidency(m, a);
    if t[i] !in Resident(m) && |Resident(m)| >= Capacity(m) {
      VictimIsFarthest(m, t, i, v, f);
      DropIsFarthestStep(Capacity(m), t, i, Resident(m), v);
    }
  }

  lemma DropIsFarthestStep(k: nat, t: Trace, i: nat, X: set<PageId>, v: PageId)
    requires i < |t| && t[i] !in X && |X| == k && v in X
    requires forall x :: x in X ==> Next(t, i, x) <= Next(t, i, v)
    ensures FarthestStep(k, t, i, X, X - {v} + {t[i]})
  {
  }

  lemma RunTakesFarthestStep(m: Mmu, accesses: seq<MemoryAccess>, i: nat)
    requires Ready(m) && Serviceable(m, accesses) && Primed(m, accesses) && i < |accesses|
    ensures FarthestStep(Capacity(m), TraceOf(m, accesses), i, ResidencyOf(m, accesses)[i], ResidencyOf(m, accesses)[i + 1])
  {
    hide Access, Ready, DemandStep, Target;
    var before, t := After(m, accesses, i), TraceOf(m, accesses);
    ResidencyAt(m, accesses, i);
    ResidencyAt(m, accesses, i + 1);
    assert CursorAt(before.policy.discipline, t, i) by { CursorFollowsRun(m, accesses, i); }
    ReadyAfter(m, accesses, i);
    AccessIsFarthestStep(before, accesses[i], t, i);
  }

  lemma OptimalIsFarthestFirst(m: Mmu, accesses: seq<MemoryAccess>)
    requires Ready(m) && Resident(m) == {} && Serviceable(m, accesses) && Primed(m, accesses)
    ensures FarthestFirst(Capacity(m), TraceOf(m, accesses), ResidencyOf(m, accesses))
  {
    hide Access, Ready, DemandStep, Target;
    var k, t, S := Capacity(m), TraceOf(m, accesses), ResidencyOf(m, accesses);
    forall i | 0 <= i < |t|
      ensures FarthestStep(k, t, i, S[i], S[i + 1])
    {
      RunTakesFarthestStep(m, accesses, i);
    }
  }

  /** Belady's theorem for the unit: loaded with exactly the trace it serves, Optimal faults
      no more than any demand-paging schedule with the same frames. */
  lemma OptimalIsOptimal(m: Mmu, accesses: seq<MemoryAccess>, R: Residency)
    requires Ready(m) && Resident(m) == {} && Serviceable(m, accesses) && Primed(m, accesses)
    requires Schedule(Capacity(m), TraceOf(m, accesses), R)
    ensures After(m, accesses, |accesses|).faults - m.faults <= Faults(TraceOf(m, accesses), R)
  {
    hide Access, Ready, DemandStep, Target;
    OptimalIsFarthestFirst(m, accesses);
    BeladyOptimality(Capacity(m), TraceOf(m, accesses), ResidencyOf(m, accesses), R);
    ReadyServesAll(m, accesses);
    RunCountsFaults(m, accesses, |accesses|);
  }

  /** Hence no more than a unit with any other policy, of the repository or not, that serves
      the same pages. */
  lemma OptimalBeatsEveryPolicy(m: Mmu, accesses: seq<MemoryAccess>, other: Mmu, others: seq<MemoryAccess>)
    requires Ready(m) && Resident(m) == {} && Serviceable(m, accesses) && Primed(m, accesses)
    requires AllServed(other, others) && Resident(other) == {}
    requires Capacity(other) == Capacity(m) && TraceOf(other, others) == TraceOf(m, accesses)
    ensures After(m, accesses, |accesses|).faults - m.faults <= After(other, others, |others|).faults - other.faults
  {
    hide Access, Ready, Consistent, DemandStep, Target;
    RunIsSchedule(other, others);
    RunCountsFaults(other, others, |others|);
    OptimalIsOptimal(m, accesses, ResidencyOf(other, others));
  }
}
