/** The unit with the Clock policy: what a replacement does to the ring, and how long a
    resident page that is not accessed again can survive. */
module ClockRuns {
  import opened Core
  import opened Entries
  import opened PolicyModel
  import opened MemoryModel
  import opened MmuModel
  import opened MmuInvariant
  import opened ClockTheory
  import opened AccessRuns

  lemma PositionIs<T>(s: seq<Entry<T>>, i: nat)
    requires OneToOne(s) && i < |s|
    ensures Position(s, s[i].page, s[i].frame) == i
  {
  }

  lemma PositionAbsent<T>(s: seq<Entry<T>>, p: PageId, f: FrameId)
    requires forall i :: 0 <= i < |s| ==> s[i].page != p
    ensures Position(s, p, f) == |s|
  {
  }

  /** Choosing, removing and forgetting the victim. */
  lemma ClockEvicts(ring: Ring, hand: nat)
    requires OneToOne(ring) && hand < |ring|
    ensures var (d, v, s) := (Clock(ring, hand), VictimIndex(ring, hand), StepsToClear(ring, hand, 0));
      && d.ChooseVictim().1 == Some(ring[v].frame)
      && d.ChooseVictim().0.Removed(ring[v].page, ring[v].frame)
         == Clock(RemoveAt(SpareFirst(ring, hand, s), v), if |ring| == 1 then 0 else ReplacedHand(ring, hand))
  {
    var v, s := VictimIndex(ring, hand), StepsToClear(ring, hand, 0);
    SweepSelects(ring, hand, 2 * |ring|);
    var spared := SpareFirst(ring, hand, s);
    SameAssociationsTrack(ring, spared);
    PositionIs(spared, v);
  }

  /** All the notifications of a replacement that loads `p`. */
  lemma ClockReplaces(ring: Ring, hand: nat, p: PageId)
    requires OneToOne(ring) && hand < |ring| && forall i :: 0 <= i < |ring| ==> ring[i].page != p
    ensures var (d, e) := (Clock(ring, hand), ring[VictimIndex(ring, hand)]);
      && d.ChooseVictim().1 == Some(e.frame)
      && d.ChooseVictim().0.Removed(e.page, e.frame).Accessed(p, e.frame).Loaded(p, e.frame)
         == Clock(ReplacedRing(ring, hand, p), ReplacedHand(ring, hand))
  {
    hide StepsToClear, At, VictimIndex, Sweep;
    var v, s := VictimIndex(ring, hand), StepsToClear(ring, hand, 0);
    ClockEvicts(ring, hand);
    var spared := SpareFirst(ring, hand, s);
    SameAssociationsTrack(ring, spared);
    RemoveAtTracks(spared, v);
    var rest := RemoveAt(spared, v);
    assert forall i :: 0 <= i < |rest| ==> rest[i].page == ring[if i < v then i else i + 1].page;
    PositionAbsent(rest, p, ring[v].frame);
    assert !Mentions(rest, p, ring[v].frame);
  }

  // ------------------------------------------------------------- bounded eviction

  /** Where the ring tracks page `q`. */
  ghost predicate TrackedAt(d: Discipline, q: PageId, j: nat) {
    d.Clock? && d.hand < |d.ring| && j < |d.ring| && d.ring[j].page == q
  }

  lemma TrackedIffResident(m: Mmu, q: PageId)
    requires FourViews(m) && m.policy.discipline.Clock?
    ensures |m.policy.discipline.ring| == |Resident(m)|
    ensures q in Resident(m) ==> exists j: nat :: TrackedAt(m.policy.discipline, q, j)
    ensures q !in Resident(m) ==> forall i :: 0 <= i < |m.policy.discipline.ring| ==> m.policy.discipline.ring[i].page != q
  {
    hide Inverse, PagesAgree, Registered, OneToOne;
    var ring := m.policy.discipline.ring;
    RingCount(m);
    TablePairsMembers(m.memory.table);
    assert forall i :: 0 <= i < |ring| ==> PairOf(ring[i]) in Pairs(ring);
    if q in Resident(m) {
      var x := Pair(q, m.memory.table[q]);
      assert x in Pairs(ring);
      var j :| 0 <= j < |ring| && PairOf(ring[j]) == x;
      assert TrackedAt(m.policy.discipline, q, j);
    }
  }

  lemma RingCount(m: Mmu)
    requires FourViews(m) && m.policy.discipline.Clock?
    ensures |m.policy.discipline.ring| == |Resident(m)|
  {
    hide Inverse, PagesAgree, Registered, OneToOne;
    PairsCardinality(m.policy.discipline.ring);
    TablePairsCardinality(m.memory.table);
    assert |m.memory.table.Keys| == |m.memory.table|;
  }

  lemma ClockHit(d: Discipline, p: PageId, f: FrameId, q: PageId, j: nat)
    requires d.WellFormed() && TrackedAt(d, q, j) && p != q && Pair(p, f) in d.Tracked()
    ensures TrackedAt(d.Accessed(p, f), q, j)
    ensures Reprieve(d.Accessed(p, f).ring, d.hand, j) <= Reprieve(d.ring, d.hand, j)
    ensures d.Accessed(p, f).hand == d.hand
  {
    var i :| 0 <= i < |d.ring| && PairOf(d.ring[i]) == Pair(p, f);
    PositionIs(d.ring, i);
    TouchKeepsReprieve(d.ring, d.hand, j, i);
  }

  /** One access to another page while memory is full and `q` stays resident. */
  lemma ClockAccess(m: Mmu, a: MemoryAccess, q: PageId, j: nat) returns (j': nat)
    requires Ready(m) && Full(m) && Target(m, a).Some? && Target(m, a).value != q
    requires TrackedAt(m.policy.discipline, q, j) && q in Resident(Access(m, a).0)
    ensures var (d, m') := (m.policy.discipline, Access(m, a).0);
      && Full(m') && TrackedAt(m'.policy.discipline, q, j')
      && m'.faults - m.faults + Reprieve(m'.policy.discipline.ring, m'.policy.discipline.hand, j') <= Reprieve(d.ring, d.hand, j)
  {
    hide Access, Inverse, PagesAgree, Reprieve;
    var p, d := Target(m, a).value, m.policy.discipline;
    AccessIsTotal(m, a);
    AccessSucceedsIff(m, a);
    StaysFull(m, a);
    if p in m.memory.table {
      AccessHits(m, a, p);
      TablePairsMembers(m.memory.table);
      ClockHit(d, p, m.memory.table[p], q, j);
      j' := j;
    } else {
      var v, f := AccessReplaces(m, a, p);
      TrackedIffResident(m, p);
      ClockReplaces(d.ring, d.hand, p);
      var e := d.ring[VictimIndex(d.ring, d.hand)];
      assert PairOf(e) in Pairs(d.ring);
      TablePairsMembers(m.memory.table);
      FrameHasOnePage(m.memory, v, f);
      assert e.page == v && v != q by { ReplaceResidency(m, a, p, v, f); }
      ReplacementShortensReprieve(d.ring, d.hand, j, p);
      j' := MovedTo(d.ring, d.hand, j);
    }
  }

  lemma StaysFull(m: Mmu, a: MemoryAccess)
    requires Ready(m) && Full(m) && Target(m, a).Some?
    ensures Full(Access(m, a).0)
  {
    hide Access, Inverse, PagesAgree;
    AccessIsTotal(m, a);
    var v, f := ServedResidency(m, a);
    AccessPreserves(m, a);
    ResidentCount(m);
    ResidentCount(Access(m, a).0);
  }

  /** A page that is not accessed stays out once it is out. */
  lemma OutStaysOut(m: Mmu, a: MemoryAccess, q: PageId)
    requires Ready(m) && Target(m, a).Some? && Target(m, a).value != q && q in Resident(Access(m, a).0)
    ensures q in Resident(m)
  {
    hide Access;
    AccessIsTotal(m, a);
    var v, f := ServedResidency(m, a);
  }

  lemma {:induction false} ReprieveRunsDown(m: Mmu, accesses: seq<MemoryAccess>, q: PageId, j: nat, n: nat) returns (j': nat)
    requires Ready(m) && Full(m) && Serviceable(m, accesses) && n <= |accesses|
    requires forall i :: 0 <= i < |accesses| ==> Target(m, accesses[i]) != Some(q)
    requires TrackedAt(m.policy.discipline, q, j) && q in Resident(After(m, accesses, n))
    ensures var (d, m') := (m.policy.discipline, After(m, accesses, n));
      && Full(m') && TrackedAt(m'.policy.discipline, q, j')
      && m'.faults - m.faults + Reprieve(m'.policy.discipline.ring, m'.policy.discipline.hand, j') <= Reprieve(d.ring, d.hand, j)
  {
    hide Access, Ready, Full, Reprieve, Target;
    if n == 0 {
      j' := j;
    } else {
      var before := After(m, accesses, n - 1);
      ReadyAfter(m, accesses, n - 1);
      OutStaysOut(before, accesses[n - 1], q);
      var l := ReprieveRunsDown(m, accesses, q, j, n - 1);
      j' := ClockAccess(before, accesses[n - 1], q, l);
    }
  }

  /** With `k` frames, all full, a resident page that no access names again is evicted
      within `4k - 2` replacements, whatever else is accessed: while it is still resident
      fewer than `4k - 2` faults have happened. */
  lemma ClockEvictsUnusedPage(m: Mmu, accesses: seq<MemoryAccess>, q: PageId)
    requires Ready(m) && Full(m) && m.policy.discipline.Clock? && q in Resident(m)
    requires forall i :: 0 <= i < |accesses| ==> Target(m, accesses[i]) != Some(q)
    requires q in Resident(After(m, accesses, |accesses|))
    ensures After(m, accesses, |accesses|).faults - m.faults < 4 * Capacity(m) - 2
  {
    hide Access, Target, Full, Consistent;
    UnknownAccessesVanish(m, accesses);
    ServedClockEvicts(m, Known(m, accesses), q);
  }

  lemma ServedClockEvicts(m: Mmu, accesses: seq<MemoryAccess>, q: PageId)
    requires Ready(m) && Full(m) && m.policy.discipline.Clock? && q in Resident(m)
    requires Serviceable(m, accesses)
    requires forall i :: 0 <= i < |accesses| ==> Target(m, accesses[i]) != Some(q)
    requires q in Resident(After(m, accesses, |accesses|))
    ensures After(m, accesses, |accesses|).faults - m.faults < 4 * Capacity(m) - 2
  {
    hide Access, Target;
    TrackedIffResident(m, q);
    ResidentCount(m);
    var j: nat :| TrackedAt(m.policy.discipline, q, j);
    var l := ReprieveRunsDown(m, accesses, q, j, |accesses|);
    var d, d' := m.policy.discipline, After(m, accesses, |accesses|).policy.discipline;
    ReprieveBound(d.ring, d.hand, j);
    ReprieveBound(d'.ring, d'.hand, l);
  }
}
