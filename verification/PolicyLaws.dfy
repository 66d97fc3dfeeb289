/** The faults of a run under each policy, as a law on the trace alone: LRU's and FIFO's
    orders, Clock's ring, and FIFO's order again for Optimal when nobody supplied a reference
    sequence. */
module PolicyLaws {
  import opened Core
  import opened Entries
  import opened PolicyModel
  import opened MemoryModel
  import opened MmuModel
  import opened MmuInvariant
  import opened Paging
  import opened OrderTheory
  import opened ClockTheory
  import opened AccessRuns
  import opened PolicyRuns
  import opened ClockRuns

  // ------------------------------------------------------- Optimal without a sequence

  predicate Unsupplied(d: Discipline) {
    d.Optimal? && d.reference == [] && d.position == 0
  }

  /** The residency of an unsupplied Optimal makes a step of FIFO's order. */
  ghost predicate UnsuppliedStep(k: nat, d: Discipline, p: PageId, d': Discipline) {
    Unsupplied(d) && Unsupplied(d') && PagesOf(d'.residency) == FifoStep(k, PagesOf(d.residency), p)
  }

  lemma UnsuppliedLoads(k: nat, d: Discipline, p: PageId, f: FrameId)
    requires Unsupplied(d) && |d.residency| < k
    requires forall x :: x in Pairs(d.residency) ==> x.page != p && x.frame != f
    ensures UnsuppliedStep(k, d, p, d.Accessed(p, f).Loaded(p, f))
  {
    UnmentionedLoad(d.residency, p, f, d.nextOrder);
    AbsentPage(d.residency, p);
  }

  /** Nothing is used again, so the first entry is as far as any. */
  lemma UnsuppliedReplaces(k: nat, d: Discipline, p: PageId)
    requires Unsupplied(d) && OneToOne(d.residency) && |d.residency| == k >= 1
    requires forall x :: x in Pairs(d.residency) ==> x.page != p
    ensures var e := d.residency[0];
      && d.ChooseVictim().1 == Some(e.frame)
      && UnsuppliedStep(k, d, p, d.ChooseVictim().0.Removed(e.page, e.frame).Accessed(p, e.frame).Loaded(p, e.frame))
  {
    hide OneToOne, Pairs, Farthest, Erase;
    var s, e := d.residency, d.residency[0];
    NothingFarther(s);
    FrontLeaves(s);
    UnmentionedLoad(s[1..], p, e.frame, d.nextOrder);
    AbsentPage(s, p);
  }

  lemma NothingFarther(s: seq<Entry<nat>>)
    requires s != []
    ensures Farthest(s, [], 0, |s|) == 0
  {
    var i := Farthest(s, [], 0, |s|);
    assert Next([], 0, s[0].page) == 0 == Next([], 0, s[i].page);
  }

  lemma AbsentPage<T>(s: seq<Entry<T>>, p: PageId)
    requires forall x :: x in Pairs(s) ==> x.page != p
    ensures p !in PagesOf(s)
  {
    assert forall i :: 0 <= i < |s| ==> PairOf(s[i]) in Pairs(s);
  }

  lemma UnmentionedLoad(s: seq<Entry<nat>>, p: PageId, f: FrameId, order: nat)
    requires forall x :: x in Pairs(s) ==> x.page != p && x.frame != f
    ensures !Mentions(s, p, f)
    ensures PagesOf(s + [Entry(p, f, order)]) == PagesOf(s) + [p]
  {
    MentionsPairs(s, p, f);
  }

  lemma UnsuppliedAccess(m: Mmu, a: MemoryAccess)
    requires Ready(m) && Target(m, a).Some? && Unsupplied(m.policy.discipline)
    ensures UnsuppliedStep(Capacity(m), m.policy.discipline, Target(m, a).value, Access(m, a).0.policy.discipline)
  {
    hide Access, Inverse, PagesAgree, UnsuppliedStep, OneToOne;
    var p, d, k := Target(m, a).value, m.policy.discipline, Capacity(m);
    AccessIsTotal(m, a);
    AccessSucceedsIff(m, a);
    ResidentCount(m);
    ListHoldsTable(d.residency, m.memory.table);
    if p in m.memory.table {
      AccessHits(m, a, p);
      UnsuppliedHits(k, d, p, m.memory.table[p]);
    } else if !Full(m) {
      var f := AccessLoads(m, a, p);
      FrameUnused(m.memory, f);
      UnsuppliedLoads(k, d, p, f);
    } else {
      var v, f := AccessReplaces(m, a, p);
      UnsuppliedReplaces(k, d, p);
      FrameHasOnePage(m.memory, v, f);
      assert PairOf(d.residency[0]) in Pairs(d.residency);
    }
  }

  lemma UnsuppliedHits(k: nat, d: Discipline, p: PageId, f: FrameId)
    requires Unsupplied(d) && p in PagesOf(d.residency)
    ensures UnsuppliedStep(k, d, p, d.Accessed(p, f))
  {
  }

  // ------------------------------------------------------------------------- Clock

  /** Ring and hand, without the frames. */
  datatype ClockState = ClockState(ring: Ring, hand: nat)

  function Bare(ring: Ring): (r: Ring)
    ensures |r| == |ring|
    ensures forall i :: 0 <= i < |ring| ==> r[i] == Entry(ring[i].page, 0, ring[i].tag)
  {
    seq(|ring|, i requires 0 <= i < |ring| => Entry(ring[i].page, 0, ring[i].tag))
  }

  /** A reference sets the bit of a page in the ring, appends a page while there is room, and
      otherwise replaces the first clear entry from the hand. */
  function ClockStep(k: nat, c: ClockState, p: PageId): ClockState {
    var i := IndexOf(PagesOf(c.ring), p);
    if i < |c.ring| then ClockState(c.ring[i := Entry(p, 0, true)], c.hand)
    else if |c.ring| < k || c.hand >= |c.ring| then ClockState(c.ring + [Entry(p, 0, true)], c.hand)
    else ClockState(ReplacedRing(c.ring, c.hand, p), ReplacedHand(c.ring, c.hand))
  }

  function ClockOrder(k: nat, t: Trace, n: nat): ClockState
    requires n <= |t|
  {
    if n == 0 then ClockState([], 0) else ClockStep(k, ClockOrder(k, t, n - 1), t[n - 1])
  }

  function ClockResidency(k: nat, t: Trace): Residency {
    seq(|t| + 1, i requires 0 <= i <= |t| => Elements(PagesOf(ClockOrder(k, t, i).ring)))
  }

  function StateOf(d: Discipline): ClockState
    requires d.Clock?
  {
    ClockState(Bare(d.ring), d.hand)
  }

  lemma BarePages(ring: Ring)
    ensures PagesOf(Bare(ring)) == PagesOf(ring)
  {
  }

  lemma {:induction false} BareSteps(ring: Ring, hand: nat, j: nat)
    requires hand < |ring| && j <= |ring|
    ensures StepsToClear(Bare(ring), hand, j) == StepsToClear(ring, hand, j)
    decreases |ring| - j
  {
    if j < |ring| && ring[At(|ring|, hand, j)].tag {
      BareSteps(ring, hand, j + 1);
    }
  }

  lemma BareReplaced(ring: Ring, hand: nat, p: PageId)
    requires hand < |ring|
    ensures ReplacedRing(Bare(ring), hand, p) == Bare(ReplacedRing(ring, hand, p))
    ensures ReplacedHand(Bare(ring), hand) == ReplacedHand(ring, hand)
  {
    BareSteps(ring, hand, 0);
    var s, v := StepsToClear(ring, hand, 0), VictimIndex(ring, hand);
    assert SpareFirst(Bare(ring), hand, s) == Bare(SpareFirst(ring, hand, s));
    BareWithout(SpareFirst(ring, hand, s), v, Entry(p, ring[v].frame, true));
  }

  lemma BareWithout(ring: Ring, v: nat, e: Entry<bool>)
    requires v < |ring|
    ensures RemoveAt(Bare(ring), v) + [Entry(e.page, 0, e.tag)] == Bare(RemoveAt(ring, v) + [e])
  {
  }

  /** Ring and hand after a reference to `p`. */
  ghost predicate ClockFollows(k: nat, d: Discipline, p: PageId, d': Discipline) {
    d.Clock? && d'.Clock? && StateOf(d') == ClockStep(k, StateOf(d), p)
  }

  lemma ClockHits(k: nat, d: Discipline, p: PageId, f: FrameId)
    requires d.Clock? && OneToOne(d.ring) && Pair(p, f) in Pairs(d.ring)
    ensures ClockFollows(k, d, p, d.Accessed(p, f))
  {
    BarePages(d.ring);
    PagesMatch(d.ring, p, f);
    var i := Position(d.ring, p, f);
    assert Bare(d.Accessed(p, f).ring) == Bare(d.ring)[i := Entry(p, 0, true)];
  }

  lemma ClockLoads(k: nat, d: Discipline, p: PageId, f: FrameId)
    requires d.Clock? && HandInRange(d.ring, d.hand) && |d.ring| < k
    requires forall x :: x in Pairs(d.ring) ==> x.page != p && x.frame != f
    ensures ClockFollows(k, d, p, d.Accessed(p, f).Loaded(p, f))
  {
    BarePages(d.ring);
    MentionsPairs(d.ring, p, f);
    assert forall i :: 0 <= i < |d.ring| ==> PairOf(d.ring[i]) in Pairs(d.ring);
    PositionAbsent(d.ring, p, f);
    assert Bare(d.ring + [Entry(p, f, true)]) == Bare(d.ring) + [Entry(p, 0, true)];
  }

  lemma ClockReplacesFollow(k: nat, d: Discipline, p: PageId)
    requires d.Clock? && OneToOne(d.ring) && d.hand < |d.ring| == k && forall i :: 0 <= i < |d.ring| ==> d.ring[i].page != p
    ensures var e := d.ring[VictimIndex(d.ring, d.hand)];
      && d.ChooseVictim().1 == Some(e.frame)
      && ClockFollows(k, d, p, d.ChooseVictim().0.Removed(e.page, e.frame).Accessed(p, e.frame).Loaded(p, e.frame))
  {
    hide ReplacedRing, VictimIndex, StepsToClear;
    BarePages(d.ring);
    ClockReplaces(d.ring, d.hand, p);
    BareReplaced(d.ring, d.hand, p);
  }

  lemma ClockAccessFollows(m: Mmu, a: MemoryAccess)
    requires Ready(m) && Target(m, a).Some? && m.policy.discipline.Clock?
    ensures ClockFollows(Capacity(m), m.policy.discipline, Target(m, a).value, Access(m, a).0.policy.discipline)
  {
    hide Access, Inverse, PagesAgree, ClockFollows, OneToOne;
    var p, d, k := Target(m, a).value, m.policy.discipline, Capacity(m);
    AccessIsTotal(m, a);
    AccessSucceedsIff(m, a);
    ResidentCount(m);
    ListHoldsTable(d.ring, m.memory.table);
    TrackedIffResident(m, p);
    if p in m.memory.table {
      AccessHits(m, a, p);
      ClockHits(k, d, p, m.memory.table[p]);
    } else if !Full(m) {
      var f := AccessLoads(m, a, p);
      FrameUnused(m.memory, f);
      ClockLoads(k, d, p, f);
    } else {
      var v, f := AccessReplaces(m, a, p);
      ClockReplacesFollow(k, d, p);
      FrameHasOnePage(m.memory, v, f);
      assert PairOf(d.ring[VictimIndex(d.ring, d.hand)]) in Pairs(d.ring);
    }
  }

  // ----------------------------------------------------------------------- the law

  /** The resident sets that a policy of this kind goes through on a trace. */
  function LawOf(d: Discipline, k: nat, t: Trace): Residency
    requires !d.Foreign?
  {
    match d
    case Fifo(_) => FifoResidency(k, t)
    case Lru(_) => LruResidency(k, t)
    case Clock(_, _) => ClockResidency(k, t)
    case Optimal(_, _, _, _) => FifoResidency(k, t)
  }

  /** A unit over empty memory with a policy of the repository, Optimal unsupplied. */
  ghost predicate Fresh(m: Mmu, accesses: seq<MemoryAccess>) {
    && Ready(m) && Resident(m) == {} && Serviceable(m, accesses)
    && (m.policy.discipline.Optimal? ==> Unsupplied(m.policy.discipline))
  }

  /** The policy's own state is the one the law reaches after `n` references. */
  ghost predicate Lawful(d0: Discipline, k: nat, d: Discipline, t: Trace, n: nat) {
    n <= |t| &&
    match d0
    case Fifo(_) => d.Fifo? && PagesOf(d.queue) == FifoOrder(k, t, n)
    case Lru(_) => d.Lru? && PagesOf(d.list) == LruOrder(k, t, n)
    case Clock(_, _) => d.Clock? && StateOf(d) == ClockOrder(k, t, n)
    case Optimal(_, _, _, _) => Unsupplied(d) && PagesOf(d.residency) == FifoOrder(k, t, n)
    case Foreign(_) => false
  }

  lemma StartLawful(m: Mmu, accesses: seq<MemoryAccess>)
    requires Fresh(m, accesses)
    ensures Lawful(m.policy.discipline, Capacity(m), m.policy.discipline, TraceOf(m, accesses), 0)
  {
    var d := m.policy.discipline;
    assert m.memory.table == map[];
    match d
    case Fifo(s) => ListHoldsTable(s, m.memory.table);
    case Lru(s) => ListHoldsTable(s, m.memory.table);
    case Clock(s, _) => ListHoldsTable(s, m.memory.table);
    case Optimal(s, _, _, _) => ListHoldsTable(s, m.memory.table);
  }

  lemma LawfulStep(m: Mmu, a: MemoryAccess, d0: Discipline, t: Trace, n: nat)
    requires Ready(m) && n < |t| && Target(m, a) == Some(t[n]) && Lawful(d0, Capacity(m), m.policy.discipline, t, n)
    ensures Lawful(d0, Capacity(m), Access(m, a).0.policy.discipline, t, n + 1)
  {
    hide Access, Ready, Target;
    match d0
    case Fifo(_) => AccessOrder(m, a);
    case Lru(_) => AccessOrder(m, a);
    case Clock(_, _) => ClockAccessFollows(m, a);
    case Optimal(_, _, _, _) => UnsuppliedAccess(m, a);
  }

  lemma {:induction false} RunLawful(m: Mmu, accesses: seq<MemoryAccess>, n: nat)
    requires Fresh(m, accesses) && n <= |accesses|
    ensures Lawful(m.policy.discipline, Capacity(m), After(m, accesses, n).policy.discipline, TraceOf(m, accesses), n)
  {
    hide Access, Ready, Target, Lawful;
    if n == 0 {
      StartLawful(m, accesses);
    } else {
      RunLawful(m, accesses, n - 1);
      ReadyAfter(m, accesses, n - 1);
      LawfulStep(After(m, accesses, n - 1), accesses[n - 1], m.policy.discipline, TraceOf(m, accesses), n - 1);
    }
  }

  lemma ResidentByLaw(m: Mmu, d0: Discipline, k: nat, t: Trace, n: nat)
    requires FourViews(m) && !d0.Foreign? && Lawful(d0, k, m.policy.discipline, t, n)
    ensures Resident(m) == LawOf(d0, k, t)[n]
  {
    match m.policy.discipline
    case Fifo(s) => ListHoldsTable(s, m.memory.table);
    case Lru(s) => ListHoldsTable(s, m.memory.table);
    case Clock(s, _) => ListHoldsTable(s, m.memory.table); BarePages(s);
    case Optimal(s, _, _, _) => ListHoldsTable(s, m.memory.table);
  }

  /** On any run from empty memory the resident sets are those of the policy's law, so the
      faults are the law's, and the results report them reference by reference. */
  lemma RunObeysLaw(m: Mmu, accesses: seq<MemoryAccess>)
    requires Fresh(m, accesses)
    ensures !m.policy.discipline.Foreign?
    ensures ResidencyOf(m, accesses) == LawOf(m.policy.discipline, Capacity(m), TraceOf(m, accesses))
    ensures After(m, accesses, |accesses|).faults - m.faults
         == Faults(TraceOf(m, accesses), LawOf(m.policy.discipline, Capacity(m), TraceOf(m, accesses)))
  {
    hide Access, Ready, Target, LawOf, Lawful, FourViews;
    var d0, k, t := m.policy.discipline, Capacity(m), TraceOf(m, accesses);
    LawfulKind(m);
    LawLength(d0, k, t);
    forall n | 0 <= n <= |accesses|
      ensures ResidencyOf(m, accesses)[n] == LawOf(d0, k, t)[n]
    {
      RunLawful(m, accesses, n);
      ReadyAfter(m, accesses, n);
      LawfulKind(After(m, accesses, n));
      ResidentByLaw(After(m, accesses, n), d0, k, t, n);
      ResidencyAt(m, accesses, n);
    }
    ReadyServesAll(m, accesses);
    RunCountsFaults(m, accesses, |accesses|);
  }

  lemma LawfulKind(m: Mmu)
    requires Ready(m)
    ensures FourViews(m) && !m.policy.discipline.Foreign?
  {
  }

  lemma LawLength(d: Discipline, k: nat, t: Trace)
    requires !d.Foreign?
    ensures |LawOf(d, k, t)| == |t| + 1
  {
  }

  /** Without a reference sequence Optimal is FIFO: on the same pages, with as many frames, it
      faults at the same references. */
  lemma UnsuppliedOptimalIsFifo(m: Mmu, accesses: seq<MemoryAccess>, other: Mmu, others: seq<MemoryAccess>)
    requires Fresh(m, accesses) && m.policy.discipline.Optimal?
    requires Fresh(other, others) && other.policy.discipline.Fifo?
    requires Capacity(other) == Capacity(m) && TraceOf(other, others) == TraceOf(m, accesses)
    ensures ResidencyOf(m, accesses) == ResidencyOf(other, others)
    ensures After(m, accesses, |accesses|).faults - m.faults == After(other, others, |others|).faults - other.faults
  {
    hide Ready, Serviceable, Unsupplied, LawOf, After, ResidencyOf, TraceOf;
    RunObeysLaw(m, accesses);
    RunObeysLaw(other, others);
    SameLaw(m.policy.discipline, other.policy.discipline, Capacity(m), TraceOf(m, accesses));
  }

  lemma SameLaw(d: Discipline, d': Discipline, k: nat, t: Trace)
    requires d.Optimal? && d'.Fifo?
    ensures LawOf(d, k, t) == LawOf(d', k, t)
  {
  }
}
