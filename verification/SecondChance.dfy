/** What a reference bit of the Clock policy remembers: it is set exactly when its page was
    loaded or accessed since the hand last passed it, so a page just accessed is the next
    victim only when every tracked page has been. */
module SecondChance {
  import opened Core
  import opened Entries
  import opened PolicyModel
  import opened MemoryModel
  import opened MmuModel
  import opened MmuInvariant
  import opened MmuRuns
  import opened ClockTheory
  import opened ClockRuns

  // --------------------------------------------------------------- one operation

  /** The operation loads or accesses page `p`. */
  ghost predicate Touches(m: Mmu, op: Op, p: PageId) {
    op.DoAccess? && Access(m, op.access).1.success && Target(m, op.access) == Some(p)
  }

  /** The operation asks the policy for a victim, and the hand moves across the entry of `p`
      on its way to the first clear entry, or comes to rest behind it. */
  ghost predicate HandPasses(m: Mmu, op: Op, p: PageId) {
    op.DoAccess? && Replaces(m, op.access) && m.policy.discipline.Clock?
    && Passed(m.policy.discipline.ring, m.policy.discipline.hand, p)
  }

  predicate Replaces(m: Mmu, a: MemoryAccess) {
    Target(m, a).Some? && Target(m, a).value !in m.memory.table && Full(m)
  }

  ghost predicate Passed(ring: Ring, hand: nat, p: PageId) {
    hand < |ring| && exists l :: 0 <= l <= StepsToClear(ring, hand, 0) && PassedAt(ring, hand, p, l)
  }

  predicate PassedAt(ring: Ring, hand: nat, p: PageId, l: nat)
    requires hand < |ring| && l <= |ring|
  {
    ring[At(|ring|, hand, l)].page == p
  }

  /** Entry `e` after an operation that touches or passes its page, or does neither. */
  ghost predicate Remembers(ring: Ring, e: Entry<bool>, touched: bool, passed: bool) {
    if touched then e.tag else exists j :: 0 <= j < |ring| && RemembersFrom(ring[j], e, passed)
  }

  predicate RemembersFrom(before: Entry<bool>, e: Entry<bool>, passed: bool) {
    PairOf(before) == PairOf(e) && e.tag == (before.tag && !passed)
  }

  lemma HitBits(ring: Ring, hand: nat, p: PageId, f: FrameId)
    requires OneToOne(ring) && Pair(p, f) in Pairs(ring)
    ensures var d := Clock(ring, hand).Accessed(p, f);
      d.Clock? && forall i :: 0 <= i < |d.ring| ==> Remembers(ring, d.ring[i], d.ring[i].page == p, false)
  {
    var k :| 0 <= k < |ring| && PairOf(ring[k]) == Pair(p, f);
    PositionIs(ring, k);
    var d := Clock(ring, hand).Accessed(p, f);
    forall i | 0 <= i < |d.ring|
      ensures Remembers(ring, d.ring[i], d.ring[i].page == p, false)
    {
      if d.ring[i].page != p {
        assert RemembersFrom(ring[i], d.ring[i], false);
      }
    }
  }

  lemma LoadBits(ring: Ring, hand: nat, p: PageId, f: FrameId)
    requires forall i :: 0 <= i < |ring| ==> ring[i].page != p && ring[i].frame != f
    ensures var d := Clock(ring, hand).Accessed(p, f).Loaded(p, f);
      d.Clock? && forall i :: 0 <= i < |d.ring| ==> Remembers(ring, d.ring[i], d.ring[i].page == p, false)
  {
    PositionAbsent(ring, p, f);
    var d := Clock(ring, hand).Accessed(p, f).Loaded(p, f);
    assert d.ring == ring + [Entry(p, f, true)];
    forall i | 0 <= i < |d.ring|
      ensures Remembers(ring, d.ring[i], d.ring[i].page == p, false)
    {
      if i < |ring| {
        assert RemembersFrom(ring[i], d.ring[i], false);
      }
    }
  }

  /** The traversal clears the bits of what it passes; the entry it stops at is clear. */
  lemma SweptEntry(ring: Ring, hand: nat, i: nat)
    requires OneToOne(ring) && hand < |ring| && i < |ring|
    ensures RemembersFrom(ring[i], SpareFirst(ring, hand, StepsToClear(ring, hand, 0))[i], Passed(ring, hand, ring[i].page))
  {
    var n, s, d := |ring|, StepsToClear(ring, hand, 0), Distance(|ring|, hand, i);
    if d <= s {
      assert PassedAt(ring, hand, ring[i].page, d);
    } else {
      forall l | 0 <= l <= s
        ensures !PassedAt(ring, hand, ring[i].page, l)
      {
        assert At(n, hand, l) != i;
      }
    }
  }

  lemma ChoiceBits(ring: Ring, hand: nat)
    requires OneToOne(ring) && hand < |ring|
    ensures var d := Clock(ring, hand).ChooseVictim().0;
      d.Clock? && forall i :: 0 <= i < |d.ring| ==> Remembers(ring, d.ring[i], false, Passed(ring, hand, d.ring[i].page))
  {
    SweepSelects(ring, hand, 2 * |ring|);
    var d := Clock(ring, hand).ChooseVictim().0;
    forall i | 0 <= i < |d.ring|
      ensures Remembers(ring, d.ring[i], false, Passed(ring, hand, d.ring[i].page))
    {
      SweptEntry(ring, hand, i);
    }
  }

  lemma ReplaceBits(ring: Ring, hand: nat, p: PageId)
    requires OneToOne(ring) && hand < |ring| && forall i :: 0 <= i < |ring| ==> ring[i].page != p
    ensures var after := ReplacedRing(ring, hand, p);
      forall i :: 0 <= i < |after| ==> Remembers(ring, after[i], after[i].page == p, Passed(ring, hand, after[i].page))
  {
    var after, v := ReplacedRing(ring, hand, p), VictimIndex(ring, hand);
    var spared := SpareFirst(ring, hand, StepsToClear(ring, hand, 0));
    forall i | 0 <= i < |after|
      ensures Remembers(ring, after[i], after[i].page == p, Passed(ring, hand, after[i].page))
    {
      if i < |ring| - 1 {
        var j := if i < v then i else i + 1;
        assert after[i] == spared[j];
        SweptEntry(ring, hand, j);
      }
    }
  }

  /** Every entry after an operation, by what the operation did to its page. */
  ghost predicate BitsFollow(m: Mmu, op: Op, m': Mmu) {
    && m.policy.discipline.Clock? && m'.policy.discipline.Clock?
    && forall i :: 0 <= i < |m'.policy.discipline.ring| ==> BitFollows(m, op, m'.policy.discipline.ring[i])
  }

  ghost predicate BitFollows(m: Mmu, op: Op, e: Entry<bool>)
    requires m.policy.discipline.Clock?
  {
    Remembers(m.policy.discipline.ring, e, Touches(m, op, e.page), HandPasses(m, op, e.page))
  }

  lemma AccessBits(m: Mmu, a: MemoryAccess)
    requires FourViews(m) && m.policy.discipline.Clock?
    ensures BitsFollow(m, DoAccess(a), Access(m, a).0)
  {
    hide Access, FourViews, BitsFollow, Hit, Load, Replace, UsableVictim, Full;
    assert Consistent(m) by { ViewsConsistent(m); }
    AccessSucceedsIff(m, a);
    if !Access(m, a).1.success {
      RefusedBits(m, a);
    } else {
      var p := Target(m, a).value;
      if p in m.memory.table {
        AccessHits(m, a, p);
        HitFollows(m, a, p);
      } else if !Full(m) {
        var f := AccessLoads(m, a, p);
        LoadFollows(m, a, p, f);
      } else {
        var v, f := AccessReplaces(m, a, p);
        ReplacedBits(m, a, p, v, f);
      }
    }
  }

  lemma ViewsConsistent(m: Mmu)
    requires FourViews(m)
    ensures Consistent(m)
  {
  }

  lemma HitFollows(m: Mmu, a: MemoryAccess, p: PageId)
    requires FourViews(m) && m.policy.discipline.Clock? && Target(m, a) == Some(p)
    requires p in m.memory.table && p in m.pages
    requires Access(m, a).0 == Hit(m, a, p) && Access(m, a).1.success
    ensures BitsFollow(m, DoAccess(a), Access(m, a).0)
  {
    hide Access, Inverse, PagesAgree, Registered, Passed, Remembers;
    TablePairsMembers(m.memory.table);
    HitBits(m.policy.discipline.ring, m.policy.discipline.hand, p, m.memory.table[p]);
  }

  lemma LoadFollows(m: Mmu, a: MemoryAccess, p: PageId, f: FrameId)
    requires FourViews(m) && m.policy.discipline.Clock? && Target(m, a) == Some(p) && p !in m.memory.table && !Full(m)
    requires p in m.pages && f < |m.memory.frames| && m.memory.frames[f].None?
    requires Access(m, a).0 == Load(m, a, p, f) && Access(m, a).1.success
    ensures BitsFollow(m, DoAccess(a), Access(m, a).0)
  {
    hide Access, Inverse, PagesAgree, Registered, OneToOne, Passed, Remembers;
    TrackedIffResident(m, p);
    FrameUntracked(m, f);
    LoadBits(m.policy.discipline.ring, m.policy.discipline.hand, p, f);
  }

  lemma FrameUntracked(m: Mmu, f: FrameId)
    requires FourViews(m) && m.policy.discipline.Clock? && f < |m.memory.frames| && m.memory.frames[f].None?
    ensures var ring := m.policy.discipline.ring; forall i :: 0 <= i < |ring| ==> ring[i].frame != f
  {
    var ring := m.policy.discipline.ring;
    FrameUnused(m.memory, f);
    TablePairsMembers(m.memory.table);
    assert forall i :: 0 <= i < |ring| ==> PairOf(ring[i]) in Pairs(ring);
  }

  lemma FullRing(m: Mmu)
    requires FourViews(m) && m.policy.discipline.Clock? && Full(m) && |m.memory.frames| > 0
    ensures m.policy.discipline.hand < |m.policy.discipline.ring|
  {
    ViewsHaveEqualSize(m);
    PairsCardinality(m.policy.discipline.ring);
  }

  lemma ReplacedBits(m: Mmu, a: MemoryAccess, p: PageId, v: PageId, f: FrameId)
    requires FourViews(m) && m.policy.discipline.Clock? && Target(m, a) == Some(p) && p !in m.memory.table && Full(m)
    requires p in m.pages && v in m.pages && f < |m.memory.frames| && m.memory.frames[f] == Some(v) && Lookup(m.memory, v) == Some(f)
    requires m.policy.ChooseVictim().1 == Some(f)
    requires Access(m, a).0 == Replace(m, a, p, v, f) && Access(m, a).1.success
    ensures BitsFollow(m, DoAccess(a), Access(m, a).0)
  {
    hide Access, Inverse, PagesAgree, Registered, Passed, Remembers;
    var d := m.policy.discipline;
    FullRing(m);
    TrackedIffResident(m, p);
    ClockReplaces(d.ring, d.hand, p);
    var e := d.ring[VictimIndex(d.ring, d.hand)];
    assert PairOf(e) in Pairs(d.ring);
    TablePairsMembers(m.memory.table);
    FrameHasOnePage(m.memory, v, f);
    ReplaceBits(d.ring, d.hand, p);
  }

  lemma RefusedBits(m: Mmu, a: MemoryAccess)
    requires FourViews(m) && m.policy.discipline.Clock? && !Access(m, a).1.success
    ensures BitsFollow(m, DoAccess(a), Access(m, a).0)
  {
    hide Access, Inverse, PagesAgree, Registered, OneToOne, Passed, Remembers;
    var d := m.policy.discipline;
    AccessSucceedsIff(m, a);
    AccessRefused(m, a);
    if Target(m, a).None? {
      SameBits(m, DoAccess(a));
    } else if d.ring == [] {
      assert Access(m, a).0.policy.discipline.ring == [];
    } else {
      RingHand(d);
      ChoiceBits(d.ring, d.hand);
    }
  }

  lemma RingHand(d: Discipline)
    requires d.Clock? && d.WellFormed() && d.ring != []
    ensures d.hand < |d.ring|
  {
  }

  /** An operation that neither touches nor passes anything leaves the bits. */
  lemma SameBits(m: Mmu, op: Op)
    requires m.policy.discipline.Clock? && forall p :: !Touches(m, op, p) && !HandPasses(m, op, p)
    ensures BitsFollow(m, op, m)
  {
    hide Touches, HandPasses;
    var ring := m.policy.discipline.ring;
    forall i | 0 <= i < |ring|
      ensures BitFollows(m, op, ring[i])
    {
      assert RemembersFrom(ring[i], ring[i], false);
    }
  }

  /** Any operation: an entry is set if its page was touched, keeps its bit if the hand did
      not pass it, and is clear otherwise. */
  lemma StepBits(m: Mmu, op: Op, m': Mmu)
    requires FourViews(m) && m.policy.discipline.Clock? && Step(m, op, m')
    ensures BitsFollow(m, op, m')
  {
    hide Access, BitsFollow, FourViews;
    match op
    case DoAccess(a) => AccessBits(m, a);
    case DoReset => ResetBits(m, op, m');
    case Register(_) => OtherBits(m, op, m');
    case RegisterAt(_, _) => OtherBits(m, op, m');
    case Supply(_) =>
  }

  lemma ResetBits(m: Mmu, op: Op, m': Mmu)
    requires FourViews(m) && m.policy.discipline.Clock? && op.DoReset? && Step(m, op, m')
    ensures BitsFollow(m, op, m')
  {
    var order :| ResetTo(m, order, m');
    ResetIsAsNew(m, order);
  }

  lemma OtherBits(m: Mmu, op: Op, m': Mmu)
    requires m.policy.discipline.Clock? && (op.Register? || op.RegisterAt?) && m'.policy == m.policy
    ensures BitsFollow(m, op, m')
  {
    SameBits(m, op);
  }

  // ------------------------------------------------------------------- whole runs

  /** Page `p` was touched before operation `n`, and the hand has not passed it since. */
  ghost predicate TouchedSincePass(states: seq<Mmu>, ops: seq<Op>, n: nat, p: PageId)
    requires n <= |ops| < |states|
  {
    exists i :: 0 <= i < n && Touches(states[i], ops[i], p) && NoPass(states, ops, i, n, p)
  }

  ghost predicate NoPass(states: seq<Mmu>, ops: seq<Op>, i: nat, n: nat, p: PageId)
    requires n <= |ops| < |states|
  {
    forall j :: i < j < n ==> !HandPasses(states[j], ops[j], p)
  }

  lemma TouchedStep(states: seq<Mmu>, ops: seq<Op>, n: nat, p: PageId)
    requires 0 < n <= |ops| < |states|
    ensures TouchedSincePass(states, ops, n, p) <==>
      || Touches(states[n - 1], ops[n - 1], p)
      || (TouchedSincePass(states, ops, n - 1, p) && !HandPasses(states[n - 1], ops[n - 1], p))
  {
    hide Touches, HandPasses;
    if Touches(states[n - 1], ops[n - 1], p) {
      assert NoPass(states, ops, n - 1, n, p);
    }
    if TouchedSincePass(states, ops, n, p) && !Touches(states[n - 1], ops[n - 1], p) {
      var i :| 0 <= i < n && Touches(states[i], ops[i], p) && NoPass(states, ops, i, n, p);
      assert NoPass(states, ops, i, n - 1, p);
    }
    if TouchedSincePass(states, ops, n - 1, p) && !HandPasses(states[n - 1], ops[n - 1], p) {
      var i :| 0 <= i < n - 1 && Touches(states[i], ops[i], p) && NoPass(states, ops, i, n - 1, p);
      assert NoPass(states, ops, i, n, p);
    }
  }

  ghost predicate BitsExplained(states: seq<Mmu>, ops: seq<Op>, n: nat)
    requires n <= |ops| < |states|
  {
    var d := states[n].policy.discipline;
    d.Clock? && forall i :: 0 <= i < |d.ring| ==> (d.ring[i].tag <==> TouchedSincePass(states, ops, n, d.ring[i].page))
  }

  /** At every point of any run of operations that starts with an empty ring, a reference bit
      is set exactly when its page was loaded or accessed since the hand last passed it. */
  lemma {:induction false} BitsRememberTouches(states: seq<Mmu>, ops: seq<Op>, n: nat)
    requires Run(states, ops) && n <= |ops| && FourViews(states[0]) && states[0].policy.discipline == Clock([], 0)
    ensures FourViews(states[n]) && BitsExplained(states, ops, n)
  {
    hide Step, FourViews, BitFollows, TouchedSincePass;
    if n > 0 {
      BitsRememberTouches(states, ops, n - 1);
      assert StepAt(states, ops, n - 1);
      StepViews(states[n - 1], ops[n - 1], states[n]);
      StepBits(states[n - 1], ops[n - 1], states[n]);
      forall i | 0 <= i < |states[n].policy.discipline.ring|
        ensures var e := states[n].policy.discipline.ring[i]; e.tag <==> TouchedSincePass(states, ops, n, e.page)
      {
        ExplainedStep(states, ops, n, states[n].policy.discipline.ring[i]);
      }
    }
  }

  lemma StepViews(m: Mmu, op: Op, m': Mmu)
    requires FourViews(m) && Step(m, op, m')
    ensures FourViews(m')
  {
    StepPreserves(m, op, m');
  }

  lemma ExplainedStep(states: seq<Mmu>, ops: seq<Op>, n: nat, e: Entry<bool>)
    requires 0 < n <= |ops| < |states| && BitsExplained(states, ops, n - 1) && BitFollows(states[n - 1], ops[n - 1], e)
    ensures e.tag <==> TouchedSincePass(states, ops, n, e.page)
  {
    hide Touches, HandPasses, TouchedSincePass;
    TouchedStep(states, ops, n, e.page);
  }

  // --------------------------------------------------------------- the second chance

  /** Right after an access to page `p` the policy names its frame only if the bit of every
      tracked page is set; a page whose bit is clear goes before it. */
  lemma AccessGivesSecondChance(m: Mmu, a: MemoryAccess, p: PageId)
    requires FourViews(m) && m.policy.discipline.Clock? && Access(m, a).1.success && Target(m, a) == Some(p)
    ensures Access(m, a).0.policy.discipline.Clock? && p in Access(m, a).0.memory.table
    ensures var (m', ring) := (Access(m, a).0, Access(m, a).0.policy.discipline.ring);
      m'.policy.ChooseVictim().1 == Some(m'.memory.table[p]) ==> forall i :: 0 <= i < |ring| ==> ring[i].tag
  {
    hide Access, Inverse, PagesAgree, Registered, Touches, HandPasses;
    AccessBits(m, a);
    AccessPreserves(m, a);
    ServedIsResident(m, a);
    AccessTouches(m, a);
    NamedOnlyWhenAllSet(Access(m, a).0, p);
  }

  lemma ServedIsResident(m: Mmu, a: MemoryAccess)
    requires FourViews(m) && Access(m, a).1.success
    ensures Target(m, a).Some? && Target(m, a).value in Access(m, a).0.memory.table
  {
    hide Access, Inverse, PagesAgree;
    AccessSucceedsIff(m, a);
    var p := Target(m, a).value;
    if p in m.memory.table {
      AccessHits(m, a, p);
    } else if !Full(m) {
      var f := AccessLoads(m, a, p);
    } else {
      var v, f := AccessReplaces(m, a, p);
    }
  }

  lemma AccessTouches(m: Mmu, a: MemoryAccess)
    requires m.policy.discipline.Clock? && Access(m, a).1.success && Target(m, a).Some?
    requires BitsFollow(m, DoAccess(a), Access(m, a).0)
    ensures var d := Access(m, a).0.policy.discipline;
      d.Clock? && forall i :: 0 <= i < |d.ring| && d.ring[i].page == Target(m, a).value ==> d.ring[i].tag
  {
    hide Access;
    var d, op := Access(m, a).0.policy.discipline, DoAccess(a);
    forall i | 0 <= i < |d.ring| && d.ring[i].page == Target(m, a).value
      ensures d.ring[i].tag
    {
      assert BitFollows(m, op, d.ring[i]);
    }
  }

  lemma NamedOnlyWhenAllSet(m: Mmu, p: PageId)
    requires FourViews(m) && m.policy.discipline.Clock? && p in m.memory.table
    requires var ring := m.policy.discipline.ring; forall i :: 0 <= i < |ring| && ring[i].page == p ==> ring[i].tag
    ensures m.policy.ChooseVictim().1 == Some(m.memory.table[p])
        ==> var ring := m.policy.discipline.ring; forall i :: 0 <= i < |ring| ==> ring[i].tag
  {
    hide PagesAgree, Registered, Sweep;
    var d := m.policy.discipline;
    TrackedIffResident(m, p);
    TablePairsMembers(m.memory.table);
    if d.ring != [] {
      SweepSelects(d.ring, d.hand, 2 * |d.ring|);
      var v := VictimIndex(d.ring, d.hand);
      assert PairOf(d.ring[v]) in Pairs(d.ring);
      AllSetBehind(d.ring, d.hand);
      if m.policy.ChooseVictim().1 == Some(m.memory.table[p]) {
        FrameOfPage(m.memory, d.ring[v].page, p);
      }
    }
  }

  lemma FrameOfPage(memory: Memory, q: PageId, p: PageId)
    requires Inverse(memory) && q in memory.table && p in memory.table && memory.table[q] == memory.table[p]
    ensures q == p
  {
  }

  /** When the entry selected is set, every entry is. */
  lemma AllSetBehind(ring: Ring, hand: nat)
    requires hand < |ring|
    ensures ring[VictimIndex(ring, hand)].tag ==> forall i :: 0 <= i < |ring| ==> ring[i].tag
  {
    if ring[VictimIndex(ring, hand)].tag {
      forall i | 0 <= i < |ring|
        ensures ring[i].tag
      {
        assert ring[At(|ring|, hand, Distance(|ring|, hand, i))].tag;
      }
    }
  }
}
