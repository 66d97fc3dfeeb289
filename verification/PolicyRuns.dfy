/** The unit with the LRU and FIFO policies: its lists follow the orders of OrderTheory, so
    their theorems hold of the unit's own fault counter. */
module PolicyRuns {
  import opened Core
  import opened Entries
  import opened PolicyModel
  import opened MemoryModel
  import opened MmuModel
  import opened MmuInvariant
  import opened Paging
  import opened OrderTheory
  import opened AccessRuns

  type Listing = seq<Entry<()>>

  // --------------------------------------------------------- lists and their pages

  lemma PagesMatch<T>(s: seq<Entry<T>>, p: PageId, f: FrameId)
    requires OneToOne(s)
    ensures NoDup(PagesOf(s))
    ensures Pair(p, f) in Pairs(s) ==> Position(s, p, f) == IndexOf(PagesOf(s), p) < |s|
    ensures Pair(p, f) !in Pairs(s) ==> Position(s, p, f) == |s|
  {
    var q := PagesOf(s);
    assert forall i :: 0 <= i < |s| ==> q[i] == s[i].page;
    if Pair(p, f) in Pairs(s) {
      var i :| 0 <= i < |s| && PairOf(s[i]) == Pair(p, f);
    }
  }

  lemma MoveToBackPages(k: nat, s: Listing, p: PageId, f: FrameId)
    requires OneToOne(s) && Pair(p, f) in Pairs(s)
    ensures PagesOf(MoveToBack(s, p, f)) == LruStep(k, PagesOf(s), p)
  {
    PagesMatch(s, p, f);
    var i := Position(s, p, f);
    assert PagesOf(RemoveAt(s, i)) == RemoveAt(PagesOf(s), i);
    assert PagesOf(RemoveAt(s, i) + [s[i]]) == PagesOf(RemoveAt(s, i)) + [p];
  }

  /** A page outside the list is not moved by an access and goes to the back on loading. */
  lemma NewPageToBack(s: Listing, p: PageId, f: FrameId)
    requires forall x :: x in Pairs(s) ==> x.page != p && x.frame != f
    ensures MoveToBack(s, p, f) == s
    ensures Append(s, Entry(p, f, ())) == s + [Entry(p, f, ())]
    ensures PagesOf(s + [Entry(p, f, ())]) == PagesOf(s) + [p]
    ensures p !in PagesOf(s)
  {
    MentionsPairs(s, p, f);
    assert forall i :: 0 <= i < |s| ==> PairOf(s[i]) in Pairs(s);
  }

  lemma FrontLeaves<T>(s: seq<Entry<T>>)
    requires OneToOne(s) && s != []
    ensures Erase(s, s[0].page, s[0].frame) == s[1..]
    ensures forall x :: x in Pairs(s[1..]) ==> x in Pairs(s) && x.frame != s[0].frame
    ensures PagesOf(s[1..]) == PagesOf(s)[1..]
  {
    FrontErased(s);
    forall x | x in Pairs(s[1..])
      ensures x in Pairs(s) && x.frame != s[0].frame
    {
      var i :| 0 <= i < |s[1..]| && PairOf(s[1..][i]) == x;
      assert s[i + 1] == s[1..][i];
    }
  }

  lemma FrontErased<T>(s: seq<Entry<T>>)
    requires s != []
    ensures Erase(s, s[0].page, s[0].frame) == s[1..]
    ensures PagesOf(s[1..]) == PagesOf(s)[1..]
  {
    assert Position(s, s[0].page, s[0].frame) == 0;
    assert RemoveAt(s, 0) == s[1..];
  }

  /** The list a policy of this kind keeps. */
  function ListOf(d: Discipline): Listing
    requires d.Fifo? || d.Lru?
  {
    if d.Fifo? then d.queue else d.list
  }

  /** A one-to-one list of exactly the page table's associations. */
  lemma ListHoldsTable<T>(s: seq<Entry<T>>, table: map<PageId, FrameId>)
    requires OneToOne(s) && Pairs(s) == TablePairs(table)
    ensures Elements(PagesOf(s)) == table.Keys && |s| == |table.Keys|
    ensures forall x :: x in Pairs(s) <==> x.page in table && table[x.page] == x.frame
  {
    TablePairsMembers(table);
    forall p | p in table.Keys
      ensures p in PagesOf(s)
    {
      assert Pair(p, table[p]) in Pairs(s);
      var i :| 0 <= i < |s| && PairOf(s[i]) == Pair(p, table[p]);
      assert PagesOf(s)[i] == p;
    }
    forall p | p in PagesOf(s)
      ensures p in table.Keys
    {
      var i :| 0 <= i < |s| && PagesOf(s)[i] == p;
      assert PairOf(s[i]) in Pairs(s);
    }
    PairsCardinality(s);
    TablePairsCardinality(table);
    assert |table.Keys| == |table|;
  }

  lemma ListIsResident(m: Mmu)
    requires FourViews(m) && (m.policy.discipline.Fifo? || m.policy.discipline.Lru?)
    ensures var s := ListOf(m.policy.discipline);
      && OneToOne(s) && Elements(PagesOf(s)) == Resident(m) && |s| == |Resident(m)|
      && (forall x :: x in Pairs(s) <==> x.page in m.memory.table && m.memory.table[x.page] == x.frame)
  {
    ListHoldsTable(ListOf(m.policy.discipline), m.memory.table);
  }

  // --------------------------------------------------------------------- one access

  /** The order after one access with either policy. */
  ghost predicate OrderStep(k: nat, d: Discipline, p: PageId, d': Discipline) {
    || (d.Lru? && d'.Lru? && PagesOf(d'.list) == LruStep(k, PagesOf(d.list), p))
    || (d.Fifo? && d'.Fifo? && PagesOf(d'.queue) == FifoStep(k, PagesOf(d.queue), p))
  }

  lemma HitOrder(k: nat, d: Discipline, p: PageId, f: FrameId)
    requires (d.Fifo? || d.Lru?) && OneToOne(ListOf(d)) && Pair(p, f) in Pairs(ListOf(d))
    ensures OrderStep(k, d, p, d.Accessed(p, f))
  {
    PagesMatch(ListOf(d), p, f);
    if d.Lru? {
      MoveToBackPages(k, d.list, p, f);
    } else {
      assert p in PagesOf(d.queue);
    }
  }

  lemma LoadOrder(k: nat, d: Discipline, p: PageId, f: FrameId)
    requires (d.Fifo? || d.Lru?) && |ListOf(d)| < k
    requires forall x :: x in Pairs(ListOf(d)) ==> x.page != p && x.frame != f
    ensures OrderStep(k, d, p, d.Accessed(p, f).Loaded(p, f))
  {
    NewPageToBack(ListOf(d), p, f);
  }

  lemma ReplaceOrder(k: nat, d: Discipline, p: PageId)
    requires (d.Fifo? || d.Lru?) && OneToOne(ListOf(d)) && |ListOf(d)| == k >= 1
    requires forall x :: x in Pairs(ListOf(d)) ==> x.page != p
    ensures var e := ListOf(d)[0];
      && d.ChooseVictim().1 == Some(e.frame)
      && OrderStep(k, d, p, d.ChooseVictim().0.Removed(e.page, e.frame).Accessed(p, e.frame).Loaded(p, e.frame))
  {
    var s := ListOf(d);
    FrontLeaves(s);
    NewPageToBack(s[1..], p, s[0].frame);
    assert forall i :: 0 <= i < |s| ==> PairOf(s[i]) in Pairs(s);
  }

  lemma AccessOrder(m: Mmu, a: MemoryAccess)
    requires Ready(m) && Target(m, a).Some? && (m.policy.discipline.Fifo? || m.policy.discipline.Lru?)
    ensures OrderStep(Capacity(m), m.policy.discipline, Target(m, a).value, Access(m, a).0.policy.discipline)
  {
    hide Access, Inverse, PagesAgree, OrderStep;
    var p, d, k := Target(m, a).value, m.policy.discipline, Capacity(m);
    AccessIsTotal(m, a);
    AccessSucceedsIff(m, a);
    ResidentCount(m);
    ListIsResident(m);
    if p in m.memory.table {
      AccessHits(m, a, p);
      HitOrder(k, d, p, m.memory.table[p]);
    } else if !Full(m) {
      var f := AccessLoads(m, a, p);
      FrameUnused(m.memory, f);
      LoadOrder(k, d, p, f);
    } else {
      var v, f := AccessReplaces(m, a, p);
      ReplaceOrder(k, d, p);
      FrameHasOnePage(m.memory, v, f);
      assert PairOf(ListOf(d)[0]) in Pairs(ListOf(d));
    }
  }

  // --------------------------------------------------------------------- whole runs

  /** The list is the order that LRU, or FIFO, reaches after `n` references. */
  ghost predicate Follows(lru: bool, k: nat, d: Discipline, t: Trace, n: nat) {
    && n <= |t|
    && if lru then d.Lru? && PagesOf(d.list) == LruOrder(k, t, n)
       else d.Fifo? && PagesOf(d.queue) == FifoOrder(k, t, n)
  }

  lemma FollowsStep(lru: bool, k: nat, d: Discipline, t: Trace, n: nat, d': Discipline)
    requires n < |t| && OrderStep(k, d, t[n], d') && Follows(lru, k, d, t, n)
    ensures Follows(lru, k, d', t, n + 1)
  {
  }

  lemma FollowsKind(lru: bool, k: nat, d: Discipline, t: Trace, n: nat)
    requires Follows(lru, k, d, t, n)
    ensures if lru then d.Lru? else d.Fifo?
  {
  }

  /** A unit over empty memory with the LRU or the FIFO policy, ready to serve. */
  ghost predicate Starts(m: Mmu, accesses: seq<MemoryAccess>) {
    && Ready(m) && Resident(m) == {} && Serviceable(m, accesses)
    && (m.policy.discipline.Fifo? || m.policy.discipline.Lru?)
  }

  lemma StartFollows(m: Mmu, accesses: seq<MemoryAccess>)
    requires Starts(m, accesses)
    ensures Follows(m.policy.discipline.Lru?, Capacity(m), m.policy.discipline, TraceOf(m, accesses), 0)
  {
    ListIsResident(m);
  }

  lemma {:induction false} RunFollows(m: Mmu, accesses: seq<MemoryAccess>, n: nat)
    requires Starts(m, accesses) && n <= |accesses|
    ensures Follows(m.policy.discipline.Lru?, Capacity(m), After(m, accesses, n).policy.discipline, TraceOf(m, accesses), n)
  {
    hide Access, Ready, Target, OrderStep, Follows;
    if n == 0 {
      StartFollows(m, accesses);
    } else {
      var lru, k, before, t := m.policy.discipline.Lru?, Capacity(m), After(m, accesses, n - 1), TraceOf(m, accesses);
      RunFollows(m, accesses, n - 1);
      ReadyAfter(m, accesses, n - 1);
      FollowsKind(lru, k, before.policy.discipline, t, n - 1);
      AccessOrder(before, accesses[n - 1]);
      FollowsStep(lru, k, before.policy.discipline, t, n - 1, After(m, accesses, n).policy.discipline);
    }
  }

  /** After any run the LRU list is, in order, the last `k` of the distinct pages accessed,
      by last use. */
  lemma LruListIsMostRecent(m: Mmu, accesses: seq<MemoryAccess>)
    requires Starts(m, accesses) && m.policy.discipline.Lru?
    ensures var d := After(m, accesses, |accesses|).policy.discipline;
      d.Lru? && LastOf(Stack(TraceOf(m, accesses), |accesses|), Capacity(m), PagesOf(d.list))
  {
    hide Access, Ready, LastOf, Stack, LruOrder, PagesOf;
    RunFollows(m, accesses, |accesses|);
    CapacityPositive(m);
    LruHoldsMostRecent(Capacity(m), TraceOf(m, accesses), |accesses|);
  }

  lemma CapacityPositive(m: Mmu)
    requires Ready(m)
    ensures Capacity(m) >= 1
  {
  }

  lemma ResidencyFollows(m: Mmu, accesses: seq<MemoryAccess>)
    requires Starts(m, accesses)
    ensures ResidencyOf(m, accesses)
         == if m.policy.discipline.Lru? then LruResidency(Capacity(m), TraceOf(m, accesses))
            else FifoResidency(Capacity(m), TraceOf(m, accesses))
  {
    var k, t, S := Capacity(m), TraceOf(m, accesses), ResidencyOf(m, accesses);
    var R := if m.policy.discipline.Lru? then LruResidency(k, t) else FifoResidency(k, t);
    forall n | 0 <= n <= |t|
      ensures S[n] == R[n]
    {
      ResidencyFollowsAt(m, accesses, n);
    }
  }

  lemma ResidencyFollowsAt(m: Mmu, accesses: seq<MemoryAccess>, n: nat)
    requires Starts(m, accesses) && n <= |accesses|
    ensures ResidencyOf(m, accesses)[n]
         == if m.policy.discipline.Lru? then LruResidency(Capacity(m), TraceOf(m, accesses))[n]
            else FifoResidency(Capacity(m), TraceOf(m, accesses))[n]
  {
    hide Access, Target, LruOrder, FifoOrder;
    RunFollows(m, accesses, n);
    assert FourViews(After(m, accesses, n)) by { ReadyAfter(m, accesses, n); }
    ListIsResident(After(m, accesses, n));
    ResidencyAt(m, accesses, n);
  }

  /** Sleator and Tarjan for the unit: with LRU or FIFO and `k` frames its faults and those
      of any demand-paging schedule `R` with `h <= k` frames are within the ratio of
      `WithinRatio`; against equally many frames that is `faults <= k·faults(R)`. */
  lemma UnitIsCompetitive(m: Mmu, accesses: seq<MemoryAccess>, h: nat, R: Residency)
    requires Starts(m, accesses) && 1 <= h <= Capacity(m) && Schedule(h, TraceOf(m, accesses), R)
    ensures After(m, accesses, |accesses|).faults >= m.faults
    ensures WithinRatio(Capacity(m), h, After(m, accesses, |accesses|).faults - m.faults, Faults(TraceOf(m, accesses), R))
  {
    hide Access, Ready, Target, ResidencyOf, Conservative, Schedule, WithinRatio;
    ResidencyIsConservative(m, accesses);
    ReadyServesAll(m, accesses);
    RunCountsFaults(m, accesses, |accesses|);
    ConservativeIsCompetitive(Capacity(m), h, TraceOf(m, accesses), ResidencyOf(m, accesses), R);
  }

  lemma ResidencyIsConservative(m: Mmu, accesses: seq<MemoryAccess>)
    requires Starts(m, accesses)
    ensures Conservative(Capacity(m), TraceOf(m, accesses), ResidencyOf(m, accesses))
  {
    hide Access, Ready, Target, LruResidency, FifoResidency, Conservative;
    CapacityPositive(m);
    ResidencyFollows(m, accesses);
    if m.policy.discipline.Lru? {
      LruConservative(Capacity(m), TraceOf(m, accesses));
    } else {
      FifoConservative(Capacity(m), TraceOf(m, accesses));
    }
  }

  /** At most `k` faults in any window of a run that touches at most `k` distinct pages. */
  lemma UnitIsConservative(m: Mmu, accesses: seq<MemoryAccess>, i: nat, j: nat)
    requires Starts(m, accesses) && i <= j <= |accesses|
    requires |PagesIn(TraceOf(m, accesses), i, j)| <= Capacity(m)
    ensures After(m, accesses, j).faults - After(m, accesses, i).faults <= Capacity(m)
  {
    hide Access, Ready, Target, ResidencyOf, PagesIn;
    var k, t, S := Capacity(m), TraceOf(m, accesses), ResidencyOf(m, accesses);
    ResidencyIsConservative(m, accesses);
    assert ConservativeOn(k, t, S, i, j);
    ReadyServesAll(m, accesses);
    RunCountsFaults(m, accesses, i);
    RunCountsFaults(m, accesses, j);
    FaultsSplit(t, S, 0, i, j);
  }

  /** A unit with LRU and more frames never faults more on the same pages. */
  lemma MoreFramesNeverHurtLru(m: Mmu, accesses: seq<MemoryAccess>, larger: Mmu, others: seq<MemoryAccess>)
    requires Starts(m, accesses) && m.policy.discipline.Lru?
    requires Starts(larger, others) && larger.policy.discipline.Lru?
    requires Capacity(m) <= Capacity(larger) && TraceOf(larger, others) == TraceOf(m, accesses)
    ensures After(larger, others, |others|).faults - larger.faults <= After(m, accesses, |accesses|).faults - m.faults
  {
    hide Access, Ready, Target, LruResidency, FifoResidency;
    CapacityPositive(m);
    ResidencyFollows(m, accesses);
    ResidencyFollows(larger, others);
    ReadyServesAll(m, accesses);
    ReadyServesAll(larger, others);
    RunCountsFaults(m, accesses, |accesses|);
    RunCountsFaults(larger, others, |others|);
    LruMonotone(Capacity(m), Capacity(larger), TraceOf(m, accesses));
  }
}
