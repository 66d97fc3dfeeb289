/** Whole runs of the memory-management unit: what reset does, the invariant over any
    sequence of operations, and the states that operations reach. */
module MmuRuns {
  import opened Core
  import opened Addresses
  import opened PolicyModel
  import opened MemoryModel
  import opened MmuModel
  import opened MmuInvariant

  // ------------------------------------------------------------------------- reset

  /** The unit with the pages of `gone` out of memory. */
  function Cleared(m: Mmu, gone: set<PageId>): Mmu {
    m.(memory := ClearedMemory(m.memory, gone), pages := ClearedPages(m.pages, gone))
  }

  function ClearedMemory(memory: Memory, gone: set<PageId>): Memory {
    Memory(memory.table - gone,
           seq(|memory.frames|, i requires 0 <= i < |memory.frames| => ClearedFrame(memory.frames[i], gone)))
  }

  function ClearedFrame(content: Option<PageId>, gone: set<PageId>): Option<PageId> {
    if content.Some? && content.value in gone then None else content
  }

  function ClearedPages(pages: map<PageId, Page>, gone: set<PageId>): map<PageId, Page> {
    map p | p in pages :: if p in gone && pages[p].IsResident() then pages[p].UnmapFromFrame() else pages[p]
  }

  lemma ClearedInverse(memory: Memory, gone: set<PageId>)
    requires Inverse(memory)
    ensures Inverse(ClearedMemory(memory, gone))
  {
    var after := ClearedMemory(memory, gone);
    forall q: PageId, g: FrameId
      ensures Lookup(after, q) == Some(g) <==> g < |after.frames| && after.frames[g] == Some(q)
    {
      assert Lookup(memory, q) == Some(g) <==> g < |memory.frames| && memory.frames[g] == Some(q);
    }
  }

  lemma ResetPageClears(m: Mmu, gone: set<PageId>, p: PageId)
    requires Consistent(m) && p in m.pages
    ensures ResetPage(Cleared(m, gone), p) == Cleared(m, gone + {p})
  {
    hide IsMappingConsistent, ReleaseFrame, Inverse, ClearedMemory;
    assert PagesAgree(m.pages, m.memory);
    if p in m.memory.table && p !in gone {
      MemoryClears(m.memory, gone, p);
      PagesClear(m.pages, gone, p);
    } else {
      assert Cleared(m, gone).pages[p].mappedFrame.None?;
      PagesClear(m.pages, gone, p);
      MemoryUnchanged(m.memory, gone, p);
    }
  }

  /** One more page that is mapped, or none. */
  lemma MemoryClears(memory: Memory, gone: set<PageId>, p: PageId)
    requires Inverse(memory) && p in memory.table && p !in gone
    ensures IsMappingConsistent(ClearedMemory(memory, gone), p)
    ensures ReleaseFrame(ClearedMemory(memory, gone), memory.table[p]) == (ClearedMemory(memory, gone + {p}), true)
  {
    hide IsMappingConsistent, ReleaseFrame, Inverse, FrameForPage, OthersAsBefore;
    var before, after, f := ClearedMemory(memory, gone), ClearedMemory(memory, gone + {p}), memory.table[p];
    ClearedInverse(memory, gone);
    MappingsAreConsistent(before, p);
    FramesWithout(memory, gone, p, f);
    ReleaseFrameLeavesOthers(before, f);
    assert after.table == before.table - {p};
  }

  lemma FramesWithout(memory: Memory, gone: set<PageId>, p: PageId, f: FrameId)
    requires Inverse(memory) && Lookup(memory, p) == Some(f) && p !in gone
    ensures f < |memory.frames| && ClearedMemory(memory, gone).frames[f] == Some(p)
    ensures ClearedMemory(memory, gone + {p}).frames == ClearedMemory(memory, gone).frames[f := None]
  {
    InverseHolds(memory);
  }

  lemma MemoryUnchanged(memory: Memory, gone: set<PageId>, p: PageId)
    requires Inverse(memory) && (p !in memory.table || p in gone)
    ensures ClearedMemory(memory, gone + {p}) == ClearedMemory(memory, gone)
  {
    if p in gone {
      assert gone + {p} == gone;
    } else {
      InverseHolds(memory);
      var a, b := ClearedMemory(memory, gone + {p}), ClearedMemory(memory, gone);
      assert p !in HeldPages(memory.frames);
      assert a.table == b.table;
      assert a.frames == b.frames;
    }
  }

  lemma PagesClear(pages: map<PageId, Page>, gone: set<PageId>, p: PageId)
    requires p in pages
    ensures ClearedPages(pages, gone + {p})
         == if p !in gone && pages[p].IsResident() then ClearedPages(pages, gone)[p := pages[p].UnmapFromFrame()]
            else ClearedPages(pages, gone)
  {
  }

  lemma ClearNothing(m: Mmu)
    ensures Cleared(m, {}) == m
  {
    assert Cleared(m, {}).memory.frames == m.memory.frames;
    assert Cleared(m, {}).memory.table == m.memory.table;
    assert Cleared(m, {}).pages == m.pages;
  }

  lemma {:induction false} ResetPagesClears(m: Mmu, order: seq<PageId>)
    requires Consistent(m) && forall p :: p in order ==> p in m.pages
    ensures ResetPages(m, order) == Cleared(m, Elements(order))
  {
    hide Consistent, ResetPage, Cleared;
    if order == [] {
      assert Elements(order) == {};
      ClearNothing(m);
    } else {
      var n := |order| - 1;
      ResetPagesClears(m, order[..n]);
      ResetPageClears(m, Elements(order[..n]), order[n]);
      assert order == order[..n] + [order[n]];
      assert Elements(order) == Elements(order[..n]) + {order[n]};
    }
  }

  /** Empty memory, every registered page out, counters and policy as new. */
  function AsNew(m: Mmu): Mmu {
    ResetCounters(m.(
      memory := Memory(map[], seq(|m.memory.frames|, _ => None)),
      pages := map p | p in m.pages :: if m.pages[p].IsResident() then m.pages[p].UnmapFromFrame() else m.pages[p]))
  }

  ghost predicate Enumerates(order: seq<PageId>, pages: set<PageId>) {
    Elements(order) == pages
  }

  /** Whatever the order in which reset meets the pages, the outcome is the same. */
  lemma ResetIsAsNew(m: Mmu, order: seq<PageId>)
    requires Consistent(m) && Enumerates(order, m.pages.Keys)
    ensures forall p :: p in order ==> p in m.pages
    ensures ResetCounters(ResetPages(m, order)) == AsNew(m)
  {
    assert forall p :: p in order ==> p in Elements(order);
    ResetPagesClears(m, order);
    InverseHolds(m.memory);
    var all := m.pages.Keys;
    var cleared := Cleared(m, all);
    assert cleared.memory.table == map[];
    assert cleared.memory.frames == seq(|m.memory.frames|, _ => None) by {
      forall i | 0 <= i < |m.memory.frames|
        ensures cleared.memory.frames[i] == None
      {
        assert m.memory.frames[i].Some? ==> m.memory.frames[i].value in HeldPages(m.memory.frames);
      }
    }
    assert cleared.pages == AsNew(m).pages;
  }

  lemma AsNewFourViews(m: Mmu)
    requires Consistent(m)
    ensures Consistent(AsNew(m))
    ensures !m.policy.discipline.Foreign? ==> PolicyAgrees(AsNew(m))
    ensures CleanOutside(m) ==> CleanOutside(AsNew(m))
  {
    var after := AsNew(m);
    assert forall p: PageId, f: FrameId :: Lookup(after.memory, p) != Some(f);
    assert TablePairs(after.memory.table) == {};
  }

  // ---------------------------------------------------------------- any operations

  datatype Op =
    | Register(page: Page)
    | RegisterAt(page: Page, number: nat)
    | DoAccess(access: MemoryAccess)
    | DoReset
    | Supply(reference: seq<PageId>)

  /** One operation. Reset may meet the pages in any order; supplying a reference
      sequence concerns the Optimal policy only. */
  ghost predicate Step(m: Mmu, op: Op, m': Mmu) {
    match op
    case Register(page) => m' == RegisterPage(m, page).0
    case RegisterAt(page, number) => m' == RegisterPageAt(m, page, number).0
    case DoAccess(a) => m' == Access(m, a).0
    case DoReset => exists order :: ResetTo(m, order, m')
    case Supply(reference) =>
      m.policy.discipline.Optimal?
      && m' == m.(policy := m.policy.(discipline := m.policy.discipline.(reference := reference, position := 0)))
  }

  ghost predicate ResetTo(m: Mmu, order: seq<PageId>, m': Mmu) {
    && Elements(order) == m.pages.Keys
    && (forall p :: p in order ==> p in m.pages)
    && m' == ResetCounters(ResetPages(m, order))
  }

  /** A run: `states[i + 1]` follows from `states[i]` by `ops[i]`. */
  ghost predicate Run(states: seq<Mmu>, ops: seq<Op>) {
    && |states| == |ops| + 1
    && forall i :: 0 <= i < |ops| ==> StepAt(states, ops, i)
  }

  ghost predicate StepAt(states: seq<Mmu>, ops: seq<Op>, i: nat)
    requires |states| == |ops| + 1 && i < |ops|
  {
    Step(states[i], ops[i], states[i + 1])
  }

  lemma InitialFourViews(k: nat, d: Discipline, size: PageSize)
    requires d.WellFormed() && d.Tracked() == {}
    ensures Consistent(Initial(k, d, size)) && CleanOutside(Initial(k, d, size))
    ensures !d.Foreign? ==> PolicyAgrees(Initial(k, d, size))
  {
    var m := Initial(k, d, size);
    assert forall p: PageId, f: FrameId :: Lookup(m.memory, p) != Some(f);
    assert TablePairs(m.memory.table) == {};
  }

  lemma RegistrationPreserves(m: Mmu, page: Page, v: VirtualPage, pages': map<PageId, Page>, virtualPages': map<VirtualPage, PageId>)
    requires Consistent(m) && Registrable(m, page) && v.process == page.process
    requires pages' == m.pages[page.id := page]
    requires virtualPages' == if v in m.virtualPages then m.virtualPages else m.virtualPages[v := page.id]
    ensures Consistent(m.(pages := pages', virtualPages := virtualPages'))
  {
    var after := m.(pages := pages', virtualPages := virtualPages');
    assert PagesAgree(after.pages, after.memory);
    forall w | w in after.virtualPages
      ensures after.virtualPages[w] in after.pages && after.pages[after.virtualPages[w]].process == w.process
    {
      assert w != v ==> w in m.virtualPages;
    }
    assert Registered(after);
  }

  /** Registration under a chosen number makes the page resolvable under that number. Under
      the page's own identifier it reports success even when that number is taken, and then
      no number of the process leads to the page. */
  lemma RegisteredResolvesIff(m: Mmu, page: Page, number: nat)
    requires Consistent(m)
    ensures RegisterPageAt(m, page, number).1
        ==> Resolve(RegisterPageAt(m, page, number).0, page.process, number) == Some(page.id)
    ensures RegisterPage(m, page).1
        ==> (Resolve(RegisterPage(m, page).0, page.process, page.id) == Some(page.id)
             <==> VirtualPage(page.process, page.id) !in m.virtualPages)
    ensures RegisterPage(m, page).1 && VirtualPage(page.process, page.id) in m.virtualPages
        ==> forall q, n :: Resolve(RegisterPage(m, page).0, q, n) != Some(page.id)
  {
    assert forall v :: v in m.virtualPages && Registrable(m, page) ==> m.virtualPages[v] != page.id;
  }

  /** Page 1 takes number 2; page 2 then registers successfully and cannot be reached. */
  lemma SecondPageIsUnreachable()
    ensures var (first, second) := (Page(1, 0, None, false, false), Page(2, 0, None, false, false));
      var m := RegisterPageAt(Initial(1, Fifo([]), 1), first, 2).0;
      RegisterPage(m, second).1 && forall q, n :: Resolve(RegisterPage(m, second).0, q, n) != Some(2)
  {
    var (first, second) := (Page(1, 0, None, false, false), Page(2, 0, None, false, false));
    var m := Initial(1, Fifo([]), 1);
    InitialFourViews(1, Fifo([]), 1);
    RegistrationPreserves(m, first, VirtualPage(0, 2), map[1 := first], map[VirtualPage(0, 2) := 1]);
    RegisteredResolvesIff(RegisterPageAt(m, first, 2).0, second, 2);
  }

  lemma StepPreserves(m: Mmu, op: Op, m': Mmu)
    requires Consistent(m) && Step(m, op, m')
    ensures Consistent(m') && |m'.memory.frames| == |m.memory.frames| && m'.pageSize == m.pageSize
    ensures PolicyAgrees(m) ==> PolicyAgrees(m')
  {
    match op
    case Register(page) =>
      if Registrable(m, page) {
        RegistrationPreserves(m, page, VirtualPage(page.process, page.id), m'.pages, m'.virtualPages);
      }
    case RegisterAt(page, number) =>
      if m' != m {
        RegistrationPreserves(m, page, VirtualPage(page.process, number), m'.pages, m'.virtualPages);
      }
    case DoAccess(a) => AccessPreserves(m, a);
    case DoReset =>
      var order :| ResetTo(m, order, m');
      ResetIsAsNew(m, order);
      AsNewFourViews(m);
    case Supply(_) =>
  }

  /** In every state of every run the three core views agree, whatever the policy answers,
      and all four agree when the policy is one of the repository's. */
  lemma {:induction false} RunsAgree(states: seq<Mmu>, ops: seq<Op>, n: nat)
    requires Run(states, ops) && n <= |ops| && Consistent(states[0])
    ensures Consistent(states[n]) && |states[n].memory.frames| == |states[0].memory.frames|
    ensures states[n].pageSize == states[0].pageSize
    ensures PolicyAgrees(states[0]) ==> PolicyAgrees(states[n])
  {
    if n > 0 {
      RunsAgree(states, ops, n - 1);
      assert StepAt(states, ops, n - 1);
      StepPreserves(states[n - 1], ops[n - 1], states[n]);
    }
  }

  // -------------------------------------------------------------- reachable states

  /** `m` is reached by some operations from a new unit with a policy of the repository. */
  ghost predicate Reached(m: Mmu, k: nat, size: PageSize) {
    exists states, ops, d :: RunsTo(states, ops, d, k, size, m)
  }

  ghost predicate RunsTo(states: seq<Mmu>, ops: seq<Op>, d: Discipline, k: nat, size: PageSize, m: Mmu) {
    && Run(states, ops) && !d.Foreign? && d == d.Reset()
    && states[0] == Initial(k, d, size) && states[|ops|] == m
  }

  lemma InitialReached(k: nat, d: Discipline, size: PageSize)
    requires !d.Foreign? && d == d.Reset()
    ensures Reached(Initial(k, d, size), k, size)
  {
    assert RunsTo([Initial(k, d, size)], [], d, k, size, Initial(k, d, size));
  }

  lemma StepReached(m: Mmu, op: Op, m': Mmu, k: nat, size: PageSize)
    requires Reached(m, k, size) && Step(m, op, m')
    ensures Reached(m', k, size)
  {
    hide Step, Initial;
    var states, ops, d :| RunsTo(states, ops, d, k, size, m);
    var states', ops' := states + [m'], ops + [op];
    forall i | 0 <= i < |ops'|
      ensures StepAt(states', ops', i)
    {
      if i < |ops| {
        assert StepAt(states, ops, i);
      }
    }
    assert RunsTo(states', ops', d, k, size, m');
  }

  lemma ReachedAgrees(m: Mmu, k: nat, size: PageSize)
    requires Reached(m, k, size)
    ensures FourViews(m) && |m.memory.frames| == k && m.pageSize == size
  {
    hide Step;
    var states, ops, d :| RunsTo(states, ops, d, k, size, m);
    assert d.WellFormed() && d.Tracked() == {};
    InitialFourViews(k, d, size);
    RunsAgree(states, ops, |ops|);
  }
}
