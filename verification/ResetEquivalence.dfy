/** Reset makes a unit indistinguishable from a new one with the same registrations. */
module ResetEquivalence {
  import opened Core
  import opened Addresses
  import opened PolicyModel
  import opened MemoryModel
  import opened MmuModel
  import opened MmuInvariant
  import opened MmuRuns

  /** Replays the registrations among the first `n` operations and nothing else. */
  function Registrations(m: Mmu, ops: seq<Op>, n: nat): Mmu
    requires n <= |ops|
  {
    if n == 0 then m else
      var before := Registrations(m, ops, n - 1);
      match ops[n - 1]
      case Register(page) => RegisterPage(before, page).0
      case RegisterAt(page, number) => RegisterPageAt(before, page, number).0
      case DoAccess(_) => before
      case DoReset => before
      case Supply(_) => before
  }

  /** Pages are registered without marks. */
  ghost predicate CleanRegistrations(ops: seq<Op>) {
    forall i :: 0 <= i < |ops| ==> CleanOp(ops[i])
  }

  predicate CleanOp(op: Op) {
    match op
    case Register(page) => !page.dirty && !page.referenced
    case RegisterAt(page, _) => !page.dirty && !page.referenced
    case DoAccess(_) => true
    case DoReset => true
    case Supply(_) => true
  }

  function Unmapped(pages: map<PageId, Page>): map<PageId, Page> {
    map p | p in pages :: pages[p].UnmapFromFrame()
  }

  lemma AsNewPages(m: Mmu)
    requires CleanOutside(m)
    ensures AsNew(m).pages == Unmapped(m.pages)
  {
  }

  /** Two units that reset to the same state. */
  lemma SameAsNew(m: Mmu, m': Mmu)
    requires CleanOutside(m) && CleanOutside(m')
    requires Unmapped(m'.pages) == Unmapped(m.pages) && m'.virtualPages == m.virtualPages
    requires |m'.memory.frames| == |m.memory.frames| && m'.pageSize == m.pageSize
    requires m'.policy.discipline.Reset() == m.policy.discipline.Reset()
    ensures AsNew(m') == AsNew(m)
  {
    AsNewPages(m);
    AsNewPages(m');
  }

  lemma AccessAsNew(m: Mmu, a: MemoryAccess)
    requires FourViews(m) && CleanOutside(m)
    ensures AsNew(Access(m, a).0) == AsNew(m)
  {
    hide Access, CleanOutside, Inverse, PagesAgree, AsNew;
    AccessPreserves(m, a);
    AccessKeepsIdentity(m, a);
    SameAsNew(m, Access(m, a).0);
  }

  lemma AccessKeepsIdentity(m: Mmu, a: MemoryAccess)
    requires FourViews(m)
    ensures Unmapped(Access(m, a).0.pages) == Unmapped(m.pages)
    ensures Access(m, a).0.policy.discipline.Reset() == m.policy.discipline.Reset()
  {
    hide Access, Inverse, PagesAgree;
    AccessSucceedsIff(m, a);
    if !Access(m, a).1.success {
      FailedAccessIsAtomic(m, a);
      AccessRefused(m, a);
    } else {
      var p := Target(m, a).value;
      if p in m.memory.table {
        AccessHits(m, a, p);
      } else if !Full(m) {
        var f := AccessLoads(m, a, p);
      } else {
        hide Replace;
        var v, f := AccessReplaces(m, a, p);
        ReplaceKeepsIdentity(m, a, p, v, f);
      }
    }
  }

  lemma ReplaceKeepsIdentity(m: Mmu, a: MemoryAccess, p: PageId, v: PageId, f: FrameId)
    requires p in m.pages && v in m.pages && f < |m.memory.frames| && !m.policy.discipline.Foreign?
    ensures Unmapped(Replace(m, a, p, v, f).pages) == Unmapped(m.pages)
    ensures Replace(m, a, p, v, f).policy.discipline.Reset() == m.policy.discipline.Reset()
    ensures Replace(m, a, p, v, f).virtualPages == m.virtualPages
  {
    hide Unmapped;
    ReplacementKeepsKind(m.policy.discipline, p, v, f);
    SwapKeepsUnmapped(m.pages, p, v, m.pages[v].UnmapFromFrame(), m.pages[p].MapToFrame(f).Touch(a.operation));
  }

  lemma ReplacementKeepsKind(d: Discipline, p: PageId, v: PageId, f: FrameId)
    requires !d.Foreign?
    ensures d.ChooseVictim().0.Removed(v, f).Accessed(p, f).Loaded(p, f).Reset() == d.Reset()
  {
  }

  lemma SwapKeepsUnmapped(pages: map<PageId, Page>, p: PageId, v: PageId, victim: Page, page: Page)
    requires p in pages && v in pages
    requires victim.UnmapFromFrame() == pages[v].UnmapFromFrame() && page.UnmapFromFrame() == pages[p].UnmapFromFrame()
    ensures Unmapped(pages[v := victim][p := page]) == Unmapped(pages)
  {
  }

  lemma RegisterAsNew(m: Mmu, page: Page, number: nat)
    requires Consistent(m) && CleanOutside(m) && !page.dirty && !page.referenced
    ensures AsNew(RegisterPage(m, page).0) == RegisterPage(AsNew(m), page).0
    ensures AsNew(RegisterPageAt(m, page, number).0) == RegisterPageAt(AsNew(m), page, number).0
    ensures CleanOutside(RegisterPage(m, page).0) && CleanOutside(RegisterPageAt(m, page, number).0)
  {
    RegistrableAsNew(m, page);
    var added := m.pages[page.id := page];
    if Registrable(m, page) {
      assert Unmapped(added) == Unmapped(m.pages)[page.id := page];
    }
    AsNewPages(m);
    AsNewPages(m.(pages := added));
  }

  lemma RegistrableAsNew(m: Mmu, page: Page)
    requires Consistent(m)
    ensures Registrable(AsNew(m), page) == Registrable(m, page)
  {
    MappingsAreConsistent(m.memory, page.id);
  }

  lemma StepAsNew(m: Mmu, op: Op, m': Mmu)
    requires FourViews(m) && CleanOutside(m) && CleanOp(op) && Step(m, op, m')
    ensures FourViews(m') && CleanOutside(m')
    ensures AsNew(m') == match op
                         case Register(page) => RegisterPage(AsNew(m), page).0
                         case RegisterAt(page, number) => RegisterPageAt(AsNew(m), page, number).0
                         case DoAccess(_) => AsNew(m)
                         case DoReset => AsNew(m)
                         case Supply(_) => AsNew(m)
  {
    hide Access, Consistent;
    assert Consistent(m) && PolicyAgrees(m);
    StepPreserves(m, op, m');
    match op
    case Register(page) => RegisterAsNew(m, page, 0);
    case RegisterAt(page, number) => RegisterAsNew(m, page, number);
    case DoAccess(a) =>
      AccessAsNew(m, a);
      AccessPreserves(m, a);
    case DoReset =>
      var order :| ResetTo(m, order, m');
      ResetIsAsNew(m, order);
      AsNewFourViews(m);
      AsNewPages(m);
      AsNewPages(m');
      assert AsNew(m').pages == m'.pages;
    case Supply(_) =>
  }

  /** Resetting at any point of a run gives the state that a new unit reaches by the run's
      registrations alone. */
  lemma {:induction false} RunAsNew(k: nat, d: Discipline, size: PageSize, states: seq<Mmu>, ops: seq<Op>, n: nat)
    requires d == d.Reset() && !d.Foreign?
    requires Run(states, ops) && CleanRegistrations(ops) && n <= |ops| && states[0] == Initial(k, d, size)
    ensures FourViews(states[n]) && CleanOutside(states[n])
    ensures AsNew(states[n]) == Registrations(states[0], ops, n)
  {
    hide FourViews, CleanOutside, AsNew, Step, RegisterPage, RegisterPageAt, CleanOp;
    if n == 0 {
      StartAsNew(k, d, size);
    } else {
      RunAsNew(k, d, size, states, ops, n - 1);
      assert StepAt(states, ops, n - 1);
      StepAsNew(states[n - 1], ops[n - 1], states[n]);
    }
  }

  lemma StartAsNew(k: nat, d: Discipline, size: PageSize)
    requires d == d.Reset() && !d.Foreign?
    ensures FourViews(Initial(k, d, size)) && CleanOutside(Initial(k, d, size))
    ensures AsNew(Initial(k, d, size)) == Initial(k, d, size)
  {
    assert d.WellFormed() && d.Tracked() == {};
    InitialFourViews(k, d, size);
  }

  /** After a reset, whatever the order in which it met the pages, the unit is equal to a
      new one with the same registrations, so it answers every later operation alike. */
  lemma ResetEqualsFresh(k: nat, d: Discipline, size: PageSize, states: seq<Mmu>, ops: seq<Op>, n: nat)
    requires d == d.Reset() && !d.Foreign?
    requires Run(states, ops) && CleanRegistrations(ops) && n < |ops| && states[0] == Initial(k, d, size)
    requires ops[n] == DoReset
    ensures states[n + 1] == Registrations(states[0], ops, n)
  {
    RunAsNew(k, d, size, states, ops, n);
    assert StepAt(states, ops, n);
    var order :| ResetTo(states[n], order, states[n + 1]);
    ResetIsAsNew(states[n], order);
  }
}
