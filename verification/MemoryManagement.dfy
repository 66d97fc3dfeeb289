/** The memory-management unit over its collaborators, each operation proved to take the
    state and give the result that MmuModel says, from any state of its collaborators. */
module MemoryManagement {
  import opened Core
  import opened Addresses
  import opened MemoryModel
  import opened MmuModel
  import opened MmuInvariant
  import opened MmuRuns
  import opened PhysicalMemory
  import opened ReplacementPolicies

  class PageFaultStatistics {
    var processes: map<ProcessId, ProcessCounters>
    var totalAccesses: nat
    var totalPageFaults: nat

    ghost function View(): FaultStatistics
      reads this
    {
      FaultStatistics(processes, totalAccesses, totalPageFaults)
    }

    constructor ()
      ensures View() == NO_STATISTICS
    {
      processes, totalAccesses, totalPageFaults := map[], 0, 0;
    }

    method RecordAccess(q: ProcessId)
      modifies this
      ensures View() == old(View()).RecordAccess(q)
    {
      if q !in processes {
        processes := processes[q := ProcessCounters(0, 0)];
      }
      processes := processes[q := processes[q].(accesses := processes[q].accesses + 1)];
      totalAccesses := totalAccesses + 1;
    }

    method RecordPageFault(q: ProcessId)
      modifies this
      ensures View() == old(View()).RecordPageFault(q)
    {
      if q !in processes {
        processes := processes[q := ProcessCounters(0, 0)];
      }
      processes := processes[q := processes[q].(pageFaults := processes[q].pageFaults + 1)];
      totalPageFaults := totalPageFaults + 1;
    }

    method Reset()
      modifies this
      ensures View() == NO_STATISTICS
    {
      processes, totalAccesses, totalPageFaults := map[], 0, 0;
    }
  }

  class MemoryManagementUnit {
    const integration: Integration
    const replacementPolicy: ReplacementPolicy
    const pageSize: PageSize
    const statistics: PageFaultStatistics
    var pages: map<PageId, Page>
    var virtualPages: map<VirtualPage, PageId>
    var faults: nat
    var replacements: nat
    var dirtyEvictions: nat

    ghost function Footprint(): set<object> {
      {this, integration.pageTable, integration.physicalMemory, integration.physicalMemory.frames,
       replacementPolicy.Repr(), statistics}
    }

    /** The collaborators are valid and the policy is none of the others. */
    ghost predicate Valid()
      reads Footprint()
    {
      && integration.Valid()
      && replacementPolicy.Valid()
      && replacementPolicy.Repr() !in {this, integration.pageTable, integration.physicalMemory,
                                       integration.physicalMemory.frames, statistics}
    }

    ghost function Model(): Mmu
      reads Footprint()
    {
      Mmu(integration.View(), pages, virtualPages, replacementPolicy.Model(), pageSize, statistics.View(),
          faults, replacements, dirtyEvictions)
    }

    constructor (pageTable: PageTable, physicalMemory: PhysicalMemoryManager, policy: ReplacementPolicy, pageSize: PageSize)
      requires physicalMemory.Valid() && policy.Valid()
      requires policy.Repr() !in {pageTable, physicalMemory, physicalMemory.frames}
      ensures Valid()
      ensures Footprint() == {this, pageTable, physicalMemory, physicalMemory.frames, policy.Repr(), statistics}
      ensures fresh(integration) && fresh(statistics) && replacementPolicy == policy
      ensures integration.pageTable == pageTable && integration.physicalMemory == physicalMemory
      ensures Model() == Mmu(Memory(pageTable.mappings, physicalMemory.frames[..]), map[], map[], policy.Model(), pageSize,
                             NO_STATISTICS, 0, 0, 0)
    {
      integration := new Integration(pageTable, physicalMemory);
      replacementPolicy, this.pageSize := policy, pageSize;
      statistics := new PageFaultStatistics();
      pages, virtualPages := map[], map[];
      faults, replacements, dirtyEvictions := 0, 0, 0;
    }

    // ---------------------------------------------------------------- registration

    method IsRegistrable(page: Page) returns (ok: bool)
      ensures ok == Registrable(Model(), page)
    {
      if page.IsResident() || page.id in pages || integration.pageTable.Find(page.id).Some? {
        return false;
      }
      var frame := integration.physicalMemory.FindFrameOf(page.id);
      return frame.None?;
    }

    method RegisterPage(page: Page) returns (registered: bool)
      requires Valid()
      modifies this
      ensures Valid() && (Model(), registered) == MmuModel.RegisterPage(old(Model()), page)
    {
      registered := IsRegistrable(page);
      if registered {
        pages := pages[page.id := page];
        var v := VirtualPage(page.process, page.id);
        if v !in virtualPages {
          virtualPages := virtualPages[v := page.id];
        }
      }
    }

    method RegisterPageAt(page: Page, number: nat) returns (registered: bool)
      requires Valid()
      modifies this
      ensures Valid() && (Model(), registered) == MmuModel.RegisterPageAt(old(Model()), page, number)
    {
      registered := IsRegistrable(page);
      if !registered {
        return;
      }
      ghost var before := pages;
      pages := pages[page.id := page];
      var v := VirtualPage(page.process, number);
      if v in virtualPages {
        pages := pages - {page.id};
        assert pages == before;
        return false;
      }
      virtualPages := virtualPages[v := page.id];
    }

    // ---------------------------------------------------------------------- access

    method Access(a: MemoryAccess) returns (result: AccessResult)
      requires Valid()
      modifies Footprint()
      ensures Valid() && (Model(), result) == MmuModel.Access(old(Model()), a)
    {
      hide IsMappingConsistent, MmuModel.CompleteAccess, MmuModel.HandlePageFault;
      var v := VirtualPage(a.process, Decompose(a.address, pageSize).virtualPage);
      if v !in virtualPages {
        return Failure(UnregisteredPage);
      }
      var p := virtualPages[v];
      if p !in pages {
        return Failure(UnregisteredPage);
      }
      if pages[p].process != a.process {
        return Failure(NotOwner);
      }
      statistics.RecordAccess(a.process);
      var mapped := integration.pageTable.Find(p);
      if mapped.None? {
        result := HandlePageFault(a, p);
        return;
      }
      var consistent := integration.CheckMapping(p);
      if !consistent {
        return Failure(InconsistentMapping);
      }
      result := CompleteAccess(a, p, mapped.value, false, false, false);
    }

    method CompleteAccess(a: MemoryAccess, p: PageId, f: FrameId, fault: bool, replacement: bool, dirtyEviction: bool)
      returns (result: AccessResult)
      requires Valid() && p in pages
      modifies this`pages, replacementPolicy.Repr()
      ensures Valid()
      ensures (Model(), result) == MmuModel.CompleteAccess(old(Model()), a, p, f, fault, replacement, dirtyEviction)
    {
      var page := pages[p];
      if page.mappedFrame.None? {
        return Failure(NotResident);
      }
      if page.mappedFrame.value != f {
        return Failure(WrongFrame);
      }
      var d := Decompose(a.address, pageSize);
      var v := VirtualPage(page.process, d.virtualPage);
      if v !in virtualPages || virtualPages[v] != page.id {
        return Failure(WrongVirtualPage);
      }
      pages := pages[p := page.Touch(a.operation)];
      replacementPolicy.PageAccessed(page.id, f);
      return AccessResult(true, fault, replacement, Some(f), Some(Translate(f, d.offset, pageSize)), dirtyEviction, None);
    }

    method HandlePageFault(a: MemoryAccess, p: PageId) returns (result: AccessResult)
      requires Valid() && p in pages
      modifies Footprint()
      ensures Valid() && (Model(), result) == MmuModel.HandlePageFault(old(Model()), a, p)
    {
      hide MmuModel.LoadIntoFreeFrame, MmuModel.ReplacePage;
      if pages[p].IsResident() {
        return Failure(AlreadyResident);
      }
      if integration.pageTable.Find(p).Some? {
        return Failure(AlreadyMapped);
      }
      var frame := integration.physicalMemory.FindFrameOf(p);
      if frame.Some? {
        return Failure(AlreadyMapped);
      }
      faults := faults + 1;
      statistics.RecordPageFault(a.process);
      var free := integration.physicalMemory.HasFreeFrame();
      if free {
        result := LoadIntoFreeFrame(a, p);
      } else {
        result := ReplacePage(a, p);
      }
    }

    method LoadIntoFreeFrame(a: MemoryAccess, p: PageId) returns (result: AccessResult)
      requires Valid() && p in pages
      modifies Footprint()
      ensures Valid() && (Model(), result) == MmuModel.LoadIntoFreeFrame(old(Model()), a, p)
    {
      hide MemoryModel.MapPage, MmuModel.CompleteAccess, MmuModel.Withdraw;
      var frame := integration.MapPage(p);
      MapPageAllOrNothing(old(Model()).memory, p);
      if frame.None? {
        return Failure(FreeFrameNotMapped);
      }
      var f := frame.value;
      pages := pages[p := pages[p].MapToFrame(f)];
      CompleteKeepsPages(Model(), a, p, f, true, false, false);
      result := CompleteAccess(a, p, f, true, false, false);
      if !result.success {
        Withdraw(p, f);
        return;
      }
      replacementPolicy.PageLoaded(p, f);
    }

    static lemma CompleteKeepsPages(
      m: Mmu, a: MemoryAccess, p: PageId, f: FrameId, fault: bool, replacement: bool, dirtyEviction: bool)
      requires p in m.pages
      ensures MmuModel.CompleteAccess(m, a, p, f, fault, replacement, dirtyEviction).0.pages.Keys == m.pages.Keys
    {
    }

    method Withdraw(p: PageId, f: FrameId)
      requires Valid() && p in pages
      modifies Footprint()
      ensures Valid() && Model() == MmuModel.Withdraw(old(Model()), p, f)
      ensures pages.Keys == old(pages).Keys
    {
      hide MemoryModel.ReleaseFrame;
      pages := pages[p := pages[p].UnmapFromFrame()];
      var released := integration.ReleaseFrame(f);
    }

    method ReplacePage(a: MemoryAccess, p: PageId) returns (result: AccessResult)
      requires Valid() && p in pages
      modifies Footprint()
      ensures Valid() && (Model(), result) == MmuModel.ReplacePage(old(Model()), a, p)
    {
      hide IsMappingConsistent, MmuModel.EvictAndLoad, MakePhysicalAddress;
      var victim := replacementPolicy.ChooseVictim();
      if victim.None? {
        return AccessResult(false, true, false, None, None, false, Some(NoVictim));
      }
      var f := victim.value;
      if f >= integration.physicalMemory.frames.Length {
        return Failure(InvalidVictim);
      }
      if integration.physicalMemory.frames[f].None? {
        return Failure(FreeVictim);
      }
      var v := integration.physicalMemory.frames[f].value;
      if v !in pages {
        return Failure(UnregisteredVictim);
      }
      if !pages[v].IsResident() {
        return Failure(NonresidentVictim);
      }
      if pages[v].mappedFrame.value != f {
        return Failure(MisplacedVictim);
      }
      var consistent := integration.CheckMapping(v);
      if !consistent {
        return Failure(InconsistentVictim);
      }
      if MakePhysicalAddress(f, Decompose(a.address, pageSize).offset, pageSize).None? {
        return Failure(AddressOverflow);
      }
      result := EvictAndLoad(a, p, v, f);
    }

    method EvictAndLoad(a: MemoryAccess, p: PageId, v: PageId, f: FrameId) returns (result: AccessResult)
      requires Valid() && p in pages && v in pages
      modifies Footprint()
      ensures Valid() && (Model(), result) == MmuModel.EvictAndLoad(old(Model()), a, p, v, f)
    {
      hide MemoryModel.ReleaseFrame, MmuModel.LoadIntoVictimFrame;
      var victim := pages[v];
      ReleaseFrameLeavesOthers(Model().memory, f);
      var released := integration.ReleaseFrame(f);
      if !released {
        return Failure(VictimNotReleased);
      }
      pages := pages[v := victim.UnmapFromFrame()];
      replacementPolicy.PageRemoved(v, f);
      result := LoadIntoVictimFrame(a, p, v, f, victim.dirty, victim.referenced);
    }

    method LoadIntoVictimFrame(a: MemoryAccess, p: PageId, v: PageId, f: FrameId, dirty: bool, referenced: bool)
      returns (result: AccessResult)
      requires Valid() && p in pages && v in pages
      modifies Footprint()
      ensures Valid() && (Model(), result) == MmuModel.LoadIntoVictimFrame(old(Model()), a, p, v, f, dirty, referenced)
    {
      hide MemoryModel.MapPage, MemoryModel.ReleaseFrame, MmuModel.CompleteAccess, MmuModel.Withdraw, MmuModel.RestoreVictim, MmuModel.Admit;
      var frame := integration.MapPage(p);
      if frame != Some(f) {
        if frame.Some? {
          var released := integration.ReleaseFrame(frame.value);
        }
        var restored := RestoreVictim(v, f, dirty, referenced);
        return Failure(VictimFrameNotReused);
      }
      pages := pages[p := pages[p].MapToFrame(f)];
      CompleteKeepsPages(Model(), a, p, f, true, true, dirty);
      result := CompleteAccess(a, p, f, true, true, dirty);
      if !result.success {
        Withdraw(p, f);
        var restored := RestoreVictim(v, f, dirty, referenced);
        return;
      }
      Admit(p, f, dirty);
    }

    method Admit(p: PageId, f: FrameId, dirty: bool)
      requires Valid()
      modifies this`replacements, this`dirtyEvictions, replacementPolicy.Repr()
      ensures Valid() && Model() == MmuModel.Admit(old(Model()), p, f, dirty)
    {
      replacementPolicy.PageLoaded(p, f);
      replacements := replacements + 1;
      if dirty {
        dirtyEvictions := dirtyEvictions + 1;
        replacementPolicy.RecordDirtyEviction();
      }
    }

    method RestoreVictim(v: PageId, f: FrameId, dirty: bool, referenced: bool) returns (restored: bool)
      requires Valid() && v in pages
      modifies Footprint()
      ensures Valid() && (Model(), restored) == MmuModel.RestoreVictim(old(Model()), v, f, dirty, referenced)
    {
      hide MemoryModel.ReleaseFrame;
      if pages[v].IsResident() {
        return false;
      }
      MapPageAllOrNothing(Model().memory, v);
      var frame := integration.MapPage(v);
      if frame.None? {
        return false;
      }
      var consistent := integration.CheckMapping(v);
      if !consistent || integration.pageTable.mappings[v] != f {
        var released := integration.ReleaseFrame(f);
        return false;
      }
      var page := pages[v].MapToFrame(f);
      pages := pages[v := page.(dirty := page.dirty || dirty, referenced := page.referenced || referenced)];
      replacementPolicy.PageLoaded(v, f);
      return true;
    }

    // ----------------------------------------------------------------------- reset

    method ResetPage(p: PageId)
      requires Valid() && p in pages
      modifies Footprint()
      ensures Valid() && Model() == MmuModel.ResetPage(old(Model()), p)
    {
      hide MemoryModel.ReleaseFrame;
      var page := pages[p];
      if page.mappedFrame.None? {
        return;
      }
      var consistent := integration.CheckMapping(p);
      if !consistent {
        return;
      }
      ReleaseFrameLeavesOthers(Model().memory, page.mappedFrame.value);
      var released := integration.ReleaseFrame(page.mappedFrame.value);
      if !released {
        return;
      }
      pages := pages[p := page.UnmapFromFrame()];
    }

    static lemma NothingReset(m: Mmu)
      ensures ResetPages(m, []) == m && Elements<PageId>([]) == {}
    {
    }

    /** Meets every registered page, in some order. */
    method ResetRegisteredPages() returns (ghost order: seq<PageId>)
      requires Valid()
      modifies Footprint()
      ensures Valid()
      ensures Elements(order) == old(pages).Keys && forall p :: p in order ==> p in old(pages)
      ensures Model() == ResetPages(old(Model()), order)
    {
      hide MmuModel.ResetPage, ResetPages, Elements;
      var remaining := pages.Keys;
      order := [];
      NothingReset(Model());
      while remaining != {}
        invariant Valid() && pages.Keys == old(pages).Keys
        invariant Elements(order) == old(pages).Keys - remaining && remaining <= old(pages).Keys
        invariant forall p :: p in order ==> p in old(pages)
        invariant Model() == ResetPages(old(Model()), order)
        decreases |remaining|
      {
        var p :| p in remaining;
        ResetOneMore(old(Model()), order, p);
        ResetPage(p);
        order, remaining := order + [p], remaining - {p};
      }
    }

    /** From any consistent state, and whatever the order, the unit becomes as new. */
    method Reset()
      requires Valid()
      modifies Footprint()
      ensures Valid()
      ensures exists order :: ResetTo(old(Model()), order, Model())
      ensures Consistent(old(Model())) ==> Model() == AsNew(old(Model()))
    {
      hide ResetPages, Elements, Consistent, AsNew;
      ghost var order := ResetRegisteredPages();
      replacementPolicy.Reset();
      statistics.Reset();
      faults, replacements, dirtyEvictions := 0, 0, 0;
      assert ResetTo(old(Model()), order, Model());
      if Consistent(old(Model())) {
        ResetIsAsNew(old(Model()), order);
      }
    }
  }
}
