/** The agreement of the four views of residency, its preservation by every operation, and
    what an access does in a state where it holds. */
module MmuInvariant {
  import opened Core
  import opened Entries
  import opened Addresses
  import opened PolicyModel
  import opened MemoryModel
  import opened MmuModel

  /** Page table, frame array and page records agree, virtual pages belong to their process
      and no page is reachable through two of them. */
  ghost predicate Consistent(m: Mmu) {
    && Inverse(m.memory)
    && PagesAgree(m.pages, m.memory)
    && Registered(m)
    && m.policy.discipline.WellFormed()
  }

  ghost predicate PagesAgree(pages: map<PageId, Page>, memory: Memory) {
    && memory.table.Keys <= pages.Keys
    && forall p :: p in pages ==> pages[p].id == p && pages[p].mappedFrame == Lookup(memory, p)
  }

  ghost predicate Registered(m: Mmu) {
    && (forall v :: v in m.virtualPages ==>
          m.virtualPages[v] in m.pages && m.pages[m.virtualPages[v]].process == v.process)
    && (forall v, w :: v in m.virtualPages && w in m.virtualPages && m.virtualPages[v] == m.virtualPages[w] ==> v == w)
  }

  ghost function TablePairs(table: map<PageId, FrameId>): set<Pair> {
    set p | p in table :: Pair(p, table[p])
  }

  /** The fourth view: a policy of the repository tracks exactly the page table. */
  ghost predicate PolicyAgrees(m: Mmu) {
    !m.policy.discipline.Foreign? && m.policy.discipline.Tracked() == TablePairs(m.memory.table)
  }

  ghost predicate FourViews(m: Mmu) {
    Consistent(m) && PolicyAgrees(m)
  }

  /** Pages out of memory carry no dirty or referenced mark. */
  ghost predicate CleanOutside(m: Mmu) {
    forall p :: p in m.pages && !m.pages[p].IsResident() ==> !m.pages[p].dirty && !m.pages[p].referenced
  }

  function Full(m: Mmu): bool {
    Occupied(m.memory.frames) == |m.memory.frames|
  }

  /** The page an access names, when the accessing process has it registered. */
  function Target(m: Mmu, a: MemoryAccess): Option<PageId> {
    Resolve(m, a.process, Decompose(a.address, m.pageSize).virtualPage)
  }

  // ---------------------------------------------------------------- counting views

  lemma TablePairsMembers(table: map<PageId, FrameId>)
    ensures forall x :: x in TablePairs(table) <==> x.page in table && table[x.page] == x.frame
  {
    forall x: Pair | x.page in table && table[x.page] == x.frame
      ensures x in TablePairs(table)
    {
      assert x == Pair(x.page, table[x.page]);
    }
  }

  lemma TablePairsUpdate(table: map<PageId, FrameId>, p: PageId, f: FrameId)
    requires p !in table
    ensures TablePairs(table[p := f]) == TablePairs(table) + {Pair(p, f)}
  {
    TablePairsMembers(table);
    TablePairsMembers(table[p := f]);
  }

  lemma TablePairsRemove(table: map<PageId, FrameId>, p: PageId)
    requires p in table
    ensures TablePairs(table - {p}) == TablePairs(table) - {Pair(p, table[p])}
  {
    TablePairsMembers(table);
    TablePairsMembers(table - {p});
  }

  lemma TablePairsCardinality(table: map<PageId, FrameId>)
    ensures |TablePairs(table)| == |table|
    decreases |table|
  {
    if table.Keys == {} {
      assert table == map[];
      assert TablePairs(table) == {};
    } else {
      var p :| p in table;
      var rest := table - {p};
      assert table.Keys == rest.Keys + {p};
      assert |table.Keys| == |table| && |rest.Keys| == |rest|;
      TablePairsCardinality(rest);
      TablePairsRemove(table, p);
      assert Pair(p, table[p]) in TablePairs(table);
    }
  }

  /** All four views have the same size, the number of allocated frames. */
  lemma ViewsHaveEqualSize(m: Mmu)
    requires FourViews(m)
    ensures |m.memory.table| == Occupied(m.memory.frames) <= |m.memory.frames|
    ensures |m.policy.discipline.Tracked()| == |m.memory.table|
    ensures |set p | p in m.pages && m.pages[p].IsResident()| == |m.memory.table|
  {
    InverseHolds(m.memory);
    HeldPagesCardinality(m.memory.frames);
    OccupiedBound(m.memory.frames);
    assert |m.memory.table.Keys| == |m.memory.table|;
    TablePairsCardinality(m.memory.table);
    assert (set p | p in m.pages && m.pages[p].IsResident()) == m.memory.table.Keys;
  }

  // ---------------------------------------------------- what an access comes down to

  function Counted(m: Mmu, a: MemoryAccess): Mmu {
    m.(statistics := m.statistics.RecordAccess(a.process))
  }

  function Faulted(m: Mmu, a: MemoryAccess): Mmu {
    m.(statistics := m.statistics.RecordAccess(a.process).RecordPageFault(a.process), faults := m.faults + 1)
  }

  function Success(m: Mmu, a: MemoryAccess, f: FrameId, fault: bool, replacement: bool, dirty: bool): AccessResult {
    AccessResult(true, fault, replacement, Some(f),
                 Some(Translate(f, Decompose(a.address, m.pageSize).offset, m.pageSize)), dirty, None)
  }

  /** A hit on page `p`. */
  function Hit(m: Mmu, a: MemoryAccess, p: PageId): Mmu
    requires p in m.pages && p in m.memory.table
  {
    Counted(m, a).(pages := m.pages[p := m.pages[p].Touch(a.operation)],
                   policy := m.policy.Accessed(p, m.memory.table[p]))
  }

  /** A fault on `p` served from the free frame `f`. */
  function Load(m: Mmu, a: MemoryAccess, p: PageId, f: FrameId): Mmu
    requires p in m.pages && f < |m.memory.frames|
  {
    Faulted(m, a).(memory := Memory(m.memory.table[p := f], m.memory.frames[f := Some(p)]),
                   pages := m.pages[p := m.pages[p].MapToFrame(f).Touch(a.operation)],
                   policy := m.policy.Accessed(p, f).Loaded(p, f))
  }

  /** The victim chosen for a fault. */
  function Chosen(m: Mmu, a: MemoryAccess): Mmu {
    Faulted(m, a).(policy := m.policy.ChooseVictim().0)
  }

  /** `v` out of frame `f` and `p` into it. */
  function Swap(m: Mmu, a: MemoryAccess, p: PageId, v: PageId, f: FrameId): Mmu
    requires p in m.pages && v in m.pages && f < |m.memory.frames|
  {
    var dirty := m.pages[v].dirty;
    var policy := m.policy.Removed(v, f).Accessed(p, f).Loaded(p, f);
    m.(memory := Memory(m.memory.table - {v} + map[p := f], m.memory.frames[f := Some(p)]),
       pages := m.pages[v := m.pages[v].UnmapFromFrame()][p := m.pages[p].MapToFrame(f).Touch(a.operation)],
       policy := if dirty then policy.RecordDirtyEviction() else policy,
       replacements := m.replacements + 1,
       dirtyEvictions := if dirty then m.dirtyEvictions + 1 else m.dirtyEvictions)
  }

  /** A fault on `p` served by evicting `v` from frame `f`. */
  function Replace(m: Mmu, a: MemoryAccess, p: PageId, v: PageId, f: FrameId): Mmu
    requires p in m.pages && v in m.pages && f < |m.memory.frames|
  {
    Swap(Chosen(m, a), a, p, v, f)
  }

  lemma MappingsAreConsistent(memory: Memory, p: PageId)
    requires Inverse(memory)
    ensures IsMappingConsistent(memory, p) <==> p in memory.table
    ensures FrameForPage(memory.frames, p) == Lookup(memory, p)
  {
    InverseHolds(memory);
    if p in memory.table {
      assert Lookup(memory, p) == Some(memory.table[p]);
      FrameForPageUnique(memory.frames, p, memory.table[p]);
    } else {
      assert p !in HeldPages(memory.frames);
    }
  }

  lemma AccessHits(m: Mmu, a: MemoryAccess, p: PageId)
    requires Consistent(m) && Target(m, a) == Some(p) && p in m.memory.table
    ensures Access(m, a) == (Hit(m, a, p), Success(m, a, m.memory.table[p], false, false, false))
  {
    MappingsAreConsistent(m.memory, p);
  }

  lemma AccessLoads(m: Mmu, a: MemoryAccess, p: PageId) returns (f: FrameId)
    requires Consistent(m) && Target(m, a) == Some(p) && p !in m.memory.table && !Full(m)
    ensures f < |m.memory.frames| && m.memory.frames[f].None?
    ensures forall g :: 0 <= g < f ==> m.memory.frames[g].Some?
    ensures Access(m, a) == (Load(m, a, p, f), Success(m, a, f, true, false, false))
  {
    AccessFaults(m, a, p);
    MappingsAreConsistent(m.memory, p);
    OccupiedBound(m.memory.frames);
    MapPageAllOrNothing(m.memory, p);
    assert None in m.memory.frames;
    assert FrameForPage(m.memory.frames, p).None?;
    f := MapPage(m.memory, p).1.value;
    LoadSucceeds(Faulted(m, a), a, p, f);
  }

  lemma LoadSucceeds(m: Mmu, a: MemoryAccess, p: PageId, f: FrameId)
    requires p in m.pages && m.pages[p].id == p && Resolve(m, m.pages[p].process, Decompose(a.address, m.pageSize).virtualPage) == Some(p)
    requires f < |m.memory.frames|
    requires MapPage(m.memory, p) == (Memory(m.memory.table[p := f], m.memory.frames[f := Some(p)]), Some(f))
    ensures LoadIntoFreeFrame(m, a, p)
         == (m.(memory := Memory(m.memory.table[p := f], m.memory.frames[f := Some(p)]),
                pages := m.pages[p := m.pages[p].MapToFrame(f).Touch(a.operation)],
                policy := m.policy.Accessed(p, f).Loaded(p, f)),
             Success(m, a, f, true, false, false))
  {
    var page := m.pages[p].MapToFrame(f);
    assert m.pages[p := page][p := page.Touch(a.operation)] == m.pages[p := page.Touch(a.operation)];
  }

  /** Whether the policy's answer can be used for this access. */
  function UsableVictim(m: Mmu, a: MemoryAccess): bool {
    var victim := m.policy.ChooseVictim().1;
    && victim.Some?
    && victim.value < |m.memory.frames|
    && MakePhysicalAddress(victim.value, Decompose(a.address, m.pageSize).offset, m.pageSize).Some?
  }

  lemma AccessReplaces(m: Mmu, a: MemoryAccess, p: PageId) returns (v: PageId, f: FrameId)
    requires Consistent(m) && Target(m, a) == Some(p) && p !in m.memory.table && Full(m) && UsableVictim(m, a)
    ensures f < |m.memory.frames| && m.memory.frames[f] == Some(v) && v in m.pages && v != p
    ensures Lookup(m.memory, v) == Some(f)
    ensures m.policy.ChooseVictim().1 == Some(f)
    ensures Access(m, a) == (Replace(m, a, p, v, f), Success(m, a, f, true, true, m.pages[v].dirty))
  {
    AccessFaults(m, a, p);
    v, f := FaultEvicts(m, a, p);
    MappingsAreConsistent(m.memory, p);
    EvictionSucceeds(Chosen(m, a), a, p, v, f);
  }

  /** A non-resident target goes to the free-frame path or to replacement. */
  lemma AccessFaults(m: Mmu, a: MemoryAccess, p: PageId)
    requires Consistent(m) && Target(m, a) == Some(p) && p !in m.memory.table
    ensures Access(m, a) == if Full(m) then ReplacePage(Faulted(m, a), a, p) else LoadIntoFreeFrame(Faulted(m, a), a, p)
  {
    hide Inverse, ReplacePage, LoadIntoFreeFrame;
    MappingsAreConsistent(m.memory, p);
    OccupiedBound(m.memory.frames);
    assert Access(m, a) == HandlePageFault(Counted(m, a), a, p);
  }

  lemma FaultEvicts(m: Mmu, a: MemoryAccess, p: PageId) returns (v: PageId, f: FrameId)
    requires Consistent(m) && Target(m, a) == Some(p) && p !in m.memory.table && Full(m) && UsableVictim(m, a)
    ensures f < |m.memory.frames| && m.memory.frames[f] == Some(v) && v in m.pages && v != p
    ensures Lookup(m.memory, v) == Some(f)
    ensures m.policy.ChooseVictim().1 == Some(f)
    ensures ReplacePage(Faulted(m, a), a, p)
         == EvictAndLoad(Chosen(m, a), a, p, v, f)
  {
    f := m.policy.ChooseVictim().1.value;
    OccupiedBound(m.memory.frames);
    v := m.memory.frames[f].value;
    assert Lookup(m.memory, v) == Some(f);
    MappingsAreConsistent(m.memory, v);
  }

  lemma EvictionSucceeds(m: Mmu, a: MemoryAccess, p: PageId, v: PageId, f: FrameId)
    requires p in m.pages && m.pages[p].id == p && v in m.pages && p != v
    requires Resolve(m, m.pages[p].process, Decompose(a.address, m.pageSize).virtualPage) == Some(p)
    requires Full(m) && p !in m.memory.table && FrameForPage(m.memory.frames, p).None?
    requires f < |m.memory.frames| && m.memory.frames[f] == Some(v) && Lookup(m.memory, v) == Some(f)
    ensures EvictAndLoad(m, a, p, v, f) == (Swap(m, a, p, v, f), Success(m, a, f, true, true, m.pages[v].dirty))
  {
    assert Some(p) !in m.memory.frames;
    EvictedFrameIsReused(m.memory, f, p);
    var evicted := Evicted(m, v, f);
    var page := m.pages[p].MapToFrame(f);
    assert evicted.pages[p] == m.pages[p];
    assert evicted.pages[p := page][p := page.Touch(a.operation)] == evicted.pages[p := page.Touch(a.operation)];
  }

  /** The outcome of every access in a consistent state, whatever the policy answers: it
      succeeds exactly when the process has the page registered and the page is resident, or
      a frame is free, or the policy names a frame whose address is representable. */
  lemma AccessSucceedsIff(m: Mmu, a: MemoryAccess)
    requires Consistent(m)
    ensures Access(m, a).1.success <==>
      && Target(m, a).Some?
      && (Target(m, a).value in m.memory.table || !Full(m) || UsableVictim(m, a))
  {
    hide Access, Inverse, PagesAgree, UsableVictim, Full, Target;
    if Target(m, a).Some? {
      var p := Target(m, a).value;
      if p in m.memory.table {
        AccessHits(m, a, p);
      } else if !Full(m) {
        var f := AccessLoads(m, a, p);
      } else if UsableVictim(m, a) {
        var v, f := AccessReplaces(m, a, p);
      } else {
        UnusableVictimFails(m, a, p);
      }
    } else {
      UnknownPageFails(m, a);
    }
  }

  lemma UnknownPageFails(m: Mmu, a: MemoryAccess)
    requires Target(m, a).None?
    ensures !Access(m, a).1.success
  {
  }

  lemma UnusableVictimFails(m: Mmu, a: MemoryAccess, p: PageId)
    requires Consistent(m) && Target(m, a) == Some(p) && p !in m.memory.table && Full(m) && !UsableVictim(m, a)
    ensures !Access(m, a).1.success
  {
    hide Access, Inverse, EvictAndLoad;
    AccessFaults(m, a, p);
  }

  /** What a refused access leaves behind: nothing when the page is not the process's own,
      and otherwise only the counted fault and the policy's decision. */
  lemma AccessRefused(m: Mmu, a: MemoryAccess)
    requires Consistent(m) && !Access(m, a).1.success
    ensures Target(m, a).None? ==> Access(m, a) == (m, Failure(UnregisteredPage))
    ensures Target(m, a).Some? ==>
      && Access(m, a).0 == Chosen(m, a)
      && Access(m, a).1 == match m.policy.ChooseVictim().1
                           case None => Failure(NoVictim).(pageFault := true)
                           case Some(f) => Failure(if f < |m.memory.frames| then AddressOverflow else InvalidVictim)
  {
    AccessSucceedsIff(m, a);
    if Target(m, a).Some? {
      var p := Target(m, a).value;
      AccessFaults(m, a, p);
      OccupiedBound(m.memory.frames);
      var victim := m.policy.ChooseVictim().1;
      if victim.Some? && victim.value < |m.memory.frames| {
        var v := m.memory.frames[victim.value].value;
        assert Lookup(m.memory, v) == Some(victim.value);
        MappingsAreConsistent(m.memory, v);
      }
    }
  }

  /** A failed access leaves page table, frames and every page record as they were, and the
      policy tracking what it tracked. */
  lemma FailedAccessIsAtomic(m: Mmu, a: MemoryAccess)
    requires Consistent(m) && !Access(m, a).1.success
    ensures var m' := Access(m, a).0;
      && m'.memory == m.memory && m'.pages == m.pages && m'.virtualPages == m.virtualPages
      && m'.replacements == m.replacements && m'.dirtyEvictions == m.dirtyEvictions
      && m'.policy.discipline.WellFormed()
      && m'.policy.discipline.Foreign? == m.policy.discipline.Foreign?
      && m'.policy.discipline.Tracked() == m.policy.discipline.Tracked()
  {
    AccessRefused(m, a);
    if !m.policy.discipline.Foreign? {
      VictimIsTracked(m.policy.discipline);
    }
  }

  /** With a policy of the repository the one thing that can refuse a registered page is an
      unrepresentable address in the victim frame; rollback is never needed. */
  lemma AccessIsTotal(m: Mmu, a: MemoryAccess)
    requires FourViews(m) && |m.memory.frames| >= 1 && Target(m, a).Some?
    requires |m.memory.frames| * m.pageSize <= TWO_TO_THE_64
    ensures Access(m, a).1.success
  {
    AccessSucceedsIff(m, a);
    if Full(m) && Target(m, a).value !in m.memory.table {
      FullHasVictim(m);
      var f := m.policy.ChooseVictim().1.value;
      var d := Decompose(a.address, m.pageSize);
      AddressableTranslate(|m.memory.frames|, m.pageSize, f, d.offset);
      MakePhysicalAddressExact(f, d.offset, m.pageSize);
    }
  }

  lemma FullHasVictim(m: Mmu)
    requires FourViews(m) && Full(m) && |m.memory.frames| >= 1
    ensures var v := m.policy.ChooseVictim().1; v.Some? && v.value < |m.memory.frames|
  {
    var d := m.policy.discipline;
    assert d.Tracked() != {} by { ViewsHaveEqualSize(m); }
    VictimIsTracked(d);
    var x :| x in d.Tracked() && x.frame == d.ChooseVictim().1.value;
    TablePairsMembers(m.memory.table);
    assert Lookup(m.memory, x.page) == Some(x.frame);
  }

  // ------------------------------------------------------------------ preservation

  lemma HitPreserves(m: Mmu, a: MemoryAccess, p: PageId)
    requires Consistent(m) && p in m.memory.table
    ensures Consistent(Hit(m, a, p))
    ensures PolicyAgrees(m) ==> PolicyAgrees(Hit(m, a, p))
    ensures CleanOutside(m) ==> CleanOutside(Hit(m, a, p))
  {
    AccessedTracks(m.policy.discipline, p, m.memory.table[p]);
  }

  /** Moving page `p` into frame `f`, out of which `old` goes, keeps table and frames inverse. */
  lemma MoveKeepsInverse(memory: Memory, p: PageId, f: FrameId)
    requires Inverse(memory) && f < |memory.frames| && p !in memory.table
    ensures var table := if memory.frames[f].Some? then memory.table - {memory.frames[f].value} else memory.table;
            Inverse(Memory(table[p := f], memory.frames[f := Some(p)]))
  {
    var table := if memory.frames[f].Some? then memory.table - {memory.frames[f].value} else memory.table;
    var after := Memory(table[p := f], memory.frames[f := Some(p)]);
    forall q: PageId, g: FrameId
      ensures Lookup(after, q) == Some(g) <==> g < |after.frames| && after.frames[g] == Some(q)
    {
      assert Lookup(memory, q) == Some(g) <==> g < |memory.frames| && memory.frames[g] == Some(q);
      assert Lookup(memory, q) == Some(f) <==> memory.frames[f] == Some(q);
    }
  }

  lemma LoadPreserves(m: Mmu, a: MemoryAccess, p: PageId, f: FrameId)
    requires Consistent(m) && p in m.pages && p !in m.memory.table
    requires f < |m.memory.frames| && m.memory.frames[f].None?
    ensures Consistent(Load(m, a, p, f))
    ensures PolicyAgrees(m) ==> PolicyAgrees(Load(m, a, p, f))
    ensures CleanOutside(m) ==> CleanOutside(Load(m, a, p, f))
  {
    hide Inverse, PagesAgree, Registered;
    MoveKeepsInverse(m.memory, p, f);
    LoadKeepsPages(m.pages, m.memory, p, f, a.operation);
    SameRegistrations(m, Load(m, a, p, f));
    var d := m.policy.discipline;
    AccessedTracks(d, p, f);
    LoadedTracks(d.Accessed(p, f), p, f);
    if PolicyAgrees(m) {
      FrameUnused(m.memory, f);
      LoadIsTracked(d.Accessed(p, f), m.memory.table, p, f);
    }
  }

  lemma LoadKeepsPages(pages: map<PageId, Page>, memory: Memory, p: PageId, f: FrameId, op: Operation)
    requires PagesAgree(pages, memory) && p in pages && f < |memory.frames| && p !in memory.table
    ensures PagesAgree(pages[p := pages[p].MapToFrame(f).Touch(op)], Memory(memory.table[p := f], memory.frames[f := Some(p)]))
  {
  }

  lemma SameRegistrations(m: Mmu, m': Mmu)
    requires Registered(m) && m'.virtualPages == m.virtualPages && m'.pages.Keys == m.pages.Keys
    requires forall p :: p in m.pages ==> m'.pages[p].process == m.pages[p].process
    ensures Registered(m')
  {
  }

  lemma FrameUnused(memory: Memory, f: FrameId)
    requires Inverse(memory) && f < |memory.frames| && memory.frames[f].None?
    ensures forall q :: q in memory.table ==> memory.table[q] != f
  {
    assert forall q :: q in memory.table ==> Lookup(memory, q) == Some(memory.table[q]);
  }

  /** A policy that tracks the table tracks a page loaded into an unused frame. */
  lemma LoadIsTracked(d: Discipline, table: map<PageId, FrameId>, p: PageId, f: FrameId)
    requires d.WellFormed() && !d.Foreign? && d.Tracked() == TablePairs(table)
    requires p !in table && forall q :: q in table ==> table[q] != f
    ensures d.Loaded(p, f).Tracked() == TablePairs(table[p := f])
  {
    LoadedTracks(d, p, f);
    TablePairsMembers(table);
    assert !Mentioned(d, p, f);
    TablePairsUpdate(table, p, f);
  }

  lemma ReplacePreserves(m: Mmu, a: MemoryAccess, p: PageId, v: PageId, f: FrameId)
    requires Consistent(m) && p in m.pages && p !in m.memory.table
    requires f < |m.memory.frames| && m.memory.frames[f] == Some(v) && v in m.pages && v != p
    requires Lookup(m.memory, v) == Some(f)
    ensures Consistent(Replace(m, a, p, v, f))
  {
    hide Inverse, PagesAgree, Registered;
    var after := Replace(m, a, p, v, f);
    SameRegistrations(m, after);
    MoveKeepsInverse(m.memory, p, f);
    assert after.memory.table == (m.memory.table - {v})[p := f];
    EvictionTracked(m.policy.discipline, p, v, f);
    SwapKeepsPages(m.pages, m.memory, p, v, f, a.operation);
  }

  lemma SwapKeepsPages(pages: map<PageId, Page>, memory: Memory, p: PageId, v: PageId, f: FrameId, op: Operation)
    requires PagesAgree(pages, memory) && p in pages && v in pages && v != p && f < |memory.frames|
    requires Lookup(memory, v) == Some(f) && p !in memory.table
    ensures PagesAgree(pages[v := pages[v].UnmapFromFrame()][p := pages[p].MapToFrame(f).Touch(op)],
                       Memory((memory.table - {v})[p := f], memory.frames[f := Some(p)]))
  {
  }

  lemma ReplaceKeepsOutsideClean(m: Mmu, a: MemoryAccess, p: PageId, v: PageId, f: FrameId)
    requires CleanOutside(m) && p in m.pages && v in m.pages && v != p && f < |m.memory.frames|
    ensures CleanOutside(Replace(m, a, p, v, f))
  {
  }

  lemma ReplaceKeepsPolicyAgreement(m: Mmu, a: MemoryAccess, p: PageId, v: PageId, f: FrameId)
    requires FourViews(m) && p in m.pages && p !in m.memory.table
    requires f < |m.memory.frames| && m.memory.frames[f] == Some(v) && v in m.pages && v != p
    requires Lookup(m.memory, v) == Some(f)
    ensures PolicyAgrees(Replace(m, a, p, v, f))
  {
    hide Inverse, PagesAgree, Registered;
    var table := m.memory.table;
    assert table - {v} + map[p := f] == (table - {v})[p := f];
    FrameHasOnePage(m.memory, v, f);
    EvictionTracksTable(m.policy.discipline, table, p, v, f);
  }

  lemma FrameHasOnePage(memory: Memory, v: PageId, f: FrameId)
    requires Inverse(memory) && Lookup(memory, v) == Some(f)
    ensures forall q :: q in memory.table ==> (memory.table[q] == f <==> q == v)
  {
  }

  /** The four notifications of a replacement follow the page table. */
  lemma EvictionTracksTable(d: Discipline, table: map<PageId, FrameId>, p: PageId, v: PageId, f: FrameId)
    requires d.WellFormed() && !d.Foreign? && d.Tracked() == TablePairs(table)
    requires p !in table && v in table && forall q :: q in table ==> (table[q] == f <==> q == v)
    ensures d.ChooseVictim().0.Removed(v, f).Accessed(p, f).Loaded(p, f).Tracked() == TablePairs((table - {v})[p := f])
  {
    EvictionTracked(d, p, v, f);
    TablePairsRemove(table, v);
    LoadIsTracked(d.ChooseVictim().0.Removed(v, f).Accessed(p, f), table - {v}, p, f);
  }

  /** The notifications of a replacement, up to the load. */
  lemma EvictionTracked(d: Discipline, p: PageId, v: PageId, f: FrameId)
    requires d.WellFormed()
    ensures var evicted := d.ChooseVictim().0.Removed(v, f).Accessed(p, f);
      && evicted.WellFormed() && evicted.Loaded(p, f).WellFormed()
      && evicted.Foreign? == d.Foreign?
      && evicted.Tracked() == d.Tracked() - {Pair(v, f)}
  {
    if !d.Foreign? {
      VictimIsTracked(d);
    }
    var chosen := d.ChooseVictim().0;
    RemovedTracks(chosen, v, f);
    AccessedTracks(chosen.Removed(v, f), p, f);
    LoadedTracks(chosen.Removed(v, f).Accessed(p, f), p, f);
  }

  /** One access keeps the three core views in agreement whatever the policy answers, and
      all four when the policy is one of the repository's. */
  lemma AccessPreserves(m: Mmu, a: MemoryAccess)
    requires Consistent(m)
    ensures Consistent(Access(m, a).0)
    ensures PolicyAgrees(m) ==> PolicyAgrees(Access(m, a).0)
    ensures CleanOutside(m) ==> CleanOutside(Access(m, a).0)
    ensures |Access(m, a).0.memory.frames| == |m.memory.frames|
    ensures Access(m, a).0.virtualPages == m.virtualPages && Access(m, a).0.pageSize == m.pageSize
  {
    AccessSucceedsIff(m, a);
    if !Access(m, a).1.success {
      FailedAccessIsAtomic(m, a);
      RefusalKeepsConfiguration(m, a);
    } else {
      var p := Target(m, a).value;
      if p in m.memory.table {
        AccessHits(m, a, p);
        HitPreserves(m, a, p);
      } else if !Full(m) {
        var f := AccessLoads(m, a, p);
        LoadPreserves(m, a, p, f);
      } else {
        var v, f := AccessReplaces(m, a, p);
        ReplacePreserves(m, a, p, v, f);
        if CleanOutside(m) {
          ReplaceKeepsOutsideClean(m, a, p, v, f);
        }
        if PolicyAgrees(m) {
          ReplaceKeepsPolicyAgreement(m, a, p, v, f);
        }
      }
    }
  }

  lemma RefusalKeepsConfiguration(m: Mmu, a: MemoryAccess)
    requires Consistent(m) && !Access(m, a).1.success
    ensures Access(m, a).0.pageSize == m.pageSize
  {
    AccessRefused(m, a);
  }
}
