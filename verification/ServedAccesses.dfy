/** What one access does, written out field by field: the record of its page, the victim's,
    frames and page table, and every field of the result. */
module ServedAccesses {
  import opened Core
  import opened Addresses
  import opened MemoryModel
  import opened MmuModel
  import opened MmuInvariant
  import opened MmuRuns

  // ----------------------------------------------------------------- the result

  /** A failure reports an error and neither frame nor address nor replacement, a success the
      opposite; the one failure reported as a page fault is that there is no victim. */
  predicate Shaped(r: AccessResult) {
    && (r.success <==> r.error.None?)
    && (r.success <==> r.frame.Some?)
    && (r.success <==> r.physicalAddress.Some?)
    && (!r.success ==> !r.pageReplacement && !r.dirtyEviction)
    && (!r.success && r.pageFault ==> r.error == Some(NoVictim))
    && (r.pageReplacement ==> r.pageFault)
    && (r.dirtyEviction ==> r.pageReplacement)
  }

  /** From any state and whatever the policy answers. */
  lemma ResultShape(m: Mmu, a: MemoryAccess)
    ensures Shaped(Access(m, a).1)
  {
    hide CompleteAccess, HandlePageFault, Shaped, IsMappingConsistent, Resolve;
    FailureShape();
    var counted := m.(statistics := m.statistics.RecordAccess(a.process));
    forall p: PageId | p in m.pages
      ensures Shaped(HandlePageFault(counted, a, p).1)
    {
      FaultShape(counted, a, p);
    }
    forall p: PageId, f: FrameId | p in m.pages
      ensures Shaped(CompleteAccess(counted, a, p, f, false, false, false).1)
    {
      CompleteShape(counted, a, p, f, false, false, false);
    }
  }

  lemma FailureShape()
    ensures forall e :: Shaped(Failure(e))
  {
  }

  lemma CompleteShape(m: Mmu, a: MemoryAccess, p: PageId, f: FrameId, fault: bool, replacement: bool, dirty: bool)
    requires p in m.pages && (replacement ==> fault) && (dirty ==> replacement)
    ensures Shaped(CompleteAccess(m, a, p, f, fault, replacement, dirty).1)
  {
    hide Translate, Resolve;
  }

  lemma FaultShape(m: Mmu, a: MemoryAccess, p: PageId)
    requires p in m.pages
    ensures Shaped(HandlePageFault(m, a, p).1)
  {
    hide LoadIntoFreeFrame, ReplacePage, Shaped, Occupied, FrameForPage;
    FailureShape();
    var counted := m.(faults := m.faults + 1, statistics := m.statistics.RecordPageFault(a.process));
    LoadShape(counted, a, p);
    ReplaceShape(counted, a, p);
  }

  lemma ReplaceShape(m: Mmu, a: MemoryAccess, p: PageId)
    requires p in m.pages
    ensures Shaped(ReplacePage(m, a, p).1)
  {
    hide EvictAndLoad, IsMappingConsistent, MakePhysicalAddress;
    var chosen := m.(policy := m.policy.ChooseVictim().0);
    forall v: PageId, f: FrameId | v in m.pages
      ensures Shaped(EvictAndLoad(chosen, a, p, v, f).1)
    {
      EvictShape(chosen, a, p, v, f);
    }
  }

  lemma LoadShape(m: Mmu, a: MemoryAccess, p: PageId)
    requires p in m.pages
    ensures Shaped(LoadIntoFreeFrame(m, a, p).1)
  {
    hide MapPage, ReleaseFrame, Translate;
  }

  lemma EvictShape(m: Mmu, a: MemoryAccess, p: PageId, v: PageId, f: FrameId)
    requires p in m.pages && v in m.pages
    ensures Shaped(EvictAndLoad(m, a, p, v, f).1)
  {
    hide MapPage, ReleaseFrame, RestoreVictim, Translate;
  }

  /** From any state: whose page it is decides first, and nothing is recorded for a page that
      is not the process's own; a mapping that frames and table disagree on is refused once
      the access is recorded. */
  lemma EarlyRefusals(m: Mmu, a: MemoryAccess)
    ensures var own := exists p: PageId :: Owns(m, a, p);
      && (!own && Target(m, a).Some? && Target(m, a).value in m.pages ==> Access(m, a) == (m, Failure(NotOwner)))
      && (!own && (Target(m, a).None? || Target(m, a).value !in m.pages) ==> Access(m, a) == (m, Failure(UnregisteredPage)))
    ensures (exists p :: Owns(m, a, p) && Mismatched(m.memory, p)) ==>
      Access(m, a) == (m.(statistics := m.statistics.RecordAccess(a.process)), Failure(InconsistentMapping))
  {
    hide CompleteAccess, HandlePageFault;
    assert forall p :: Target(m, a) == Some(p) && p in m.pages && m.pages[p].process == a.process ==> Owns(m, a, p);
  }

  predicate Mismatched(memory: Memory, p: PageId) {
    p in memory.table && FrameForPage(memory.frames, p) != Some(memory.table[p])
  }

  predicate Owns(m: Mmu, a: MemoryAccess, p: PageId) {
    Target(m, a) == Some(p) && p in m.pages && m.pages[p].process == a.process
  }

  /** What makes a frame unusable for a replacement, from any state, and the error for it; the
      first that applies is reported. */
  function FrameError(m: Mmu, a: MemoryAccess, f: FrameId): Option<AccessError> {
    if f >= |m.memory.frames| then Some(InvalidVictim)
    else match m.memory.frames[f]
      case None => Some(FreeVictim)
      case Some(v) =>
        if v !in m.pages then Some(UnregisteredVictim)
        else if m.pages[v].mappedFrame == None then Some(NonresidentVictim)
        else if m.pages[v].mappedFrame != Some(f) then Some(MisplacedVictim)
        else if Lookup(m.memory, v).None? || FrameForPage(m.memory.frames, v) != Lookup(m.memory, v) then Some(InconsistentVictim)
        else if f * m.pageSize + a.address % m.pageSize > 0xFFFF_FFFF_FFFF_FFFF then Some(AddressOverflow)
        else None
  }

  /** A frame that cannot be used leaves everything but the policy's own decision as it was. */
  lemma VictimRefusals(m: Mmu, a: MemoryAccess, p: PageId, f: FrameId, e: AccessError)
    requires p in m.pages && m.policy.ChooseVictim().1 == Some(f) && FrameError(m, a, f) == Some(e)
    ensures ReplacePage(m, a, p) == (m.(policy := m.policy.ChooseVictim().0), Failure(e))
  {
    hide EvictAndLoad;
    MakePhysicalAddressExact(f, Decompose(a.address, m.pageSize).offset, m.pageSize);
  }

  // -------------------------------------------------------------------- the state

  /** The page that an access served in frame `f` finds there and evicts, if it is another's. */
  function Evictee(m: Mmu, p: PageId, f: FrameId): Option<PageId> {
    if f < |m.memory.frames| && m.memory.frames[f] != Some(p) then m.memory.frames[f] else None
  }

  /** The records after page `p` was served in frame `f`. */
  ghost predicate RecordsServed(m: Mmu, m': Mmu, p: PageId, f: FrameId, write: bool)
    requires p in m.pages
  {
    && m'.pages.Keys == m.pages.Keys
    && m'.pages[p] == Page(p, m.pages[p].process, Some(f), write || m.pages[p].dirty, true)
    && forall q :: q in m.pages && q != p ==>
         m'.pages[q] == if Evictee(m, p, f) == Some(q) then Page(q, m.pages[q].process, None, false, false) else m.pages[q]
  }

  ghost predicate MemoryServed(memory: Memory, memory': Memory, p: PageId, f: FrameId) {
    && f < |memory.frames| && memory'.frames == memory.frames[f := Some(p)]
    && forall q: PageId :: Lookup(memory', q) ==
         if q == p then Some(f) else if memory.frames[f] == Some(q) then None else Lookup(memory, q)
  }

  ghost predicate ResultServed(m: Mmu, a: MemoryAccess, p: PageId, r: AccessResult) {
    && r.frame.Some? && r.error.None?
    && (r.pageFault <==> Lookup(m.memory, p).None?)
    && (p in m.memory.table ==> r.frame.value == m.memory.table[p])
    && (r.pageReplacement <==> r.pageFault && forall f :: 0 <= f < |m.memory.frames| ==> m.memory.frames[f].Some?)
    && (r.dirtyEviction <==> r.pageReplacement && IsDirty(m, Evictee(m, p, r.frame.value)))
    && r.physicalAddress == Some((r.frame.value * m.pageSize + a.address % m.pageSize) % 0x1_0000_0000_0000_0000)
  }

  predicate IsDirty(m: Mmu, p: Option<PageId>) {
    p.Some? && p.value in m.pages && m.pages[p.value].dirty
  }

  /** A served access marks its page referenced, and dirty when it writes; clears the marks of
      the page it evicts; and touches no other record, frame or table entry. */
  lemma ServedAccess(m: Mmu, a: MemoryAccess)
    requires Consistent(m) && Access(m, a).1.success
    ensures Target(m, a).Some? && Target(m, a).value in m.pages
    ensures var (m', r, p) := (Access(m, a).0, Access(m, a).1, Target(m, a).value);
      && m.pages[p].process == a.process
      && ResultServed(m, a, p, r)
      && RecordsServed(m, m', p, r.frame.value, a.operation.Write?)
      && MemoryServed(m.memory, m'.memory, p, r.frame.value)
  {
    hide Access, Inverse, RecordsServed, MemoryServed, ResultServed, Translate;
    AccessSucceedsIff(m, a);
    var p := Target(m, a).value;
    if p in m.memory.table {
      AccessHits(m, a, p);
      HitServed(m, a, p);
    } else if !Full(m) {
      var f := AccessLoads(m, a, p);
      LoadServed(m, a, p, f);
    } else {
      var v, f := AccessReplaces(m, a, p);
      ReplaceServed(m, a, p, v, f);
    }
  }

  lemma HitServed(m: Mmu, a: MemoryAccess, p: PageId)
    requires Consistent(m) && p in m.pages && p in m.memory.table
    ensures var f := m.memory.table[p];
      && ResultServed(m, a, p, Success(m, a, f, false, false, false))
      && RecordsServed(m, Hit(m, a, p), p, f, a.operation.Write?)
      && MemoryServed(m.memory, Hit(m, a, p).memory, p, f)
  {
    var f := m.memory.table[p];
    assert m.memory.frames[f] == Some(p);
    assert m.memory.frames[f := Some(p)] == m.memory.frames;
  }

  lemma LoadServed(m: Mmu, a: MemoryAccess, p: PageId, f: FrameId)
    requires Consistent(m) && p in m.pages && p !in m.memory.table && f < |m.memory.frames| && m.memory.frames[f].None?
    ensures ResultServed(m, a, p, Success(m, a, f, true, false, false))
    ensures RecordsServed(m, Load(m, a, p, f), p, f, a.operation.Write?)
    ensures MemoryServed(m.memory, Load(m, a, p, f).memory, p, f)
  {
  }

  lemma ReplaceServed(m: Mmu, a: MemoryAccess, p: PageId, v: PageId, f: FrameId)
    requires Consistent(m) && p in m.pages && v in m.pages && p !in m.memory.table && Full(m) && v != p
    requires f < |m.memory.frames| && m.memory.frames[f] == Some(v) && Lookup(m.memory, v) == Some(f)
    ensures ResultServed(m, a, p, Success(m, a, f, true, true, m.pages[v].dirty))
    ensures RecordsServed(m, Replace(m, a, p, v, f), p, f, a.operation.Write?)
    ensures MemoryServed(m.memory, Replace(m, a, p, v, f).memory, p, f)
  {
    hide Inverse, Registered, RecordsServed, MemoryServed;
    OccupiedBound(m.memory.frames);
    SwapRecords(m, Replace(m, a, p, v, f), p, v, f, a.operation);
    MoveServed(m.memory, p, v, f);
  }

  lemma SwapRecords(m: Mmu, m': Mmu, p: PageId, v: PageId, f: FrameId, operation: Operation)
    requires PagesAgree(m.pages, m.memory) && p in m.pages && v in m.pages && v != p
    requires f < |m.memory.frames| && m.memory.frames[f] == Some(v)
    requires m'.pages == m.pages[v := m.pages[v].UnmapFromFrame()][p := m.pages[p].MapToFrame(f).Touch(operation)]
    ensures RecordsServed(m, m', p, f, operation.Write?)
  {
  }

  lemma MoveServed(memory: Memory, p: PageId, v: PageId, f: FrameId)
    requires p !in memory.table && v != p && f < |memory.frames| && memory.frames[f] == Some(v) && Lookup(memory, v) == Some(f)
    ensures MemoryServed(memory, Memory(memory.table - {v} + map[p := f], memory.frames[f := Some(p)]), p, f)
  {
  }

  // ------------------------------------------------------------- the referenced mark

  /** A page carries the referenced mark exactly while it is resident. */
  ghost predicate MarksResidency(m: Mmu) {
    forall p :: p in m.pages ==> (m.pages[p].referenced <==> Lookup(m.memory, p).Some?)
  }

  /** The operation registers a page that already carries the referenced mark. */
  predicate RegistersReferenced(m: Mmu, op: Op) {
    match op
    case Register(page) => page.referenced && RegisterPage(m, page).1
    case RegisterAt(page, number) => page.referenced && RegisterPageAt(m, page, number).1
    case DoAccess(_) => false
    case DoReset => false
    case Supply(_) => false
  }

  lemma AccessMarksResidency(m: Mmu, a: MemoryAccess)
    requires Consistent(m) && MarksResidency(m)
    ensures MarksResidency(Access(m, a).0)
  {
    hide Access, Consistent, ResultServed;
    if Access(m, a).1.success {
      ServedAccess(m, a);
    } else {
      FailedAccessIsAtomic(m, a);
    }
  }

  lemma StepMarksResidency(m: Mmu, op: Op, m': Mmu)
    requires Consistent(m) && Step(m, op, m') && MarksResidency(m)
    ensures MarksResidency(m') <==> !RegistersReferenced(m, op)
  {
    hide Access, MarksResidency, Inverse;
    match op
    case DoAccess(a) => AccessMarksResidency(m, a);
    case DoReset =>
      var order :| ResetTo(m, order, m');
      ResetIsAsNew(m, order);
      NewMarksResidency(m);
    case Register(page) =>
      if RegisterPage(m, page).1 {
        RegistrationMarks(m, page, m');
      }
    case RegisterAt(page, number) =>
      if RegisterPageAt(m, page, number).1 {
        RegistrationMarks(m, page, m');
      }
    case Supply(_) => SameMarks(m, m');
  }

  lemma NewMarksResidency(m: Mmu)
    requires Consistent(m) && MarksResidency(m)
    ensures MarksResidency(AsNew(m))
  {
  }

  lemma RegistrationMarks(m: Mmu, page: Page, m': Mmu)
    requires MarksResidency(m) && Registrable(m, page)
    requires m'.pages == m.pages[page.id := page] && m'.memory == m.memory
    ensures MarksResidency(m') <==> !page.referenced
  {
    if !page.referenced {
      assert forall p :: p in m'.pages && p != page.id ==> m'.pages[p] == m.pages[p];
    } else {
      assert m'.pages[page.id].referenced;
    }
  }

  lemma SameMarks(m: Mmu, m': Mmu)
    requires m'.pages == m.pages && m'.memory == m.memory
    ensures MarksResidency(m') <==> MarksResidency(m)
  {
  }

  /** At every point of a run of operations, with any policy, the referenced pages are the
      resident ones, exactly when they are at its start and no page is registered with the
      mark. */
  lemma ReferencedIffResident(states: seq<Mmu>, ops: seq<Op>)
    requires Run(states, ops) && Consistent(states[0])
    ensures (forall n :: 0 <= n <= |ops| ==> MarksResidency(states[n]))
       <==> MarksResidency(states[0]) && forall i :: 0 <= i < |ops| ==> !RegistersReferenced(states[i], ops[i])
  {
    hide Step, Consistent, MarksResidency, RegistersReferenced;
    if MarksResidency(states[0]) && forall i :: 0 <= i < |ops| ==> !RegistersReferenced(states[i], ops[i]) {
      forall n | 0 <= n <= |ops|
        ensures MarksResidency(states[n])
      {
        MarkedUpTo(states, ops, n);
      }
    }
    if forall n :: 0 <= n <= |ops| ==> MarksResidency(states[n]) {
      forall i | 0 <= i < |ops|
        ensures !RegistersReferenced(states[i], ops[i])
      {
        RunsAgree(states, ops, i);
        assert StepAt(states, ops, i);
        StepMarksResidency(states[i], ops[i], states[i + 1]);
      }
    }
  }

  lemma {:induction false} MarkedUpTo(states: seq<Mmu>, ops: seq<Op>, n: nat)
    requires Run(states, ops) && Consistent(states[0]) && MarksResidency(states[0]) && n <= |ops|
    requires forall i :: 0 <= i < n ==> !RegistersReferenced(states[i], ops[i])
    ensures MarksResidency(states[n])
  {
    hide Step, Consistent, MarksResidency, RegistersReferenced;
    if n > 0 {
      MarkedUpTo(states, ops, n - 1);
      RunsAgree(states, ops, n - 1);
      assert StepAt(states, ops, n - 1);
      StepMarksResidency(states[n - 1], ops[n - 1], states[n]);
    }
  }

  // ------------------------------------------------------------------ registration

  /** Neither the unit, nor the table, nor any frame knows the page, and it is in no frame. */
  ghost predicate Unknown(m: Mmu, page: Page) {
    && page.mappedFrame == None
    && page.id !in m.pages && page.id !in m.memory.table
    && forall f :: 0 <= f < |m.memory.frames| ==> m.memory.frames[f] != Some(page.id)
  }

  /** Under its own identifier a page is registered exactly when it is unknown, from any
      state. It is stored as given, its number leads to it if no other page has that number,
      and nothing else changes. */
  lemma RegisterPageExact(m: Mmu, page: Page)
    ensures RegisterPage(m, page).1 <==> Unknown(m, page)
    ensures !RegisterPage(m, page).1 ==> RegisterPage(m, page).0 == m
    ensures RegisterPage(m, page).1 ==>
      var (m', v) := (RegisterPage(m, page).0, VirtualPage(page.process, page.id));
      && m'.pages == m.pages[page.id := page]
      && m'.virtualPages == (map[v := page.id] + m.virtualPages)
      && m' == m.(pages := m'.pages, virtualPages := m'.virtualPages)
  {
    RegistrableIffUnknown(m, page);
    var v := VirtualPage(page.process, page.id);
    assert v in m.virtualPages ==> map[v := page.id] + m.virtualPages == m.virtualPages;
    assert v !in m.virtualPages ==> map[v := page.id] + m.virtualPages == m.virtualPages[v := page.id];
  }

  /** Under a chosen number it is registered exactly when it is unknown and the number is
      free. It is stored as given, the number leads to it, and nothing else changes. */
  lemma RegisterPageAtExact(m: Mmu, page: Page, number: nat)
    ensures RegisterPageAt(m, page, number).1 <==> Unknown(m, page) && VirtualPage(page.process, number) !in m.virtualPages
    ensures !RegisterPageAt(m, page, number).1 ==> RegisterPageAt(m, page, number).0 == m
    ensures RegisterPageAt(m, page, number).1 ==>
      RegisterPageAt(m, page, number).0
      == m.(pages := m.pages[page.id := page], virtualPages := m.virtualPages[VirtualPage(page.process, number) := page.id])
  {
    RegistrableIffUnknown(m, page);
  }

  lemma RegistrableIffUnknown(m: Mmu, page: Page)
    ensures Registrable(m, page) <==> Unknown(m, page)
  {
  }
}
