/** The memory-management unit as a state machine: registration, access with page-fault
    handling and rollback, and reset, each with the branches the implementation has, from
    any state. */
module MmuModel {
  import opened Core
  import opened Addresses
  import opened PolicyModel
  import opened MemoryModel

  datatype Operation = Read | Write

  datatype MemoryAccess = MemoryAccess(process: ProcessId, address: U64, operation: Operation, sequenceNumber: nat)

  datatype AccessError =
    | UnregisteredPage
    | NotOwner
    | InconsistentMapping
    | NotResident
    | WrongFrame
    | AlreadyResident
    | AlreadyMapped
    | FreeFrameNotMapped
    | NoVictim
    | InvalidVictim
    | FreeVictim
    | UnregisteredVictim
    | NonresidentVictim
    | MisplacedVictim
    | InconsistentVictim
    | AddressOverflow
    | VictimNotReleased
    | VictimFrameNotReused
    | WrongVirtualPage

  datatype AccessResult = AccessResult(
    success: bool, pageFault: bool, pageReplacement: bool, frame: Option<FrameId>,
    physicalAddress: Option<nat>, dirtyEviction: bool, error: Option<AccessError>)

  function Failure(e: AccessError): AccessResult {
    AccessResult(false, false, false, None, None, false, Some(e))
  }

  datatype Page = Page(id: PageId, process: ProcessId, mappedFrame: Option<FrameId>, dirty: bool, referenced: bool)
  {
    predicate IsResident() {
      mappedFrame.Some?
    }

    function MapToFrame(f: FrameId): Page {
      this.(mappedFrame := Some(f))
    }

    function UnmapFromFrame(): Page {
      this.(mappedFrame := None, dirty := false, referenced := false)
    }

    /** A completed access marks the page referenced, and dirty when it is a write. */
    function Touch(operation: Operation): Page {
      this.(referenced := true, dirty := dirty || operation.Write?)
    }
  }

  datatype ProcessCounters = ProcessCounters(accesses: nat, pageFaults: nat)

  datatype FaultStatistics = FaultStatistics(
    processes: map<ProcessId, ProcessCounters>, totalAccesses: nat, totalPageFaults: nat)
  {
    function Of(q: ProcessId): ProcessCounters {
      if q in processes then processes[q] else ProcessCounters(0, 0)
    }

    function RecordAccess(q: ProcessId): FaultStatistics {
      var c := Of(q);
      FaultStatistics(processes[q := c.(accesses := c.accesses + 1)], totalAccesses + 1, totalPageFaults)
    }

    function RecordPageFault(q: ProcessId): FaultStatistics {
      var c := Of(q);
      FaultStatistics(processes[q := c.(pageFaults := c.pageFaults + 1)], totalAccesses, totalPageFaults + 1)
    }
  }

  const NO_STATISTICS := FaultStatistics(map[], 0, 0)

  /** A policy together with the replacement statistics it keeps. */
  datatype Policy = Policy(discipline: Discipline, replacementCount: nat, dirtyEvictionCount: nat)
  {
    function Loaded(p: PageId, f: FrameId): Policy {
      this.(discipline := discipline.Loaded(p, f))
    }

    function Accessed(p: PageId, f: FrameId): Policy {
      this.(discipline := discipline.Accessed(p, f))
    }

    function Removed(p: PageId, f: FrameId): Policy {
      this.(discipline := discipline.Removed(p, f))
    }

    function RecordDirtyEviction(): Policy {
      this.(dirtyEvictionCount := dirtyEvictionCount + 1)
    }

    /** Naming a victim counts as one replacement decision. */
    function ChooseVictim(): (Policy, Option<FrameId>) {
      var (d, v) := discipline.ChooseVictim();
      (Policy(d, if v.Some? then replacementCount + 1 else replacementCount, dirtyEvictionCount), v)
    }

    function Reset(): Policy {
      Policy(discipline.Reset(), 0, 0)
    }
  }

  datatype VirtualPage = VirtualPage(process: ProcessId, number: nat)

  datatype Mmu = Mmu(
    memory: Memory,
    pages: map<PageId, Page>,
    virtualPages: map<VirtualPage, PageId>,
    policy: Policy,
    pageSize: PageSize,
    statistics: FaultStatistics,
    faults: nat,
    replacements: nat,
    dirtyEvictions: nat)

  /** A unit over empty memory with `k` frames. */
  function Initial(k: nat, discipline: Discipline, pageSize: PageSize): Mmu {
    Mmu(Memory(map[], seq(k, _ => None)), map[], map[], Policy(discipline, 0, 0), pageSize, NO_STATISTICS, 0, 0, 0)
  }

  // ------------------------------------------------------------------ registration

  function Registrable(m: Mmu, page: Page): bool {
    && !page.IsResident()
    && page.id !in m.pages
    && Lookup(m.memory, page.id).None?
    && FrameForPage(m.memory.frames, page.id).None?
  }

  /** Registration under the page's own identifier: succeeds even when that virtual page is
      already taken. */
  function RegisterPage(m: Mmu, page: Page): (Mmu, bool) {
    if !Registrable(m, page) then (m, false)
    else
      var v := VirtualPage(page.process, page.id);
      (m.(pages := m.pages[page.id := page],
          virtualPages := if v in m.virtualPages then m.virtualPages else m.virtualPages[v := page.id]), true)
  }

  function RegisterPageAt(m: Mmu, page: Page, number: nat): (Mmu, bool) {
    var v := VirtualPage(page.process, number);
    if !Registrable(m, page) || v in m.virtualPages then (m, false)
    else (m.(pages := m.pages[page.id := page], virtualPages := m.virtualPages[v := page.id]), true)
  }

  // ------------------------------------------------------------------------ access

  function Resolve(m: Mmu, q: ProcessId, number: nat): Option<PageId> {
    var v := VirtualPage(q, number);
    if v in m.virtualPages then Some(m.virtualPages[v]) else None
  }

  function Access(m: Mmu, a: MemoryAccess): (Mmu, AccessResult) {
    match Resolve(m, a.process, Decompose(a.address, m.pageSize).virtualPage)
    case None => (m, Failure(UnregisteredPage))
    case Some(p) =>
      if p !in m.pages then (m, Failure(UnregisteredPage))
      else if m.pages[p].process != a.process then (m, Failure(NotOwner))
      else
        var counted := m.(statistics := m.statistics.RecordAccess(a.process));
        match Lookup(m.memory, p)
        case None => HandlePageFault(counted, a, p)
        case Some(f) =>
          if !IsMappingConsistent(m.memory, p) then (counted, Failure(InconsistentMapping))
          else CompleteAccess(counted, a, p, f, false, false, false)
  }

  function CompleteAccess(
    m: Mmu, a: MemoryAccess, p: PageId, f: FrameId, fault: bool, replacement: bool, dirtyEviction: bool)
    : (Mmu, AccessResult)
    requires p in m.pages
  {
    var page := m.pages[p];
    var d := Decompose(a.address, m.pageSize);
    if page.mappedFrame.None? then (m, Failure(NotResident))
    else if page.mappedFrame.value != f then (m, Failure(WrongFrame))
    else if Resolve(m, page.process, d.virtualPage) != Some(page.id) then (m, Failure(WrongVirtualPage))
    else
      (m.(pages := m.pages[p := page.Touch(a.operation)], policy := m.policy.Accessed(page.id, f)),
       AccessResult(true, fault, replacement, Some(f), Some(Translate(f, d.offset, m.pageSize)), dirtyEviction, None))
  }

  function HandlePageFault(m: Mmu, a: MemoryAccess, p: PageId): (Mmu, AccessResult)
    requires p in m.pages
  {
    if m.pages[p].IsResident() then (m, Failure(AlreadyResident))
    else if Lookup(m.memory, p).Some? || FrameForPage(m.memory.frames, p).Some? then (m, Failure(AlreadyMapped))
    else
      var counted := m.(faults := m.faults + 1, statistics := m.statistics.RecordPageFault(a.process));
      if Occupied(m.memory.frames) < |m.memory.frames| then LoadIntoFreeFrame(counted, a, p)
      else ReplacePage(counted, a, p)
  }

  function LoadIntoFreeFrame(m: Mmu, a: MemoryAccess, p: PageId): (Mmu, AccessResult)
    requires p in m.pages
  {
    var (memory, frame) := MapPage(m.memory, p);
    if frame.None? then (m, Failure(FreeFrameNotMapped))
    else
      var f := frame.value;
      var mapped := m.(memory := memory, pages := m.pages[p := m.pages[p].MapToFrame(f)]);
      var (done, result) := CompleteAccess(mapped, a, p, f, true, false, false);
      if !result.success then (Withdraw(done, p, f), result)
      else (done.(policy := done.policy.Loaded(p, f)), result)
  }

  /** Undoes the mapping of the requested page. */
  function Withdraw(m: Mmu, p: PageId, f: FrameId): Mmu
    requires p in m.pages
  {
    m.(pages := m.pages[p := m.pages[p].UnmapFromFrame()], memory := ReleaseFrame(m.memory, f).0)
  }

  function ReplacePage(m: Mmu, a: MemoryAccess, p: PageId): (Mmu, AccessResult)
    requires p in m.pages
  {
    var (policy, victim) := m.policy.ChooseVictim();
    var chosen := m.(policy := policy);
    if victim.None? then
      (chosen, AccessResult(false, true, false, None, None, false, Some(NoVictim)))
    else
      var f := victim.value;
      if f >= |m.memory.frames| then (chosen, Failure(InvalidVictim))
      else if m.memory.frames[f].None? then (chosen, Failure(FreeVictim))
      else
        var v := m.memory.frames[f].value;
        if v !in m.pages then (chosen, Failure(UnregisteredVictim))
        else if !m.pages[v].IsResident() then (chosen, Failure(NonresidentVictim))
        else if m.pages[v].mappedFrame.value != f then (chosen, Failure(MisplacedVictim))
        else if !IsMappingConsistent(m.memory, v) then (chosen, Failure(InconsistentVictim))
        else if MakePhysicalAddress(f, Decompose(a.address, m.pageSize).offset, m.pageSize).None? then
          (chosen, Failure(AddressOverflow))
        else EvictAndLoad(chosen, a, p, v, f)
  }

  function EvictAndLoad(m: Mmu, a: MemoryAccess, p: PageId, v: PageId, f: FrameId): (Mmu, AccessResult)
    requires p in m.pages && v in m.pages
  {
    var victim := m.pages[v];
    var (memory, released) := ReleaseFrame(m.memory, f);
    if !released then (m, Failure(VictimNotReleased))
    else LoadIntoVictimFrame(Evicted(m, v, f), a, p, v, f, victim.dirty, victim.referenced)
  }

  /** The victim out of page table, frame, its own page record and the policy. */
  function Evicted(m: Mmu, v: PageId, f: FrameId): Mmu
    requires v in m.pages
  {
    m.(memory := ReleaseFrame(m.memory, f).0,
       pages := m.pages[v := m.pages[v].UnmapFromFrame()],
       policy := m.policy.Removed(v, f))
  }

  function LoadIntoVictimFrame(
    m: Mmu, a: MemoryAccess, p: PageId, v: PageId, f: FrameId, dirty: bool, referenced: bool): (Mmu, AccessResult)
    requires p in m.pages && v in m.pages
  {
    var (memory, frame) := MapPage(m.memory, p);
    if frame != Some(f) then
      var back := if frame.Some? then ReleaseFrame(memory, frame.value).0 else memory;
      (RestoreVictim(m.(memory := back), v, f, dirty, referenced).0, Failure(VictimFrameNotReused))
    else
      var mapped := m.(memory := memory, pages := m.pages[p := m.pages[p].MapToFrame(f)]);
      var (done, result) := CompleteAccess(mapped, a, p, f, true, true, dirty);
      if !result.success then
        (RestoreVictim(Withdraw(done, p, f), v, f, dirty, referenced).0, result)
      else
        (Admit(done, p, f, dirty), result)
  }

  /** Counts the completed replacement and tells the policy. */
  function Admit(m: Mmu, p: PageId, f: FrameId, dirty: bool): Mmu {
    var loaded := m.(policy := m.policy.Loaded(p, f), replacements := m.replacements + 1);
    if dirty then
      loaded.(dirtyEvictions := loaded.dirtyEvictions + 1, policy := loaded.policy.RecordDirtyEviction())
    else loaded
  }

  /** The rollback of an eviction, and whether it reports success. */
  function RestoreVictim(m: Mmu, v: PageId, f: FrameId, dirty: bool, referenced: bool): (Mmu, bool)
    requires v in m.pages
  {
    if m.pages[v].IsResident() then (m, false)
    else
      var (memory, frame) := MapPage(m.memory, v);
      if frame.None? then (m, false)
      else if !IsMappingConsistent(memory, v) || memory.table[v] != f then
        (m.(memory := ReleaseFrame(memory, f).0), false)
      else
        var page := m.pages[v].MapToFrame(f);
        var restored := page.(dirty := page.dirty || dirty, referenced := page.referenced || referenced);
        (m.(memory := memory, pages := m.pages[v := restored], policy := m.policy.Loaded(v, f)), true)
  }

  // ------------------------------------------------------------------------- reset

  function ResetPage(m: Mmu, p: PageId): Mmu
    requires p in m.pages
  {
    var page := m.pages[p];
    if page.mappedFrame.None? || !IsMappingConsistent(m.memory, p) then m
    else
      var (memory, released) := ReleaseFrame(m.memory, page.mappedFrame.value);
      if !released then m
      else m.(memory := memory, pages := m.pages[p := page.UnmapFromFrame()])
  }

  /** Visits the registered pages in the given order. */
  function ResetPages(m: Mmu, order: seq<PageId>): (m': Mmu)
    requires forall p :: p in order ==> p in m.pages
    ensures m'.pages.Keys == m.pages.Keys
  {
    if order == [] then m
    else ResetPage(ResetPages(m, order[..|order| - 1]), order[|order| - 1])
  }

  lemma ResetOneMore(m: Mmu, order: seq<PageId>, p: PageId)
    requires (forall q :: q in order ==> q in m.pages) && p in m.pages
    ensures forall q :: q in order + [p] ==> q in m.pages
    ensures p in ResetPages(m, order).pages
    ensures ResetPages(m, order + [p]) == ResetPage(ResetPages(m, order), p)
    ensures Elements(order + [p]) == Elements(order) + {p}
  {
    assert (order + [p])[..|order|] == order;
  }

  function ResetCounters(m: Mmu): Mmu {
    m.(policy := m.policy.Reset(), statistics := NO_STATISTICS, faults := 0, replacements := 0, dirtyEvictions := 0)
  }
}
