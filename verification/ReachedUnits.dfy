/** Units reached by operations alone: any number of processes with a page each, any trace of
    those pages, and the state FIFO reaches when it runs through the frames in order. */
module ReachedUnits {
  import opened Core
  import opened Entries
  import opened Addresses
  import opened PolicyModel
  import opened MemoryModel
  import opened MmuModel
  import opened MmuInvariant
  import opened MmuRuns
  import opened Paging
  import opened AccessRuns

  /** Processes 0 to `n - 1`, each with its one page, the process number, at number 0. */
  function Populated(k: nat, d: Discipline, size: PageSize, n: nat): Mmu {
    if n == 0 then Initial(k, d, size)
    else RegisterPageAt(Populated(k, d, size, n - 1), OwnPage(n - 1), 0).0
  }

  function OwnPage(p: PageId): Page {
    Page(p, p, None, false, false)
  }

  /** `m` differs from a new unit by the registrations of `n` such pages. */
  ghost predicate Holds(m: Mmu, k: nat, d: Discipline, size: PageSize, n: nat) {
    && m == Initial(k, d, size).(pages := m.pages, virtualPages := m.virtualPages)
    && (forall p: PageId :: p in m.pages <==> p < n)
    && (forall p :: p in m.pages ==> m.pages[p] == OwnPage(p))
    && (forall v: VirtualPage :: v in m.virtualPages <==> v.number == 0 && v.process < n)
    && (forall v :: v in m.virtualPages ==> m.virtualPages[v] == v.process)
  }

  lemma {:induction false} PopulatedReached(k: nat, d: Discipline, size: PageSize, n: nat)
    requires !d.Foreign? && d == d.Reset()
    ensures Reached(Populated(k, d, size, n), k, size)
    ensures Holds(Populated(k, d, size, n), k, d, size, n)
  {
    hide Reached, FourViews, Holds;
    if n == 0 {
      InitialReached(k, d, size);
      NewHolds(k, d, size);
    } else {
      var m := Populated(k, d, size, n - 1);
      PopulatedReached(k, d, size, n - 1);
      NextHolds(m, k, d, size, n - 1);
      assert Step(m, RegisterAt(OwnPage(n - 1), 0), Populated(k, d, size, n));
      StepReached(m, RegisterAt(OwnPage(n - 1), 0), Populated(k, d, size, n), k, size);
    }
  }

  lemma NewHolds(k: nat, d: Discipline, size: PageSize)
    ensures Holds(Initial(k, d, size), k, d, size, 0)
  {
  }

  lemma NextHolds(m: Mmu, k: nat, d: Discipline, size: PageSize, n: nat)
    requires Holds(m, k, d, size, n)
    ensures Holds(RegisterPageAt(m, OwnPage(n), 0).0, k, d, size, n + 1)
  {
    assert Registrable(m, OwnPage(n)) && VirtualPage(n, 0) !in m.virtualPages;
  }

  /** The read of process `p` at offset `o` of its page. */
  function Touching(p: ProcessId, o: U64): MemoryAccess {
    MemoryAccess(p, o, Read, 0)
  }

  lemma TouchingTarget(m: Mmu, k: nat, d: Discipline, size: PageSize, n: nat, p: PageId, o: U64)
    requires Holds(m, k, d, size, n) && p < n && o < size
    ensures Target(m, Touching(p, o)) == Some(p)
    ensures Decompose(o, size).offset == o
  {
    DecomposeUnique(o, size, 0, o);
  }

  // ---------------------------------------------------------------------- any trace

  function TouchAll(t: Trace): (accesses: seq<MemoryAccess>)
    ensures |accesses| == |t|
  {
    seq(|t|, i requires 0 <= i < |t| => Touching(t[i], 0))
  }

  /** Every trace of pages below `n` is the trace of accesses to a reached unit. */
  lemma TraceIsServed(k: nat, d: Discipline, size: PageSize, n: nat, t: Trace)
    requires !d.Foreign? && d == d.Reset() && forall i :: 0 <= i < |t| ==> t[i] < n
    ensures var m := Populated(k, d, size, n);
      Reached(m, k, size) && Serviceable(m, TouchAll(t)) && TraceOf(m, TouchAll(t)) == t && Resident(m) == {}
  {
    hide Reached, Target;
    var m := Populated(k, d, size, n);
    PopulatedReached(k, d, size, n);
    forall i | 0 <= i < |t|
      ensures Target(m, TouchAll(t)[i]) == Some(t[i])
    {
      TouchingTarget(m, k, d, size, n, t[i], 0);
    }
  }

  // ---------------------------------------------------- FIFO running through the frames

  /** FIFO after processes 0 to `n - 1` of `total` have read their pages, in order. */
  function Cycle(k: nat, size: PageSize, total: nat, n: nat): Mmu {
    if n == 0 then Populated(k, Fifo([]), size, total) else Access(Cycle(k, size, total, n - 1), Touching(n - 1, 0)).0
  }

  /** Page `q` goes into frame `q`, or `q - k` once memory is full. */
  function OwnEntry(k: nat, q: PageId): Entry<()> {
    Entry(q, if q < k then q else q - k, ())
  }

  function CycledQueue(k: nat, n: nat): (s: seq<Entry<()>>)
    ensures |s| == if n <= k then n else k
  {
    var count := if n <= k then n else k;
    seq(count, j requires 0 <= j < count => OwnEntry(k, n - count + j))
  }

  function CycledContent(k: nat, n: nat, i: FrameId): Option<PageId> {
    if i + k < n then Some(i + k) else if i < n then Some(i) else None
  }

  ghost predicate Cycled(m: Mmu, k: nat, size: PageSize, total: nat, n: nat) {
    && Consistent(m) && |m.memory.frames| == k && m.pageSize == size
    && AllTouchable(m, size, total)
    && (forall i :: 0 <= i < k ==> m.memory.frames[i] == CycledContent(k, n, i))
    && m.policy.discipline == Fifo(CycledQueue(k, n))
  }

  ghost predicate AllTouchable(m: Mmu, size: PageSize, total: nat) {
    forall p: nat, o: U64 :: p < total && o < size ==> Target(m, Touching(p, o)) == Some(p)
  }

  lemma CycledState(m: Mmu, k: nat, size: PageSize, total: nat, n: nat)
    requires Cycled(m, k, size, total, n) && n <= 2 * k
    ensures n !in m.memory.table
    ensures Full(m) <==> k <= n
  {
    MappingsAreConsistent(m.memory, n);
    OccupiedBound(m.memory.frames);
    if n < k {
      assert m.memory.frames[n] == CycledContent(k, n, n);
    } else {
      assert forall i :: 0 <= i < k ==> m.memory.frames[i] == CycledContent(k, n, i);
    }
  }

  lemma QueueLoads(k: nat, n: nat)
    requires n < k
    ensures Fifo(CycledQueue(k, n)).Accessed(n, n).Loaded(n, n) == Fifo(CycledQueue(k, n + 1))
  {
    var s := CycledQueue(k, n);
    assert forall j :: 0 <= j < |s| ==> s[j] == OwnEntry(k, j) == Entry(j, j, ());
    assert !Mentions(s, n, n);
    assert s + [OwnEntry(k, n)] == CycledQueue(k, n + 1);
  }

  lemma QueueReplaces(k: nat, n: nat)
    requires k <= n < 2 * k
    ensures var (d, f) := (Fifo(CycledQueue(k, n)), n - k);
      && d.ChooseVictim() == (d, Some(f))
      && d.Removed(n - k, f).Accessed(n, f).Loaded(n, f) == Fifo(CycledQueue(k, n + 1))
  {
    var s := CycledQueue(k, n);
    assert s[0] == OwnEntry(k, n - k);
    assert Position(s, n - k, n - k) == 0;
    assert RemoveAt(s, 0) == s[1..];
    assert forall j :: 0 <= j < |s| - 1 ==> s[1..][j] == OwnEntry(k, n - k + 1 + j);
    assert !Mentions(s[1..], n, n - k);
    assert s[1..] + [OwnEntry(k, n)] == CycledQueue(k, n + 1);
  }

  lemma CycledLoad(m: Mmu, k: nat, size: PageSize, total: nat, n: nat)
    requires Cycled(m, k, size, total, n) && n < total && n < k
    ensures Cycled(Access(m, Touching(n, 0)).0, k, size, total, n + 1)
  {
    hide Access, Consistent, CycledQueue, Target;
    var a := Touching(n, 0);
    CycledState(m, k, size, total, n);
    assert Target(m, a) == Some(n);
    var f := AccessLoads(m, a, n);
    assert m.memory.frames[n] == CycledContent(k, n, n);
    assert f == n;
    QueueLoads(k, n);
    AccessPreserves(m, a);
    StillTouchable(m, Access(m, a).0, size, total);
  }

  lemma StillTouchable(m: Mmu, m': Mmu, size: PageSize, total: nat)
    requires AllTouchable(m, size, total) && m'.virtualPages == m.virtualPages && m'.pageSize == m.pageSize
    ensures AllTouchable(m', size, total)
  {
    assert forall a :: Target(m', a) == Target(m, a);
  }

  lemma CycledReplace(m: Mmu, k: nat, size: PageSize, total: nat, n: nat)
    requires Cycled(m, k, size, total, n) && n < total && k <= n < 2 * k
    requires MakePhysicalAddress(n - k, 0, size).Some?
    ensures Cycled(Access(m, Touching(n, 0)).0, k, size, total, n + 1)
  {
    hide Access, Consistent, CycledQueue, Target;
    var a := Touching(n, 0);
    CycledState(m, k, size, total, n);
    assert Target(m, a) == Some(n);
    QueueReplaces(k, n);
    DecomposeUnique(0, size, 0, 0);
    var v, f := AccessReplaces(m, a, n);
    assert f == n - k && m.memory.frames[f] == CycledContent(k, n, f);
    AccessPreserves(m, a);
    StillTouchable(m, Access(m, a).0, size, total);
  }

  /** As long as the frames reused have addresses, the cycle reaches what it says. */
  lemma {:induction false} CycleReached(k: nat, size: PageSize, total: nat, n: nat)
    requires n <= total && n <= 2 * k && (n > k ==> (n - 1 - k) * size <= U64_MAX)
    ensures Reached(Cycle(k, size, total, n), k, size)
    ensures Cycled(Cycle(k, size, total, n), k, size, total, n)
  {
    hide Reached, Cycled, Access;
    if n == 0 {
      StartCycled(k, size, total);
    } else {
      var m, a := Cycle(k, size, total, n - 1), Touching(n - 1, 0);
      if n - 1 > k {
        ProductMonotone(n - 2 - k, n - 1 - k, size);
      }
      CycleReached(k, size, total, n - 1);
      assert Step(m, DoAccess(a), Cycle(k, size, total, n));
      StepReached(m, DoAccess(a), Cycle(k, size, total, n), k, size);
      if n - 1 < k {
        CycledLoad(m, k, size, total, n - 1);
      } else {
        MakePhysicalAddressExact(n - 1 - k, 0, size);
        CycledReplace(m, k, size, total, n - 1);
      }
    }
  }

  lemma StartCycled(k: nat, size: PageSize, total: nat)
    ensures Reached(Cycle(k, size, total, 0), k, size)
    ensures Cycled(Cycle(k, size, total, 0), k, size, total, 0)
  {
    hide Reached, Holds, Target;
    var m := Populated(k, Fifo([]), size, total);
    PopulatedReached(k, Fifo([]), size, total);
    StartFrames(m, k, size, total);
    ReachedAgrees(m, k, size);
    forall p: nat, o: U64 | p < total && o < size
      ensures Target(m, Touching(p, o)) == Some(p)
    {
      TouchingTarget(m, k, Fifo([]), size, total, p, o);
    }
  }

  lemma StartFrames(m: Mmu, k: nat, size: PageSize, total: nat)
    requires Holds(m, k, Fifo([]), size, total)
    ensures m.memory.frames == seq(k, _ => None) && m.policy.discipline == Fifo([])
  {
  }

  // ------------------------------------------- a memory that cannot be addressed wholly

  /** The frame that contains address 2^64, and the offset of that address in it. */
  lemma FrameAtTheEnd(k: nat, size: PageSize) returns (f: FrameId, o: U64)
    requires k * size > TWO_TO_THE_64
    ensures 0 < f < k && o < size && f * size + o == TWO_TO_THE_64
    ensures (f - 1) * size <= U64_MAX
  {
    f, o := TWO_TO_THE_64 / size, TWO_TO_THE_64 % size;
    assert f * size + o == TWO_TO_THE_64;
    if f >= k {
      ProductMonotone(k, f, size);
    }
    assert (f - 1) * size == f * size - size;
  }
}
