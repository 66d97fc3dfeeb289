/** A complete simulation: registration of every process's pages, composition of the
    configured workload, and its execution. */
module SimulationRun {
  import opened Core
  import opened Addresses
  import opened PolicyModel
  import opened MemoryModel
  import opened MmuModel
  import opened MmuInvariant
  import opened MmuRuns
  import opened Paging
  import opened OrderTheory
  import opened AccessRuns
  import opened PolicyLaws
  import opened Counters
  import opened PhysicalMemory
  import opened ReplacementPolicies
  import opened MemoryManagement
  import opened Execution
  import opened Workloads
  import opened Configurations

  // ---------------------------------------------------------- accesses within bounds

  /** Every access is by a process numbered `low` to `high`, to one of its `pages` pages. */
  ghost predicate Within(s: Accesses, low: nat, high: nat, pages: nat, size: PageSize) {
    forall i :: 0 <= i < |s| ==>
      low <= s[i].process <= high && Decompose(s[i].address, size).virtualPage < pages
  }

  lemma GeneratedWithin(s: Accesses, q: ProcessId, pages: nat, size: PageSize)
    requires Generated(s, q, pages, size)
    ensures Within(s, q, q, pages, size)
  {
    forall i | 0 <= i < |s|
      ensures s[i].process == q && Decompose(s[i].address, size).virtualPage < pages
    {
      ReadsAddressPage(s[i], q, pages, size, i);
    }
  }

  lemma {:induction false} FlattenWithin(parts: seq<Accesses>, low: nat, high: nat, pages: nat, size: PageSize)
    requires forall i :: 0 <= i < |parts| ==> Within(parts[i], low, high, pages, size)
    ensures Within(Flatten(parts), low, high, pages, size)
  {
    if parts != [] {
      var rest := parts[1..];
      assert forall i :: 0 <= i < |rest| ==> rest[i] == parts[i + 1];
      FlattenWithin(rest, low, high, pages, size);
      SumWithin(parts[0], Flatten(rest), low, high, pages, size);
    }
  }

  lemma SumWithin(a: Accesses, b: Accesses, low: nat, high: nat, pages: nat, size: PageSize)
    requires Within(a, low, high, pages, size) && Within(b, low, high, pages, size)
    ensures Within(a + b, low, high, pages, size)
  {
    forall i | 0 <= i < |a + b|
      ensures low <= (a + b)[i].process <= high && Decompose((a + b)[i].address, size).virtualPage < pages
    {
      assert (a + b)[i] == if i < |a| then a[i] else b[i - |a|];
    }
  }

  // ------------------------------------------------------------------ registration

  /** The identifier that registration gives to page `v` of process `q`: identifiers run
      from 1 through the pages of process 1, then of process 2 and so on. */
  function PageNumber(pages: nat, q: nat, v: nat): nat
    requires q >= 1
  {
    (q - 1) * pages + v + 1
  }

  /** Processes 1 to `processes` have each of their `pages` virtual pages registered. */
  ghost predicate Serves(m: Mmu, processes: nat, pages: nat) {
    forall q: nat, v: nat :: 1 <= q <= processes && v < pages ==> Holds(m, pages, q, v)
  }

  ghost predicate Holds(m: Mmu, pages: nat, q: nat, v: nat)
    requires q >= 1
  {
    VirtualPage(q, v) in m.virtualPages && m.virtualPages[VirtualPage(q, v)] == PageNumber(pages, q, v)
  }

  /** The pages that accesses name, by their identifiers. */
  function NumberedTrace(c: Configuration, s: Accesses): (t: Trace)
    requires Within(s, 1, c.processCount, c.pageCountPerProcess, c.pageSize)
    ensures |t| == |s|
  {
    seq(|s|, i requires 0 <= i < |s| => PageNumber(c.pageCountPerProcess, s[i].process, s[i].address / c.pageSize))
  }

  lemma WithinIsServiceable(m: Mmu, c: Configuration, s: Accesses)
    requires Serves(m, c.processCount, c.pageCountPerProcess) && m.pageSize == c.pageSize
    requires Within(s, 1, c.processCount, c.pageCountPerProcess, c.pageSize)
    ensures Serviceable(m, s) && TraceOf(m, s) == NumberedTrace(c, s)
  {
    forall i | 0 <= i < |s|
      ensures Target(m, s[i]) == Some(PageNumber(c.pageCountPerProcess, s[i].process, s[i].address / c.pageSize))
    {
      assert Holds(m, c.pageCountPerProcess, s[i].process, Decompose(s[i].address, m.pageSize).virtualPage);
    }
  }

  /** The part of a unit's state that registration leaves alone. */
  ghost predicate OnlyRegistered(m: Mmu, m': Mmu) {
    m' == m.(pages := m'.pages, virtualPages := m'.virtualPages)
  }

  /** Registered so far: the pages of processes below `q` and the first `number` of process
      `q`, each under its identifier. */
  ghost predicate Progress(m: Mmu, pages: nat, q: nat, number: nat)
    requires q >= 1
  {
    && Consistent(m) && m.memory.table == map[]
    && (forall p :: p in m.pages ==> p < PageNumber(pages, q, number))
    && (forall v :: v in m.virtualPages ==> v.process < q || (v.process == q && v.number < number))
    && (forall r: nat, v: nat :: (1 <= r < q && v < pages) || (r == q && v < number) ==> Holds(m, pages, r, v))
  }

  lemma RegisterNext(m: Mmu, pages: nat, q: nat, number: nat)
    requires q >= 1 && Progress(m, pages, q, number)
    ensures var (m', ok) := RegisterPageAt(m, Page(PageNumber(pages, q, number), q, None, false, false), number);
      ok && OnlyRegistered(m, m') && Progress(m', pages, q, number + 1)
  {
    hide PageNumber, Inverse;
    var id := PageNumber(pages, q, number);
    var page := Page(id, q, None, false, false);
    NextNumber(pages, q, number);
    MappingsAreConsistent(m.memory, id);
    assert Registrable(m, page) && VirtualPage(q, number) !in m.virtualPages;
    var m' := RegisterPageAt(m, page, number).0;
    RegistrationPreserves(m, page, VirtualPage(q, number), m'.pages, m'.virtualPages);
    forall r: nat, v: nat | (1 <= r < q && v < pages) || (r == q && v < number + 1)
      ensures Holds(m', pages, r, v)
    {
      assert !(r == q && v == number) ==> Holds(m, pages, r, v);
    }
  }

  lemma NextNumber(pages: nat, q: nat, v: nat)
    requires q >= 1
    ensures PageNumber(pages, q, v + 1) == PageNumber(pages, q, v) + 1
    ensures PageNumber(pages, q, pages) == PageNumber(pages, q + 1, 0)
    ensures PageNumber(pages, 1, 0) == 1
  {
    assert (q - 1) * pages + pages == q * pages;
  }

  lemma NextProcess(m: Mmu, pages: nat, q: nat)
    requires q >= 1 && Progress(m, pages, q, pages)
    ensures Progress(m, pages, q + 1, 0)
  {
    hide PageNumber;
    NextNumber(pages, q, 0);
  }

  method RegisterProcess(unit: MemoryManagementUnit, q: ProcessId, pages: nat, firstPageId: nat) returns (nextPageId: nat)
    requires q >= 1 && unit.Valid() && Progress(unit.Model(), pages, q, 0) && firstPageId == PageNumber(pages, q, 0)
    modifies unit
    ensures unit.Valid() && OnlyRegistered(old(unit.Model()), unit.Model())
    ensures Progress(unit.Model(), pages, q, pages) && nextPageId == PageNumber(pages, q, pages)
  {
    hide Progress, PageNumber;
    nextPageId := firstPageId;
    var pageIndex := 0;
    while pageIndex < pages
      invariant pageIndex <= pages && nextPageId == PageNumber(pages, q, pageIndex)
      invariant unit.Valid() && OnlyRegistered(old(unit.Model()), unit.Model())
      invariant Progress(unit.Model(), pages, q, pageIndex)
    {
      RegisterNext(unit.Model(), pages, q, pageIndex);
      NextNumber(pages, q, pageIndex);
      var registered := unit.RegisterPageAt(Page(nextPageId, q, None, false, false), pageIndex);
      nextPageId, pageIndex := nextPageId + 1, pageIndex + 1;
    }
  }

  /** Fails only when an address space is not representable. */
  method RegisterPages(unit: MemoryManagementUnit, c: Configuration) returns (completed: bool)
    requires unit.Valid() && Progress(unit.Model(), c.pageCountPerProcess, 1, 0) && c.pageCountPerProcess > 0
    modifies unit
    ensures unit.Valid() && OnlyRegistered(old(unit.Model()), unit.Model()) && Consistent(unit.Model())
    ensures completed <==> c.processCount == 0 || c.pageCountPerProcess <= U64_MAX / c.pageSize
    ensures completed ==> Serves(unit.Model(), c.processCount, c.pageCountPerProcess)
  {
    hide PageNumber;
    NextNumber(c.pageCountPerProcess, 1, 0);
    var nextPageId := 1;
    var processIndex := 0;
    while processIndex < c.processCount
      invariant processIndex <= c.processCount && nextPageId == PageNumber(c.pageCountPerProcess, processIndex + 1, 0)
      invariant unit.Valid() && OnlyRegistered(old(unit.Model()), unit.Model())
      invariant Progress(unit.Model(), c.pageCountPerProcess, processIndex + 1, 0)
      invariant processIndex > 0 ==> c.pageCountPerProcess <= U64_MAX / c.pageSize
    {
      if c.pageCountPerProcess > U64_MAX / c.pageSize {
        return false;
      }
      nextPageId := RegisterProcess(unit, processIndex + 1, c.pageCountPerProcess, nextPageId);
      NextProcess(unit.Model(), c.pageCountPerProcess, processIndex + 1);
      NextNumber(c.pageCountPerProcess, processIndex + 1, 0);
      processIndex := processIndex + 1;
    }
    return true;
  }

  // ----------------------------------------------------------------- the workloads

  /** A generator of the given kind, which is not MIXED, over the whole address space. */
  method Generate(kind: WorkloadType, q: ProcessId, c: Configuration, count: nat) returns (r: Created<Accesses>)
    requires kind != MIXED
    ensures r.Created? <==> count > 0 && KindFits(kind, c)
    ensures r.Created? ==> |r.workload| == count && FollowsKind(kind, q, c, r.workload)
  {
    hide LocalityShape;
    match kind {
      case SEQUENTIAL =>
        r := GenerateSequential(q, c.pageCountPerProcess, c.pageSize, count, 0, c.pageCountPerProcess);
      case RANDOM =>
        r := GenerateRandom(q, c.pageCountPerProcess, c.pageSize, count);
      case LOCALITY =>
        r := GenerateLocality(q, c.pageCountPerProcess, c.pageSize, count, c.temporalStrength,
                              c.spatialStrength, c.workingSetSize);
    }
  }

  /** Whatever its kind, a workload reads pages of its own process. */
  lemma KindWithin(kind: WorkloadType, q: ProcessId, c: Configuration, s: Accesses)
    requires FollowsKind(kind, q, c, s)
    ensures Within(s, q, q, c.pageCountPerProcess, c.pageSize)
  {
    if s != [] {
      GeneratedWithin(s, q, c.pageCountPerProcess, c.pageSize);
    }
  }

  /** What the segments yield, one after the other. */
  ghost function Joined(segments: seq<GeneratedWorkload>): Accesses {
    Flatten(MixedWorkload.ContentsOf(segments))
  }

  /** The first `n` segments of the configuration have been built. */
  ghost predicate Built(segments: seq<GeneratedWorkload>, q: ProcessId, c: Configuration, share: nat, n: nat)
    requires n <= |c.segments|
  {
    && |Joined(segments)| == Granted(c, share, n)
    && SegmentsFollow(q, c, share, Joined(segments), n)
    && Within(Joined(segments), q, q, c.pageCountPerProcess, c.pageSize)
  }

  lemma NothingBuilt(q: ProcessId, c: Configuration, share: nat)
    ensures SegmentsFit(c, share, 0) && Built([], q, c, share, 0) && Granted(c, share, 0) == 0
    ensures c.segments[..|c.segments|] == c.segments
  {
  }

  lemma JoinedGrows(segments: seq<GeneratedWorkload>, w: GeneratedWorkload)
    ensures Joined(segments + [w]) == Joined(segments) + w.accesses
  {
    var before, after := MixedWorkload.ContentsOf(segments), MixedWorkload.ContentsOf(segments + [w]);
    assert after == before + [w.accesses];
    FlattenSum(before, [w.accesses]);
    assert Flatten([w.accesses]) == w.accesses;
  }

  /** A segment of the configured kind and length at the end. */
  lemma SegmentBuilt(segments: seq<GeneratedWorkload>, w: GeneratedWorkload, q: ProcessId, c: Configuration, share: nat, n: nat)
    requires n < |c.segments| && Built(segments, q, c, share, n)
    requires |w.accesses| == Granted(c, share, n + 1) - Granted(c, share, n)
    requires FollowsKind(c.segments[n].kind, q, c, w.accesses)
    ensures Built(segments + [w], q, c, share, n + 1)
  {
    hide FollowsKind, Granted, Joined, Within;
    JoinedGrows(segments, w);
    KindWithin(c.segments[n].kind, q, c, w.accesses);
    SumWithin(Joined(segments), w.accesses, q, q, c.pageCountPerProcess, c.pageSize);
    LongerFollows(q, c, share, Joined(segments), w.accesses, n);
  }

  /** No segment where the configuration grants none. */
  lemma SegmentSkipped(segments: seq<GeneratedWorkload>, q: ProcessId, c: Configuration, share: nat, n: nat)
    requires n < |c.segments| && Built(segments, q, c, share, n) && c.segments[n].kind != MIXED
    requires Granted(c, share, n + 1) == Granted(c, share, n)
    ensures Built(segments, q, c, share, n + 1)
  {
    hide Granted, Joined, Within, FollowsKind;
    NothingFollows(c.segments[n].kind, q, c);
    assert Joined(segments)[Granted(c, share, n)..Granted(c, share, n + 1)] == [];
  }

  lemma NothingFollows(kind: WorkloadType, q: ProcessId, c: Configuration)
    requires kind != MIXED
    ensures FollowsKind(kind, q, c, [])
  {
  }

  lemma {:induction false} RestSkipped(segments: seq<GeneratedWorkload>, q: ProcessId, c: Configuration, share: nat, n: nat)
    requires n <= |c.segments| && Built(segments, q, c, share, n) && forall s :: s in c.segments ==> s.kind != MIXED
    requires SegmentSum(c.segments[..n]) >= share
    ensures Built(segments, q, c, share, |c.segments|)
    decreases |c.segments| - n
  {
    hide Built, SegmentSum;
    if n < |c.segments| {
      SegmentSumGrows(c.segments, n);
      assert c.segments[n] in c.segments;
      SegmentSkipped(segments, q, c, share, n);
      RestSkipped(segments, q, c, share, n + 1);
    }
  }

  /** The segments of one process in their configured order, the last one cut where its share
      ends. */
  method CreateSegments(q: ProcessId, c: Configuration, share: nat) returns (r: Created<seq<GeneratedWorkload>>)
    requires forall s :: s in c.segments ==> s.kind != MIXED
    ensures r.Created? <==> SegmentsFit(c, share, |c.segments|)
    ensures r.Created? ==>
      && NoDup(r.workload) && Built(r.workload, q, c, share, |c.segments|)
      && (forall i :: 0 <= i < |r.workload| ==>
            fresh(r.workload[i]) && r.workload[i].Valid() && r.workload[i].nextIndex == 0)
  {
    hide KindFits, SegmentsFit, SegmentSum, Built, FollowsKind;
    NothingBuilt(q, c, share);
    var segments: seq<GeneratedWorkload> := [];
    var granted := 0;
    var index := 0;
    while index < |c.segments|
      invariant index <= |c.segments| && SegmentsFit(c, share, index)
      invariant NoDup(segments) && Built(segments, q, c, share, index)
      invariant forall i :: 0 <= i < |segments| ==>
        fresh(segments[i]) && segments[i].Valid() && segments[i].nextIndex == 0
      invariant granted == Granted(c, share, index)
    {
      var segment := c.segments[index];
      assert segment.kind != MIXED;
      SegmentSumGrows(c.segments, index);
      var remaining := share - granted;
      if remaining == 0 {
        RestUnreached(c, share, index);
        RestSkipped(segments, q, c, share, index);
        break;
      }
      var count := Min(segment.accessCount, remaining);
      if count > 0 {
        var generated := Generate(segment.kind, q, c, count);
        if generated.Refused? {
          SegmentRefused(c, share, index);
          return Refused(generated.error);
        }
        var workload := new GeneratedWorkload(generated.workload);
        SegmentBuilt(segments, workload, q, c, share, index);
        segments := segments + [workload];
        granted := granted + count;
      } else {
        SegmentSkipped(segments, q, c, share, index);
      }
      SegmentServed(c, share, index);
      index := index + 1;
    }
    return Created(segments);
  }

  /** The workload of one process. */
  method CreateProcessWorkload(c: Configuration, i: nat) returns (r: Created<Workload>)
    requires Validated(c)
    ensures r.Created? <==> ProcessFits(c, i)
    ensures r.Created? ==>
      && r.workload.Valid() && fresh(r.workload.Footprint()) && r.workload.Rest() == r.workload.All()
      && ProcessFollows(c, i, r.workload.All())
      && Within(r.workload.All(), i + 1, i + 1, c.pageCountPerProcess, c.pageSize)
  {
    hide FollowsKind, Within, SegmentsFollow, Flatten, KindFits;
    var share := Share(c.memoryAccessCount, c.processCount, i);
    if c.workload == MIXED {
      var segments := CreateSegments(i + 1, c, share);
      if segments.Refused? {
        return Refused(segments.error);
      }
      var mixed := new MixedWorkload(segments.workload);
      assert mixed.Contents == MixedWorkload.ContentsOf(segments.workload);
      assert c.segments[..|c.segments|] == c.segments;
      return Created(Mixed(mixed));
    } else {
      var generated := Generate(c.workload, i + 1, c, share);
      if generated.Refused? {
        return Refused(generated.error);
      }
      KindWithin(c.workload, i + 1, c, generated.workload);
      var workload := new GeneratedWorkload(generated.workload);
      return Created(Single(workload));
    }
  }

  /** The children so far: disjoint, new and each within its own process. */
  ghost predicate ChildrenAt(children: seq<Workload>, objects: set<object>, c: Configuration)
    requires c.processCount > 0
    reads objects
  {
    && MultiProcessWorkload.Disjoint(children)
    && forall i :: 0 <= i < |children| ==> ChildAt(children[i], objects, c, i)
  }

  ghost predicate ChildAt(child: Workload, objects: set<object>, c: Configuration, i: nat)
    requires c.processCount > 0
    reads objects
  {
    && child.Footprint() <= objects && child.Valid() && child.Rest() == child.All()
    && ProcessFollows(c, i, child.All())
    && Within(child.All(), i + 1, i + 1, c.pageCountPerProcess, c.pageSize)
  }

  method CreateChildren(c: Configuration) returns (r: Created<seq<Workload>>, ghost objects: set<object>)
    requires Validated(c)
    ensures r.Created? <==> forall i :: 0 <= i < c.processCount ==> ProcessFits(c, i)
    ensures r.Created? ==> |r.workload| == c.processCount && fresh(objects) && ChildrenAt(r.workload, objects, c)
  {
    hide ChildrenAt, ChildAt, ProcessFits, ProcessFollows, Within;
    var children: seq<Workload> := [];
    objects := {};
    NoChildren(c);
    var processIndex := 0;
    while processIndex < c.processCount
      invariant processIndex <= c.processCount && |children| == processIndex
      invariant forall i :: 0 <= i < processIndex ==> ProcessFits(c, i)
      invariant fresh(objects) && ChildrenAt(children, objects, c)
    {
      var child := CreateProcessWorkload(c, processIndex);
      if child.Refused? {
        return Refused(child.error), {};
      }
      ChildrenGrow(children, objects, c, child.workload);
      children, objects := children + [child.workload], objects + child.workload.Footprint();
      processIndex := processIndex + 1;
    }
    r := Created(children);
  }

  lemma NoChildren(c: Configuration)
    requires Validated(c)
    ensures c.processCount > 0 && ChildrenAt([], {}, c)
  {
  }

  lemma ChildrenGrow(children: seq<Workload>, objects: set<object>, c: Configuration, child: Workload)
    requires c.processCount > 0 && ChildrenAt(children, objects, c) && child.Footprint() !! objects
    requires child.Valid() && child.Rest() == child.All() && ProcessFollows(c, |children|, child.All())
    requires Within(child.All(), |children| + 1, |children| + 1, c.pageCountPerProcess, c.pageSize)
    ensures ChildrenAt(children + [child], objects + child.Footprint(), c)
  {
    hide ProcessFollows, Within;
    var longer := children + [child];
    forall i | 0 <= i < |longer|
      ensures ChildAt(longer[i], objects + child.Footprint(), c, i)
    {
      if i < |children| {
        assert ChildAt(children[i], objects, c, i);
      }
    }
  }

  lemma ChildrenWithin(children: seq<Workload>, objects: set<object>, c: Configuration)
    requires c.processCount > 0 && ChildrenAt(children, objects, c) && |children| == c.processCount
    ensures Within(Flatten(MultiProcessWorkload.ContentsOf(children)), 1, c.processCount, c.pageCountPerProcess, c.pageSize)
  {
    var contents := MultiProcessWorkload.ContentsOf(children);
    forall i | 0 <= i < |contents|
      ensures Within(contents[i], 1, c.processCount, c.pageCountPerProcess, c.pageSize)
    {
      assert ChildAt(children[i], objects, c, i);
    }
    FlattenWithin(contents, 1, c.processCount, c.pageCountPerProcess, c.pageSize);
  }

  /** The children's accesses, one process after the other, are what the configuration says. */
  lemma ChildrenFollow(children: seq<Workload>, objects: set<object>, c: Configuration)
    requires c.processCount > 0 && ChildrenAt(children, objects, c) && |children| == c.processCount
    ensures AccessesFollow(c, Flatten(MultiProcessWorkload.ContentsOf(children)))
  {
    hide ProcessFollows, Flatten, TotalSize, AccessesFollow;
    var contents := MultiProcessWorkload.ContentsOf(children);
    forall i | 0 <= i < |contents|
      ensures ProcessFollows(c, i, contents[i]) && |contents[i]| == ProcessAccesses(c, i)
    {
      assert ChildAt(children[i], objects, c, i);
      FollowsLength(c, i, contents[i]);
    }
    PartsFollow(contents, c);
  }

  lemma PartsFollow(contents: seq<Accesses>, c: Configuration)
    requires c.processCount > 0 && |contents| == c.processCount
    requires forall i :: 0 <= i < |contents| ==> ProcessFollows(c, i, contents[i]) && |contents[i]| == ProcessAccesses(c, i)
    ensures AccessesFollow(c, Flatten(contents))
  {
    hide ProcessFollows, ProcessAccesses, Flatten, TotalSize, TotalAccesses;
    SizesAreTotals(contents, c, c.processCount);
    assert contents[..c.processCount] == contents;
    FlattenSize(contents);
    forall i | 0 <= i < c.processCount
      ensures ProcessAt(c, Flatten(contents), i)
    {
      PartFollows(contents, c, i);
    }
  }

  lemma PartFollows(contents: seq<Accesses>, c: Configuration, i: nat)
    requires c.processCount > 0 && i < |contents| && ProcessFollows(c, i, contents[i])
    requires forall j :: 0 <= j < |contents| ==> |contents[j]| == ProcessAccesses(c, j)
    ensures ProcessAt(c, Flatten(contents), i)
  {
    hide ProcessFollows, ProcessAccesses, Flatten, TotalSize;
    SizesAreTotals(contents, c, i);
    SizesAreTotals(contents, c, i + 1);
    FlattenSlice(contents, i);
  }

  lemma FollowsLength(c: Configuration, i: nat, s: Accesses)
    requires c.processCount > 0 && ProcessFollows(c, i, s)
    ensures |s| == ProcessAccesses(c, i)
  {
  }

  lemma {:induction false} SizesAreTotals(contents: seq<Accesses>, c: Configuration, n: nat)
    requires c.processCount > 0 && n <= |contents|
    requires forall i :: 0 <= i < |contents| ==> |contents[i]| == ProcessAccesses(c, i)
    ensures TotalSize(contents[..n]) == TotalAccesses(c, n)
  {
    hide ProcessAccesses;
    if n > 0 {
      SizesAreTotals(contents, c, n - 1);
      TotalSizeStep(contents, n - 1);
    }
  }

  /** The workloads of all processes, one after the other. */
  method CreateWorkload(c: Configuration) returns (r: Created<MultiProcessWorkload>)
    requires Validated(c)
    ensures r.Created? <==> forall i :: 0 <= i < c.processCount ==> ProcessFits(c, i)
    ensures r.Created? ==>
      && r.workload.Valid() && fresh(r.workload.Repr) && r.workload.Rest() == r.workload.All()
      && AccessesFollow(c, r.workload.All())
      && Within(r.workload.All(), 1, c.processCount, c.pageCountPerProcess, c.pageSize)
  {
    hide ChildrenAt, Within, ProcessFits, AccessesFollow, Flatten, MultiProcessWorkload.ContentsOf;
    var children, objects := CreateChildren(c);
    if children.Refused? {
      return Refused(children.error);
    }
    ChildrenWithin(children.workload, objects, c);
    ChildrenFollow(children.workload, objects, c);
    var workload := Compose(children.workload, objects, c);
    return Created(workload);
  }

  method Compose(children: seq<Workload>, ghost objects: set<object>, c: Configuration) returns (workload: MultiProcessWorkload)
    requires c.processCount > 0 && ChildrenAt(children, objects, c)
    ensures fresh(workload) && workload.Repr == {workload} + objects && workload.Valid()
    ensures workload.Rest() == workload.All() == Flatten(MultiProcessWorkload.ContentsOf(children))
  {
    hide ChildrenAt, ChildAt, MultiProcessWorkload.Disjoint, Flatten, MultiProcessWorkload.ContentsOf;
    ChildrenReady(children, objects, c);
    workload := new MultiProcessWorkload(children, objects);
  }

  lemma ChildrenReady(children: seq<Workload>, objects: set<object>, c: Configuration)
    requires c.processCount > 0 && ChildrenAt(children, objects, c)
    ensures MultiProcessWorkload.Disjoint(children)
    ensures forall i :: 0 <= i < |children| ==> children[i].Footprint() <= objects && children[i].Valid()
    ensures forall i :: 0 <= i < |children| ==> children[i].Rest() == children[i].All()
  {
    hide ProcessFollows, Within;
    assert forall i :: 0 <= i < |children| ==> ChildAt(children[i], objects, c, i);
  }

  // ------------------------------------------------------------------ the simulation

  method CreatePolicy(kind: PolicyType) returns (policy: ReplacementPolicy)
    ensures policy.Valid() && fresh(policy.Repr())
    ensures policy.Model() == Policy(policy.Model().discipline, 0, 0)
    ensures policy.Model().discipline == NewDiscipline(kind)
  {
    match kind {
      case FIFO =>
        var p := new FifoPolicy();
        policy := FifoAt(p);
      case LRU =>
        var p := new LruPolicy();
        policy := LruAt(p);
      case CLOCK =>
        var p := new ClockPolicy();
        policy := ClockAt(p);
      case OPTIMAL =>
        var p := new OptimalPolicy();
        policy := OptimalAt(p);
    }
  }

  function NewDiscipline(kind: PolicyType): Discipline {
    match kind
    case FIFO => Fifo([])
    case LRU => Lru([])
    case CLOCK => Clock([], 0)
    case OPTIMAL => Optimal([], [], 0, 0)
  }

  /** The configured policy over empty memory; Optimal has no reference sequence. */
  predicate RunsPolicy(d: Discipline, kind: PolicyType) {
    match kind
    case FIFO => d.Fifo?
    case LRU => d.Lru?
    case CLOCK => d.Clock?
    case OPTIMAL => d.Optimal? && d.reference == [] && d.position == 0
  }

  /** The resident sets of a run with the configured policy. Without a reference sequence
      Optimal is FIFO. */
  function PolicyResidency(kind: PolicyType, k: nat, t: Trace): (S: Residency)
    ensures |S| == |t| + 1
  {
    match kind
    case FIFO => FifoResidency(k, t)
    case LRU => LruResidency(k, t)
    case CLOCK => ClockResidency(k, t)
    case OPTIMAL => FifoResidency(k, t)
  }

  datatype Outcome =
    | Aborted
    | Completed(accesses: Accesses, records: seq<ExecutionRecord>, statistics: ExecutionStatistics)

  class Simulation {
    const configuration: Configuration
    const pageTable: PageTable
    const physicalMemory: PhysicalMemoryManager

    ghost predicate Valid()
      reads this, physicalMemory, physicalMemory.frames
    {
      && Validated(configuration) && physicalMemory.Valid()
      && physicalMemory.frames.Length == configuration.frameCount
    }

    constructor (c: Configuration)
      requires Validated(c)
      ensures Valid() && configuration == c
      ensures fresh(pageTable) && fresh(physicalMemory) && fresh(physicalMemory.frames)
    {
      configuration := c;
      pageTable := new PageTable();
      physicalMemory := new PhysicalMemoryManager(c.frameCount);
    }

    /** Page table, frames, policy and unit are made anew. */
    method NewUnit() returns (unit: MemoryManagementUnit)
      requires Valid()
      modifies pageTable, physicalMemory, physicalMemory.frames
      ensures Valid() && unit.Valid() && fresh(unit.Footprint() - {pageTable, physicalMemory, physicalMemory.frames})
      ensures unit.integration.physicalMemory == physicalMemory
      ensures unit.Model() == Initial(configuration.frameCount, NewDiscipline(configuration.policy), configuration.pageSize)
    {
      pageTable.Clear();
      physicalMemory.Clear();
      assert physicalMemory.frames[..] == seq(configuration.frameCount, _ => None);
      var policy := CreatePolicy(configuration.policy);
      unit := new MemoryManagementUnit(pageTable, physicalMemory, policy, configuration.pageSize);
    }

    /** Every run starts from empty memory, with the pages of all processes registered. */
    method CreateUnit() returns (unit: MemoryManagementUnit, completed: bool)
      requires Valid()
      modifies pageTable, physicalMemory, physicalMemory.frames
      ensures Valid() && unit.Valid() && fresh(unit.Footprint() - {pageTable, physicalMemory, physicalMemory.frames})
      ensures unit.integration.physicalMemory == physicalMemory
      ensures completed <==> configuration.pageCountPerProcess <= U64_MAX / configuration.pageSize
      ensures completed ==> Prepared(unit.Model(), configuration)
    {
      hide FourViews, Balanced, Progress, Serves;
      unit := NewUnit();
      ghost var m := unit.Model();
      StartsEmpty(configuration);
      completed := RegisterPages(unit, configuration);
      RegistrationKeepsViews(m, unit.Model());
    }

    /** Initialization completes exactly for the configurations of `Completes`, whatever the
        random draws; the workload then names only pages registered to its processes. */
    method Initialize() returns (unit: MemoryManagementUnit, workload: Created<MultiProcessWorkload>)
      requires Valid()
      modifies pageTable, physicalMemory, physicalMemory.frames
      ensures Valid() && unit.Valid() && fresh(unit.Footprint() - {pageTable, physicalMemory, physicalMemory.frames})
      ensures unit.integration.physicalMemory == physicalMemory
      ensures workload.Created? <==> Completes(configuration)
      ensures workload.Created? ==>
        && Prepared(unit.Model(), configuration)
        && workload.workload.Valid() && fresh(workload.workload.Repr) && workload.workload.Repr !! unit.Footprint()
        && workload.workload.Rest() == workload.workload.All()
        && AccessesFollow(configuration, workload.workload.All())
        && Within(workload.workload.All(), 1, configuration.processCount, configuration.pageCountPerProcess, configuration.pageSize)
    {
      hide Prepared, Within, ProcessFits, AccessesFollow;
      var completed;
      unit, completed := CreateUnit();
      if !completed {
        return unit, Refused(AddressRange);
      }
      workload := CreateWorkload(configuration);
    }

    /** The run completes exactly for the configurations of `Completes`, whatever the random
        draws. It then executes exactly the generated accesses: those of each process in turn,
        of the configured kind and in order, as many as configured unless the segments of a
        mixed workload run out. `start` is the unit they meet, over empty memory with the
        configured policy; every record is an access with the unit's result for it, and every
        total the number of records that report it. If physical memory is addressable no
        access fails, and the faults are those of the policy's law on the pages named. */
    method Run() returns (outcome: Outcome, ghost start: Mmu)
      requires Valid()
      modifies pageTable, physicalMemory, physicalMemory.frames
      ensures Valid()
      ensures outcome.Completed? <==> Completes(configuration)
      ensures outcome.Completed? ==>
        && Prepared(start, configuration)
        && AccessesFollow(configuration, outcome.accesses)
        && (|outcome.accesses| == configuration.memoryAccessCount <==> SegmentsCover(configuration))
        && Within(outcome.accesses, 1, configuration.processCount, configuration.pageCountPerProcess, configuration.pageSize)
        && Recorded(start, outcome.accesses, outcome.records)
        && MemoryAccessExecutor.Sums(outcome.records, outcome.statistics)
      ensures outcome.Completed? && configuration.frameCount * configuration.pageSize <= TWO_TO_THE_64 ==>
        && outcome.statistics.failed == 0
        && outcome.statistics.pageFaults - outcome.statistics.pageReplacements == physicalMemory.allocatedFrameCount
        && FaultsByLaw(configuration, outcome.accesses, outcome.records, outcome.statistics)
    {
      hide Prepared, Within, Completes, SegmentsCover, TotalAccesses, Recorded, FaultsByLaw, MemoryAccessExecutor.Sums;
      var unit, workload := Initialize();
      start := unit.Model();
      if workload.Refused? {
        return Aborted, start;
      }
      var accesses := workload.workload.Drain();
      var records, statistics := ExecutePrepared(unit, configuration, accesses);
      TotalIsConfiguredIff(configuration);
      outcome := Completed(accesses, records, statistics);
    }
  }

  /** A unit over empty memory with the configured policy, in which every page of the
      configuration is registered. */
  ghost predicate Prepared(m: Mmu, c: Configuration) {
    && FourViews(m) && Balanced(m) && Resident(m) == {}
    && Capacity(m) == c.frameCount && m.pageSize == c.pageSize
    && RunsPolicy(m.policy.discipline, c.policy)
    && Serves(m, c.processCount, c.pageCountPerProcess)
    && m.faults == m.replacements == m.dirtyEvictions == 0
  }

  ghost predicate Recorded(m: Mmu, accesses: Accesses, records: seq<ExecutionRecord>) {
    && |records| == |accesses|
    && forall i :: 0 <= i < |accesses| ==> records[i] == ExecutionRecord(accesses[i], ResultAt(m, accesses, i))
  }

  /** The faults, in all and access by access, are those of the configured policy's law on the
      pages named. */
  ghost predicate FaultsByLaw(c: Configuration, s: Accesses, records: seq<ExecutionRecord>, statistics: ExecutionStatistics) {
    && Within(s, 1, c.processCount, c.pageCountPerProcess, c.pageSize) && |records| == |s|
    && var (t, S) := (NumberedTrace(c, s), PolicyResidency(c.policy, c.frameCount, NumberedTrace(c, s)));
    && statistics.pageFaults == Faults(t, S)
    && forall i :: 0 <= i < |s| ==> (records[i].result.pageFault <==> t[i] !in S[i])
  }

  method ExecutePrepared(unit: MemoryManagementUnit, c: Configuration, accesses: Accesses)
    returns (records: seq<ExecutionRecord>, statistics: ExecutionStatistics)
    requires unit.Valid() && Prepared(unit.Model(), c) && c.frameCount > 0
    requires Within(accesses, 1, c.processCount, c.pageCountPerProcess, c.pageSize)
    modifies unit.Footprint()
    ensures unit.Valid()
    ensures Recorded(old(unit.Model()), accesses, records) && MemoryAccessExecutor.Sums(records, statistics)
    ensures c.frameCount * c.pageSize <= TWO_TO_THE_64 ==>
      && statistics.failed == 0
      && statistics.pageFaults - statistics.pageReplacements == unit.integration.physicalMemory.allocatedFrameCount
      && FaultsByLaw(c, accesses, records, statistics)
  {
    hide Prepared, Within, Serviceable, Tally, After, Ready, Consistent, FaultsByLaw, ResultAt, MemoryAccessExecutor.Sums;
    ghost var m := unit.Model();
    var executor := new MemoryAccessExecutor(unit);
    records, statistics := executor.Execute(accesses);
    PreparedConcludes(m, c, accesses, records);
  }

  lemma PreparedConcludes(m: Mmu, c: Configuration, s: Accesses, records: seq<ExecutionRecord>)
    requires Prepared(m, c) && c.frameCount > 0 && Within(s, 1, c.processCount, c.pageCountPerProcess, c.pageSize)
    requires Recorded(m, s, records)
    ensures c.frameCount * c.pageSize <= TWO_TO_THE_64 ==>
      var (statistics, m') := (Tally(m, s, |s|), After(m, s, |s|));
      && statistics.failed == 0
      && statistics.pageFaults - statistics.pageReplacements == Occupied(m'.memory.frames)
      && FaultsByLaw(c, s, records, statistics)
  {
    hide FourViews, Balanced, Serves, Serviceable, Within, Tally, After, FaultsByLaw;
    WithinIsServiceable(m, c, s);
    if c.frameCount * c.pageSize <= TWO_TO_THE_64 {
      assert Ready(m);
      FaultsConserved(m, s);
      ReadyConsistent(m);
      ExecutorAgrees(m, s, |s|);
      ExecutorServesAll(m, s, |s|);
      LawHolds(m, c, s, records);
    }
  }

  lemma LawHolds(m: Mmu, c: Configuration, s: Accesses, records: seq<ExecutionRecord>)
    requires Ready(m) && Resident(m) == {} && RunsPolicy(m.policy.discipline, c.policy) && Capacity(m) == c.frameCount
    requires Within(s, 1, c.processCount, c.pageCountPerProcess, c.pageSize)
    requires Serviceable(m, s) && TraceOf(m, s) == NumberedTrace(c, s) && Recorded(m, s, records)
    requires Tally(m, s, |s|).pageFaults == After(m, s, |s|).faults - m.faults
    ensures FaultsByLaw(c, s, records, Tally(m, s, |s|))
  {
    hide Ready, Serviceable, Within, Tally, After, NumberedTrace, ResidencyOf;
    RunObeysLaw(m, s);
    var t, S := NumberedTrace(c, s), PolicyResidency(c.policy, c.frameCount, NumberedTrace(c, s));
    assert S == ResidencyOf(m, s);
    forall i | 0 <= i < |s|
      ensures records[i].result.pageFault <==> t[i] !in S[i]
    {
      FaultAt(m, s, i);
    }
  }

  lemma FaultAt(m: Mmu, s: Accesses, i: nat)
    requires Ready(m) && Serviceable(m, s) && i < |s|
    ensures ResultAt(m, s, i).pageFault <==> TraceOf(m, s)[i] !in ResidencyOf(m, s)[i]
  {
    hide Access, Ready, Target;
    ReadyServesAll(m, s);
    ServedAt(m, s, i);
    ResidencyAt(m, s, i);
    AccessIsDemandStep(After(m, s, i), s[i]);
  }

  lemma StartsEmpty(c: Configuration)
    requires Validated(c)
    ensures var m := Initial(c.frameCount, NewDiscipline(c.policy), c.pageSize);
      && Progress(m, c.pageCountPerProcess, 1, 0) && FourViews(m) && Balanced(m)
      && RunsPolicy(m.policy.discipline, c.policy)
  {
    InitialFourViews(c.frameCount, NewDiscipline(c.policy), c.pageSize);
    InitialBalanced(c.frameCount, NewDiscipline(c.policy), c.pageSize);
  }

  lemma RegistrationKeepsViews(m: Mmu, m': Mmu)
    requires FourViews(m) && Balanced(m) && Consistent(m') && OnlyRegistered(m, m')
    ensures FourViews(m') && Balanced(m')
  {
  }
}
