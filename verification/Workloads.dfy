/** The generated workloads and their compositions. A random draw is any value of the range
    the implementation asks its distribution for. */
module Workloads {
  import opened Core
  import opened Addresses
  import opened MmuModel

  datatype WorkloadError =
    | NoPages
    | NoAccesses
    | NoPattern
    | StartOutside
    | PatternOutside
    | BadStrength
    | BadWorkingSet
    | AddressRange
    | TooManyAccesses

  datatype Created<T> = Created(workload: T) | Refused(error: WorkloadError)

  type Accesses = seq<MemoryAccess>

  /** The read of page `page` that the generators emit as access number `i`. */
  function ReadOf(q: ProcessId, page: nat, size: PageSize, i: nat): MemoryAccess
    requires page * size <= U64_MAX
  {
    MemoryAccess(q, page * size, Read, i)
  }

  /** Access `i` is a read of process `q` at the start of some page below `pageCount`. */
  ghost predicate ReadsPage(a: MemoryAccess, q: ProcessId, pageCount: nat, size: PageSize, i: nat) {
    && a.process == q && a.operation == Read && a.sequenceNumber == i
    && exists page: nat :: page < pageCount && a.address == page * size
  }

  ghost predicate Generated(s: Accesses, q: ProcessId, pageCount: nat, size: PageSize) {
    forall i :: 0 <= i < |s| ==> ReadsPage(s[i], q, pageCount, size, i)
  }

  /** What is addressed is the page itself, at offset zero. */
  lemma ReadsAddressPage(a: MemoryAccess, q: ProcessId, pageCount: nat, size: PageSize, i: nat)
    requires ReadsPage(a, q, pageCount, size, i)
    ensures Decompose(a.address, size).virtualPage < pageCount && Decompose(a.address, size).offset == 0
  {
    var page: nat :| page < pageCount && a.address == page * size;
    DecomposeUnique(a.address, size, page, 0);
  }

  lemma PageAddressFits(page: nat, last: nat, size: PageSize)
    requires page <= last <= U64_MAX / size
    ensures page * size <= U64_MAX
  {
    ProductMonotone(page, U64_MAX / size, size);
    assert (U64_MAX / size) * size <= U64_MAX;
  }

  // ------------------------------------------------------------ sequential pattern

  /** When a sequential workload can be built. */
  predicate SequentialFits(pageCount: nat, size: PageSize, accessCount: nat, start: nat, pattern: nat) {
    && pageCount > 0 && accessCount > 0 && pattern > 0
    && start < pageCount && pattern <= pageCount - start
    && start + (pattern - 1) <= U64_MAX / size
  }

  method GenerateSequential(q: ProcessId, pageCount: nat, size: PageSize, accessCount: nat, start: nat, pattern: nat)
    returns (r: Created<Accesses>)
    ensures r.Created? <==> SequentialFits(pageCount, size, accessCount, start, pattern)
    ensures r.Created? ==>
      && |r.workload| == accessCount
      && Generated(r.workload, q, pageCount, size)
      && forall i :: 0 <= i < accessCount ==> r.workload[i].address == (start + i % pattern) * size
  {
    if pageCount == 0 {
      return Refused(NoPages);
    }
    if accessCount == 0 {
      return Refused(NoAccesses);
    }
    if pattern == 0 {
      return Refused(NoPattern);
    }
    if start >= pageCount {
      return Refused(StartOutside);
    }
    if pattern > pageCount - start {
      return Refused(PatternOutside);
    }
    if start + (pattern - 1) > U64_MAX / size {
      return Refused(AddressRange);
    }
    var accesses: Accesses := [];
    var index := 0;
    while index < accessCount
      invariant index <= accessCount && |accesses| == index
      invariant Generated(accesses, q, pageCount, size)
      invariant forall i :: 0 <= i < index ==> accesses[i].address == (start + i % pattern) * size
    {
      var page := start + index % pattern;
      PageAddressFits(page, start + (pattern - 1), size);
      var a := ReadOf(q, page, size, index);
      assert ReadsPage(a, q, pageCount, size, index);
      accesses := accesses + [a];
      index := index + 1;
    }
    return Created(accesses);
  }

  // --------------------------------------------------------------- locality pattern

  const MAXIMUM_RECENT_PAGES: nat := 16
  const SPATIAL_RADIUS: nat := 2

  predicate LocalityFits(pageCount: nat, size: PageSize, accessCount: nat, temporal: real, spatial: real, workingSet: nat) {
    && pageCount > 0 && accessCount > 0
    && 0.0 <= temporal <= 1.0 && 0.0 <= spatial <= 1.0
    && 0 < workingSet <= pageCount
    && pageCount - 1 <= U64_MAX / size
  }

  /** A uniform draw. The range is never empty. */
  method Draw(low: nat, high: nat) returns (x: nat)
    requires low <= high
    ensures low <= x <= high
  {
    x :| low <= x <= high;
  }

  /** Whether page `page` of a working set can be drawn after the recent ones: a recent page
      again, with positive temporal strength; a page near the last one, when part of the
      remaining probability is spatial; any page, when part is neither, or when there is no
      recent page to repeat. */
  predicate LocalityChoice(page: nat, recent: seq<nat>, workingSet: nat, temporal: real, spatial: real) {
    page < workingSet &&
    (|| (temporal > 0.0 && page in recent)
     || (temporal < 1.0 && spatial > 0.0 && NearPrevious(page, recent))
     || (temporal < 1.0 && spatial < 1.0)
     || (temporal > 0.0 && recent == []))
  }

  /** Within the radius of the last recent page, or of page 0 when there is none. */
  predicate NearPrevious(page: nat, recent: seq<nat>) {
    var previous := if recent == [] then 0 else recent[|recent| - 1];
    previous - SPATIAL_RADIUS <= page <= previous + SPATIAL_RADIUS
  }

  predicate StrengthsFit(temporal: real, spatial: real) {
    0.0 <= temporal <= 1.0 && 0.0 <= spatial <= 1.0
  }

  /** Where a draw that is not temporal falls. */
  lemma RemainingProbability(probability: real, temporal: real, spatial: real)
    requires 0.0 <= probability < 1.0 && StrengthsFit(temporal, spatial) && probability >= temporal
    ensures temporal < 1.0
    ensures probability - temporal < (1.0 - temporal) * spatial ==> spatial > 0.0
    ensures probability - temporal >= (1.0 - temporal) * spatial ==> spatial < 1.0
  {
    if spatial == 0.0 {
      assert (1.0 - temporal) * spatial == 0.0;
    }
    if spatial == 1.0 {
      assert (1.0 - temporal) * spatial == 1.0 - temporal;
    }
  }

  method GeneratePageIndex(workingSet: nat, temporal: real, spatial: real, recent: seq<nat>) returns (page: nat)
    requires 0 < workingSet && StrengthsFit(temporal, spatial)
    requires forall r :: 0 <= r < |recent| ==> recent[r] < workingSet
    ensures LocalityChoice(page, recent, workingSet, temporal, spatial)
  {
    var probability: real :| 0.0 <= probability < 1.0;
    if recent != [] && probability < temporal {
      var i := Draw(0, |recent| - 1);
      return recent[i];
    }
    var remaining := probability - temporal;
    if remaining >= 0.0 {
      RemainingProbability(probability, temporal, spatial);
    }
    if 0.0 <= remaining && remaining < (1.0 - temporal) * spatial {
      var previous := if recent == [] then 0 else recent[|recent| - 1];
      page := GenerateSpatialPageIndex(workingSet, previous);
      return;
    }
    page := Draw(0, workingSet - 1);
  }

  method GenerateSpatialPageIndex(workingSet: nat, previous: nat) returns (page: nat)
    requires previous < workingSet
    ensures page < workingSet
    ensures previous - SPATIAL_RADIUS <= page <= previous + SPATIAL_RADIUS
  {
    if workingSet <= 1 {
      return previous;
    }
    var low := if previous > SPATIAL_RADIUS then previous - SPATIAL_RADIUS else 0;
    var high := if previous + SPATIAL_RADIUS < workingSet - 1 then previous + SPATIAL_RADIUS else workingSet - 1;
    page := Draw(low, high);
  }

  /** The last pages before position `i`. */
  function RecentPages(relative: seq<nat>, i: nat): seq<nat>
    requires i <= |relative|
  {
    relative[(if i <= MAXIMUM_RECENT_PAGES then 0 else i - MAXIMUM_RECENT_PAGES)..i]
  }

  /** The accesses are to pages `start + relative[i]`, each of which could be drawn after the
      ones before it. */
  ghost predicate LocalityWalk(
    s: Accesses, start: nat, relative: seq<nat>, size: PageSize, temporal: real, spatial: real, workingSet: nat)
  {
    && |relative| == |s|
    && forall i :: 0 <= i < |s| ==> WalkAt(s, start, relative, size, temporal, spatial, workingSet, i)
  }

  ghost predicate WalkAt(
    s: Accesses, start: nat, relative: seq<nat>, size: PageSize, temporal: real, spatial: real, workingSet: nat, i: nat)
    requires i < |s| == |relative|
  {
    && s[i].address == (start + relative[i]) * size
    && LocalityChoice(relative[i], RecentPages(relative, i), workingSet, temporal, spatial)
  }

  /** What a locality generator yields: reads in one window of the working set's size inside
      the address space, each page drawn after the recent ones. */
  ghost predicate LocalityShape(
    s: Accesses, q: ProcessId, pageCount: nat, size: PageSize, temporal: real, spatial: real, workingSet: nat)
  {
    && Generated(s, q, pageCount, size)
    && exists start: nat, relative: seq<nat> ::
         start + workingSet <= pageCount && LocalityWalk(s, start, relative, size, temporal, spatial, workingSet)
  }

  method GenerateLocality(
    q: ProcessId, pageCount: nat, size: PageSize, accessCount: nat, temporal: real, spatial: real, workingSet: nat)
    returns (r: Created<Accesses>)
    ensures r.Created? <==> LocalityFits(pageCount, size, accessCount, temporal, spatial, workingSet)
    ensures r.Created? ==>
      |r.workload| == accessCount && LocalityShape(r.workload, q, pageCount, size, temporal, spatial, workingSet)
  {
    if pageCount == 0 {
      return Refused(NoPages);
    }
    if accessCount == 0 {
      return Refused(NoAccesses);
    }
    if temporal < 0.0 || temporal > 1.0 || spatial < 0.0 || spatial > 1.0 {
      return Refused(BadStrength);
    }
    if workingSet == 0 || workingSet > pageCount {
      return Refused(BadWorkingSet);
    }
    if pageCount - 1 > U64_MAX / size {
      return Refused(AddressRange);
    }
    var start := 0;
    if pageCount - workingSet > 0 {
      start := Draw(0, pageCount - workingSet);
    }
    var accesses: Accesses := [];
    var recent: seq<nat> := [];
    ghost var walk: seq<nat> := [];
    while |accesses| < accessCount
      invariant |accesses| <= accessCount && |walk| == |accesses|
      invariant recent == RecentPages(walk, |walk|)
      invariant forall r :: 0 <= r < |recent| ==> recent[r] < workingSet
      invariant Generated(accesses, q, pageCount, size)
      invariant LocalityWalk(accesses, start, walk, size, temporal, spatial, workingSet)
    {
      hide LocalityChoice, LocalityWalk, RecentPages;
      var relative := GeneratePageIndex(workingSet, temporal, spatial, recent);
      InWorkingSet(relative, recent, workingSet, temporal, spatial);
      var page := start + relative;
      PageAddressFits(page, pageCount - 1, size);
      var a := ReadOf(q, page, size, |accesses|);
      assert ReadsPage(a, q, pageCount, size, |accesses|);
      WalkGrows(accesses, start, walk, size, temporal, spatial, workingSet, a, relative);
      RecentGrows(walk, relative);
      accesses, walk := accesses + [a], walk + [relative];
      if |recent| == MAXIMUM_RECENT_PAGES {
        recent := recent[1..];
      }
      recent := recent + [relative];
    }
    return Created(accesses);
  }

  lemma InWorkingSet(page: nat, recent: seq<nat>, workingSet: nat, temporal: real, spatial: real)
    requires LocalityChoice(page, recent, workingSet, temporal, spatial)
    ensures page < workingSet
  {
  }

  lemma RecentGrows(walk: seq<nat>, relative: nat)
    ensures var recent := RecentPages(walk, |walk|);
      && |recent| <= MAXIMUM_RECENT_PAGES
      && RecentPages(walk + [relative], |walk| + 1)
         == (if |recent| == MAXIMUM_RECENT_PAGES then recent[1..] else recent) + [relative]
  {
  }

  lemma WalkGrows(
    s: Accesses, start: nat, walk: seq<nat>, size: PageSize, temporal: real, spatial: real, workingSet: nat,
    a: MemoryAccess, relative: nat)
    requires LocalityWalk(s, start, walk, size, temporal, spatial, workingSet)
    requires a.address == (start + relative) * size
    requires LocalityChoice(relative, RecentPages(walk, |walk|), workingSet, temporal, spatial)
    ensures LocalityWalk(s + [a], start, walk + [relative], size, temporal, spatial, workingSet)
  {
    hide LocalityChoice;
    var longer := walk + [relative];
    forall i | 0 <= i < |s + [a]|
      ensures WalkAt(s + [a], start, longer, size, temporal, spatial, workingSet, i)
    {
      assert RecentPages(longer, i) == RecentPages(walk, i);
      if i < |s| {
        assert WalkAt(s, start, walk, size, temporal, spatial, workingSet, i);
      }
    }
  }

  // ------------------------------------------------------------- full strengths

  /** With temporal strength 1 every access repeats the first. */
  lemma FullTemporalRepeats(
    s: Accesses, q: ProcessId, pageCount: nat, size: PageSize, spatial: real, workingSet: nat, i: nat)
    requires LocalityShape(s, q, pageCount, size, 1.0, spatial, workingSet) && i < |s|
    ensures s[i].address == s[0].address
  {
    var start: nat, relative: seq<nat> :| start + workingSet <= pageCount && LocalityWalk(s, start, relative, size, 1.0, spatial, workingSet);
    RepeatsFirst(s, start, relative, size, spatial, workingSet, i);
    assert WalkAt(s, start, relative, size, 1.0, spatial, workingSet, 0);
    assert WalkAt(s, start, relative, size, 1.0, spatial, workingSet, i);
  }

  lemma {:induction false} RepeatsFirst(
    s: Accesses, start: nat, relative: seq<nat>, size: PageSize, spatial: real, workingSet: nat, i: nat)
    requires LocalityWalk(s, start, relative, size, 1.0, spatial, workingSet) && i < |s|
    ensures relative[i] == relative[0]
    decreases i
  {
    if i > 0 {
      assert WalkAt(s, start, relative, size, 1.0, spatial, workingSet, i);
      var recent := RecentPages(relative, i);
      var j :| 0 <= j < |recent| && recent[j] == relative[i];
      var l := i - |recent| + j;
      assert relative[l] == relative[i];
      RepeatsFirst(s, start, relative, size, spatial, workingSet, l);
    }
  }

  /** With temporal strength 0 and spatial strength 1 every page is within the radius of its
      predecessor. */
  lemma FullSpatialSteps(s: Accesses, q: ProcessId, pageCount: nat, size: PageSize, workingSet: nat, i: nat)
    requires LocalityShape(s, q, pageCount, size, 0.0, 1.0, workingSet) && 0 < i < |s|
    ensures var (page, previous) := (Decompose(s[i].address, size).virtualPage, Decompose(s[i - 1].address, size).virtualPage);
      previous - SPATIAL_RADIUS <= page <= previous + SPATIAL_RADIUS
  {
    var start: nat, relative: seq<nat> :| start + workingSet <= pageCount && LocalityWalk(s, start, relative, size, 0.0, 1.0, workingSet);
    SpatialStep(s, start, relative, size, workingSet, i);
    DecomposeUnique(s[i].address, size, start + relative[i], 0);
    DecomposeUnique(s[i - 1].address, size, start + relative[i - 1], 0);
  }

  lemma SpatialStep(s: Accesses, start: nat, relative: seq<nat>, size: PageSize, workingSet: nat, i: nat)
    requires LocalityWalk(s, start, relative, size, 0.0, 1.0, workingSet) && 0 < i < |s|
    ensures s[i].address == (start + relative[i]) * size && s[i - 1].address == (start + relative[i - 1]) * size
    ensures relative[i - 1] - SPATIAL_RADIUS <= relative[i] <= relative[i - 1] + SPATIAL_RADIUS
  {
    assert WalkAt(s, start, relative, size, 0.0, 1.0, workingSet, i - 1);
    assert WalkAt(s, start, relative, size, 0.0, 1.0, workingSet, i);
    var recent := RecentPages(relative, i);
    assert recent[|recent| - 1] == relative[i - 1];
  }

  /** Uniform draws over the whole address space. */
  method GenerateRandom(q: ProcessId, pageCount: nat, size: PageSize, accessCount: nat) returns (r: Created<Accesses>)
    ensures r.Created? <==> pageCount > 0 && accessCount > 0 && pageCount - 1 <= U64_MAX / size
    ensures r.Created? ==> |r.workload| == accessCount && Generated(r.workload, q, pageCount, size)
  {
    if pageCount == 0 {
      return Refused(NoPages);
    }
    if accessCount == 0 {
      return Refused(NoAccesses);
    }
    if pageCount - 1 > U64_MAX / size {
      return Refused(AddressRange);
    }
    var accesses: Accesses := [];
    while |accesses| < accessCount
      invariant |accesses| <= accessCount && Generated(accesses, q, pageCount, size)
    {
      var page := Draw(0, pageCount - 1);
      PageAddressFits(page, pageCount - 1, size);
      var a := ReadOf(q, page, size, |accesses|);
      assert ReadsPage(a, q, pageCount, size, |accesses|);
      accesses := accesses + [a];
    }
    return Created(accesses);
  }

  // -------------------------------------------------------------------- concatenation

  function Flatten(parts: seq<Accesses>): Accesses {
    if parts == [] then [] else parts[0] + Flatten(parts[1..])
  }

  lemma {:induction false} FlattenEmpty(parts: seq<Accesses>)
    ensures Flatten(parts) == [] <==> forall i :: 0 <= i < |parts| ==> parts[i] == []
  {
    if parts != [] {
      FlattenEmpty(parts[1..]);
      assert forall i :: 0 <= i < |parts| ==> parts[i] == (if i == 0 then parts[0] else parts[1..][i - 1]);
    }
  }

  /** The next access of a concatenation comes from its first part that is not exhausted. */
  lemma {:induction false} FlattenPop(parts: seq<Accesses>, c: nat)
    requires c < |parts| && parts[c] != [] && forall i :: 0 <= i < c ==> parts[i] == []
    ensures Flatten(parts) != [] && Flatten(parts)[0] == parts[c][0]
    ensures Flatten(parts[c := parts[c][1..]]) == Flatten(parts)[1..]
  {
    var popped := parts[c := parts[c][1..]];
    if c == 0 {
      assert popped[1..] == parts[1..];
    } else {
      FlattenPop(parts[1..], c - 1);
      assert popped[1..] == parts[1..][c - 1 := parts[1..][c - 1][1..]];
    }
  }

  function TotalSize(parts: seq<Accesses>): nat {
    if parts == [] then 0 else TotalSize(parts[..|parts| - 1]) + |parts[|parts| - 1]|
  }

  lemma NothingTotal(parts: seq<Accesses>)
    ensures TotalSize(parts[..0]) == 0
  {
  }

  lemma TotalSizeStep(parts: seq<Accesses>, i: nat)
    requires i < |parts|
    ensures TotalSize(parts[..i + 1]) == TotalSize(parts[..i]) + |parts[i]|
  {
    assert parts[..i + 1][..i] == parts[..i];
  }

  lemma {:induction false} FlattenSize(parts: seq<Accesses>)
    ensures |Flatten(parts)| == TotalSize(parts)
  {
    if parts != [] {
      var n := |parts| - 1;
      FlattenSize(parts[..n]);
      assert parts == parts[..n] + [parts[n]];
      FlattenSum(parts[..n], [parts[n]]);
      assert Flatten([parts[n]]) == parts[n];
    }
  }

  lemma {:induction false} FlattenSum(a: seq<Accesses>, b: seq<Accesses>)
    ensures Flatten(a + b) == Flatten(a) + Flatten(b)
  {
    if a == [] {
      assert a + b == b;
    } else {
      assert (a + b)[1..] == a[1..] + b;
      FlattenSum(a[1..], b);
    }
  }

  /** Each part is where the sizes of the parts before it say. */
  lemma FlattenSlice(parts: seq<Accesses>, i: nat)
    requires i < |parts|
    ensures TotalSize(parts[..i]) <= TotalSize(parts[..i + 1]) <= |Flatten(parts)|
    ensures Flatten(parts)[TotalSize(parts[..i])..TotalSize(parts[..i + 1])] == parts[i]
  {
    var before, after := parts[..i], parts[i + 1..];
    assert parts == before + ([parts[i]] + after);
    FlattenSum(before, [parts[i]] + after);
    FlattenSum([parts[i]], after);
    assert Flatten([parts[i]]) == parts[i];
    FlattenSize(before);
    TotalSizeStep(parts, i);
  }

  // ------------------------------------------------------------------- the iterators

  /** A generated workload: its accesses and how far it has been read. */
  class GeneratedWorkload {
    const accesses: Accesses
    var nextIndex: nat

    constructor (accesses: Accesses)
      ensures Valid() && this.accesses == accesses && nextIndex == 0
    {
      this.accesses, nextIndex := accesses, 0;
    }

    ghost predicate Valid()
      reads this
    {
      nextIndex <= |accesses|
    }

    /** What is still to come. */
    ghost function Rest(): Accesses
      reads this
      requires Valid()
    {
      accesses[nextIndex..]
    }

    method HasNext() returns (more: bool)
      requires Valid()
      ensures more <==> Rest() != []
    {
      more := nextIndex < |accesses|;
    }

    method NextAccess() returns (next: Option<MemoryAccess>)
      requires Valid()
      modifies this
      ensures Valid()
      ensures if old(Rest()) == [] then next == None && Rest() == []
              else next == Some(old(Rest())[0]) && Rest() == old(Rest())[1..]
    {
      if nextIndex >= |accesses| {
        return None;
      }
      next := Some(accesses[nextIndex]);
      nextIndex := nextIndex + 1;
    }

    method Reset()
      requires Valid()
      modifies this
      ensures Valid() && Rest() == accesses
    {
      nextIndex := 0;
    }
  }

  /** Segments read one after the other. */
  class MixedWorkload {
    const segments: seq<GeneratedWorkload>
    const totalSize: nat
    var currentSegment: nat
    ghost const Repr: set<object>
    ghost var Parts: seq<Accesses>  // what each segment still has to come
    ghost const Contents: seq<Accesses>  // what each segment yields from its beginning

    /** `Parts` and `Contents` describe the segments, which are distinct. */
    ghost predicate Linked()
      reads this`Parts, Repr - {this}
    {
      && this in Repr
      && |Parts| == |Contents| == |segments|
      && NoDup(segments)
      && forall i :: 0 <= i < |segments| ==> LinkedAt(segments[i], Parts[i], Contents[i])
    }

    ghost predicate LinkedAt(w: GeneratedWorkload, part: Accesses, content: Accesses)
      reads Repr - {this}
    {
      w in Repr - {this} && w.Valid() && w.Rest() == part && w.accesses == content
    }

    /** Segments before the cursor are exhausted. */
    ghost predicate Valid()
      reads this, Repr
      ensures Valid() ==> this in Repr
    {
      && Linked()
      && currentSegment <= |segments|
      && (forall i :: 0 <= i < currentSegment ==> Parts[i] == [])
      && totalSize == |All()|
    }

    ghost function All(): Accesses {
      Flatten(Contents)
    }

    ghost function Rest(): Accesses
      reads this
    {
      Flatten(Parts)
    }

    /** The segments may have been read from before; what is left of them is to come. */
    constructor (segments: seq<GeneratedWorkload>)
      requires NoDup(segments)
      requires forall i :: 0 <= i < |segments| ==> segments[i].Valid()
      ensures Valid() && this.segments == segments
      ensures Repr == {this} + ObjectsOf(segments)
      ensures forall i :: 0 <= i < |segments| ==> Contents[i] == segments[i].accesses && Parts[i] == segments[i].Rest()
      ensures (forall i :: 0 <= i < |segments| ==> segments[i].nextIndex == 0) ==> Rest() == All()
    {
      hide Flatten, TotalSize, NoDup, RestsOf, ObjectsOf, ContentsOf;
      this.segments, currentSegment := segments, 0;
      Repr := {this} + ObjectsOf(segments);
      ghost var contents := ContentsOf(segments);
      Parts := RestsOf(segments);
      Contents := contents;
      var size := MixedWorkload.TotalOf(segments);
      totalSize := size;
      new;
      forall i | 0 <= i < |segments|
        ensures LinkedAt(segments[i], Parts[i], Contents[i])
      {
      }
      FlattenSize(contents);
      assert (forall i :: 0 <= i < |segments| ==> segments[i].nextIndex == 0) ==> Parts == Contents;
    }

    static ghost function ContentsOf(segments: seq<GeneratedWorkload>): (parts: seq<Accesses>)
      ensures |parts| == |segments|
      ensures forall i :: 0 <= i < |segments| ==> parts[i] == segments[i].accesses
    {
      seq(|segments|, i requires 0 <= i < |segments| => segments[i].accesses)
    }

    static ghost function ObjectsOf(segments: seq<GeneratedWorkload>): (objects: set<object>)
      ensures forall w :: w in segments ==> w in objects
    {
      set w: object | w in segments
    }

    /** What is left of each segment. */
    static ghost function RestsOf(segments: seq<GeneratedWorkload>): (parts: seq<Accesses>)
      requires forall i :: 0 <= i < |segments| ==> segments[i].Valid()
      reads segments
      ensures |parts| == |segments|
      ensures forall i :: 0 <= i < |segments| ==> parts[i] == segments[i].Rest()
    {
      if segments == [] then [] else [segments[0].Rest()] + RestsOf(segments[1..])
    }

    static method TotalOf(segments: seq<GeneratedWorkload>) returns (size: nat)
      ensures size == TotalSize(ContentsOf(segments))
    {
      hide TotalSize;
      ghost var contents := ContentsOf(segments);
      size := 0;
      var i := 0;
      NothingTotal(contents);
      while i < |segments|
        invariant i <= |segments| && size == TotalSize(contents[..i])
      {
        TotalSizeStep(contents, i);
        size := size + |segments[i].accesses|;
        i := i + 1;
      }
      assert contents[..|segments|] == contents;
    }

    /** Looks ahead without moving the cursor. */
    method HasNext() returns (more: bool)
      requires Valid()
      ensures more <==> Rest() != []
    {
      FlattenEmpty(Parts);
      var segmentIndex := currentSegment;
      while segmentIndex < |segments|
        invariant currentSegment <= segmentIndex <= |segments|
        invariant forall i :: 0 <= i < segmentIndex ==> Parts[i] == []
      {
        var available := segments[segmentIndex].HasNext();
        if available {
          return true;
        }
        segmentIndex := segmentIndex + 1;
      }
      return false;
    }

    method NextAccess() returns (next: Option<MemoryAccess>)
      requires Valid()
      modifies Repr
      ensures Valid()
      ensures if old(Rest()) == [] then next == None && Rest() == []
              else next == Some(old(Rest())[0]) && Rest() == old(Rest())[1..]
    {
      hide Flatten, NoDup;
      FlattenEmpty(Parts);
      while currentSegment < |segments|
        invariant Valid() && Parts == old(Parts)
      {
        var available := segments[currentSegment].HasNext();
        if available {
          next := PopSegment();
          return;
        }
        currentSegment := currentSegment + 1;
      }
      return None;
    }

    /** Reads from the segment under the cursor. */
    method PopSegment() returns (next: Option<MemoryAccess>)
      requires Valid() && currentSegment < |segments| && Parts[currentSegment] != []
      modifies segments[currentSegment], this`Parts
      ensures Valid() && old(Rest()) != []
      ensures next == Some(old(Rest())[0]) && Rest() == old(Rest())[1..]
    {
      hide Flatten;
      FlattenPop(Parts, currentSegment);
      var c, segment := currentSegment, segments[currentSegment];
      assert forall k :: 0 <= k < |segments| && k != c ==> segments[k] != segment;
      next := segment.NextAccess();
      Parts := Parts[c := Parts[c][1..]];
    }

    method Reset()
      requires Valid()
      modifies Repr
      ensures Valid() && Rest() == All()
    {
      hide Flatten;
      var i := 0;
      while i < |segments|
        invariant i <= |segments| && Linked()
        invariant forall k :: 0 <= k < i ==> Parts[k] == Contents[k]
      {
        ResetSegment(i);
        i := i + 1;
      }
      currentSegment := 0;
      assert Parts == Contents;
    }

    method ResetSegment(i: nat)
      requires i < |segments| && Linked()
      modifies segments[i], this`Parts
      ensures Linked() && Parts == old(Parts)[i := Contents[i]]
    {
      var segment := segments[i];
      assert forall k :: 0 <= k < |segments| && k != i ==> segments[k] != segment;
      assert LinkedAt(segments[i], Parts[i], Contents[i]);
      segment.Reset();
      Parts := Parts[i := Contents[i]];
    }
  }

  /** The workloads a simulation composes. */
  datatype Workload = Single(generated: GeneratedWorkload) | Mixed(mixed: MixedWorkload)
  {
    ghost function Footprint(): set<object> {
      match this
      case Single(w) => {w}
      case Mixed(w) => w.Repr
    }

    ghost predicate Valid()
      reads Footprint()
    {
      match this
      case Single(w) => w.Valid()
      case Mixed(w) => w in w.Repr && w.Valid()
    }

    ghost function Rest(): Accesses
      reads Footprint()
      requires Valid()
    {
      match this
      case Single(w) => w.Rest()
      case Mixed(w) => w.Rest()
    }

    ghost function All(): Accesses {
      match this
      case Single(w) => w.accesses
      case Mixed(w) => w.All()
    }

    method Size() returns (n: nat)
      requires Valid()
      ensures n == |All()|
    {
      match this {
        case Single(w) => n := |w.accesses|;
        case Mixed(w) => n := w.totalSize;
      }
    }

    method HasNext() returns (more: bool)
      requires Valid()
      ensures more <==> Rest() != []
    {
      match this {
        case Single(w) => more := w.HasNext();
        case Mixed(w) => more := w.HasNext();
      }
    }

    method NextAccess() returns (next: Option<MemoryAccess>)
      requires Valid()
      modifies Footprint()
      ensures Valid()
      ensures if old(Rest()) == [] then next == None && Rest() == []
              else next == Some(old(Rest())[0]) && Rest() == old(Rest())[1..]
    {
      match this {
        case Single(w) => next := w.NextAccess();
        case Mixed(w) => next := w.NextAccess();
      }
    }

    method Reset()
      requires Valid()
      modifies Footprint()
      ensures Valid() && Rest() == All()
    {
      match this {
        case Single(w) => w.Reset();
        case Mixed(w) => w.Reset();
      }
    }
  }

  /** The workloads of the processes, one process after the other. */
  class MultiProcessWorkload {
    const workloads: seq<Workload>
    const totalSize: nat
    var currentWorkload: nat
    ghost const Repr: set<object>
    ghost var Parts: seq<Accesses>  // what each child still has to come
    ghost const Contents: seq<Accesses>  // what each child yields from its beginning

    static ghost predicate Disjoint(workloads: seq<Workload>) {
      forall i, j :: 0 <= i < j < |workloads| ==> workloads[i].Footprint() !! workloads[j].Footprint()
    }

    /** `Parts` and `Contents` describe the children, no two of which share an object. */
    ghost predicate Linked()
      reads this`Parts, Repr - {this}
    {
      && this in Repr
      && |Parts| == |Contents| == |workloads|
      && Disjoint(workloads)
      && forall i :: 0 <= i < |workloads| ==> LinkedAt(workloads[i], Parts[i], Contents[i])
    }

    ghost predicate LinkedAt(w: Workload, part: Accesses, content: Accesses)
      reads Repr - {this}
    {
      w.Footprint() <= Repr - {this} && w.Valid() && w.Rest() == part && w.All() == content
    }

    /** Children before the cursor are exhausted. */
    ghost predicate Valid()
      reads this, Repr
      ensures Valid() ==> this in Repr
    {
      && Linked()
      && currentWorkload <= |workloads|
      && (forall i :: 0 <= i < currentWorkload ==> Parts[i] == [])
      && totalSize == |All()|
    }

    ghost function All(): Accesses {
      Flatten(Contents)
    }

    ghost function Rest(): Accesses
      reads this
    {
      Flatten(Parts)
    }

    static ghost function ContentsOf(workloads: seq<Workload>): (parts: seq<Accesses>)
      ensures |parts| == |workloads|
      ensures forall i :: 0 <= i < |workloads| ==> parts[i] == workloads[i].All()
    {
      seq(|workloads|, i requires 0 <= i < |workloads| => workloads[i].All())
    }

    /** The children may have been read from before, too. */
    constructor (workloads: seq<Workload>, ghost objects: set<object>)
      requires Disjoint(workloads)
      requires forall i :: 0 <= i < |workloads| ==> workloads[i].Footprint() <= objects
      requires forall i :: 0 <= i < |workloads| ==> workloads[i].Valid()
      ensures Valid() && Repr == {this} + objects && this.workloads == workloads
      ensures Contents == ContentsOf(workloads)
      ensures forall i :: 0 <= i < |workloads| ==> Parts[i] == workloads[i].Rest()
      ensures (forall i :: 0 <= i < |workloads| ==> workloads[i].Rest() == workloads[i].All()) ==> Rest() == All()
    {
      hide Flatten, TotalSize, Disjoint, RestsOf, ContentsOf;
      this.workloads, currentWorkload := workloads, 0;
      Repr := {this} + objects;
      ghost var contents := ContentsOf(workloads);
      Parts := RestsOf(workloads, objects);
      Contents := contents;
      var size := MultiProcessWorkload.TotalOf(workloads);
      totalSize := size;
      new;
      FlattenSize(contents);
      assert (forall i :: 0 <= i < |workloads| ==> workloads[i].Rest() == workloads[i].All()) ==> Parts == Contents;
    }

    /** What is left of each child. */
    static ghost function RestsOf(workloads: seq<Workload>, objects: set<object>): (parts: seq<Accesses>)
      requires forall i :: 0 <= i < |workloads| ==> workloads[i].Footprint() <= objects
      reads objects
      requires forall i :: 0 <= i < |workloads| ==> workloads[i].Valid()
      ensures |parts| == |workloads|
      ensures forall i :: 0 <= i < |workloads| ==> parts[i] == workloads[i].Rest()
    {
      if workloads == [] then [] else [workloads[0].Rest()] + RestsOf(workloads[1..], objects)
    }

    static method TotalOf(workloads: seq<Workload>) returns (size: nat)
      requires forall i :: 0 <= i < |workloads| ==> workloads[i].Valid()
      ensures size == TotalSize(ContentsOf(workloads))
    {
      hide TotalSize;
      ghost var contents := ContentsOf(workloads);
      size := 0;
      var i := 0;
      NothingTotal(contents);
      while i < |workloads|
        invariant i <= |workloads| && size == TotalSize(contents[..i])
      {
        TotalSizeStep(contents, i);
        var n := workloads[i].Size();
        size := size + n;
        i := i + 1;
      }
      assert contents[..|workloads|] == contents;
    }

    /** Moves the cursor past exhausted workloads; what is still to come stays the same. */
    method HasNext() returns (more: bool)
      requires Valid()
      modifies this`currentWorkload
      ensures Valid() && Rest() == old(Rest())
      ensures more <==> Rest() != []
      ensures more <==> currentWorkload < |workloads|
      ensures more ==> Parts[currentWorkload] != []
    {
      hide Flatten, Disjoint;
      FlattenEmpty(Parts);
      while currentWorkload < |workloads|
        invariant Valid()
      {
        var available := workloads[currentWorkload].HasNext();
        if available {
          return true;
        }
        currentWorkload := currentWorkload + 1;
      }
      return false;
    }

    method NextAccess() returns (next: Option<MemoryAccess>)
      requires Valid()
      modifies Repr
      ensures Valid()
      ensures if old(Rest()) == [] then next == None && Rest() == []
              else next == Some(old(Rest())[0]) && Rest() == old(Rest())[1..]
    {
      var more := HasNext();
      if !more {
        return None;
      }
      FlattenPop(Parts, currentWorkload);
      next := workloads[currentWorkload].NextAccess();
      Parts := Parts[currentWorkload := Parts[currentWorkload][1..]];
    }

    method Reset()
      requires Valid()
      modifies Repr
      ensures Valid() && Rest() == All()
    {
      hide Flatten;
      var i := 0;
      while i < |workloads|
        invariant i <= |workloads| && Linked()
        invariant forall k :: 0 <= k < i ==> Parts[k] == Contents[k]
      {
        workloads[i].Reset();
        Parts := Parts[i := Contents[i]];
        i := i + 1;
      }
      currentWorkload := 0;
      assert Parts == Contents;
    }

    /** Draining yields everything that was still to come, in order; from the beginning that
        is the concatenation of the children, `totalSize` accesses in all. */
    method Drain() returns (accesses: Accesses)
      requires Valid()
      modifies Repr
      ensures Valid() && accesses == old(Rest()) && Rest() == []
      ensures old(Rest()) == All() ==> |accesses| == totalSize
    {
      hide Flatten, Linked;
      accesses := [];
      var more := HasNext();
      while more
        invariant Valid() && accesses + Rest() == old(Rest())
        invariant more <==> Rest() != []
        decreases |Rest()|
      {
        ghost var rest := Rest();
        var next := NextAccess();
        assert rest == [rest[0]] + rest[1..];
        accesses := accesses + [next.value];
        more := HasNext();
      }
    }
  }
}
