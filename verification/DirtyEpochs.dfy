/** Dirty pages and dirty evictions against the history of the run: a page is dirty exactly
    when it was written since its last load, and every residency interval that contains a
    write is either a dirty page now or one dirty eviction. */
module DirtyEpochs {
  import opened Core
  import opened MemoryModel
  import opened MmuModel
  import opened MmuInvariant
  import opened MmuRuns
  import opened AccessRuns

  /** One served access as the history records it. */
  datatype Event = Event(page: PageId, write: bool, fault: bool)

  type History = seq<Event>

  /** `p` was loaded at `s` and not again up to `n`. */
  ghost predicate LoadedAt(h: History, n: nat, p: PageId, s: nat)
    requires n <= |h|
  {
    s < n && h[s].page == p && h[s].fault && NoReload(h, n, p, s)
  }

  ghost predicate NoReload(h: History, n: nat, p: PageId, i: nat)
    requires n <= |h|
  {
    forall j :: i < j < n && h[j].page == p ==> !h[j].fault
  }

  /** Some write to `p` has not been followed by a reload. */
  ghost predicate WrittenSinceLoad(h: History, n: nat, p: PageId)
    requires n <= |h|
  {
    exists i :: 0 <= i < n && WriteAt(h, i, p) && NoReload(h, n, p, i)
  }

  ghost predicate WriteAt(h: History, i: nat, p: PageId)
    requires i < |h|
  {
    h[i].page == p && h[i].write
  }

  /** The residency interval begun by the load at `s` contains a write. */
  ghost predicate WrittenInterval(h: History, n: nat, s: nat)
    requires n <= |h| && s < n
  {
    h[s].fault && exists i :: s <= i < n && WriteAt(h, i, h[s].page) && NoReload(h, i + 1, h[s].page, s)
  }

  ghost function WrittenIntervals(h: History, n: nat): set<nat>
    requires n <= |h|
  {
    set s: nat | s < n && WrittenInterval(h, n, s)
  }

  // ------------------------------------------------------------- one more event

  lemma WrittenOther(h: History, n: nat, q: PageId)
    requires 0 < n <= |h| && h[n - 1].page != q
    ensures WrittenSinceLoad(h, n, q) <==> WrittenSinceLoad(h, n - 1, q)
  {
    if WrittenSinceLoad(h, n, q) {
      var i :| 0 <= i < n && WriteAt(h, i, q) && NoReload(h, n, q, i);
      assert WriteAt(h, i, q) && NoReload(h, n - 1, q, i);
    }
    if WrittenSinceLoad(h, n - 1, q) {
      var i :| 0 <= i < n - 1 && WriteAt(h, i, q) && NoReload(h, n - 1, q, i);
      assert WriteAt(h, i, q) && NoReload(h, n, q, i);
    }
  }

  lemma WrittenNow(h: History, n: nat)
    requires 0 < n <= |h|
    ensures var e := h[n - 1];
      WrittenSinceLoad(h, n, e.page) <==> e.write || (!e.fault && WrittenSinceLoad(h, n - 1, e.page))
  {
    var e := h[n - 1];
    if WrittenSinceLoad(h, n, e.page) {
      var i :| 0 <= i < n && WriteAt(h, i, e.page) && NoReload(h, n, e.page, i);
      if i < n - 1 {
        assert WriteAt(h, i, e.page) && NoReload(h, n - 1, e.page, i);
      }
    }
    if e.write {
      assert WriteAt(h, n - 1, e.page) && NoReload(h, n, e.page, n - 1);
    }
    if !e.fault && WrittenSinceLoad(h, n - 1, e.page) {
      var i :| 0 <= i < n - 1 && WriteAt(h, i, e.page) && NoReload(h, n - 1, e.page, i);
      assert WriteAt(h, i, e.page) && NoReload(h, n, e.page, i);
    }
  }

  /** An interval is extended by the last event only if that event writes its page while
      the interval is still open. */
  lemma IntervalGrows(h: History, n: nat, s: nat)
    requires 0 < n <= |h| && s < n - 1
    ensures WrittenInterval(h, n, s) <==>
      WrittenInterval(h, n - 1, s) || (h[s].fault && WriteAt(h, n - 1, h[s].page) && NoReload(h, n, h[s].page, s))
  {
    if WrittenInterval(h, n, s) {
      var i :| s <= i < n && WriteAt(h, i, h[s].page) && NoReload(h, i + 1, h[s].page, s);
      assert i < n - 1 ==> WrittenInterval(h, n - 1, s);
    }
    if WrittenInterval(h, n - 1, s) {
      var i :| s <= i < n - 1 && WriteAt(h, i, h[s].page) && NoReload(h, i + 1, h[s].page, s);
      assert s <= i < n;
    }
    if h[s].fault && WriteAt(h, n - 1, h[s].page) && NoReload(h, n, h[s].page, s) {
      assert s <= n - 1 < n && NoReload(h, n - 1 + 1, h[s].page, s);
    }
  }

  lemma IntervalsAfterFault(h: History, n: nat)
    requires 0 < n <= |h| && h[n - 1].fault
    ensures WrittenIntervals(h, n) == WrittenIntervals(h, n - 1) + (if h[n - 1].write then {n - 1} else {})
  {
    forall s | 0 <= s < n - 1
      ensures WrittenInterval(h, n, s) <==> WrittenInterval(h, n - 1, s)
    {
      IntervalGrows(h, n, s);
    }
    if h[n - 1].write {
      assert WriteAt(h, n - 1, h[n - 1].page) && NoReload(h, n - 1 + 1, h[n - 1].page, n - 1);
    }
  }

  /** A hit that writes page `p`, loaded at `s`, marks that interval and no other. */
  lemma IntervalsAfterHit(h: History, n: nat, s: nat)
    requires 0 < n <= |h| && !h[n - 1].fault && LoadedAt(h, n - 1, h[n - 1].page, s)
    ensures WrittenIntervals(h, n) == WrittenIntervals(h, n - 1) + (if h[n - 1].write then {s} else {})
    ensures s in WrittenIntervals(h, n - 1) <==> WrittenSinceLoad(h, n - 1, h[n - 1].page)
  {
    var p := h[n - 1].page;
    forall r | 0 <= r < n - 1
      ensures WrittenInterval(h, n, r) <==> WrittenInterval(h, n - 1, r) || (r == s && h[n - 1].write)
    {
      IntervalGrows(h, n, r);
      if h[r].fault && h[r].page == p && NoReload(h, n, p, r) {
        assert r == s;
      }
    }
    OpenInterval(h, n - 1, p, s);
  }

  lemma OpenInterval(h: History, n: nat, p: PageId, s: nat)
    requires n <= |h| && LoadedAt(h, n, p, s)
    ensures WrittenInterval(h, n, s) <==> WrittenSinceLoad(h, n, p)
  {
    if WrittenInterval(h, n, s) {
      var i :| s <= i < n && WriteAt(h, i, p) && NoReload(h, i + 1, p, s);
      assert NoReload(h, n, p, i);
    }
    if WrittenSinceLoad(h, n, p) {
      var i :| 0 <= i < n && WriteAt(h, i, p) && NoReload(h, n, p, i);
      assert i >= s;
      assert NoReload(h, i + 1, p, s);
    }
  }

  // -------------------------------------------------------------- the unit's state

  ghost function DirtyPages(m: Mmu): set<PageId> {
    DirtyIn(m.pages)
  }

  ghost function DirtyIn(pages: map<PageId, Page>): set<PageId> {
    set p | p in pages && pages[p].dirty
  }

  ghost predicate HasLoad(h: History, n: nat, p: PageId)
    requires n <= |h|
  {
    exists s: nat :: LoadedAt(h, n, p, s)
  }

  ghost predicate FlagsExplained(m: Mmu, h: History, n: nat)
    requires n <= |h|
  {
    forall p :: p in m.pages ==> (m.pages[p].dirty <==> p in Resident(m) && WrittenSinceLoad(h, n, p))
  }

  ghost predicate LoadsExplained(X: set<PageId>, h: History, n: nat)
    requires n <= |h|
  {
    forall p :: p in X ==> HasLoad(h, n, p)
  }

  /** A unit state explained by the first `n` events: its dirty marks are the writes since the
      last loads, every resident page has its load, and dirty evictions and dirty pages make
      up the intervals that contain a write. */
  ghost predicate Explained(m: Mmu, base: nat, h: History, n: nat) {
    && n <= |h|
    && FlagsExplained(m, h, n)
    && LoadsExplained(Resident(m), h, n)
    && m.dirtyEvictions - base + |DirtyPages(m)| == |WrittenIntervals(h, n)|
  }

  lemma LoadsAfterEvent(h: History, n: nat, X: set<PageId>, Y: set<PageId>)
    requires 0 < n <= |h| && Y <= X + {h[n - 1].page} && (h[n - 1].page !in X ==> h[n - 1].fault)
    requires LoadsExplained(X, h, n - 1)
    ensures LoadsExplained(Y, h, n)
  {
    var e := h[n - 1];
    forall p | p in Y
      ensures HasLoad(h, n, p)
    {
      if p == e.page && e.fault {
        assert LoadedAt(h, n, p, n - 1);
      } else {
        assert HasLoad(h, n - 1, p);
        var s: nat :| LoadedAt(h, n - 1, p, s);
        assert LoadedAt(h, n, p, s);
      }
    }
  }

  lemma LoadOf(X: set<PageId>, h: History, n: nat, p: PageId) returns (s: nat)
    requires n <= |h| && LoadsExplained(X, h, n) && p in X
    ensures LoadedAt(h, n, p, s)
  {
    assert HasLoad(h, n, p);
    s :| LoadedAt(h, n, p, s);
  }

  lemma HitExplained(m: Mmu, a: MemoryAccess, p: PageId, base: nat, h: History, n: nat)
    requires p in m.pages && p in m.memory.table && 0 < n <= |h|
    requires Explained(m, base, h, n - 1) && h[n - 1] == Event(p, a.operation.Write?, false)
    ensures Explained(Hit(m, a, p), base, h, n)
  {
    hide FlagsExplained, LoadsExplained, LoadedAt, WrittenIntervals, WrittenSinceLoad, DirtyPages;
    var m' := Hit(m, a, p);
    HitFlags(m, a, p, h, n);
    LoadsAfterEvent(h, n, Resident(m), Resident(m'));
    var s := LoadOf(Resident(m), h, n - 1, p);
    HitIntervals(h, n, s);
    HitDirtyPages(m, a, p);
    DirtyIff(m, h, n - 1, p);
  }

  lemma HitIntervals(h: History, n: nat, s: nat)
    requires 0 < n <= |h| && !h[n - 1].fault && LoadedAt(h, n - 1, h[n - 1].page, s)
    ensures |WrittenIntervals(h, n)|
         == |WrittenIntervals(h, n - 1)| + (if h[n - 1].write && !WrittenSinceLoad(h, n - 1, h[n - 1].page) then 1 else 0)
  {
    IntervalsAfterHit(h, n, s);
    var W := WrittenIntervals(h, n - 1);
    assert s in W ==> W + {s} == W;
  }

  lemma DirtyIff(m: Mmu, h: History, n: nat, p: PageId)
    requires n <= |h| && FlagsExplained(m, h, n) && p in m.pages && p in Resident(m)
    ensures p in DirtyPages(m) <==> WrittenSinceLoad(h, n, p)
  {
  }

  lemma HitDirtyPages(m: Mmu, a: MemoryAccess, p: PageId)
    requires p in m.pages && p in m.memory.table
    ensures |DirtyPages(Hit(m, a, p))| == |DirtyPages(m)| + (if a.operation.Write? && p !in DirtyPages(m) then 1 else 0)
  {
    DirtyUpdate(m.pages, p, m.pages[p].Touch(a.operation));
  }

  lemma HitFlags(m: Mmu, a: MemoryAccess, p: PageId, h: History, n: nat)
    requires p in m.pages && p in m.memory.table && 0 < n <= |h|
    requires FlagsExplained(m, h, n - 1) && h[n - 1] == Event(p, a.operation.Write?, false)
    ensures FlagsExplained(Hit(m, a, p), h, n)
  {
    hide WrittenSinceLoad;
    var m' := Hit(m, a, p);
    forall q | q in m'.pages
      ensures m'.pages[q].dirty <==> q in Resident(m') && WrittenSinceLoad(h, n, q)
    {
      WrittenNow(h, n);
      if q != p {
        WrittenOther(h, n, q);
      }
    }
  }

  /** Any served fault, with the pages of `gone` evicted. */
  lemma FaultFlags(m: Mmu, m': Mmu, p: PageId, gone: set<PageId>, h: History, n: nat)
    requires 0 < n <= |h| && h[n - 1].page == p && h[n - 1].fault && p in m.pages && p !in gone
    requires m'.pages.Keys == m.pages.Keys && Resident(m') == Resident(m) - gone + {p}
    requires forall q :: q in m.pages && q != p ==> m'.pages[q].dirty == (m.pages[q].dirty && q !in gone)
    requires m'.pages[p].dirty == h[n - 1].write
    requires FlagsExplained(m, h, n - 1)
    ensures FlagsExplained(m', h, n)
  {
    hide WrittenSinceLoad;
    forall q | q in m'.pages
      ensures m'.pages[q].dirty <==> q in Resident(m') && WrittenSinceLoad(h, n, q)
    {
      WrittenNow(h, n);
      if q != p {
        WrittenOther(h, n, q);
      }
    }
  }

  lemma LoadExplained(m: Mmu, a: MemoryAccess, p: PageId, f: FrameId, base: nat, h: History, n: nat)
    requires p in m.pages && p !in Resident(m) && f < |m.memory.frames| && 0 < n <= |h|
    requires Explained(m, base, h, n - 1) && h[n - 1] == Event(p, a.operation.Write?, true)
    ensures Explained(Load(m, a, p, f), base, h, n)
  {
    hide FlagsExplained, LoadsExplained, WrittenIntervals, WrittenSinceLoad, DirtyPages;
    var m' := Load(m, a, p, f);
    NotDirtyOutside(m, h, n - 1, p);
    FaultFlags(m, m', p, {}, h, n);
    LoadsAfterEvent(h, n, Resident(m), Resident(m'));
    FaultIntervals(h, n);
    LoadDirtyPages(m, a, p, f);
  }

  /** A faulting write begins a new written interval. */
  lemma FaultIntervals(h: History, n: nat)
    requires 0 < n <= |h| && h[n - 1].fault
    ensures |WrittenIntervals(h, n)| == |WrittenIntervals(h, n - 1)| + (if h[n - 1].write then 1 else 0)
  {
    IntervalsAfterFault(h, n);
  }

  lemma NotDirtyOutside(m: Mmu, h: History, n: nat, p: PageId)
    requires n <= |h| && FlagsExplained(m, h, n) && p !in Resident(m)
    ensures p !in DirtyPages(m)
    ensures p in m.pages ==> !m.pages[p].dirty
  {
  }

  lemma LoadDirtyPages(m: Mmu, a: MemoryAccess, p: PageId, f: FrameId)
    requires p in m.pages && f < |m.memory.frames| && p !in DirtyPages(m)
    ensures |DirtyPages(Load(m, a, p, f))| == |DirtyPages(m)| + (if a.operation.Write? then 1 else 0)
  {
    DirtyUpdate(m.pages, p, m.pages[p].MapToFrame(f).Touch(a.operation));
  }

  lemma ReplaceDirtyPages(m: Mmu, a: MemoryAccess, p: PageId, v: PageId, f: FrameId)
    requires p in m.pages && v in m.pages && v != p && f < |m.memory.frames| && p !in DirtyPages(m)
    ensures |DirtyPages(Replace(m, a, p, v, f))|
         == |DirtyPages(m)| - (if m.pages[v].dirty then 1 else 0) + (if a.operation.Write? then 1 else 0)
  {
    DirtyUpdate(m.pages, v, m.pages[v].UnmapFromFrame());
    DirtyUpdate(m.pages[v := m.pages[v].UnmapFromFrame()], p, m.pages[p].MapToFrame(f).Touch(a.operation));
  }

  lemma DirtyUpdate(pages: map<PageId, Page>, p: PageId, page: Page)
    requires p in pages
    ensures |DirtyIn(pages[p := page])| == |DirtyIn(pages)| - (if pages[p].dirty then 1 else 0) + (if page.dirty then 1 else 0)
  {
    assert DirtyIn(pages[p := page]) == DirtyIn(pages) - {p} + (if page.dirty then {p} else {});
  }

  lemma ReplaceExplained(m: Mmu, a: MemoryAccess, p: PageId, v: PageId, f: FrameId, base: nat, h: History, n: nat)
    requires p in m.pages && v in m.pages && p !in Resident(m) && f < |m.memory.frames| && v in Resident(m) && 0 < n <= |h|
    requires Explained(m, base, h, n - 1) && h[n - 1] == Event(p, a.operation.Write?, true)
    ensures Explained(Replace(m, a, p, v, f), base, h, n)
  {
    hide FlagsExplained, LoadsExplained, WrittenIntervals, WrittenSinceLoad, DirtyPages;
    var m' := Replace(m, a, p, v, f);
    assert Resident(m') == Resident(m) - {v} + {p};
    NotDirtyOutside(m, h, n - 1, p);
    FaultFlags(m, m', p, {v}, h, n);
    LoadsAfterEvent(h, n, Resident(m), Resident(m'));
    FaultIntervals(h, n);
    ReplaceDirtyPages(m, a, p, v, f);
  }

  function EventOf(m: Mmu, a: MemoryAccess): Event
    requires Target(m, a).Some?
  {
    Event(Target(m, a).value, a.operation.Write?, Access(m, a).1.pageFault)
  }

  /** A served access, the last event of `h`. */
  lemma ServedExplained(m: Mmu, a: MemoryAccess, base: nat, h: History, n: nat)
    requires Consistent(m) && Access(m, a).1.success && Target(m, a).Some? && 0 < n <= |h|
    requires Explained(m, base, h, n - 1) && h[n - 1] == EventOf(m, a)
    ensures Explained(Access(m, a).0, base, h, n)
  {
    hide Access, Inverse, PagesAgree, Explained;
    var p := Target(m, a).value;
    AccessSucceedsIff(m, a);
    if p in m.memory.table {
      AccessHits(m, a, p);
      HitExplained(m, a, p, base, h, n);
    } else if !Full(m) {
      var f := AccessLoads(m, a, p);
      LoadExplained(m, a, p, f, base, h, n);
    } else {
      var v, f := AccessReplaces(m, a, p);
      ReplaceExplained(m, a, p, v, f, base, h, n);
    }
  }

  // ------------------------------------------------------------------- any operations

  /** What an operation adds to the history: a served access is an event, a refused one and a
      registration are none. */
  function Events(m: Mmu, op: Op): History {
    if op.DoAccess? && Access(m, op.access).1.success && Target(m, op.access).Some? then [EventOf(m, op.access)] else []
  }

  function HistoryOf(states: seq<Mmu>, ops: seq<Op>, n: nat): History
    requires n <= |ops| <= |states|
  {
    if n == 0 then [] else HistoryOf(states, ops, n - 1) + Events(states[n - 1], ops[n - 1])
  }

  /** The state is explained by the whole history. */
  ghost predicate ExplainedBy(m: Mmu, base: nat, h: History) {
    Explained(m, base, h, |h|)
  }

  /** Later events do not change what the earlier ones say. */
  lemma ExplainedBefore(m: Mmu, base: nat, h: History, e: Event)
    requires ExplainedBy(m, base, h)
    ensures Explained(m, base, h + [e], |h|)
  {
    hide WrittenSinceLoad, WrittenIntervals, LoadedAt;
    forall p | p in m.pages
      ensures m.pages[p].dirty <==> p in Resident(m) && WrittenSinceLoad(h + [e], |h|, p)
    {
      WrittenBefore(h, e, p);
    }
    forall p | p in Resident(m)
      ensures HasLoad(h + [e], |h|, p)
    {
      assert HasLoad(h, |h|, p);
      LoadedBefore(h, e, p);
    }
    IntervalsBefore(h, e);
  }

  lemma SameReloads(h: History, e: Event, p: PageId, n: nat, i: nat)
    requires n <= |h|
    ensures NoReload(h + [e], n, p, i) <==> NoReload(h, n, p, i)
  {
    assert forall j :: 0 <= j < |h| ==> (h + [e])[j] == h[j];
  }

  lemma WrittenBefore(h: History, e: Event, p: PageId)
    ensures WrittenSinceLoad(h + [e], |h|, p) <==> WrittenSinceLoad(h, |h|, p)
  {
    hide NoReload;
    forall i | 0 <= i < |h|
      ensures WriteAt(h + [e], i, p) && NoReload(h + [e], |h|, p, i) <==> WriteAt(h, i, p) && NoReload(h, |h|, p, i)
    {
      SameReloads(h, e, p, |h|, i);
    }
  }

  lemma LoadedBefore(h: History, e: Event, p: PageId)
    requires HasLoad(h, |h|, p)
    ensures HasLoad(h + [e], |h|, p)
  {
    var s: nat :| LoadedAt(h, |h|, p, s);
    SameReloads(h, e, p, |h|, s);
    assert LoadedAt(h + [e], |h|, p, s);
  }

  lemma IntervalsBefore(h: History, e: Event)
    ensures WrittenIntervals(h + [e], |h|) == WrittenIntervals(h, |h|)
  {
    forall s | 0 <= s < |h|
      ensures WrittenInterval(h + [e], |h|, s) <==> WrittenInterval(h, |h|, s)
    {
      IntervalBefore(h, e, s);
    }
  }

  lemma IntervalBefore(h: History, e: Event, s: nat)
    requires s < |h|
    ensures WrittenInterval(h + [e], |h|, s) <==> WrittenInterval(h, |h|, s)
  {
    hide NoReload;
    forall i | s <= i < |h|
      ensures WriteAt(h + [e], i, h[s].page) && NoReload(h + [e], i + 1, h[s].page, s)
         <==> WriteAt(h, i, h[s].page) && NoReload(h, i + 1, h[s].page, s)
    {
      SameReloads(h, e, h[s].page, i + 1, s);
    }
  }

  /** Any access, served or refused, whatever the policy answers. */
  lemma AccessExplained(m: Mmu, a: MemoryAccess, base: nat, h: History)
    requires Consistent(m) && ExplainedBy(m, base, h)
    ensures ExplainedBy(Access(m, a).0, base, h + Events(m, DoAccess(a)))
  {
    hide Access, Consistent, Explained;
    if Access(m, a).1.success {
      SuccessNamesPage(m, a);
      ExplainedBefore(m, base, h, EventOf(m, a));
      ServedExplained(m, a, base, h + [EventOf(m, a)], |h| + 1);
    } else {
      FailedAccessIsAtomic(m, a);
      assert h + [] == h;
      SameMarks(m, Access(m, a).0, base, h);
    }
  }

  lemma SuccessNamesPage(m: Mmu, a: MemoryAccess)
    requires Consistent(m) && Access(m, a).1.success
    ensures Target(m, a).Some?
  {
    AccessSucceedsIff(m, a);
  }

  lemma SameMarks(m: Mmu, m': Mmu, base: nat, h: History)
    requires ExplainedBy(m, base, h)
    requires m'.pages == m.pages && m'.memory == m.memory && m'.dirtyEvictions == m.dirtyEvictions
    ensures ExplainedBy(m', base, h)
  {
  }

  /** A page registered clean is explained by the absence of a load. */
  lemma RegistrationExplained(m: Mmu, m': Mmu, page: Page, base: nat, h: History)
    requires Consistent(m) && ExplainedBy(m, base, h) && Registrable(m, page) && !page.dirty
    requires m'.pages == m.pages[page.id := page] && m'.memory == m.memory && m'.dirtyEvictions == m.dirtyEvictions
    ensures ExplainedBy(m', base, h)
  {
    hide WrittenSinceLoad, WrittenIntervals, LoadsExplained;
    assert DirtyPages(m') == DirtyPages(m);
    assert page.id !in Resident(m);
    forall p | p in m'.pages
      ensures m'.pages[p].dirty <==> p in Resident(m') && WrittenSinceLoad(h, |h|, p)
    {
      assert p != page.id ==> m'.pages[p] == m.pages[p];
    }
  }

  /** The operation registers a page that already carries the dirty mark. */
  predicate RegistersDirty(m: Mmu, op: Op) {
    match op
    case Register(page) => page.dirty && RegisterPage(m, page).1
    case RegisterAt(page, number) => page.dirty && RegisterPageAt(m, page, number).1
    case DoAccess(_) => false
    case DoReset => false
    case Supply(_) => false
  }

  /** Any operation but a reset. */
  lemma StepExplained(m: Mmu, op: Op, m': Mmu, base: nat, h: History)
    requires Consistent(m) && ExplainedBy(m, base, h) && Step(m, op, m') && !op.DoReset? && !RegistersDirty(m, op)
    ensures ExplainedBy(m', base, h + Events(m, op))
  {
    hide Access, Consistent, Explained, Registrable;
    assert h + [] == h;
    match op
    case DoAccess(a) => AccessExplained(m, a, base, h);
    case Register(page) =>
      if RegisterPage(m, page).1 {
        RegistrationExplained(m, m', page, base, h);
      }
    case RegisterAt(page, number) =>
      if RegisterPageAt(m, page, number).1 {
        RegistrationExplained(m, m', page, base, h);
      }
    case Supply(_) => SameMarks(m, m', base, h);
  }

  /** At every point of any run since a reset, with any policy, refused accesses and
      registrations included, a page is dirty exactly when it is resident and was written
      since its last load, and the dirty evictions of the run plus the pages dirty now are
      the residency intervals that contain a write. */
  lemma {:induction false} DirtyEpochsConserved(states: seq<Mmu>, ops: seq<Op>, n: nat)
    requires Run(states, ops) && DoReset !in ops && n <= |ops|
    requires forall i :: 0 <= i < n ==> !RegistersDirty(states[i], ops[i])
    requires Consistent(states[0]) && Resident(states[0]) == {} && DirtyPages(states[0]) == {}
    ensures Consistent(states[n])
    ensures ExplainedBy(states[n], states[0].dirtyEvictions, HistoryOf(states, ops, n))
  {
    hide Step, Consistent, ExplainedBy, Events, RegistersDirty, DirtyPages;
    if n == 0 {
      NothingDirty(states[0]);
    } else {
      DirtyEpochsConserved(states, ops, n - 1);
      assert StepAt(states, ops, n - 1);
      assert ops[n - 1] in ops;
      StepPreserves(states[n - 1], ops[n - 1], states[n]);
      StepExplained(states[n - 1], ops[n - 1], states[n], states[0].dirtyEvictions, HistoryOf(states, ops, n - 1));
    }
  }

  lemma NothingDirty(m: Mmu)
    requires Resident(m) == {} && DirtyPages(m) == {}
    ensures ExplainedBy(m, m.dirtyEvictions, [])
  {
    assert WrittenIntervals([], 0) == {};
    assert forall p :: p in m.pages && m.pages[p].dirty ==> p in DirtyPages(m);
  }

  ghost predicate ExplainedAt(states: seq<Mmu>, ops: seq<Op>, n: nat)
    requires n <= |ops| && |states| == |ops| + 1
  {
    ExplainedBy(states[n], states[0].dirtyEvictions, HistoryOf(states, ops, n))
  }

  /** The whole run is explained exactly when no page brings a dirty mark into it. */
  lemma RunExplainedIff(states: seq<Mmu>, ops: seq<Op>)
    requires Run(states, ops) && DoReset !in ops && Consistent(states[0]) && Resident(states[0]) == {}
    ensures (forall n :: 0 <= n <= |ops| ==> ExplainedAt(states, ops, n))
       <==> DirtyPages(states[0]) == {} && forall i :: 0 <= i < |ops| ==> !RegistersDirty(states[i], ops[i])
  {
    hide Step, Consistent, ExplainedBy, RegistersDirty, DirtyPages;
    if DirtyPages(states[0]) == {} && forall i :: 0 <= i < |ops| ==> !RegistersDirty(states[i], ops[i]) {
      forall n | 0 <= n <= |ops|
        ensures ExplainedAt(states, ops, n)
      {
        DirtyEpochsConserved(states, ops, n);
      }
    }
    if forall n :: 0 <= n <= |ops| ==> ExplainedAt(states, ops, n) {
      assert ExplainedAt(states, ops, 0);
      CleanStart(states[0], states[0].dirtyEvictions, HistoryOf(states, ops, 0));
      forall i | 0 <= i < |ops|
        ensures !RegistersDirty(states[i], ops[i])
      {
        RunsAgree(states, ops, i);
        assert StepAt(states, ops, i);
        assert ExplainedAt(states, ops, i + 1);
        DirtyRegistration(states[i], ops[i], states[i + 1], states[0].dirtyEvictions, HistoryOf(states, ops, i + 1));
      }
    }
  }

  lemma CleanStart(m: Mmu, base: nat, h: History)
    requires ExplainedBy(m, base, h) && Resident(m) == {}
    ensures DirtyPages(m) == {}
  {
  }

  lemma DirtyRegistration(m: Mmu, op: Op, m': Mmu, base: nat, h: History)
    requires Consistent(m) && Step(m, op, m') && ExplainedBy(m', base, h)
    ensures !RegistersDirty(m, op)
  {
    hide Access, WrittenSinceLoad;
  }
}
