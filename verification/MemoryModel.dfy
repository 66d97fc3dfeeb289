/** The two sides of the page-table/physical-memory integration as values, and what each
    integrated operation does to them from any state, consistent or not. */
module MemoryModel {
  import opened Core

  /** The frame array: what each frame holds. A frame's identifier is its index. */
  type Frames = seq<Option<PageId>>

  datatype Memory = Memory(table: map<PageId, FrameId>, frames: Frames)

  // ------------------------------------------------------------- physical memory

  /** Lowest frame, from `from` on, whose content is `what`. */
  function FirstWith(frames: Frames, what: Option<PageId>, from: nat): (r: Option<FrameId>)
    requires from <= |frames|
    ensures r.Some? ==> from <= r.value < |frames| && frames[r.value] == what
    ensures r.Some? ==> forall i :: from <= i < r.value ==> frames[i] != what
    ensures r.None? ==> forall i :: from <= i < |frames| ==> frames[i] != what
    decreases |frames| - from
  {
    if from == |frames| then None
    else if frames[from] == what then Some(from)
    else FirstWith(frames, what, from + 1)
  }

  function FrameForPage(frames: Frames, p: PageId): Option<FrameId> {
    FirstWith(frames, Some(p), 0)
  }

  function LowestFree(frames: Frames): Option<FrameId> {
    FirstWith(frames, None, 0)
  }

  function Allocate(frames: Frames, p: PageId): (Frames, Option<FrameId>) {
    if FrameForPage(frames, p).Some? then (frames, None)
    else match LowestFree(frames)
      case None => (frames, None)
      case Some(f) => (frames[f := Some(p)], Some(f))
  }

  function Release(frames: Frames, f: FrameId): (Frames, bool) {
    if f < |frames| && frames[f].Some? then (frames[f := None], true) else (frames, false)
  }

  function Occupied(frames: Frames): nat {
    if frames == [] then 0
    else Occupied(frames[..|frames| - 1]) + (if frames[|frames| - 1].Some? then 1 else 0)
  }

  /** No page is held by two frames. */
  ghost predicate HeldOnce(frames: Frames) {
    forall f, g :: 0 <= f < g < |frames| && frames[f].Some? ==> frames[f] != frames[g]
  }

  ghost function HeldPages(frames: Frames): set<PageId> {
    set f | 0 <= f < |frames| && frames[f].Some? :: frames[f].value
  }

  lemma {:induction false} OccupiedBound(frames: Frames)
    ensures Occupied(frames) <= |frames|
    ensures Occupied(frames) == |frames| <==> forall f :: 0 <= f < |frames| ==> frames[f].Some?
  {
    if frames != [] {
      var n := |frames| - 1;
      OccupiedBound(frames[..n]);
      assert frames == frames[..n] + [frames[n]];
      assert Occupied(frames) == |frames| ==> forall f :: 0 <= f < n ==> frames[..n][f].Some?;
    }
  }

  lemma {:induction false} EmptyFramesUnoccupied(frames: Frames)
    requires forall i :: 0 <= i < |frames| ==> frames[i].None?
    ensures Occupied(frames) == 0
  {
    if frames != [] {
      EmptyFramesUnoccupied(frames[..|frames| - 1]);
    }
  }

  lemma {:induction false} OccupiedUpdate(frames: Frames, f: FrameId, x: Option<PageId>)
    requires f < |frames|
    ensures Occupied(frames[f := x])
         == Occupied(frames) + (if x.Some? then 1 else 0) - (if frames[f].Some? then 1 else 0)
  {
    var n := |frames| - 1;
    var updated := frames[f := x];
    if f < n {
      OccupiedUpdate(frames[..n], f, x);
      assert updated[..n] == frames[..n][f := x];
    } else {
      assert updated[..n] == frames[..n];
    }
  }

  lemma {:induction false} HeldPagesCardinality(frames: Frames)
    requires HeldOnce(frames)
    ensures |HeldPages(frames)| == Occupied(frames)
  {
    if frames != [] {
      var n := |frames| - 1;
      var init := frames[..n];
      HeldPagesCardinality(init);
      assert forall f :: 0 <= f < n ==> init[f] == frames[f];
      if frames[n].Some? {
        assert HeldPages(frames) == HeldPages(init) + {frames[n].value};
      } else {
        assert HeldPages(frames) == HeldPages(init);
      }
    }
  }

  lemma FrameForPageUnique(frames: Frames, p: PageId, f: FrameId)
    requires HeldOnce(frames) && f < |frames| && frames[f] == Some(p)
    ensures FrameForPage(frames, p) == Some(f)
  {
  }

  // ------------------------------------------------------------------- page table

  /** Only an unmapped page gets an entry. */
  function Insert(table: map<PageId, FrameId>, p: PageId, f: FrameId): (map<PageId, FrameId>, bool) {
    if p in table then (table, false) else (table[p := f], true)
  }

  function Remove(table: map<PageId, FrameId>, p: PageId): (map<PageId, FrameId>, bool) {
    (table - {p}, p in table)
  }

  // ---------------------------------------------------------- integrated operations

  function Lookup(m: Memory, p: PageId): Option<FrameId> {
    if p in m.table then Some(m.table[p]) else None
  }

  predicate IsMappingConsistent(m: Memory, p: PageId) {
    && p in m.table
    && FrameForPage(m.frames, p) == Some(m.table[p])
  }

  function MapPage(m: Memory, p: PageId): (Memory, Option<FrameId>) {
    if p in m.table then (m, None)
    else
      var (frames, f) := Allocate(m.frames, p);
      if f.None? then (m, None) else (Memory(m.table[p := f.value], frames), f)
  }

  function UnmapPage(m: Memory, p: PageId): (Memory, bool) {
    if !IsMappingConsistent(m, p) then (m, false)
    else (Memory(m.table - {p}, Release(m.frames, m.table[p]).0), true)
  }

  function ReleaseFrame(m: Memory, f: FrameId): (Memory, bool) {
    if f >= |m.frames| || m.frames[f].None? then (m, false)
    else
      var p := m.frames[f].value;
      if Lookup(m, p) != Some(f) then (m, false)
      else (Memory(m.table - {p}, Release(m.frames, f).0), true)
  }

  predicate IsConsistent(m: Memory) {
    && |m.table| == Occupied(m.frames)
    && forall f :: 0 <= f < |m.frames| && m.frames[f].Some? ==> IsMappingConsistent(m, m.frames[f].value)
  }

  /** The page table is exactly the inverse of the frame contents. */
  ghost predicate Inverse(m: Memory) {
    && (forall p :: p in m.table ==> m.table[p] < |m.frames| && m.frames[m.table[p]] == Some(p))
    && (forall f :: 0 <= f < |m.frames| && m.frames[f].Some? ==> Lookup(m, m.frames[f].value) == Some(f))
  }

  // ------------------------------------------------------------------ what they mean

  /** `mapPage` is all or nothing from any state. It succeeds exactly when neither side knows
      the page and a frame is free, and then takes the lowest free frame; what it maps is at
      once consistent, so re-checking the fresh mapping can never fail. */
  lemma MapPageAllOrNothing(m: Memory, p: PageId)
    ensures var (m', f) := MapPage(m, p);
      && (f.Some? <==> p !in m.table && Some(p) !in m.frames && None in m.frames)
      && (f.None? ==> m' == m)
      && (f.Some? ==>
            && f.value < |m.frames| && m.frames[f.value] == None
            && (forall g :: 0 <= g < f.value ==> m.frames[g].Some?)
            && m' == Memory(m.table[p := f.value], m.frames[f.value := Some(p)])
            && IsMappingConsistent(m', p))
  {
    var (m', f) := MapPage(m, p);
    if f.Some? {
      assert m'.frames[f.value] == Some(p);
      assert FrameForPage(m'.frames, p) == Some(f.value);
    } else if p !in m.table && Some(p) !in m.frames {
      assert None !in m.frames;
    }
  }

  /** Another page's mapping is as consistent as before. */
  ghost predicate OthersAsBefore(m: Memory, m': Memory, p: PageId) {
    forall q: PageId :: q != p ==> Lookup(m', q) == Lookup(m, q) && FrameForPage(m'.frames, q) == FrameForPage(m.frames, q)
  }

  lemma OthersKeepFrame(frames: Frames, f: FrameId, x: Option<PageId>, q: PageId)
    requires f < |frames| && frames[f] != Some(q) && x != Some(q)
    ensures FrameForPage(frames[f := x], q) == FrameForPage(frames, q)
  {
    var before, after := FrameForPage(frames, q), FrameForPage(frames[f := x], q);
    assert before.Some? ==> frames[f := x][before.value] == Some(q);
    assert after.Some? ==> frames[after.value] == Some(q);
  }

  /** From any state, mapping a page leaves every other page's mapping alone, and so its
      consistency. */
  lemma MapPageLeavesOthers(m: Memory, p: PageId)
    ensures OthersAsBefore(m, MapPage(m, p).0, p)
    ensures forall q :: q != p ==> IsMappingConsistent(MapPage(m, p).0, q) == IsMappingConsistent(m, q)
  {
    MapPageAllOrNothing(m, p);
    var f := MapPage(m, p).1;
    forall q: PageId | q != p && f.Some?
      ensures FrameForPage(MapPage(m, p).0.frames, q) == FrameForPage(m.frames, q)
    {
      OthersKeepFrame(m.frames, f.value, Some(p), q);
    }
  }

  /** From any state, releasing a frame forgets its page on both sides when the table maps it
      there, changes nothing otherwise, and leaves every other page's mapping alone. */
  lemma ReleaseFrameLeavesOthers(m: Memory, f: FrameId)
    ensures ReleaseFrame(m, f).1 <==> f < |m.frames| && m.frames[f].Some? && Lookup(m, m.frames[f].value) == Some(f)
    ensures !ReleaseFrame(m, f).1 ==> ReleaseFrame(m, f).0 == m
    ensures ReleaseFrame(m, f).1 ==>
      var (m', p) := (ReleaseFrame(m, f).0, m.frames[f].value);
      && m' == Memory(m.table - {p}, m.frames[f := None])
      && !IsMappingConsistent(m', p)
      && OthersAsBefore(m, m', p)
      && forall q :: q != p ==> IsMappingConsistent(m', q) == IsMappingConsistent(m, q)
  {
    if ReleaseFrame(m, f).1 {
      var p := m.frames[f].value;
      forall q: PageId | q != p
        ensures FrameForPage(ReleaseFrame(m, f).0.frames, q) == FrameForPage(m.frames, q)
      {
        OthersKeepFrame(m.frames, f, None, q);
      }
    }
  }

  /** From any state, unmapping a page is releasing its frame when its mapping is consistent,
      and nothing otherwise; when no page is in two frames it fails only for an entry whose
      frame does not hold the page. */
  lemma UnmapIsRelease(m: Memory, p: PageId)
    ensures UnmapPage(m, p) == if IsMappingConsistent(m, p) then ReleaseFrame(m, m.table[p]) else (m, false)
    ensures UnmapPage(m, p).1 ==> p !in UnmapPage(m, p).0.table && OthersAsBefore(m, UnmapPage(m, p).0, p)
    ensures HeldOnce(m.frames) ==>
      (UnmapPage(m, p).1 <==> p in m.table && m.table[p] < |m.frames| && m.frames[m.table[p]] == Some(p))
  {
    if p in m.table {
      ReleaseFrameLeavesOthers(m, m.table[p]);
      if HeldOnce(m.frames) && m.table[p] < |m.frames| && m.frames[m.table[p]] == Some(p) {
        FrameForPageUnique(m.frames, p, m.table[p]);
      }
    }
  }

  /** Unmapping undoes mapping, on both sides and from any state. */
  lemma UnmapUndoesMap(m: Memory, p: PageId)
    requires MapPage(m, p).1.Some?
    ensures UnmapPage(MapPage(m, p).0, p) == (m, true)
    ensures ReleaseFrame(MapPage(m, p).0, MapPage(m, p).1.value) == (m, true)
  {
    MapPageAllOrNothing(m, p);
    var f := MapPage(m, p).1.value;
    assert m.frames[f := Some(p)][f := None] == m.frames;
    assert m.table[p := f] - {p} == m.table;
  }

  /** Mapping the page just released from a full memory undoes the release. */
  lemma MapUndoesRelease(m: Memory, f: FrameId)
    requires HeldOnce(m.frames) && Occupied(m.frames) == |m.frames| && ReleaseFrame(m, f).1
    ensures MapPage(ReleaseFrame(m, f).0, m.frames[f].value) == (m, Some(f))
  {
    var p := m.frames[f].value;
    var released := ReleaseFrame(m, f).0;
    OccupiedBound(m.frames);
    assert released.frames == m.frames[f := None];
    MapPageAllOrNothing(released, p);
    assert released.frames[f] == None;
    assert released.frames[f := Some(p)] == m.frames;
    assert released.table[p := f] == m.table;
  }

  /** After an eviction from a full memory the lowest free frame is the one evicted from. */
  lemma EvictedFrameIsReused(m: Memory, f: FrameId, p: PageId)
    requires Occupied(m.frames) == |m.frames| && ReleaseFrame(m, f).1
    requires p !in m.table && Some(p) !in m.frames
    ensures MapPage(ReleaseFrame(m, f).0, p).1 == Some(f)
    ensures MapPage(ReleaseFrame(m, f).0, p).0
         == Memory(m.table - {m.frames[f].value} + map[p := f], m.frames[f := Some(p)])
  {
    var released := ReleaseFrame(m, f).0;
    OccupiedBound(m.frames);
    assert released.frames == m.frames[f := None];
    MapPageAllOrNothing(released, p);
    assert released.frames[f] == None;
    assert released.frames[f := Some(p)] == m.frames[f := Some(p)];
    assert released.table[p := f] == m.table - {m.frames[f].value} + map[p := f];
  }

  /** `isConsistent` decides that the page table is exactly the inverse of the frames. */
  lemma ConsistentIffInverse(m: Memory)
    requires HeldOnce(m.frames)
    ensures IsConsistent(m) <==> Inverse(m)
  {
    if IsConsistent(m) {
      ConsistentIsInverse(m);
    }
    if Inverse(m) {
      InverseIsConsistent(m);
    }
  }

  /** Equal counts leave no table entry without its frame. */
  lemma ConsistentIsInverse(m: Memory)
    requires HeldOnce(m.frames) && IsConsistent(m)
    ensures Inverse(m)
  {
    hide HeldOnce, FrameForPage;
    TableIsHeld(m);
    forall f | 0 <= f < |m.frames| && m.frames[f].Some?
      ensures Lookup(m, m.frames[f].value) == Some(f)
    {
      FrameForPageUnique(m.frames, m.frames[f].value, f);
    }
    forall p | p in m.table
      ensures m.table[p] < |m.frames| && m.frames[m.table[p]] == Some(p)
    {
      assert p in HeldPages(m.frames);
    }
  }

  lemma TableIsHeld(m: Memory)
    requires HeldOnce(m.frames) && IsConsistent(m)
    ensures HeldPages(m.frames) == m.table.Keys
  {
    hide HeldOnce, FrameForPage;
    HeldPagesCardinality(m.frames);
    assert |m.table.Keys| == |m.table|;
    SubsetCardinality(HeldPages(m.frames), m.table.Keys);
  }

  lemma InverseIsConsistent(m: Memory)
    requires Inverse(m)
    ensures IsConsistent(m)
  {
    InverseHolds(m);
    HeldPagesCardinality(m.frames);
    assert |m.table.Keys| == |m.table|;
    forall f | 0 <= f < |m.frames| && m.frames[f].Some?
      ensures IsMappingConsistent(m, m.frames[f].value)
    {
      assert Lookup(m, m.frames[f].value) == Some(f);
      FrameForPageUnique(m.frames, m.frames[f].value, f);
    }
  }

  lemma InverseHolds(m: Memory)
    requires Inverse(m)
    ensures HeldPages(m.frames) == m.table.Keys
    ensures HeldOnce(m.frames)
  {
    forall p | p in m.table
      ensures p in HeldPages(m.frames)
    {
      assert Lookup(m, p) == Some(m.table[p]);
    }
    forall p | p in HeldPages(m.frames)
      ensures p in m.table
    {
      var f :| 0 <= f < |m.frames| && m.frames[f] == Some(p);
      assert Lookup(m, p) == Some(f);
    }
    forall f, g | 0 <= f < g < |m.frames| && m.frames[f].Some?
      ensures m.frames[f] != m.frames[g]
    {
      assert Lookup(m, m.frames[f].value) == Some(f);
    }
  }
}
