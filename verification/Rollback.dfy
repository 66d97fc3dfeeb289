/** The rollback of an eviction: what it restores exactly, and what it does not. */
module Rollback {
  import opened Core
  import opened Entries
  import opened PolicyModel
  import opened MemoryModel
  import opened MmuModel
  import opened MmuInvariant
  import opened ClockTheory

  /** Memory is full and `v` is mapped to frame `f` in every view but the policy's. */
  ghost predicate Evictable(m: Mmu, v: PageId, f: FrameId) {
    && HeldOnce(m.memory.frames) && Full(m)
    && f < |m.memory.frames| && m.memory.frames[f] == Some(v) && Lookup(m.memory, v) == Some(f)
    && v in m.pages && m.pages[v].mappedFrame == Some(f)
  }

  /** Evicting a page from full memory and rolling back gives the original page table, frames
      and page records, with the victim's dirty and referenced marks. The policy is told
      that the victim was loaded again. */
  lemma RollbackInvertsEviction(m: Mmu, v: PageId, f: FrameId)
    requires Evictable(m, v, f)
    ensures RestoreVictim(Evicted(m, v, f), v, f, m.pages[v].dirty, m.pages[v].referenced)
         == (m.(policy := m.policy.Removed(v, f).Loaded(v, f)), true)
  {
    hide HeldOnce, Occupied;
    MapUndoesRelease(m.memory, f);
    FrameForPageUnique(m.memory.frames, v, f);
    var evicted := Evicted(m, v, f);
    assert evicted.pages[v := m.pages[v]] == m.pages;
  }

  /** The rollback inside a failed replacement: whatever made the access fail after the
      eviction, memory and page records end as they began. */
  lemma FailedReplacementRestores(m: Mmu, a: MemoryAccess, p: PageId, v: PageId, f: FrameId)
    requires Evictable(m, v, f)
    requires p in m.pages && p !in m.memory.table && Some(p) !in m.memory.frames
    requires !m.pages[p].IsResident() && !m.pages[p].dirty && !m.pages[p].referenced
    requires !EvictAndLoad(m, a, p, v, f).1.success
    ensures EvictAndLoad(m, a, p, v, f).0 == m.(policy := m.policy.Removed(v, f).Loaded(v, f))
  {
    hide HeldOnce;
    EvictedFrameIsReused(m.memory, f, p);
    var evicted := Evicted(m, v, f);
    UnmapUndoesMap(evicted.memory, p);
    assert evicted.pages[p] == m.pages[p];
    assert evicted.pages[p := m.pages[p].MapToFrame(f)][p := m.pages[p]] == evicted.pages;
    RollbackInvertsEviction(m, v, f);
  }

  /** The policy tracks the same pages afterwards... */
  lemma RollbackKeepsTracking(d: Discipline, v: PageId, f: FrameId)
    requires d.WellFormed() && !d.Foreign? && Pair(v, f) in d.Tracked()
    ensures d.Removed(v, f).Loaded(v, f).Tracked() == d.Tracked()
  {
    RemovedTracks(d, v, f);
    LoadedTracks(d.Removed(v, f), v, f);
    RemovedForgets(d, v, f);
  }

  lemma RemovedForgets(d: Discipline, v: PageId, f: FrameId)
    requires d.WellFormed() && !d.Foreign? && Pair(v, f) in d.Tracked()
    ensures !Mentioned(d.Removed(v, f), v, f)
  {
    RemovedTracks(d, v, f);
    forall x | x in d.Tracked() && (x.page == v || x.frame == f)
      ensures x == Pair(v, f)
    {
      match d
      case Fifo(s) => PairsFunctional(s, x, Pair(v, f));
      case Lru(s) => PairsFunctional(s, x, Pair(v, f));
      case Clock(s, _) => PairsFunctional(s, x, Pair(v, f));
      case Optimal(s, _, _, _) => PairsFunctional(s, x, Pair(v, f));
    }
  }

  /** ... but FIFO and LRU forget the victim's place: their order survives a rollback
      exactly when the victim was the newest entry, the last they would have named. */
  lemma RollbackKeepsOrderIff(s: seq<Entry<()>>, i: nat)
    requires OneToOne(s) && i < |s|
    ensures var (v, f) := (s[i].page, s[i].frame);
      && (Fifo(s).Removed(v, f).Loaded(v, f) == Fifo(s) <==> i == |s| - 1)
      && (Lru(s).Removed(v, f).Loaded(v, f) == Lru(s) <==> i == |s| - 1)
  {
    var v, f := s[i].page, s[i].frame;
    assert Position(s, v, f) == i;
    RemoveAtTracks(s, i);
    var back := RemoveAt(s, i) + [Entry(v, f, ())];
    assert Append(RemoveAt(s, i), Entry(v, f, ())) == back;
    assert back[|s| - 1].page == v;
    if i == |s| - 1 {
      assert s[i].tag == () by { match s[i].tag case () => }
      assert back == s;
    }
  }

  /** So does Optimal keep the order of its residency exactly for the newest entry; its
      residency counter has advanced in any case. */
  lemma OptimalRollbackKeepsOrderIff(d: Discipline, i: nat)
    requires d.Optimal? && d.WellFormed() && i < |d.residency|
    ensures var (s, e) := (d.residency, d.residency[i]);
      var d' := d.Removed(e.page, e.frame).Loaded(e.page, e.frame);
      && d' == d.(residency := RemoveAt(s, i) + [e.(tag := d.nextOrder)], nextOrder := d.nextOrder + 1)
      && (PagesOf(d'.residency) == PagesOf(s) <==> i == |s| - 1)
  {
    var s, e := d.residency, d.residency[i];
    assert Position(s, e.page, e.frame) == i;
    RemoveAtTracks(s, i);
    var rest := RemoveAt(s, i);
    var back := rest + [e.(tag := d.nextOrder)];
    assert !Mentions(rest, e.page, e.frame);
    assert PagesOf(back)[|s| - 1] == e.page;
    if i == |s| - 1 {
      assert PagesOf(back) == PagesOf(s);
    } else {
      assert PagesOf(s)[|s| - 1] == s[|s| - 1].page != e.page;
    }
  }

  /** Clock appends the victim at the end of its vector with the bit set, so ring and hand
      are as before exactly when the victim was the last entry, with its bit set, and the
      hand not on it unless it is alone. */
  lemma ClockRollbackKeepsRingIff(ring: seq<Entry<bool>>, hand: nat, i: nat)
    requires OneToOne(ring) && hand < |ring| && i < |ring|
    ensures var (v, f) := (ring[i].page, ring[i].frame);
      Clock(ring, hand).Removed(v, f).Loaded(v, f) == Clock(ring, hand)
      <==> i == |ring| - 1 && ring[i].tag && (hand < i || i == 0)
  {
    var v, f := ring[i].page, ring[i].frame;
    assert Position(ring, v, f) == i;
    RemoveAtTracks(ring, i);
    var rest := RemoveAt(ring, i);
    assert !Mentions(rest, v, f);
    var back := rest + [Entry(v, f, true)];
    assert back[|ring| - 1].page == v;
    if i == |ring| - 1 && ring[i].tag {
      assert back == ring;
    }
  }

  /** The victim Clock has just chosen has its bit clear, so a rollback always changes Clock. */
  lemma ClockRollbackNeverKeeps(ring: seq<Entry<bool>>, hand: nat)
    requires OneToOne(ring) && hand < |ring|
    ensures var (d, v) := (Clock(ring, hand).ChooseVictim().0, VictimIndex(ring, hand));
      && Clock(ring, hand).ChooseVictim().1 == Some(ring[v].frame)
      && d.Removed(ring[v].page, ring[v].frame).Loaded(ring[v].page, ring[v].frame) != d
  {
    var s, v := StepsToClear(ring, hand, 0), VictimIndex(ring, hand);
    SweepSelects(ring, hand, 2 * |ring|);
    var spared, hand' := SpareFirst(ring, hand, s), Advance(v, |ring|);
    SameAssociationsTrack(ring, spared);
    assert Distance(|ring|, hand, v) == if s == |ring| then 0 else s;
    assert !spared[v].tag;
    ClockRollbackKeepsRingIff(spared, hand', v);
  }

  /** The rollback from any state. It succeeds exactly when the victim is out, neither table nor
      frames know it, and its old frame is the lowest free one; the victim is then back in
      that frame with its marks. It changes nothing when the victim cannot be mapped at all.
      When another frame is the lowest free one, the victim stays mapped there without its record
      saying so, and the victim's old frame is released. */
  lemma RestoreVictimExact(m: Mmu, v: PageId, f: FrameId, dirty: bool, referenced: bool)
    requires v in m.pages
    ensures var (m', restored) := RestoreVictim(m, v, f, dirty, referenced);
      var page := m.pages[v];
      var free := page.mappedFrame == None && v !in m.memory.table && Some(v) !in m.memory.frames && None in m.memory.frames;
      && (restored <==> free && IsLowestFree(m.memory.frames, f))
      && (restored ==> m' == m.(
            memory := Memory(m.memory.table[v := f], m.memory.frames[f := Some(v)]),
            pages := m.pages[v := Page(page.id, page.process, Some(f), page.dirty || dirty, page.referenced || referenced)],
            policy := m.policy.Loaded(v, f)))
      && (!free ==> m' == m)
      && (free && !restored ==>
            exists g: FrameId :: IsLowestFree(m.memory.frames, g) && g != f
              && m' == m.(memory := ReleaseFrame(Memory(m.memory.table[v := g], m.memory.frames[g := Some(v)]), f).0))
  {
    hide ReleaseFrame, MapPage, IsMappingConsistent;
    MapPageAllOrNothing(m.memory, v);
    var frame := MapPage(m.memory, v).1;
    if m.pages[v].mappedFrame == None && frame.Some? {
      var g := frame.value;
      assert IsLowestFree(m.memory.frames, g);
      LowestFreeUnique(m.memory.frames, g, f);
    }
  }

  ghost predicate IsLowestFree(frames: Frames, f: FrameId) {
    f < |frames| && frames[f] == None && forall g :: 0 <= g < f ==> frames[g].Some?
  }

  lemma LowestFreeUnique(frames: Frames, f: FrameId, g: FrameId)
    requires IsLowestFree(frames, f)
    ensures IsLowestFree(frames, g) <==> f == g
  {
  }

  // -------------------------------------------------------------- when rollback runs

  /** The errors with which an access that got as far as loading can end. */
  predicate LoadingError(e: AccessError) {
    e in {FreeFrameNotMapped, VictimNotReleased, VictimFrameNotReused, NotResident, WrongFrame, WrongVirtualPage}
  }

  /** Whatever the state, loading that fails, and so every rollback, reports such an error. */
  lemma RollbackReports(m: Mmu, a: MemoryAccess, p: PageId, v: PageId, f: FrameId)
    requires p in m.pages && v in m.pages
    ensures var r := LoadIntoFreeFrame(m, a, p).1; r.success || (r.error.Some? && LoadingError(r.error.value))
    ensures var r := EvictAndLoad(m, a, p, v, f).1; r.success || (r.error.Some? && LoadingError(r.error.value))
  {
    hide MapPage, ReleaseFrame, RestoreVictim;
  }

  /** From a consistent state no access ends so, whatever the policy answers: rollback never
      runs. */
  lemma RollbackNeverRuns(m: Mmu, a: MemoryAccess)
    requires Consistent(m)
    ensures var r := Access(m, a).1; r.success || (r.error.Some? && !LoadingError(r.error.value))
  {
    hide Access, Inverse;
    if !Access(m, a).1.success {
      AccessRefused(m, a);
    }
  }
}
