/** Page table, physical-memory manager and their integration as they keep their state in
    place, proved against MemoryModel. */
module PhysicalMemory {
  import opened Core
  import opened MemoryModel

  class PageTable {
    var mappings: map<PageId, FrameId>

    constructor ()
      ensures mappings == map[]
    {
      mappings := map[];
    }

    /** Inserts only when the page is not mapped yet. */
    method Map(p: PageId, f: FrameId) returns (inserted: bool)
      modifies this
      ensures (mappings, inserted) == Insert(old(mappings), p, f)
    {
      inserted := p !in mappings;
      if inserted {
        mappings := mappings[p := f];
      }
    }

    function Find(p: PageId): Option<FrameId>
      reads this
    {
      if p in mappings then Some(mappings[p]) else None
    }

    method Unmap(p: PageId) returns (removed: bool)
      modifies this
      ensures (mappings, removed) == Remove(old(mappings), p)
    {
      removed := p in mappings;
      mappings := mappings - {p};
    }

    method Clear()
      modifies this
      ensures mappings == map[]
    {
      mappings := map[];
    }
  }

  class PhysicalMemoryManager {
    const frames: array<Option<PageId>>
    var allocatedFrameCount: nat

    /** The counter is exact and no page is in two frames. */
    ghost predicate Valid()
      reads this, frames
    {
      allocatedFrameCount == Occupied(frames[..]) && HeldOnce(frames[..])
    }

    constructor (frameCount: nat)
      ensures Valid() && fresh(frames) && frames[..] == seq(frameCount, _ => None)
    {
      frames := new Option<PageId>[frameCount](_ => None);
      allocatedFrameCount := 0;
      new;
      assert frames[..] == seq(frameCount, _ => None);
      EmptyFramesUnoccupied(frames[..]);
    }

    method HasFreeFrame() returns (free: bool)
      requires Valid()
      ensures free <==> Occupied(frames[..]) < |frames[..]|
      ensures free <==> None in frames[..]
    {
      OccupiedBound(frames[..]);
      free := allocatedFrameCount < frames.Length;
    }

    /** The lowest frame that holds `p`. */
    method FindFrameOf(p: PageId) returns (frame: Option<FrameId>)
      ensures frame == FrameForPage(frames[..], p)
    {
      var i := 0;
      while i < frames.Length
        invariant i <= frames.Length
        invariant FrameForPage(frames[..], p) == FirstWith(frames[..], Some(p), i)
      {
        if frames[i] == Some(p) {
          return Some(i);
        }
        i := i + 1;
      }
      return None;
    }

    method Holds(f: FrameId, p: PageId) returns (holds: bool)
      ensures holds <==> f < |frames[..]| && frames[..][f] == Some(p)
    {
      holds := f < frames.Length && frames[f] == Some(p);
    }

    /** Lowest-numbered free frame, unless the page already has a frame. */
    method AllocateFrame(p: PageId) returns (frame: Option<FrameId>)
      requires Valid()
      modifies this, frames
      ensures Valid()
      ensures (frames[..], frame) == Allocate(old(frames[..]), p)
    {
      var existing := FindFrameOf(p);
      if existing.Some? {
        return None;
      }
      var i := 0;
      while i < frames.Length
        invariant i <= frames.Length
        invariant LowestFree(frames[..]) == FirstWith(frames[..], None, i)
        invariant frames[..] == old(frames[..]) && allocatedFrameCount == old(allocatedFrameCount)
      {
        if frames[i].None? {
          OccupiedUpdate(frames[..], i, Some(p));
          frames[i] := Some(p);
          assert frames[..] == old(frames[..])[i := Some(p)];
          allocatedFrameCount := allocatedFrameCount + 1;
          return Some(i);
        }
        i := i + 1;
      }
      return None;
    }

    method ReleaseFrame(f: FrameId) returns (released: bool)
      requires Valid()
      modifies this, frames
      ensures Valid()
      ensures (frames[..], released) == Release(old(frames[..]), f)
    {
      if f >= frames.Length {
        return false;
      }
      if frames[f].None? {
        return false;
      }
      OccupiedUpdate(frames[..], f, None);
      frames[f] := None;
      assert frames[..] == old(frames[..])[f := None];
      allocatedFrameCount := allocatedFrameCount - 1;
      return true;
    }

    method Clear()
      requires Valid()
      modifies this, frames
      ensures Valid() && allocatedFrameCount == 0
      ensures forall i :: 0 <= i < frames.Length ==> frames[i].None?
    {
      var i := 0;
      while i < frames.Length
        invariant i <= frames.Length && Valid()
        invariant forall j :: 0 <= j < i ==> frames[j].None?
      {
        if frames[i].Some? {
          var released := ReleaseFrame(i);
          assert frames[..][i].None?;
        }
        i := i + 1;
      }
      EmptyFramesUnoccupied(frames[..]);
    }
  }

  /** Coordinates one page table and one physical memory. */
  class Integration {
    const pageTable: PageTable
    const physicalMemory: PhysicalMemoryManager

    constructor (pageTable: PageTable, physicalMemory: PhysicalMemoryManager)
      ensures this.pageTable == pageTable && this.physicalMemory == physicalMemory
    {
      this.pageTable, this.physicalMemory := pageTable, physicalMemory;
    }

    ghost predicate Valid()
      reads physicalMemory, physicalMemory.frames
    {
      physicalMemory.Valid()
    }

    ghost function View(): Memory
      reads pageTable, physicalMemory, physicalMemory.frames
    {
      Memory(pageTable.mappings, physicalMemory.frames[..])
    }

    method CheckMapping(p: PageId) returns (consistent: bool)
      ensures consistent == IsMappingConsistent(View(), p)
    {
      var tableFrame := pageTable.Find(p);
      var physicalFrame := physicalMemory.FindFrameOf(p);
      if tableFrame.None? || physicalFrame.None? {
        return false;
      }
      if tableFrame != physicalFrame {
        return false;
      }
      var frame := tableFrame.value;
      return frame < physicalMemory.frames.Length && physicalMemory.frames[frame] == Some(p);
    }

    /** Whatever fails after the allocation is undone. By the equality with the model neither
        the check of the fresh frame nor the insertion ever fails. */
    method MapPage(p: PageId) returns (frame: Option<FrameId>)
      requires Valid()
      modifies pageTable, physicalMemory, physicalMemory.frames
      ensures Valid()
      ensures (View(), frame) == MemoryModel.MapPage(old(View()), p)
    {
      hide Insert, Allocate;
      ghost var before, frames := pageTable.mappings, physicalMemory.frames[..];
      if pageTable.Find(p).Some? {
        return None;
      }
      RefusalChangesNothing(frames, p);
      var existing := physicalMemory.FindFrameOf(p);
      if existing.Some? {
        return None;
      }
      frame := physicalMemory.AllocateFrame(p);
      if frame.None? {
        return None;
      }
      var holds := physicalMemory.Holds(frame.value, p);
      if !holds {
        AllocatedHolds(frames, p);
        assert false;
        return None;
      }
      var inserted := pageTable.Map(p, frame.value);
      if !inserted {
        var undone := physicalMemory.ReleaseFrame(frame.value);
        AbsentIsInserted(before, p, frame.value);
        assert false;
        return None;
      }
      AbsentIsInserted(before, p, frame.value);
    }
    /** An entry already taken out is put back when the frame cannot be released. By the
        equality with the model that never happens, nor does taking it out fail. */
    method UnmapPage(p: PageId) returns (unmapped: bool)
      requires Valid()
      modifies pageTable, physicalMemory, physicalMemory.frames
      ensures Valid()
      ensures (View(), unmapped) == MemoryModel.UnmapPage(old(View()), p)
    {
      hide Insert, Remove, Release;
      ghost var before, frames := pageTable.mappings, physicalMemory.frames[..];
      var frame := pageTable.Find(p);
      if frame.None? {
        return false;
      }
      var consistent := CheckMapping(p);
      if !consistent {
        return false;
      }
      var removed := pageTable.Unmap(p);
      if !removed {
        PresentIsRemoved(before, p);
        assert false;
        return false;
      }
      unmapped := physicalMemory.ReleaseFrame(frame.value);
      if !unmapped {
        var restored := pageTable.Map(p, frame.value);
        OccupiedIsReleased(frames, frame.value);
        assert false;
        return false;
      }
      PresentIsRemoved(before, p);
    }

    method ReleaseFrame(f: FrameId) returns (released: bool)
      requires Valid()
      modifies pageTable, physicalMemory, physicalMemory.frames
      ensures Valid()
      ensures (View(), released) == MemoryModel.ReleaseFrame(old(View()), f)
    {
      hide Insert, Remove, Release;
      ghost var before, frames := pageTable.mappings, physicalMemory.frames[..];
      if f >= physicalMemory.frames.Length || physicalMemory.frames[f].None? {
        return false;
      }
      var p := physicalMemory.frames[f].value;
      var mapped := pageTable.Find(p);
      if mapped.None? || mapped.value != f {
        return false;
      }
      var removed := pageTable.Unmap(p);
      if !removed {
        PresentIsRemoved(before, p);
        assert false;
        return false;
      }
      released := physicalMemory.ReleaseFrame(f);
      if !released {
        var restored := pageTable.Map(p, f);
        OccupiedIsReleased(frames, f);
        assert false;
        return false;
      }
      PresentIsRemoved(before, p);
    }

    static lemma RefusalChangesNothing(frames: Frames, p: PageId)
      ensures FrameForPage(frames, p).Some? ==> Allocate(frames, p).1.None?
      ensures Allocate(frames, p).1.None? ==> Allocate(frames, p).0 == frames
    {
    }

    static lemma AllocatedHolds(frames: Frames, p: PageId)
      ensures var (frames', f) := Allocate(frames, p); f.Some? ==> f.value < |frames'| && frames'[f.value] == Some(p)
    {
    }

    static lemma AbsentIsInserted(table: map<PageId, FrameId>, p: PageId, f: FrameId)
      requires p !in table
      ensures Insert(table, p, f) == (table[p := f], true)
    {
    }

    static lemma PresentIsRemoved(table: map<PageId, FrameId>, p: PageId)
      requires p in table
      ensures Remove(table, p) == (table - {p}, true)
    {
    }

    static lemma OccupiedIsReleased(frames: Frames, f: FrameId)
      requires f < |frames| && frames[f].Some?
      ensures Release(frames, f).1
    {
    }

    /** Walks every frame, so it decides the consistency of the whole, which by
        ConsistentIffInverse is that table and frames are exactly inverse. */
    method CheckAll() returns (consistent: bool)
      requires Valid()
      ensures consistent <==> IsConsistent(View())
      ensures consistent <==> Inverse(View())
    {
      hide Inverse, IsMappingConsistent;
      ConsistentIffInverse(View());
      if |pageTable.mappings| != physicalMemory.allocatedFrameCount {
        return false;
      }
      var index := 0;
      while index < physicalMemory.frames.Length
        invariant index <= physicalMemory.frames.Length
        invariant forall f :: 0 <= f < index && View().frames[f].Some? ==> IsMappingConsistent(View(), View().frames[f].value)
      {
        var content := physicalMemory.frames[index];
        if content.Some? {
          var mapped := CheckMapping(content.value);
          if !mapped {
            assert View().frames[index] == content;
            return false;
          }
        }
        index := index + 1;
      }
      return true;
    }
  }
}
