/** The replacement policies as they keep their state in place, each proved to do what
    PolicyModel says on every notification. */
module ReplacementPolicies {
  import opened Core
  import opened Entries
  import opened PolicyModel
  import opened MmuModel

  class FifoPolicy {
    var residencyQueue: seq<Entry<()>>
    var replacementCount: nat
    var dirtyEvictionCount: nat

    ghost predicate Valid()
      reads this
    {
      OneToOne(residencyQueue)
    }

    ghost function Model(): Policy
      reads this
    {
      Policy(Fifo(residencyQueue), replacementCount, dirtyEvictionCount)
    }

    constructor ()
      ensures Valid() && Model() == Policy(Fifo([]), 0, 0)
    {
      residencyQueue, replacementCount, dirtyEvictionCount := [], 0, 0;
    }

    method PageLoaded(p: PageId, f: FrameId)
      requires Valid()
      modifies this
      ensures Valid() && Model() == old(Model()).Loaded(p, f)
    {
      AppendTracks(residencyQueue, Entry(p, f, ()));
      if Position(residencyQueue, p, f) < |residencyQueue| {
        return;
      }
      if Mentions(residencyQueue, p, f) {
        return;
      }
      residencyQueue := residencyQueue + [Entry(p, f, ())];
    }

    method PageAccessed(p: PageId, f: FrameId)
      requires Valid()
      modifies this
      ensures Valid() && Model() == old(Model()).Accessed(p, f)
    {
    }

    method PageRemoved(p: PageId, f: FrameId)
      requires Valid()
      modifies this
      ensures Valid() && Model() == old(Model()).Removed(p, f)
    {
      EraseTracks(residencyQueue, p, f);
      var i := Position(residencyQueue, p, f);
      if i == |residencyQueue| {
        return;
      }
      residencyQueue := RemoveAt(residencyQueue, i);
    }

    method ChooseVictim() returns (victim: Option<FrameId>)
      requires Valid()
      modifies this
      ensures Valid() && (Model(), victim) == old(Model()).ChooseVictim()
    {
      if residencyQueue == [] {
        return None;
      }
      victim := Some(residencyQueue[0].frame);
      replacementCount := replacementCount + 1;
    }

    method RecordDirtyEviction()
      requires Valid()
      modifies this
      ensures Valid() && Model() == old(Model()).RecordDirtyEviction()
    {
      dirtyEvictionCount := dirtyEvictionCount + 1;
    }

    method Reset()
      requires Valid()
      modifies this
      ensures Valid() && Model() == old(Model()).Reset()
    {
      residencyQueue, replacementCount, dirtyEvictionCount := [], 0, 0;
    }
  }

  /** A list node. Lookup tables hold nodes by identity, as iterators into the list do. */
  class LruNode {
    const page: PageId
    const frame: FrameId

    constructor (p: PageId, f: FrameId)
      ensures page == p && frame == f
    {
      page, frame := p, f;
    }
  }

  class LruPolicy {
    var residencyList: seq<LruNode>
    var pageLookup: map<PageId, LruNode>
    var frameLookup: map<FrameId, LruNode>
    var replacementCount: nat
    var dirtyEvictionCount: nat

    /** The lookup tables point to exactly the nodes of the list: page by page and frame by
        frame, to the node that holds that page or frame. */
    static ghost predicate Indexed(list: seq<LruNode>, pages: map<PageId, LruNode>, frames: map<FrameId, LruNode>) {
      && NoDup(list)
      && (forall n :: n in list ==> n.page in pages && pages[n.page] == n)
      && (forall n :: n in list ==> n.frame in frames && frames[n.frame] == n)
      && (forall p :: p in pages ==> pages[p] in list && pages[p].page == p)
      && (forall f :: f in frames ==> frames[f] in list && frames[f].frame == f)
    }

    ghost predicate Valid()
      reads this
    {
      Indexed(residencyList, pageLookup, frameLookup)
    }

    static ghost function View(s: seq<LruNode>): (r: seq<Entry<()>>)
      ensures |r| == |s|
    {
      seq(|s|, i requires 0 <= i < |s| => Entry(s[i].page, s[i].frame, ()))
    }

    ghost function Model(): Policy
      reads this
    {
      Policy(Lru(View(residencyList)), replacementCount, dirtyEvictionCount)
    }

    constructor ()
      ensures Valid() && Model() == Policy(Lru([]), 0, 0)
    {
      residencyList, pageLookup, frameLookup := [], map[], map[];
      replacementCount, dirtyEvictionCount := 0, 0;
    }

    /** The index refines a sequence of associations without duplicates. */
    lemma ViewIsOneToOne()
      requires Valid()
      ensures OneToOne(View(residencyList))
    {
      forall i, j | 0 <= i < j < |residencyList|
        ensures residencyList[i].page != residencyList[j].page && residencyList[i].frame != residencyList[j].frame
      {
        assert residencyList[i] in residencyList && residencyList[j] in residencyList;
      }
    }

    /** A node's place in the list is the place of its association in the sequence. */
    lemma NodePosition(n: LruNode)
      requires Valid() && n in residencyList
      ensures var i := IndexOf(residencyList, n);
              i < |residencyList| && Position(View(residencyList), n.page, n.frame) == i
    {
      ViewIsOneToOne();
      var i := IndexOf(residencyList, n);
      assert View(residencyList)[i] == Entry(n.page, n.frame, ());
    }

    lemma NoPosition(p: PageId, f: FrameId)
      requires Valid() && (p in pageLookup ==> pageLookup[p].frame != f)
      ensures Position(View(residencyList), p, f) == |residencyList|
    {
      assert forall i :: 0 <= i < |residencyList| ==> residencyList[i] in residencyList;
    }

    lemma MentionedIffIndexed(p: PageId, f: FrameId)
      requires Valid()
      ensures Mentions(View(residencyList), p, f) <==> p in pageLookup || f in frameLookup
    {
      var s := View(residencyList);
      if Mentions(s, p, f) {
        var i :| 0 <= i < |s| && (s[i].page == p || s[i].frame == f);
        assert residencyList[i] in residencyList;
      }
      if p in pageLookup {
        var i :| 0 <= i < |residencyList| && residencyList[i] == pageLookup[p];
        assert s[i].page == p;
      }
      if f in frameLookup {
        var i :| 0 <= i < |residencyList| && residencyList[i] == frameLookup[f];
        assert s[i].frame == f;
      }
    }

    method PageLoaded(p: PageId, f: FrameId)
      requires Valid()
      modifies this
      ensures Valid() && Model() == old(Model()).Loaded(p, f)
    {
      MentionedIffIndexed(p, f);
      if p in pageLookup && pageLookup[p].frame == f {
        return;
      }
      if p in pageLookup || f in frameLookup {
        return;
      }
      var node := new LruNode(p, f);
      residencyList := residencyList + [node];
      pageLookup := pageLookup[p := node];
      frameLookup := frameLookup[f := node];
      assert View(residencyList) == old(View(residencyList)) + [Entry(p, f, ())];
    }

    method PageAccessed(p: PageId, f: FrameId)
      requires Valid()
      modifies this
      ensures Valid() && Model() == old(Model()).Accessed(p, f)
    {
      if p !in pageLookup {
        NoPosition(p, f);
        return;
      }
      var node := pageLookup[p];
      if node.frame != f {
        NoPosition(p, f);
        return;
      }
      NodePosition(node);
      var i := IndexOf(residencyList, node);
      if node != residencyList[|residencyList| - 1] {
        Splice(i);
      } else {
        var s := View(residencyList);
        assert i == |residencyList| - 1;
        assert RemoveAt(s, i) + [s[i]] == s;
      }
    }

    static lemma NodesWithout(s: seq<LruNode>, i: nat)
      requires NoDup(s) && i < |s|
      ensures NoDup(RemoveAt(s, i))
      ensures forall n :: n in RemoveAt(s, i) <==> n in s && n != s[i]
    {
      RemoveAtElements(s, i);
      assert forall n :: n in RemoveAt(s, i) <==> n in Elements(RemoveAt(s, i));
      assert forall n :: n in s <==> n in Elements(s);
    }

    /** A spliced list is indexed by the same tables. */
    static lemma SpliceKeepsIndex(s: seq<LruNode>, i: nat, pages: map<PageId, LruNode>, frames: map<FrameId, LruNode>)
      requires Indexed(s, pages, frames) && i < |s|
      ensures Indexed(RemoveAt(s, i) + [s[i]], pages, frames)
      ensures View(RemoveAt(s, i) + [s[i]]) == RemoveAt(View(s), i) + [View(s)[i]]
    {
      NodesWithout(s, i);
    }

    static lemma EraseKeepsIndex(s: seq<LruNode>, i: nat, pages: map<PageId, LruNode>, frames: map<FrameId, LruNode>)
      requires Indexed(s, pages, frames) && i < |s|
      ensures Indexed(RemoveAt(s, i), pages - {s[i].page}, frames - {s[i].frame})
      ensures View(RemoveAt(s, i)) == RemoveAt(View(s), i)
    {
      NodesWithout(s, i);
      ViewWithout(s, i);
      var rest := RemoveAt(s, i);
      assert forall j :: 0 <= j < |rest| ==> rest[j] == s[if j < i then j else j + 1] && rest[j] in s;
    }

    static lemma ViewWithout(s: seq<LruNode>, i: nat)
      requires i < |s|
      ensures View(RemoveAt(s, i)) == RemoveAt(View(s), i)
    {
    }

    /** Moves the node at `i` to the end of the list; the lookup tables stay as they are. */
    method Splice(i: nat)
      requires Valid() && i < |residencyList|
      modifies this`residencyList
      ensures Valid()
      ensures View(residencyList) == RemoveAt(old(View(residencyList)), i) + [old(View(residencyList))[i]]
    {
      hide Indexed, RemoveAt;
      SpliceKeepsIndex(residencyList, i, pageLookup, frameLookup);
      residencyList := RemoveAt(residencyList, i) + [residencyList[i]];
    }

    method PageRemoved(p: PageId, f: FrameId)
      requires Valid()
      modifies this
      ensures Valid() && Model() == old(Model()).Removed(p, f)
    {
      if p !in pageLookup {
        NoPosition(p, f);
        return;
      }
      var node := pageLookup[p];
      if node.frame != f {
        NoPosition(p, f);
        return;
      }
      NodePosition(node);
      EraseNode(IndexOf(residencyList, node));
    }

    /** Erases the node at `i` together with its two index entries. */
    method EraseNode(i: nat)
      requires Valid() && i < |residencyList|
      modifies this`residencyList, this`pageLookup, this`frameLookup
      ensures Valid()
      ensures View(residencyList) == RemoveAt(old(View(residencyList)), i)
    {
      hide Indexed, RemoveAt;
      EraseKeepsIndex(residencyList, i, pageLookup, frameLookup);
      var node := residencyList[i];
      pageLookup := pageLookup - {node.page};
      frameLookup := frameLookup - {node.frame};
      residencyList := RemoveAt(residencyList, i);
    }

    method ChooseVictim() returns (victim: Option<FrameId>)
      requires Valid()
      modifies this
      ensures Valid() && (Model(), victim) == old(Model()).ChooseVictim()
    {
      if residencyList == [] {
        return None;
      }
      victim := Some(residencyList[0].frame);
      replacementCount := replacementCount + 1;
    }

    method RecordDirtyEviction()
      requires Valid()
      modifies this
      ensures Valid() && Model() == old(Model()).RecordDirtyEviction()
    {
      dirtyEvictionCount := dirtyEvictionCount + 1;
    }

    method Reset()
      requires Valid()
      modifies this
      ensures Valid() && Model() == old(Model()).Reset()
    {
      residencyList, pageLookup, frameLookup := [], map[], map[];
      replacementCount, dirtyEvictionCount := 0, 0;
    }
  }

  class ClockPolicy {
    var residencyCollection: seq<Entry<bool>>
    var clockHand: nat
    var replacementCount: nat
    var dirtyEvictionCount: nat

    ghost predicate Valid()
      reads this
    {
      OneToOne(residencyCollection) && HandInRange(residencyCollection, clockHand)
    }

    ghost function Model(): Policy
      reads this
    {
      Policy(Clock(residencyCollection, clockHand), replacementCount, dirtyEvictionCount)
    }

    constructor ()
      ensures Valid() && Model() == Policy(Clock([], 0), 0, 0)
    {
      residencyCollection, clockHand, replacementCount, dirtyEvictionCount := [], 0, 0, 0;
    }

    method PageLoaded(p: PageId, f: FrameId)
      requires Valid()
      modifies this
      ensures Valid() && Model() == old(Model()).Loaded(p, f)
    {
      AppendTracks(residencyCollection, Entry(p, f, true));
      if Mentions(residencyCollection, p, f) {
        return;
      }
      residencyCollection := residencyCollection + [Entry(p, f, true)];
      if |residencyCollection| == 1 {
        clockHand := 0;
      }
    }

    method PageAccessed(p: PageId, f: FrameId)
      requires Valid()
      modifies this
      ensures Valid() && Model() == old(Model()).Accessed(p, f)
    {
      TouchTracks(residencyCollection, p, f);
      var i := Position(residencyCollection, p, f);
      if i == |residencyCollection| {
        return;
      }
      residencyCollection := residencyCollection[i := residencyCollection[i].(tag := true)];
    }

    method PageRemoved(p: PageId, f: FrameId)
      requires Valid()
      modifies this
      ensures Valid() && Model() == old(Model()).Removed(p, f)
    {
      EraseTracks(residencyCollection, p, f);
      var removedIndex := Position(residencyCollection, p, f);
      if removedIndex == |residencyCollection| {
        return;
      }
      residencyCollection := RemoveAt(residencyCollection, removedIndex);
      if residencyCollection == [] {
        clockHand := 0;
        return;
      }
      if removedIndex < clockHand {
        clockHand := clockHand - 1;
      } else if removedIndex == clockHand {
        if clockHand >= |residencyCollection| {
          clockHand := 0;
        }
      }
    }

    method AdvanceClockHand()
      requires residencyCollection != []
      modifies this`clockHand
      ensures clockHand == Advance(old(clockHand), |residencyCollection|)
    {
      clockHand := clockHand + 1;
      if clockHand >= |residencyCollection| {
        clockHand := 0;
      }
    }

    method ChooseVictim() returns (victim: Option<FrameId>)
      requires Valid()
      modifies this
      ensures Valid() && (Model(), victim) == old(Model()).ChooseVictim()
    {
      if residencyCollection == [] {
        return None;
      }
      ghost var ring, hand := residencyCollection, clockHand;
      var entryCount := |residencyCollection|;
      var inspectedEntries := 0;
      while inspectedEntries < entryCount * 2
        invariant |residencyCollection| == entryCount && clockHand < entryCount
        invariant inspectedEntries <= entryCount * 2
        invariant SameAssociations(ring, residencyCollection)
        invariant Sweep(residencyCollection, clockHand, entryCount * 2 - inspectedEntries) == Sweep(ring, hand, 2 * entryCount)
        invariant replacementCount == old(replacementCount) && dirtyEvictionCount == old(dirtyEvictionCount)
      {
        var entry := residencyCollection[clockHand];
        if !entry.tag {
          SameAssociationsTrack(ring, residencyCollection);
          AdvanceClockHand();
          replacementCount := replacementCount + 1;
          return Some(entry.frame);
        }
        residencyCollection := residencyCollection[clockHand := entry.(tag := false)];
        AdvanceClockHand();
        inspectedEntries := inspectedEntries + 1;
      }
      SameAssociationsTrack(ring, residencyCollection);
      return None;
    }

    method RecordDirtyEviction()
      requires Valid()
      modifies this
      ensures Valid() && Model() == old(Model()).RecordDirtyEviction()
    {
      dirtyEvictionCount := dirtyEvictionCount + 1;
    }

    method Reset()
      requires Valid()
      modifies this
      ensures Valid() && Model() == old(Model()).Reset()
    {
      residencyCollection, clockHand, replacementCount, dirtyEvictionCount := [], 0, 0, 0;
    }
  }

  class OptimalPolicy {
    var residencyCollection: seq<Entry<nat>>
    var referenceSequence: seq<PageId>
    var referencePosition: nat
    var nextResidencyOrder: nat
    var replacementCount: nat
    var dirtyEvictionCount: nat

    ghost predicate Valid()
      reads this
    {
      && OneToOne(residencyCollection)
      && referencePosition <= |referenceSequence|
      && InResidencyOrder(residencyCollection, nextResidencyOrder)
    }

    ghost function Model(): Policy
      reads this
    {
      Policy(Optimal(residencyCollection, referenceSequence, referencePosition, nextResidencyOrder),
             replacementCount, dirtyEvictionCount)
    }

    constructor ()
      ensures Valid() && Model() == Policy(Optimal([], [], 0, 0), 0, 0)
    {
      residencyCollection, referenceSequence, referencePosition, nextResidencyOrder := [], [], 0, 0;
      replacementCount, dirtyEvictionCount := 0, 0;
    }

    method SetReferenceSequence(reference: seq<PageId>)
      requires Valid()
      modifies this
      ensures Valid()
      ensures Model() == old(Model()).(discipline := old(Model()).discipline.(reference := reference, position := 0))
    {
      referenceSequence, referencePosition := reference, 0;
    }

    method PageLoaded(p: PageId, f: FrameId)
      requires Valid()
      modifies this
      ensures Valid() && Model() == old(Model()).Loaded(p, f)
    {
      AppendTracks(residencyCollection, Entry(p, f, nextResidencyOrder));
      if Mentions(residencyCollection, p, f) {
        return;
      }
      residencyCollection := residencyCollection + [Entry(p, f, nextResidencyOrder)];
      nextResidencyOrder := nextResidencyOrder + 1;
    }

    /** Consumes one position of the reference sequence when it names the accessed page. */
    method AdvanceReferencePosition(p: PageId)
      requires Valid()
      modifies this`referencePosition
      ensures Valid()
      ensures referencePosition == if old(referencePosition) < |referenceSequence| && referenceSequence[old(referencePosition)] == p
                                   then old(referencePosition) + 1 else old(referencePosition)
    {
      if referencePosition >= |referenceSequence| {
        return;
      }
      if referenceSequence[referencePosition] != p {
        return;
      }
      referencePosition := referencePosition + 1;
    }

    method PageAccessed(p: PageId, f: FrameId)
      requires Valid()
      modifies this
      ensures Valid() && Model() == old(Model()).Accessed(p, f)
    {
      AdvanceReferencePosition(p);
    }

    method PageRemoved(p: PageId, f: FrameId)
      requires Valid()
      modifies this
      ensures Valid() && Model() == old(Model()).Removed(p, f)
    {
      hide OneToOne, InResidencyOrder;
      EraseTracks(residencyCollection, p, f);
      EraseKeepsOrder(residencyCollection, nextResidencyOrder, p, f);
      var i := Position(residencyCollection, p, f);
      if i == |residencyCollection| {
        return;
      }
      residencyCollection := RemoveAt(residencyCollection, i);
    }

    /** The running comparison over optional next uses selects the entry used farthest away,
        the earliest resident of equals. */
    method SelectFarthest() returns (selected: nat)
      requires residencyCollection != [] && referencePosition <= |referenceSequence|
      ensures selected < |residencyCollection|
      ensures selected == Farthest(residencyCollection, referenceSequence, referencePosition, |residencyCollection|)
    {
      selected := 0;
      var selectedNextUse := NextUse(referenceSequence, referencePosition, residencyCollection[0].page);
      FirstIsFarthest(residencyCollection, referenceSequence, referencePosition);
      var i := 1;
      while i < |residencyCollection|
        invariant 1 <= i <= |residencyCollection| && selected < i
        invariant selected == Farthest(residencyCollection, referenceSequence, referencePosition, i)
        invariant selectedNextUse == NextUse(referenceSequence, referencePosition, residencyCollection[selected].page)
      {
        FarthestGrows(residencyCollection, referenceSequence, referencePosition, i);
        var candidateNextUse := NextUse(referenceSequence, referencePosition, residencyCollection[i].page);
        if candidateNextUse.None? && selectedNextUse.Some? {
          selected, selectedNextUse := i, candidateNextUse;
        } else if candidateNextUse.Some? && selectedNextUse.Some? {
          if candidateNextUse.value > selectedNextUse.value {
            selected, selectedNextUse := i, candidateNextUse;
          }
        }
        i := i + 1;
      }
    }

    method ChooseVictim() returns (victim: Option<FrameId>)
      requires Valid()
      modifies this
      ensures Valid() && (Model(), victim) == old(Model()).ChooseVictim()
    {
      if residencyCollection == [] {
        return None;
      }
      var selected := SelectFarthest();
      victim := Some(residencyCollection[selected].frame);
      replacementCount := replacementCount + 1;
    }

    method RecordDirtyEviction()
      requires Valid()
      modifies this
      ensures Valid() && Model() == old(Model()).RecordDirtyEviction()
    {
      dirtyEvictionCount := dirtyEvictionCount + 1;
    }

    method Reset()
      requires Valid()
      modifies this
      ensures Valid() && Model() == old(Model()).Reset()
    {
      residencyCollection, referenceSequence, referencePosition, nextResidencyOrder := [], [], 0, 0;
      replacementCount, dirtyEvictionCount := 0, 0;
    }
  }

  /** Any other implementation of the interface, by the answers it will give. */
  class ForeignPolicy {
    var answers: seq<Option<FrameId>>
    var replacementCount: nat
    var dirtyEvictionCount: nat

    ghost function Model(): Policy
      reads this
    {
      Policy(Foreign(answers), replacementCount, dirtyEvictionCount)
    }

    constructor (answers: seq<Option<FrameId>>)
      ensures Model() == Policy(Foreign(answers), 0, 0)
    {
      this.answers, replacementCount, dirtyEvictionCount := answers, 0, 0;
    }

    method ChooseVictim() returns (victim: Option<FrameId>)
      modifies this
      ensures (Model(), victim) == old(Model()).ChooseVictim()
    {
      if answers == [] {
        return None;
      }
      victim, answers := answers[0], answers[1..];
      if victim.Some? {
        replacementCount := replacementCount + 1;
      }
    }

    method RecordDirtyEviction()
      modifies this
      ensures Model() == old(Model()).RecordDirtyEviction()
    {
      dirtyEvictionCount := dirtyEvictionCount + 1;
    }

    method Reset()
      modifies this
      ensures Model() == old(Model()).Reset()
    {
      replacementCount, dirtyEvictionCount := 0, 0;
    }
  }

  /** The policy interface: a call goes to the implementation behind it. */
  datatype ReplacementPolicy =
    | FifoAt(fifo: FifoPolicy)
    | LruAt(lru: LruPolicy)
    | ClockAt(clock: ClockPolicy)
    | OptimalAt(optimal: OptimalPolicy)
    | ForeignAt(foreign: ForeignPolicy)
  {
    ghost function Repr(): object {
      match this
      case FifoAt(p) => p
      case LruAt(p) => p
      case ClockAt(p) => p
      case OptimalAt(p) => p
      case ForeignAt(p) => p
    }

    ghost predicate Valid()
      reads Repr()
    {
      match this
      case FifoAt(p) => p.Valid()
      case LruAt(p) => p.Valid()
      case ClockAt(p) => p.Valid()
      case OptimalAt(p) => p.Valid()
      case ForeignAt(p) => true
    }

    ghost function Model(): Policy
      reads Repr()
    {
      match this
      case FifoAt(p) => p.Model()
      case LruAt(p) => p.Model()
      case ClockAt(p) => p.Model()
      case OptimalAt(p) => p.Model()
      case ForeignAt(p) => p.Model()
    }

    method PageLoaded(p: PageId, f: FrameId)
      requires Valid()
      modifies Repr()
      ensures Valid() && Model() == old(Model()).Loaded(p, f)
    {
      match this {
        case FifoAt(policy) => policy.PageLoaded(p, f);
        case LruAt(policy) => policy.PageLoaded(p, f);
        case ClockAt(policy) => policy.PageLoaded(p, f);
        case OptimalAt(policy) => policy.PageLoaded(p, f);
        case ForeignAt(policy) =>
      }
    }

    method PageAccessed(p: PageId, f: FrameId)
      requires Valid()
      modifies Repr()
      ensures Valid() && Model() == old(Model()).Accessed(p, f)
    {
      match this {
        case FifoAt(policy) => policy.PageAccessed(p, f);
        case LruAt(policy) => policy.PageAccessed(p, f);
        case ClockAt(policy) => policy.PageAccessed(p, f);
        case OptimalAt(policy) => policy.PageAccessed(p, f);
        case ForeignAt(policy) =>
      }
    }

    method PageRemoved(p: PageId, f: FrameId)
      requires Valid()
      modifies Repr()
      ensures Valid() && Model() == old(Model()).Removed(p, f)
    {
      match this {
        case FifoAt(policy) => policy.PageRemoved(p, f);
        case LruAt(policy) => policy.PageRemoved(p, f);
        case ClockAt(policy) => policy.PageRemoved(p, f);
        case OptimalAt(policy) => policy.PageRemoved(p, f);
        case ForeignAt(policy) =>
      }
    }

    method ChooseVictim() returns (victim: Option<FrameId>)
      requires Valid()
      modifies Repr()
      ensures Valid() && (Model(), victim) == old(Model()).ChooseVictim()
    {
      match this {
        case FifoAt(policy) => victim := policy.ChooseVictim();
        case LruAt(policy) => victim := policy.ChooseVictim();
        case ClockAt(policy) => victim := policy.ChooseVictim();
        case OptimalAt(policy) => victim := policy.ChooseVictim();
        case ForeignAt(policy) => victim := policy.ChooseVictim();
      }
    }

    method RecordDirtyEviction()
      requires Valid()
      modifies Repr()
      ensures Valid() && Model() == old(Model()).RecordDirtyEviction()
    {
      match this {
        case FifoAt(policy) => policy.RecordDirtyEviction();
        case LruAt(policy) => policy.RecordDirtyEviction();
        case ClockAt(policy) => policy.RecordDirtyEviction();
        case OptimalAt(policy) => policy.RecordDirtyEviction();
        case ForeignAt(policy) => policy.RecordDirtyEviction();
      }
    }

    method Reset()
      requires Valid()
      modifies Repr()
      ensures Valid() && Model() == old(Model()).Reset()
    {
      match this {
        case FifoAt(policy) => policy.Reset();
        case LruAt(policy) => policy.Reset();
        case ClockAt(policy) => policy.Reset();
        case OptimalAt(policy) => policy.Reset();
        case ForeignAt(policy) => policy.Reset();
      }
    }
  }
}
