/** What each replacement policy does to its own state on every notification, and which
    victim it names. The policy classes are proved against these functions. */
module PolicyModel {
  import opened Core
  import opened Entries
  import Paging

  datatype Discipline =
    | Fifo(queue: seq<Entry<()>>)
    | Lru(list: seq<Entry<()>>)
    | Clock(ring: seq<Entry<bool>>, hand: nat)
    | Optimal(residency: seq<Entry<nat>>, reference: seq<PageId>, position: nat, nextOrder: nat)
    /** Any other implementation of the interface: all the MMU ever learns from one is the
        victims it names, so it is the list of its answers. */
    | Foreign(answers: seq<Option<FrameId>>)
  {
    ghost predicate WellFormed() {
      match this
      case Fifo(queue) => OneToOne(queue)
      case Lru(list) => OneToOne(list)
      case Clock(ring, hand) => OneToOne(ring) && HandInRange(ring, hand)
      case Optimal(residency, reference, position, nextOrder) =>
        OneToOne(residency) && position <= |reference| && InResidencyOrder(residency, nextOrder)
      case Foreign(_) => true
    }

    /** The associations the policy tracks. */
    ghost function Tracked(): set<Pair> {
      match this
      case Fifo(queue) => Pairs(queue)
      case Lru(list) => Pairs(list)
      case Clock(ring, _) => Pairs(ring)
      case Optimal(residency, _, _, _) => Pairs(residency)
      case Foreign(_) => {}
    }

    function Loaded(p: PageId, f: FrameId): Discipline {
      match this
      case Fifo(queue) => Fifo(Append(queue, Entry(p, f, ())))
      case Lru(list) => Lru(Append(list, Entry(p, f, ())))
      case Clock(ring, hand) =>
        var ring' := Append(ring, Entry(p, f, true));
        Clock(ring', if Mentions(ring, p, f) then hand else if |ring'| == 1 then 0 else hand)
      case Optimal(residency, reference, position, nextOrder) =>
        if Mentions(residency, p, f) then this
        else Optimal(residency + [Entry(p, f, nextOrder)], reference, position, nextOrder + 1)
      case Foreign(_) => this
    }

    function Accessed(p: PageId, f: FrameId): Discipline {
      match this
      case Fifo(_) => this
      case Lru(list) => Lru(MoveToBack(list, p, f))
      case Clock(ring, hand) => Clock(Touch(ring, p, f), hand)
      case Optimal(_, reference, position, _) =>
        if position < |reference| && reference[position] == p then this.(position := position + 1) else this
      case Foreign(_) => this
    }

    function Removed(p: PageId, f: FrameId): Discipline {
      match this
      case Fifo(queue) => Fifo(Erase(queue, p, f))
      case Lru(list) => Lru(Erase(list, p, f))
      case Clock(ring, hand) => Clock(Erase(ring, p, f), HandAfterErase(ring, hand, Position(ring, p, f)))
      case Optimal(residency, _, _, _) => this.(residency := Erase(residency, p, f))
      case Foreign(_) => this
    }

    /** A hand or cursor out of range, which no sequence of notifications produces, names
        nobody. */
    function ChooseVictim(): (Discipline, Option<FrameId>) {
      match this
      case Fifo(queue) => (this, if queue == [] then None else Some(queue[0].frame))
      case Lru(list) => (this, if list == [] then None else Some(list[0].frame))
      case Clock(ring, hand) =>
        if ring == [] || hand >= |ring| then (this, None)
        else var s := Sweep(ring, hand, 2 * |ring|); (Clock(s.ring, s.hand), s.victim)
      case Optimal(residency, reference, position, _) =>
        (this, if residency == [] || position > |reference| then None
               else Some(residency[Farthest(residency, reference, position, |residency|)].frame))
      case Foreign(answers) =>
        if answers == [] then (this, None) else (Foreign(answers[1..]), answers[0])
    }

    function Reset(): Discipline {
      match this
      case Fifo(_) => Fifo([])
      case Lru(_) => Lru([])
      case Clock(_, _) => Clock([], 0)
      case Optimal(_, _, _, _) => Optimal([], [], 0, 0)
      case Foreign(_) => this
    }
  }

  // ------------------------------------------------------------------------ LRU

  function MoveToBack<T>(s: seq<Entry<T>>, p: PageId, f: FrameId): seq<Entry<T>> {
    var i := Position(s, p, f);
    if i == |s| then s else RemoveAt(s, i) + [s[i]]
  }

  // ---------------------------------------------------------------------- Clock

  predicate HandInRange(ring: seq<Entry<bool>>, hand: nat) {
    if ring == [] then hand == 0 else hand < |ring|
  }

  function Touch(ring: seq<Entry<bool>>, p: PageId, f: FrameId): seq<Entry<bool>> {
    var i := Position(ring, p, f);
    if i == |ring| then ring else ring[i := ring[i].(tag := true)]
  }

  function Advance(hand: nat, n: nat): nat {
    if hand + 1 >= n then 0 else hand + 1
  }

  datatype SweepResult = SweepResult(ring: seq<Entry<bool>>, hand: nat, victim: Option<FrameId>)

  /** The second-chance traversal, inspecting at most `budget` entries. */
  function Sweep(ring: seq<Entry<bool>>, hand: nat, budget: nat): SweepResult
    requires hand < |ring|
    decreases budget
  {
    if budget == 0 then SweepResult(ring, hand, None)
    else if !ring[hand].tag then SweepResult(ring, Advance(hand, |ring|), Some(ring[hand].frame))
    else Sweep(Spare(ring, hand), Advance(hand, |ring|), budget - 1)
  }

  /** Clears the reference bit under the hand. */
  function Spare(ring: seq<Entry<bool>>, hand: nat): seq<Entry<bool>>
    requires hand < |ring|
  {
    ring[hand := ring[hand].(tag := false)]
  }

  function HandAfterErase(ring: seq<Entry<bool>>, hand: nat, removed: nat): nat {
    if removed >= |ring| then hand
    else if |ring| == 1 then 0
    else if removed < hand then hand - 1
    else if removed == hand && hand >= |ring| - 1 then 0
    else hand
  }

  // -------------------------------------------------------------------- Optimal

  ghost predicate InResidencyOrder(s: seq<Entry<nat>>, nextOrder: nat) {
    && (forall i, j :: 0 <= i < j < |s| ==> s[i].tag < s[j].tag)
    && (forall i :: 0 <= i < |s| ==> s[i].tag < nextOrder)
  }

  lemma EraseKeepsOrder(s: seq<Entry<nat>>, nextOrder: nat, p: PageId, f: FrameId)
    requires InResidencyOrder(s, nextOrder)
    ensures InResidencyOrder(Erase(s, p, f), nextOrder)
  {
  }

  /** Position of the next reference at or after `position`, or `None`. */
  function NextUse(reference: seq<PageId>, position: nat, p: PageId): Option<nat>
    requires position <= |reference|
  {
    var n := Paging.Next(reference, position, p);
    if n == |reference| then None else Some(n)
  }

  /** Among the first `n` entries, the one used farthest away, the earliest of equals. */
  function Farthest(s: seq<Entry<nat>>, reference: seq<PageId>, position: nat, n: nat): (i: nat)
    requires 1 <= n <= |s| && position <= |reference|
    ensures i < n
    ensures forall j :: 0 <= j < n ==>
      Paging.Next(reference, position, s[j].page) <= Paging.Next(reference, position, s[i].page)
    ensures forall j :: 0 <= j < i ==>
      Paging.Next(reference, position, s[j].page) < Paging.Next(reference, position, s[i].page)
  {
    if n == 1 then 0
    else
      var best := Farthest(s, reference, position, n - 1);
      if Paging.Next(reference, position, s[n - 1].page) > Paging.Next(reference, position, s[best].page)
      then n - 1 else best
  }

  /** Every other entry is used sooner than Optimal's victim, or as late and loaded after it. */
  lemma OptimalBreaksTiesByAge(s: seq<Entry<nat>>, reference: seq<PageId>, position: nat, nextOrder: nat, j: nat)
    requires InResidencyOrder(s, nextOrder) && position <= |reference| && j < |s|
    ensures var best := s[Farthest(s, reference, position, |s|)];
      var (use, bestUse) := (Paging.Next(reference, position, s[j].page), Paging.Next(reference, position, best.page));
      s[j] == best || use < bestUse || (use == bestUse && best.tag < s[j].tag)
  {
  }

  /** The comparison of two optional next uses. */
  predicate UsedLater(candidate: Option<nat>, selected: Option<nat>) {
    selected.Some? && (candidate.None? || candidate.value > selected.value)
  }

  lemma FarthestGrows(s: seq<Entry<nat>>, reference: seq<PageId>, position: nat, n: nat)
    requires 1 <= n < |s| && position <= |reference|
    ensures var best := Farthest(s, reference, position, n);
      Farthest(s, reference, position, n + 1)
      == if UsedLater(NextUse(reference, position, s[n].page), NextUse(reference, position, s[best].page)) then n else best
  {
  }

  lemma FirstIsFarthest(s: seq<Entry<nat>>, reference: seq<PageId>, position: nat)
    requires s != [] && position <= |reference|
    ensures Farthest(s, reference, position, 1) == 0
  {
  }

  // ------------------------------------------- what every notification does to Tracked

  ghost predicate Mentioned(d: Discipline, p: PageId, f: FrameId) {
    exists x :: x in d.Tracked() && (x.page == p || x.frame == f)
  }

  lemma LoadedTracks(d: Discipline, p: PageId, f: FrameId)
    requires d.WellFormed()
    ensures d.Loaded(p, f).WellFormed()
    ensures d.Foreign? || d.Loaded(p, f).Tracked() == if Mentioned(d, p, f) then d.Tracked() else d.Tracked() + {Pair(p, f)}
  {
    match d
    case Fifo(s) => AppendTracks(s, Entry(p, f, ())); MentionsPairs(s, p, f);
    case Lru(s) => AppendTracks(s, Entry(p, f, ())); MentionsPairs(s, p, f);
    case Clock(s, _) => AppendTracks(s, Entry(p, f, true)); MentionsPairs(s, p, f);
    case Optimal(s, _, _, o) => AppendTracks(s, Entry(p, f, o)); MentionsPairs(s, p, f);
    case Foreign(_) =>
  }

  lemma AccessedTracks(d: Discipline, p: PageId, f: FrameId)
    requires d.WellFormed()
    ensures d.Accessed(p, f).WellFormed()
    ensures d.Accessed(p, f).Tracked() == d.Tracked()
  {
    match d
    case Fifo(_) =>
    case Lru(s) => MoveToBackTracks(s, p, f);
    case Clock(s, _) => TouchTracks(s, p, f);
    case Optimal(_, _, _, _) =>
    case Foreign(_) =>
  }

  lemma RemovedTracks(d: Discipline, p: PageId, f: FrameId)
    requires d.WellFormed()
    ensures d.Removed(p, f).WellFormed()
    ensures d.Removed(p, f).Tracked() == d.Tracked() - {Pair(p, f)}
  {
    hide Pairs, OneToOne, InResidencyOrder;
    match d
    case Fifo(s) => EraseTracks(s, p, f);
    case Lru(s) => EraseTracks(s, p, f);
    case Clock(s, _) => EraseTracks(s, p, f);
    case Optimal(s, _, _, o) => EraseTracks(s, p, f); EraseKeepsOrder(s, o, p, f);
    case Foreign(_) =>
  }

  /** A policy that tracks anything names a tracked frame, and still tracks the victim. */
  lemma VictimIsTracked(d: Discipline)
    requires d.WellFormed() && !d.Foreign?
    ensures var (d', v) := d.ChooseVictim();
            && d'.WellFormed() && d'.Tracked() == d.Tracked() && !d'.Foreign?
            && (v.None? <==> d.Tracked() == {})
            && (v.Some? ==> exists x :: x in d.Tracked() && x.frame == v.value)
  {
    match d
    case Fifo(s) => if s != [] { assert PairOf(s[0]) in Pairs(s); }
    case Lru(s) => if s != [] { assert PairOf(s[0]) in Pairs(s); }
    case Clock(s, h) => if s != [] { assert PairOf(s[0]) in Pairs(s); SweepTracks(s, h); }
    case Optimal(s, r, i, _) => if s != [] { assert PairOf(s[Farthest(s, r, i, |s|)]) in Pairs(s); }
  }

  lemma MoveToBackTracks<T>(s: seq<Entry<T>>, p: PageId, f: FrameId)
    requires OneToOne(s)
    ensures OneToOne(MoveToBack(s, p, f))
    ensures Pairs(MoveToBack(s, p, f)) == Pairs(s)
  {
    var i := Position(s, p, f);
    if i < |s| {
      RemoveAtTracks(s, i);
      AppendTracks(RemoveAt(s, i), s[i]);
      assert PairOf(s[i]) in Pairs(s);
    }
  }

  /** Two rings that differ in their reference bits only. */
  ghost predicate SameAssociations(a: seq<Entry<bool>>, b: seq<Entry<bool>>) {
    |a| == |b| && forall i :: 0 <= i < |a| ==> PairOf(a[i]) == PairOf(b[i])
  }

  lemma SameAssociationsTrack(a: seq<Entry<bool>>, b: seq<Entry<bool>>)
    requires SameAssociations(a, b)
    ensures Pairs(a) == Pairs(b)
    ensures OneToOne(a) ==> OneToOne(b)
  {
    forall i, j | OneToOne(a) && 0 <= i < j < |b|
      ensures b[i].page != b[j].page && b[i].frame != b[j].frame
    {
      assert PairOf(a[i]) == PairOf(b[i]) && PairOf(a[j]) == PairOf(b[j]);
    }
  }

  lemma TouchTracks(s: seq<Entry<bool>>, p: PageId, f: FrameId)
    requires OneToOne(s)
    ensures OneToOne(Touch(s, p, f)) && Pairs(Touch(s, p, f)) == Pairs(s) && |Touch(s, p, f)| == |s|
  {
    SameAssociationsTrack(s, Touch(s, p, f));
  }

  /** Number of entries with a set reference bit. */
  function SetBits(ring: seq<Entry<bool>>): nat {
    if ring == [] then 0 else SetBits(ring[..|ring| - 1]) + (if ring[|ring| - 1].tag then 1 else 0)
  }

  lemma {:induction false} SetBitsBound(ring: seq<Entry<bool>>, hand: nat)
    requires hand < |ring|
    ensures SetBits(ring) <= |ring|
    ensures ring[hand].tag ==> SetBits(Spare(ring, hand)) == SetBits(ring) - 1
    ensures ring[hand].tag ==> SetBits(ring) >= 1
    decreases |ring|
  {
    var n := |ring| - 1;
    var init := ring[..n];
    if n > 0 {
      SetBitsBound(init, if hand < n then hand else 0);
    }
    if hand < n {
      assert Spare(ring, hand)[..n] == Spare(init, hand);
    } else {
      assert Spare(ring, hand)[..n] == init;
    }
  }

  /** The traversal finds a victim as soon as its budget exceeds the number of set bits. */
  lemma {:induction false} SweepFinds(ring: seq<Entry<bool>>, hand: nat, budget: nat)
    requires hand < |ring| && SetBits(ring) < budget
    ensures var s := Sweep(ring, hand, budget);
            && SameAssociations(ring, s.ring) && s.hand < |ring| && s.victim.Some?
            && exists i :: 0 <= i < |ring| && ring[i].frame == s.victim.value
    decreases budget
  {
    SetBitsBound(ring, hand);
    if ring[hand].tag {
      SweepFinds(Spare(ring, hand), Advance(hand, |ring|), budget - 1);
    }
  }

  lemma SweepTracks(ring: seq<Entry<bool>>, hand: nat)
    requires hand < |ring| && OneToOne(ring)
    ensures var s := Sweep(ring, hand, 2 * |ring|);
            && OneToOne(s.ring) && Pairs(s.ring) == Pairs(ring) && |s.ring| == |ring|
            && s.hand < |ring| && s.victim.Some?
            && exists x :: x in Pairs(ring) && x.frame == s.victim.value
  {
    SetBitsBound(ring, hand);
    SweepFinds(ring, hand, 2 * |ring|);
    var s := Sweep(ring, hand, 2 * |ring|);
    SameAssociationsTrack(ring, s.ring);
    var i :| 0 <= i < |ring| && ring[i].frame == s.victim.value;
    assert PairOf(ring[i]) in Pairs(ring);
  }
}
