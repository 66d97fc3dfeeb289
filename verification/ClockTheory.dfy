/** What the Clock policy's traversal selects, what a removal does to the ring, and how
    long an entry nobody references can survive. */
module ClockTheory {
  import opened Core
  import opened Entries
  import opened PolicyModel

  type Ring = seq<Entry<bool>>

  // ------------------------------------------------------------------- selection

  /** The index `j` steps ahead of the hand, for up to one revolution. */
  function At(n: nat, hand: nat, j: nat): (i: nat)
    requires hand < n && j <= n
    ensures i < n
  {
    if hand + j < n then hand + j else hand + j - n
  }

  /** How many steps ahead of the hand index `i` lies. */
  function Distance(n: nat, hand: nat, i: nat): (d: nat)
    requires hand < n && i < n
    ensures d < n && At(n, hand, d) == i
  {
    if hand <= i then i - hand else n - hand + i
  }

  /** Steps from the hand to the first clear entry, counting from step `j`; one whole
      revolution when there is none. */
  function StepsToClear(ring: Ring, hand: nat, j: nat): (s: nat)
    requires hand < |ring| && j <= |ring|
    ensures j <= s <= |ring|
    ensures forall l :: j <= l < s ==> ring[At(|ring|, hand, l)].tag
    ensures s < |ring| ==> !ring[At(|ring|, hand, s)].tag
    decreases |ring| - j
  {
    if j == |ring| || !ring[At(|ring|, hand, j)].tag then j else StepsToClear(ring, hand, j + 1)
  }

  /** The ring with the bits of the first `s` entries from the hand cleared. */
  function SpareFirst(ring: Ring, hand: nat, s: nat): (r: Ring)
    requires hand < |ring| && s <= |ring|
    ensures |r| == |ring|
  {
    seq(|ring|, i requires 0 <= i < |ring| =>
      if Distance(|ring|, hand, i) < s then ring[i].(tag := false) else ring[i])
  }

  lemma SpareOneMore(ring: Ring, hand: nat, j: nat)
    requires hand < |ring| && j < StepsToClear(ring, hand, 0)
    ensures SpareFirst(ring, hand, j)[At(|ring|, hand, j)].tag
    ensures Spare(SpareFirst(ring, hand, j), At(|ring|, hand, j)) == SpareFirst(ring, hand, j + 1)
  {
    var at, before, after := At(|ring|, hand, j), SpareFirst(ring, hand, j), SpareFirst(ring, hand, j + 1);
    assert ring[at].tag && Distance(|ring|, hand, at) == j;
    forall i | 0 <= i < |ring|
      ensures Spare(before, at)[i] == after[i]
    {
      assert i != at ==> Distance(|ring|, hand, i) != j;
    }
  }

  lemma AdvanceAt(n: nat, hand: nat, j: nat)
    requires hand < n && j < n
    ensures Advance(At(n, hand, j), n) == At(n, hand, j + 1)
  {
  }

  lemma SweepStops(ring: Ring, hand: nat)
    requires hand < |ring|
    ensures var s := StepsToClear(ring, hand, 0);
      var (e, i) := (SpareFirst(ring, hand, s)[At(|ring|, hand, s)], At(|ring|, hand, s));
      !e.tag && e.frame == ring[i].frame
  {
    var s := StepsToClear(ring, hand, 0);
    assert s < |ring| ==> Distance(|ring|, hand, At(|ring|, hand, s)) == s;
  }

  lemma {:induction false} SweepFrom(ring: Ring, hand: nat, j: nat, s: nat, budget: nat)
    requires hand < |ring| && s == StepsToClear(ring, hand, 0) && j <= s && s - j < budget
    ensures Sweep(SpareFirst(ring, hand, j), At(|ring|, hand, j), budget)
         == SweepResult(SpareFirst(ring, hand, s), Advance(At(|ring|, hand, s), |ring|),
                        Some(ring[At(|ring|, hand, s)].frame))
    decreases s - j
  {
    hide SpareFirst, Spare, At, Advance, StepsToClear;
    if j == s {
      SweepStops(ring, hand);
    } else {
      SpareOneMore(ring, hand, j);
      AdvanceAt(|ring|, hand, j);
      SweepFrom(ring, hand, j + 1, s, budget - 1);
    }
  }

  /** Within one inspection more than a revolution the traversal returns the first clear
      entry in hand order, or the entry under the hand when none is clear; it clears exactly
      the bits it passed and leaves the hand behind the victim. */
  lemma SweepSelects(ring: Ring, hand: nat, budget: nat)
    requires hand < |ring| < budget
    ensures var s := StepsToClear(ring, hand, 0);
            Sweep(ring, hand, budget) == SweepResult(
              SpareFirst(ring, hand, s), Advance(At(|ring|, hand, s), |ring|), Some(ring[At(|ring|, hand, s)].frame))
  {
    assert SpareFirst(ring, hand, 0) == ring;
    SweepFrom(ring, hand, 0, StepsToClear(ring, hand, 0), budget);
  }

  // --------------------------------------------------------------------- removal

  /** The ring read from the hand onwards. */
  function FromHand(ring: Ring, hand: nat): Ring
    requires HandInRange(ring, hand)
  {
    ring[hand..] + ring[..hand]
  }

  /** Removing an entry deletes it from the ring as read from the hand; when it was the
      entry under the hand, the hand moves to its successor. */
  lemma RemovalKeepsHandOrder(ring: Ring, hand: nat, i: nat)
    requires hand < |ring| && i < |ring|
    ensures HandInRange(RemoveAt(ring, i), HandAfterErase(ring, hand, i))
    ensures FromHand(RemoveAt(ring, i), HandAfterErase(ring, hand, i))
         == RemoveAt(FromHand(ring, hand), Distance(|ring|, hand, i))
  {
    var before, after := FromHand(ring, hand), FromHand(RemoveAt(ring, i), HandAfterErase(ring, hand, i));
    var d := Distance(|ring|, hand, i);
    assert RemoveAt(before, d) == before[..d] + before[d + 1..];
  }

  // ------------------------------------------------------------ bounded eviction

  /** Index of the entry the next traversal selects. */
  function VictimIndex(ring: Ring, hand: nat): (v: nat)
    requires hand < |ring|
    ensures v < |ring|
  {
    At(|ring|, hand, StepsToClear(ring, hand, 0))
  }

  /** The ring after a replacement: victim out, the new page appended with its bit set. */
  function ReplacedRing(ring: Ring, hand: nat, p: PageId): (r: Ring)
    requires hand < |ring|
    ensures |r| == |ring|
  {
    var v := VictimIndex(ring, hand);
    RemoveAt(SpareFirst(ring, hand, StepsToClear(ring, hand, 0)), v) + [Entry(p, ring[v].frame, true)]
  }

  function ReplacedHand(ring: Ring, hand: nat): (h: nat)
    requires hand < |ring|
    ensures h < |ring|
  {
    var v := VictimIndex(ring, hand);
    if v == |ring| - 1 then 0 else v
  }

  /** The entries the hand meets before index `j`. */
  function Ahead(ring: Ring, hand: nat, j: nat): Ring
    requires hand < |ring| && j < |ring|
  {
    if hand <= j then ring[hand..j] else ring[hand..] + ring[..j]
  }

  function ClearBits(ring: Ring): nat {
    if ring == [] then 0 else (if ring[0].tag then 0 else 1) + ClearBits(ring[1..])
  }

  lemma {:induction false} ClearBitsSum(a: Ring, b: Ring)
    ensures ClearBits(a + b) == ClearBits(a) + ClearBits(b)
    ensures ClearBits(a) <= |a|
  {
    if a == [] {
      assert a + b == b;
    } else {
      assert (a + b)[1..] == a[1..] + b;
      ClearBitsSum(a[1..], b);
    }
  }

  /** Steps the hand still has to make before index `j`, plus the victims it can find on
      the way. */
  function Work(ring: Ring, hand: nat, j: nat): nat
    requires hand < |ring| && j < |ring|
  {
    |Ahead(ring, hand, j)| + ClearBits(Ahead(ring, hand, j))
  }

  /** Replacements entry `j` can still outlive, plus one. */
  function Reprieve(ring: Ring, hand: nat, j: nat): nat
    requires hand < |ring| && j < |ring|
  {
    Work(ring, hand, j) + 1 + (if ring[j].tag then 2 * |ring| - 1 else 0)
  }

  lemma ReprieveBound(ring: Ring, hand: nat, j: nat)
    requires hand < |ring| && j < |ring|
    ensures Work(ring, hand, j) <= 2 * |ring| - 2
    ensures 1 <= Reprieve(ring, hand, j) <= 4 * |ring| - 2
  {
    ClearBitsSum(Ahead(ring, hand, j), []);
  }

  /** Where an entry other than the victim is after a replacement. */
  function MovedTo(ring: Ring, hand: nat, j: nat): (j': nat)
    requires hand < |ring| && j < |ring| && j != VictimIndex(ring, hand)
    ensures j' < |ring|
  {
    if j < VictimIndex(ring, hand) then j else j - 1
  }

  /** The victim was ahead of `j`: what is ahead afterwards is what was behind the victim,
      with at most one entry, the new one, added. */
  lemma AheadAfterReplacement(ring: Ring, hand: nat, j: nat, p: PageId)
    returns (y1: Ring, joins: Ring, y2: Ring)
    requires hand < |ring| && j < |ring|
    requires StepsToClear(ring, hand, 0) < Distance(|ring|, hand, j)
    ensures j != VictimIndex(ring, hand)
    ensures Ahead(ring, hand, j)
         == Ahead(ring, hand, j)[..StepsToClear(ring, hand, 0)] + ([ring[VictimIndex(ring, hand)]] + (y1 + y2))
    ensures Ahead(ReplacedRing(ring, hand, p), ReplacedHand(ring, hand), MovedTo(ring, hand, j)) == y1 + (joins + y2)
    ensures joins == [] || joins == [Entry(p, ring[VictimIndex(ring, hand)].frame, true)]
  {
    hide ReplacedRing, ReplacedHand, MovedTo, StepsToClear;
    var n, s, v := |ring|, StepsToClear(ring, hand, 0), VictimIndex(ring, hand);
    var a := Ahead(ring, hand, j);
    AheadFrom(ring, hand, j, s);
    joins := [];
    if hand <= j || v < hand {
      y1, y2 := ring[v + 1..j], [];
      AheadDirect(ring, hand, j, p);
    } else if v < n - 1 {
      y1, joins, y2 := ring[v + 1..], [Entry(p, ring[v].frame, true)], ring[..j];
      AheadJoined(ring, hand, j, p);
    } else {
      y1, y2 := [], ring[..j];
      AheadLast(ring, hand, j, p);
    }
    assert a[s..] == [ring[v]] + (y1 + y2);
    assert a == a[..s] + a[s..];
  }

  /** The part of what is ahead that begins `s` steps from the hand. */
  lemma AheadFrom(ring: Ring, hand: nat, j: nat, s: nat)
    requires hand < |ring| && j < |ring| && s < Distance(|ring|, hand, j)
    ensures |Ahead(ring, hand, j)| == Distance(|ring|, hand, j)
    ensures var i := At(|ring|, hand, s);
      Ahead(ring, hand, j)[s..] == if hand <= j || i < hand then ring[i..j] else ring[i..] + ring[..j]
  {
  }

  lemma AheadDirect(ring: Ring, hand: nat, j: nat, p: PageId)
    requires hand < |ring| && j < |ring|
    requires StepsToClear(ring, hand, 0) < Distance(|ring|, hand, j)
    requires hand <= j || VictimIndex(ring, hand) < hand
    ensures VictimIndex(ring, hand) < j
    ensures Ahead(ReplacedRing(ring, hand, p), ReplacedHand(ring, hand), MovedTo(ring, hand, j))
         == ring[VictimIndex(ring, hand) + 1..j]
  {
    ReplacedSlice(ring, hand, p, VictimIndex(ring, hand) + 1, j);
  }

  lemma AheadJoined(ring: Ring, hand: nat, j: nat, p: PageId)
    requires j < hand < |ring| && hand <= VictimIndex(ring, hand) < |ring| - 1
    requires StepsToClear(ring, hand, 0) < Distance(|ring|, hand, j)
    ensures Ahead(ReplacedRing(ring, hand, p), ReplacedHand(ring, hand), MovedTo(ring, hand, j))
         == ring[VictimIndex(ring, hand) + 1..] + ([Entry(p, ring[VictimIndex(ring, hand)].frame, true)] + ring[..j])
  {
    hide ReplacedRing, StepsToClear, VictimIndex, Distance;
    var n, v, after := |ring|, VictimIndex(ring, hand), ReplacedRing(ring, hand, p);
    assert ReplacedHand(ring, hand) == v && MovedTo(ring, hand, j) == j;
    assert Ahead(after, v, j) == after[v..] + after[..j];
    ReplacedFront(ring, hand, p, j);
    ReplacedSlice(ring, hand, p, v + 1, n);
    ReplacedLast(ring, hand, p);
    Rejoin(ring, after, v, j, Entry(p, ring[v].frame, true));
  }

  lemma Rejoin(ring: Ring, after: Ring, v: nat, j: nat, e: Entry<bool>)
    requires |after| == |ring| && v + 1 < |ring| && j <= |ring|
    requires after[v..|ring| - 1] == ring[v + 1..|ring|] && after[|ring| - 1] == e
    requires after[..j] == ring[..j]
    ensures after[v..] + after[..j] == ring[v + 1..] + ([e] + ring[..j])
  {
    assert after[v..] == after[v..|ring| - 1] + [e];
  }

  lemma AheadLast(ring: Ring, hand: nat, j: nat, p: PageId)
    requires j < hand < |ring| && VictimIndex(ring, hand) == |ring| - 1
    requires StepsToClear(ring, hand, 0) < Distance(|ring|, hand, j)
    ensures Ahead(ReplacedRing(ring, hand, p), ReplacedHand(ring, hand), MovedTo(ring, hand, j)) == ring[..j]
  {
    ReplacedFront(ring, hand, p, j);
  }

  /** Entries behind the victim that the traversal did not reach move down by one. */
  lemma ReplacedSlice(ring: Ring, hand: nat, p: PageId, from: nat, to: nat)
    requires hand < |ring| && VictimIndex(ring, hand) < from <= to <= |ring|
    requires to <= hand || hand <= VictimIndex(ring, hand)
    requires StepsToClear(ring, hand, 0) < |ring|
    ensures ReplacedRing(ring, hand, p)[from - 1..to - 1] == ring[from..to]
  {
    var s, v := StepsToClear(ring, hand, 0), VictimIndex(ring, hand);
    var spared, after := SpareFirst(ring, hand, s), ReplacedRing(ring, hand, p);
    forall i | from <= i < to
      ensures after[i - 1] == ring[i]
    {
      assert after[i - 1] == spared[i];
      assert Distance(|ring|, hand, i) >= s;
    }
  }

  lemma ReplacedLast(ring: Ring, hand: nat, p: PageId)
    requires hand < |ring|
    ensures ReplacedRing(ring, hand, p)[|ring| - 1] == Entry(p, ring[VictimIndex(ring, hand)].frame, true)
  {
  }

  /** Entries at the front of the vector that the traversal did not reach stay. */
  lemma ReplacedFront(ring: Ring, hand: nat, p: PageId, to: nat)
    requires hand < |ring| && to <= hand <= VictimIndex(ring, hand)
    requires StepsToClear(ring, hand, 0) < |ring|
    ensures ReplacedRing(ring, hand, p)[..to] == ring[..to]
  {
    var s := StepsToClear(ring, hand, 0);
    var spared, after := SpareFirst(ring, hand, s), ReplacedRing(ring, hand, p);
    forall i | 0 <= i < to
      ensures after[i] == ring[i]
    {
      assert after[i] == spared[i];
      assert Distance(|ring|, hand, i) >= s;
    }
  }

  lemma WorkDecreases(ring: Ring, hand: nat, j: nat, p: PageId)
    requires hand < |ring| && j < |ring|
    requires StepsToClear(ring, hand, 0) < Distance(|ring|, hand, j)
    ensures j != VictimIndex(ring, hand)
    ensures Work(ReplacedRing(ring, hand, p), ReplacedHand(ring, hand), MovedTo(ring, hand, j)) < Work(ring, hand, j)
  {
    var y1, joins, y2 := AheadAfterReplacement(ring, hand, j, p);
    var s, v := StepsToClear(ring, hand, 0), VictimIndex(ring, hand);
    var passed := Ahead(ring, hand, j)[..s];
    ClearBitsSum(passed, [ring[v]] + (y1 + y2));
    ClearBitsSum([ring[v]], y1 + y2);
    ClearBitsSum(y1, y2);
    ClearBitsSum(y1, joins + y2);
    ClearBitsSum(joins, y2);
    assert !ring[v].tag;
  }

  /** A replacement either evicts the entry or shortens its reprieve. */
  lemma ReplacementShortensReprieve(ring: Ring, hand: nat, j: nat, p: PageId)
    requires hand < |ring| && j < |ring| && j != VictimIndex(ring, hand)
    ensures var (ring', j') := (ReplacedRing(ring, hand, p), MovedTo(ring, hand, j));
            && PairOf(ring'[j']) == PairOf(ring[j])
            && Reprieve(ring', ReplacedHand(ring, hand), j') < Reprieve(ring, hand, j)
  {
    var s, d, v := StepsToClear(ring, hand, 0), Distance(|ring|, hand, j), VictimIndex(ring, hand);
    var ring', j' := ReplacedRing(ring, hand, p), MovedTo(ring, hand, j);
    var spared := SpareFirst(ring, hand, s);
    assert ring'[j'] == spared[j];
    if s < d {
      WorkDecreases(ring, hand, j, p);
    } else {
      assert At(|ring|, hand, d) == j;
      ReprieveBound(ring', ReplacedHand(ring, hand), j');
    }
  }

  /** Referencing another entry never lengthens a reprieve. */
  lemma TouchKeepsReprieve(ring: Ring, hand: nat, j: nat, i: nat)
    requires hand < |ring| && j < |ring| && i < |ring| && i != j
    ensures Reprieve(ring[i := ring[i].(tag := true)], hand, j) <= Reprieve(ring, hand, j)
  {
    var touched := ring[i := ring[i].(tag := true)];
    var a, b := Ahead(ring, hand, j), Ahead(touched, hand, j);
    assert |a| == |b| && forall l :: 0 <= l < |a| ==> a[l].tag ==> b[l].tag;
    ClearBitsMonotone(a, b);
  }

  lemma {:induction false} ClearBitsMonotone(a: Ring, b: Ring)
    requires |a| == |b| && forall l :: 0 <= l < |a| && a[l].tag ==> b[l].tag
    ensures ClearBits(b) <= ClearBits(a)
  {
    if a != [] {
      ClearBitsMonotone(a[1..], b[1..]);
    }
  }
}
