/** The residency containers of the replacement policies: sequences of page/frame
    associations, each with whatever a policy keeps beside it (nothing for FIFO and LRU, the
    reference bit for Clock, the residency order for Optimal). */
module Entries {
  import opened Core

  datatype Entry<T> = Entry(page: PageId, frame: FrameId, tag: T)

  datatype Pair = Pair(page: PageId, frame: FrameId)

  function PairOf<T>(e: Entry<T>): Pair {
    Pair(e.page, e.frame)
  }

  /** No page is associated with two frames and no frame with two pages. */
  ghost predicate OneToOne<T>(s: seq<Entry<T>>) {
    forall i, j :: 0 <= i < j < |s| ==> s[i].page != s[j].page && s[i].frame != s[j].frame
  }

  ghost function Pairs<T>(s: seq<Entry<T>>): set<Pair> {
    set i | 0 <= i < |s| :: PairOf(s[i])
  }

  function PagesOf<T>(s: seq<Entry<T>>): (r: seq<PageId>)
    ensures |r| == |s|
  {
    seq(|s|, i requires 0 <= i < |s| => s[i].page)
  }

  /** Whether some entry holds the page or the frame. */
  predicate Mentions<T>(s: seq<Entry<T>>, p: PageId, f: FrameId) {
    exists i :: 0 <= i < |s| && (s[i].page == p || s[i].frame == f)
  }

  /** First entry that associates exactly `p` with `f`, or `|s|`. */
  function Position<T>(s: seq<Entry<T>>, p: PageId, f: FrameId): (i: nat)
    ensures i <= |s|
    ensures i < |s| ==> PairOf(s[i]) == Pair(p, f)
    ensures forall j :: 0 <= j < i ==> PairOf(s[j]) != Pair(p, f)
  {
    PositionFrom(s, p, f, 0)
  }

  function PositionFrom<T>(s: seq<Entry<T>>, p: PageId, f: FrameId, from: nat): (i: nat)
    requires from <= |s|
    ensures from <= i <= |s|
    ensures i < |s| ==> PairOf(s[i]) == Pair(p, f)
    ensures forall j :: from <= j < i ==> PairOf(s[j]) != Pair(p, f)
    decreases |s| - from
  {
    if from == |s| || PairOf(s[from]) == Pair(p, f) then from else PositionFrom(s, p, f, from + 1)
  }

  /** A load notification: ignored when the page or the frame is already tracked. */
  function Append<T>(s: seq<Entry<T>>, e: Entry<T>): seq<Entry<T>> {
    if Mentions(s, e.page, e.frame) then s else s + [e]
  }

  /** A removal notification: only the exact association is removed. */
  function Erase<T>(s: seq<Entry<T>>, p: PageId, f: FrameId): seq<Entry<T>> {
    var i := Position(s, p, f);
    if i == |s| then s else RemoveAt(s, i)
  }

  lemma MentionsPairs<T>(s: seq<Entry<T>>, p: PageId, f: FrameId)
    ensures Mentions(s, p, f) <==> exists x :: x in Pairs(s) && (x.page == p || x.frame == f)
  {
    if Mentions(s, p, f) {
      var i :| 0 <= i < |s| && (s[i].page == p || s[i].frame == f);
      assert PairOf(s[i]) in Pairs(s);
    }
  }

  lemma AppendTracks<T>(s: seq<Entry<T>>, e: Entry<T>)
    requires OneToOne(s)
    ensures OneToOne(Append(s, e))
    ensures Pairs(Append(s, e)) == if Mentions(s, e.page, e.frame) then Pairs(s) else Pairs(s) + {PairOf(e)}
  {
    PairsOfSnoc(s, e);
  }

  lemma PairsOfSnoc<T>(s: seq<Entry<T>>, e: Entry<T>)
    ensures Pairs(s + [e]) == Pairs(s) + {PairOf(e)}
  {
    PairsOfSum(s, [e]);
    assert PairOf([e][0]) in Pairs([e]);
  }

  lemma PairsOfSum<T>(s: seq<Entry<T>>, t: seq<Entry<T>>)
    ensures Pairs(s + t) == Pairs(s) + Pairs(t)
  {
    var u := s + t;
    forall x | x in Pairs(s) + Pairs(t)
      ensures x in Pairs(u)
    {
      if x in Pairs(s) {
        var i :| 0 <= i < |s| && PairOf(s[i]) == x;
        assert u[i] == s[i];
      } else {
        var i :| 0 <= i < |t| && PairOf(t[i]) == x;
        assert u[|s| + i] == t[i];
      }
    }
  }

  lemma RemoveAtTracks<T>(s: seq<Entry<T>>, i: nat)
    requires OneToOne(s) && i < |s|
    ensures OneToOne(RemoveAt(s, i))
    ensures Pairs(RemoveAt(s, i)) == Pairs(s) - {PairOf(s[i])}
    ensures !Mentions(RemoveAt(s, i), s[i].page, s[i].frame)
  {
    hide OneToOne, Mentions;
    assert s == s[..i] + ([s[i]] + s[i + 1..]);
    PairsOfSum(s[..i], [s[i]] + s[i + 1..]);
    PairsOfSum([s[i]], s[i + 1..]);
    PairsOfSum(s[..i], s[i + 1..]);
    RemoveAtForgets(s, i);
    MentionsPairs(RemoveAt(s, i), s[i].page, s[i].frame);
  }

  lemma RemoveAtForgets<T>(s: seq<Entry<T>>, i: nat)
    requires OneToOne(s) && i < |s|
    ensures OneToOne(RemoveAt(s, i)) && !Mentions(RemoveAt(s, i), s[i].page, s[i].frame)
  {
    var r := RemoveAt(s, i);
    assert forall j :: 0 <= j < |r| ==> r[j] == s[if j < i then j else j + 1];
  }

  lemma EraseTracks<T>(s: seq<Entry<T>>, p: PageId, f: FrameId)
    requires OneToOne(s)
    ensures OneToOne(Erase(s, p, f))
    ensures Pairs(Erase(s, p, f)) == Pairs(s) - {Pair(p, f)}
  {
    var i := Position(s, p, f);
    if i < |s| {
      RemoveAtTracks(s, i);
    } else {
      assert Pair(p, f) !in Pairs(s);
    }
  }

  lemma PairsFunctional<T>(s: seq<Entry<T>>, x: Pair, y: Pair)
    requires OneToOne(s) && x in Pairs(s) && y in Pairs(s)
    ensures x.page == y.page <==> x == y
    ensures x.frame == y.frame <==> x == y
  {
  }

  lemma PairsCardinality<T>(s: seq<Entry<T>>)
    requires OneToOne(s)
    ensures |Pairs(s)| == |s|
  {
    if s != [] {
      var n := |s| - 1;
      PairsCardinality(s[..n]);
      assert s == s[..n] + [s[n]];
      PairsOfSnoc(s[..n], s[n]);
      assert PairOf(s[n]) !in Pairs(s[..n]);
    }
  }
}
