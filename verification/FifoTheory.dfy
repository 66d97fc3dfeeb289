/** When more frames can hurt FIFO: with `k` frames exchanged for `k'`, no trace faults more
    if `k' == k` or `k' >= 2k - 1`, and for every `k'` strictly between some trace does. */
module FifoTheory {
  import opened Core
  import opened Paging
  import opened OrderTheory

  // ----------------------------------------------------------------- loads and queue

  /** Everything loaded so far, in order. */
  function FifoLoads(k: nat, t: Trace, n: nat): Order
    requires n <= |t|
  {
    if n == 0 then [] else NextLoads(FifoLoads(k, t, n - 1), FifoOrder(k, t, n - 1), t[n - 1])
  }

  function NextLoads(L: Order, Q: Order, p: PageId): Order {
    if p in Q then L else L + [p]
  }

  /** The last `k` entries, or all of them when there are fewer. */
  function Recent(L: Order, k: nat): Order {
    L[(if |L| <= k then 0 else |L| - k)..]
  }

  lemma {:induction false} QueueIsRecent(k: nat, t: Trace, n: nat)
    requires k >= 1 && n <= |t|
    ensures FifoOrder(k, t, n) == Recent(FifoLoads(k, t, n), k)
  {
    hide FifoStep, Recent, NextLoads;
    if n == 0 {
      NothingRecent(k);
    } else {
      QueueIsRecent(k, t, n - 1);
      StepIsRecent(k, FifoLoads(k, t, n - 1), t[n - 1]);
    }
  }

  lemma NothingRecent(k: nat)
    ensures Recent([], k) == []
  {
  }

  lemma StepIsRecent(k: nat, L: Order, p: PageId)
    requires k >= 1
    ensures FifoStep(k, Recent(L, k), p) == Recent(NextLoads(L, Recent(L, k), p), k)
  {
  }

  lemma {:induction false} LoadsCountFaults(k: nat, t: Trace, n: nat)
    requires n <= |t|
    ensures |FifoLoads(k, t, n)| == FaultsIn(t, FifoResidency(k, t), 0, n)
  {
    hide FifoOrder;
    if n > 0 {
      var S := FifoResidency(k, t);
      LoadsCountFaults(k, t, n - 1);
      FaultsSplit(t, S, 0, n - 1, n);
      assert S[n - 1] == Elements(FifoOrder(k, t, n - 1));
      assert FaultsIn(t, S, n, n) == 0;
    }
  }

  // ------------------------------------------------------------------ the safe sizes

  /** What the smaller memory has held since entry `i` of its loads came in. */
  function Window(L: Order, k: nat, i: nat): Order
    requires i < |L|
  {
    L[(if i + 1 <= k then 0 else i + 1 - k)..]
  }

  /** The larger memory holds entry `i`, and everything newer in it passed through the
      smaller one meanwhile. */
  ghost predicate Covered(L: Order, k: nat, i: nat, Q: Order)
    requires i < |L|
  {
    exists j :: 0 <= j < |Q| && CoveredAt(L, k, i, Q, j)
  }

  ghost predicate CoveredAt(L: Order, k: nat, i: nat, Q: Order, j: nat)
    requires i < |L| && j < |Q|
  {
    Q[j] == L[i] && forall l :: j < l < |Q| ==> Q[l] in Window(L, k, i)
  }

  /** Every page of the smaller memory outside `credit` is covered in the larger one. A page
      earns its credit when only the smaller memory has to load it. */
  ghost predicate Tied(k: nat, L: Order, Q: Order, credit: set<PageId>) {
    && credit <= Elements(Recent(L, k))
    && forall i :: 0 <= i < |L| && |L| - k <= i && L[i] !in credit ==> Covered(L, k, i, Q)
  }

  lemma ElementsBound(s: Order)
    ensures |Elements(s)| <= |s|
  {
    if s != [] {
      var n := |s| - 1;
      ElementsBound(s[..n]);
      assert s == s[..n] + [s[n]];
      assert Elements(s) == Elements(s[..n]) + {s[n]};
    }
  }

  /** A full larger memory and the page it is about to load do not fit into the window. */
  lemma WindowTooSmall(k: nat, L: Order, i: nat, Q: Order, p: PageId)
    requires i < |L| <= i + k && NoDup(Q) && p !in Q && p in Window(L, k, i)
    requires Q != [] && CoveredAt(L, k, i, Q, 0)
    ensures |Q| <= 2 * k - 2
  {
    var window := Window(L, k, i);
    assert Q[0] in window by {
      assert window[if i + 1 <= k then i else k - 1] == L[i];
    }
    assert NoDup(Q + [p]);
    NoDupCardinality(Q + [p]);
    ElementsBound(window);
    SubsetCardinality(Elements(Q + [p]), Elements(window));
  }

  lemma WindowGrows(k: nat, L: Order, i: nat, p: PageId)
    requires i < |L|
    ensures Window(L + [p], k, i) == Window(L, k, i) + [p]
  {
  }

  lemma RecentInWindow(k: nat, L: Order, i: nat, p: PageId)
    requires i < |L| && p in Recent(L, k)
    ensures p in Window(L, k, i)
  {
    var recent, window := Recent(L, k), Window(L, k, i);
    var j :| 0 <= j < |recent| && recent[j] == p;
    assert window[|window| - |recent| + j] == p;
  }

  lemma StaysCovered(k: nat, k': nat, L: Order, L': Order, i: nat, Q: Order, p: PageId)
    requires 1 <= k && 2 * k - 1 <= k' && Bounded(k', Q)
    requires L' == L || L' == L + [p]
    requires i < |L| && |L'| <= i + k && p in Recent(L', k) && Covered(L, k, i, Q)
    ensures Covered(L', k, i, FifoStep(k', Q, p))
  {
    var j :| 0 <= j < |Q| && CoveredAt(L, k, i, Q, j);
    WindowGrows(k, L, i, p);
    assert CoveredAt(L', k, i, Q, j);
    RecentInWindow(k, L', i, p);
    if p !in Q {
      if |Q| < k' {
        assert CoveredAt(L', k, i, Q + [p], j);
      } else {
        if j == 0 {
          WindowTooSmall(k, L', i, Q, p);
        }
        assert CoveredAt(L', k, i, Q[1..] + [p], j - 1);
      }
    }
  }

  /** One reference. The larger memory alone can only fault on a page with credit, and
      spends it. */
  lemma TiedStep(k: nat, k': nat, L: Order, Q: Order, credit: set<PageId>, p: PageId) returns (credit': set<PageId>)
    requires 1 <= k && 2 * k - 1 <= k' && Bounded(k', Q) && Tied(k, L, Q, credit)
    ensures Tied(k, NextLoads(L, Recent(L, k), p), FifoStep(k', Q, p), credit')
    ensures |credit'| + (if p in Q then 0 else 1) <= |credit| + (if p in Recent(L, k) then 0 else 1)
  {
    var L', Q' := NextLoads(L, Recent(L, k), p), FifoStep(k', Q, p);
    var recent' := Elements(Recent(L', k));
    credit' := if p in Q then (if p in Recent(L, k) then credit else credit * recent' + {p})
               else credit * recent' - {p};
    CreditCount(credit, credit * recent', p);
    LatestLoad(k, L, p);
    forall i | 0 <= i < |L'| && |L'| - k <= i && L'[i] !in credit'
      ensures Covered(L', k, i, Q')
    {
      if L'[i] == p {
        CoverReferenced(k, k', L, i, Q, p, credit, credit');
      } else {
        assert L'[i] == L[i];
        RecentHas(k, L', i);
        StaysCovered(k, k', L, L', i, Q, p);
      }
    }
  }

  lemma CreditCount(credit: set<PageId>, kept: set<PageId>, p: PageId)
    requires kept <= credit
    ensures |kept + {p}| <= |credit| + 1
    ensures |kept - {p}| <= |credit|
    ensures p in credit ==> |kept - {p}| <= |credit| - 1
  {
    SubsetCardinality(kept, credit);
    SubsetCardinality(kept - {p}, credit - {p});
  }

  lemma RecentHas(k: nat, L: Order, i: nat)
    requires i < |L| <= i + k
    ensures L[i] in Recent(L, k)
  {
    var recent := Recent(L, k);
    assert recent[i - (|L| - |recent|)] == L[i];
  }

  lemma LatestLoad(k: nat, L: Order, p: PageId)
    requires k >= 1
    ensures p in Recent(NextLoads(L, Recent(L, k), p), k)
  {
    if p !in Recent(L, k) {
      RecentHas(k, L + [p], |L|);
    }
  }

  lemma CoverReferenced(
    k: nat, k': nat, L: Order, i: nat, Q: Order, p: PageId, credit: set<PageId>, credit': set<PageId>)
    requires 1 <= k && 2 * k - 1 <= k' && Bounded(k', Q) && Tied(k, L, Q, credit)
    requires var L' := NextLoads(L, Recent(L, k), p); i < |L'| <= i + k && L'[i] == p
    requires p in Q ==> p in Recent(L, k) && credit' == credit && p !in credit'
    ensures Covered(NextLoads(L, Recent(L, k), p), k, i, FifoStep(k', Q, p))
  {
    var L', Q' := NextLoads(L, Recent(L, k), p), FifoStep(k', Q, p);
    if p !in Q {
      assert CoveredAt(L', k, i, Q', |Q'| - 1);
    }
  }

  lemma {:induction false} CreditCovers(k: nat, k': nat, t: Trace, n: nat) returns (credit: set<PageId>)
    requires 1 <= k && 2 * k - 1 <= k' && n <= |t|
    ensures Tied(k, FifoLoads(k, t, n), FifoOrder(k', t, n), credit)
    ensures |FifoLoads(k', t, n)| + |credit| <= |FifoLoads(k, t, n)|
  {
    hide Tied, FifoStep, Recent, Bounded;
    if n == 0 {
      NothingTied(k);
      credit := {};
    } else {
      var before := CreditCovers(k, k', t, n - 1);
      FifoBounded(k', t, n - 1);
      QueueIsRecent(k, t, n - 1);
      credit := TiedStep(k, k', FifoLoads(k, t, n - 1), FifoOrder(k', t, n - 1), before, t[n - 1]);
    }
  }

  lemma NothingTied(k: nat)
    ensures Tied(k, [], [], {})
  {
  }

  /** At least twice the frames less one never fault more. */
  lemma FifoMonotoneWhen(k: nat, k': nat, t: Trace)
    requires 1 <= k && (k' == k || 2 * k - 1 <= k')
    ensures Faults(t, FifoResidency(k', t)) <= Faults(t, FifoResidency(k, t))
  {
    if k' != k {
      var credit := CreditCovers(k, k', t, |t|);
      LoadsCountFaults(k, t, |t|);
      LoadsCountFaults(k', t, |t|);
    }
  }

  // --------------------------------------------------------------------- the anomaly

  /** Pages 0 to k'-1, 0 to k-2, k', and once more 0 to k'. */
  function Anomaly(k: nat, k': nat): (t: Trace)
    requires 1 <= k
    ensures |t| == 2 * k' + k + 1
  {
    seq(2 * k' + k + 1, i requires 0 <= i < 2 * k' + k + 1 => AnomalyPage(k, k', i))
  }

  function AnomalyPage(k: nat, k': nat, i: nat): PageId
    requires 1 <= k
  {
    if i < k' then i else if i < k' + k - 1 then i - k' else if i == k' + k - 1 then k' else i - (k' + k)
  }

  /** The loads of `M` follow the trace when `counts[i]` of them come before reference `i`. */
  ghost predicate Follows(k: nat, t: Trace, M: Order, counts: seq<nat>) {
    && |counts| == |t| + 1 && counts[0] == 0
    && forall i :: 0 <= i < |t| ==> FollowsAt(k, t, M, counts, i)
  }

  ghost predicate FollowsAt(k: nat, t: Trace, M: Order, counts: seq<nat>, i: nat)
    requires i < |t| && |counts| == |t| + 1
  {
    && counts[i] <= |M|
    && if t[i] in Recent(M[..counts[i]], k) then counts[i + 1] == counts[i]
       else counts[i] < |M| && counts[i + 1] == counts[i] + 1 && M[counts[i]] == t[i]
  }

  lemma {:induction false} LoadsFollow(k: nat, t: Trace, M: Order, counts: seq<nat>, n: nat)
    requires 1 <= k && Follows(k, t, M, counts) && n <= |t|
    ensures counts[n] <= |M| && FifoLoads(k, t, n) == M[..counts[n]]
  {
    if n > 0 {
      LoadsFollow(k, t, M, counts, n - 1);
      QueueIsRecent(k, t, n - 1);
      assert FollowsAt(k, t, M, counts, n - 1);
    }
  }

  lemma FollowedFaults(k: nat, t: Trace, M: Order, counts: seq<nat>)
    requires 1 <= k && Follows(k, t, M, counts)
    ensures Faults(t, FifoResidency(k, t)) == counts[|t|]
  {
    LoadsFollow(k, t, M, counts, |t|);
    LoadsCountFaults(k, t, |t|);
  }

  /** Membership among the last entries of a prefix, by index. */
  lemma InRecent(M: Order, c: nat, k: nat, p: PageId)
    requires c <= |M|
    ensures p in Recent(M[..c], k) <==> exists x :: 0 <= x < c && c - k <= x && M[x] == p
  {
    var recent := Recent(M[..c], k);
    var from := c - |recent|;
    assert forall j :: 0 <= j < |recent| ==> recent[j] == M[from + j];
    if x :| 0 <= x < c && c - k <= x && M[x] == p {
      assert recent[x - from] == p;
    }
  }

  // With k' frames: pages 0 to k', twice.

  function ManyLoads(k': nat): (M: Order)
    ensures |M| == 2 * k' + 2
  {
    seq(2 * k' + 2, x requires 0 <= x < 2 * k' + 2 => if x <= k' then x else x - (k' + 1))
  }

  function ManyCount(k: nat, k': nat, i: nat): nat
    requires 1 <= k
  {
    if i <= k' then i else if i < k' + k then k' else i - (k - 1)
  }

  lemma ManyFollow(k: nat, k': nat)
    requires 1 <= k < k'
    ensures Faults(Anomaly(k, k'), FifoResidency(k', Anomaly(k, k'))) == 2 * k' + 2
  {
    var t, M := Anomaly(k, k'), ManyLoads(k');
    var counts := seq(|t| + 1, i requires 0 <= i <= |t| => ManyCount(k, k', i));
    forall i | 0 <= i < |t|
      ensures FollowsAt(k', t, M, counts, i)
    {
      InRecent(M, counts[i], k', t[i]);
      if k' <= i < k' + k - 1 {
        assert M[i - k'] == t[i];
      }
    }
    FollowedFaults(k', t, M, counts);
  }

  // With k frames: every page once, 0 to k-2 again early, and k' kept for its last reference.

  function FewLoads(k: nat, k': nat): (M: Order)
    requires 1 <= k
    ensures |M| == 2 * k' + 1
  {
    seq(2 * k' + 1, x requires 0 <= x < 2 * k' + 1 => FewLoad(k, k', x))
  }

  function FewLoad(k: nat, k': nat, x: nat): PageId
    requires 1 <= k
  {
    if x < k' then x else if x < k' + k - 1 then x - k' else if x == k' + k - 1 then k' else x - (k' + 1)
  }

  function FewCount(k: nat, k': nat, i: nat): nat
    requires 1 <= k
  {
    if i <= k' + k then i else if i <= k' + 2 * k - 1 then k' + k else if i <= 2 * k' + k then i - (k - 1) else 2 * k' + 1
  }

  lemma FewFollow(k: nat, k': nat)
    requires 1 <= k < k' < 2 * k - 1
    ensures Faults(Anomaly(k, k'), FifoResidency(k, Anomaly(k, k'))) == 2 * k' + 1
  {
    var t, M := Anomaly(k, k'), FewLoads(k, k');
    var counts := seq(|t| + 1, i requires 0 <= i <= |t| => FewCount(k, k', i));
    forall i | 0 <= i < |t|
      ensures FollowsAt(k, t, M, counts, i)
    {
      InRecent(M, counts[i], k, t[i]);
      if k' + k <= i < k' + 2 * k - 1 {
        assert M[k' + (i - (k' + k))] == t[i];
      } else if i == 2 * k' + k {
        assert M[k' + k - 1] == t[i];
      }
    }
    FollowedFaults(k, t, M, counts);
  }

  /** Exactly when more frames never hurt FIFO, whatever the trace. */
  lemma FifoMonotoneIff(k: nat, k': nat)
    requires 1 <= k <= k'
    ensures (forall t :: Faults(t, FifoResidency(k', t)) <= Faults(t, FifoResidency(k, t)))
       <==> k' == k || 2 * k - 1 <= k'
  {
    if k' == k || 2 * k - 1 <= k' {
      forall t
        ensures Faults(t, FifoResidency(k', t)) <= Faults(t, FifoResidency(k, t))
      {
        FifoMonotoneWhen(k, k', t);
      }
    } else {
      ManyFollow(k, k');
      FewFollow(k, k');
    }
  }
}
