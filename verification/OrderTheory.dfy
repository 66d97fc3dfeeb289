/** LRU and FIFO as orders on pages: what their lists contain after any trace, and the
    bounds that follow on their faults. */
module OrderTheory {
  import opened Core
  import opened Paging

  type Order = seq<PageId>

  // ------------------------------------------------------------------------- steps

  /** Least recently used first. */
  function LruStep(k: nat, L: Order, p: PageId): Order {
    var i := IndexOf(L, p);
    if i < |L| then RemoveAt(L, i) + [p]
    else if |L| < k || L == [] then L + [p]
    else L[1..] + [p]
  }

  /** Oldest load first. */
  function FifoStep(k: nat, Q: Order, p: PageId): Order {
    if p in Q then Q
    else if |Q| < k || Q == [] then Q + [p]
    else Q[1..] + [p]
  }

  function LruOrder(k: nat, t: Trace, n: nat): Order
    requires n <= |t|
  {
    if n == 0 then [] else LruStep(k, LruOrder(k, t, n - 1), t[n - 1])
  }

  function FifoOrder(k: nat, t: Trace, n: nat): Order
    requires n <= |t|
  {
    if n == 0 then [] else FifoStep(k, FifoOrder(k, t, n - 1), t[n - 1])
  }

  ghost predicate Bounded(k: nat, L: Order) {
    NoDup(L) && |L| <= k
  }

  lemma LruStepBounded(k: nat, L: Order, p: PageId)
    requires k >= 1 && Bounded(k, L)
    ensures Bounded(k, LruStep(k, L, p)) && p in LruStep(k, L, p)
  {
    var i := IndexOf(L, p);
    if i < |L| {
      RemoveAtElements(L, i);
    }
  }

  lemma {:induction false} LruBounded(k: nat, t: Trace, n: nat)
    requires k >= 1 && n <= |t|
    ensures Bounded(k, LruOrder(k, t, n))
  {
    if n > 0 {
      LruBounded(k, t, n - 1);
      LruStepBounded(k, LruOrder(k, t, n - 1), t[n - 1]);
    }
  }

  lemma {:induction false} FifoBounded(k: nat, t: Trace, n: nat)
    requires k >= 1 && n <= |t|
    ensures Bounded(k, FifoOrder(k, t, n))
  {
    if n > 0 {
      FifoBounded(k, t, n - 1);
    }
  }

  function LruResidency(k: nat, t: Trace): Residency {
    seq(|t| + 1, i requires 0 <= i <= |t| => Elements(LruOrder(k, t, i)))
  }

  function FifoResidency(k: nat, t: Trace): Residency {
    seq(|t| + 1, i requires 0 <= i <= |t| => Elements(FifoOrder(k, t, i)))
  }

  // ----------------------------------------------------------------- stack property

  /** `S` is, in order, the last `k` elements of `L`, or all of them when there are fewer. */
  ghost predicate LastOf(L: Order, k: nat, S: Order) {
    && (if |L| <= k then |S| == |L| else |S| == k)
    && forall j :: 0 <= j < |S| ==> S[j] == L[|L| - |S| + j]
  }

  /** All the pages referenced so far, by last use. */
  function Stack(t: Trace, n: nat): Order
    requires n <= |t|
  {
    if n == 0 then [] else Without(Stack(t, n - 1), t[n - 1]) + [t[n - 1]]
  }

  function Without(L: Order, p: PageId): Order {
    var i := IndexOf(L, p);
    if i < |L| then RemoveAt(L, i) else L
  }

  /** Taking one page out keeps the relative order of the others. */
  lemma WithoutKeepsOrder(L: Order, p: PageId)
    requires NoDup(L)
    ensures var rest := Without(L, p);
      && NoDup(rest) && p !in rest && Elements(rest) == Elements(L) - {p}
      && forall a, b :: 0 <= a < b < |rest| ==> Before(L, rest[a], rest[b])
  {
    var i := IndexOf(L, p);
    if i < |L| {
      RemoveAtElements(L, i);
    }
    var rest := Without(L, p);
    forall a, b | 0 <= a < b < |rest|
      ensures Before(L, rest[a], rest[b])
    {
      var a', b' := if a < i then a else a + 1, if b < i then b else b + 1;
      assert L[a'] == rest[a] && L[b'] == rest[b];
    }
  }

  ghost predicate Before(L: Order, x: PageId, y: PageId) {
    exists a, b :: 0 <= a < b < |L| && L[a] == x && L[b] == y
  }

  /** Position of the last reference to `p` before `n`, plus one; 0 when there is none. */
  function LastUse(t: Trace, n: nat, p: PageId): nat
    requires n <= |t|
  {
    if n == 0 then 0 else if t[n - 1] == p then n else LastUse(t, n - 1, p)
  }

  ghost predicate ByLastUse(L: Order, t: Trace, n: nat)
    requires n <= |t|
  {
    forall a, b :: 0 <= a < b < |L| ==> LastUse(t, n, L[a]) < LastUse(t, n, L[b])
  }

  lemma {:induction false} StackHoldsReferenced(t: Trace, n: nat)
    requires n <= |t|
    ensures NoDup(Stack(t, n)) && Elements(Stack(t, n)) == PagesIn(t, 0, n)
  {
    if n > 0 {
      hide NoDup, Elements, PagesIn, Without;
      StackHoldsReferenced(t, n - 1);
      WithoutKeepsOrder(Stack(t, n - 1), t[n - 1]);
      PagesInGrow(t, 0, n - 1);
      SnocElements(Without(Stack(t, n - 1), t[n - 1]), t[n - 1]);
    }
  }

  lemma ByLastUseStep(L: Order, t: Trace, n: nat)
    requires 0 < n <= |t| && NoDup(L) && ByLastUse(L, t, n - 1)
    ensures ByLastUse(Without(L, t[n - 1]) + [t[n - 1]], t, n)
  {
    var p := t[n - 1];
    var rest := Without(L, p);
    WithoutKeepsOrder(L, p);
    forall a, b | 0 <= a < b < |rest|
      ensures LastUse(t, n, rest[a]) < LastUse(t, n, rest[b])
    {
      assert Before(L, rest[a], rest[b]);
    }
    LastUseBound(t, n - 1);
  }

  /** The stack holds exactly the pages referenced, ordered by their last reference. */
  lemma {:induction false} StackIsByLastUse(t: Trace, n: nat)
    requires n <= |t|
    ensures NoDup(Stack(t, n)) && Elements(Stack(t, n)) == PagesIn(t, 0, n)
    ensures ByLastUse(Stack(t, n), t, n)
  {
    hide NoDup, Without;
    StackHoldsReferenced(t, n);
    if n > 0 {
      var L := Stack(t, n - 1);
      assert ByLastUse(L, t, n - 1) by { StackIsByLastUse(t, n - 1); }
      assert NoDup(L) by { StackHoldsReferenced(t, n - 1); }
      assert ByLastUse(Stack(t, n), t, n) by { ByLastUseStep(L, t, n); }
    }
  }

  lemma SnocElements(L: Order, p: PageId)
    ensures Elements(L + [p]) == Elements(L) + {p}
    ensures NoDup(L) && p !in L ==> NoDup(L + [p])
  {
  }

  lemma {:induction false} LastUseBound(t: Trace, n: nat)
    requires n <= |t|
    ensures forall p :: LastUse(t, n, p) <= n
  {
    if n > 0 {
      LastUseBound(t, n - 1);
    }
  }

  lemma LruStepOnStack(k: nat, L: Order, S: Order, p: PageId)
    requires k >= 1 && NoDup(L) && LastOf(L, k, S)
    ensures LastOf(Without(L, p) + [p], k, LruStep(k, S, p))
  {
    hide NoDup, LastOf, RemoveAt;
    SameIndex(L, k, S, p);
    var i, j := IndexOf(L, p), IndexOf(S, p);
    if j < |S| {
      LastOfMoved(L, k, S, j, p);
    } else if i < |L| {
      LastOfRemoved(L, k, S, i);
      LastOfSnoc(RemoveAt(L, i), k, S, p);
    } else {
      LastOfSnoc(L, k, S, p);
    }
  }

  lemma SameIndex(L: Order, k: nat, S: Order, p: PageId)
    requires NoDup(L) && LastOf(L, k, S)
    ensures |S| <= |L| && |S| <= k && (|S| < k ==> |S| == |L|)
    ensures IndexOf(S, p) < |S| <==> |L| - |S| <= IndexOf(L, p) < |L|
    ensures IndexOf(S, p) < |S| ==> IndexOf(L, p) == |L| - |S| + IndexOf(S, p)
  {
    var i, cut := IndexOf(L, p), |L| - |S|;
    if cut <= i < |L| {
      assert S[i - cut] == p;
    }
  }

  lemma LastOfRemoved(L: Order, k: nat, S: Order, i: nat)
    requires LastOf(L, k, S) && i < |L| - |S|
    ensures LastOf(RemoveAt(L, i), k, S)
  {
  }

  lemma LastOfMoved(L: Order, k: nat, S: Order, j: nat, p: PageId)
    requires LastOf(L, k, S) && j < |S|
    ensures LastOf(RemoveAt(L, |L| - |S| + j) + [p], k, RemoveAt(S, j) + [p])
  {
  }

  lemma LastOfSnoc(L: Order, k: nat, S: Order, p: PageId)
    requires k >= 1 && LastOf(L, k, S)
    ensures LastOf(L + [p], k, (if |S| < k then S else S[1..]) + [p])
  {
  }

  /** With `k` frames LRU holds, in order, the last `k` of the distinct pages by last use. */
  lemma {:induction false} LruHoldsMostRecent(k: nat, t: Trace, n: nat)
    requires k >= 1 && n <= |t|
    ensures LastOf(Stack(t, n), k, LruOrder(k, t, n))
  {
    hide Without, LruStep, NoDup;
    if n > 0 {
      var L, S := Stack(t, n - 1), LruOrder(k, t, n - 1);
      assert LastOf(L, k, S) by { LruHoldsMostRecent(k, t, n - 1); }
      assert NoDup(L) by { StackHoldsReferenced(t, n - 1); }
      assert LastOf(Stack(t, n), k, LruOrder(k, t, n)) by { LruStepOnStack(k, L, S, t[n - 1]); }
    }
  }

  /** Inclusion: more frames hold more. */
  lemma LruInclusion(k: nat, k': nat, t: Trace, n: nat)
    requires 1 <= k <= k' && n <= |t|
    ensures Elements(LruOrder(k, t, n)) <= Elements(LruOrder(k', t, n))
  {
    hide LastOf, LruOrder, Stack;
    LruHoldsMostRecent(k, t, n);
    LruHoldsMostRecent(k', t, n);
    LongerLastHoldsMore(Stack(t, n), k, k', LruOrder(k, t, n), LruOrder(k', t, n));
  }

  lemma LongerLastHoldsMore(L: Order, k: nat, k': nat, S: Order, S': Order)
    requires k <= k' && LastOf(L, k, S) && LastOf(L, k', S')
    ensures Elements(S) <= Elements(S')
  {
    assert forall i :: 0 <= i < |S| ==> S[i] == S'[|S'| - |S| + i];
  }

  lemma {:induction false} FewerFaults(t: Trace, S: Residency, R: Residency, i: nat)
    requires |S| == |R| == |t| + 1 && i <= |t|
    requires forall n :: 0 <= n <= |t| ==> S[n] <= R[n]
    ensures FaultsIn(t, R, i, |t|) <= FaultsIn(t, S, i, |t|)
    decreases |t| - i
  {
    if i < |t| {
      FewerFaults(t, S, R, i + 1);
    }
  }

  /** Adding frames never adds LRU faults. */
  lemma LruMonotone(k: nat, k': nat, t: Trace)
    requires 1 <= k <= k'
    ensures Faults(t, LruResidency(k', t)) <= Faults(t, LruResidency(k, t))
  {
    forall n | 0 <= n <= |t|
      ensures LruResidency(k, t)[n] <= LruResidency(k', t)[n]
    {
      LruInclusion(k, k', t, n);
    }
    FewerFaults(t, LruResidency(k, t), LruResidency(k', t), 0);
  }

  // ------------------------------------------------------------------- conservative

  /** `W` fills the most recent end of `L`. */
  ghost predicate Topped(L: Order, W: set<PageId>) {
    && W <= Elements(L)
    && forall a, b :: 0 <= a < b < |L| && L[a] in W ==> L[b] in W
  }

  lemma LruStepTops(k: nat, L: Order, p: PageId, W: set<PageId>)
    requires k >= 1 && Bounded(k, L) && Topped(L, W) && |W + {p}| <= k
    ensures Topped(LruStep(k, L, p), W + {p})
  {
    if p in L {
      MoveTops(L, p, W);
    } else if |L| < k {
      SnocTops(L, p, W);
    } else {
      FullTop(k, L, p, W);
      assert L == [L[0]] + L[1..];
      SnocTops(L[1..], p, W);
    }
  }

  lemma SnocTops(L: Order, p: PageId, W: set<PageId>)
    requires Topped(L, W) && p !in L
    ensures Topped(L + [p], W + {p})
  {
    SnocElements(L, p);
  }

  lemma MoveTops(L: Order, p: PageId, W: set<PageId>)
    requires NoDup(L) && Topped(L, W)
    ensures Topped(Without(L, p) + [p], W + {p})
  {
    var rest := Without(L, p);
    WithoutKeepsOrder(L, p);
    SnocElements(rest, p);
    forall a, b | 0 <= a < b < |rest| && rest[a] in W
      ensures rest[b] in W
    {
      assert Before(L, rest[a], rest[b]);
    }
  }

  /** A full list has an entry outside a small window. */
  lemma FullTop(k: nat, L: Order, p: PageId, W: set<PageId>)
    requires k >= 1 && NoDup(L) && |L| >= k && Topped(L, W) && |W + {p}| <= k && p !in L
    ensures L[0] !in W
  {
    if Elements(L) <= W {
      NoDupCardinality(L);
      SubsetCardinality(Elements(L) + {p}, W + {p});
    }
  }

  lemma {:induction false} LruWindowTopped(k: nat, t: Trace, i: nat, j: nat)
    requires k >= 1 && i <= j <= |t| && |PagesIn(t, i, j)| <= k
    ensures Topped(LruOrder(k, t, j), PagesIn(t, i, j))
    decreases j
  {
    if i == j {
      assert PagesIn(t, i, j) == {};
    } else {
      PagesInGrow(t, i, j - 1);
      SubsetCardinality(PagesIn(t, i, j - 1), PagesIn(t, i, j));
      LruWindowTopped(k, t, i, j - 1);
      LruBounded(k, t, j - 1);
      LruStepTops(k, LruOrder(k, t, j - 1), t[j - 1], PagesIn(t, i, j - 1));
    }
  }

  /** A page of a window of at most `k` distinct pages stays until the window ends, so each
      is loaded at most once in it. */
  lemma {:induction false} LruWindow(k: nat, t: Trace, i: nat, j: nat)
    requires k >= 1 && i <= j <= |t| && |PagesIn(t, i, j)| <= k
    ensures FaultsIn(t, LruResidency(k, t), i, j) <= |PagesIn(t, i, j)|
    decreases j
  {
    hide LruOrder, PagesIn;
    if i < j {
      var W := PagesIn(t, i, j - 1);
      PagesInGrow(t, i, j - 1);
      SubsetCardinality(W, PagesIn(t, i, j));
      LruWindow(k, t, i, j - 1);
      FaultsSplit(t, LruResidency(k, t), i, j - 1, j);
      assert W <= LruResidency(k, t)[j - 1] by { LruWindowTopped(k, t, i, j - 1); }
      if t[j - 1] !in W {
        assert |W + {t[j - 1]}| == |W| + 1;
      }
    }
  }

  lemma LruConservative(k: nat, t: Trace)
    requires k >= 1
    ensures Conservative(k, t, LruResidency(k, t))
  {
    forall i: nat, j: nat | i <= j <= |t|
      ensures ConservativeOn(k, t, LruResidency(k, t), i, j)
    {
      if |PagesIn(t, i, j)| <= k {
        LruWindow(k, t, i, j);
      }
    }
  }

  /** The newest `loads` entries are pages of `W`. */
  ghost predicate Newest(Q: Order, loads: nat, W: set<PageId>) {
    loads <= |Q| && forall j :: |Q| - loads <= j < |Q| ==> Q[j] in W
  }

  lemma NewestAreFew(Q: Order, p: PageId, loads: nat, W: set<PageId>)
    requires NoDup(Q) && Newest(Q, loads, W) && p !in Q
    ensures loads < |W + {p}|
  {
    var newest := Q[|Q| - loads..];
    assert NoDup(newest) && p !in newest;
    assert Elements(newest) <= W by {
      assert forall j :: 0 <= j < |newest| ==> newest[j] == Q[|Q| - loads + j];
    }
    NoDupCardinality(newest);
    SubsetCardinality(Elements(newest) + {p}, W + {p});
  }

  lemma FifoLoadIsNewest(k: nat, Q: Order, p: PageId, loads: nat, W: set<PageId>)
    requires k >= 1 && Bounded(k, Q) && Newest(Q, loads, W) && p !in Q && |W + {p}| <= k
    ensures Newest(FifoStep(k, Q, p), loads + 1, W + {p})
  {
    hide NoDup;
    NewestAreFew(Q, p, loads, W);
    if |Q| >= k {
      assert forall j :: 0 <= j < |Q| - 1 ==> Q[1..][j] == Q[j + 1];
    }
  }

  /** In a window of at most `k` distinct pages the newest entries of the queue are the
      pages loaded in it, each loaded once. */
  lemma {:induction false} FifoWindow(k: nat, t: Trace, i: nat, j: nat)
    requires k >= 1 && i <= j <= |t| && |PagesIn(t, i, j)| <= k
    ensures Newest(FifoOrder(k, t, j), FaultsIn(t, FifoResidency(k, t), i, j), PagesIn(t, i, j))
    decreases j
  {
    hide PagesIn, Newest, FifoStep;
    if i == j {
      NothingNewest(FifoOrder(k, t, j), PagesIn(t, i, j));
    } else {
      var S := FifoResidency(k, t);
      var Q, p, W := FifoOrder(k, t, j - 1), t[j - 1], PagesIn(t, i, j - 1);
      PagesInGrow(t, i, j - 1);
      SubsetCardinality(W, PagesIn(t, i, j));
      FifoWindow(k, t, i, j - 1);
      FifoBounded(k, t, j - 1);
      FaultsSplit(t, S, i, j - 1, j);
      assert S[j - 1] == Elements(Q);
      if p in Q {
        FifoHitIsNewest(k, Q, p, FaultsIn(t, S, i, j - 1), W);
      } else {
        FifoLoadIsNewest(k, Q, p, FaultsIn(t, S, i, j - 1), W);
      }
    }
  }

  lemma NothingNewest(Q: Order, W: set<PageId>)
    ensures Newest(Q, 0, W)
  {
  }

  lemma FifoHitIsNewest(k: nat, Q: Order, p: PageId, loads: nat, W: set<PageId>)
    requires Newest(Q, loads, W) && p in Q
    ensures Newest(FifoStep(k, Q, p), loads, W + {p})
  {
  }

  lemma FifoConservative(k: nat, t: Trace)
    requires k >= 1
    ensures Conservative(k, t, FifoResidency(k, t))
  {
    forall i: nat, j: nat | i <= j <= |t|
      ensures ConservativeOn(k, t, FifoResidency(k, t), i, j)
    {
      if |PagesIn(t, i, j)| <= k {
        FifoWindow(k, t, i, j);
        FifoBounded(k, t, j);
      }
    }
  }
}
