/** The theory of demand paging over a trace of page references: what a paging schedule
    is, when a page is used next, and the two classical bounds on fault counts. The
    reference is independent of the simulator: a schedule is any sequence of resident
    sets that a demand pager with `k` frames could go through. */
module Paging {
  import opened Core

  type Trace = seq<PageId>
  type Residency = seq<set<PageId>>

  /** `S[i]` is the resident set before reference `i`. A demand pager holds the page it has
      just referenced, brings in no other page, never exceeds its frames, and may drop
      any pages at any reference. */
  ghost predicate Schedule(k: nat, t: Trace, S: Residency) {
    && |S| == |t| + 1
    && S[0] == {}
    && forall i :: 0 <= i < |t| ==> DemandStep(k, t[i], S[i], S[i + 1])
  }

  ghost predicate DemandStep(k: nat, p: PageId, X: set<PageId>, Y: set<PageId>) {
    p in Y && Y <= X + {p} && |Y| <= k
  }

  /** Page faults of `S` on references `i` up to but not including `j`. */
  function FaultsIn(t: Trace, S: Residency, i: nat, j: nat): nat
    requires i <= j <= |t| <= |S|
    decreases j - i
  {
    if i == j then 0 else (if t[i] in S[i] then 0 else 1) + FaultsIn(t, S, i + 1, j)
  }

  function Faults(t: Trace, S: Residency): nat
    requires |t| <= |S|
  {
    FaultsIn(t, S, 0, |t|)
  }

  lemma {:induction false} FaultsSplit(t: Trace, S: Residency, i: nat, j: nat, l: nat)
    requires i <= j <= l <= |t| <= |S|
    ensures FaultsIn(t, S, i, l) == FaultsIn(t, S, i, j) + FaultsIn(t, S, j, l)
    decreases j - i
  {
    if i < j {
      FaultsSplit(t, S, i + 1, j, l);
    }
  }

  // ---------------------------------------------------------------- Belady's theorem

  /** Position of the next reference to `p` at or after `i`; `|t|` when there is none. */
  function Next(t: Trace, i: nat, p: PageId): (n: nat)
    requires i <= |t|
    ensures i <= n <= |t|
    ensures n < |t| ==> t[n] == p
    ensures forall j :: i <= j < n ==> t[j] != p
    decreases |t| - i
  {
    if i == |t| || t[i] == p then i else Next(t, i + 1, p)
  }

  /** A schedule that loads into a free frame while there is one and otherwise drops a page
      whose next use is farthest away. */
  ghost predicate FarthestFirst(k: nat, t: Trace, S: Residency) {
    && |S| == |t| + 1
    && S[0] == {}
    && forall i :: 0 <= i < |t| ==> FarthestStep(k, t, i, S[i], S[i + 1])
  }

  ghost predicate FarthestStep(k: nat, t: Trace, i: nat, X: set<PageId>, Y: set<PageId>)
    requires i < |t|
  {
    if t[i] in X then Y == X
    else if |X| < k then Y == X + {t[i]}
    else
      |X| == k && exists v ::
        v in X && Y == X - {v} + {t[i]} && forall x :: x in X ==> Next(t, i, x) <= Next(t, i, v)
  }

  /** The pages of `X` used again no later than position `d`. */
  ghost function Soon(t: Trace, i: nat, X: set<PageId>, d: nat): set<PageId>
    requires i <= |t|
  {
    set x | x in X && Next(t, i, x) <= d
  }

  /** `R` is ahead of `S` by at most `lead` pages, whatever the horizon. */
  ghost predicate AheadBy(t: Trace, i: nat, S: set<PageId>, R: set<PageId>, lead: nat)
    requires i <= |t|
  {
    forall d: nat :: AheadAt(t, i, S, R, lead, d)
  }

  ghost predicate AheadAt(t: Trace, i: nat, S: set<PageId>, R: set<PageId>, lead: nat, d: nat)
    requires i <= |t|
  {
    |Soon(t, i, R, d)| <= |Soon(t, i, S, d)| + lead
  }

  /** Passing reference `i` moves only the referenced page to another horizon. */
  lemma SoonAfterReference(t: Trace, i: nat, X: set<PageId>, d: nat)
    requires i < |t| && t[i] in X
    ensures |Soon(t, i + 1, X, d)|
         == |Soon(t, i, X - {t[i]}, d)| + (if Next(t, i + 1, t[i]) <= d then 1 else 0)
  {
    var p := t[i];
    var rest := Soon(t, i, X - {p}, d);
    forall x | x in X && x != p
      ensures Next(t, i + 1, x) == Next(t, i, x)
    {
    }
    if Next(t, i + 1, p) <= d {
      assert Soon(t, i + 1, X, d) == rest + {p};
    } else {
      assert Soon(t, i + 1, X, d) == rest;
    }
  }

  lemma SoonWithoutReferenced(t: Trace, i: nat, X: set<PageId>, d: nat)
    requires i < |t|
    ensures d >= i ==> |Soon(t, i, X - {t[i]}, d)| == |Soon(t, i, X, d)| - (if t[i] in X then 1 else 0)
    ensures d < i ==> Soon(t, i, X - {t[i]}, d) == {}
  {
    var p := t[i];
    if d >= i {
      if p in X {
        assert Soon(t, i, X, d) == Soon(t, i, X - {p}, d) + {p};
      } else {
        assert X - {p} == X;
      }
    }
  }

  lemma SoonMonotone(t: Trace, i: nat, X: set<PageId>, Y: set<PageId>, d: nat)
    requires i <= |t| && X <= Y
    ensures |Soon(t, i, X, d)| <= |Soon(t, i, Y, d)|
  {
    SubsetCardinality(Soon(t, i, X, d), Soon(t, i, Y, d));
  }

  /** The page dropped by a farthest-first step costs nothing below its own next use, and
      above it the remaining pages are all counted. */
  lemma SoonAfterDrop(t: Trace, i: nat, X: set<PageId>, v: PageId, d: nat)
    requires i <= |t| && v in X
    requires forall x :: x in X ==> Next(t, i, x) <= Next(t, i, v)
    ensures d < Next(t, i, v) ==> Soon(t, i, X - {v}, d) == Soon(t, i, X, d)
    ensures d >= Next(t, i, v) ==> Soon(t, i, X - {v}, d) == X - {v}
  {
  }

  /** One reference: how far the lead of an arbitrary schedule can change. */
  lemma LeadAfterReference(
    k: nat, t: Trace, i: nat, X: set<PageId>, X': set<PageId>, Y: set<PageId>, Y': set<PageId>, lead: nat)
    returns (lead': nat)
    requires i < |t|
    requires FarthestStep(k, t, i, X, X')
    requires DemandStep(k, t[i], Y, Y')
    requires AheadBy(t, i, X, Y, lead)
    ensures AheadBy(t, i + 1, X', Y', lead')
    ensures (if t[i] in X then 0 else 1) + lead' <= (if t[i] in Y then 0 else 1) + lead
  {
    hide FarthestStep, DemandStep, AheadAt;
    var p := t[i];
    if p !in X && p in Y {
      assert AheadAt(t, i, X, Y, lead, i);
      LeadIsPositive(t, i, X, Y, lead);
    }
    lead' := if p in X then (if p in Y then lead else lead + 1)
             else if p in Y then lead - 1 else lead;
    var i' := i + 1;
    forall d: nat
      ensures AheadAt(t, i', X', Y', lead', d)
    {
      LeadAtHorizon(k, t, i, X, X', Y, Y', lead, lead', d);
    }
  }

  lemma LeadIsPositive(t: Trace, i: nat, X: set<PageId>, Y: set<PageId>, lead: nat)
    requires i < |t| && t[i] !in X && t[i] in Y && AheadAt(t, i, X, Y, lead, i)
    ensures lead >= 1
  {
    assert Soon(t, i, X, i) == {} by {
      assert forall x :: x in X && Next(t, i, x) <= i ==> t[i] == x;
    }
    assert t[i] in Soon(t, i, Y, i);
  }

  lemma LeadAtHorizon(
    k: nat, t: Trace, i: nat, X: set<PageId>, X': set<PageId>, Y: set<PageId>, Y': set<PageId>,
    lead: nat, lead': nat, d: nat)
    requires i < |t|
    requires FarthestStep(k, t, i, X, X') && DemandStep(k, t[i], Y, Y')
    requires AheadAt(t, i, X, Y, lead, d)
    requires (if t[i] in X then 0 else 1) + lead' == (if t[i] in Y then 0 else 1) + lead
    ensures AheadAt(t, i + 1, X', Y', lead', d)
  {
    var p := t[i];
    SoonAfterReference(t, i, X', d);
    SoonAfterReference(t, i, Y', d);
    SoonMonotone(t, i, Y' - {p}, Y - {p}, d);
    SoonWithoutReferenced(t, i, X, d);
    SoonWithoutReferenced(t, i, Y, d);
    OthersAfterStep(k, t, i, X, X', d);
    SubsetCardinality(Soon(t, i, Y' - {p}, d), Y' - {p});
  }

  /** A farthest-first step keeps all the others soon used, or all the frames but one. */
  lemma OthersAfterStep(k: nat, t: Trace, i: nat, X: set<PageId>, X': set<PageId>, d: nat)
    requires i < |t| && FarthestStep(k, t, i, X, X')
    ensures var others := |Soon(t, i, X' - {t[i]}, d)|;
            others == |Soon(t, i, X - {t[i]}, d)| || (t[i] !in X && others == k - 1)
  {
    var p := t[i];
    if p !in X && |X| >= k {
      var v :| v in X && X' == X - {v} + {p} && forall x :: x in X ==> Next(t, i, x) <= Next(t, i, v);
      assert X' - {p} == X - {v};
      assert X - {p} == X;
      SoonAfterDrop(t, i, X, v, d);
    } else {
      assert X' - {p} == X - {p};
    }
  }

  lemma {:induction false} BeladyFrom(k: nat, t: Trace, S: Residency, R: Residency, i: nat, lead: nat)
    requires FarthestFirst(k, t, S) && Schedule(k, t, R) && i <= |t|
    requires AheadBy(t, i, S[i], R[i], lead)
    ensures FaultsIn(t, S, i, |t|) <= FaultsIn(t, R, i, |t|) + lead
    decreases |t| - i
  {
    if i < |t| {
      var lead' := LeadAfterReference(k, t, i, S[i], S[i + 1], R[i], R[i + 1], lead);
      BeladyFrom(k, t, S, R, i + 1, lead');
    }
  }

  /** Belady: farthest-first faults no more than any demand-paging schedule with `k` frames. */
  lemma BeladyOptimality(k: nat, t: Trace, S: Residency, R: Residency)
    requires FarthestFirst(k, t, S) && Schedule(k, t, R)
    ensures Faults(t, S) <= Faults(t, R)
  {
    BeladyFrom(k, t, S, R, 0, 0);
  }

  // ------------------------------------------------------------- competitive analysis

  ghost function PagesIn(t: Trace, i: nat, j: nat): set<PageId>
    requires i <= j <= |t|
  {
    Elements(t[i..j])
  }

  /** At most `k` faults in every window that touches at most `k` distinct pages. */
  ghost predicate Conservative(k: nat, t: Trace, S: Residency)
    requires |t| <= |S|
  {
    forall i: nat, j: nat :: i <= j <= |t| ==> ConservativeOn(k, t, S, i, j)
  }

  ghost predicate ConservativeOn(k: nat, t: Trace, S: Residency, i: nat, j: nat)
    requires i <= j <= |t| <= |S|
  {
    |PagesIn(t, i, j)| <= k ==> FaultsIn(t, S, i, j) <= k
  }

  lemma PagesInStep(t: Trace, i: nat, j: nat)
    requires i < j <= |t|
    ensures PagesIn(t, i, j) == {t[i]} + PagesIn(t, i + 1, j)
  {
    assert t[i..j] == [t[i]] + t[i + 1..j];
  }

  lemma PagesInGrow(t: Trace, i: nat, j: nat)
    requires i <= j < |t|
    ensures PagesIn(t, i, j + 1) == PagesIn(t, i, j) + {t[j]}
    ensures |PagesIn(t, i, j + 1)| <= |PagesIn(t, i, j)| + 1
  {
    assert t[i..j + 1] == t[i..j] + [t[j]];
  }

  /** Every page of a window that was not resident at its start costs the schedule a fault. */
  lemma {:induction false} WindowForcesFaults(h: nat, t: Trace, R: Residency, i: nat, j: nat)
    requires Schedule(h, t, R) && i <= j <= |t|
    ensures |PagesIn(t, i, j) - R[i]| <= FaultsIn(t, R, i, j)
    decreases j - i
  {
    if i < j {
      PagesInStep(t, i, j);
      WindowForcesFaults(h, t, R, i + 1, j);
      var now, later := PagesIn(t, i, j) - R[i], PagesIn(t, i + 1, j) - R[i + 1];
      if t[i] in R[i] {
        SubsetCardinality(now, later);
      } else {
        SubsetCardinality(now, later + {t[i]});
      }
    } else {
      assert PagesIn(t, i, j) - R[i] == {};
    }
  }

  /** The longest window from `i` with at most `k` distinct pages. */
  lemma {:induction false} PhaseEnd(k: nat, t: Trace, i: nat, from: nat) returns (j: nat)
    requires i <= from <= |t| && |PagesIn(t, i, from)| <= k
    ensures from <= j <= |t| && |PagesIn(t, i, j)| <= k
    ensures j < |t| ==> |PagesIn(t, i, j + 1)| == k + 1
    decreases |t| - from
  {
    j := from;
    if from < |t| {
      PagesInGrow(t, i, from);
      if |PagesIn(t, i, from + 1)| <= k {
        j := PhaseEnd(k, t, i, from + 1);
      }
    }
  }

  lemma MulMonotone(a: nat, b: nat, c: nat)
    requires a <= b
    ensures c * a <= c * b && a * c <= b * c
  {
    assert c * b - c * a == c * (b - a);
  }

  lemma MulSuccessor(a: nat, b: nat)
    ensures a * (b + 1) == a * b + a
  {
  }

  /** The trace from `i` splits into `m` phases, the last perhaps incomplete: a conservative
      pager faults at most `k` times in each, and every complete one forces `k-h+1` faults
      on a schedule with `h` frames. */
  lemma {:induction false} Phases(k: nat, h: nat, t: Trace, S: Residency, R: Residency, i: nat)
    returns (m: nat)
    requires 1 <= h <= k && |S| == |t| + 1 && Conservative(k, t, S) && Schedule(h, t, R) && i < |t|
    ensures FaultsIn(t, S, i, |t|) <= k * (m + 1)
    ensures (k - h + 1) * m <= FaultsIn(t, R, i + 1, |t|)
    decreases |t| - i
  {
    hide Conservative, PagesIn, DemandStep;
    OnePageIn(t, i);
    var j := PhaseEnd(k, t, i, i + 1);
    ConservativeAt(k, t, S, i, j);
    if j == |t| {
      m := 0;
    } else {
      var m' := Phases(k, h, t, S, R, j);
      m := m' + 1;
      PhaseForcesFaults(k, h, t, R, i, j + 1);
      FaultsSplit(t, S, i, j, |t|);
      FaultsSplit(t, R, i + 1, j + 1, |t|);
      MulSuccessor(k, m);
      MulSuccessor(k - h + 1, m');
    }
  }

  lemma OnePageIn(t: Trace, i: nat)
    requires i < |t|
    ensures |PagesIn(t, i, i + 1)| == 1
  {
    PagesInStep(t, i, i + 1);
    assert PagesIn(t, i + 1, i + 1) == {};
  }

  lemma ConservativeAt(k: nat, t: Trace, S: Residency, i: nat, j: nat)
    requires |t| <= |S| && Conservative(k, t, S) && i <= j <= |t| && |PagesIn(t, i, j)| <= k
    ensures FaultsIn(t, S, i, j) <= k
  {
    assert ConservativeOn(k, t, S, i, j);
  }

  lemma PhaseForcesFaults(k: nat, h: nat, t: Trace, R: Residency, i: nat, j: nat)
    requires h <= k && Schedule(h, t, R) && i < j <= |t|
    requires |PagesIn(t, i, j)| == k + 1
    ensures FaultsIn(t, R, i + 1, j) >= k - h + 1
  {
    WindowForcesFaults(h, t, R, i + 1, j);
    PagesInStep(t, i, j);
    assert DemandStep(h, t[i], R[i], R[i + 1]);
    var missing := PagesIn(t, i + 1, j) - R[i + 1];
    SubsetCardinality(PagesIn(t, i, j), missing + R[i + 1]);
  }

  lemma RatioArithmetic(c: nat, k: nat, m: nat, a: nat, r: nat)
    requires a <= k * (m + 1) && c * m <= r
    ensures c * a <= k * r + k * c
  {
    MulMonotone(a, k * (m + 1), c);
    MulMonotone(c * m, r, k);
    assert c * (k * (m + 1)) == k * (c * m) + k * c;
  }

  /** `(k-h+1)·faults <= k·reference + k·(k-h)`; with `h == k` the ratio is `k`. */
  ghost predicate WithinRatio(k: nat, h: nat, faults: nat, reference: nat)
    requires h <= k
  {
    && (k - h + 1) * faults <= k * reference + k * (k - h)
    && (h == k ==> faults <= k * reference)
  }

  /** A conservative pager with `k` frames against any schedule with `h <= k` frames. */
  lemma ConservativeIsCompetitive(k: nat, h: nat, t: Trace, S: Residency, R: Residency)
    requires 1 <= h <= k && |S| == |t| + 1 && Conservative(k, t, S) && Schedule(h, t, R)
    ensures WithinRatio(k, h, Faults(t, S), Faults(t, R))
  {
    if t != [] {
      var m := Phases(k, h, t, S, R, 0);
      assert t[0] !in R[0];
      var c, r := k - h + 1, FaultsIn(t, R, 1, |t|);
      RatioArithmetic(c, k, m, Faults(t, S), r);
      Distribute(k, r, h);
    }
  }

  lemma Distribute(k: nat, r: nat, h: nat)
    requires h <= k
    ensures k * r + k * (k - h + 1) == k * (r + 1) + k * (k - h)
    ensures h == k ==> k * (k - h) == 0
  {
  }
}
