/** Where Optimal's cursor stands after any run, against any reference sequence: at the end of
    the longest beginning of the sequence whose pages were accessed in that order. */
module OptimalCursor {
  import opened Core
  import opened PolicyModel
  import opened MemoryModel
  import opened MmuModel
  import opened MmuInvariant
  import opened Paging
  import opened AccessRuns

  /** `a` is left of `b` when some entries of `b` are left out. */
  predicate Subsequence(a: Trace, b: Trace) {
    if a == [] then true
    else if b == [] then false
    else
      var (n, k) := (|a| - 1, |b| - 1);
      Subsequence(a, b[..k]) || (a[n] == b[k] && Subsequence(a[..n], b[..k]))
  }

  /** `n` is the length of the longest beginning of `reference` that is a subsequence of `t`. */
  ghost predicate LongestServed(reference: Trace, t: Trace, n: nat) {
    && n <= |reference| && Subsequence(reference[..n], t)
    && forall l: nat :: n < l <= |reference| ==> !Subsequence(reference[..l], t)
  }

  lemma SubsequenceGrows(a: Trace, t: Trace, p: PageId)
    ensures Subsequence(a, t + [p]) <==> Subsequence(a, t) || (a != [] && a[|a| - 1] == p && Subsequence(a[..|a| - 1], t))
  {
    assert (t + [p])[..|t|] == t;
  }

  /** One more access moves the longest beginning by one exactly when it is the page due. */
  lemma LongestStep(reference: Trace, t: Trace, p: PageId, n: nat)
    requires LongestServed(reference, t, n)
    ensures LongestServed(reference, t + [p], if n < |reference| && reference[n] == p then n + 1 else n)
  {
    var n' := if n < |reference| && reference[n] == p then n + 1 else n;
    SubsequenceGrows(reference[..n'], t, p);
    assert n' == n + 1 ==> reference[..n'][..n] == reference[..n];
    forall l: nat | n' < l <= |reference|
      ensures !Subsequence(reference[..l], t + [p])
    {
      SubsequenceGrows(reference[..l], t, p);
      assert reference[..l][..l - 1] == reference[..l - 1];
    }
  }

  lemma LongestStart(reference: Trace)
    ensures LongestServed(reference, [], 0)
  {
  }

  ghost predicate CursorServes(d: Discipline, reference: Trace, t: Trace) {
    d.Optimal? && d.reference == reference && LongestServed(reference, t, d.position)
  }

  /** One served access, whatever the reference sequence: the cursor moves by one when the
      page is the one due, and stays otherwise, on hits, loads and replacements alike. */
  lemma CursorAfterAccess(m: Mmu, a: MemoryAccess, p: PageId)
    requires Consistent(m) && Access(m, a).1.success && Target(m, a) == Some(p) && m.policy.discipline.Optimal?
    ensures var (d, d') := (m.policy.discipline, Access(m, a).0.policy.discipline);
      && d'.Optimal? && d'.reference == d.reference
      && d'.position == if d.position < |d.reference| && d.reference[d.position] == p then d.position + 1 else d.position
  {
    hide Access, Inverse, PagesAgree;
    AccessSucceedsIff(m, a);
    if p in m.memory.table {
      AccessHits(m, a, p);
    } else if !Full(m) {
      var f := AccessLoads(m, a, p);
    } else {
      var v, f := AccessReplaces(m, a, p);
    }
  }

  lemma CursorServesStep(m: Mmu, a: MemoryAccess, reference: Trace, t: Trace, p: PageId)
    requires Consistent(m) && Access(m, a).1.success && Target(m, a) == Some(p)
    requires CursorServes(m.policy.discipline, reference, t)
    ensures CursorServes(Access(m, a).0.policy.discipline, reference, t + [p])
  {
    hide Access, Consistent, Target, LongestServed;
    CursorAfterAccess(m, a, p);
    LongestStep(reference, t, p, m.policy.discipline.position);
  }

  /** After any run of accesses that succeed, and against any reference sequence, the cursor is
      the length of the longest beginning of the sequence served in order. */
  lemma {:induction false} CursorIsLongestServed(m: Mmu, accesses: seq<MemoryAccess>, n: nat)
    requires AllServed(m, accesses) && n <= |accesses|
    requires m.policy.discipline.Optimal? && m.policy.discipline.position == 0
    ensures CursorServes(After(m, accesses, n).policy.discipline, m.policy.discipline.reference, TraceOf(m, accesses)[..n])
  {
    hide Access, Consistent, Target, LongestServed;
    var reference, t := m.policy.discipline.reference, TraceOf(m, accesses);
    if n == 0 {
      LongestStart(reference);
    } else {
      CursorIsLongestServed(m, accesses, n - 1);
      ServedAt(m, accesses, n - 1);
      CursorServesStep(After(m, accesses, n - 1), accesses[n - 1], reference, t[..n - 1], t[n - 1]);
      assert t[..n] == t[..n - 1] + [t[n - 1]];
    }
  }
}
