/** Ranges of block heights the indexer will never have, and their normal form
    (`_merge_history_gaps` of `indexer/main.py`). */
module HistoryGaps {
  import opened Wrappers
  import Reasons

  datatype Gap = Gap(start: int, end: int, reason: string)

  predicate Holds(g: Gap, h: int) { g.start <= h <= g.end }

  /** Height `h` lies in one of the ranges. */
  predicate Covers(gs: seq<Gap>, h: int) {
    exists i :: 0 <= i < |gs| && Holds(gs[i], h)
  }

  predicate WellFormed(gs: seq<Gap>) {
    forall i :: 0 <= i < |gs| ==> 1 <= gs[i].start <= gs[i].end
  }

  predicate Before(a: Gap, b: Gap) {
    a.start < b.start || (a.start == b.start && a.end <= b.end)
  }

  predicate Sorted(gs: seq<Gap>) {
    forall i, j :: 0 <= i < j < |gs| ==> Before(gs[i], gs[j])
  }

  /** Sorted, disjoint, and with at least one height between neighbours. */
  predicate Normal(gs: seq<Gap>) {
    WellFormed(gs) && forall i, j :: 0 <= i < j < |gs| ==> gs[i].end + 1 < gs[j].start
  }

  ghost predicate SameHeights(a: seq<Gap>, b: seq<Gap>) {
    forall h :: Covers(a, h) <==> Covers(b, h)
  }

  /** The same ranges, whatever the reasons. */
  ghost predicate SameRanges(a: seq<Gap>, b: seq<Gap>) {
    |a| == |b| && forall i :: 0 <= i < |a| ==> a[i].start == b[i].start && a[i].end == b[i].end
  }

  // ---- The heights determine the ranges ----

  /** The first range is the first maximal run of covered heights. */
  lemma FirstRange(gs: seq<Gap>, h: int)
    requires Normal(gs) && gs != []
    ensures Covers(gs, gs[0].start) && (Covers(gs, h) ==> gs[0].start <= h)
    ensures gs[0].start <= h <= gs[0].end ==> Covers(gs, h)
    ensures !Covers(gs, gs[0].end + 1)
    ensures Covers(gs[1..], h) <==> Covers(gs, h) && h > gs[0].end
  {
    assert Holds(gs[0], gs[0].start);
    if Covers(gs[1..], h) {
      var i :| 0 <= i < |gs[1..]| && Holds(gs[1..][i], h);
      assert Holds(gs[i + 1], h) && gs[0].end + 1 < gs[i + 1].start;
    }
    if Covers(gs, h) && h > gs[0].end {
      var i :| 0 <= i < |gs| && Holds(gs[i], h);
      assert Holds(gs[1..][i - 1], h);
    }
  }

  lemma FirstAtMost(a: seq<Gap>, b: seq<Gap>)
    requires Normal(a) && Normal(b) && a != [] && b != [] && SameHeights(a, b)
    ensures b[0].start <= a[0].start && (b[0].start == a[0].start ==> b[0].end <= a[0].end)
  {
    FirstRange(a, a[0].start);
    FirstRange(b, a[0].start);
    FirstRange(b, a[0].end + 1);
    assert Covers(b, a[0].start) && !Covers(b, a[0].end + 1);
  }

  lemma NoRanges(a: seq<Gap>, b: seq<Gap>)
    requires Normal(a) && SameHeights(a, b) && b == []
    ensures a == []
  {
    if a != [] { FirstRange(a, a[0].start); }
  }

  /** Two normal lists that cover the same heights have the same ranges. */
  lemma {:induction false} NormalUnique(a: seq<Gap>, b: seq<Gap>)
    requires Normal(a) && Normal(b) && SameHeights(a, b)
    ensures SameRanges(a, b)
    decreases |a|
  {
    if b == [] {
      NoRanges(a, b);
    } else if a == [] {
      NoRanges(b, a);
    } else {
      FirstAtMost(a, b);
      FirstAtMost(b, a);
      forall h ensures Covers(a[1..], h) <==> Covers(b[1..], h) {
        FirstRange(a, h);
        FirstRange(b, h);
      }
      NormalUnique(a[1..], b[1..]);
      assert a == [a[0]] + a[1..] && b == [b[0]] + b[1..];
    }
  }

  // ---- Sorting ----

  method Insert(gs: seq<Gap>, g: Gap) returns (out: seq<Gap>)
    requires Sorted(gs)
    ensures Sorted(out) && multiset(out) == multiset(gs) + multiset{g}
  {
    var n := |gs|;
    while n > 0 && !Before(gs[n - 1], g)
      invariant 0 <= n <= |gs|
      invariant forall i :: n <= i < |gs| ==> Before(g, gs[i])
    {
      n := n - 1;
    }
    InsertSorted(gs, g, n);
    out := gs[..n] + [g] + gs[n..];
    assert gs == gs[..n] + gs[n..];
  }

  lemma InsertSorted(gs: seq<Gap>, g: Gap, n: nat)
    requires Sorted(gs) && n <= |gs| && (n > 0 ==> Before(gs[n - 1], g))
    requires forall i :: n <= i < |gs| ==> Before(g, gs[i])
    ensures Sorted(gs[..n] + [g] + gs[n..])
  {
    forall i | 0 <= i < n ensures Before(gs[i], g) { assert Before(gs[i], gs[n - 1]); }
  }

  method Sort(gs: seq<Gap>) returns (out: seq<Gap>)
    ensures Sorted(out) && multiset(out) == multiset(gs)
  {
    out := [];
    for n := 0 to |gs|
      invariant Sorted(out) && multiset(out) == multiset(gs[..n])
    {
      out := Insert(out, gs[n]);
      assert gs[..n + 1] == gs[..n] + [gs[n]];
    }
    assert gs[..|gs|] == gs;
  }

  lemma PermutationCovers(a: seq<Gap>, b: seq<Gap>)
    requires multiset(a) == multiset(b)
    ensures SameHeights(a, b) && (WellFormed(a) <==> WellFormed(b))
  {
    MembersCover(a, b);
    MembersCover(b, a);
  }

  lemma MembersCover(a: seq<Gap>, b: seq<Gap>)
    requires multiset(a) == multiset(b)
    ensures forall h :: Covers(a, h) ==> Covers(b, h)
    ensures WellFormed(b) ==> WellFormed(a)
  {
    forall i | 0 <= i < |a| ensures a[i] in b { assert a[i] in multiset(a); }
    forall h | Covers(a, h) ensures Covers(b, h) {
      var i :| 0 <= i < |a| && Holds(a[i], h);
      var j :| 0 <= j < |b| && b[j] == a[i];
    }
  }

  // ---- Merging ----

  /** `x` is a word of the reason of one of the ranges that begin inside `m`. */
  ghost predicate GivenIn(gs: seq<Gap>, m: Gap, x: string) {
    exists g :: g in gs && Holds(m, g.start) && x in Reasons.Words(g.reason)
  }

  /** Every merged range keeps exactly the words of the reasons merged into it. */
  ghost predicate Explained(out: seq<Gap>, gs: seq<Gap>) {
    forall m, x :: m in out ==> (x in Reasons.Words(m.reason) <==> GivenIn(gs, m, x))
  }

  /** Where merging stands after some of the sorted ranges. */
  ghost predicate Merging(merged: seq<Gap>, seen: seq<Gap>) {
    && Normal(merged) && SameHeights(merged, seen) && (merged == [] <==> seen == [])
    && (seen != [] ==> merged[|merged| - 1].start <= seen[|seen| - 1].start)
    && Explained(merged, seen)
  }

  /** `_merge_history_gaps`: the normal form of the ranges, or an error if one is invalid. */
  method Merge(gaps: seq<Gap>) returns (r: Result<seq<Gap>>)
    ensures r.Ok? <==> WellFormed(gaps)
    ensures r.Ok? ==> Normal(r.value) && SameHeights(r.value, gaps) && Explained(r.value, gaps)
  {
    for n := 0 to |gaps|
      invariant WellFormed(gaps[..n])
    {
      if gaps[n].start < 1 || gaps[n].end < gaps[n].start {
        return Err("invalid history gap record");
      }
    }
    assert gaps[..|gaps|] == gaps;
    var sorted := Sort(gaps);
    PermutationCovers(sorted, gaps);
    var merged: seq<Gap> := [];
    for n := 0 to |sorted|
      invariant Merging(merged, sorted[..n])
    {
      merged := MergeNext(merged, sorted, n);
    }
    assert sorted[..|sorted|] == sorted;
    PermutationExplains(merged, sorted, gaps);
    return Ok(merged);
  }

  /** One more range: it extends the last one, or starts a new one. */
  method MergeNext(merged: seq<Gap>, sorted: seq<Gap>, n: nat) returns (out: seq<Gap>)
    requires n < |sorted| && Sorted(sorted) && WellFormed(sorted) && Merging(merged, sorted[..n])
    ensures Merging(out, sorted[..n + 1])
  {
    var g := sorted[n];
    assert sorted[..n + 1] == sorted[..n] + [g];
    var k := |merged| - 1;
    if merged != [] && g.start <= merged[k].end + 1 {
      var reason := Reasons.JoinReasons(merged[k].reason, g.reason);
      var last := Gap(merged[k].start, if merged[k].end < g.end then g.end else merged[k].end, reason);
      ExtendLast(merged, sorted[..n], last, g);
      ExtendExplains(merged, sorted[..n], last, g);
      out := merged[k := last];
    } else {
      AppendRange(merged, sorted[..n], g);
      AppendExplains(merged, sorted[..n], g);
      out := merged + [g];
    }
  }

  lemma StartsBefore(merged: seq<Gap>, seen: seq<Gap>, g: Gap)
    requires Normal(merged) && SameHeights(merged, seen) && WellFormed(seen) && g in seen
    ensures merged != [] && g.start <= merged[|merged| - 1].end
  {
    var i :| 0 <= i < |seen| && seen[i] == g;
    assert Holds(seen[i], g.start);
    assert Covers(merged, g.start);
  }

  lemma AppendExplains(merged: seq<Gap>, seen: seq<Gap>, g: Gap)
    requires Normal(merged) && SameHeights(merged, seen) && WellFormed(seen) && Explained(merged, seen)
    requires g.start <= g.end && (merged != [] ==> merged[|merged| - 1].end + 1 < g.start)
    ensures Explained(merged + [g], seen + [g])
  {
    forall m, x | m in merged + [g] ensures x in Reasons.Words(m.reason) <==> GivenIn(seen + [g], m, x) {
      if m in merged {
        GivenLast(seen, g, m, x);
      } else {
        assert m == g;
        forall s | s in seen ensures !Holds(g, s.start) { StartsBefore(merged, seen, s); }
        GivenLast(seen, g, g, x);
      }
    }
  }

  lemma GivenLast(seen: seq<Gap>, g: Gap, m: Gap, x: string)
    ensures GivenIn(seen + [g], m, x) <==> GivenIn(seen, m, x) || (Holds(m, g.start) && x in Reasons.Words(g.reason))
  {
    if GivenIn(seen, m, x) {
      var s :| s in seen && Holds(m, s.start) && x in Reasons.Words(s.reason);
      assert s in seen + [g];
    }
    assert g in seen + [g];
  }

  lemma ExtendExplains(merged: seq<Gap>, seen: seq<Gap>, last: Gap, g: Gap)
    requires merged != [] && Normal(merged) && SameHeights(merged, seen) && WellFormed(seen) && Explained(merged, seen)
    requires var was := merged[|merged| - 1];
             && was.start <= g.start <= was.end + 1 && g.start <= g.end && last.start == was.start
             && last.end == (if was.end < g.end then g.end else was.end)
             && Reasons.Words(last.reason) == Reasons.Words(was.reason) + Reasons.Words(g.reason)
    ensures Explained(merged[|merged| - 1 := last], seen + [g])
  {
    var k := |merged| - 1;
    var after := merged[k := last];
    forall m, x | m in after ensures x in Reasons.Words(m.reason) <==> GivenIn(seen + [g], m, x) {
      GivenLast(seen, g, m, x);
      if m == last {
        SameGivers(merged, seen, last, x);
        assert merged[k] in merged;
      } else {
        var i :| 0 <= i < |after| && after[i] == m;
        assert merged[i] == m && merged[i].end + 1 < merged[k].start;
      }
    }
  }

  lemma SameGivers(merged: seq<Gap>, seen: seq<Gap>, last: Gap, x: string)
    requires merged != [] && Normal(merged) && SameHeights(merged, seen) && WellFormed(seen)
    requires last.start == merged[|merged| - 1].start && last.end >= merged[|merged| - 1].end
    ensures GivenIn(seen, last, x) <==> GivenIn(seen, merged[|merged| - 1], x)
  {
    forall s | s in seen ensures Holds(last, s.start) <==> Holds(merged[|merged| - 1], s.start) {
      StartsBefore(merged, seen, s);
    }
  }

  lemma PermutationExplains(out: seq<Gap>, a: seq<Gap>, b: seq<Gap>)
    requires multiset(a) == multiset(b) && Explained(out, a)
    ensures Explained(out, b)
  {
    forall g ensures g in a <==> g in b {
      assert g in a <==> g in multiset(a);
      assert g in b <==> g in multiset(b);
    }
    forall m, x | m in out ensures x in Reasons.Words(m.reason) <==> GivenIn(b, m, x) {
      assert GivenIn(a, m, x) <==> GivenIn(b, m, x);
    }
  }

  lemma AppendRange(a: seq<Gap>, b: seq<Gap>, g: Gap)
    requires SameHeights(a, b)
    ensures SameHeights(a + [g], b + [g])
  {
    forall h ensures Covers(a + [g], h) <==> Covers(b + [g], h) {
      CoversLast(a, g, h);
      CoversLast(b, g, h);
    }
  }

  lemma CoversLast(a: seq<Gap>, g: Gap, h: int)
    ensures Covers(a + [g], h) <==> Covers(a, h) || Holds(g, h)
  {
    if Covers(a, h) {
      var i :| 0 <= i < |a| && Holds(a[i], h);
      assert Holds((a + [g])[i], h);
    }
    if Holds(g, h) { assert Holds((a + [g])[|a|], h); }
  }

  lemma ExtendLast(a: seq<Gap>, b: seq<Gap>, last: Gap, g: Gap)
    requires a != [] && SameHeights(a, b)
    requires forall h :: Holds(last, h) <==> Holds(a[|a| - 1], h) || Holds(g, h)
    ensures SameHeights(a[|a| - 1 := last], b + [g])
  {
    var front, k := a[..|a| - 1], |a| - 1;
    assert a == front + [a[k]] && a[k := last] == front + [last];
    forall h ensures Covers(a[k := last], h) <==> Covers(b + [g], h) {
      CoversLast(front, a[k], h);
      CoversLast(front, last, h);
      CoversLast(b, g, h);
    }
  }

  /** Height `h` lies in a range that gives this reason, among others perhaps. */
  ghost predicate Says(gs: seq<Gap>, h: int, reason: string) {
    exists g :: g in gs && Holds(g, h) && Reasons.Words(reason) <= Reasons.Words(g.reason)
  }

  lemma FreeBefore(merged: seq<Gap>, i: nat)
    requires Normal(merged) && i < |merged|
    ensures !Covers(merged, merged[i].start - 1)
  {
    forall j | 0 <= j < |merged| ensures !Holds(merged[j], merged[i].start - 1) { }
  }

  /** A normal range reaches back as far as the covered heights before it do. */
  lemma ReachesBack(merged: seq<Gap>, i: nat, low: int, high: int)
    requires Normal(merged) && i < |merged| && low <= high && Holds(merged[i], high)
    requires forall k :: low <= k <= high ==> Covers(merged, k)
    ensures Holds(merged[i], low)
  {
    FreeBefore(merged, i);
  }

  /** Merging loses no reason at any height. */
  lemma MergeSays(gaps: seq<Gap>, merged: seq<Gap>, h: int, reason: string)
    requires WellFormed(gaps) && Normal(merged) && SameHeights(merged, gaps) && Explained(merged, gaps) && Says(gaps, h, reason)
    ensures Says(merged, h, reason)
  {
    var g :| g in gaps && Holds(g, h) && Reasons.Words(reason) <= Reasons.Words(g.reason);
    var n :| 0 <= n < |gaps| && gaps[n] == g;
    forall k | g.start <= k <= h ensures Covers(merged, k) {
      assert Holds(gaps[n], k);
      assert Covers(gaps, k);
    }
    assert Covers(merged, h);
    var i :| 0 <= i < |merged| && Holds(merged[i], h);
    var m := merged[i];
    ReachesBack(merged, i, g.start, h);
    forall x | x in Reasons.Words(reason) ensures x in Reasons.Words(m.reason) { assert GivenIn(gaps, m, x); }
  }

  /** The merged ranges depend on the covered heights alone: order, duplicates and a second merge
      make no difference. */
  lemma MergeDependsOnHeights(a: seq<Gap>, b: seq<Gap>, ra: seq<Gap>, rb: seq<Gap>)
    requires Normal(ra) && SameHeights(ra, a) && Normal(rb) && SameHeights(rb, b)
    ensures SameHeights(a, b) <==> SameRanges(ra, rb)
  {
    if SameHeights(a, b) { NormalUnique(ra, rb); }
    if SameRanges(ra, rb) {
      forall h ensures Covers(ra, h) <==> Covers(rb, h) {
        assert forall i :: 0 <= i < |ra| ==> (Holds(ra[i], h) <==> Holds(rb[i], h));
      }
    }
  }
}
