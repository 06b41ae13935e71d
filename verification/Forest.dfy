/** Reply trees: every post names at most one parent. What it means for a post to hang below
    another through live posts, and how that relation changes when a leaf is added or a live
    subtree is taken out. */
module Forest {
  import opened Wrappers

  type Hash = nat

  /** The parent of every indexed post; a root has none. */
  type Parents = map<Hash, Option<Hash>>

  /** Parents are indexed, and `rank` falls along every parent link. */
  ghost predicate Ranked(f: Parents, rank: map<Hash, nat>) {
    forall h :: h in f ==>
      h in rank && (f[h].Some? ==> f[h].value in f && f[h].value in rank && rank[f[h].value] < rank[h])
  }

  /** Following parents always ends at a root. */
  ghost predicate Rooted(f: Parents) {
    exists rank :: Ranked(f, rank)
  }

  /** `rank` falls along every link between live posts; parents may be missing. */
  ghost predicate Ordered(f: Parents, live: set<Hash>, rank: map<Hash, nat>) {
    forall h :: h in f && h in live ==>
      h in rank && (f[h].Some? && f[h].value in f && f[h].value in live ==> f[h].value in rank && rank[f[h].value] < rank[h])
  }

  /** No live post is above itself through live posts. */
  ghost predicate Acyclic(f: Parents, live: set<Hash>) {
    exists rank :: Ordered(f, live, rank)
  }

  lemma FewerAcyclic(f: Parents, live: set<Hash>, fewer: set<Hash>)
    requires Acyclic(f, live) && fewer <= live
    ensures Acyclic(f, fewer)
  {
    var rank :| Ordered(f, live, rank);
    assert Ordered(f, fewer, rank);
  }

  /** `d` lies strictly below `h`, and `d` and every post between them is live. */
  least predicate Under[nat](f: Parents, live: set<Hash>, d: Hash, h: Hash) {
    d in f && d in live && f[d].Some? && (f[d].value == h || Under(f, live, f[d].value, h))
  }

  /** The live posts below `h` that live posts connect to it. */
  ghost function Below(f: Parents, live: set<Hash>, h: Hash): set<Hash> {
    set d | d in f && Under(f, live, d, h)
  }

  /** The first `n` live posts met going up from `start`, up to the first deleted one. */
  function Chain(f: Parents, live: set<Hash>, start: Option<Hash>, n: nat): seq<Hash>
    decreases n, start
  {
    if n == 0 || start.None? || start.value !in f || start.value !in live then []
    else [start.value] + Chain(f, live, f[start.value], n - 1)
  }

  // ---- The relation on a fixed forest ----

  lemma {:induction false} UnderTransitive(f: Parents, rank: map<Hash, nat>, live: set<Hash>, a: Hash, b: Hash, c: Hash)
    requires Ordered(f, live, rank) && Under(f, live, a, b) && Under(f, live, b, c)
    ensures Under(f, live, a, c)
    decreases rank[a]
  {
    if f[a].value != b {
      UnderTransitive(f, rank, live, f[a].value, b, c);
    }
  }

  lemma {:induction false} UnderRank(f: Parents, rank: map<Hash, nat>, live: set<Hash>, a: Hash, b: Hash)
    requires Ordered(f, live, rank) && Under(f, live, a, b) && b in f && b in live
    ensures rank[b] < rank[a]
    decreases rank[a]
  {
    if f[a].value != b {
      UnderRank(f, rank, live, f[a].value, b);
    }
  }

  /** Two posts above the same post are comparable. */
  lemma {:induction false} UnderLinear(f: Parents, rank: map<Hash, nat>, live: set<Hash>, d: Hash, x: Hash, y: Hash)
    requires Ordered(f, live, rank) && Under(f, live, d, x) && Under(f, live, d, y)
    ensures x == y || Under(f, live, x, y) || Under(f, live, y, x)
    decreases rank[d]
  {
    var p := f[d].value;
    if p != x && p != y {
      UnderLinear(f, rank, live, p, x, y);
    }
  }

  least lemma UnderMore[nat](f: Parents, live: set<Hash>, more: set<Hash>, d: Hash, h: Hash)
    requires Under(f, live, d, h) && live <= more
    ensures Under(f, more, d, h)
  {
    if f[d].value != h { UnderMore(f, live, more, f[d].value, h); }
  }

  /** A path to `x` need not pass through `x`. */
  least lemma UnderAvoids[nat](f: Parents, live: set<Hash>, d: Hash, x: Hash)
    requires Under(f, live, d, x)
    ensures d != x ==> Under(f, live - {x}, d, x)
  {
    if f[d].value != x { UnderAvoids(f, live, f[d].value, x); }
  }

  // ---- Chains ----

  lemma {:induction false} ChainIsAbove(f: Parents, live: set<Hash>, p: Hash, n: nat, h: Hash)
    requires h in Chain(f, live, Some(p), n)
    ensures h in live && h in f && (h == p || Under(f, live, p, h))
    decreases n
  {
    if h != p {
      ChainIsAbove(f, live, f[p].value, n - 1, h);
    }
  }

  /** A chain shorter than its limit holds every live post above. */
  lemma {:induction false} AboveIsInChain(f: Parents, live: set<Hash>, p: Hash, n: nat, h: Hash)
    requires p in f && h in f && |Chain(f, live, Some(p), n + 1)| <= n
    requires h in live && (h == p || Under(f, live, p, h))
    ensures h in Chain(f, live, Some(p), n)
    decreases n
  {
    if n > 0 && h != p {
      assert Chain(f, live, Some(p), n + 1)[1..] == Chain(f, live, f[p], n);
      AboveIsInChain(f, live, f[p].value, n - 1, h);
    }
  }

  lemma {:induction false} ChainDescends(f: Parents, rank: map<Hash, nat>, live: set<Hash>, p: Hash, n: nat, h: Hash)
    requires Ordered(f, live, rank) && h in Chain(f, live, Some(p), n)
    ensures p in rank && h in rank && rank[h] <= rank[p]
  {
    ChainIsAbove(f, live, p, n, h);
    if h != p { UnderRank(f, rank, live, p, h); }
  }

  /** Deleting posts never lengthens a chain. */
  lemma {:induction false} ChainShrinks(f: Parents, live: set<Hash>, fewer: set<Hash>, start: Option<Hash>, n: nat)
    requires fewer <= live
    ensures |Chain(f, fewer, start, n)| <= |Chain(f, live, start, n)|
    decreases n
  {
    if n > 0 && start.Some? && start.value in f && start.value in fewer {
      ChainShrinks(f, live, fewer, f[start.value], n - 1);
    }
  }

  // ---- Adding a leaf ----

  ghost predicate Closed(f: Parents) {
    forall h :: h in f && f[h].Some? ==> f[h].value in f
  }

  lemma RootedIsClosed(f: Parents)
    requires Rooted(f)
    ensures Closed(f)
  {
  }

  lemma LeafRooted(f: Parents, x: Hash, parent: Option<Hash>)
    requires Rooted(f) && x !in f && (parent.Some? ==> parent.value in f)
    ensures Rooted(f[x := parent])
  {
    var rank :| Ranked(f, rank);
    var g := f[x := parent];
    var r := rank[x := if parent.Some? then rank[parent.value] + 1 else 0];
    assert Ranked(g, r);
  }

  /** `x` is new, and neither it nor a live post replies to it. */
  ghost predicate Leaf(f: Parents, live: set<Hash>, x: Hash, parent: Option<Hash>) {
    x !in f && parent != Some(x) && forall h :: h in f && h in live ==> f[h] != Some(x)
  }

  lemma ClosedLeaf(f: Parents, live: set<Hash>, x: Hash, parent: Option<Hash>)
    requires Closed(f) && x !in f && (parent.Some? ==> parent.value in f)
    ensures Leaf(f, live, x, parent)
  {
  }

  lemma LeafAcyclic(f: Parents, live: set<Hash>, x: Hash, parent: Option<Hash>)
    requires Acyclic(f, live) && Leaf(f, live, x, parent)
    ensures Acyclic(f[x := parent], live + {x})
  {
    var rank :| Ordered(f, live, rank);
    var r := rank[x := if parent.Some? && parent.value in rank then rank[parent.value] + 1 else 0];
    assert Ordered(f[x := parent], live + {x}, r);
  }

  lemma {:induction false} LeafUnder(f: Parents, live: set<Hash>, x: Hash, parent: Option<Hash>, d: Hash, h: Hash, rank: map<Hash, nat>)
    requires Ordered(f, live, rank) && Leaf(f, live, x, parent) && d in f && d in live
    ensures Under(f[x := parent], live + {x}, d, h) <==> Under(f, live, d, h)
    ensures Under(f, live, d, h) ==> h != x
    decreases rank[d]
  {
    if f[d].Some? && f[d].value in f && f[d].value in live {
      LeafUnder(f, live, x, parent, f[d].value, h, rank);
    }
  }

  /** A new leaf joins the sets of its parent and of every live post above a live parent. */
  lemma LeafBelow(f: Parents, live: set<Hash>, x: Hash, parent: Option<Hash>, h: Hash)
    requires Acyclic(f, live) && Leaf(f, live, x, parent)
    ensures var joins := parent.Some? && (h == parent.value || Under(f, live, parent.value, h));
            Below(f[x := parent], live + {x}, h) == Below(f, live, h) + if joins then {x} else {}
  {
    var rank :| Ordered(f, live, rank);
    var g := f[x := parent];
    forall d | d in f ensures Under(g, live + {x}, d, h) <==> Under(f, live, d, h) {
      if d in live { LeafUnder(f, live, x, parent, d, h, rank); }
    }
    assert x !in Below(f, live, h);
    if parent.Some? {
      assert Under(g, live + {x}, x, h) <==> parent.value == h || Under(g, live + {x}, parent.value, h);
      assert Under(g, live + {x}, parent.value, h) <==> Under(f, live, parent.value, h);
    }
  }

  lemma {:induction false} LeafChain(f: Parents, live: set<Hash>, x: Hash, parent: Option<Hash>, start: Option<Hash>, n: nat)
    requires Leaf(f, live, x, parent) && start != Some(x)
    ensures Chain(f[x := parent], live + {x}, start, n) == Chain(f, live, start, n)
    decreases n
  {
    if n > 0 && start.Some? && start.value in f && start.value in live {
      LeafChain(f, live, x, parent, f[start.value], n - 1);
    }
  }

  // ---- Taking out a live subtree ----

  /** The post itself and everything live connected below it. */
  ghost function Subtree(f: Parents, live: set<Hash>, x: Hash): set<Hash> {
    {x} + Below(f, live, x)
  }

  lemma {:induction false} RemoveUnder(f: Parents, rank: map<Hash, nat>, live: set<Hash>, x: Hash, d: Hash, h: Hash)
    requires Ordered(f, live, rank) && d in f && d in live
    ensures Under(f, live - Subtree(f, live, x), d, h) <==> Under(f, live, d, h) && d !in Subtree(f, live, x)
    decreases rank[d]
  {
    if f[d].Some? && f[d].value in f && f[d].value in live {
      var p := f[d].value;
      RemoveUnder(f, rank, live, x, p, h);
      if Under(f, live, d, h) && d !in Subtree(f, live, x) && p != h && p in Subtree(f, live, x) {
        assert Under(f, live, d, x);
        assert false;
      }
    }
  }

  /** A surviving post loses the whole subtree if it stood above it, and nothing otherwise. */
  lemma RemoveBelow(f: Parents, live: set<Hash>, x: Hash, h: Hash)
    requires Acyclic(f, live) && x in f && x in live && h in live - Subtree(f, live, x)
    ensures var lost := Subtree(f, live, x);
            var left := Below(f, live - lost, h);
            if Under(f, live, x, h) then lost <= Below(f, live, h) && left == Below(f, live, h) - lost
            else left == Below(f, live, h)
  {
    var rank :| Ordered(f, live, rank);
    var lost := Subtree(f, live, x);
    forall d | d in f ensures Under(f, live - lost, d, h) <==> Under(f, live, d, h) && d !in lost {
      if d in live { RemoveUnder(f, rank, live, x, d, h); }
    }
    forall d | d in Below(f, live, x) ensures Under(f, live, d, h) <==> Under(f, live, x, h) {
      if Under(f, live, x, h) {
        UnderTransitive(f, rank, live, d, x, h);
      } else if Under(f, live, d, h) {
        UnderLinear(f, rank, live, d, x, h);
      }
    }
  }

  lemma SubtreeSize(f: Parents, live: set<Hash>, x: Hash)
    requires Acyclic(f, live)
    ensures |Subtree(f, live, x)| == 1 + |Below(f, live, x)|
  {
    var rank :| Ordered(f, live, rank);
    if Under(f, live, x, x) { UnderRank(f, rank, live, x, x); }
  }

  // ---- Taking out one post ----

  /** Posts that are not above `x` do not notice. */
  lemma {:induction false} LoseUnder(f: Parents, rank: map<Hash, nat>, live: set<Hash>, x: Hash, d: Hash, h: Hash)
    requires Ordered(f, live, rank) && d in f && d in live && !Under(f, live, x, h)
    ensures Under(f, live - {x}, d, h) <==> Under(f, live, d, h)
    decreases rank[d]
  {
    if f[d].Some? && f[d].value in f && f[d].value in live { LoseUnder(f, rank, live, x, f[d].value, h); }
  }

  lemma LoseBelow(f: Parents, live: set<Hash>, x: Hash, h: Hash)
    requires Acyclic(f, live)
    ensures Under(f, live, x, h) ==> Below(f, live - {x}, h) < Below(f, live, h)
    ensures !Under(f, live, x, h) ==> Below(f, live - {x}, h) == Below(f, live, h)
  {
    var rank :| Ordered(f, live, rank);
    forall d | d in f
      ensures Under(f, live - {x}, d, h) ==> Under(f, live, d, h)
      ensures !Under(f, live, x, h) ==> (Under(f, live - {x}, d, h) <==> Under(f, live, d, h))
    {
      if Under(f, live - {x}, d, h) { UnderMore(f, live - {x}, live, d, h); }
      if d in live && !Under(f, live, x, h) { LoseUnder(f, rank, live, x, d, h); }
    }
    if Under(f, live, x, h) { assert x in Below(f, live, h) && x !in Below(f, live - {x}, h); }
  }
}
