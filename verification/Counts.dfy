/** `comment_count` is kept by walking up the reply chain, at most a hundred posts. Here it is
    compared with what it stands for: the live posts below, reached through live posts. */
module Counts {
  import opened Forest
  import opened Tables
  import opened Threads
  import opened Wrappers

  /** Every live post stores the number of live posts connected below it. */
  ghost predicate Counted(posts: map<Hash, Post>) {
    forall h :: h in posts && !posts[h].deleted ==> CountedAt(posts, h)
  }

  ghost predicate CountedAt(posts: map<Hash, Post>, h: Hash) {
    h in posts && posts[h].commentCount == |Below(ParentsOf(posts), LiveOf(posts), h)|
  }

  /** The walk upwards from `start` meets no more than the hundred posts it is allowed to. */
  predicate InReach(posts: map<Hash, Post>, start: Option<Hash>) {
    |Chain(ParentsOf(posts), LiveOf(posts), start, MAX_DEPTH + 1)| <= MAX_DEPTH
  }

  ghost predicate AllInReach(posts: map<Hash, Post>) {
    forall h :: h in posts && !posts[h].deleted ==> InReach(posts, posts[h].target)
  }

  /** No live post is above itself. */
  ghost predicate NoCircle(posts: map<Hash, Post>) {
    Acyclic(ParentsOf(posts), LiveOf(posts))
  }

  /** `x` is new, and neither it nor a live post replies to it. */
  ghost predicate IsLeaf(posts: map<Hash, Post>, x: Hash, parent: Option<Hash>) {
    Leaf(ParentsOf(posts), LiveOf(posts), x, parent)
  }

  // ---- What the walk does ----

  function Bumped(p: Post, delta: int): Post { p.(commentCount := Max(0, p.commentCount + delta)) }

  /** The repeated-post guard never stops the walk: it updates exactly the live chain, cut off at
      the depth limit. */
  lemma {:induction false} WalkIsChain(posts: map<Hash, Post>, rank: map<Hash, nat>, c: Option<Hash>, delta: int,
                                       visited: set<Hash>, depth: nat, h: Hash)
    requires Ordered(ParentsOf(posts), LiveOf(posts), rank) && depth <= MAX_DEPTH && h in posts
    requires c.Some? && c.value in LiveOf(posts) ==> c.value in rank && forall v :: v in visited ==> v in rank && rank[v] > rank[c.value]
    ensures h in WalkUp(posts, c, delta, visited, depth)
    ensures WalkUp(posts, c, delta, visited, depth)[h] ==
            if h in Chain(ParentsOf(posts), LiveOf(posts), c, MAX_DEPTH - depth) then Bumped(posts[h], delta) else posts[h]
    decreases MAX_DEPTH - depth
  {
    if c.Some? && c.value in posts && depth < MAX_DEPTH && !posts[c.value].deleted {
      var x := c.value;
      var next := posts[x := Bumped(posts[x], delta)];
      assert ParentsOf(next) == ParentsOf(posts) && LiveOf(next) == LiveOf(posts);
      assert x in ParentsOf(posts) && ParentsOf(posts)[x] == posts[x].target;
      assert posts[x].target.Some? && posts[x].target.value in LiveOf(posts) ==> rank[posts[x].target.value] < rank[x];
      WalkIsChain(next, rank, posts[x].target, delta, visited + {x}, depth + 1, h);
      if posts[x].target.Some? && h in Chain(ParentsOf(posts), LiveOf(posts), posts[x].target, MAX_DEPTH - depth - 1) {
        ChainDescends(ParentsOf(posts), rank, LiveOf(posts), posts[x].target.value, MAX_DEPTH - depth - 1, h);
      }
    }
  }

  lemma BumpIsChain(posts: map<Hash, Post>, start: Option<Hash>, delta: int, h: Hash)
    requires NoCircle(posts) && delta != 0 && h in posts
    ensures h in BumpAncestors(posts, start, delta)
    ensures BumpAncestors(posts, start, delta)[h] ==
            if h in Chain(ParentsOf(posts), LiveOf(posts), start, MAX_DEPTH) then Bumped(posts[h], delta) else posts[h]
  {
    var rank :| Ordered(ParentsOf(posts), LiveOf(posts), rank);
    WalkIsChain(posts, rank, start, delta, {}, 0, h);
  }

  lemma BumpFrame(posts: map<Hash, Post>, start: Option<Hash>, delta: int)
    ensures var b := BumpAncestors(posts, start, delta);
            b.Keys == posts.Keys && ParentsOf(b) == ParentsOf(posts) && LiveOf(b) == LiveOf(posts)
  {
    var b := BumpAncestors(posts, start, delta);
    BumpSameButCounts(posts, start, delta);
    CountsShape(posts, b);
    ShapeParents(posts, b);
    forall h | h in posts ensures posts[h].deleted == b[h].deleted {
      assert posts[h].(commentCount := 0).deleted == b[h].(commentCount := 0).deleted;
    }
  }

  // ---- Chains longer than the limit ----

  /** A chain that does not end within `n` posts has a member the first `n` lack. */
  lemma {:induction false} ChainOverflows(f: Parents, rank: map<Hash, nat>, live: set<Hash>, start: Option<Hash>, n: nat) returns (h: Hash)
    requires Ordered(f, live, rank) && |Chain(f, live, start, n + 1)| > n
    ensures h in Chain(f, live, start, n + 1) && h !in Chain(f, live, start, n)
    decreases n
  {
    var x := start.value;
    if n == 0 {
      h := x;
    } else {
      h := ChainOverflows(f, rank, live, f[x], n - 1);
      assert Chain(f, live, start, n + 1)[1..] == Chain(f, live, f[x], n);
      ChainDescends(f, rank, live, f[x].value, n, h);
    }
  }

  // ---- New posts ----

  lemma NewRow(posts: map<Hash, Post>, tx: Hash, p: Post)
    requires tx !in posts && !p.deleted
    ensures ParentsOf(posts[tx := p]) == ParentsOf(posts)[tx := p.target] && LiveOf(posts[tx := p]) == LiveOf(posts) + {tx}
  {
  }

  /** The forest after a new row is inserted and the counts above it are raised. */
  lemma NewPostForest(posts: map<Hash, Post>, tx: Hash, p: Post)
    requires tx !in posts && !p.deleted
    ensures var after := BumpAncestors(posts[tx := p], p.target, 1);
            && after.Keys == posts.Keys + {tx}
            && ParentsOf(after) == ParentsOf(posts)[tx := p.target] && LiveOf(after) == LiveOf(posts) + {tx}
  {
    NewRow(posts, tx, p);
    BumpFrame(posts[tx := p], p.target, 1);
  }

  lemma NewPostRaises(posts: map<Hash, Post>, tx: Hash, p: Post, h: Hash)
    requires NoCircle(posts) && IsLeaf(posts, tx, p.target) && !p.deleted && h in posts.Keys + {tx}
    ensures var was := if h == tx then p else posts[h];
            var after := BumpAncestors(posts[tx := p], p.target, 1);
            && h in after
            && after[h] == if h in Chain(ParentsOf(posts), LiveOf(posts), p.target, MAX_DEPTH) then Bumped(was, 1) else was
  {
    NewRow(posts, tx, p);
    LeafAcyclic(ParentsOf(posts), LiveOf(posts), tx, p.target);
    LeafChain(ParentsOf(posts), LiveOf(posts), tx, p.target, p.target, MAX_DEPTH);
    BumpIsChain(posts[tx := p], p.target, 1, h);
  }

  /** A live post counts a new comment correctly when the walk reaches it just if it should. */
  lemma NewPostCount(posts: map<Hash, Post>, tx: Hash, p: Post, h: Hash)
    requires NoCircle(posts) && IsLeaf(posts, tx, p.target) && !p.deleted
    requires h in posts && CountedAt(posts, h)
    ensures var f, live := ParentsOf(posts), LiveOf(posts);
            var joins := p.target.Some? && (h == p.target.value || Under(f, live, p.target.value, h));
            CountedAt(BumpAncestors(posts[tx := p], p.target, 1), h) <==>
              (joins <==> h in Chain(f, live, p.target, MAX_DEPTH))
  {
    NewPostForest(posts, tx, p);
    NewPostRaises(posts, tx, p, h);
    LeafBelow(ParentsOf(posts), LiveOf(posts), tx, p.target, h);
  }

  lemma NewPostOwnCount(posts: map<Hash, Post>, tx: Hash, p: Post)
    requires NoCircle(posts) && IsLeaf(posts, tx, p.target) && !p.deleted && p.commentCount == 0
    ensures CountedAt(BumpAncestors(posts[tx := p], p.target, 1), tx)
  {
    var f, live := ParentsOf(posts), LiveOf(posts);
    var rank :| Ordered(f, live, rank);
    NewPostForest(posts, tx, p);
    NewPostRaises(posts, tx, p, tx);
    LeafBelow(f, live, tx, p.target, tx);
    forall x | x in f ensures !Under(f, live, x, tx) { if x in live { LeafUnder(f, live, tx, p.target, x, tx, rank); } }
    assert Below(f, live, tx) == {};
    if p.target.Some? && tx in Chain(f, live, p.target, MAX_DEPTH) { ChainIsAbove(f, live, p.target.value, MAX_DEPTH, tx); }
  }

  lemma ChainIsJoined(posts: map<Hash, Post>, start: Option<Hash>, h: Hash)
    requires InReach(posts, start) && h in LiveOf(posts)
    ensures var f, live := ParentsOf(posts), LiveOf(posts);
            h in Chain(f, live, start, MAX_DEPTH) <==> start.Some? && (h == start.value || Under(f, live, start.value, h))
  {
    var f, live := ParentsOf(posts), LiveOf(posts);
    if start.Some? {
      if h in Chain(f, live, start, MAX_DEPTH) { ChainIsAbove(f, live, start.value, MAX_DEPTH, h); }
      if h == start.value || Under(f, live, start.value, h) { AboveIsInChain(f, live, start.value, MAX_DEPTH, h); }
    }
  }

  /** Indexing a post that nothing live replies to keeps all counts right if and only if its live reply
      chain is in reach. */
  lemma WithPostCounts(posts: map<Hash, Post>, tx: Hash, p: Post)
    requires NoCircle(posts) && IsLeaf(posts, tx, p.target) && !p.deleted && p.commentCount == 0 && Counted(posts)
    ensures Counted(BumpAncestors(posts[tx := p], p.target, 1)) <==> InReach(posts, p.target)
  {
    var f, live := ParentsOf(posts), LiveOf(posts);
    var after := BumpAncestors(posts[tx := p], p.target, 1);
    NewPostForest(posts, tx, p);
    if InReach(posts, p.target) {
      forall h | h in after && !after[h].deleted ensures CountedAt(after, h) {
        assert h in LiveOf(after);
        if h == tx {
          NewPostOwnCount(posts, tx, p);
        } else {
          NewPostCount(posts, tx, p, h);
          ChainIsJoined(posts, p.target, h);
        }
      }
    } else {
      var rank :| Ordered(f, live, rank);
      var h := ChainOverflows(f, rank, live, p.target, MAX_DEPTH);
      ChainIsAbove(f, live, p.target.value, MAX_DEPTH + 1, h);
      NewPostCount(posts, tx, p, h);
      assert h in LiveOf(after) && !CountedAt(after, h);
    }
  }

  /** In any tables: a walk bumps a post at most once, and only one that is at its start or above it. */
  lemma {:induction false} WalkOnce(posts: map<Hash, Post>, c: Option<Hash>, delta: int, visited: set<Hash>, depth: nat, h: Hash)
    requires h in posts
    ensures var after := WalkUp(posts, c, delta, visited, depth);
            && h in after && (h in visited ==> after[h] == posts[h])
            && (after[h] == posts[h] ||
                 (after[h] == Bumped(posts[h], delta) && c.Some? && (c.value == h || Under(ParentsOf(posts), LiveOf(posts), c.value, h))))
    decreases MAX_DEPTH - depth
  {
    if c.Some? && c.value in posts && c.value !in visited && depth < MAX_DEPTH && !posts[c.value].deleted {
      var x := c.value;
      var next := posts[x := Bumped(posts[x], delta)];
      assert ParentsOf(next) == ParentsOf(posts) && LiveOf(next) == LiveOf(posts);
      assert x in ParentsOf(posts) && ParentsOf(posts)[x] == posts[x].target;
      WalkOnce(next, posts[x].target, delta, visited + {x}, depth + 1, h);
    }
  }

  lemma TwoBelow(s: set<Hash>, x: Hash, y: Hash)
    requires x in s && y in s && x != y
    ensures |s| >= 2
  {
    assert {x, y} <= s;
    assert s == {x, y} + (s - {x, y});
  }

  /** A post that comes after a live reply to it starts with a count that is too small. */
  lemma LatePostMiscounts(posts: map<Hash, Post>, tx: Hash, p: Post, y: Hash)
    requires tx !in posts && !p.deleted && p.commentCount == 0 && p.target != Some(tx)
    requires y in posts && !posts[y].deleted && posts[y].target == Some(tx)
    ensures !Counted(BumpAncestors(posts[tx := p], p.target, 1))
  {
    var first, after := posts[tx := p], BumpAncestors(posts[tx := p], p.target, 1);
    var f, live := ParentsOf(first), LiveOf(first);
    BumpFrame(first, p.target, 1);
    assert y in f && y in live && f[y] == Some(tx);
    assert tx in f && tx in live && f[tx] == p.target;
    assert Under(f, live, y, tx);
    assert y in Below(f, live, tx);
    assert tx in LiveOf(after);
    if p.target.Some? {
      WalkOnce(first, p.target, 1, {}, 0, tx);
      if after[tx] != p {
        assert Under(f, live, tx, tx);
        TwoBelow(Below(f, live, tx), tx, y);
      }
    }
    assert !CountedAt(after, tx);
  }

  // ---- Deletes ----

  /** A delete marks the post and everything live connected below it, in any tables; without a
      community it marks the post alone. */
  lemma GoneIsSubtree(posts: map<Hash, Post>, h: Hash)
    requires h in posts
    ensures Gone(posts, h) == if Effective(posts[h]).Some? then Subtree(ParentsOf(posts), LiveOf(posts), h) else {h}
  {
    var f, live := ParentsOf(posts), LiveOf(posts);
    MarkShape(posts, {h});
    forall x | x in f && x != h ensures Under(f, live - {h}, x, h) <==> Under(f, live, x, h) {
      if Under(f, live - {h}, x, h) { UnderMore(f, live - {h}, live, x, h); }
      if Under(f, live, x, h) { UnderAvoids(f, live, x, h); }
    }
  }

  lemma {:induction false} ChainKept(f: Parents, live: set<Hash>, fewer: set<Hash>, start: Option<Hash>, n: nat)
    requires fewer <= live && forall h :: h in Chain(f, live, start, n) ==> h in fewer
    ensures Chain(f, fewer, start, n) == Chain(f, live, start, n)
    decreases n
  {
    if n > 0 && start.Some? && start.value in f && start.value in live {
      var c := Chain(f, live, start, n);
      assert c[1..] == Chain(f, live, f[start.value], n - 1) && c[0] == start.value;
      forall h | h in c[1..] ensures h in fewer { assert h in c; }
      ChainKept(f, live, fewer, f[start.value], n - 1);
    }
  }

  /** The chain above a post survives the removal of the post's subtree. */
  lemma ChainAboveSubtree(f: Parents, live: set<Hash>, x: Hash, n: nat)
    requires Acyclic(f, live) && x in f && x in live
    ensures Chain(f, live - Subtree(f, live, x), f[x], n) == Chain(f, live, f[x], n)
  {
    var rank :| Ordered(f, live, rank);
    var lost := Subtree(f, live, x);
    forall h | h in Chain(f, live, f[x], n) ensures h in live - lost {
      ChainIsAbove(f, live, f[x].value, n, h);
      ChainDescends(f, rank, live, f[x].value, n, h);
      if Under(f, live, h, x) { UnderRank(f, rank, live, h, x); }
    }
    ChainKept(f, live, live - lost, f[x], n);
  }

  /** The forest after a subtree is marked deleted and the counts above it are lowered. */
  lemma DeleteForest(posts: map<Hash, Post>, x: Hash, gone: set<Hash>)
    requires x in posts
    ensures var after := DeletedPosts(posts, x, gone);
            after.Keys == posts.Keys && ParentsOf(after) == ParentsOf(posts) && LiveOf(after) == LiveOf(posts) - gone
  {
    var marked := MarkDeleted(posts, gone);
    MarkShape(posts, gone);
    BumpFrame(marked, posts[x].target, -(1 + posts[x].commentCount));
    assert marked.Keys == posts.Keys;
  }

  lemma DeleteLowers(posts: map<Hash, Post>, x: Hash, gone: set<Hash>, h: Hash)
    requires NoCircle(posts) && x in posts && posts[x].commentCount >= 0 && h in posts && h !in gone
    ensures var f, live := ParentsOf(posts), LiveOf(posts);
            var after := DeletedPosts(posts, x, gone);
            && h in after
            && after[h] == if h in Chain(f, live - gone, posts[x].target, MAX_DEPTH)
                           then Bumped(posts[h], -(1 + posts[x].commentCount)) else posts[h]
  {
    MarkShape(posts, gone);
    FewerAcyclic(ParentsOf(posts), LiveOf(posts), LiveOf(posts) - gone);
    BumpIsChain(MarkDeleted(posts, gone), posts[x].target, -(1 + posts[x].commentCount), h);
  }

  lemma ChainStandsAbove(f: Parents, live: set<Hash>, x: Hash, n: nat, h: Hash)
    requires x in f && x in live && h in Chain(f, live, f[x], n)
    ensures Under(f, live, x, h)
  {
    ChainIsAbove(f, live, f[x].value, n, h);
  }

  /** What a surviving post should count afterwards. */
  lemma DeleteLeaves(posts: map<Hash, Post>, x: Hash, h: Hash)
    requires NoCircle(posts) && x in posts && !posts[x].deleted && CountedAt(posts, x)
    requires var f, live := ParentsOf(posts), LiveOf(posts);
             h in live - Subtree(f, live, x) && CountedAt(posts, h)
    ensures var f, live := ParentsOf(posts), LiveOf(posts);
            |Below(f, live - Subtree(f, live, x), h)| ==
              posts[h].commentCount - if Under(f, live, x, h) then 1 + posts[x].commentCount else 0
  {
    var f, live := ParentsOf(posts), LiveOf(posts);
    SubtreeSize(f, live, x);
    RemoveBelow(f, live, x, h);
    if Under(f, live, x, h) { Fewer(Below(f, live, h), Subtree(f, live, x)); }
  }

  /** A surviving post is counted correctly unless it stood above and the walk stopped short of it. */
  lemma DeleteCount(posts: map<Hash, Post>, x: Hash, h: Hash)
    requires NoCircle(posts) && x in posts && !posts[x].deleted && CountedAt(posts, x)
    requires var f, live := ParentsOf(posts), LiveOf(posts);
             h in live - Subtree(f, live, x) && CountedAt(posts, h)
    ensures var f, live := ParentsOf(posts), LiveOf(posts);
            CountedAt(DeletedPosts(posts, x, Subtree(f, live, x)), h) <==>
              (Under(f, live, x, h) ==> h in Chain(f, live, posts[x].target, MAX_DEPTH))
  {
    var f, live := ParentsOf(posts), LiveOf(posts);
    var lost := Subtree(f, live, x);
    DeleteForest(posts, x, lost);
    DeleteLowers(posts, x, lost, h);
    ChainAboveSubtree(f, live, x, MAX_DEPTH);
    DeleteLeaves(posts, x, h);
    if h in Chain(f, live, f[x], MAX_DEPTH) { ChainStandsAbove(f, live, x, MAX_DEPTH, h); }
  }

  lemma Fewer<T>(s: set<T>, t: set<T>)
    requires t <= s
    ensures |s - t| == |s| - |t|
  {
    assert s == (s - t) + t;
  }

  /** Deleting keeps all counts right if and only if the live chain above the post is in reach. */
  lemma DeleteCounts(posts: map<Hash, Post>, x: Hash)
    requires NoCircle(posts) && x in posts && !posts[x].deleted && Counted(posts)
    ensures Counted(DeletedPosts(posts, x, Subtree(ParentsOf(posts), LiveOf(posts), x))) <==> InReach(posts, posts[x].target)
  {
    var f, live := ParentsOf(posts), LiveOf(posts);
    var lost := Subtree(f, live, x);
    var after := DeletedPosts(posts, x, lost);
    var rank :| Ordered(f, live, rank);
    DeleteForest(posts, x, lost);
    if InReach(posts, posts[x].target) {
      forall h | h in after && !after[h].deleted ensures CountedAt(after, h) {
        assert h in LiveOf(after);
        DeleteCount(posts, x, h);
        if posts[x].target.Some? {
          var p := posts[x].target.value;
          if Under(f, live, x, h) { AboveIsInChain(f, live, p, MAX_DEPTH, h); }
        }
      }
    } else {
      var p := posts[x].target.value;
      var h := ChainOverflows(f, rank, live, Some(p), MAX_DEPTH);
      ChainAboveSubtree(f, live, x, MAX_DEPTH + 1);
      ChainIsAbove(f, live - lost, p, MAX_DEPTH + 1, h);
      ChainIsAbove(f, live, p, MAX_DEPTH + 1, h);
      DeleteCount(posts, x, h);
      assert h in LiveOf(after) && !CountedAt(after, h);
    }
  }

  /** The post has a live parent. */
  predicate UnderLive(posts: map<Hash, Post>, h: Hash)
    requires h in posts
  {
    posts[h].target.Some? && posts[h].target.value in posts && !posts[posts[h].target.value].deleted
  }

  /** Deleting one post alone keeps all counts right if and only if its parent is not live. */
  lemma LoneCounts(posts: map<Hash, Post>, x: Hash)
    requires NoCircle(posts) && x in posts && !posts[x].deleted && Counted(posts)
    ensures Counted(MarkDeleted(posts, {x})) <==> !UnderLive(posts, x)
  {
    var f, live := ParentsOf(posts), LiveOf(posts);
    var after := MarkDeleted(posts, {x});
    MarkShape(posts, {x});
    assert f[x] == posts[x].target;
    forall h | h in posts && !posts[h].deleted && Under(f, live, x, h) ensures UnderLive(posts, x) {
      if f[x].value != h { assert Under(f, live, f[x].value, h); }
    }
    forall h | h in posts && h != x && !posts[h].deleted ensures CountedAt(after, h) <==> !Under(f, live, x, h) {
      LoseBelow(f, live, x, h);
      if Under(f, live, x, h) { FewerMembers(Below(f, live - {x}, h), Below(f, live, h)); }
      assert CountedAt(posts, h);
    }
    if UnderLive(posts, x) {
      var p := posts[x].target.value;
      var rank :| Ordered(f, live, rank);
      assert p != x && Under(f, live, x, p);
      assert p in after && !after[p].deleted && !CountedAt(after, p);
    } else {
      forall h | h in after && !after[h].deleted ensures CountedAt(after, h) { assert h != x; }
    }
  }

  lemma FewerMembers<T>(s: set<T>, t: set<T>)
    requires s < t
    ensures |s| < |t|
  {
    Fewer(t, s);
    assert t - s != {};
  }

  // ---- Messages ----

  /** Tables with the same replies, flags and counts. */
  ghost predicate SameTree(a: map<Hash, Post>, b: map<Hash, Post>) {
    && a.Keys == b.Keys
    && forall h :: h in a ==> a[h].target == b[h].target && a[h].deleted == b[h].deleted && a[h].commentCount == b[h].commentCount
  }

  lemma TreeFrame(a: map<Hash, Post>, b: map<Hash, Post>)
    requires SameTree(a, b)
    ensures ParentsOf(a) == ParentsOf(b) && LiveOf(a) == LiveOf(b)
    ensures (Counted(a) <==> Counted(b)) && (AllInReach(a) <==> AllInReach(b))
  {
    assert ParentsOf(a) == ParentsOf(b);
    assert LiveOf(a) == LiveOf(b);
    forall h ensures CountedAt(a, h) <==> CountedAt(b, h) {
    }
  }

  lemma {:induction false} LookupTree(posts: map<Hash, Post>, h: Hash, fuel: nat)
    ensures SameTree(posts, FindRoot(posts, h, fuel).posts)
    decreases fuel
  {
    if fuel > 0 && h in posts && posts[h].target.Some? { LookupTree(posts, posts[h].target.value, fuel - 1); }
  }

  lemma UpsertTree(posts: map<Hash, Post>, h: Hash, owner: Owner, community: Option<Name>,
                   rootCommunity: Option<Name>, rootPost: Option<Hash>)
    requires h in posts && !posts[h].deleted
    ensures SameTree(posts, UpsertPost(posts, h, owner, community, posts[h].target, rootCommunity, rootPost))
  {
  }

  lemma TreeTransitive(a: map<Hash, Post>, b: map<Hash, Post>, c: map<Hash, Post>)
    requires SameTree(a, b) && SameTree(b, c)
    ensures SameTree(a, c)
  {
  }

  /** Edits change no reply, no flag and no count, in any tables. */
  lemma EditTree(d: Db, m: Msg)
    requires m.EditMsg?
    ensures SameTree(d.posts, HandleEdit(d, m).posts)
  {
    if EditApplies(d, m) {
      var row := d.posts[m.post];
      if row.target.Some? {
        var root := FindRoot(d.posts, row.target.value, MAX_DEPTH);
        LookupTree(d.posts, row.target.value, MAX_DEPTH);
        UpsertTree(root.posts, m.post, m.owner, None, root.community, root.post);
        TreeTransitive(d.posts, root.posts, HandleEdit(d, m).posts);
      } else {
        RootEditTree(d, m);
      }
    }
  }

  lemma RootEditTree(d: Db, m: Msg)
    requires m.EditMsg? && EditApplies(d, m) && d.posts[m.post].target.None?
    ensures SameTree(d.posts, HandleEdit(d, m).posts)
  {
    RootEdit(d, m);
    RowTree(d.posts, m.post, EditedRoot(d, m));
    if Moves(d, m) { MoveTree(d.posts[m.post := EditedRoot(d, m)], m.post, m.community.value); }
  }

  lemma RowTree(posts: map<Hash, Post>, h: Hash, p: Post)
    requires h in posts && p.target == posts[h].target && p.deleted == posts[h].deleted && p.commentCount == posts[h].commentCount
    ensures SameTree(posts, posts[h := p])
  {
  }

  lemma MoveTree(posts: map<Hash, Post>, root: Hash, to: Name)
    ensures SameTree(posts, MovedPosts(posts, root, to))
  {
  }

  /** A new post has an unused hash and does not reply to itself. */
  predicate Grows(d: Db, m: Msg) {
    m.PostMsg? ==> m.tx !in d.posts && m.target != Some(m.tx)
  }

  /** Whether a message leaves right counts right: the walk it starts stays within its limit, a new post
      comes before its replies, and a delete that marks one post alone has nothing live above it. */
  ghost predicate CountKept(d: Db, m: Msg) {
    match m
    case PostMsg(tx, _, _, target) => InReach(d.posts, target) && IsLeaf(d.posts, tx, target)
    case DeleteMsg(_, h) =>
      DeleteApplies(d, m) ==> if Effective(d.posts[h]).Some? then InReach(d.posts, d.posts[h].target) else !UnderLive(d.posts, h)
    case _ => true
  }

  /** A lookup changes no reply, no flag and no count, so neither does what precedes the insert. */
  lemma PostTree(d: Db, m: Msg)
    requires m.PostMsg? && m.tx !in d.posts
    ensures var posts := RootForNew(d.posts, m).posts;
            SameTree(d.posts, posts) && HandlePost(d, m).posts == BumpAncestors(posts[m.tx := NewPost(d, m)], m.target, 1)
  {
    if m.target.Some? { LookupTree(d.posts, m.target.value, MAX_DEPTH); }
  }

  lemma PostKeepsCounts(d: Db, m: Msg)
    requires m.PostMsg? && Grows(d, m) && NoCircle(d.posts) && Counted(d.posts)
    ensures Counted(HandlePost(d, m).posts) <==> CountKept(d, m)
  {
    var posts := RootForNew(d.posts, m).posts;
    PostTree(d, m);
    TreeFrame(d.posts, posts);
    if IsLeaf(posts, m.tx, m.target) {
      WithPostCounts(posts, m.tx, NewPost(d, m));
    } else {
      var y :| y in ParentsOf(posts) && y in LiveOf(posts) && ParentsOf(posts)[y] == Some(m.tx);
      LatePostMiscounts(posts, m.tx, NewPost(d, m), y);
    }
  }

  /** In any tables without a circle of live posts: a message keeps every comment count right if and only
      if it is one of those. */
  lemma StepCounts(d: Db, m: Msg)
    requires NoCircle(d.posts) && Grows(d, m) && Counted(d.posts)
    ensures Counted(Step(d, m).posts) <==> CountKept(d, m)
  {
    match m {
      case PostMsg(_, _, _, _) => PostKeepsCounts(d, m);
      case VoteMsg(_, h, _) =>
        LookupTree(d.posts, h, MAX_DEPTH);
        TreeFrame(d.posts, HandleVote(d, m).posts);
      case EditMsg(_, _, _, _) =>
        EditTree(d, m);
        TreeFrame(d.posts, HandleEdit(d, m).posts);
      case DeleteMsg(_, h) =>
        if DeleteApplies(d, m) {
          GoneIsSubtree(d.posts, h);
          if Effective(d.posts[h]).Some? { DeleteCounts(d.posts, h); } else { LoneCounts(d.posts, h); }
        }
    }
  }

  /** What makes counts wrong as long as all chains are in reach: a comment too deep, a post after its live
      reply, and a delete of a post without a community below a live post. */
  ghost predicate Miscounts(d: Db, m: Msg) {
    || (m.PostMsg? && !(InReach(d.posts, m.target) && IsLeaf(d.posts, m.tx, m.target)))
    || (m.DeleteMsg? && DeleteApplies(d, m) && Effective(d.posts[m.post]).None? && UnderLive(d.posts, m.post))
  }

  lemma PostInReach(posts: map<Hash, Post>, tx: Hash, p: Post)
    requires NoCircle(posts) && AllInReach(posts) && IsLeaf(posts, tx, p.target) && InReach(posts, p.target) && !p.deleted
    ensures var after := BumpAncestors(posts[tx := p], p.target, 1);
            AllInReach(after) && NoCircle(after)
  {
    var f, live := ParentsOf(posts), LiveOf(posts);
    var after := BumpAncestors(posts[tx := p], p.target, 1);
    NewPostForest(posts, tx, p);
    LeafAcyclic(f, live, tx, p.target);
    forall h | h in after && !after[h].deleted ensures InReach(after, after[h].target) {
      assert h in LiveOf(after) && ParentsOf(after)[h] == after[h].target;
      var start := if h == tx then p.target else f[h];
      LeafChain(f, live, tx, p.target, start, MAX_DEPTH + 1);
    }
  }

  lemma FewerInReach(posts: map<Hash, Post>, after: map<Hash, Post>)
    requires NoCircle(posts) && AllInReach(posts)
    requires after.Keys == posts.Keys && ParentsOf(after) == ParentsOf(posts) && LiveOf(after) <= LiveOf(posts)
    ensures AllInReach(after) && NoCircle(after)
  {
    var f, live := ParentsOf(posts), LiveOf(posts);
    FewerAcyclic(f, live, LiveOf(after));
    forall x | x in after && !after[x].deleted ensures InReach(after, after[x].target) {
      assert x in LiveOf(after) && ParentsOf(after)[x] == after[x].target;
      ChainShrinks(f, live, LiveOf(after), f[x], MAX_DEPTH + 1);
    }
  }

  /** Chains in reach stay in reach, so deletes never exceed the limit; only deep comments can. */
  lemma StepInReach(d: Db, m: Msg)
    requires NoCircle(d.posts) && AllInReach(d.posts) && !Miscounts(d, m)
    ensures CountKept(d, m) && AllInReach(Step(d, m).posts) && NoCircle(Step(d, m).posts)
  {
    match m {
      case PostMsg(tx, _, _, target) =>
        var posts := RootForNew(d.posts, m).posts;
        PostTree(d, m);
        TreeFrame(d.posts, posts);
        PostInReach(posts, tx, NewPost(d, m));
      case VoteMsg(_, h, _) =>
        LookupTree(d.posts, h, MAX_DEPTH);
        TreeFrame(d.posts, HandleVote(d, m).posts);
      case EditMsg(_, _, _, _) =>
        EditTree(d, m);
        TreeFrame(d.posts, HandleEdit(d, m).posts);
      case DeleteMsg(_, h) =>
        if DeleteApplies(d, m) {
          DeleteForest(d.posts, h, Gone(d.posts, h));
          MarkShape(d.posts, {h});
          FewerInReach(d.posts, HandleDelete(d, m).posts);
        }
    }
  }
}
