/** Every post carries the root of its thread, and that root's community, in its own row. */
module Threads {
  import opened Forest
  import opened Tables
  import opened Wrappers

  /** A root carries itself and its own community; a comment carries what its parent carries. */
  predicate Anchored(posts: map<Hash, Post>, h: Hash)
    requires h in posts
  {
    var p := posts[h];
    && p.rootPost.Some? && p.rootCommunity.Some?
    && (p.target.None? ==> p.rootPost == Some(h) && KeyOpt(p.community) == KeyOpt(p.rootCommunity))
    && (p.target.Some? ==>
          && p.target.value in posts
          && p.rootPost == posts[p.target.value].rootPost
          && KeyOpt(p.rootCommunity) == KeyOpt(posts[p.target.value].rootCommunity))
  }

  ghost predicate Threaded(d: Db) {
    && Rooted(ParentsOf(d.posts))
    && (forall h {:trigger Anchored(d.posts, h)} :: h in d.posts ==> Anchored(d.posts, h))
    && (forall v :: v in d.votes ==> v.1 in d.posts)
    && (forall h :: h in d.posts ==> (d.posts[h].owner, h) in d.votes)
  }

  /** What a new post must satisfy: an unused hash, a community if it is a root, an indexed parent
      if it is a comment. Votes, edits and deletes need nothing. */
  predicate Ready(d: Db, m: Msg) {
    m.PostMsg? ==>
      && m.tx !in d.posts
      && (if m.target.None? then m.community.Some? else m.target.value in d.posts)
  }

  /** Two post tables that differ at most in comment counts and deletion flags. */
  ghost predicate SameShape(a: map<Hash, Post>, b: map<Hash, Post>) {
    && a.Keys == b.Keys
    && forall h :: h in a ==> a[h].(commentCount := 0, deleted := false) == b[h].(commentCount := 0, deleted := false)
  }

  /** ... or in comment counts alone. */
  ghost predicate SameButCounts(a: map<Hash, Post>, b: map<Hash, Post>) {
    a.Keys == b.Keys && forall h :: h in a ==> a[h].(commentCount := 0) == b[h].(commentCount := 0)
  }

  lemma {:induction false} WalkSameButCounts(posts: map<Hash, Post>, c: Option<Hash>, delta: int, visited: set<Hash>, depth: nat)
    ensures SameButCounts(posts, WalkUp(posts, c, delta, visited, depth))
    decreases MAX_DEPTH - depth
  {
    if c.Some? && c.value !in visited && depth < MAX_DEPTH && c.value in posts && !posts[c.value].deleted {
      var row := posts[c.value];
      var next := posts[c.value := row.(commentCount := Max(0, row.commentCount + delta))];
      WalkSameButCounts(next, row.target, delta, visited + {c.value}, depth + 1);
    }
  }

  lemma BumpSameButCounts(posts: map<Hash, Post>, start: Option<Hash>, delta: int)
    ensures SameButCounts(posts, BumpAncestors(posts, start, delta))
  {
    WalkSameButCounts(posts, start, delta, {}, 0);
  }

  lemma ShapeParents(a: map<Hash, Post>, b: map<Hash, Post>)
    requires SameShape(a, b)
    ensures ParentsOf(a) == ParentsOf(b)
  {
    forall h | h in a ensures a[h].target == b[h].target {
      assert a[h].(commentCount := 0, deleted := false).target == b[h].(commentCount := 0, deleted := false).target;
    }
  }

  /** Being threaded does not depend on counts, flags or statistics. */
  lemma ShapeThreaded(d: Db, e: Db)
    requires Threaded(d) && SameShape(d.posts, e.posts) && d.votes.Keys <= e.votes.Keys
    requires forall v :: v in e.votes ==> v.1 in e.posts
    ensures Threaded(e)
  {
    ShapeParents(d.posts, e.posts);
    forall h | h in e.posts ensures Anchored(e.posts, h) && (e.posts[h].owner, h) in e.votes {
      ShapeAt(d.posts, e.posts, h);
      if e.posts[h].target.Some? { ShapeAt(d.posts, e.posts, e.posts[h].target.value); }
      assert Anchored(d.posts, h);
    }
  }

  /** Rows with the same parents and owners, anchored afresh. */
  lemma AnchoredThreaded(d: Db, e: Db)
    requires Threaded(d) && ParentsOf(e.posts) == ParentsOf(d.posts) && e.posts.Keys == d.posts.Keys && e.votes == d.votes
    requires forall h :: h in d.posts ==> e.posts[h].owner == d.posts[h].owner
    requires forall h {:trigger Anchored(e.posts, h)} :: h in e.posts ==> Anchored(e.posts, h)
    ensures Threaded(e)
  {
  }

  lemma ShapeAt(a: map<Hash, Post>, b: map<Hash, Post>, h: Hash)
    requires SameShape(a, b) && h in a
    ensures h in b
    ensures var p, q := a[h], b[h];
            && p.owner == q.owner && p.community == q.community && p.target == q.target
            && p.rootCommunity == q.rootCommunity && p.rootPost == q.rootPost
  {
    var p, q := a[h].(commentCount := 0, deleted := false), b[h].(commentCount := 0, deleted := false);
    assert p == q;
    assert p.owner == a[h].owner && q.owner == b[h].owner;
  }

  // ---- The lookup and the walk agree ----

  /** The post reached by following parents to the end. */
  least predicate RootIs[nat](f: Parents, h: Hash, r: Hash) {
    h in f && (if f[h].None? then h == r else RootIs(f, f[h].value, r))
  }

  /** The stored root is the one the unbounded parent walk reaches, and the stored community is
      that root's, up to spelling. */
  lemma {:induction false} StoredRootIsWalkedRoot(d: Db, h: Hash, rank: map<Hash, nat>)
    requires Threaded(d) && Ranked(ParentsOf(d.posts), rank) && h in d.posts
    ensures d.posts[h].rootPost.Some?
    ensures var r := d.posts[h].rootPost.value;
            && r in d.posts && RootIs(ParentsOf(d.posts), h, r)
            && KeyOpt(d.posts[h].rootCommunity) == KeyOpt(d.posts[r].community) && d.posts[r].community.Some?
            && d.posts[r].target.None?
    decreases rank[h]
  {
    assert Anchored(d.posts, h);
    if d.posts[h].target.Some? {
      StoredRootIsWalkedRoot(d, d.posts[h].target.value, rank);
    }
  }

  lemma {:induction false} RootUnique(f: Parents, h: Hash, r: Hash, s: Hash, rank: map<Hash, nat>)
    requires Ranked(f, rank) && RootIs(f, h, r) && RootIs(f, h, s)
    ensures r == s
    decreases rank[h]
  {
    if f[h].Some? { RootUnique(f, f[h].value, r, s, rank); }
  }

  /** The one-row lookup answers with the root of the unbounded walk and changes nothing. */
  lemma LookupIsWalk(d: Db, h: Hash, r: Hash)
    requires Threaded(d) && h in d.posts && RootIs(ParentsOf(d.posts), h, r)
    ensures r in d.posts && d.posts[r].community.Some?
    ensures FindRoot(d.posts, h, MAX_DEPTH) == Root(LowerOpt(d.posts[r].community), Some(r), d.posts)
  {
    var rank :| Ranked(ParentsOf(d.posts), rank);
    StoredRootIsWalkedRoot(d, h, rank);
    RootUnique(ParentsOf(d.posts), h, r, d.posts[h].rootPost.value, rank);
  }

  lemma LookupIsRow(d: Db, h: Hash)
    requires Threaded(d) && h in d.posts
    ensures var root := FindRoot(d.posts, h, MAX_DEPTH);
            && root.posts == d.posts && root.post == d.posts[h].rootPost
            && root.community == LowerOpt(d.posts[h].rootCommunity) && root.community.Some?
            && Effective(d.posts[h]) == Some(root.community.value.key)
  {
    assert Anchored(d.posts, h);
  }

  // ---- Every message keeps threads anchored ----

  /** The row a new post is given. */
  function NewPost(d: Db, m: Msg): Post
    requires m.PostMsg?
  {
    var root := RootForNew(d.posts, m);
    Post(m.owner, if m.target.Some? && m.community.None? then root.community else m.community,
         m.target, false, root.community, root.post, 0)
  }

  /** The tables once a new row has been inserted, with its votes and counts. */
  function WithPost(d: Db, tx: Hash, p: Post): Db
    requires p.rootCommunity.Some?
  {
    Db(BumpAncestors(d.posts[tx := p], p.target, 1), d.votes[(p.owner, tx) := 1],
       BumpStats(d.stats, (p.owner, p.rootCommunity.value.key), 1, 1, 1))
  }

  ghost predicate FitsThread(d: Db, tx: Hash, p: Post) {
    && tx !in d.posts && !p.deleted && p.rootCommunity.Some? && Effective(p) == KeyOpt(p.rootCommunity)
    && if p.target.None? then p.rootPost == Some(tx) && KeyOpt(p.community) == KeyOpt(p.rootCommunity)
       else
         && p.target.value in d.posts && p.rootPost == d.posts[p.target.value].rootPost
         && KeyOpt(p.rootCommunity) == KeyOpt(d.posts[p.target.value].rootCommunity)
  }

  lemma NewPostRow(d: Db, m: Msg)
    requires Threaded(d) && m.PostMsg? && Ready(d, m)
    ensures var p := NewPost(d, m);
            FitsThread(d, m.tx, p) && p.target == m.target && p.commentCount == 0 && HandlePost(d, m) == WithPost(d, m.tx, p)
  {
    if m.target.Some? { LookupIsRow(d, m.target.value); }
  }

  lemma LeafAnchors(d: Db, tx: Hash, p: Post)
    requires Threaded(d) && FitsThread(d, tx, p)
    ensures Threaded(d.(posts := d.posts[tx := p], votes := d.votes[(p.owner, tx) := 1]))
    ensures ParentsOf(d.posts[tx := p]) == ParentsOf(d.posts)[tx := p.target]
  {
    var posts := d.posts[tx := p];
    assert ParentsOf(posts) == ParentsOf(d.posts)[tx := p.target];
    LeafRooted(ParentsOf(d.posts), tx, p.target);
    forall h | h in posts ensures Anchored(posts, h) {
      if h != tx { assert Anchored(d.posts, h); } else if p.target.Some? { assert Anchored(d.posts, p.target.value); }
    }
  }

  lemma PostKeepsThreads(d: Db, m: Msg)
    requires Threaded(d) && m.PostMsg? && Ready(d, m)
    ensures Threaded(HandlePost(d, m))
  {
    NewPostRow(d, m);
    WithPostKeepsThreads(d, m.tx, NewPost(d, m));
  }

  lemma WithPostKeepsThreads(d: Db, tx: Hash, p: Post)
    requires Threaded(d) && FitsThread(d, tx, p)
    ensures Threaded(WithPost(d, tx, p))
  {
    var posts := d.posts[tx := p];
    LeafAnchors(d, tx, p);
    BumpSameButCounts(posts, p.target, 1);
    CountsShape(posts, BumpAncestors(posts, p.target, 1));
    ShapeThreaded(d.(posts := posts, votes := d.votes[(p.owner, tx) := 1]), WithPost(d, tx, p));
  }

  lemma CountsShape(a: map<Hash, Post>, b: map<Hash, Post>)
    requires SameButCounts(a, b)
    ensures SameShape(a, b)
  {
    forall h | h in a ensures a[h].(commentCount := 0, deleted := false) == b[h].(commentCount := 0, deleted := false) {
      assert a[h].(commentCount := 0).(deleted := false) == b[h].(commentCount := 0).(deleted := false);
    }
  }

  lemma VoteKeepsThreads(d: Db, m: Msg)
    requires Threaded(d) && m.VoteMsg?
    ensures Threaded(HandleVote(d, m)) && HandleVote(d, m).posts == d.posts
  {
    if m.post in d.posts {
      LookupIsRow(d, m.post);
      ShapeThreaded(d, HandleVote(d, m));
    }
  }

  lemma MarkShape(posts: map<Hash, Post>, hs: set<Hash>)
    ensures SameShape(posts, MarkDeleted(posts, hs)) && ParentsOf(MarkDeleted(posts, hs)) == ParentsOf(posts)
    ensures LiveOf(MarkDeleted(posts, hs)) == LiveOf(posts) - hs
  {
    var marked := MarkDeleted(posts, hs);
    ShapeParents(posts, marked);
  }

  lemma ShapeTransitive(a: map<Hash, Post>, b: map<Hash, Post>, c: map<Hash, Post>)
    requires SameShape(a, b) && SameShape(b, c)
    ensures SameShape(a, c)
  {
  }

  lemma DeletedShape(posts: map<Hash, Post>, h: Hash, gone: set<Hash>)
    requires h in posts
    ensures SameShape(posts, DeletedPosts(posts, h, gone))
    ensures SameButCounts(MarkDeleted(posts, gone), DeletedPosts(posts, h, gone))
  {
    var marked := MarkDeleted(posts, gone);
    MarkShape(posts, gone);
    BumpSameButCounts(marked, posts[h].target, -(1 + posts[h].commentCount));
    CountsShape(marked, DeletedPosts(posts, h, gone));
    ShapeTransitive(posts, marked, DeletedPosts(posts, h, gone));
  }

  lemma DeleteKeepsThreads(d: Db, m: Msg)
    requires Threaded(d) && m.DeleteMsg?
    ensures Threaded(HandleDelete(d, m)) && SameShape(d.posts, HandleDelete(d, m).posts)
  {
    if DeleteApplies(d, m) {
      MarkShape(d.posts, {m.post});
      DeletedShape(d.posts, m.post, Gone(d.posts, m.post));
      ShapeThreaded(d, HandleDelete(d, m));
    }
  }

  /** Edits of comments and of roots that stay in their community. */
  lemma PlainEditKeepsThreads(d: Db, h: Hash, owner: Owner, community: Option<Name>, root: Option<Name>, rootPost: Option<Hash>)
    requires Threaded(d) && h in d.posts && d.posts[h].owner == owner
    requires rootPost == d.posts[h].rootPost && KeyOpt(root) == KeyOpt(d.posts[h].rootCommunity)
    requires d.posts[h].target.None? ==> KeyOpt(community) == KeyOpt(d.posts[h].community)
    ensures var posts := UpsertPost(d.posts, h, owner, community, d.posts[h].target, root, rootPost);
            && Threaded(d.(posts := posts)) && ParentsOf(posts) == ParentsOf(d.posts)
  {
    var posts := UpsertPost(d.posts, h, owner, community, d.posts[h].target, root, rootPost);
    assert ParentsOf(posts) == ParentsOf(d.posts);
    assert Anchored(d.posts, h);
    forall x | x in posts ensures Anchored(posts, x) {
      assert Anchored(d.posts, x);
    }
    AnchoredThreaded(d, d.(posts := posts));
  }

  /** A thread hangs together: everything in it but the root replies to something in it. */
  predicate HangsTogether(posts: map<Hash, Post>, root: Hash, h: Hash) {
    h in posts && posts[h].rootPost == Some(root) && h != root ==>
      posts[h].target.Some? && posts[h].target.value in posts && posts[posts[h].target.value].rootPost == Some(root)
  }

  ghost predicate IsThread(posts: map<Hash, Post>, root: Hash) {
    && root in posts && posts[root].target.None? && posts[root].rootPost == Some(root)
    && forall h :: HangsTogether(posts, root, h)
  }

  lemma MoveAnchors(posts: map<Hash, Post>, root: Hash, to: Name)
    requires IsThread(posts, root)
    requires forall h {:trigger Anchored(posts, h)} :: h in posts ==> posts[h].rootPost == Some(root) || Anchored(posts, h)
    ensures forall h {:trigger Anchored(MovedPosts(posts, root, to), h)} :: h in posts ==> Anchored(MovedPosts(posts, root, to), h)
    ensures ParentsOf(MovedPosts(posts, root, to)) == ParentsOf(posts)
  {
    var moved := MovedPosts(posts, root, to);
    assert ParentsOf(moved) == ParentsOf(posts);
    forall h | h in posts ensures Anchored(moved, h) {
      assert HangsTogether(posts, root, h);
      assert posts[h].rootPost == Some(root) || Anchored(posts, h);
    }
  }

  /** The row an edit gives a root, before its thread follows. */
  function EditedRoot(d: Db, m: Msg): Post
    requires m.EditMsg? && m.post in d.posts
  {
    var row := d.posts[m.post];
    var community := if m.community.Some? then m.community else row.community;
    Post(row.owner, community, None, false,
         if community.Some? then LowerOpt(community) else row.rootCommunity, Some(m.post), row.commentCount)
  }

  /** Whether a root edit takes the thread to another community. */
  predicate Moves(d: Db, m: Msg)
    requires m.EditMsg? && m.post in d.posts
  {
    m.community.Some? && KeyOpt(d.posts[m.post].community) != KeyOpt(m.community)
  }

  lemma RootEdit(d: Db, m: Msg)
    requires m.EditMsg? && EditApplies(d, m) && d.posts[m.post].target.None?
    ensures var edited := d.(posts := d.posts[m.post := EditedRoot(d, m)]);
            HandleEdit(d, m) == if Moves(d, m) then MoveThread(edited, m.post, KeyOpt(d.posts[m.post].community), m.community.value)
                                else edited
  {
  }

  lemma EditKeepsThreads(d: Db, m: Msg)
    requires Threaded(d) && m.EditMsg?
    ensures Threaded(HandleEdit(d, m)) && ParentsOf(HandleEdit(d, m).posts) == ParentsOf(d.posts)
  {
    if EditApplies(d, m) {
      var row := d.posts[m.post];
      assert Anchored(d.posts, m.post);
      if row.target.Some? {
        LookupIsRow(d, row.target.value);
        var root := FindRoot(d.posts, row.target.value, MAX_DEPTH);
        PlainEditKeepsThreads(d, m.post, m.owner, None, root.community, root.post);
      } else {
        RootEdit(d, m);
        if Moves(d, m) {
          RootMoveKeepsThreads(d, m.post, EditedRoot(d, m), m.community.value, HandleEdit(d, m));
        } else {
          RootStayKeepsThreads(d, m.post, EditedRoot(d, m));
        }
      }
    }
  }

  lemma RootStayKeepsThreads(d: Db, h: Hash, row: Post)
    requires Threaded(d) && h in d.posts && d.posts[h].target.None? && row.target.None?
    requires row.owner == d.posts[h].owner && row.rootPost == Some(h) && row.rootCommunity.Some?
    requires KeyOpt(d.posts[h].community) == KeyOpt(row.community) == KeyOpt(row.rootCommunity)
    ensures Threaded(d.(posts := d.posts[h := row])) && ParentsOf(d.posts[h := row]) == ParentsOf(d.posts)
  {
    var posts := d.posts[h := row];
    assert ParentsOf(posts) == ParentsOf(d.posts);
    assert Anchored(d.posts, h);
    forall x | x in posts ensures Anchored(posts, x) {
      assert Anchored(d.posts, x);
    }
    AnchoredThreaded(d, d.(posts := posts));
  }

  /** An edited root, and its thread behind it. */
  lemma RootMoveKeepsThreads(d: Db, h: Hash, row: Post, to: Name, after: Db)
    requires Threaded(d) && h in d.posts && d.posts[h].target.None?
    requires row.target.None? && row.owner == d.posts[h].owner && row.rootPost == Some(h)
    requires after.posts == MovedPosts(d.posts[h := row], h, to) && after.votes == d.votes
    ensures Threaded(after) && ParentsOf(after.posts) == ParentsOf(d.posts)
  {
    var posts := d.posts[h := row];
    assert ParentsOf(posts) == ParentsOf(d.posts);
    RootEditThread(d.posts, h, row);
    MoveAnchors(posts, h, to);
    AnchoredThreaded(d, after);
  }

  lemma RootEditThread(posts: map<Hash, Post>, h: Hash, row: Post)
    requires h in posts && posts[h].target.None? && row.target.None? && row.rootPost == Some(h)
    requires forall x {:trigger Anchored(posts, x)} :: x in posts ==> Anchored(posts, x)
    ensures IsThread(posts[h := row], h)
    ensures forall x {:trigger Anchored(posts[h := row], x)} ::
              x in posts ==> posts[h := row][x].rootPost == Some(h) || Anchored(posts[h := row], x)
  {
    var after := posts[h := row];
    assert Anchored(posts, h);
    forall x ensures HangsTogether(after, h, x) {
      if x in posts { assert Anchored(posts, x); }
    }
    forall x | x in posts ensures after[x].rootPost == Some(h) || Anchored(after, x) {
      assert Anchored(posts, x);
    }
  }

  lemma StepKeepsThreads(d: Db, m: Msg)
    requires Threaded(d) && Ready(d, m)
    ensures Threaded(Step(d, m))
  {
    match m {
      case PostMsg(_, _, _, _) => PostKeepsThreads(d, m);
      case VoteMsg(_, _, _) => VoteKeepsThreads(d, m);
      case EditMsg(_, _, _, _) => EditKeepsThreads(d, m);
      case DeleteMsg(_, _) => DeleteKeepsThreads(d, m);
    }
  }
}
