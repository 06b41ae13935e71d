/** Which community a post counts for, in tables where parents may be missing, may arrive after their
    replies, or may never arrive. */
module Attribution {
  import opened Wrappers
  import opened Forest
  import opened Tables
  import opened Threads

  /** A post that stores a root stores the one its parent walk reaches, and counts for that root's
      community; a post that stores none is a reply and counts for no community. */
  ghost predicate AttributedAt(posts: map<Hash, Post>, h: Hash)
    requires h in posts
  {
    var p := posts[h];
    if p.rootPost.None? then p.target.Some? && Effective(p).None?
    else CountsFor(posts, h, Effective(p), p.rootPost.value)
  }

  /** `r` is the root above `h`, and `community` is its community. */
  ghost predicate CountsFor(posts: map<Hash, Post>, h: Hash, community: Option<nat>, r: Hash) {
    RootIs(ParentsOf(posts), h, r) && r in posts && community == KeyOpt(posts[r].community)
  }

  ghost predicate AllAttributed(posts: map<Hash, Post>) {
    forall h {:trigger AttributedAt(posts, h)} :: h in posts ==> AttributedAt(posts, h)
  }

  /** Votes are for indexed posts, and every author has voted on the post. */
  ghost predicate VotesIndexed(d: Db) {
    && (forall v :: v in d.votes ==> v.1 in d.posts)
    && (forall h :: h in d.posts ==> (d.posts[h].owner, h) in d.votes)
  }

  ghost predicate Attributed(d: Db) {
    AllAttributed(d.posts) && VotesIndexed(d)
  }

  // ---- The parent walk ----

  least lemma RootIsRoot[nat](f: Parents, h: Hash, r: Hash)
    requires RootIs(f, h, r)
    ensures r in f && f[r].None? && RootIs(f, r, r)
  {
    if f[h].Some? { RootIsRoot(f, f[h].value, r); }
  }

  least lemma RootIsOne[nat](f: Parents, h: Hash, r: Hash, s: Hash)
    requires RootIs(f, h, r)
    ensures RootIs(f, h, s) ==> r == s
  {
    if f[h].Some? { RootIsOne(f, f[h].value, r, s); }
  }

  least lemma RootIsGrows[nat](f: Parents, h: Hash, r: Hash, x: Hash, parent: Option<Hash>)
    requires RootIs(f, h, r) && x !in f
    ensures RootIs(f[x := parent], h, r)
  {
    if f[h].Some? { RootIsGrows(f, f[h].value, r, x, parent); }
  }

  /** A root stores itself and counts for its own community. */
  lemma RootRow(posts: map<Hash, Post>, h: Hash)
    requires AllAttributed(posts) && h in posts && posts[h].target.None?
    ensures posts[h].rootPost == Some(h) && Effective(posts[h]) == KeyOpt(posts[h].community)
  {
    assert AttributedAt(posts, h);
    assert ParentsOf(posts)[h] == posts[h].target;
  }

  // ---- Lookups ----

  /** The community a lookup finds. */
  function Lookup(posts: map<Hash, Post>, h: Hash): Option<nat> {
    KeyOpt(FindRoot(posts, h, MAX_DEPTH).community)
  }

  /** Whatever a lookup finds is the root of the parent walk and that root's community. */
  lemma {:induction false} LookupFinds(posts: map<Hash, Post>, h: Hash, fuel: nat)
    requires AllAttributed(posts)
    ensures var root := FindRoot(posts, h, fuel);
            if root.post.None? then root.community.None?
            else CountsFor(posts, h, KeyOpt(root.community), root.post.value)
    decreases fuel
  {
    if fuel > 0 && h in posts {
      assert AttributedAt(posts, h);
      assert ParentsOf(posts)[h] == posts[h].target;
      if posts[h].target.Some? { LookupFinds(posts, posts[h].target.value, fuel - 1); }
    }
  }

  /** Two tables whose rows mean the same for threads and for standing. */
  ghost predicate SameMeaning(a: map<Hash, Post>, b: map<Hash, Post>) {
    a.Keys == b.Keys && forall h :: h in a ==> SameRow(a[h], b[h])
  }

  predicate SameRow(p: Post, q: Post) {
    && p.owner == q.owner && p.deleted == q.deleted && p.target == q.target && p.rootPost == q.rootPost
    && KeyOpt(p.community) == KeyOpt(q.community) && Effective(p) == Effective(q)
  }

  /** A lookup at most stores in a root's row what that row already means. */
  lemma {:induction false} LookupFrame(posts: map<Hash, Post>, h: Hash, fuel: nat)
    requires AllAttributed(posts)
    ensures SameMeaning(posts, FindRoot(posts, h, fuel).posts)
    decreases fuel
  {
    if fuel > 0 && h in posts {
      if posts[h].target.Some? {
        LookupFrame(posts, posts[h].target.value, fuel - 1);
      } else {
        RootRow(posts, h);
      }
    }
  }

  lemma MeaningKeeps(a: map<Hash, Post>, b: map<Hash, Post>)
    requires AllAttributed(a) && a.Keys == b.Keys
    requires forall h :: h in a ==> a[h].target == b[h].target && a[h].rootPost == b[h].rootPost
                                    && KeyOpt(a[h].community) == KeyOpt(b[h].community) && Effective(a[h]) == Effective(b[h])
    ensures AllAttributed(b)
  {
    assert ParentsOf(a) == ParentsOf(b);
    forall h | h in b ensures AttributedAt(b, h) {
      assert AttributedAt(a, h);
    }
  }

  // ---- Messages keep posts attributed, unless they count them for the wrong community ----

  /** A row is replaced by one that is still attributed; a root keeps its community. */
  lemma ReplaceRow(posts: map<Hash, Post>, h: Hash, p: Post)
    requires AllAttributed(posts) && h in posts && p.target == posts[h].target
    requires p.target.None? ==> KeyOpt(p.community) == KeyOpt(posts[h].community)
    requires if p.rootPost.None? then p.target.Some? && Effective(p).None?
             else CountsFor(posts, h, Effective(p), p.rootPost.value)
    ensures AllAttributed(posts[h := p])
  {
    var after := posts[h := p];
    assert ParentsOf(after) == ParentsOf(posts);
    forall x | x in after ensures AttributedAt(after, x) {
      assert AttributedAt(posts, x);
      if after[x].rootPost.Some? {
        var r := after[x].rootPost.value;
        RootIsRoot(ParentsOf(posts), x, r);
        assert ParentsOf(posts)[r] == posts[r].target;
      }
    }
  }

  lemma AddRow(posts: map<Hash, Post>, tx: Hash, p: Post)
    requires AllAttributed(posts) && tx !in posts
    requires if p.target.None? then p.rootPost == Some(tx) && Effective(p) == KeyOpt(p.community)
             else if p.rootPost.None? then Effective(p).None?
             else CountsFor(posts, p.target.value, Effective(p), p.rootPost.value)
    ensures AllAttributed(posts[tx := p])
  {
    var after := posts[tx := p];
    var f := ParentsOf(posts);
    assert ParentsOf(after) == f[tx := p.target];
    forall x | x in after ensures AttributedAt(after, x) {
      if x != tx {
        assert AttributedAt(posts, x);
        if posts[x].rootPost.Some? { RootIsGrows(f, x, posts[x].rootPost.value, tx, p.target); }
      } else if p.target.Some? && p.rootPost.Some? {
        RootIsGrows(f, p.target.value, p.rootPost.value, tx, p.target);
      }
    }
  }

  /** The rows of a thread follow their root into another community. */
  lemma MoveRows(posts: map<Hash, Post>, root: Hash, row: Post, to: Name)
    requires AllAttributed(posts) && root in posts && posts[root].target.None?
    requires row.target.None? && row.rootPost == Some(root)
    ensures AllAttributed(MovedPosts(posts[root := row], root, to))
  {
    var first := posts[root := row];
    var moved := MovedPosts(first, root, to);
    RootRow(posts, root);
    assert ParentsOf(moved) == ParentsOf(posts);
    forall h | h in moved ensures AttributedAt(moved, h) {
      assert AttributedAt(posts, h);
      if posts[h].rootPost.Some? {
        var r := posts[h].rootPost.value;
        RootIsRoot(ParentsOf(posts), h, r);
        assert ParentsOf(posts)[r] == posts[r].target;
        RootRow(posts, r);
      }
    }
  }

  predicate VoteApplies(d: Db, m: Msg)
    requires m.VoteMsg?
  {
    -1 <= m.direction <= 1 && m.post in d.posts
  }

  /** The author of a deleted post voting on it. */
  predicate OwnDeleted(d: Db, m: Msg)
    requires m.VoteMsg?
  {
    m.post in d.posts && d.posts[m.post].deleted && d.posts[m.post].owner == m.owner
  }

  /** The community in which a vote on an indexed post counts for the voter. */
  function Home(d: Db, m: Msg): Option<nat>
    requires m.VoteMsg? && m.post in d.posts
  {
    if OwnDeleted(d, m) then None else Effective(d.posts[m.post])
  }

  /** The handler acts for another community than the rows say: a comment names a community where the
      lookup finds none; a vote is changed on a post for which the lookup finds another community than
      the one where the vote counts; a comment is edited whose lookup finds another community than its own. */
  predicate Misattributed(d: Db, m: Msg) {
    match m
    case PostMsg(_, _, community, target) => target.Some? && community.Some? && Lookup(d.posts, target.value).None?
    case VoteMsg(owner, h, direction) =>
      VoteApplies(d, m) && direction != PreviousVote(d, (owner, h)) && Lookup(d.posts, h) != Home(d, m)
    case EditMsg(_, h, _, _) =>
      EditApplies(d, m) && d.posts[h].target.Some? &&
      Lookup(d.posts, d.posts[h].target.value).Some? && Lookup(d.posts, d.posts[h].target.value) != Effective(d.posts[h])
    case DeleteMsg(_, _) => false
  }

  /** The posts once a new row is inserted, before the counts above it are raised. */
  function Inserted(d: Db, m: Msg): map<Hash, Post>
    requires m.PostMsg?
  {
    RootForNew(d.posts, m).posts[m.tx := NewPost(d, m)]
  }

  lemma PostTables(d: Db, m: Msg)
    requires AllAttributed(d.posts) && m.PostMsg? && m.tx !in d.posts
    ensures SameMeaning(d.posts, RootForNew(d.posts, m).posts)
    ensures HandlePost(d, m).posts == BumpAncestors(Inserted(d, m), m.target, 1)
  {
    if m.target.Some? { LookupFrame(d.posts, m.target.value, MAX_DEPTH); }
  }

  lemma CountsKeep(posts: map<Hash, Post>, start: Option<Hash>, delta: int)
    requires AllAttributed(posts)
    ensures AllAttributed(BumpAncestors(posts, start, delta)) && BumpAncestors(posts, start, delta).Keys == posts.Keys
    ensures forall h :: h in posts ==> BumpAncestors(posts, start, delta)[h].owner == posts[h].owner
  {
    BumpSameButCounts(posts, start, delta);
    ShapeKeeps(posts, BumpAncestors(posts, start, delta));
  }

  lemma ShapeKeeps(a: map<Hash, Post>, b: map<Hash, Post>)
    requires AllAttributed(a) && (SameShape(a, b) || SameButCounts(a, b))
    ensures AllAttributed(b) && a.Keys == b.Keys && forall h :: h in a ==> a[h].owner == b[h].owner
  {
    if SameButCounts(a, b) { CountsShape(a, b); }
    forall h | h in a ensures a[h].target == b[h].target && a[h].rootPost == b[h].rootPost && a[h].owner == b[h].owner
                              && KeyOpt(a[h].community) == KeyOpt(b[h].community) && Effective(a[h]) == Effective(b[h]) {
      ShapeAt(a, b, h);
    }
    MeaningKeeps(a, b);
  }

  lemma CountsForFrame(a: map<Hash, Post>, b: map<Hash, Post>, h: Hash, community: Option<nat>, r: Hash)
    requires SameMeaning(a, b) && CountsFor(a, h, community, r)
    ensures CountsFor(b, h, community, r)
  {
    assert ParentsOf(a) == ParentsOf(b);
  }

  lemma NewRowFits(d: Db, m: Msg)
    requires AllAttributed(d.posts) && m.PostMsg? && m.tx !in d.posts && !Misattributed(d, m)
    ensures AllAttributed(Inserted(d, m))
  {
    var root := RootForNew(d.posts, m);
    PostTables(d, m);
    MeaningKeeps(d.posts, root.posts);
    if m.target.Some? {
      LookupFinds(d.posts, m.target.value, MAX_DEPTH);
      if root.post.Some? { CountsForFrame(d.posts, root.posts, m.target.value, KeyOpt(root.community), root.post.value); }
    }
    AddRow(root.posts, m.tx, NewPost(d, m));
  }

  lemma PostKeeps(d: Db, m: Msg)
    requires Attributed(d) && m.PostMsg? && m.tx !in d.posts && !Misattributed(d, m)
    ensures Attributed(HandlePost(d, m))
  {
    PostTables(d, m);
    NewRowFits(d, m);
    CountsKeep(Inserted(d, m), m.target, 1);
  }

  lemma VoteKeeps(d: Db, m: Msg)
    requires Attributed(d) && m.VoteMsg?
    ensures Attributed(HandleVote(d, m))
  {
    if VoteApplies(d, m) {
      LookupFrame(d.posts, m.post, MAX_DEPTH);
      MeaningKeeps(d.posts, HandleVote(d, m).posts);
    }
  }

  /** The row an edit gives a comment. */
  function EditedComment(d: Db, h: Hash): Post
    requires h in d.posts && d.posts[h].target.Some?
  {
    var root := FindRoot(d.posts, d.posts[h].target.value, MAX_DEPTH);
    var row := d.posts[h];
    Post(row.owner, row.community, row.target, false,
         if root.community.Some? then root.community else row.rootCommunity,
         if root.post.Some? then root.post else row.rootPost, row.commentCount)
  }

  lemma CommentEdit(d: Db, m: Msg)
    requires AllAttributed(d.posts) && m.EditMsg? && EditApplies(d, m) && d.posts[m.post].target.Some?
    ensures var root := FindRoot(d.posts, d.posts[m.post].target.value, MAX_DEPTH);
            SameMeaning(d.posts, root.posts) && HandleEdit(d, m) == d.(posts := root.posts[m.post := EditedComment(d, m.post)])
  {
    var t := d.posts[m.post].target.value;
    LookupFrame(d.posts, t, MAX_DEPTH);
    LookupSpares(d.posts, t, MAX_DEPTH, m.post);
  }

  lemma {:induction false} LookupSpares(posts: map<Hash, Post>, h: Hash, fuel: nat, x: Hash)
    requires x in posts && posts[x].target.Some?
    ensures x in FindRoot(posts, h, fuel).posts && FindRoot(posts, h, fuel).posts[x] == posts[x]
    decreases fuel
  {
    if fuel > 0 && h in posts && posts[h].target.Some? { LookupSpares(posts, posts[h].target.value, fuel - 1, x); }
  }

  lemma CommentEditKeeps(d: Db, m: Msg)
    requires AllAttributed(d.posts) && m.EditMsg? && EditApplies(d, m) && d.posts[m.post].target.Some?
    ensures AllAttributed(HandleEdit(d, m).posts)
    ensures var now, was := Effective(EditedComment(d, m.post)), Effective(d.posts[m.post]);
            if Misattributed(d, m) then now.Some? && was.None? else now == was
  {
    var h := m.post;
    var t := d.posts[h].target.value;
    var root := FindRoot(d.posts, t, MAX_DEPTH);
    CommentEdit(d, m);
    MeaningKeeps(d.posts, root.posts);
    LookupFinds(d.posts, t, MAX_DEPTH);
    assert AttributedAt(d.posts, h);
    assert ParentsOf(d.posts)[h] == d.posts[h].target;
    assert ParentsOf(root.posts) == ParentsOf(d.posts);
    if root.post.Some? {
      assert RootIs(ParentsOf(d.posts), h, root.post.value);
      if d.posts[h].rootPost.Some? { RootIsOne(ParentsOf(d.posts), h, d.posts[h].rootPost.value, root.post.value); }
    }
    ReplaceRow(root.posts, h, EditedComment(d, h));
  }

  lemma RootEditKeeps(d: Db, m: Msg)
    requires AllAttributed(d.posts) && m.EditMsg? && EditApplies(d, m) && d.posts[m.post].target.None?
    ensures AllAttributed(HandleEdit(d, m).posts)
  {
    var h, row := m.post, EditedRoot(d, m);
    RootEdit(d, m);
    RootRow(d.posts, h);
    assert ParentsOf(d.posts)[h] == None;
    if Moves(d, m) {
      MoveRows(d.posts, h, row, m.community.value);
    } else {
      ReplaceRow(d.posts, h, row);
    }
  }

  lemma EditKeeps(d: Db, m: Msg)
    requires Attributed(d) && m.EditMsg?
    ensures Attributed(HandleEdit(d, m))
  {
    if EditApplies(d, m) {
      if d.posts[m.post].target.Some? {
        CommentEdit(d, m);
        CommentEditKeeps(d, m);
      } else {
        RootEdit(d, m);
        RootEditKeeps(d, m);
      }
    }
  }

  lemma DeleteKeeps(d: Db, m: Msg)
    requires Attributed(d) && m.DeleteMsg?
    ensures Attributed(HandleDelete(d, m))
  {
    if DeleteApplies(d, m) {
      MarkShape(d.posts, {m.post});
      DeletedShape(d.posts, m.post, Gone(d.posts, m.post));
      ShapeKeeps(d.posts, HandleDelete(d, m).posts);
    }
  }

  /** A message keeps every post attributed, unless it is a comment that names a community where the
      lookup finds none. */
  lemma StepKeeps(d: Db, m: Msg)
    requires Attributed(d) && (m.PostMsg? ==> m.tx !in d.posts && !Misattributed(d, m))
    ensures Attributed(Step(d, m))
  {
    match m {
      case PostMsg(_, _, _, _) => PostKeeps(d, m);
      case VoteMsg(_, _, _) => VoteKeeps(d, m);
      case EditMsg(_, _, _, _) => EditKeeps(d, m);
      case DeleteMsg(_, _) => DeleteKeeps(d, m);
    }
  }
}
