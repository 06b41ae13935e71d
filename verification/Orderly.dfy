/** Runs in which a parent never comes after its reply and roots name a community. Parents may still be
    missing for good, so posts may be orphans; every lookup then agrees with the row it starts from. */
module Orderly {
  import opened Wrappers
  import opened Forest
  import opened Tables
  import opened Threads
  import opened Attribution

  /** What a new post must satisfy: an unused hash that nothing replies to yet, and a community if it is
      a root. */
  predicate Placed(d: Db, m: Msg) {
    m.PostMsg? ==>
      && m.tx !in d.posts && (forall h :: h in d.posts ==> d.posts[h].target != Some(m.tx))
      && (m.target.None? ==> m.community.Some?)
  }

  /** A comment that names a community although its parent is missing or has no root. */
  predicate NamedOrphan(d: Db, m: Msg) {
    m.PostMsg? && m.target.Some? && m.community.Some?
    && !(m.target.value in d.posts && d.posts[m.target.value].rootPost.Some?)
  }

  /** A post with a root stores a community; a post without one, an orphan, has no parent or an orphan
      for a parent. */
  predicate SettledAt(posts: map<Hash, Post>, h: Hash)
    requires h in posts
  {
    var p := posts[h];
    if p.rootPost.Some? then p.rootCommunity.Some?
    else p.target.Some? && (p.target.value in posts ==> posts[p.target.value].rootPost.None?)
  }

  ghost predicate AllSettled(posts: map<Hash, Post>) {
    forall h {:trigger SettledAt(posts, h)} :: h in posts ==> SettledAt(posts, h)
  }

  ghost predicate Settled(d: Db) {
    Attributed(d) && AllSettled(d.posts)
  }

  // ---- Lookups ----

  lemma {:induction false} OrphanLookup(posts: map<Hash, Post>, h: Hash, fuel: nat)
    requires AllSettled(posts)
    requires h in posts ==> posts[h].rootPost.None?
    ensures FindRoot(posts, h, fuel) == Root(None, None, posts)
    decreases fuel
  {
    if fuel > 0 && h in posts {
      assert SettledAt(posts, h);
      OrphanLookup(posts, posts[h].target.value, fuel - 1);
    }
  }

  /** A lookup finds the community of the row it starts from and writes nothing; a missing post has none. */
  lemma LookupAgrees(d: Db, h: Hash)
    requires Settled(d)
    ensures FindRoot(d.posts, h, MAX_DEPTH).posts == d.posts
    ensures FindRoot(d.posts, h, MAX_DEPTH).post == if h in d.posts then d.posts[h].rootPost else None
    ensures FindRoot(d.posts, h, MAX_DEPTH).community.Some? <==> h in d.posts && d.posts[h].rootPost.Some?
    ensures Lookup(d.posts, h) == if h in d.posts then Effective(d.posts[h]) else None
  {
    if h in d.posts && d.posts[h].rootPost.Some? {
      assert SettledAt(d.posts, h);
    } else {
      OrphanLookup(d.posts, h, MAX_DEPTH);
      if h in d.posts { assert AttributedAt(d.posts, h); }
    }
  }

  /** A comment and its parent count for one community, if the parent counts for any. */
  lemma ParentAgrees(d: Db, h: Hash)
    requires Settled(d) && h in d.posts && d.posts[h].target.Some?
    requires d.posts[h].target.value in d.posts && d.posts[d.posts[h].target.value].rootPost.Some?
    ensures d.posts[h].rootPost == d.posts[d.posts[h].target.value].rootPost
    ensures Effective(d.posts[h]) == Effective(d.posts[d.posts[h].target.value])
  {
    var t, f := d.posts[h].target.value, ParentsOf(d.posts);
    assert SettledAt(d.posts, h);
    assert AttributedAt(d.posts, h) && AttributedAt(d.posts, t);
    assert f[h] == Some(t);
    RootIsOne(f, h, d.posts[h].rootPost.value, d.posts[t].rootPost.value);
  }

  // ---- Only named orphans and own votes on deleted posts are misattributed ----

  /** An author changing the vote on a post of their own that is already deleted, and had a community. */
  predicate BreaksStanding(d: Db, m: Msg) {
    m.VoteMsg? && VoteApplies(d, m) && OwnDeleted(d, m) && Effective(d.posts[m.post]).Some?
    && m.direction != PreviousVote(d, (m.owner, m.post))
  }

  lemma OnlyOwnVotes(d: Db, m: Msg)
    requires Settled(d)
    ensures Misattributed(d, m) <==> BreaksStanding(d, m) || NamedOrphan(d, m)
  {
    match m {
      case PostMsg(_, _, _, target) => if target.Some? { LookupAgrees(d, target.value); }
      case VoteMsg(_, h, _) => LookupAgrees(d, h);
      case EditMsg(_, h, _, _) =>
        if h in d.posts && d.posts[h].target.Some? {
          var t := d.posts[h].target.value;
          LookupAgrees(d, t);
          if t in d.posts && d.posts[t].rootPost.Some? {
            ParentAgrees(d, h);
          } else if t in d.posts {
            assert AttributedAt(d.posts, t);
          }
        }
      case DeleteMsg(_, _) =>
    }
  }

  // ---- Messages keep posts settled ----

  lemma SettledRows(posts: map<Hash, Post>, after: map<Hash, Post>)
    requires AllSettled(posts) && posts.Keys == after.Keys
    requires forall h :: h in posts ==> posts[h].target == after[h].target && posts[h].rootPost == after[h].rootPost
                                        && (posts[h].rootCommunity.Some? ==> after[h].rootCommunity.Some?)
    ensures AllSettled(after)
  {
    forall h | h in after ensures SettledAt(after, h) {
      assert SettledAt(posts, h);
    }
  }

  lemma ShapeSettled(a: map<Hash, Post>, b: map<Hash, Post>)
    requires AllSettled(a) && SameShape(a, b)
    ensures AllSettled(b)
  {
    forall h | h in a ensures a[h].target == b[h].target && a[h].rootPost == b[h].rootPost && a[h].rootCommunity == b[h].rootCommunity {
      ShapeAt(a, b, h);
    }
    SettledRows(a, b);
  }

  lemma NewRowSettles(d: Db, m: Msg)
    requires Settled(d) && m.PostMsg? && Placed(d, m) && !NamedOrphan(d, m)
    ensures Inserted(d, m) == d.posts[m.tx := NewPost(d, m)]
    ensures AllSettled(Inserted(d, m))
  {
    if m.target.Some? { LookupAgrees(d, m.target.value); }
    var posts := d.posts[m.tx := NewPost(d, m)];
    forall h | h in posts ensures SettledAt(posts, h) {
      if h != m.tx { assert SettledAt(d.posts, h); }
    }
  }

  lemma PostSettles(d: Db, m: Msg)
    requires Settled(d) && m.PostMsg? && Placed(d, m) && !NamedOrphan(d, m)
    ensures Settled(HandlePost(d, m))
  {
    OnlyOwnVotes(d, m);
    PostKeeps(d, m);
    PostTables(d, m);
    NewRowSettles(d, m);
    BumpSameButCounts(Inserted(d, m), m.target, 1);
    CountsShape(Inserted(d, m), HandlePost(d, m).posts);
    ShapeSettled(Inserted(d, m), HandlePost(d, m).posts);
  }

  lemma EditSettles(d: Db, m: Msg)
    requires Settled(d) && m.EditMsg?
    ensures Settled(HandleEdit(d, m))
  {
    EditKeeps(d, m);
    if EditApplies(d, m) {
      if d.posts[m.post].target.Some? {
        CommentEdit(d, m);
        LookupAgrees(d, d.posts[m.post].target.value);
        CommentSettles(d, m.post);
      } else {
        RootEdit(d, m);
        RootSettles(d, m);
      }
    }
  }

  lemma CommentSettles(d: Db, h: Hash)
    requires Settled(d) && h in d.posts && d.posts[h].target.Some?
    ensures AllSettled(d.posts[h := EditedComment(d, h)])
  {
    var t := d.posts[h].target.value;
    LookupAgrees(d, t);
    if t in d.posts && d.posts[t].rootPost.Some? { ParentAgrees(d, h); }
    SettledRows(d.posts, d.posts[h := EditedComment(d, h)]);
  }

  lemma RootSettles(d: Db, m: Msg)
    requires Settled(d) && m.EditMsg? && m.post in d.posts && d.posts[m.post].target.None?
    ensures AllSettled(d.posts[m.post := EditedRoot(d, m)])
    ensures m.community.Some? ==> AllSettled(MovedPosts(d.posts[m.post := EditedRoot(d, m)], m.post, m.community.value))
  {
    var h, first := m.post, d.posts[m.post := EditedRoot(d, m)];
    RootRow(d.posts, h);
    assert SettledAt(d.posts, h);
    SettledRows(d.posts, first);
    if m.community.Some? { SettledRows(first, MovedPosts(first, h, m.community.value)); }
  }

  lemma DeleteSettles(d: Db, m: Msg)
    requires Settled(d) && m.DeleteMsg?
    ensures Settled(HandleDelete(d, m))
  {
    DeleteKeeps(d, m);
    if DeleteApplies(d, m) {
      MarkShape(d.posts, {m.post});
      DeletedShape(d.posts, m.post, Gone(d.posts, m.post));
      ShapeSettled(d.posts, HandleDelete(d, m).posts);
    }
  }

  lemma StepSettles(d: Db, m: Msg)
    requires Settled(d) && Placed(d, m) && !NamedOrphan(d, m)
    ensures Settled(Step(d, m))
  {
    match m {
      case PostMsg(_, _, _, _) => PostSettles(d, m);
      case VoteMsg(_, h, _) =>
        VoteKeeps(d, m);
        LookupAgrees(d, h);
      case EditMsg(_, _, _, _) => EditSettles(d, m);
      case DeleteMsg(_, _) => DeleteSettles(d, m);
    }
  }

  /** Posts whose parents are indexed first are in particular placed. */
  lemma ReadyIsPlaced(d: Db, m: Msg)
    requires Threaded(d) && Ready(d, m)
    ensures Placed(d, m) && !NamedOrphan(d, m)
  {
    if m.PostMsg? {
      forall h | h in d.posts ensures d.posts[h].target != Some(m.tx) { assert Anchored(d.posts, h); }
      if m.target.Some? { assert Anchored(d.posts, m.target.value); }
    }
  }
}
