/** What one message does to the tables, in any tables at all and told from the message and the rows:
    who may do what, which rows change and which stay. */
module Effects {
  import opened Forest
  import opened Tables
  import opened Threads
  import opened Attribution
  import opened Counts
  import opened Wrappers

  /** The row keeps its author, its parent, its flag and its count. */
  predicate SameInTree(p: Post, q: Post) {
    p.owner == q.owner && p.target == q.target && p.deleted == q.deleted && p.commentCount == q.commentCount
  }

  // ---- Deletes ----

  /** A delete does something exactly if the post is indexed and live, and the message names no owner or
      the post's own; then the post is deleted. It never touches votes, authors, parents or communities. */
  lemma DeleteEffect(d: Db, m: Msg)
    requires m.DeleteMsg?
    ensures var e := Step(d, m);
            if m.post in d.posts && !d.posts[m.post].deleted && (m.onlyOwner == None || m.onlyOwner == Some(d.posts[m.post].owner))
            then m.post in e.posts && e.posts[m.post].deleted else e == d
    ensures Step(d, m).votes == d.votes && SameShape(d.posts, Step(d, m).posts)
  {
    if DeleteApplies(d, m) {
      var gone := Gone(d.posts, m.post);
      MarkShape(d.posts, {m.post});
      DeletedShape(d.posts, m.post, gone);
      DeleteForest(d.posts, m.post, gone);
      if Effective(d.posts[m.post]).Some? {
        assert m.post !in LiveOf(DeletedPosts(d.posts, m.post, gone));
      }
    }
  }

  /** Nobody deletes the post of somebody else. */
  lemma DeleteByOther(d: Db, m: Msg)
    requires m.DeleteMsg? && m.onlyOwner.Some? && (m.post in d.posts ==> d.posts[m.post].owner != m.onlyOwner.value)
    ensures Step(d, m) == d
  {
    DeleteEffect(d, m);
  }

  // ---- Votes ----

  /** A vote is recorded exactly if it is for, against or neither, and the post is indexed; it replaces the
      voter's earlier vote on that post. Everything else is ignored. */
  lemma VoteEffect(d: Db, m: Msg)
    requires m.VoteMsg?
    ensures if m.direction in {-1, 0, 1} && m.post in d.posts
            then Step(d, m).votes == d.votes[(m.owner, m.post) := m.direction] else Step(d, m) == d
    ensures SameTree(d.posts, Step(d, m).posts)
    ensures forall k :: k in d.stats && k.0 != m.owner ==> k in Step(d, m).stats && Step(d, m).stats[k] == d.stats[k]
  {
    LookupTree(d.posts, m.post, MAX_DEPTH);
  }

  // ---- Edits ----

  /** An edit is refused if the post is not indexed, somebody else's, deleted or said to have another parent. */
  lemma EditRefused(d: Db, m: Msg)
    requires m.EditMsg?
    requires m.post in d.posts ==>
               || d.posts[m.post].owner != m.owner || d.posts[m.post].deleted
               || (m.target.Some? && d.posts[m.post].target != m.target)
    ensures Step(d, m) == d
  {
  }

  /** Whatever an edit does, votes, authors, parents, flags and counts stay. */
  lemma EditFrame(d: Db, m: Msg)
    requires m.EditMsg?
    ensures Step(d, m).votes == d.votes && Step(d, m).posts.Keys == d.posts.Keys
    ensures forall h :: h in d.posts ==> SameInTree(d.posts[h], Step(d, m).posts[h])
  {
    EditTree(d, m);
    EditOwners(d, m);
  }

  lemma EditOwners(d: Db, m: Msg)
    requires m.EditMsg?
    ensures HandleEdit(d, m).posts.Keys == d.posts.Keys
    ensures forall h :: h in d.posts ==> HandleEdit(d, m).posts[h].owner == d.posts[h].owner
  {
    if EditApplies(d, m) {
      if d.posts[m.post].target.Some? { LookupOwners(d.posts, d.posts[m.post].target.value, MAX_DEPTH); } else { RootEdit(d, m); }
    }
  }

  lemma {:induction false} LookupOwners(posts: map<Hash, Post>, h: Hash, fuel: nat)
    ensures var after := FindRoot(posts, h, fuel).posts;
            after.Keys == posts.Keys && forall x :: x in posts ==> after[x].owner == posts[x].owner && after[x].community == posts[x].community
    decreases fuel
  {
    if fuel > 0 && h in posts && posts[h].target.Some? { LookupOwners(posts, posts[h].target.value, fuel - 1); }
  }

  /** The edit is the author's own, of a live post, and names its parent or none. */
  predicate OwnEdit(d: Db, m: Msg)
    requires m.EditMsg?
  {
    && m.post in d.posts && d.posts[m.post].owner == m.owner && !d.posts[m.post].deleted
    && m.target in {None, d.posts[m.post].target}
  }

  /** An edit of a comment stores the root that its parent leads to, if there is one, and applies no delta;
      the community it was given stays, and so does every other comment. */
  lemma CommentEditEffect(d: Db, m: Msg)
    requires m.EditMsg? && OwnEdit(d, m) && d.posts[m.post].target.Some?
    ensures var e, was := Step(d, m), d.posts[m.post];
            var root := FindRoot(d.posts, was.target.value, MAX_DEPTH);
            && e.stats == d.stats
            && e.posts[m.post] == was.(rootCommunity := if root.community.Some? then root.community else was.rootCommunity,
                                       rootPost := if root.post.Some? then root.post else was.rootPost)
            && forall x :: x in d.posts && x != m.post && d.posts[x].target.Some? ==>
                 x in e.posts && e.posts[x] == d.posts[x]
  {
    var t := d.posts[m.post].target.value;
    LookupTree(d.posts, t, MAX_DEPTH);
    forall x | x in d.posts && d.posts[x].target.Some?
      ensures x in FindRoot(d.posts, t, MAX_DEPTH).posts && FindRoot(d.posts, t, MAX_DEPTH).posts[x] == d.posts[x]
    {
      LookupSpares(d.posts, t, MAX_DEPTH, x);
    }
  }

  /** An edit of a root takes over the community it names. If that is another one, all posts of the thread,
      and no others, go there with it, in lower case. */
  lemma RootEditEffect(d: Db, m: Msg)
    requires m.EditMsg? && OwnEdit(d, m) && d.posts[m.post].target.None?
    ensures var e, was := Step(d, m).posts, d.posts[m.post];
            && e[m.post].rootPost == Some(m.post)
            && KeyOpt(e[m.post].community) == (if m.community.Some? then Some(m.community.value.key) else KeyOpt(was.community))
            && (e[m.post].community.Some? ==> e[m.post].rootCommunity == Some(Name(e[m.post].community.value.key, 0)))
    ensures var e, was := Step(d, m).posts, d.posts[m.post];
            var moves := m.community.Some? && KeyOpt(was.community) != Some(m.community.value.key);
            forall x :: x in d.posts && x != m.post ==>
              e[x] == if moves && d.posts[x].rootPost == Some(m.post)
                      then d.posts[x].(community := Some(Name(m.community.value.key, 0)),
                                       rootCommunity := Some(Name(m.community.value.key, 0)))
                      else d.posts[x]
  {
    RootEdit(d, m);
  }

  // ---- Posts ----

  /** A post is entered under its hash with its author, parent and own vote, live. A root has the community
      it names. A comment has the one it names, or else the one its parent leads to. */
  lemma PostEffect(d: Db, m: Msg)
    requires m.PostMsg?
    ensures Step(d, m).votes == d.votes[(m.owner, m.tx) := 1] && Step(d, m).posts.Keys == d.posts.Keys + {m.tx}
    ensures var p := Step(d, m).posts[m.tx];
            && p.owner == m.owner && p.target == m.target && !p.deleted
            && (m.community.Some? ==> p.community == m.community)
            && (m.target.None? ==> p.rootPost == Some(m.tx) && (m.community.Some? ==> p.rootCommunity == m.community))
            && (m.target.Some? ==>
                  var root := FindRoot(d.posts, m.target.value, MAX_DEPTH);
                  && (root.post.Some? ==> p.rootPost == root.post) && (root.community.Some? ==> p.rootCommunity == root.community)
                  && (m.community.None? && root.community.Some? ==> p.community == root.community))
  {
    var root := RootForNew(d.posts, m);
    var community := if m.target.Some? && m.community.None? then root.community else m.community;
    var posts := UpsertPost(root.posts, m.tx, m.owner, community, m.target, root.community, root.post);
    if m.target.Some? { LookupTree(d.posts, m.target.value, MAX_DEPTH); }
    BumpSameButCounts(posts, m.target, 1);
    CountsShape(posts, BumpAncestors(posts, m.target, 1));
    BumpFrame(posts, m.target, 1);
    assert m.tx in posts;
    ShapeAt(posts, BumpAncestors(posts, m.target, 1), m.tx);
    assert m.tx in LiveOf(posts);
  }

  /** A post whose hash is already indexed is counted for nobody again, and raises no count. */
  lemma ReplayedPost(d: Db, m: Msg)
    requires m.PostMsg? && m.tx in d.posts
    ensures Step(d, m).stats == d.stats
    ensures forall h :: h in d.posts ==> h in Step(d, m).posts && Step(d, m).posts[h].commentCount == d.posts[h].commentCount
  {
    if m.target.Some? { LookupTree(d.posts, m.target.value, MAX_DEPTH); }
  }

  /** A root post changes no other row. */
  lemma RootPostFrame(d: Db, m: Msg, h: Hash)
    requires m.PostMsg? && m.target.None? && h in d.posts && h != m.tx
    ensures Step(d, m).posts[h] == d.posts[h]
  {
  }

  // ---- Root lookups ----

  /** Rows the root lookup passes through: present, without stored root, with a parent. */
  predicate PassThrough(posts: map<Hash, Post>, h: Hash) {
    && h in posts && posts[h].target.Some?
    && !(posts[h].rootCommunity.Some? && posts[h].rootPost.Some?)
  }

  /** The lookup from `h` passes through exactly `n` rows and gets to `x`. */
  ghost predicate Passes(posts: map<Hash, Post>, h: Hash, n: nat, x: Hash)
    decreases n
  {
    if n == 0 then h == x else PassThrough(posts, h) && Passes(posts, posts[h].target.value, n - 1, x)
  }

  /** A lookup reads at most `fuel` rows. It answers from the first one that stores a root or is one. The
      former answers in lower case and is left alone. The latter is given its own hash and its community
      in lower case. */
  lemma {:induction false} LookupAnswers(posts: map<Hash, Post>, h: Hash, n: nat, x: Hash, fuel: nat)
    requires Passes(posts, h, n, x)
    ensures n < fuel && x in posts && posts[x].rootCommunity.Some? && posts[x].rootPost.Some? ==>
              FindRoot(posts, h, fuel) == Root(Some(Name(posts[x].rootCommunity.value.key, 0)), posts[x].rootPost, posts)
    ensures n < fuel && x in posts && posts[x].target.None? && !(posts[x].rootCommunity.Some? && posts[x].rootPost.Some?) ==>
              var c := if posts[x].community.Some? then Some(Name(posts[x].community.value.key, 0)) else None;
              FindRoot(posts, h, fuel) == Root(c, Some(x), posts[x := posts[x].(rootCommunity := c, rootPost := Some(x))])
    ensures n >= fuel || x !in posts ==> FindRoot(posts, h, fuel) == Root(None, None, posts)
    decreases n
  {
    if n > 0 && fuel > 0 { LookupAnswers(posts, posts[h].target.value, n - 1, x, fuel - 1); }
  }

  /** The handlers look a hundred rows far. */
  lemma LookupLimit(posts: map<Hash, Post>, h: Hash, n: nat, x: Hash)
    requires Passes(posts, h, n, x) && x in posts && posts[x].target.None?
    ensures FindRoot(posts, h, MAX_DEPTH).post.Some? <==> n < 100
  {
    LookupAnswers(posts, h, n, x, MAX_DEPTH);
  }

  // ---- Counts are never negative ----

  ghost predicate NonNegative(posts: map<Hash, Post>) {
    forall h :: h in posts ==> posts[h].commentCount >= 0
  }

  lemma {:induction false} WalkNonNegative(posts: map<Hash, Post>, c: Option<Hash>, delta: int, visited: set<Hash>, depth: nat)
    requires NonNegative(posts)
    ensures NonNegative(WalkUp(posts, c, delta, visited, depth))
    decreases MAX_DEPTH - depth
  {
    if c.Some? && c.value !in visited && depth < MAX_DEPTH && c.value in posts && !posts[c.value].deleted {
      var row := posts[c.value];
      var next := posts[c.value := row.(commentCount := Max(0, row.commentCount + delta))];
      WalkNonNegative(next, row.target, delta, visited + {c.value}, depth + 1);
    }
  }

  lemma PostNonNegative(d: Db, m: Msg)
    requires NonNegative(d.posts) && m.PostMsg?
    ensures NonNegative(HandlePost(d, m).posts)
  {
    var root := RootForNew(d.posts, m);
    var community := if m.target.Some? && m.community.None? then root.community else m.community;
    var posts := UpsertPost(root.posts, m.tx, m.owner, community, m.target, root.community, root.post);
    if m.target.Some? { LookupTree(d.posts, m.target.value, MAX_DEPTH); }
    WalkNonNegative(posts, m.target, 1, {}, 0);
  }

  lemma DeletedNonNegative(posts: map<Hash, Post>, h: Hash, gone: set<Hash>)
    requires NonNegative(posts) && h in posts
    ensures NonNegative(DeletedPosts(posts, h, gone)) && NonNegative(MarkDeleted(posts, {h}))
  {
    WalkNonNegative(MarkDeleted(posts, gone), posts[h].target, -(1 + posts[h].commentCount), {}, 0);
  }

  /** Whatever is subtracted, in any tables. */
  lemma StepNonNegative(d: Db, m: Msg)
    requires NonNegative(d.posts)
    ensures NonNegative(Step(d, m).posts)
  {
    match m {
      case PostMsg(_, _, _, _) => PostNonNegative(d, m);
      case VoteMsg(_, h, _) => LookupTree(d.posts, h, MAX_DEPTH);
      case EditMsg(_, _, _, _) => EditTree(d, m);
      case DeleteMsg(_, h) =>
        if DeleteApplies(d, m) { DeletedNonNegative(d.posts, h, Gone(d.posts, h)); }
    }
  }
}
