/** The tables as the indexer holds them: one object whose methods update them in place,
    statement by statement. Each method is proved to do what its function in `Tables` says. */
module LiveTables {
  import opened Forest
  import opened Tables
  import opened Effects
  import opened Wrappers

  /** A lookup that only meets rows of a closed loop never finds a root, however far it goes. */
  lemma {:induction false} LoopHasNoRoot(posts: map<Hash, Post>, loop: set<Hash>, h: Hash, fuel: nat)
    requires h in loop && forall x :: x in loop ==> PassThrough(posts, x) && posts[x].target.value in loop
    ensures FindRoot(posts, h, fuel) == Root(None, None, posts)
    decreases fuel
  {
    if fuel > 0 { LoopHasNoRoot(posts, loop, posts[h].target.value, fuel - 1); }
  }

  lemma MarkTwice(posts: map<Hash, Post>, a: set<Hash>, b: set<Hash>)
    ensures MarkDeleted(MarkDeleted(posts, a), b) == MarkDeleted(posts, a + b)
  {
  }

  least lemma UnderInClosed[nat](f: Parents, live: set<Hash>, d: Hash, h: Hash, all: set<Hash>)
    requires Under(f, live, d, h)
    requires forall x :: x in f && x in live && f[x].Some? && (f[x].value == h || f[x].value in all) ==> x in all
    ensures d in all
  {
    if f[d].value != h { UnderInClosed(f, live, f[d].value, h, all); }
  }

  class Projection {
    var posts: map<Hash, Post>
    var votes: map<(Owner, Hash), int>
    var stats: map<StatsKey, Stats>

    function Snapshot(): Db
      reads this
    {
      Db(posts, votes, stats)
    }

    constructor ()
      ensures Snapshot() == EMPTY
    {
      posts, votes, stats := map[], map[], map[];
    }

    /** `get_root_community_for_post`; the visited guard never changes the answer. */
    method GetRoot(h: Hash) returns (community: Option<Name>, root: Option<Hash>)
      modifies this`posts
      ensures Root(community, root, posts) == FindRoot(old(posts), h, MAX_DEPTH)
    {
      var current, visited := h, {};
      for n := 0 to MAX_DEPTH
        invariant posts == old(posts)
        invariant FindRoot(posts, h, MAX_DEPTH) == FindRoot(posts, current, MAX_DEPTH - n)
        invariant forall x :: x in visited ==> PassThrough(posts, x) && posts[x].target.value in visited + {current}
      {
        if current in visited {
          assert visited + {current} == visited;
          LoopHasNoRoot(posts, visited, current, MAX_DEPTH - n);
          return None, None;
        }
        visited := visited + {current};
        if current !in posts {
          return None, None;
        }
        var row := posts[current];
        if row.rootCommunity.Some? && row.rootPost.Some? {
          return LowerOpt(row.rootCommunity), row.rootPost;
        }
        if row.target.None? {
          community, root := LowerOpt(row.community), Some(current);
          posts := posts[current := row.(rootCommunity := community, rootPost := root)];
          return;
        }
        current := row.target.value;
      }
      return None, None;
    }

    /** `_update_ancestor_comment_counts` */
    method UpdateAncestorCounts(start: Option<Hash>, delta: int)
      modifies this`posts
      ensures posts == BumpAncestors(old(posts), start, delta)
    {
      if start.None? || delta == 0 {
        return;
      }
      var current, visited, depth := start, {}, 0;
      while current.Some? && current.value !in visited && depth < MAX_DEPTH
        invariant 0 <= depth <= MAX_DEPTH
        invariant WalkUp(posts, current, delta, visited, depth) == BumpAncestors(old(posts), start, delta)
        decreases MAX_DEPTH - depth
      {
        var h := current.value;
        if h !in posts || posts[h].deleted {
          break;
        }
        visited, depth := visited + {h}, depth + 1;
        posts := posts[h := posts[h].(commentCount := Max(0, posts[h].commentCount + delta))];
        current := posts[h].target;
      }
    }

    /** The recursive query of `delete_post`: rounds of live replies, until a round adds none. */
    method Descendants(h: Hash) returns (below: set<Hash>)
      ensures below == Below(ParentsOf(posts), LiveOf(posts), h)
    {
      var f, live := ParentsOf(posts), LiveOf(posts);
      below := {};
      var round := set x | x in f && x in live && f[x] == Some(h);
      while round != {}
        invariant below !! round && below + round <= f.Keys
        invariant forall x :: x in below + round ==> Under(f, live, x, h)
        invariant forall x :: x in f && x in live && f[x].Some? && (f[x].value == h || f[x].value in below) ==> x in below + round
        decreases f.Keys - below
      {
        below := below + round;
        round := (set x | x in f && x in live && f[x].Some? && f[x].value in round) - below;
      }
      forall d | Under(f, live, d, h) ensures d in below {
        UnderInClosed(f, live, d, h, below);
      }
    }

    /** `update_user_community_stats` */
    method UpdateStats(k: StatsKey, voteDelta: int, netDelta: int, postDelta: int)
      modifies this`stats
      ensures stats == BumpStats(old(stats), k, voteDelta, netDelta, postDelta)
    {
      if k in stats {
        var row := stats[k];
        stats := stats[k := Stats(row.voteCount + voteDelta, row.netVotes + netDelta, row.postCount + postDelta)];
      } else {
        stats := stats[k := Stats(voteDelta, netDelta, postDelta)];
      }
    }

    /** `_recompute_community_stats` */
    method RecomputeCommunityStats(owners: set<Owner>, communities: set<nat>)
      modifies this`stats
      ensures stats == RecomputeStats(old(Snapshot()), owners, communities)
    {
      if owners == {} || communities == {} {
        return;
      }
      var pairs := set o, c | o in owners && c in communities :: (o, c);
      stats := stats - pairs;
      stats := InsertCanonical(Snapshot(), pairs);
    }

    /** `upsert_post` */
    method Upsert(h: Hash, owner: Owner, community: Option<Name>, target: Option<Hash>,
                  rootCommunity: Option<Name>, rootPost: Option<Hash>)
      modifies this`posts
      ensures posts == UpsertPost(old(posts), h, owner, community, target, rootCommunity, rootPost)
    {
      if h !in posts {
        posts := posts[h := Post(owner, community, target, false, rootCommunity, rootPost, 0)];
      } else {
        var row := posts[h].(owner := owner, target := target, deleted := false);
        if community.Some? { row := row.(community := community); }
        if rootCommunity.Some? { row := row.(rootCommunity := rootCommunity); }
        if rootPost.Some? { row := row.(rootPost := rootPost); }
        posts := posts[h := row];
      }
    }

    /** `reattribute_community_stats` */
    method ReattributeStats(root: Hash, from: Option<nat>, to: Name)
      modifies this`posts, this`stats
      ensures Snapshot() == MoveThread(old(Snapshot()), root, from, to)
    {
      if from == Some(to.key) {
        return;
      }
      posts := MovedPosts(posts, root, to);
      var owners := ThreadOwners(Snapshot(), root);
      RecomputeCommunityStats(owners, {to.key} + if from.Some? then {from.value} else {});
    }

    /** `_handle_post` */
    method OnPost(m: Msg)
      requires m.PostMsg?
      modifies this
      ensures Snapshot() == HandlePost(old(Snapshot()), m)
    {
      var isNew := m.tx !in posts;
      var rootCommunity, rootPost, community := m.community, Some(m.tx), m.community;
      if m.target.Some? {
        rootCommunity, rootPost := GetRoot(m.target.value);
        if community.None? { community := rootCommunity; }
      }
      Upsert(m.tx, m.owner, community, m.target, rootCommunity, rootPost);
      if isNew && rootCommunity.Some? {
        UpdateStats((m.owner, rootCommunity.value.key), 1, 1, 1);
      }
      if isNew && m.target.Some? {
        UpdateAncestorCounts(m.target, 1);
      }
      votes := votes[(m.owner, m.tx) := 1];
    }

    /** `_handle_vote` */
    method OnVote(m: Msg)
      requires m.VoteMsg?
      modifies this
      ensures Snapshot() == HandleVote(old(Snapshot()), m)
    {
      if m.direction !in {-1, 0, 1} || m.post !in posts {
        return;
      }
      var v := (m.owner, m.post);
      var before := PreviousVote(Snapshot(), v);
      var rootCommunity, _ := GetRoot(m.post);
      if rootCommunity.Some? {
        var k := (m.owner, rootCommunity.value.key);
        if m.direction == 0 {
          if before != 0 { UpdateStats(k, 0, -before, 0); }
        } else {
          UpdateStats(k, if v in votes then 0 else 1, m.direction - before, 0);
        }
      }
      votes := votes[v := m.direction];
    }

    /** `_handle_edit` */
    method OnEdit(m: Msg)
      requires m.EditMsg?
      modifies this`posts, this`stats
      ensures Snapshot() == HandleEdit(old(Snapshot()), m)
    {
      if m.post !in posts || posts[m.post].owner != m.owner || posts[m.post].deleted {
        return;
      }
      var row := posts[m.post];
      if m.target.Some? && row.target != m.target {
        return;
      }
      if row.target.Some? {
        var rootCommunity, rootPost := GetRoot(row.target.value);
        Upsert(m.post, m.owner, None, row.target, rootCommunity, rootPost);
        return;
      }
      var community := if m.community.Some? then m.community else row.community;
      Upsert(m.post, m.owner, community, None, LowerOpt(community), Some(m.post));
      if community.Some? && KeyOpt(row.community) != KeyOpt(community) {
        ReattributeStats(m.post, KeyOpt(row.community), community.value);
      }
    }

    /** `delete_post`; the count is that of the first UPDATE. */
    method OnDelete(m: Msg) returns (count: nat)
      requires m.DeleteMsg?
      modifies this`posts, this`stats
      ensures Snapshot() == HandleDelete(old(Snapshot()), m)
      ensures count == if && m.post in old(posts) && !old(posts)[m.post].deleted && Effective(old(posts)[m.post]).Some?
                          && (m.onlyOwner == None || m.onlyOwner == Some(old(posts)[m.post].owner)) then 1 else 0
    {
      if m.post !in posts || posts[m.post].deleted {
        return 0;
      }
      var row := posts[m.post];
      if m.onlyOwner.Some? && row.owner != m.onlyOwner.value {
        return 0;
      }
      posts := MarkDeleted(posts, {m.post});
      if Effective(row).None? {
        return 0;
      }
      Cascade(m.post, row, old(Snapshot()));
      return 1;
    }

    /** The second half of `delete_post`, once the post itself is marked. */
    method Cascade(h: Hash, row: Post, ghost before: Db)
      requires h in before.posts && row == before.posts[h] && Effective(row).Some?
      requires Snapshot() == before.(posts := MarkDeleted(before.posts, {h}))
      modifies this`posts, this`stats
      ensures Snapshot() == DeleteSubtree(before, h, Gone(before.posts, h))
    {
      var gone := MarkBelow(h, row, before.posts);
      RecomputeCommunityStats(OwnersOf(posts, gone), CommunitiesOf(posts, gone));
    }

    method MarkBelow(h: Hash, row: Post, ghost before: map<Hash, Post>) returns (gone: set<Hash>)
      requires h in before && row == before[h] && Effective(row).Some? && posts == MarkDeleted(before, {h})
      modifies this`posts
      ensures gone == Gone(before, h) && posts == DeletedPosts(before, h, gone)
    {
      var below := Descendants(h);
      gone := {h} + below;
      MarkTwice(before, {h}, below);
      posts := MarkDeleted(posts, below);
      UpdateAncestorCounts(row.target, -(1 + row.commentCount));
    }

    /** A run of messages. */
    method Replay(ms: seq<Msg>)
      requires Snapshot() == EMPTY
      modifies this
      ensures Snapshot() == Run(ms)
    {
      for n := 0 to |ms|
        invariant Snapshot() == Run(ms[..n])
      {
        assert ms[..n + 1][..n] == ms[..n];
        match ms[n] {
          case PostMsg(_, _, _, _) => OnPost(ms[n]);
          case VoteMsg(_, _, _) => OnVote(ms[n]);
          case EditMsg(_, _, _, _) => OnEdit(ms[n]);
          case DeleteMsg(_, _) => var count := OnDelete(ms[n]);
        }
      }
      assert ms[..|ms|] == ms;
    }
  }
}
