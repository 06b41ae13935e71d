/** Standing in a community is kept by increments, but means a GROUP BY over votes and posts.
    Here the two are compared after every message. */
module Standing {
  import opened Forest
  import opened Tables
  import opened Threads
  import opened Attribution
  import opened Wrappers

  /** The stored row; a missing row reads as zeros. */
  function Row(stats: map<StatsKey, Stats>, k: StatsKey): Stats {
    if k in stats then stats[k] else Stats(0, 0, 0)
  }

  predicate StandsAt(d: Db, k: StatsKey) {
    Row(d.stats, k).netVotes == Canonical(d, k).netVotes && Row(d.stats, k).postCount == Canonical(d, k).postCount
  }

  /** Net votes and post counts of every owner in every community are the canonical ones. */
  ghost predicate Stands(d: Db) {
    forall k :: StandsAt(d, k)
  }

  predicate TalliesAt(d: Db, k: StatsKey) {
    Row(d.stats, k).voteCount == Canonical(d, k).voteCount
  }

  /** So are the vote counts. */
  ghost predicate Tallies(d: Db) {
    forall k :: TalliesAt(d, k)
  }

  // ---- Recomputing some rows is rebuilding all of them, seen at those rows ----

  lemma NoGroupNoRow(d: Db, k: StatsKey)
    ensures k !in VoteGroups(d) ==> VotesOf(d, k, 1) == {} && VotesOf(d, k, -1) == {}
    ensures k !in PostGroups(d) ==> LivePosts(d, k) == {}
  {
  }

  lemma InsertedRows(d: Db, pairs: set<StatsKey>, k: StatsKey)
    requires d.stats.Keys !! pairs
    ensures var s := InsertCanonical(d, pairs);
            if k in pairs then (k in s <==> k in VoteGroups(d) + PostGroups(d)) && Row(s, k) == Canonical(d, k)
            else (k in s <==> k in d.stats) && Row(s, k) == Row(d.stats, k)
  {
    NoGroupNoRow(d, k);
  }

  lemma StatsDoNotMatter(d: Db, stats: map<StatsKey, Stats>, k: StatsKey)
    ensures var e := d.(stats := stats);
            VoteGroups(e) == VoteGroups(d) && PostGroups(e) == PostGroups(d) && Canonical(e, k) == Canonical(d, k)
  {
    var e := d.(stats := stats);
    assert forall s :: VotesOf(e, k, s) == VotesOf(d, k, s);
    assert LivePosts(e, k) == LivePosts(d, k);
  }

  /** A pair has a row exactly if a vote, withdrawn or not, or a live post counts for it. */
  lemma GroupsExactly(d: Db, k: StatsKey)
    ensures k in VoteGroups(d) <==> exists v :: v in d.votes && VoteCounts(d.posts, v, k)
    ensures k in PostGroups(d) <==> exists h :: h in d.posts && PostCounts(d.posts[h], k)
  {
    if k in VoteGroups(d) {
      var v :| v in d.votes && v.1 in d.posts && Effective(d.posts[v.1]).Some? && k == (v.0, Effective(d.posts[v.1]).value)
               && !(d.posts[v.1].deleted && d.posts[v.1].owner == v.0);
      assert VoteCounts(d.posts, v, k);
    }
    if exists v :: v in d.votes && VoteCounts(d.posts, v, k) {
      var v :| v in d.votes && VoteCounts(d.posts, v, k);
      assert k == (v.0, Effective(d.posts[v.1]).value);
    }
    if k in PostGroups(d) {
      var h :| h in d.posts && !d.posts[h].deleted && Effective(d.posts[h]).Some? && k == (d.posts[h].owner, Effective(d.posts[h]).value);
      assert PostCounts(d.posts[h], k);
    }
    if exists h :: h in d.posts && PostCounts(d.posts[h], k) {
      var h :| h in d.posts && PostCounts(d.posts[h], k);
      assert k == (d.posts[h].owner, Effective(d.posts[h]).value);
    }
  }

  /** A full rebuild holds exactly the canonical rows. */
  lemma RebuildIsCanonical(d: Db, k: StatsKey)
    ensures k in RebuildStats(d) <==> k in VoteGroups(d) + PostGroups(d)
    ensures k in RebuildStats(d) <==>
              (exists v :: v in d.votes && VoteCounts(d.posts, v, k)) || (exists h :: h in d.posts && PostCounts(d.posts[h], k))
    ensures Row(RebuildStats(d), k) == Canonical(d, k)
  {
    GroupsExactly(d, k);
    StatsDoNotMatter(d, map[], k);
    InsertedRows(d.(stats := map[]), VoteGroups(d) + PostGroups(d), k);
    NoGroupNoRow(d, k);
  }

  /** `_recompute_community_stats` gives the named pairs exactly the rows of a full rebuild, and
      leaves every other row as it was. */
  lemma RecomputeIsRebuild(d: Db, owners: set<Owner>, communities: set<nat>, k: StatsKey)
    ensures var s := RecomputeStats(d, owners, communities);
            if k.0 in owners && k.1 in communities
            then (k in s <==> k in RebuildStats(d)) && Row(s, k) == Row(RebuildStats(d), k) == Canonical(d, k)
            else (k in s <==> k in d.stats) && Row(s, k) == Row(d.stats, k)
  {
    RebuildIsCanonical(d, k);
    if owners != {} && communities != {} {
      var pairs := set o, c | o in owners && c in communities :: (o, c);
      assert k in pairs <==> k.0 in owners && k.1 in communities by {
        if k.0 in owners && k.1 in communities { assert (k.0, k.1) in pairs; }
      }
      StatsDoNotMatter(d, d.stats - pairs, k);
      InsertedRows(d.(stats := d.stats - pairs), pairs, k);
    }
  }

  /** If recomputing covers every pair whose canonical row changed, nothing is left stale. */
  lemma RecomputeRestores(d: Db, e: Db, owners: set<Owner>, communities: set<nat>)
    requires e.stats == d.stats
    requires forall k: StatsKey :: (k.0 in owners && k.1 in communities) || Canonical(e, k) == Canonical(d, k)
    ensures Stands(d) ==> Stands(e.(stats := RecomputeStats(e, owners, communities)))
    ensures Tallies(d) ==> Tallies(e.(stats := RecomputeStats(e, owners, communities)))
  {
    var s := RecomputeStats(e, owners, communities);
    forall k ensures (StandsAt(d, k) ==> StandsAt(e.(stats := s), k)) && (TalliesAt(d, k) ==> TalliesAt(e.(stats := s), k)) {
      RecomputeIsRebuild(e, owners, communities, k);
      StatsDoNotMatter(e, s, k);
    }
  }

  // ---- What the canonical rows depend on ----

  /** Canonical rows see a post only through its owner, its flag and its community. */
  ghost predicate SameForStats(p: Post, q: Post) {
    p.owner == q.owner && p.deleted == q.deleted && Effective(p) == Effective(q)
  }

  lemma CanonicalFrame(d: Db, e: Db, k: StatsKey)
    requires d.votes == e.votes && d.posts.Keys == e.posts.Keys
    requires forall h :: h in d.posts ==> SameForStats(d.posts[h], e.posts[h])
    ensures Canonical(d, k) == Canonical(e, k)
  {
    assert forall s :: VotesOf(e, k, s) == VotesOf(d, k, s);
    assert LivePosts(e, k) == LivePosts(d, k);
  }

  lemma CountsForStats(a: map<Hash, Post>, b: map<Hash, Post>)
    requires SameButCounts(a, b)
    ensures forall h :: h in a ==> SameForStats(a[h], b[h])
  {
    forall h | h in a ensures SameForStats(a[h], b[h]) {
      var p, q := a[h].(commentCount := 0), b[h].(commentCount := 0);
      assert p == q;
      assert SameForStats(a[h], p) && SameForStats(b[h], q);
    }
  }

  /** Two states that agree on votes, stored rows and what posts mean for them. */
  lemma StandsFrame(d: Db, e: Db)
    requires d.votes == e.votes && d.stats == e.stats && d.posts.Keys == e.posts.Keys
    requires forall h :: h in d.posts ==> SameForStats(d.posts[h], e.posts[h])
    ensures (Stands(d) <==> Stands(e)) && (Tallies(d) <==> Tallies(e))
  {
    forall k ensures (StandsAt(d, k) <==> StandsAt(e, k)) && (TalliesAt(d, k) <==> TalliesAt(e, k)) {
      CanonicalFrame(d, e, k);
    }
  }

  // ---- New posts ----

  lemma NewPostVotes(d: Db, tx: Hash, p: Post, k: StatsKey, s: int)
    requires tx !in d.posts && !p.deleted && Effective(p).Some?
    requires forall v :: v in d.votes ==> v.1 in d.posts
    ensures var e := d.(posts := d.posts[tx := p], votes := d.votes[(p.owner, tx) := 1]);
            var mine := s == 1 && k == (p.owner, Effective(p).value);
            |VotesOf(e, k, s)| == |VotesOf(d, k, s)| + if mine then 1 else 0
  {
    var v, mine := (p.owner, tx), s == 1 && k == (p.owner, Effective(p).value);
    var e := d.(posts := d.posts[tx := p], votes := d.votes[v := 1]);
    assert VoteCounts(e.posts, v, k) <==> k == (p.owner, Effective(p).value);
    forall w | w != v ensures w in VotesOf(e, k, s) <==> w in VotesOf(d, k, s) {
      assert w in d.votes ==> (VoteCounts(e.posts, w, k) <==> VoteCounts(d.posts, w, k));
    }
    assert v !in VotesOf(d, k, s);
    if mine { assert VotesOf(e, k, s) == VotesOf(d, k, s) + {v}; } else { assert VotesOf(e, k, s) == VotesOf(d, k, s); }
  }

  lemma NewPostLive(d: Db, tx: Hash, p: Post, k: StatsKey)
    requires tx !in d.posts && !p.deleted && Effective(p).Some?
    ensures var e := d.(posts := d.posts[tx := p], votes := d.votes[(p.owner, tx) := 1]);
            |LivePosts(e, k)| == |LivePosts(d, k)| + if k == (p.owner, Effective(p).value) then 1 else 0
  {
    var e := d.(posts := d.posts[tx := p], votes := d.votes[(p.owner, tx) := 1]);
    var was, now := LivePosts(d, k), LivePosts(e, k);
    assert tx !in was && (tx in now <==> PostCounts(p, k));
    forall h | h != tx ensures h in now <==> h in was { }
    if PostCounts(p, k) { assert now == was + {tx}; } else { assert now == was; }
  }

  lemma NewPostCanonical(d: Db, tx: Hash, p: Post, k: StatsKey)
    requires tx !in d.posts && !p.deleted && Effective(p).Some?
    requires forall v :: v in d.votes ==> v.1 in d.posts
    ensures var e := d.(posts := d.posts[tx := p], votes := d.votes[(p.owner, tx) := 1]);
            var was, one := Canonical(d, k), if k == (p.owner, Effective(p).value) then 1 else 0;
            Canonical(e, k) == Stats(was.voteCount + one, was.netVotes + one, was.postCount + one)
  {
    var e := d.(posts := d.posts[tx := p], votes := d.votes[(p.owner, tx) := 1]);
    NewPostVotes(d, tx, p, k, 1);
    NewPostVotes(d, tx, p, k, -1);
    NewPostLive(d, tx, p, k);
  }

  lemma UnattributedPost(d: Db, tx: Hash, p: Post, k: StatsKey)
    requires tx !in d.posts && Effective(p).None?
    requires forall v :: v in d.votes ==> v.1 in d.posts
    ensures Canonical(d.(posts := d.posts[tx := p], votes := d.votes[(p.owner, tx) := 1]), k) == Canonical(d, k)
  {
    var e := d.(posts := d.posts[tx := p], votes := d.votes[(p.owner, tx) := 1]);
    assert forall s :: VotesOf(e, k, s) == VotesOf(d, k, s);
    assert LivePosts(e, k) == LivePosts(d, k);
  }

  /** A new row, its author's vote, and the standing the handler credits, if any. */
  function WithRow(d: Db, tx: Hash, p: Post, credited: Option<nat>): Db {
    Db(d.posts[tx := p], d.votes[(p.owner, tx) := 1],
       if credited.Some? then BumpStats(d.stats, (p.owner, credited.value), 1, 1, 1) else d.stats)
  }

  lemma WithRowAt(d: Db, tx: Hash, p: Post, credited: Option<nat>, k: StatsKey)
    requires tx !in d.posts && !p.deleted && (forall v :: v in d.votes ==> v.1 in d.posts)
    ensures var one := if Effective(p) == Some(k.1) && k.0 == p.owner then 1 else 0;
            var was, now := Canonical(d, k), Canonical(WithRow(d, tx, p, credited), k);
            now == Stats(was.voteCount + one, was.netVotes + one, was.postCount + one)
    ensures var one := if credited == Some(k.1) && k.0 == p.owner then 1 else 0;
            var was, now := Row(d.stats, k), Row(WithRow(d, tx, p, credited).stats, k);
            now == Stats(was.voteCount + one, was.netVotes + one, was.postCount + one)
  {
    var e := d.(posts := d.posts[tx := p], votes := d.votes[(p.owner, tx) := 1]);
    if Effective(p).Some? { NewPostCanonical(d, tx, p, k); } else { UnattributedPost(d, tx, p, k); }
    StatsDoNotMatter(e, WithRow(d, tx, p, credited).stats, k);
  }

  /** A new row keeps the standing canonical if and only if it is credited where it counts. */
  lemma WithRowStands(d: Db, tx: Hash, p: Post, credited: Option<nat>)
    requires tx !in d.posts && !p.deleted && (forall v :: v in d.votes ==> v.1 in d.posts)
    requires credited.Some? ==> credited == Effective(p)
    ensures Stands(d) ==> (Stands(WithRow(d, tx, p, credited)) <==> credited == Effective(p))
    ensures Tallies(d) ==> (Tallies(WithRow(d, tx, p, credited)) <==> credited == Effective(p))
  {
    var e := WithRow(d, tx, p, credited);
    forall k ensures StandsAt(d, k) ==> (StandsAt(e, k) <==> credited == Effective(p) || k != (p.owner, Effective(p).value))
             ensures TalliesAt(d, k) ==> (TalliesAt(e, k) <==> credited == Effective(p) || k != (p.owner, Effective(p).value)) {
      WithRowAt(d, tx, p, credited, k);
    }
    if credited != Effective(p) {
      var k := (p.owner, Effective(p).value);
      assert (StandsAt(d, k) ==> !StandsAt(e, k)) && (TalliesAt(d, k) ==> !TalliesAt(e, k));
    }
  }

  /** For a fresh hash, in any attributed tables, indexing a post keeps standing canonical if and only
      if it is not a comment that names a community where the lookup of its parent finds none. */
  lemma PostStands(d: Db, m: Msg)
    requires Attributed(d) && m.PostMsg? && m.tx !in d.posts
    ensures Stands(d) ==> (Stands(HandlePost(d, m)) <==> !Misattributed(d, m))
    ensures Tallies(d) ==> (Tallies(HandlePost(d, m)) <==> !Misattributed(d, m))
  {
    var root, p := RootForNew(d.posts, m), NewPost(d, m);
    var before := d.(posts := root.posts);
    var e := WithRow(before, m.tx, p, KeyOpt(root.community));
    PostTables(d, m);
    StandsFrame(d, before);
    WithRowStands(before, m.tx, p, KeyOpt(root.community));
    PostIsWithRow(d, m);
    BumpStands(e, m.target, 1);
  }

  lemma PostIsWithRow(d: Db, m: Msg)
    requires Attributed(d) && m.PostMsg? && m.tx !in d.posts
    ensures var root := RootForNew(d.posts, m);
            var e := WithRow(d.(posts := root.posts), m.tx, NewPost(d, m), KeyOpt(root.community));
            HandlePost(d, m) == e.(posts := BumpAncestors(e.posts, m.target, 1))
  {
    PostTables(d, m);
  }

  lemma BumpStands(d: Db, start: Option<Hash>, delta: int)
    ensures var e := d.(posts := BumpAncestors(d.posts, start, delta));
            (Stands(d) <==> Stands(e)) && (Tallies(d) <==> Tallies(e))
  {
    var e := d.(posts := BumpAncestors(d.posts, start, delta));
    BumpSameButCounts(d.posts, start, delta);
    CountsForStats(d.posts, e.posts);
    StandsFrame(d, e);
  }

  // ---- Votes ----

  function Size(v: int): int { if v == 0 then 0 else 1 }

  lemma VotesOfUpdate(d: Db, v: (Owner, Hash), direction: int, k: StatsKey, s: int)
    requires -1 <= direction <= 1 && s != 0
    ensures var e, counts := d.(votes := d.votes[v := direction]), VoteCounts(d.posts, v, k);
            |VotesOf(e, k, s)| == |VotesOf(d, k, s)| + (if counts && direction == s then 1 else 0)
                                                     - (if counts && PreviousVote(d, v) == s then 1 else 0)
  {
    var e, counts := d.(votes := d.votes[v := direction]), VoteCounts(d.posts, v, k);
    var was, now := VotesOf(d, k, s), VotesOf(e, k, s);
    assert v in was <==> counts && PreviousVote(d, v) == s;
    assert v in now <==> counts && direction == s;
    assert was - {v} == now - {v};
    Without(was, v);
    Without(now, v);
  }

  lemma Without<T>(s: set<T>, x: T)
    ensures |s| == |s - {x}| + if x in s then 1 else 0
  {
    if x in s { assert s == (s - {x}) + {x}; } else { assert s - {x} == s; }
  }

  lemma VoteCanonical(d: Db, v: (Owner, Hash), direction: int, k: StatsKey)
    requires -1 <= direction <= 1
    ensures var e := d.(votes := d.votes[v := direction]);
            var was, before := Canonical(d, k), PreviousVote(d, v);
            Canonical(e, k) ==
              if VoteCounts(d.posts, v, k)
              then Stats(was.voteCount + Size(direction) - Size(before), was.netVotes + direction - before, was.postCount)
              else was
  {
    VotesOfUpdate(d, v, direction, k, 1);
    VotesOfUpdate(d, v, direction, k, -1);
    assert LivePosts(d.(votes := d.votes[v := direction]), k) == LivePosts(d, k);
  }

  /** The increment the handler applies to the vote count. */
  function TallyIncrement(d: Db, m: Msg): int
    requires m.VoteMsg?
  {
    if m.direction != 0 && (m.owner, m.post) !in d.votes then 1 else 0
  }

  /** The handler changes one row, in the community the lookup finds. */
  lemma VoteDelta(d: Db, m: Msg, k: StatsKey)
    requires m.VoteMsg? && VoteApplies(d, m)
    ensures var e, before := HandleVote(d, m), PreviousVote(d, (m.owner, m.post));
            var was, now := Row(d.stats, k), Row(e.stats, k);
            now == if k.0 == m.owner && Lookup(d.posts, m.post) == Some(k.1)
                   then Stats(was.voteCount + TallyIncrement(d, m), was.netVotes + m.direction - before, was.postCount)
                   else was
  {
  }

  /** The canonical rows change in one place, the community where the vote counts. */
  lemma VoteMeans(d: Db, m: Msg, k: StatsKey)
    requires Attributed(d) && m.VoteMsg? && VoteApplies(d, m)
    ensures var e, before := HandleVote(d, m), PreviousVote(d, (m.owner, m.post));
            var was := Canonical(d, k);
            Canonical(e, k) == if k.0 == m.owner && Home(d, m) == Some(k.1)
                               then Stats(was.voteCount + Size(m.direction) - Size(before), was.netVotes + m.direction - before, was.postCount)
                               else was
  {
    var e, v := HandleVote(d, m), (m.owner, m.post);
    LookupFrame(d.posts, m.post, MAX_DEPTH);
    VoteCanonical(d, v, m.direction, k);
    CanonicalFrame(d.(votes := e.votes), e.(stats := d.stats), k);
    StatsDoNotMatter(e.(stats := d.stats), e.stats, k);
  }

  /** A vote keeps net votes and post counts canonical, unless it is changed on a post for which the
      lookup finds another community than the one where the vote counts. */
  lemma VoteStands(d: Db, m: Msg)
    requires Attributed(d) && m.VoteMsg? && Stands(d)
    ensures Stands(HandleVote(d, m)) <==> !Misattributed(d, m)
  {
    if VoteApplies(d, m) {
      var e := HandleVote(d, m);
      var found, home := Lookup(d.posts, m.post), Home(d, m);
      forall k ensures StandsAt(e, k) <==>
        m.direction == PreviousVote(d, (m.owner, m.post)) || k.0 != m.owner || (found == Some(k.1) <==> home == Some(k.1))
      {
        VoteDelta(d, m, k);
        VoteMeans(d, m, k);
        assert StandsAt(d, k);
      }
      if Misattributed(d, m) {
        var c := if found.Some? then found.value else home.value;
        assert !StandsAt(e, (m.owner, c));
      }
    }
  }

  /** What the handler adds to the vote count where the lookup finds the post is what the canonical count
      gains where the vote counts. */
  predicate TallyKept(d: Db, m: Msg)
    requires m.VoteMsg?
  {
    VoteApplies(d, m) ==>
      var found, home := Lookup(d.posts, m.post), Home(d, m);
      var added, due := TallyIncrement(d, m), Size(m.direction) - Size(PreviousVote(d, (m.owner, m.post)));
      if found == home then home.None? || added == due else (found.None? || added == 0) && (home.None? || due == 0)
  }

  lemma VoteTallyAt(d: Db, m: Msg, k: StatsKey)
    requires Attributed(d) && m.VoteMsg? && VoteApplies(d, m) && TalliesAt(d, k)
    ensures var added, due := TallyIncrement(d, m), Size(m.direction) - Size(PreviousVote(d, (m.owner, m.post)));
            TalliesAt(HandleVote(d, m), k) <==>
              k.0 != m.owner ||
              (if Lookup(d.posts, m.post) == Some(k.1) then added else 0) == (if Home(d, m) == Some(k.1) then due else 0)
  {
    VoteDelta(d, m, k);
    VoteMeans(d, m, k);
  }

  /** In any attributed tables, a vote keeps the vote counts canonical if and only if that is so. */
  lemma VoteTallies(d: Db, m: Msg)
    requires Attributed(d) && m.VoteMsg? && Tallies(d)
    ensures Tallies(HandleVote(d, m)) <==> TallyKept(d, m)
  {
    if VoteApplies(d, m) {
      var e, found, home := HandleVote(d, m), Lookup(d.posts, m.post), Home(d, m);
      if TallyKept(d, m) {
        forall k ensures TalliesAt(e, k) {
          assert TalliesAt(d, k);
          VoteTallyAt(d, m, k);
        }
      } else {
        var wrong := if found.Some? && (found != home ==> TallyIncrement(d, m) != 0) then found.value else home.value;
        assert TalliesAt(d, (m.owner, wrong));
        VoteTallyAt(d, m, (m.owner, wrong));
      }
    }
  }

  /** A vote that withdraws a counting vote, or renews a withdrawn one. */
  predicate Withdraws(d: Db, m: Msg)
    requires m.VoteMsg?
  {
    && VoteApplies(d, m) && Home(d, m).Some? && (m.owner, m.post) in d.votes
    && (m.direction == 0) != (PreviousVote(d, (m.owner, m.post)) == 0)
  }

  /** Where lookup and row agree, only such votes are miscounted. */
  lemma OnlyWithdrawals(d: Db, m: Msg)
    requires Attributed(d) && m.VoteMsg?
    requires VoteApplies(d, m) ==> Lookup(d.posts, m.post) == Effective(d.posts[m.post])
    ensures TallyKept(d, m) <==> !Withdraws(d, m)
  {
  }

  // ---- Deletes ----

  /** Deleting posts changes canonical rows only of their owners in their communities. */
  lemma DeleteCanonical(d: Db, gone: set<Hash>, k: StatsKey)
    requires !(k.0 in OwnersOf(d.posts, gone) && k.1 in CommunitiesOf(d.posts, gone))
    ensures Canonical(d.(posts := MarkDeleted(d.posts, gone)), k) == Canonical(d, k)
  {
    var e := d.(posts := MarkDeleted(d.posts, gone));
    forall h | h in gone && h in d.posts ensures !(d.posts[h].owner == k.0 && Effective(d.posts[h]) == Some(k.1)) {
    }
    assert forall s :: VotesOf(e, k, s) == VotesOf(d, k, s);
    assert LivePosts(e, k) == LivePosts(d, k);
  }

  /** A delete leaves the whole table canonical, in any tables. */
  lemma DeleteStands(d: Db, m: Msg)
    requires m.DeleteMsg?
    ensures Stands(d) ==> Stands(HandleDelete(d, m))
    ensures Tallies(d) ==> Tallies(HandleDelete(d, m))
  {
    if DeleteApplies(d, m) {
      if Effective(d.posts[m.post]).Some? {
        SubtreeStands(d, m.post, Gone(d.posts, m.post));
      } else {
        LoneStands(d, m.post);
      }
    }
  }

  lemma LoneStands(d: Db, h: Hash)
    requires h in d.posts && Effective(d.posts[h]).None?
    ensures var e := d.(posts := MarkDeleted(d.posts, {h}));
            (Stands(d) ==> Stands(e)) && (Tallies(d) ==> Tallies(e))
  {
    var e := d.(posts := MarkDeleted(d.posts, {h}));
    forall k ensures (StandsAt(d, k) ==> StandsAt(e, k)) && (TalliesAt(d, k) ==> TalliesAt(e, k)) {
      DeleteCanonical(d, {h}, k);
    }
  }

  lemma SubtreeStands(d: Db, h: Hash, gone: set<Hash>)
    requires h in d.posts
    ensures Stands(d) ==> Stands(DeleteSubtree(d, h, gone))
    ensures Tallies(d) ==> Tallies(DeleteSubtree(d, h, gone))
  {
    var e := d.(posts := DeletedPosts(d.posts, h, gone));
    var marked := d.(posts := MarkDeleted(d.posts, gone));
    DeletedShape(d.posts, h, gone);
    CountsForStats(marked.posts, e.posts);
    SameAttribution(d.posts, e.posts, gone);
    forall k: StatsKey
      ensures (k.0 in OwnersOf(e.posts, gone) && k.1 in CommunitiesOf(e.posts, gone)) || Canonical(e, k) == Canonical(d, k)
    {
      if !(k.0 in OwnersOf(e.posts, gone) && k.1 in CommunitiesOf(e.posts, gone)) {
        DeleteCanonical(d, gone, k);
        CanonicalFrame(marked, e, k);
      }
    }
    RecomputeRestores(d, e, OwnersOf(e.posts, gone), CommunitiesOf(e.posts, gone));
  }

  lemma SameAttribution(a: map<Hash, Post>, b: map<Hash, Post>, hs: set<Hash>)
    requires SameShape(a, b)
    ensures OwnersOf(a, hs) == OwnersOf(b, hs) && CommunitiesOf(a, hs) == CommunitiesOf(b, hs)
  {
    forall h | h in a ensures a[h].owner == b[h].owner && Effective(a[h]) == Effective(b[h]) {
      ShapeAt(a, b, h);
    }
  }

  // ---- Edits ----

  /** `posts` is the table after the thread of `root` went from community `from` to `to`. */
  ghost predicate Moved(d: Db, posts: map<Hash, Post>, root: Hash, from: Option<nat>, to: nat) {
    && posts.Keys == d.posts.Keys
    && forall h :: h in posts ==>
         if posts[h].rootPost != Some(root) then SameForStats(d.posts[h], posts[h])
         else && d.posts[h].owner == posts[h].owner && d.posts[h].deleted == posts[h].deleted
              && Effective(d.posts[h]) == from && Effective(posts[h]) == Some(to)
  }

  lemma MoveCanonical(d: Db, posts: map<Hash, Post>, root: Hash, from: Option<nat>, to: nat, k: StatsKey)
    requires Moved(d, posts, root, from, to)
    requires !(k.0 in ThreadOwners(d.(posts := posts), root) && (Some(k.1) == from || k.1 == to))
    ensures Canonical(d.(posts := posts), k) == Canonical(d, k)
  {
    var e := d.(posts := posts);
    forall v | v in d.votes ensures VoteCounts(posts, v, k) <==> VoteCounts(d.posts, v, k) {
      if v.1 in posts && posts[v.1].rootPost == Some(root) { assert v.1 in ThreadOf(posts, root); }
    }
    forall h | h in posts ensures PostCounts(posts[h], k) <==> PostCounts(d.posts[h], k) {
      if posts[h].rootPost == Some(root) { assert h in ThreadOf(posts, root); }
    }
    assert forall s :: VotesOf(e, k, s) == VotesOf(d, k, s);
    assert LivePosts(e, k) == LivePosts(d, k);
  }

  /** The communities recomputed after a move. */
  function Ends(from: Option<nat>, to: nat): set<nat> {
    {to} + if from.Some? then {from.value} else {}
  }

  lemma MoveStands(d: Db, posts: map<Hash, Post>, root: Hash, from: Option<nat>, to: nat)
    requires Moved(d, posts, root, from, to)
    ensures var e := d.(posts := posts);
            var f := e.(stats := RecomputeStats(e, ThreadOwners(e, root), Ends(from, to)));
            (Stands(d) ==> Stands(f)) && (Tallies(d) ==> Tallies(f))
  {
    var e := d.(posts := posts);
    forall k: StatsKey
      ensures (k.0 in ThreadOwners(e, root) && k.1 in Ends(from, to)) || Canonical(e, k) == Canonical(d, k)
    {
      if !(k.0 in ThreadOwners(e, root) && k.1 in Ends(from, to)) { MoveCanonical(d, posts, root, from, to, k); }
    }
    RecomputeRestores(d, e, ThreadOwners(e, root), Ends(from, to));
  }

  /** A live post that changes community without a recompute spoils its author's standing. */
  lemma LivePostMoves(d: Db, h: Hash, p: Post)
    requires h in d.posts && !d.posts[h].deleted && !p.deleted && p.owner == d.posts[h].owner
    requires Effective(p).Some? && Effective(p) != Effective(d.posts[h])
    ensures var k := (p.owner, Effective(p).value);
            Canonical(d.(posts := d.posts[h := p]), k).postCount == Canonical(d, k).postCount + 1
  {
    var k := (p.owner, Effective(p).value);
    var e := d.(posts := d.posts[h := p]);
    assert h !in LivePosts(d, k);
    assert LivePosts(e, k) == LivePosts(d, k) + {h};
  }

  /** Nobody's vote on the post stands. */
  ghost predicate Unvoted(d: Db, h: Hash) {
    forall v :: v in d.votes && v.1 == h ==> Direction(d.votes[v]) == 0
  }

  /** What a live post brings into its first community: the standing votes on it. */
  lemma VotesArrive(d: Db, h: Hash, p: Post, k: StatsKey, s: int)
    requires h in d.posts && !d.posts[h].deleted && !p.deleted && p.owner == d.posts[h].owner
    requires Effective(p).Some? && Effective(d.posts[h]).None?
    ensures var v := (k.0, h);
            |VotesOf(d.(posts := d.posts[h := p]), k, s)| == |VotesOf(d, k, s)|
              + if Effective(p) == Some(k.1) && v in d.votes && Direction(d.votes[v]) == s then 1 else 0
  {
    var v, e := (k.0, h), d.(posts := d.posts[h := p]);
    var was, now := VotesOf(d, k, s), VotesOf(e, k, s);
    assert v !in was;
    forall w | w != v ensures w in now <==> w in was { }
    if v in now { assert now == was + {v}; } else { assert now == was; }
  }

  lemma ArrivalTallies(d: Db, h: Hash, p: Post)
    requires h in d.posts && !d.posts[h].deleted && !p.deleted && p.owner == d.posts[h].owner
    requires Effective(p).Some? && Effective(d.posts[h]).None? && Tallies(d)
    ensures Tallies(d.(posts := d.posts[h := p])) <==> Unvoted(d, h)
  {
    var e := d.(posts := d.posts[h := p]);
    forall k ensures TalliesAt(e, k) <==>
      Effective(p) != Some(k.1) || (k.0, h) !in d.votes || Direction(d.votes[(k.0, h)]) == 0
    {
      VotesArrive(d, h, p, k, 1);
      VotesArrive(d, h, p, k, -1);
      assert TalliesAt(d, k);
    }
    if !Unvoted(d, h) {
      var v :| v in d.votes && v.1 == h && Direction(d.votes[v]) != 0;
      assert !TalliesAt(e, (v.0, Effective(p).value));
    }
  }

  /** A live row replaced without a recompute keeps the standing canonical if and only if it stays in
      its community. */
  lemma ReplacedStands(d: Db, h: Hash, p: Post)
    requires h in d.posts && !d.posts[h].deleted && !p.deleted && p.owner == d.posts[h].owner
    requires Effective(p).None? ==> Effective(d.posts[h]).None?
    ensures var e := d.(posts := d.posts[h := p]);
            && (Stands(d) ==> (Stands(e) <==> Effective(p) == Effective(d.posts[h])))
            && (Tallies(d) && Effective(p) == Effective(d.posts[h]) ==> Tallies(e))
  {
    var e := d.(posts := d.posts[h := p]);
    if Effective(p) == Effective(d.posts[h]) {
      StandsFrame(d, e);
    } else {
      var k := (p.owner, Effective(p).value);
      LivePostMoves(d, h, p);
      assert StandsAt(d, k) ==> !StandsAt(e, k);
    }
  }

  /** Editing a comment keeps the standing canonical, unless the lookup finds another community. */
  lemma CommentEditStands(d: Db, m: Msg)
    requires Attributed(d) && m.EditMsg? && EditApplies(d, m) && d.posts[m.post].target.Some?
    ensures Stands(d) ==> (Stands(HandleEdit(d, m)) <==> !Misattributed(d, m))
    ensures Tallies(d) ==> (Tallies(HandleEdit(d, m)) <==> !Misattributed(d, m) || Unvoted(d, m.post))
  {
    var before := d.(posts := FindRoot(d.posts, d.posts[m.post].target.value, MAX_DEPTH).posts);
    var p := EditedComment(d, m.post);
    CommentEdit(d, m);
    StandsFrame(d, before);
    CommentEditKeeps(d, m);
    ReplacedStands(before, m.post, p);
    if Tallies(d) && Misattributed(d, m) { ArrivalTallies(before, m.post, p); }
  }

  /** The thread of an edited root, moved. */
  lemma RootEditMoves(d: Db, h: Hash, row: Post, to: Name)
    requires Attributed(d) && h in d.posts && !d.posts[h].deleted && d.posts[h].target.None?
    requires row.owner == d.posts[h].owner && !row.deleted && row.rootPost == Some(h)
    ensures Moved(d, MovedPosts(d.posts[h := row], h, to), h, KeyOpt(d.posts[h].community), to.key)
  {
    var posts := MovedPosts(d.posts[h := row], h, to);
    RootRow(d.posts, h);
    forall x | x in posts && posts[x].rootPost == Some(h) ensures Effective(d.posts[x]) == KeyOpt(d.posts[h].community) {
      assert AttributedAt(d.posts, x);
    }
  }

  lemma RootEditStands(d: Db, m: Msg)
    requires Attributed(d) && m.EditMsg? && EditApplies(d, m) && d.posts[m.post].target.None?
    ensures Stands(d) ==> Stands(HandleEdit(d, m))
    ensures Tallies(d) ==> Tallies(HandleEdit(d, m))
  {
    var h, row := m.post, EditedRoot(d, m);
    RootEdit(d, m);
    RootRow(d.posts, h);
    if Moves(d, m) {
      var from, to := KeyOpt(d.posts[h].community), m.community.value;
      RootEditMoves(d, h, row, to);
      MoveStands(d, MovedPosts(d.posts[h := row], h, to), h, from, to.key);
    } else {
      StandsFrame(d, HandleEdit(d, m));
    }
  }

  /** An edit keeps the standing canonical, unless it is a comment's whose lookup finds another community
      than its own; such an edit keeps the vote counts only if no vote on the comment stands. */
  lemma EditStands(d: Db, m: Msg)
    requires Attributed(d) && m.EditMsg?
    ensures Stands(d) ==> (Stands(HandleEdit(d, m)) <==> !Misattributed(d, m))
    ensures Tallies(d) ==> (Tallies(HandleEdit(d, m)) <==> !Misattributed(d, m) || Unvoted(d, m.post))
  {
    if EditApplies(d, m) {
      if d.posts[m.post].target.Some? { CommentEditStands(d, m); } else { RootEditStands(d, m); }
    }
  }

  /** A message after which the vote counts are wrong: a comment that names a community where the lookup
      finds none, a vote that adds elsewhere or otherwise than it counts, or an edit that brings a comment
      with standing votes into a community. */
  ghost predicate Mistallied(d: Db, m: Msg) {
    match m
    case PostMsg(_, _, _, _) => Misattributed(d, m)
    case VoteMsg(_, _, _) => !TallyKept(d, m)
    case EditMsg(_, h, _, _) => Misattributed(d, m) && !Unvoted(d, h)
    case DeleteMsg(_, _) => false
  }

  /** After an edit or a delete, the whole table reads as a full rebuild would leave it, if it did before. */
  lemma StandsIsRebuilt(d: Db)
    ensures Stands(d) <==> forall k :: Row(d.stats, k).netVotes == Row(RebuildStats(d), k).netVotes
                                       && Row(d.stats, k).postCount == Row(RebuildStats(d), k).postCount
  {
    forall k ensures Row(RebuildStats(d), k) == Canonical(d, k) {
      RebuildIsCanonical(d, k);
    }
    if forall k :: Row(d.stats, k).netVotes == Row(RebuildStats(d), k).netVotes
                   && Row(d.stats, k).postCount == Row(RebuildStats(d), k).postCount {
      forall k ensures StandsAt(d, k) {
        assert Row(d.stats, k).netVotes == Row(RebuildStats(d), k).netVotes;
      }
    } else {
      var k :| !(Row(d.stats, k).netVotes == Row(RebuildStats(d), k).netVotes
                 && Row(d.stats, k).postCount == Row(RebuildStats(d), k).postCount);
      assert !StandsAt(d, k);
    }
  }
}

