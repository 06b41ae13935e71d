/** Whole runs of posts, votes, edits and deletes on an empty database. */
module Runs {
  import opened Forest
  import opened Tables
  import opened Threads
  import opened Attribution
  import opened Orderly
  import opened Standing
  import opened Counts
  import opened Effects
  import opened Wrappers

  /** Every new post in the run is fresh, and has a community or an indexed parent when its turn comes. */
  ghost predicate Indexed(ms: seq<Msg>) {
    forall n :: 0 <= n < |ms| ==> Ready(Run(ms[..n]), ms[n])
  }

  /** No post in the run reuses a hash. */
  ghost predicate Fresh(ms: seq<Msg>) {
    forall n :: 0 <= n < |ms| && ms[n].PostMsg? ==> ms[n].tx !in Run(ms[..n]).posts
  }

  lemma RunLast(ms: seq<Msg>, n: nat)
    requires n < |ms|
    ensures Run(ms[..n + 1]) == Step(Run(ms[..n]), ms[n])
  {
    assert ms[..n + 1][..n] == ms[..n];
  }

  // ---- Threads ----

  lemma EmptyThreaded()
    ensures Threaded(EMPTY) && Stands(EMPTY) && Tallies(EMPTY)
    ensures Counted(EMPTY.posts) && AllInReach(EMPTY.posts) && NoCircle(EMPTY.posts)
  {
    assert Ranked(ParentsOf(EMPTY.posts), map[]);
    assert Ordered(ParentsOf(EMPTY.posts), LiveOf(EMPTY.posts), map[]);
    forall k ensures StandsAt(EMPTY, k) && TalliesAt(EMPTY, k) {
      assert VotesOf(EMPTY, k, 1) == {} && VotesOf(EMPTY, k, -1) == {} && LivePosts(EMPTY, k) == {};
    }
  }

  /** After every prefix of a run, each post stores the root of its thread and the root's community. */
  lemma {:induction false} RunThreads(ms: seq<Msg>, n: nat)
    requires Indexed(ms) && n <= |ms|
    ensures Threaded(Run(ms[..n]))
  {
    if n == 0 {
      EmptyThreaded();
    } else {
      RunThreads(ms, n - 1);
      RunLast(ms, n - 1);
      StepKeepsThreads(Run(ms[..n - 1]), ms[n - 1]);
    }
  }

  // ---- Standing ----

  /** One message, in any attributed tables: the standing stays canonical if and only if the handler
      acts for the community that the rows say. */
  lemma StepStands(d: Db, m: Msg)
    requires Attributed(d) && Stands(d) && (m.PostMsg? ==> m.tx !in d.posts)
    ensures Stands(Step(d, m)) <==> !Misattributed(d, m)
  {
    match m {
      case PostMsg(_, _, _, _) => PostStands(d, m);
      case VoteMsg(_, _, _) => VoteStands(d, m);
      case EditMsg(_, _, _, _) => EditStands(d, m);
      case DeleteMsg(_, _) => DeleteStands(d, m);
    }
  }

  /** No message before the `n`-th acts for the wrong community. */
  ghost predicate AttributedUpTo(ms: seq<Msg>, n: nat)
    requires n <= |ms|
  {
    forall k :: 0 <= k < n ==> !Misattributed(Run(ms[..k]), ms[k])
  }

  lemma {:induction false} RunStandsAt(ms: seq<Msg>, n: nat)
    requires Fresh(ms) && n <= |ms| && AttributedUpTo(ms, n)
    ensures Attributed(Run(ms[..n])) && Stands(Run(ms[..n]))
  {
    if n == 0 {
      EmptyThreaded();
    } else {
      RunStandsAt(ms, n - 1);
      RunLast(ms, n - 1);
      StepStands(Run(ms[..n - 1]), ms[n - 1]);
      StepKeeps(Run(ms[..n - 1]), ms[n - 1]);
    }
  }

  lemma {:induction false} FirstMisattributed(ms: seq<Msg>, n: nat) returns (k: nat)
    requires n <= |ms| && !AttributedUpTo(ms, n)
    ensures k < n && Misattributed(Run(ms[..k]), ms[k]) && AttributedUpTo(ms, k)
  {
    if AttributedUpTo(ms, n - 1) { k := n - 1; } else { k := FirstMisattributed(ms, n - 1); }
  }

  lemma BreaksNext(ms: seq<Msg>, n: nat)
    requires Fresh(ms) && n < |ms| && AttributedUpTo(ms, n) && Misattributed(Run(ms[..n]), ms[n])
    ensures !Stands(Run(ms[..n + 1]))
  {
    RunStandsAt(ms, n);
    RunLast(ms, n);
    StepStands(Run(ms[..n]), ms[n]);
  }

  /** For every run with fresh hashes, whatever replies to whatever: net votes and post counts are
      canonical after every prefix if and only if no message acts for the wrong community. */
  lemma RunStandsExactly(ms: seq<Msg>)
    requires Fresh(ms)
    ensures (forall n :: 0 <= n <= |ms| ==> Stands(Run(ms[..n]))) <==> AttributedUpTo(ms, |ms|)
  {
    if AttributedUpTo(ms, |ms|) {
      forall n | 0 <= n <= |ms| ensures Stands(Run(ms[..n])) { RunStandsAt(ms, n); }
    } else {
      var k := FirstMisattributed(ms, |ms|);
      BreaksNext(ms, k);
    }
  }

  /** Every new post in the run is placed when its turn comes: no parent comes after its reply, and
      roots name a community. */
  ghost predicate InOrder(ms: seq<Msg>) {
    forall n :: 0 <= n < |ms| ==> Placed(Run(ms[..n]), ms[n])
  }

  lemma InOrderIsFresh(ms: seq<Msg>)
    requires InOrder(ms)
    ensures Fresh(ms)
  {
    forall n | 0 <= n < |ms| && ms[n].PostMsg? ensures ms[n].tx !in Run(ms[..n]).posts {
      assert Placed(Run(ms[..n]), ms[n]);
    }
  }

  /** No comment before the `n`-th message names a community under a parent without a root. */
  ghost predicate OrphansUnnamed(ms: seq<Msg>, n: nat)
    requires n <= |ms|
  {
    forall k :: 0 <= k < n ==> !NamedOrphan(Run(ms[..k]), ms[k])
  }

  lemma {:induction false} RunSettles(ms: seq<Msg>, n: nat)
    requires InOrder(ms) && n <= |ms| && OrphansUnnamed(ms, n)
    ensures Settled(Run(ms[..n]))
  {
    if n == 0 {
      EmptyThreaded();
    } else {
      RunSettles(ms, n - 1);
      RunLast(ms, n - 1);
      StepSettles(Run(ms[..n - 1]), ms[n - 1]);
    }
  }

  lemma {:induction false} FirstNamed(ms: seq<Msg>, n: nat) returns (k: nat)
    requires n <= |ms| && !OrphansUnnamed(ms, n)
    ensures k < n && NamedOrphan(Run(ms[..k]), ms[k]) && OrphansUnnamed(ms, k)
  {
    if OrphansUnnamed(ms, n - 1) { k := n - 1; } else { k := FirstNamed(ms, n - 1); }
  }

  /** What can go wrong in such a run. */
  predicate Breaks(d: Db, m: Msg) {
    BreaksStanding(d, m) || NamedOrphan(d, m)
  }

  lemma MisattributedIs(ms: seq<Msg>, n: nat)
    requires InOrder(ms) && n < |ms| && OrphansUnnamed(ms, n)
    ensures Misattributed(Run(ms[..n]), ms[n]) <==> Breaks(Run(ms[..n]), ms[n])
  {
    RunSettles(ms, n);
    OnlyOwnVotes(Run(ms[..n]), ms[n]);
  }

  /** In a run where no parent comes after its reply and roots name a community, orphans and their replies
      included: net votes and post counts are canonical after every prefix, if and only if no author
      changes the vote on an already deleted post of their own, and no comment names a community under a
      parent that is missing or has no root. */
  lemma RunStands(ms: seq<Msg>)
    requires InOrder(ms)
    ensures (forall n :: 0 <= n <= |ms| ==> Stands(Run(ms[..n])))
            <==> forall n :: 0 <= n < |ms| ==> !Breaks(Run(ms[..n]), ms[n])
  {
    InOrderIsFresh(ms);
    RunStandsExactly(ms);
    if OrphansUnnamed(ms, |ms|) {
      forall n | 0 <= n < |ms| ensures Misattributed(Run(ms[..n]), ms[n]) <==> Breaks(Run(ms[..n]), ms[n]) {
        MisattributedIs(ms, n);
      }
    } else {
      var k := FirstNamed(ms, |ms|);
      MisattributedIs(ms, k);
    }
  }

  /** Runs in which a comment's parent is indexed first are such runs, without named orphans. */
  lemma IndexedInOrder(ms: seq<Msg>)
    requires Indexed(ms)
    ensures InOrder(ms) && OrphansUnnamed(ms, |ms|)
  {
    forall n | 0 <= n < |ms| ensures Placed(Run(ms[..n]), ms[n]) && !NamedOrphan(Run(ms[..n]), ms[n]) {
      RunThreads(ms, n);
      ReadyIsPlaced(Run(ms[..n]), ms[n]);
    }
  }

  // ---- Vote counts ----

  /** One message, in any attributed tables: the vote counts stay canonical if and only if the message is
      not one that miscounts votes. */
  lemma StepTallies(d: Db, m: Msg)
    requires Attributed(d) && Tallies(d) && (m.PostMsg? ==> m.tx !in d.posts)
    ensures Tallies(Step(d, m)) <==> !Mistallied(d, m)
  {
    match m {
      case PostMsg(_, _, _, _) => PostStands(d, m);
      case VoteMsg(_, _, _) => VoteTallies(d, m);
      case EditMsg(_, _, _, _) => EditStands(d, m);
      case DeleteMsg(_, _) => DeleteStands(d, m);
    }
  }

  /** No message before the `n`-th makes a vote count wrong. */
  ghost predicate TalliedUpTo(ms: seq<Msg>, n: nat)
    requires n <= |ms|
  {
    forall k :: 0 <= k < n ==> !Mistallied(Run(ms[..k]), ms[k])
  }

  lemma {:induction false} RunTalliesAt(ms: seq<Msg>, n: nat)
    requires Fresh(ms) && n <= |ms| && TalliedUpTo(ms, n)
    ensures Attributed(Run(ms[..n])) && Tallies(Run(ms[..n]))
  {
    if n == 0 {
      EmptyThreaded();
    } else {
      RunTalliesAt(ms, n - 1);
      RunLast(ms, n - 1);
      StepTallies(Run(ms[..n - 1]), ms[n - 1]);
      StepKeeps(Run(ms[..n - 1]), ms[n - 1]);
    }
  }

  lemma {:induction false} FirstUntallied(ms: seq<Msg>, n: nat) returns (k: nat)
    requires n <= |ms| && !TalliedUpTo(ms, n)
    ensures k < n && Mistallied(Run(ms[..k]), ms[k]) && TalliedUpTo(ms, k)
  {
    if TalliedUpTo(ms, n - 1) { k := n - 1; } else { k := FirstUntallied(ms, n - 1); }
  }

  lemma MistallyNext(ms: seq<Msg>, n: nat)
    requires Fresh(ms) && n < |ms| && TalliedUpTo(ms, n) && Mistallied(Run(ms[..n]), ms[n])
    ensures !Tallies(Run(ms[..n + 1]))
  {
    RunTalliesAt(ms, n);
    RunLast(ms, n);
    StepTallies(Run(ms[..n]), ms[n]);
  }

  /** For every run with fresh hashes, whatever replies to whatever: the vote counts are canonical after
      every prefix if and only if no message miscounts votes. */
  lemma RunTalliesExactly(ms: seq<Msg>)
    requires Fresh(ms)
    ensures (forall n :: 0 <= n <= |ms| ==> Tallies(Run(ms[..n]))) <==> TalliedUpTo(ms, |ms|)
  {
    if TalliedUpTo(ms, |ms|) {
      forall n | 0 <= n <= |ms| ensures Tallies(Run(ms[..n])) { RunTalliesAt(ms, n); }
    } else {
      var k := FirstUntallied(ms, |ms|);
      MistallyNext(ms, k);
    }
  }

  /** What can go wrong with vote counts in ordered runs: a named orphan, or a vote that withdraws a
      counting vote or renews a withdrawn one. */
  predicate BreaksTally(d: Db, m: Msg) {
    NamedOrphan(d, m) || (m.VoteMsg? && Withdraws(d, m))
  }

  lemma MistalliedIs(ms: seq<Msg>, n: nat)
    requires InOrder(ms) && n < |ms| && OrphansUnnamed(ms, n)
    ensures Mistallied(Run(ms[..n]), ms[n]) <==> BreaksTally(Run(ms[..n]), ms[n])
  {
    var d, m := Run(ms[..n]), ms[n];
    RunSettles(ms, n);
    OnlyOwnVotes(d, m);
    if m.VoteMsg? {
      LookupAgrees(d, m.post);
      OnlyWithdrawals(d, m);
    }
  }

  /** In a run where no parent comes after its reply and roots name a community, the vote counts are
      canonical after every prefix, if and only if no vote withdraws a counting vote or renews a withdrawn
      one, and no orphan names a community. */
  lemma RunTallies(ms: seq<Msg>)
    requires InOrder(ms)
    ensures (forall n :: 0 <= n <= |ms| ==> Tallies(Run(ms[..n])))
            <==> forall n :: 0 <= n < |ms| ==> !BreaksTally(Run(ms[..n]), ms[n])
  {
    InOrderIsFresh(ms);
    RunTalliesExactly(ms);
    if OrphansUnnamed(ms, |ms|) {
      forall n | 0 <= n < |ms| ensures Mistallied(Run(ms[..n]), ms[n]) <==> BreaksTally(Run(ms[..n]), ms[n]) {
        MistalliedIs(ms, n);
      }
    } else {
      var k := FirstNamed(ms, |ms|);
      MistalliedIs(ms, k);
    }
  }

  /** Without withdrawals no stored vote is zero. */
  ghost predicate NoneWithdrawn(d: Db) {
    forall v :: v in d.votes ==> d.votes[v] != 0
  }

  lemma StepWithdraws(d: Db, m: Msg)
    requires NoneWithdrawn(d) && !(m.VoteMsg? && m.direction == 0)
    ensures NoneWithdrawn(Step(d, m))
  {
  }

  lemma {:induction false} NeverWithdrawn(ms: seq<Msg>, n: nat)
    requires n <= |ms| && forall k :: 0 <= k < n ==> !(ms[k].VoteMsg? && ms[k].direction == 0)
    ensures NoneWithdrawn(Run(ms[..n]))
  {
    if n > 0 {
      NeverWithdrawn(ms, n - 1);
      RunLast(ms, n - 1);
      StepWithdraws(Run(ms[..n - 1]), ms[n - 1]);
    }
  }

  /** A run without clearing votes is right as long as no orphan names a community. */
  lemma UnwithdrawnTallies(ms: seq<Msg>, n: nat)
    requires InOrder(ms) && n <= |ms| && OrphansUnnamed(ms, n)
    requires forall k :: 0 <= k < n ==> !(ms[k].VoteMsg? && ms[k].direction == 0)
    ensures Tallies(Run(ms[..n])) && NoneWithdrawn(Run(ms[..n]))
  {
    forall k | 0 <= k < n ensures !Mistallied(Run(ms[..k]), ms[k]) {
      NeverWithdrawn(ms, k);
      MistalliedIs(ms, k);
    }
    NeverWithdrawn(ms, n);
    InOrderIsFresh(ms);
    RunTalliesAt(ms, n);
  }

  // ---- Comment counts ----

  predicate NoSelfReply(ms: seq<Msg>) {
    forall n :: 0 <= n < |ms| && ms[n].PostMsg? ==> ms[n].target != Some(ms[n].tx)
  }

  /** No message before the `n`-th makes a count wrong. */
  ghost predicate CountedUpTo(ms: seq<Msg>, n: nat)
    requires n <= |ms|
  {
    forall k :: 0 <= k < n ==> !Miscounts(Run(ms[..k]), ms[k])
  }

  lemma {:induction false} RunInReach(ms: seq<Msg>, n: nat)
    requires Fresh(ms) && NoSelfReply(ms) && n <= |ms| && CountedUpTo(ms, n)
    ensures Counted(Run(ms[..n]).posts) && AllInReach(Run(ms[..n]).posts) && NoCircle(Run(ms[..n]).posts)
  {
    if n == 0 {
      EmptyThreaded();
    } else {
      RunInReach(ms, n - 1);
      RunLast(ms, n - 1);
      StepInReach(Run(ms[..n - 1]), ms[n - 1]);
      StepCounts(Run(ms[..n - 1]), ms[n - 1]);
    }
  }

  lemma {:induction false} FirstMiscount(ms: seq<Msg>, n: nat) returns (k: nat)
    requires n <= |ms| && !CountedUpTo(ms, n)
    ensures k < n && Miscounts(Run(ms[..k]), ms[k]) && CountedUpTo(ms, k)
  {
    if CountedUpTo(ms, n - 1) { k := n - 1; } else { k := FirstMiscount(ms, n - 1); }
  }

  lemma MiscountsNext(ms: seq<Msg>, n: nat)
    requires Fresh(ms) && NoSelfReply(ms) && n < |ms| && CountedUpTo(ms, n) && Miscounts(Run(ms[..n]), ms[n])
    ensures !Counted(Run(ms[..n + 1]).posts)
  {
    RunInReach(ms, n);
    RunLast(ms, n);
    StepCounts(Run(ms[..n]), ms[n]);
  }

  /** For every run with fresh hashes in which no post replies to itself, whatever else replies to whatever:
      comment counts are right after every prefix, if and only if no comment is posted where more than a
      hundred live posts stand in line above it, no post comes after a live reply to it, and no post without
      a community is deleted from under a live one. */
  lemma RunCountsExactly(ms: seq<Msg>)
    requires Fresh(ms) && NoSelfReply(ms)
    ensures (forall n :: 0 <= n <= |ms| ==> Counted(Run(ms[..n]).posts)) <==> CountedUpTo(ms, |ms|)
  {
    if CountedUpTo(ms, |ms|) {
      forall n | 0 <= n <= |ms| ensures Counted(Run(ms[..n]).posts) { RunInReach(ms, n); }
    } else {
      var k := FirstMiscount(ms, |ms|);
      MiscountsNext(ms, k);
    }
  }

  ghost predicate ShortReplies(ms: seq<Msg>) {
    forall n :: 0 <= n < |ms| && ms[n].PostMsg? ==> InReach(Run(ms[..n]).posts, ms[n].target)
  }

  /** Where parents are indexed first, only deep comments are miscounted. */
  lemma ReadyMiscounts(d: Db, m: Msg)
    requires Threaded(d) && Ready(d, m)
    ensures Miscounts(d, m) <==> m.PostMsg? && !InReach(d.posts, m.target)
    ensures Grows(d, m)
  {
    if m.PostMsg? {
      RootedIsClosed(ParentsOf(d.posts));
      ClosedLeaf(ParentsOf(d.posts), LiveOf(d.posts), m.tx, m.target);
    } else if m.DeleteMsg? && m.post in d.posts {
      assert Anchored(d.posts, m.post);
    }
  }

  /** In a run in which parents are indexed first, comment counts are right after every prefix, if and only
      if no comment is posted where more than a hundred live posts stand in line above it. */
  lemma RunCounts(ms: seq<Msg>)
    requires Indexed(ms)
    ensures (forall n :: 0 <= n <= |ms| ==> Counted(Run(ms[..n]).posts)) <==> ShortReplies(ms)
  {
    IndexedInOrder(ms);
    InOrderIsFresh(ms);
    forall n | 0 <= n < |ms|
      ensures Miscounts(Run(ms[..n]), ms[n]) <==> ms[n].PostMsg? && !InReach(Run(ms[..n]).posts, ms[n].target)
      ensures Grows(Run(ms[..n]), ms[n])
    {
      RunThreads(ms, n);
      ReadyMiscounts(Run(ms[..n]), ms[n]);
    }
    RunCountsExactly(ms);
  }

  /** In every run at all, hashes reused or not, no comment count is ever negative. */
  lemma {:induction false} RunNonNegative(ms: seq<Msg>)
    ensures NonNegative(Run(ms).posts)
  {
    if ms != [] {
      RunNonNegative(ms[..|ms| - 1]);
      StepNonNegative(Run(ms[..|ms| - 1]), ms[|ms| - 1]);
    }
  }

  // ---- Deletion is final ----

  function DeletedOf(posts: map<Hash, Post>): set<Hash> {
    set h | h in posts && posts[h].deleted
  }

  /** What a message adds to the deleted posts. */
  ghost function Added(d: Db, m: Msg): set<Hash> {
    if !m.DeleteMsg? || m.post !in d.posts || d.posts[m.post].deleted
       || (m.onlyOwner != None && m.onlyOwner != Some(d.posts[m.post].owner)) then {}
    else if Effective(d.posts[m.post]).Some? then Subtree(ParentsOf(d.posts), LiveOf(d.posts), m.post)
    else {m.post}
  }

  /** The deleted posts, read off the live ones. */
  lemma DeletedFromLive(posts: map<Hash, Post>, after: map<Hash, Post>, gone: set<Hash>)
    requires after.Keys == posts.Keys && LiveOf(after) == LiveOf(posts) - gone && gone <= posts.Keys
    ensures DeletedOf(after) == DeletedOf(posts) + gone
  {
    forall h ensures h in DeletedOf(after) <==> h in DeletedOf(posts) || h in gone {
      if h in after { assert h in LiveOf(after) <==> !after[h].deleted; }
      if h in posts { assert h in LiveOf(posts) <==> !posts[h].deleted; }
    }
  }

  lemma DeleteDeletes(d: Db, m: Msg)
    requires m.DeleteMsg?
    ensures DeletedOf(HandleDelete(d, m).posts) == DeletedOf(d.posts) + Added(d, m)
    ensures ParentsOf(HandleDelete(d, m).posts) == ParentsOf(d.posts)
  {
    if DeleteApplies(d, m) {
      var gone := Gone(d.posts, m.post);
      GoneIsSubtree(d.posts, m.post);
      if Effective(d.posts[m.post]).Some? {
        DeleteForest(d.posts, m.post, gone);
      } else {
        MarkShape(d.posts, {m.post});
      }
      DeletedFromLive(d.posts, HandleDelete(d, m).posts, gone);
    }
  }

  lemma TreeDeletes(a: map<Hash, Post>, b: map<Hash, Post>)
    requires SameTree(a, b)
    ensures DeletedOf(a) == DeletedOf(b) && ParentsOf(a) == ParentsOf(b)
  {
    TreeFrame(a, b);
  }

  lemma BumpDeletes(posts: map<Hash, Post>, start: Option<Hash>, delta: int)
    ensures var b := BumpAncestors(posts, start, delta);
            DeletedOf(b) == DeletedOf(posts) && ParentsOf(b) == ParentsOf(posts)
  {
    BumpFrame(posts, start, delta);
    DeletedFromLive(posts, BumpAncestors(posts, start, delta), {});
  }

  lemma UpsertDeletes(posts: map<Hash, Post>, h: Hash, owner: Owner, community: Option<Name>, target: Option<Hash>,
                      rootCommunity: Option<Name>, rootPost: Option<Hash>)
    ensures var after := UpsertPost(posts, h, owner, community, target, rootCommunity, rootPost);
            DeletedOf(after) == DeletedOf(posts) - {h} && ParentsOf(after) == ParentsOf(posts)[h := target]
  {
  }

  lemma PostDeletes(d: Db, m: Msg)
    requires m.PostMsg?
    ensures DeletedOf(HandlePost(d, m).posts) == DeletedOf(d.posts) - {m.tx}
    ensures ParentsOf(HandlePost(d, m).posts) == ParentsOf(d.posts)[m.tx := m.target]
  {
    var root := RootForNew(d.posts, m);
    var community := if m.target.Some? && m.community.None? then root.community else m.community;
    var posts := UpsertPost(root.posts, m.tx, m.owner, community, m.target, root.community, root.post);
    if m.target.Some? { LookupTree(d.posts, m.target.value, MAX_DEPTH); }
    TreeDeletes(d.posts, root.posts);
    UpsertDeletes(root.posts, m.tx, m.owner, community, m.target, root.community, root.post);
    BumpDeletes(posts, m.target, 1);
  }

  /** In any tables at all: a delete that applies adds exactly the post and what is live and connected
      below it, or the post alone if it has no community; a post takes its own hash out; nothing else
      changes the set of deleted posts. And no message but a post, under its own hash, writes a parent. */
  lemma StepDeletes(d: Db, m: Msg)
    ensures DeletedOf(Step(d, m).posts) == (if m.PostMsg? then DeletedOf(d.posts) - {m.tx} else DeletedOf(d.posts)) + Added(d, m)
    ensures ParentsOf(Step(d, m).posts) == if m.PostMsg? then ParentsOf(d.posts)[m.tx := m.target] else ParentsOf(d.posts)
  {
    match m {
      case PostMsg(_, _, _, _) => PostDeletes(d, m);
      case VoteMsg(_, h, _) =>
        LookupTree(d.posts, h, MAX_DEPTH);
        TreeDeletes(d.posts, HandleVote(d, m).posts);
      case EditMsg(_, _, _, _) =>
        EditTree(d, m);
        TreeDeletes(d.posts, HandleEdit(d, m).posts);
      case DeleteMsg(_, _) => DeleteDeletes(d, m);
    }
  }

  /** Hence a message brings a deleted post back if and only if it is a post that reuses its hash. */
  lemma DeletionIsFinal(d: Db, m: Msg)
    ensures DeletedOf(d.posts) <= DeletedOf(Step(d, m).posts) <==> !(m.PostMsg? && m.tx in DeletedOf(d.posts))
  {
    StepDeletes(d, m);
  }

  /** `g` has every reply of `f`, under the same parent. */
  ghost predicate Extends(f: Parents, g: Parents) {
    f.Keys <= g.Keys && forall h :: h in f ==> g[h] == f[h]
  }

  /** The parents after `n` messages, from the messages alone. */
  function ParentsAfter(ms: seq<Msg>, n: nat): Parents
    requires n <= |ms|
  {
    if n == 0 then map[]
    else if ms[n - 1].PostMsg? then ParentsAfter(ms, n - 1)[ms[n - 1].tx := ms[n - 1].target]
    else ParentsAfter(ms, n - 1)
  }

  /** Who replies to whom is decided by the posts alone, in every run at all. */
  lemma {:induction false} RunParents(ms: seq<Msg>, n: nat)
    requires n <= |ms|
    ensures ParentsOf(Run(ms[..n]).posts) == ParentsAfter(ms, n)
  {
    if n > 0 {
      RunParents(ms, n - 1);
      RunLast(ms, n - 1);
      StepDeletes(Run(ms[..n - 1]), ms[n - 1]);
    }
  }

  lemma {:induction false} ParentsExtend(ms: seq<Msg>, i: nat, j: nat)
    requires i <= j <= |ms| && forall n :: i <= n < j && ms[n].PostMsg? ==> ms[n].tx !in ParentsAfter(ms, n)
    ensures Extends(ParentsAfter(ms, i), ParentsAfter(ms, j))
    decreases j - i
  {
    if i < j { ParentsExtend(ms, i, j - 1); }
  }

  lemma NextDeletes(ms: seq<Msg>, n: nat)
    requires Fresh(ms) && n < |ms|
    ensures DeletedOf(Run(ms[..n]).posts) <= DeletedOf(Run(ms[..n + 1]).posts)
  {
    RunLast(ms, n);
    StepDeletes(Run(ms[..n]), ms[n]);
  }

  lemma {:induction false} Growing(sets: seq<set<Hash>>, i: nat, j: nat)
    requires i <= j < |sets| && forall n :: i <= n < j ==> sets[n] <= sets[n + 1]
    ensures sets[i] <= sets[j]
    decreases j - i
  {
    if i < j { Growing(sets, i, j - 1); }
  }

  lemma DeletedGrows(ms: seq<Msg>, i: nat, j: nat)
    requires Fresh(ms) && i <= j <= |ms|
    ensures DeletedOf(Run(ms[..i]).posts) <= DeletedOf(Run(ms[..j]).posts)
  {
    var sets := seq(|ms| + 1, n requires 0 <= n <= |ms| => DeletedOf(Run(ms[..n]).posts));
    forall n | i <= n < j ensures sets[n] <= sets[n + 1] { NextDeletes(ms, n); }
    Growing(sets, i, j);
  }

  /** Over a run with fresh hashes, what is deleted stays deleted and every reply keeps its parent. */
  lemma RunDeletes(ms: seq<Msg>, i: nat, j: nat)
    requires Fresh(ms) && i <= j <= |ms|
    ensures DeletedOf(Run(ms[..i]).posts) <= DeletedOf(Run(ms[..j]).posts)
    ensures Extends(ParentsOf(Run(ms[..i]).posts), ParentsOf(Run(ms[..j]).posts))
  {
    DeletedGrows(ms, i, j);
    RunParents(ms, i);
    RunParents(ms, j);
    forall n | i <= n < j && ms[n].PostMsg? ensures ms[n].tx !in ParentsAfter(ms, n) { RunParents(ms, n); }
    ParentsExtend(ms, i, j);
  }

  // ---- A run that breaks the standing ----

  /** Whoever may delete a live post makes its author's next change of vote break their standing. */
  lemma DeleteThenVoteBreaks(d: Db, h: Hash)
    requires h in d.posts && !d.posts[h].deleted && Effective(d.posts[h]).Some?
    requires (d.posts[h].owner, h) in d.votes && d.votes[(d.posts[h].owner, h)] > 0
    ensures BreaksStanding(Step(d, DeleteMsg(None, h)), VoteMsg(d.posts[h].owner, h, -1))
  {
    var after := DeletedPosts(d.posts, h, Gone(d.posts, h));
    DeletedRow(d.posts, h, Gone(d.posts, h));
    OwnVoteBreaks(d.(posts := after, stats := Step(d, DeleteMsg(None, h)).stats), d.posts[h].owner, h);
  }

  lemma DeletedRow(posts: map<Hash, Post>, h: Hash, gone: set<Hash>)
    requires h in posts && h in gone
    ensures var after := DeletedPosts(posts, h, gone);
            h in after && after[h].deleted && after[h].owner == posts[h].owner && Effective(after[h]) == Effective(posts[h])
  {
    DeleteForest(posts, h, gone);
    DeletedShape(posts, h, gone);
    ShapeAt(posts, DeletedPosts(posts, h, gone), h);
    assert h !in LiveOf(DeletedPosts(posts, h, gone));
  }

  lemma OwnVoteBreaks(d: Db, owner: Owner, h: Hash)
    requires h in d.posts && d.posts[h].deleted && d.posts[h].owner == owner && Effective(d.posts[h]).Some?
    requires (owner, h) in d.votes && d.votes[(owner, h)] > 0
    ensures BreaksStanding(d, VoteMsg(owner, h, -1))
  {
  }

  lemma FirstPost(m: Msg)
    requires m.PostMsg? && m.target.None? && m.community.Some?
    ensures var d := Step(EMPTY, m);
            && m.tx in d.posts && !d.posts[m.tx].deleted && d.posts[m.tx].owner == m.owner
            && Effective(d.posts[m.tx]).Some? && d.votes == map[(m.owner, m.tx) := 1]
  {
  }

  /** Post, have the post deleted, then vote against it. */
  predicate PostDeleteVote(ms: seq<Msg>) {
    && |ms| == 3 && ms[0].PostMsg? && ms[0].target.None? && ms[0].community.Some?
    && ms[1] == DeleteMsg(None, ms[0].tx) && ms[2] == VoteMsg(ms[0].owner, ms[0].tx, -1)
  }

  lemma PostDeleteVoteIndexed(ms: seq<Msg>)
    requires PostDeleteVote(ms)
    ensures Indexed(ms)
  {
    assert Run(ms[..0]) == EMPTY;
    forall n | 0 <= n < |ms| ensures Ready(Run(ms[..n]), ms[n]) {
      assert n == 0 || !ms[n].PostMsg?;
    }
  }

  lemma BreaksAtTwo(ms: seq<Msg>)
    requires PostDeleteVote(ms)
    ensures BreaksStanding(Run(ms[..2]), ms[2])
  {
    var d := Run(ms[..1]);
    assert Run(ms[..0]) == EMPTY;
    RunLast(ms, 0);
    RunLast(ms, 1);
    FirstPost(ms[0]);
    DeleteThenVoteBreaks(d, ms[0].tx);
  }

  /** The first vote that breaks the standing does. */
  lemma FirstBreak(ms: seq<Msg>, n: nat)
    requires InOrder(ms) && n < |ms| && OrphansUnnamed(ms, n) && BreaksStanding(Run(ms[..n]), ms[n])
    requires forall k :: 0 <= k < n ==> !ms[k].VoteMsg?
    ensures !Stands(Run(ms[..n + 1]))
  {
    InOrderIsFresh(ms);
    forall k | 0 <= k <= n ensures Misattributed(Run(ms[..k]), ms[k]) <==> Breaks(Run(ms[..k]), ms[k]) {
      MisattributedIs(ms, k);
    }
    BreaksNext(ms, n);
  }

  /** The failing vote is reachable. */
  lemma StandingCanBreak(ms: seq<Msg>)
    requires PostDeleteVote(ms)
    ensures Indexed(ms) && !Stands(Run(ms))
  {
    PostDeleteVoteIndexed(ms);
    IndexedInOrder(ms);
    BreaksAtTwo(ms);
    FirstBreak(ms, 2);
    assert ms[..3] == ms;
  }

  // ---- A run whose counts go wrong ----

  /** A thread in which every post replies to the one before. */
  function Reply(i: nat): Msg {
    PostMsg(i, 0, if i == 0 then Some(Name(0, 0)) else None, if i == 0 then None else Some(i - 1))
  }

  function Deep(n: nat): seq<Msg> {
    seq(n, i requires 0 <= i < n => Reply(i))
  }

  /** Its parents after `k` posts. */
  function Line(k: nat): (f: Parents)
    ensures forall i: nat :: i in f <==> i < k
    ensures forall i: nat :: i in f ==> f[i] == Reply(i).target
  {
    if k == 0 then map[] else Line(k - 1)[k - 1 := Reply(k - 1).target]
  }

  lemma {:induction false} DeepParents(n: nat, k: nat)
    requires k <= n
    ensures ParentsAfter(Deep(n), k) == Line(k)
  {
    if k > 0 { DeepParents(n, k - 1); }
  }

  lemma {:induction false} OnlyPosts(ms: seq<Msg>, n: nat)
    requires n <= |ms| && forall k :: 0 <= k < n ==> ms[k].PostMsg?
    ensures DeletedOf(Run(ms[..n]).posts) == {}
  {
    if n > 0 {
      OnlyPosts(ms, n - 1);
      RunLast(ms, n - 1);
      StepDeletes(Run(ms[..n - 1]), ms[n - 1]);
    }
  }

  lemma {:induction false} LineChain(k: nat, live: set<Hash>, j: nat, n: nat)
    requires j < k && forall i: nat :: i < k ==> i in live
    ensures |Chain(Line(k), live, Some(j), n)| == if n <= j then n else j + 1
    decreases n
  {
    if n > 0 && j > 0 { LineChain(k, live, j - 1, n - 1); }
  }

  lemma ReachInLine(posts: map<Hash, Post>, k: nat)
    requires ParentsOf(posts) == Line(k) && DeletedOf(posts) == {}
    ensures InReach(posts, Reply(k).target) <==> k <= MAX_DEPTH
    ensures k !in posts && (k > 0 ==> k - 1 in posts)
  {
    assert posts.Keys == ParentsOf(posts).Keys;
    if k > 0 {
      forall i: nat | i < k ensures i in LiveOf(posts) {
        assert i in Line(k).Keys && i !in DeletedOf(posts);
      }
      LineChain(k, LiveOf(posts), k - 1, MAX_DEPTH + 1);
    }
  }

  lemma DeepReach(n: nat, k: nat)
    requires k < n
    ensures InReach(Run(Deep(n)[..k]).posts, Reply(k).target) <==> k <= MAX_DEPTH
    ensures Ready(Run(Deep(n)[..k]), Reply(k))
  {
    DeepParents(n, k);
    RunParents(Deep(n), k);
    OnlyPosts(Deep(n), k);
    ReachInLine(Run(Deep(n)[..k]).posts, k);
  }

  /** In a thread of n posts in line the comment counts stay right if and only if n is at most 101. */
  lemma DeepThreadCounts(n: nat)
    ensures Indexed(Deep(n))
    ensures (forall k :: 0 <= k <= n ==> Counted(Run(Deep(n)[..k]).posts)) <==> n <= 101
  {
    var ms := Deep(n);
    forall k | 0 <= k < n
      ensures Ready(Run(ms[..k]), ms[k]) && (InReach(Run(ms[..k]).posts, ms[k].target) <==> k <= MAX_DEPTH)
    {
      DeepReach(n, k);
    }
    RunCounts(ms);
    if n > MAX_DEPTH + 1 {
      var k: nat := MAX_DEPTH + 1;
      assert ms[k].PostMsg? && !InReach(Run(ms[..k]).posts, ms[k].target);
    }
  }

  // ---- Orphans that break the standing ----

  /** A comment that names a community under a parent that is not indexed. */
  lemma NamedOrphanBreaks(m: Msg)
    requires m.PostMsg? && m.target.Some? && m.community.Some?
    ensures !Stands(Step(EMPTY, m))
  {
    EmptyThreaded();
    StepStands(EMPTY, m);
  }

  /** A comment comes first, its parent, a root, second, and then one more message. */
  predicate ReplyFirst(ms: seq<Msg>) {
    && |ms| == 3 && ms[0].PostMsg? && ms[0].target.Some? && ms[0].community.None? && !ms[2].PostMsg?
    && ms[1].PostMsg? && ms[1].tx == ms[0].target.value != ms[0].tx && ms[1].target.None? && ms[1].community.Some?
  }

  lemma CommentFirst(m: Msg)
    requires m.PostMsg? && m.target.Some? && m.target.value != m.tx && m.community.None?
    ensures Step(EMPTY, m) == Db(map[m.tx := Post(m.owner, None, m.target, false, None, None, 0)], map[(m.owner, m.tx) := 1], map[])
  {
  }

  lemma ParentSecond(d: Db, m: Msg)
    requires m.PostMsg? && m.tx !in d.posts && m.target.None?
    ensures Step(d, m).posts == d.posts[m.tx := Post(m.owner, m.community, None, false, m.community, Some(m.tx), 0)]
    ensures Step(d, m).votes == d.votes[(m.owner, m.tx) := 1]
  {
  }

  lemma LateParent(ms: seq<Msg>)
    requires ReplyFirst(ms)
    ensures Fresh(ms) && AttributedUpTo(ms, 2)
    ensures var d := Run(ms[..2]);
            && d.posts == map[ms[0].tx := Post(ms[0].owner, None, ms[0].target, false, None, None, 0),
                              ms[1].tx := Post(ms[1].owner, ms[1].community, None, false, ms[1].community, Some(ms[1].tx), 0)]
            && d.votes == map[(ms[0].owner, ms[0].tx) := 1, (ms[1].owner, ms[1].tx) := 1]
  {
    assert Run(ms[..0]) == EMPTY;
    RunLast(ms, 0);
    RunLast(ms, 1);
    CommentFirst(ms[0]);
    ParentSecond(Run(ms[..1]), ms[1]);
  }

  /** A lookup that starts at the comment finds its parent's community; the comment's own row names none. */
  lemma LateLookup(posts: map<Hash, Post>, c: Hash, p: Hash)
    requires c in posts && p in posts && posts[c].rootPost.None? && posts[c].target == Some(p)
    requires posts[p].rootCommunity.Some? && posts[p].rootPost.Some?
    ensures Lookup(posts, p) == Lookup(posts, c) == Some(posts[p].rootCommunity.value.key)
  {
    assert FindRoot(posts, c, MAX_DEPTH) == FindRoot(posts, p, MAX_DEPTH - 1);
  }

  lemma LateVote(d: Db, m: Msg, p: Hash)
    requires m.VoteMsg? && VoteApplies(d, m) && m.direction != PreviousVote(d, (m.owner, m.post))
    requires d.posts[m.post].rootPost.None? && d.posts[m.post].target == Some(p) && Effective(d.posts[m.post]).None?
    requires p in d.posts && d.posts[p].rootCommunity.Some? && d.posts[p].rootPost.Some?
    ensures Misattributed(d, m)
  {
    LateLookup(d.posts, m.post, p);
  }

  /** Any changed vote on a comment whose parent came later breaks the standing. */
  lemma LateVoteBreaks(ms: seq<Msg>)
    requires ReplyFirst(ms) && ms[2].VoteMsg? && ms[2].post == ms[0].tx && -1 <= ms[2].direction <= 1
    requires ms[2].direction != if ms[2].owner == ms[0].owner then 1 else 0
    ensures Fresh(ms) && !Stands(Run(ms))
  {
    LateParent(ms);
    LateVote(Run(ms[..2]), ms[2], ms[1].tx);
    BreaksNext(ms, 2);
    assert ms[..3] == ms;
  }

  /** So does an edit of such a comment by its author. */
  lemma LateEditBreaks(ms: seq<Msg>)
    requires ReplyFirst(ms) && ms[2].EditMsg? && ms[2].post == ms[0].tx && ms[2].owner == ms[0].owner
    requires ms[2].target.None? || ms[2].target == ms[0].target
    ensures Fresh(ms) && !Stands(Run(ms))
  {
    LateParent(ms);
    LateLookup(Run(ms[..2]).posts, ms[0].tx, ms[1].tx);
    BreaksNext(ms, 2);
    assert ms[..3] == ms;
  }

  /** That edit also miscounts votes: the author's own vote on the comment arrives uncounted. */
  lemma LateEditMistallies(ms: seq<Msg>)
    requires ReplyFirst(ms) && ms[2].EditMsg? && ms[2].post == ms[0].tx && ms[2].owner == ms[0].owner
    requires ms[2].target.None? || ms[2].target == ms[0].target
    ensures Fresh(ms) && !Tallies(Run(ms))
  {
    var d := Run(ms[..2]);
    LateParent(ms);
    LateLookup(d.posts, ms[0].tx, ms[1].tx);
    assert (ms[0].owner, ms[0].tx) in d.votes && !Unvoted(d, ms[0].tx);
    MistallyNext(ms, 2);
    assert ms[..3] == ms;
  }

  // ---- Orphans that break the counts ----

  /** A post that comes after its reply is miscounted at once. */
  lemma LateParentMiscounts(ms: seq<Msg>)
    requires ReplyFirst(ms)
    ensures Fresh(ms) && NoSelfReply(ms) && !Counted(Run(ms[..2]).posts)
  {
    var d := Run(ms[..1]);
    LateParent(ms);
    assert Run(ms[..0]) == EMPTY;
    RunLast(ms, 0);
    CommentFirst(ms[0]);
    assert ms[0].tx in LiveOf(d.posts) && ParentsOf(d.posts)[ms[0].tx] == Some(ms[1].tx);
    MiscountsNext(ms, 1);
  }

  /** A comment under a missing parent, a reply to it, and the reply is deleted. */
  predicate OrphanDelete(ms: seq<Msg>) {
    && |ms| == 3 && ms[0].PostMsg? && ms[0].target.Some? && ms[0].community.None?
    && ms[1].PostMsg? && ms[1].target == Some(ms[0].tx) && ms[1].community.None?
    && ms[0].tx != ms[1].tx && ms[0].target.value !in {ms[0].tx, ms[1].tx} && ms[2] == DeleteMsg(None, ms[1].tx)
  }

  /** Tables that hold one live comment, under a missing parent. */
  predicate OneOrphan(posts: map<Hash, Post>, c: Hash) {
    && posts.Keys == {c} && posts[c].target.Some? && posts[c].target.value != c
    && !posts[c].deleted && posts[c].rootPost.None?
  }

  lemma OrphanReplied(d: Db, m: Msg, c: Hash)
    requires OneOrphan(d.posts, c) && m.PostMsg? && m.community.None? && m.target == Some(c) && m.tx != c
    ensures var posts := Step(d, m).posts;
            && m.tx in posts && !posts[m.tx].deleted && Effective(posts[m.tx]).None? && posts[m.tx].target == Some(c)
            && c in posts && !posts[c].deleted
  {
    var posts := d.posts[m.tx := Post(m.owner, None, m.target, false, None, None, 0)];
    assert FindRoot(d.posts, c, MAX_DEPTH) == Root(None, None, d.posts);
    assert Step(d, m).posts == BumpAncestors(posts, m.target, 1);
    BumpSameButCounts(posts, m.target, 1);
    CountsShape(posts, Step(d, m).posts);
    ShapeAt(posts, Step(d, m).posts, m.tx);
    BumpFrame(posts, m.target, 1);
    assert m.tx in LiveOf(Step(d, m).posts) && c in LiveOf(Step(d, m).posts);
  }

  lemma OrphanReplyFits(d: Db, m: Msg, c: Hash)
    requires OneOrphan(d.posts, c) && m.PostMsg? && m.target == Some(c) && m.tx != c && d.posts[c].target != Some(m.tx)
    ensures !Miscounts(d, m)
  {
    var f, live := ParentsOf(d.posts), LiveOf(d.posts);
    assert f.Keys == {c} && f[c] == d.posts[c].target;
    assert Chain(f, live, f[c], MAX_DEPTH) == [];
    assert |Chain(f, live, Some(c), MAX_DEPTH + 1)| <= 1;
  }

  lemma OrphanDeleteAt(ms: seq<Msg>)
    requires OrphanDelete(ms)
    ensures InOrder(ms) && CountedUpTo(ms, 2) && Miscounts(Run(ms[..2]), ms[2])
  {
    assert Run(ms[..0]) == EMPTY;
    RunLast(ms, 0);
    RunLast(ms, 1);
    CommentFirst(ms[0]);
    OrphanReplied(Run(ms[..1]), ms[1], ms[0].tx);
    OrphanReplyFits(Run(ms[..1]), ms[1], ms[0].tx);
  }

  /** The count above it then stays. */
  lemma OrphanDeleteMiscounts(ms: seq<Msg>)
    requires OrphanDelete(ms)
    ensures InOrder(ms) && NoSelfReply(ms) && !Counted(Run(ms).posts)
  {
    OrphanDeleteAt(ms);
    InOrderIsFresh(ms);
    MiscountsNext(ms, 2);
    assert ms[..3] == ms;
  }
}
