/** The `posts`, `votes` and `user_community_stats` tables, the SQL statements that change
    them (`indexer/database.py`) and the four message handlers that issue those statements
    (`indexer/message_processor.py`), as functions from tables to tables. */
module Tables {
  import opened Forest
  import opened Wrappers

  type Owner = nat

  /** A community as written: `key` is its lower-case, stripped form and `spelling` the rest.
      The lower-case spelling is 0. The absent or empty community is `None`. */
  datatype Name = Name(key: nat, spelling: nat)

  function Lower(n: Name): Name { n.(spelling := 0) }

  function LowerOpt(n: Option<Name>): Option<Name> {
    if n.Some? then Some(Lower(n.value)) else None
  }

  function KeyOpt(n: Option<Name>): Option<nat> {
    if n.Some? then Some(n.value.key) else None
  }

  datatype Post = Post(
    owner: Owner, community: Option<Name>, target: Option<Hash>, deleted: bool,
    rootCommunity: Option<Name>, rootPost: Option<Hash>, commentCount: int)

  datatype Stats = Stats(voteCount: int, netVotes: int, postCount: int)

  type StatsKey = (Owner, nat)

  datatype Db = Db(posts: map<Hash, Post>, votes: map<(Owner, Hash), int>, stats: map<StatsKey, Stats>)

  const EMPTY := Db(map[], map[], map[])

  /** The parent of every post. */
  function ParentsOf(posts: map<Hash, Post>): Parents {
    map h | h in posts :: posts[h].target
  }

  function LiveOf(posts: map<Hash, Post>): set<Hash> {
    set h | h in posts && !posts[h].deleted
  }

  // ---- user_community_stats: the canonical definition ----

  /** `LOWER(COALESCE(NULLIF(root_community, ''), community))` */
  function Effective(p: Post): Option<nat> {
    if p.rootCommunity.Some? then KeyOpt(p.rootCommunity) else KeyOpt(p.community)
  }

  /** A vote counts for its owner in the target's community, unless it is the author's own vote on
      a deleted post. */
  predicate VoteCounts(posts: map<Hash, Post>, v: (Owner, Hash), k: StatsKey) {
    && v.0 == k.0 && v.1 in posts && Effective(posts[v.1]) == Some(k.1)
    && !(posts[v.1].deleted && posts[v.1].owner == v.0)
  }

  predicate PostCounts(p: Post, k: StatsKey) {
    p.owner == k.0 && !p.deleted && Effective(p) == Some(k.1)
  }

  function Direction(v: int): int { if v > 0 then 1 else if v < 0 then -1 else 0 }

  /** The counting votes of one direction. */
  function VotesOf(d: Db, k: StatsKey, direction: int): set<(Owner, Hash)> {
    set v | v in d.votes && Direction(d.votes[v]) == direction && VoteCounts(d.posts, v, k)
  }

  function LivePosts(d: Db, k: StatsKey): set<Hash> {
    set h | h in d.posts && PostCounts(d.posts[h], k)
  }

  /** One row of the canonical GROUP BY. */
  function Canonical(d: Db, k: StatsKey): Stats {
    var up, down := |VotesOf(d, k, 1)|, |VotesOf(d, k, -1)|;
    Stats(up + down, up - down, |LivePosts(d, k)|)
  }

  /** Pairs for which the canonical query over votes yields a row; cleared votes count here. */
  function VoteGroups(d: Db): set<StatsKey> {
    set v | v in d.votes && v.1 in d.posts && Effective(d.posts[v.1]).Some?
            && !(d.posts[v.1].deleted && d.posts[v.1].owner == v.0)
         :: (v.0, Effective(d.posts[v.1]).value)
  }

  function PostGroups(d: Db): set<StatsKey> {
    set h | h in d.posts && !d.posts[h].deleted && Effective(d.posts[h]).Some?
         :: (d.posts[h].owner, Effective(d.posts[h]).value)
  }

  /** The two canonical INSERTs over an already cleared table, limited to `pairs`. */
  function InsertCanonical(d: Db, pairs: set<StatsKey>): map<StatsKey, Stats> {
    var withVotes := d.stats + map k | k in VoteGroups(d) && k in pairs :: Canonical(d, k).(postCount := 0);
    withVotes + map k | k in PostGroups(d) && k in pairs ::
      (if k in withVotes then withVotes[k] else Stats(0, 0, 0)).(postCount := Canonical(d, k).postCount)
  }

  /** `_rebuild_all_community_stats` */
  function RebuildStats(d: Db): map<StatsKey, Stats> {
    InsertCanonical(d.(stats := map[]), VoteGroups(d) + PostGroups(d))
  }

  /** `_recompute_community_stats`: the rows of these owners in these communities. */
  function RecomputeStats(d: Db, owners: set<Owner>, communities: set<nat>): map<StatsKey, Stats> {
    if owners == {} || communities == {} then d.stats
    else
      var pairs := set o, c | o in owners && c in communities :: (o, c);
      InsertCanonical(d.(stats := d.stats - pairs), pairs)
  }

  /** `update_user_community_stats` */
  function BumpStats(stats: map<StatsKey, Stats>, k: StatsKey, votes: int, net: int, posts: int): map<StatsKey, Stats> {
    var was := if k in stats then stats[k] else Stats(0, 0, 0);
    stats[k := Stats(was.voteCount + votes, was.netVotes + net, was.postCount + posts)]
  }

  // ---- Root lookup ----

  const MAX_DEPTH := 100

  datatype Root = Root(community: Option<Name>, post: Option<Hash>, posts: map<Hash, Post>)

  /** `get_root_community_for_post`: a row that carries its root answers at once; otherwise walk
      up, and write what a root post without those columns turns out to be back into its row. */
  function FindRoot(posts: map<Hash, Post>, h: Hash, fuel: nat): Root
    decreases fuel, h
  {
    if fuel == 0 || h !in posts then Root(None, None, posts)
    else
      var row := posts[h];
      if row.rootCommunity.Some? && row.rootPost.Some? then Root(LowerOpt(row.rootCommunity), row.rootPost, posts)
      else if row.target.None? then
        var c := LowerOpt(row.community);
        Root(c, Some(h), posts[h := row.(rootCommunity := c, rootPost := Some(h))])
      else FindRoot(posts, row.target.value, fuel - 1)
  }

  // ---- Comment counts ----

  function Max(a: int, b: int): int { if a < b then b else a }

  /** `_update_ancestor_comment_counts`: one UPDATE per level, stopping at the first post that is
      missing or deleted, at a repeated post, or after the depth limit. */
  function WalkUp(posts: map<Hash, Post>, current: Option<Hash>, delta: int, visited: set<Hash>, depth: nat): map<Hash, Post>
    decreases MAX_DEPTH - depth, current
  {
    if current.None? || current.value in visited || depth >= MAX_DEPTH then posts
    else
      var h := current.value;
      if h !in posts || posts[h].deleted then posts
      else
        var row := posts[h];
        WalkUp(posts[h := row.(commentCount := Max(0, row.commentCount + delta))], row.target, delta, visited + {h}, depth + 1)
  }

  function BumpAncestors(posts: map<Hash, Post>, start: Option<Hash>, delta: int): map<Hash, Post> {
    if start.None? || delta == 0 then posts else WalkUp(posts, start, delta, {}, 0)
  }

  // ---- Messages ----

  /** A delete by governance or an administrator names no owner. */
  datatype Msg =
    | PostMsg(tx: Hash, owner: Owner, community: Option<Name>, target: Option<Hash>)
    | VoteMsg(owner: Owner, post: Hash, direction: int)
    | EditMsg(owner: Owner, post: Hash, target: Option<Hash>, community: Option<Name>)
    | DeleteMsg(onlyOwner: Option<Owner>, post: Hash)

  /** `upsert_post`: a replayed row keeps its comment count and any community it would lose. */
  function UpsertPost(posts: map<Hash, Post>, h: Hash, owner: Owner, community: Option<Name>, target: Option<Hash>,
                      rootCommunity: Option<Name>, rootPost: Option<Hash>): map<Hash, Post>
  {
    if h in posts then
      var was := posts[h];
      posts[h := Post(owner, if community.Some? then community else was.community, target, false,
                      if rootCommunity.Some? then rootCommunity else was.rootCommunity,
                      if rootPost.Some? then rootPost else was.rootPost, was.commentCount)]
    else posts[h := Post(owner, community, target, false, rootCommunity, rootPost, 0)]
  }

  /** Root and community of a new post: a root post is its own, a comment takes its parent's. */
  function RootForNew(posts: map<Hash, Post>, m: Msg): Root
    requires m.PostMsg?
  {
    if m.target.None? then Root(m.community, Some(m.tx), posts)
    else FindRoot(posts, m.target.value, MAX_DEPTH)
  }

  function HandlePost(d: Db, m: Msg): Db
    requires m.PostMsg?
  {
    var isNew := m.tx !in d.posts;
    var root := RootForNew(d.posts, m);
    var community := if m.target.Some? && m.community.None? then root.community else m.community;
    var posts := UpsertPost(root.posts, m.tx, m.owner, community, m.target, root.community, root.post);
    Db(if isNew then BumpAncestors(posts, m.target, 1) else posts,
       d.votes[(m.owner, m.tx) := 1],
       if isNew && root.community.Some? then BumpStats(d.stats, (m.owner, root.community.value.key), 1, 1, 1) else d.stats)
  }

  function PreviousVote(d: Db, v: (Owner, Hash)): int {
    if v in d.votes then Direction(d.votes[v]) else 0
  }

  function HandleVote(d: Db, m: Msg): Db
    requires m.VoteMsg?
  {
    if !(-1 <= m.direction <= 1) || m.post !in d.posts then d
    else
      var v := (m.owner, m.post);
      var root := FindRoot(d.posts, m.post, MAX_DEPTH);
      var before := PreviousVote(d, v);
      var stats :=
        if root.community.None? then d.stats
        else
          var k := (m.owner, root.community.value.key);
          if m.direction != 0 then BumpStats(d.stats, k, if v in d.votes then 0 else 1, m.direction - before, 0)
          else if before != 0 then BumpStats(d.stats, k, 0, -before, 0)
          else d.stats;
      Db(root.posts, d.votes[v := m.direction], stats)
  }

  function ThreadOf(posts: map<Hash, Post>, root: Hash): set<Hash> {
    set h | h in posts && posts[h].rootPost == Some(root)
  }

  function MovedPosts(posts: map<Hash, Post>, root: Hash, to: Name): map<Hash, Post> {
    map h | h in posts ::
      if posts[h].rootPost == Some(root) then posts[h].(community := Some(Lower(to)), rootCommunity := Some(Lower(to)))
      else posts[h]
  }

  /** Authors of a thread's posts, and everyone who voted on one of them. */
  function ThreadOwners(d: Db, root: Hash): set<Owner> {
    (set h | h in ThreadOf(d.posts, root) :: d.posts[h].owner)
    + (set v | v in d.votes && v.1 in ThreadOf(d.posts, root) :: v.0)
  }

  /** `reattribute_community_stats`: the whole thread follows its root into another community. */
  function MoveThread(d: Db, root: Hash, from: Option<nat>, to: Name): Db {
    if from == Some(to.key) then d
    else
      var moved := d.(posts := MovedPosts(d.posts, root, to));
      var communities := {to.key} + if from.Some? then {from.value} else {};
      moved.(stats := RecomputeStats(moved, ThreadOwners(moved, root), communities))
  }

  predicate EditApplies(d: Db, m: Msg)
    requires m.EditMsg?
  {
    && m.post in d.posts && d.posts[m.post].owner == m.owner && !d.posts[m.post].deleted
    && (m.target.None? || d.posts[m.post].target == m.target)
  }

  function HandleEdit(d: Db, m: Msg): Db
    requires m.EditMsg?
  {
    if !EditApplies(d, m) then d
    else
      var row := d.posts[m.post];
      if row.target.None? then
        var community := if m.community.Some? then m.community else row.community;
        var edited := d.(posts := UpsertPost(d.posts, m.post, m.owner, community, None, LowerOpt(community), Some(m.post)));
        if community.Some? && KeyOpt(row.community) != KeyOpt(community)
        then MoveThread(edited, m.post, KeyOpt(row.community), community.value)
        else edited
      else
        var root := FindRoot(d.posts, row.target.value, MAX_DEPTH);
        d.(posts := UpsertPost(root.posts, m.post, m.owner, None, row.target, root.community, root.post))
  }

  function MarkDeleted(posts: map<Hash, Post>, hs: set<Hash>): map<Hash, Post> {
    map h | h in posts :: if h in hs then posts[h].(deleted := true) else posts[h]
  }

  /** Owners and communities of posts that have both, as the UPDATE returns them. */
  function OwnersOf(posts: map<Hash, Post>, hs: set<Hash>): set<Owner> {
    set h | h in hs && h in posts && Effective(posts[h]).Some? :: posts[h].owner
  }

  function CommunitiesOf(posts: map<Hash, Post>, hs: set<Hash>): set<nat> {
    set h | h in hs && h in posts && Effective(posts[h]).Some? :: Effective(posts[h]).value
  }

  predicate DeleteApplies(d: Db, m: Msg)
    requires m.DeleteMsg?
  {
    && m.post in d.posts && !d.posts[m.post].deleted
    && (m.onlyOwner.None? || d.posts[m.post].owner == m.onlyOwner.value)
  }

  /** The posts a delete marks: the named one, and in a second statement the live posts below it.
      The second statement is skipped when the first returns no community. */
  ghost function Gone(posts: map<Hash, Post>, h: Hash): set<Hash>
    requires h in posts
  {
    var first := MarkDeleted(posts, {h});
    if Effective(posts[h]).None? then {h} else {h} + Below(ParentsOf(first), LiveOf(first), h)
  }

  function DeletedPosts(posts: map<Hash, Post>, h: Hash, gone: set<Hash>): map<Hash, Post>
    requires h in posts
  {
    BumpAncestors(MarkDeleted(posts, gone), posts[h].target, -(1 + posts[h].commentCount))
  }

  /** The rest of a delete, once the posts to mark are known. */
  function DeleteSubtree(d: Db, h: Hash, gone: set<Hash>): Db
    requires h in d.posts
  {
    var after := d.(posts := DeletedPosts(d.posts, h, gone));
    after.(stats := RecomputeStats(after, OwnersOf(after.posts, gone), CommunitiesOf(after.posts, gone)))
  }

  /** `delete_post` */
  ghost function HandleDelete(d: Db, m: Msg): Db
    requires m.DeleteMsg?
  {
    if !DeleteApplies(d, m) then d
    else if Effective(d.posts[m.post]).None? then d.(posts := MarkDeleted(d.posts, {m.post}))
    else DeleteSubtree(d, m.post, Gone(d.posts, m.post))
  }

  ghost function Step(d: Db, m: Msg): Db {
    match m
    case PostMsg(_, _, _, _) => HandlePost(d, m)
    case VoteMsg(_, _, _) => HandleVote(d, m)
    case EditMsg(_, _, _, _) => HandleEdit(d, m)
    case DeleteMsg(_, _) => HandleDelete(d, m)
  }

  /** The tables after a run of messages on an empty database. */
  ghost function Run(ms: seq<Msg>): Db {
    if ms == [] then EMPTY else Step(Run(ms[..|ms| - 1]), ms[|ms| - 1])
  }
}
