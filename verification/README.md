# Verification of the mirage-node indexer, watchdog and genesis tools

This project models the parts of mirage-node with the most state and arithmetic, and proves what they
promise over every input, every run and every reachable state. `dafny verify dfyconfig.toml` checks it.

* **The projected tables** (`Forest`, `Tables`, `Threads`, `Effects`, `Attribution`, `Orderly`, `Standing`,
  `Counts`, `Runs`, `LiveTables`). Posts, votes and `user_community_stats` under post, vote, edit and delete
  messages. `Tables` says what each handler does to the tables as values; `LiveTables` is the same code as
  a class whose loops walk, mark and update in place, proved against it. Beside the tables stand
  independent definitions: the GROUP BY over votes and posts, the forest of parents, the number of live
  descendants, the root at the end of the parent walk. The theorems say that the columns kept by deltas
  equal those definitions after every prefix of every run, and exactly when they do not.
* **The block checkpoint** (`Checkpoint`, `HistoryGaps`, `Reasons`). Catch-up, live feed, pruned ranges,
  the continuity check against whatever node is there at the next start, and a process that may die
  between any two writes.
* **The per-block snapshots** (`Snapshots`). Chain reads made before the database transaction opens, and
  refused after it unless they were foreseen.
* **The wire decoder** (`Wire`), **the checksum and the addresses** (`Bits`, `Bech32`, `Regroup`) and
  **the community patterns** (`Glob`).
* **The divergence watchdog** (`Watchdog`). The decision ladder and the polling loop, in an environment
  that chooses every observation, every clock reading and every exception.
* **The single-validator genesis** (`Genesis`). The rewrite of stake, balances and supply.

Four statements of the code's own documentation hold only in part, and the code is followed:

* The live path and the rebuild of `user_community_stats` are said to agree
  (`indexer/database.py:1966-1974`). `Runs.RunStandsExactly` is the exact condition for every run with
  fresh hashes: no message acts for another community than the rows say. Where no parent comes after its
  reply and roots name a community, two cases are left: an author changing the vote on an own post that
  was already deleted, and a comment naming a community under a parent that is missing or has no root
  (`Runs.RunStands`). Each failing case is reached by a run: `Runs.StandingCanBreak`,
  `Runs.NamedOrphanBreaks`, `Runs.LateVoteBreaks`, `Runs.LateEditBreaks`.
* `comment_count` is said to be kept for all ancestors (`indexer/database.py:2807`). It is the number of
  live descendants after every prefix of a run with fresh hashes exactly if no comment is more than 100
  live posts deep, no post comes after a live reply to it and no post without a community is deleted from
  under a live one: `Runs.RunCountsExactly`, with runs in `Runs.DeepThreadCounts`,
  `Runs.LateParentMiscounts` and `Runs.OrphanDeleteMiscounts`.
* Leaving communities is documented as matching a glob (`indexer/database.py:2601`). It differs from the
  glob on some community exactly for patterns that hold both a `*` and a backslash:
  `Glob.LeaveIsMatching`, `Glob.LeaveCounterexample`.
* The state a block needs is said to be identified before locks are held
  (`indexer/message_processor.py:573`). It is, except that a profile which the block itself makes an
  administrator is read unforeseen: `Snapshots.MissExactly`, `Snapshots.AppointmentIsRefused`.

Conventions. Hashes, owners and addresses are normalised, as the code does on entry. A community is a
case-folded key with a spelling. Amounts and heights are unbounded integers, as in Python. `acc << n | b`
is an addition, because the digits fit. A LIKE pattern that ends in its escape matches nothing. What the
node answers, what the log shows and what the clock says are parameters. `Indexed` runs are those in which
hashes are fresh, a root post names a community and a comment's parent is indexed first.

## Model

| member | source | states |
|---|---|---|
| Runs.RunStands | indexer/database.py:1906-2043 | For every run with fresh hashes in which no parent comes after its reply and roots name a community, orphans and their replies included: after every prefix the delta-maintained `net_votes` and `post_count` of every (owner, community) equal the canonical GROUP BY over votes and posts, if and only if no author ever changes the vote on an own post that is already deleted and had a community, and no comment names a community under a parent that is missing or has no root |
| Runs.RunStandsExactly | indexer/database.py:1906-2043 | For every run with fresh hashes at all, parents missing, late or in a circle: the same, if and only if no message acts for another community than the rows say, which is decided by the lookup and the row it concerns |
| Runs.IndexedInOrder | indexer/message_processor.py:706-721 | Runs in which a comment's parent is indexed first are among those of `RunStands`, and no orphan in them names a community |
| Runs.RunSettles | indexer/database.py:987-1061 | In every state of a run where no parent comes after its reply and roots name a community, up to the first orphan that names a community: a post has a root and a community, or is an orphan whose parent is missing or an orphan |
| Runs.RunStandsAt | indexer/message_processor.py:753-794 | The inductive form: up to the first such message every state of the run has canonical standing and every post counts for the community of the root above it |
| Runs.StepStands | indexer/message_processor.py:672-1402 | In any attributed tables, one message keeps the standing canonical if and only if it does not act for the wrong community |
| Runs.StandingCanBreak | indexer/message_processor.py:879-981 | The failing vote is reachable: post, have the post deleted, then vote against it, and the live table no longer equals the rebuild although the run is well ordered |
| Runs.DeleteThenVoteBreaks | indexer/database.py:1966-1974 | In any tables, deleting a live post with a community that its author upvotes makes the author's next change of vote a breaking one |
| Runs.NamedOrphanBreaks | indexer/message_processor.py:706-721 | A comment that names a community under a parent that is not indexed breaks the standing at once |
| Runs.LateVoteBreaks | indexer/message_processor.py:914-1138 | A run: a comment, then its parent, then any changed vote on the comment; the lookup credits the community of the parent while the row of the comment names none, and the standing is no longer canonical |
| Runs.LateEditBreaks | indexer/message_processor.py:1242-1371 | The same run with an edit of the comment by its author instead of the vote |
| Runs.RunTallies | indexer/message_processor.py:1116-1138 | In the runs of `RunStands`, `vote_count` equals the canonical count after every prefix if and only if no vote withdraws a counting vote or renews a withdrawn one, and no orphan names a community |
| Runs.RunTalliesExactly | indexer/message_processor.py:1116-1138 | For every run with fresh hashes at all, parents missing, late or in a circle: `vote_count` equals the canonical count after every prefix, if and only if no comment names a community where the lookup of its parent finds none, no vote adds to the count found by the lookup otherwise than it counts by the row, and no edit brings a comment with a standing vote into a community |
| Runs.LateEditMistallies | indexer/message_processor.py:1242-1371 | A run of the last kind: a comment, then its parent, then an edit of the comment by its author |
| Runs.StepTallies | indexer/message_processor.py:1116-1138 | In any attributed tables one message keeps `vote_count` canonical if and only if it is not one of those of `RunTalliesExactly` |
| Runs.UnwithdrawnTallies | indexer/message_processor.py:1116-1138 | In such a run without clearing votes and without named orphans `vote_count` is canonical after every prefix, and no stored vote is zero |
| Runs.RunThreads | indexer/database.py:987-1061 | In every state of an indexed run every stored root is the root reached through the parents, with the root's community up to case |
| Runs.RunCounts | indexer/database.py:2806-2849 | For every indexed run, `comment_count` of every live post is the number of live descendants reachable through live posts after every prefix, if and only if no new comment has more than 100 live ancestors in a row |
| Runs.RunCountsExactly | indexer/database.py:2806-2849 | For every run with fresh hashes in which no post replies to itself, parents missing, late or in a circle: the same, if and only if no new comment has more than 100 live ancestors in a row, no post comes after a live reply to it, and no delete applies to a post without a community under a live parent |
| Runs.RunNonNegative | indexer/database.py:2835-2847 | In every run at all, hashes reused or not, no `comment_count` is ever negative |
| Runs.LateParentMiscounts | indexer/message_processor.py:753-794 | A post that comes after its reply starts at zero and is miscounted at once |
| Runs.OrphanDeleteMiscounts | indexer/database.py:2739-2767 | A run: a comment under a missing parent, a reply to it, the reply is deleted; parents never come late, and the count of the comment is wrong |
| Runs.DeepThreadCounts | indexer/database.py:2806-2849 | In a thread of n posts, each replying to the one before, the counts stay right after every prefix if and only if n is at most 101: the failing side is reached by a well-ordered run |
| Runs.RunInReach | indexer/database.py:2818-2849 | Up to the first such message counts are right, no live chain exceeds the walk limit and no live post is above itself |
| Runs.StepDeletes | indexer/database.py:2729-2804 | In any tables at all: a delete of an indexed live post, by nobody in particular or by its author, adds to the deleted posts exactly the target and the subtree reachable through live posts, or the target alone if it has no community; any other delete adds nothing; a post takes its own hash out; nothing else changes the set; and no message but a post, under its own hash, writes a parent |
| Runs.RunDeletes | indexer/database.py:2739-2787 | Along a run with fresh hashes the deleted set only grows and every reply keeps its parent |
| Runs.RunParents | indexer/database.py:1130-1231 | In every run at all, who replies to whom is decided by the post messages alone |
| Runs.DeletionIsFinal | indexer/database.py:1130-1231 | In any tables whatever, a message brings a deleted post back if and only if it is a post that reuses the hash of a deleted one |
| Effects.DeleteEffect | indexer/database.py:2729-2765 | In any tables: a delete deletes its post if and only if the post is indexed and live and the message names no owner or its author; otherwise nothing at all changes; votes, authors, parents and communities never do |
| Effects.DeleteByOther | indexer/message_processor.py:1946-1948 | A delete in the name of somebody who did not write the post changes nothing |
| Effects.VoteEffect | indexer/message_processor.py:879-981 | A vote of -1, 0 or 1 on an indexed post replaces the voter's vote on it, and any other vote is ignored; no reply, flag, count or other owner's standing changes |
| Effects.EditRefused | indexer/message_processor.py:1242-1322 | An edit of a post that is missing, somebody else's, deleted or said to have another parent changes nothing |
| Effects.EditFrame | indexer/message_processor.py:1242-1371 | No edit changes a vote, an author, a parent, a flag or a count |
| Effects.CommentEditEffect | indexer/message_processor.py:1242-1371 | An edit of a comment stores the root its parent leads to and applies no delta; its own community and every other comment stay |
| Effects.RootEditEffect | indexer/message_processor.py:1323-1371 | An edit of a root takes over the community it names; if that is another one, exactly the posts of the thread follow, in lower case |
| Effects.PostEffect | indexer/message_processor.py:672-794 | A post is entered live with its author, parent and own vote; a root has the community it names, a comment the one it names or else the one its parent leads to |
| Effects.ReplayedPost | indexer/message_processor.py:753-794 | A post whose hash is already indexed is credited to nobody again and raises no count |
| Effects.RootPostFrame | indexer/message_processor.py:672-750 | A root post changes no other row |
| Effects.LookupAnswers | indexer/database.py:987-1061 | A lookup reads at most so many rows and answers from the first that stores a root or is one; only a root without stored root is written, with its own hash and its community in lower case |
| Effects.LookupLimit | indexer/database.py:987-1061 | A lookup finds a root exactly if fewer than 100 rows have to be passed |
| Effects.StepNonNegative | indexer/database.py:2835-2847 | Whatever a message subtracts, in any tables, counts that were not negative stay so |
| Threads.StoredRootIsWalkedRoot | indexer/database.py:987-1061 | The stored `root_post_id` is the post reached by following `target` to the end, and the stored `root_community` is that post's community up to case |
| Threads.RootUnique | indexer/database.py:987-1061 | A post has one root |
| Threads.LookupIsWalk | indexer/database.py:987-1061 | The lookup answers with the root of the unbounded parent walk and its community |
| Threads.LookupIsRow | indexer/database.py:987-1061 | The lookup is decided by the post's own row: the fast path is always the one taken |
| Threads.StepKeepsThreads | indexer/message_processor.py:706-721 | Every message keeps the forest and the stored roots right |
| Threads.PostKeepsThreads | indexer/message_processor.py:672-750 | A new post or comment is anchored at its root and every earlier thread stays right |
| Threads.EditKeepsThreads | indexer/message_processor.py:1323-1371 | An edit keeps every thread and every parent, also when it moves a root to another community |
| Threads.DeleteKeepsThreads | indexer/database.py:2729-2804 | A cascade delete keeps every thread |
| Threads.VoteKeepsThreads | indexer/message_processor.py:879-1195 | A vote keeps every thread |
| Attribution.StepKeeps | indexer/message_processor.py:672-1402 | In tables where parents may be missing: a message that is not a comment naming a community where the lookup finds none keeps every stored root the root of the parent walk, and every post counting for that root's community |
| Attribution.LookupFinds | indexer/database.py:987-1061 | Whatever a lookup finds within its limit is the root of the unbounded parent walk, with that root's community |
| Attribution.LookupFrame | indexer/database.py:1035-1056 | What a lookup writes back means what the row meant before |
| Attribution.PostKeeps | indexer/message_processor.py:672-750 | A new post under any parent keeps posts attributed, unless it names a community that the lookup does not find |
| Attribution.VoteKeeps | indexer/message_processor.py:879-1195 | A vote keeps posts attributed |
| Attribution.EditKeeps | indexer/message_processor.py:1242-1371 | An edit keeps posts attributed, also one that attaches an orphan to a parent that came later; a moved thread goes as a whole |
| Attribution.DeleteKeeps | indexer/database.py:2729-2804 | A delete keeps posts attributed |
| Orderly.StepSettles | indexer/message_processor.py:672-1402 | A message that puts no parent after its reply, adds no root without a community and names no community under an unattached parent leaves no half-attached post behind |
| Orderly.LookupAgrees | indexer/database.py:987-1061 | In such tables every lookup agrees with the row it starts from and writes nothing |
| Orderly.OnlyOwnVotes | indexer/message_processor.py:879-981 | In such tables the only messages that act for the wrong community are a changed vote on an own deleted post and a comment that names a community under a parent without a root |
| Orderly.ReadyIsPlaced | indexer/message_processor.py:706-721 | A post whose parent is indexed first is well placed and no named orphan |
| Standing.RebuildIsCanonical | indexer/database.py:2045-2049 | A full rebuild gives every pair the canonical row, and a row exactly to the pairs for which a vote, withdrawn or not, or a live post counts |
| Standing.RecomputeIsRebuild | indexer/database.py:2029-2043 | The scoped recompute gives the selected pairs exactly the rows of a full rebuild, including absent ones, and leaves every other row untouched |
| Standing.RecomputeRestores | indexer/database.py:2029-2043 | If everything outside the selected pairs was canonical and kept its canonical value, the whole table is canonical after a recompute |
| Standing.StandsIsRebuilt | indexer/database.py:2045-2049 | Canonical standing means exactly agreement with a full rebuild in `net_votes` and `post_count` on every pair |
| Standing.PostStands | indexer/message_processor.py:753-794 | For a fresh hash in any attributed tables: `net_votes` and `post_count`, and `vote_count`, stay canonical if and only if the post is not a comment that names a community where the lookup of its parent finds none |
| Standing.VoteStands | indexer/message_processor.py:914-1138 | In any attributed tables, first, changed, repeated and cleared votes keep `net_votes` canonical if and only if the vote is unchanged or the lookup finds the community where the vote counts |
| Standing.VoteTallies | indexer/message_processor.py:1116-1138 | In any attributed tables a vote keeps `vote_count` canonical if and only if what the handler adds where the lookup finds the post is what the canonical count gains where the vote counts |
| Standing.OnlyWithdrawals | indexer/message_processor.py:1116-1138 | Where lookup and row agree, that fails exactly for a vote that withdraws a counting vote or renews a withdrawn one |
| Standing.DeleteStands | indexer/database.py:2764-2797 | In any tables, a delete leaves the whole table canonical if it was so before |
| Standing.MoveStands | indexer/database.py:2051-2109 | Recomputing the communities a thread leaves and enters, for everyone who posted or voted in it, leaves the whole table canonical, also when it left none |
| Standing.EditStands | indexer/message_processor.py:1242-1371 | In any attributed tables, an edit keeps `net_votes` and `post_count` canonical if and only if it is not a comment's whose lookup finds another community than its own, and `vote_count` if and only if it is not such an edit of a comment with a standing vote |
| Counts.WalkIsChain | indexer/database.py:2818-2849 | In tables without a circle of live posts the visited and depth guards change nothing: the walk bumps exactly the live chain above the start, up to the limit |
| Counts.WalkOnce | indexer/database.py:2818-2849 | In any tables, circles included, the walk bumps a post at most once, and only its start and posts above it |
| Counts.BumpIsChain | indexer/database.py:2818-2849 | A post's count changes exactly if the post is in that chain |
| Counts.WithPostCounts | indexer/database.py:2806-2849 | Adding a post that nothing live replies to, under any parent, to right counts gives right counts, its own included, if and only if the live chain above it fits the walk limit |
| Counts.LatePostMiscounts | indexer/database.py:1130-1231 | In any tables, a post that comes after a live reply to it ends with a wrong count, even if its walk comes back to it |
| Counts.GoneIsSubtree | indexer/database.py:2739-2763 | In any tables, circles included, the recursive descendants query, started after the target is marked, finds exactly the subtree reachable through live posts; it is skipped exactly for a target without a community |
| Counts.DeleteCounts | indexer/database.py:2764-2804 | A cascade delete that subtracts one plus the target's count keeps every count right if and only if the live chain above fits the walk limit; the clamp at zero loses nothing |
| Counts.LoneCounts | indexer/database.py:2739-2767 | Marking one post alone, as for a post without a community, keeps every count right if and only if its parent is not live |
| Counts.StepCounts | indexer/message_processor.py:769-775 | In any tables without a circle of live posts, one message keeps all counts right if and only if its walk fits, a new post comes before its live replies, and a deleted post without a community has no live parent |
| Counts.StepInReach | indexer/database.py:2818-2849 | If every live chain fits the walk limit, a message that does not miscount has a walk that fits, and afterwards every live chain still does, without a circle |
| LiveTables.Projection.constructor | indexer/database.py:110-128 | The tables start empty |
| LiveTables.Projection.GetRoot | indexer/database.py:987-1061 | The walk with its visited set computes the specified lookup, with the memo columns it fills in; the visited set never changes the answer, even on a cycle |
| LiveTables.Projection.UpdateAncestorCounts | indexer/database.py:2818-2849 | The loop with its visited set and depth counter performs the specified walk and touches only the posts table |
| LiveTables.Projection.Descendants | indexer/database.py:2739-2763 | The recursive query as a loop over growing sets: everything that reaches the target through live posts |
| LiveTables.Projection.RecomputeCommunityStats | indexer/database.py:2029-2043 | Delete and two canonical inserts give the recomputed table, nothing else changing; an empty list of owners or communities changes nothing |
| LiveTables.Projection.Upsert | indexer/database.py:1130-1231 | Insert or overwrite of one post row, keeping what the conflict clause keeps |
| LiveTables.Projection.ReattributeStats | indexer/database.py:2051-2109 | Moves every post of a thread and recomputes both communities for the thread's owners and voters |
| LiveTables.Projection.OnPost | indexer/message_processor.py:672-794 | A post message takes the tables to the specified next tables |
| LiveTables.Projection.OnVote | indexer/message_processor.py:879-1195 | A vote message takes the tables to the specified next tables, including skipped votes |
| LiveTables.Projection.OnEdit | indexer/message_processor.py:1242-1371 | An edit message takes the tables to the specified next tables, including refused edits |
| LiveTables.Projection.OnDelete | indexer/database.py:2729-2804 | A delete takes the tables to the specified next tables, and reports one exactly if the post was indexed and live, has a community, and the message names no owner or its author |
| LiveTables.Projection.Cascade | indexer/database.py:2739-2797 | The two-stage marking, the count update and the recompute together are the specified subtree delete |
| LiveTables.Projection.Replay | indexer/message_processor.py:672-1402 | Any list of messages fed to the handlers ends in the tables of the specified run |
| Checkpoint.Indexer.Service | indexer/main.py:1386-1488 | Any number of lives with any nodes, start overrides and live messages, each cut short at any point: the committed database is the fold of a strictly increasing list of blocks, each applied once, with height, hash, chain id and both earnings totals from that same list. The list is cut into the lives in turn: what a life adds was read from its node for its validator, at consecutive heights from the first one it has to read, none above what was announced. Every height up to the checkpoint is indexed or in a recorded gap; every gap was recorded before or lies above the checkpoint some life began with and below what its node had dropped or its start override skipped; the history is never called complete again once it was not; each block follows one of the same chain, whose block the node was seen to hold unless it had dropped it; and lives on nodes that keep every block skip none and confirm every joint |
| Checkpoint.LivesReplay | indexer/main.py:1177-1182 | Lives on nodes that keep every block and whose hashes bind: however often they were cut short, the committed data is the plain uninterrupted replay of blocks 1 to the checkpoint of one of those nodes, and the stored hash is its block there |
| Checkpoint.LivesEarn | indexer/main.py:881-903 | Lives that follow one validator on one chain: the totals of a complete history are what that validator was minted and paid in fees in blocks 1 to the checkpoint, each once |
| Checkpoint.Indexer.Live | indexer/main.py:1451-1488 | One life, cut short anywhere: the history grows by blocks of this life alone, new gaps lie between the checkpoint and the heights it may skip, every height it does skip is a gap with its reason, a life that has nothing to skip keeps the history complete, and a life that is not cut short ends at the height computed from head and feed |
| Checkpoint.EndIsHighest | indexer/main.py:1386-1403 | That height is at least the head and every announced height, and is one of them or the old checkpoint; unless the first block the node still has is above its head |
| Checkpoint.Indexer.Arrive | indexer/main.py:1451-1481 | Start, continuity check and catch-up: the blocks added are those of this life, and a process that lives on agrees with the database and may follow the feed |
| Checkpoint.Indexer.Follow | indexer/main.py:1386-1407 | The blocks added are consecutive from the checkpoint on, of one node for one validator, none above what the feed told of; a process that lives on is at the highest height announced |
| Checkpoint.HighestIs | indexer/main.py:1386-1403 | The height a followed feed ends at is the largest of the checkpoint and the announcements |
| Checkpoint.Indexer.ProcessBlock | indexer/main.py:480-563 | One block commits as a whole or not at all; the counters bumped in memory never differ from the committed ones while the process lives on |
| Checkpoint.Indexer.Accumulate | indexer/main.py:881-903 | The counters raised in memory and the values to be stored are the committed ones plus this block's |
| Checkpoint.Indexer.Commit | indexer/main.py:526-553 | The transaction writes tables, counters, height, hash and chain id of one block together |
| Checkpoint.Indexer.RecordGap | indexer/main.py:1154-1175 | The gaps grow by heights of the new range alone and lose no reason at any height; if the process lives on they cover all of the range with the given reason and the history is no longer complete; a crash between the two writes keeps the durable invariant |
| Checkpoint.Indexer.VerifyContinuity | indexer/main.py:1177-1301 | Refuses exactly another chain id, a checkpoint above the head, or, where the node still has it, another block at the checkpoint or at a recent row; never touches the blocks; and records the gap exactly when the node has pruned past the checkpoint |
| Checkpoint.AcceptsOwnChain | indexer/main.py:1177-1301 | A node of the same chain that has the checkpoint and agrees with the recent rows is never refused |
| Checkpoint.RefusesOthers | indexer/main.py:1177-1301 | One with another chain id, with its head below the checkpoint, or with another block at the checkpoint or at a recent row that it still has is always refused |
| Checkpoint.Indexer.Compare | indexer/main.py:1240-1290 | The loop over recent rows and the checkpoint's hash finds a difference exactly if there is one among the heights the node still has |
| Checkpoint.Indexer.CatchUp | indexer/main.py:1307-1384 | Appends the blocks of this node for this validator from that first height, height by height, up to the head unless the process dies; every height between checkpoint and first height is recorded as a gap before any block is read; the checkpoint ends at the head, or where it was if there was nothing to read |
| Checkpoint.FirstHeight | indexer/main.py:1323-1345 | The first height to read is the largest of 1, what the node still has, and the start override or, without one, the height after the checkpoint |
| Checkpoint.Indexer.OnMessage | indexer/main.py:1386-1407 | Appends the blocks of this node for this validator from the one after the checkpoint, height by height, up to the announced one unless the process dies; an old or malformed announcement reads none |
| Checkpoint.Indexer.Start | indexer/main.py:199-235 | A new life loads the counters and the height from the committed state, and a start height is refused on a database that holds blocks |
| Checkpoint.Indexer.constructor | indexer/database.py:947-952 | An empty database satisfies the invariant |
| Checkpoint.Indexer.RecordSkips | indexer/main.py:1323-1345 | Everything between the checkpoint and the first height to be read, and nothing else, is recorded as a gap before it is skipped, with the reason for a start override, for a checkpoint behind the pruning window or for a fresh start |
| Checkpoint.Indexer.ReadBlocks | indexer/main.py:1355-1357 | Appends exactly the blocks of a range of this node for this validator, in order, once each; a prefix of them if the process dies |
| Checkpoint.CommitFolds | indexer/main.py:526-553 | Committing the next block of a chain that joins keeps the database a fold |
| Checkpoint.CommitAccounts | indexer/main.py:1154-1168 | Committing the next block keeps every height accounted for, provided the skipped ones are |
| Checkpoint.OneChain | indexer/main.py:1177-1182 | If hashes bind the blocks before them and every joint was confirmed, then whatever nodes served the blocks, the data is the fold of the chain of the last one |
| Checkpoint.CompleteHistory | indexer/main.py:1154-1168 | If the flag does not say false, the committed data is the fold of every block from 1 to the checkpoint with none missing |
| Checkpoint.SameCheckpointSameData | indexer/main.py:1355-1371 | Two databases with complete history, confirmed joints and one checkpoint, height and hash, hold the same data, whatever nodes served them and however their runs were interrupted |
| HistoryGaps.Merge | indexer/main.py:1128-1152 | Refuses exactly the inputs with a malformed range; otherwise sorted, disjoint, non-adjacent ranges covering exactly the heights of the input, each with exactly the words of the reasons merged into it |
| HistoryGaps.MergeSays | indexer/main.py:1142-1151 | Merging loses no reason at any height |
| HistoryGaps.MergeNext | indexer/main.py:1144-1151 | One more sorted range extends the last merged one or starts a new one, and heights and reasons stay right |
| Reasons.JoinReasons | indexer/main.py:1147-1149 | The first reason if both are equal, otherwise its words and the second reason, sorted and joined; the words are those of both |
| Reasons.WordsOfJoin | indexer/main.py:1148-1149 | Splitting a joined reason gives the words of its parts |
| Reasons.SplitJoin | indexer/main.py:1148-1149 | Splitting a list of words joined by bars gives the list |
| Reasons.WordsAreSplit | indexer/main.py:1148 | The words of a reason are the parts between bars that are not empty |
| Reasons.LessIsLexicographic | indexer/main.py:1149 | The order of words is decided where they first differ |
| Reasons.Sorted | indexer/main.py:1149 | The words in strictly ascending order, none lost or added |
| HistoryGaps.NormalUnique | indexer/main.py:1142-1151 | There is one such list of ranges for a set of heights |
| HistoryGaps.MergeDependsOnHeights | indexer/main.py:1128-1152 | Two inputs merge to the same ranges if and only if they cover the same heights: order, duplication and repetition do not matter |
| HistoryGaps.Sort | indexer/main.py:1141 | A sorted permutation |
| Bech32.ChecksumCloses | indexer/address_utils.py:10-29 | Six 5-bit symbols after prefix and data bring the register to 1 if and only if they are the computed checksum, for every prefix and all data (BIP 173, section "Bech32") |
| Bech32.ChecksumShape | indexer/address_utils.py:26-29 | The checksum is six 5-bit symbols |
| Bech32.GeneratorIsPolynomial | indexer/address_utils.py:11 | The five generator words are the generator polynomial of BIP 173 times 1, 2, 4, 8 and 16 in the field of 32 elements |
| Bech32.HrpExpandSplits | indexer/address_utils.py:22-23 | The expansion of the prefix holds the high part of each character, a zero and the low five bits of each |
| Bech32.PushAllLinear | indexer/address_utils.py:13-18 | The register is linear over exclusive or |
| Bech32.PushAllPacks | indexer/address_utils.py:13-18 | Symbols pushed into an empty register that do not overflow it are just packed |
| Bech32.PushFits | indexer/address_utils.py:13-18 | The register never exceeds 30 bits |
| Bech32.Polymod | indexer/address_utils.py:10-19 | The loop computes the register |
| Bech32.AddFeedback | indexer/address_utils.py:16-18 | The inner loop adds exactly the words selected by the bits shifted out |
| Regroup.ConvertBits | indexer/address_utils.py:54-69 | The output digits spell the input's number, shifted by the padding, in the exact length; without padding, refused exactly if the rest is a whole digit or not zero |
| Regroup.UnpaddedRefuses | indexer/address_utils.py:54-69 | Without padding, refused exactly if the rest is a whole input digit or not zero |
| Regroup.RoundTrip | indexer/address_utils.py:54-69 | Unpadded regrouping undoes padded regrouping if and only if the padding is narrower than an input digit; for digits no wider than the input's, as 8 to 5, always |
| Regroup.AddressOfDigest | indexer/address_utils.py:32-51 | The address of a digest exists and is its regrouped, checksummed spelling |
| Regroup.AddressMatchesPattern | indexer/message_processor.py:312 | The address of every 20-byte digest matches the address pattern of the indexer |
| Regroup.AddressInjective | indexer/address_utils.py:32-51 | Two digests of one length never share an address |
| Wire.ScalarFields | indexer/message_processor.py:168-199 | Accepts exactly the byte strings that the wire grammar cuts into records, to the last byte, and returns each field's values in order |
| Wire.ReadVarint | indexer/message_processor.py:156-165 | Reads the varint at the offset if there is one of at most ten bytes, and otherwise refuses; the offset strictly advances and stays inside |
| Wire.LongVarintRefused | indexer/message_processor.py:156-165 | Ten bytes that all go on are no varint |
| Wire.VarintExample | indexer/message_processor.py:156-165 | The example of the Encoding guide: the bytes 96 01 are 150 |
| Wire.BadKeyRefused | indexer/message_processor.py:171-198 | No record begins with a key of field zero or of a wire type other than 0, 1, 2 and 5 |
| Wire.ReadPayload | indexer/message_processor.py:175-198 | Reads the payload of its wire type or refuses because there is none |
| Wire.ReadRecord | indexer/message_processor.py:171-198 | Reads one record or refuses because none starts here |
| Wire.MessageUnique | indexer/message_processor.py:168-199 | A byte string has at most one reading (Protocol Buffers Encoding guide) |
| Wire.GroupedByField | indexer/message_processor.py:168-199 | The value list of a field is the records of that field in order |
| Wire.ValuesInOrder | indexer/message_processor.py:168-199 | The values of a field in a list of records followed by another are those of the first and then of the second |
| Wire.ValueOfOne | indexer/message_processor.py:168-199 | One record gives its value to its own field alone |
| Wire.DecodeEncode | indexer/message_processor.py:168-199 | Decoding the encoding of any list of varint, fixed 32, fixed 64 and bytes records gives back each field's values in order |
| Wire.RepeatedVarints | indexer/message_processor.py:212-224 | The numbers of a field in order: consecutive stretches of the result are what its values stand for; or refused because some chunk is not a list of varints |
| Wire.ReadPacked | indexer/message_processor.py:216-222 | Reads a packed chunk to its end or refuses because it spells no list |
| Wire.SpellsUnique | indexer/message_processor.py:212-224 | A value stands for one list of numbers |
| Wire.AnyMixFlattens | indexer/message_processor.py:212-224 | Whatever values stand for the stretches of a list, single or packed, that list comes out, in order |
| Wire.NumbersConcat | indexer/message_processor.py:212-224 | The numbers of some values followed by others are the numbers of the first and then of the second |
| Wire.NumbersOne | indexer/message_processor.py:212-224 | A single number stands for itself |
| Wire.PackedSpells | indexer/message_processor.py:212-224 | Packing any numbers and reading them back is the identity |
| Glob.UnblockIsMatching | indexer/database.py:2705-2727 | The translated pattern with escape # matches exactly the communities the glob matches, with * as its only wildcard and case ignored, for every pattern and community |
| Glob.UnblockIgnoresCase | indexer/database.py:2705-2727 | The case of letters in pattern and community makes no difference |
| Glob.LowerExactly | indexer/database.py:2705-2727 | Two texts are equal in lower case exactly if they differ in the case of letters at most |
| Glob.MatchesSplit | indexer/database.py:2705-2709 | A glob matches a text exactly if its two halves match two halves of the text |
| Glob.MatchesOne | indexer/database.py:2705-2709 | A star matches every text, any other character itself alone |
| Glob.TranslationKeepsMeaning | indexer/database.py:2705-2727 | A character-by-character translation that escapes the escape keeps the meaning of every pattern; one that does not, that of every pattern without the escape |
| Glob.HashIsTranslated | indexer/database.py:2705-2727 | The chain of replacements is that translation |
| Glob.BackslashIsTranslated | indexer/database.py:2600-2618 | So is the backslash chain, except that it leaves backslashes alone |
| Glob.LeaveIsMatching | indexer/database.py:2600-2618 | Leaving by pattern agrees with the glob on every community if and only if the pattern does not hold both a * and a backslash |
| Glob.LeaveCounterexample | indexer/database.py:2600-2618 | For every pattern with both, a community on which they differ |
| Watchdog.Loop.Run | scripts/divergence_watchdog.py:1323-1723 | Over every run in every environment, whatever the clock does, restarts, peer-pulls and memory are exactly those computed from the polls. Every peer-pull and every restart was done in one of the polls, with its cause in the polls up to it: an unanswered and dead node after enough unanswered polls in a row, a divergence in the log, during catch-up only after enough time with one height, or peers far ahead after enough equal heights in a row. A peer-pull has the gate ready, no halt, dry-run off, the marker absent, and the cool-down over or a failed restart of a dead process in the same poll; an escalated one follows a restart of the same poll for the same trigger. A restart has no halt, dry-run off, the marker absent, and the cool-down over unless the process was dead. If the clock readings never go back, no window of the escalation length holds more recorded stall restarts than the escalation threshold |
| Watchdog.EveryPull | scripts/divergence_watchdog.py:1617-1705 | Every peer-pull computed for a run belongs to a poll that has its cause, its guards and, if escalated, its restart |
| Watchdog.EveryRestart | scripts/divergence_watchdog.py:1617-1655 | Every restart computed for a run belongs to a poll that has its cause and its guards |
| Watchdog.TriggerCaused | scripts/divergence_watchdog.py:1366-1590 | Whatever a poll of a run notices is explained by what it saw itself, and the heights read, the unanswered polls or the time with one height up to it |
| Watchdog.MustNotice | scripts/divergence_watchdog.py:1366-1473 | From the polls alone, both ways: a dead process and a divergence in the log are noticed exactly when the unanswered polls, the log and, during catch-up, the time with one height say so |
| Watchdog.MustStall | scripts/divergence_watchdog.py:1551-1569 | A stall is noticed exactly if enough readings are kept and equal this one, peers are far ahead and no divergence is in the log |
| Watchdog.ClockIs | scripts/divergence_watchdog.py:1423-1426 | The height clock shows the time of the first answered poll of the stretch that reads one height, or what it showed before the run |
| Watchdog.StuckIs | scripts/divergence_watchdog.py:1423-1473 | It says stuck exactly if the answered polls of a stretch up to this one all read one height and the stretch is long enough |
| Watchdog.DoneExactly | scripts/divergence_watchdog.py:1617-1705 | The restart that a poll records and the peer-pull that it does, from what it noticed, counted and saw |
| Watchdog.HistoryKept | scripts/divergence_watchdog.py:1636-1709 | The height history survives a poll that did nothing or was cut short, and is cleared by one that acted |
| Watchdog.RecentAfter | scripts/divergence_watchdog.py:1317-1321 | The deque is pruned when the guards are reported and when the poll decides, and takes the restart |
| Watchdog.LagExactly | scripts/divergence_watchdog.py:1530-1535 | Peers too far ahead prolong the count of such polls, others end it |
| Watchdog.SilenceIs | scripts/divergence_watchdog.py:1366-1413 | The counter of unreachable polls is the number of unanswered polls in a row among those that asked |
| Watchdog.ReadingsRead | scripts/divergence_watchdog.py:1306-1507 | The bounded history is always the end of the heights read outside catch-up, whatever cleared it in between |
| Watchdog.Loop.Rounds | scripts/divergence_watchdog.py:1323-1723 | The loop over the polls computes exactly those restarts, peer-pulls and that memory |
| Watchdog.Loop.Round | scripts/divergence_watchdog.py:1323-1723 | One poll under any clock, ended by an exception at any of its stages or not at all: the trigger, the restarts counted, the restarts and peer-pulls done and the memory kept are functions of the poll and of the memory before; a stall is noticed only after enough equal heights; and while the clock has not gone back the count is that of all restarts inside the window |
| Watchdog.Loop.Dispatch | scripts/divergence_watchdog.py:1617-1709 | Exactly the restart and the peer-pull that the ladder decides on the pruned deque, and the memory after them |
| Watchdog.Loop.Execute | scripts/divergence_watchdog.py:1636-1709 | What was decided is executed, recorded and escalated; the height history is cleared exactly if something was executed and no exception came first |
| Watchdog.Loop.ExecuteRestart | scripts/divergence_watchdog.py:1651-1705 | A restart is recorded unless an exception comes between running and recording it, and escalates exactly if it failed and the rules allow it |
| Watchdog.Loop.DoRestart | scripts/divergence_watchdog.py:1652-1655 | A restart is recorded and the deque stays exact |
| Watchdog.Loop.Escalate | scripts/divergence_watchdog.py:1675-1705 | A peer-pull follows a restart exactly if the restart failed and the escalation allows it |
| Watchdog.Loop.CountRecent | scripts/divergence_watchdog.py:1317-1321 | The deque loses exactly its front entries before the cutoff; while the clock has not gone back, its length is the number of all restarts ever recorded that lie inside the window |
| Watchdog.Loop.DropBefore | scripts/divergence_watchdog.py:1319-1320 | The loop pops exactly the front entries before the cutoff |
| Watchdog.PrunedRemembers | scripts/divergence_watchdog.py:1317-1321 | While the clock has not gone back, pruning keeps exactly the restarts inside the window |
| Watchdog.Loop.Observe | scripts/divergence_watchdog.py:1506-1590 | Under any clock: the trigger and the memory of a reading outside catch-up, and the trailing-peers warning exactly when it is due; a stall only after enough equal heights in a row, and never in a poll that raises the warning |
| Watchdog.Loop.Measure | scripts/divergence_watchdog.py:1506-1537 | The reading enters the history, the count of trailing polls goes up or back to zero, and the warning is raised exactly if the peers have been too far ahead for long enough while the height still advances |
| Watchdog.Loop.Weigh | scripts/divergence_watchdog.py:1538-1569 | The deque is pruned, and the two signals decide the trigger |
| Watchdog.Loop.Signal | scripts/divergence_watchdog.py:1551-1569 | A divergence in the log comes before a stall; a stall is signalled only on a full history of equal heights, which is also the end of all heights read |
| Watchdog.Loop.ObserveCatchUp | scripts/divergence_watchdog.py:1428-1473 | During catch-up a divergence is found if and only if the height is frozen long enough, the log shows one and two healthy peers are ahead; the height history is dropped |
| Watchdog.Loop.Look | scripts/divergence_watchdog.py:1423-1590 | The height clock, the trigger and the memory of a reading are the specified ones |
| Watchdog.Loop.Notice | scripts/divergence_watchdog.py:1365-1600 | A dead process is noticed exactly after enough unreachable polls in a row without one; otherwise what the reading shows |
| Watchdog.Loop.Append | scripts/divergence_watchdog.py:1507 | The bounded history holds the latest readings |
| Watchdog.Loop.constructor | scripts/divergence_watchdog.py:1306-1314 | Nothing done yet |
| Watchdog.StallsAreRare | scripts/divergence_watchdog.py:875-899 | The bound on stall restarts in a window, from the spacing alone |
| Watchdog.StallSilencesLag | scripts/divergence_watchdog.py:733-747 | A full history of equal heights silences the trailing-peers warning |
| Watchdog.LadderExactly | scripts/divergence_watchdog.py:750-978 | When each action results, for every trigger and every reading: right state is restarted, wrong state replaced behind gate and cool-down, a halt or a shut gate only alerts, a dead process is restarted whatever the cool-down; and when a failed restart escalates |
| Watchdog.Guarded | scripts/divergence_watchdog.py:750-978 | Whatever is decided for what a poll shows, a resulting peer-pull has every guard down, a resulting restart too and is never for a divergence in the log, and a stall restart is below the threshold; no peer-pull under a halt, in dry-run or with the gate shut |
| Watchdog.CountTrailingEqual | scripts/divergence_watchdog.py:982-993 | The loop counts the equal readings at the end |
| Genesis.Rewrite | scripts/reset_local_testnet.py:821-977 | Succeeds exactly if both pools, the validator and readable funds are there; then one validator holds the whole stake, supply follows the bonded pool, and no account but the pools and the validator's is touched in any denomination |
| Genesis.SupplyDrifts | scripts/reset_local_testnet.py:922-977 | A step towards `TidyPools`: the umirage supply ends up away from the sum of balances by the drift computed from the export |
| Genesis.OtherSupplies | scripts/reset_local_testnet.py:922-930 | A right supply of any other denomination stays right if and only if the pools held none of it |
| Genesis.TidyPools | scripts/reset_local_testnet.py:849-977 | With one row and one umirage coin per pool, supply stays the sum of balances if and only if the bonded pool is listed or there is no stake; bonded pool, tokens and shares are one amount, the bonded tokens and the other pool together; supply grows by the extra funds alone if and only if the old bonded pool held the bonded tokens; the power is the tokens in millions |
| Genesis.RewriteBank | scripts/reset_local_testnet.py:922-963 | Every account's holding after pools and grant, and when the grant is refused |
| Genesis.ReplacePools | scripts/reset_local_testnet.py:922-930 | Every account's holding, the total and the first rows after the pools are replaced; the rows of all other accounts stay, in order |
| Genesis.AmountConcat | scripts/reset_local_testnet.py:922-930 | What coins amount to is the sum over the entries of the denomination |
| Genesis.HeldConcat | scripts/reset_local_testnet.py:922-930 | What an account holds, and what all hold, is the sum over the rows |
| Genesis.GrantFunds | scripts/reset_local_testnet.py:931-957 | The validator's account alone gains the extra funds, in its first row, or in a new one if it has none; refused exactly if its first umirage amount is not a number |
| Genesis.AddUmirage | scripts/reset_local_testnet.py:970-977 | The first umirage entry gains the amount and nothing else changes, or one is appended |
| Genesis.ReadPools | scripts/reset_local_testnet.py:854-867 | The last umirage amount listed for each pool |
| Genesis.LastListedNext | scripts/reset_local_testnet.py:854-867 | A later row of the account overrides an earlier one, by its last umirage entry; rows of others do not matter |
| Genesis.ListedIsHeld | scripts/reset_local_testnet.py:854-867 | With one row and one coin that reading is the holding |
| Genesis.SumBonded | scripts/reset_local_testnet.py:849-852 | The tokens of bonded validators |
| Genesis.BondedAdds | scripts/reset_local_testnet.py:849-852 | A bonded validator adds its tokens, wherever it stands, and another one nothing |
| Genesis.FindValidator | scripts/reset_local_testnet.py:648-654 | The first validator with the consensus key |
| Snapshots.Indexer.ProcessBlock | indexer/main.py:521-555 | A block is committed if and only if no item is rejected, none is refused a read and none fails otherwise; it ends at the first item that does, for that reason. A read is refused exactly where an item appoints, or is signed by, an administrator of this block who had no quota in the rows before it and whom no item of the block subscribes. A block that is not committed leaves the profiles alone, and the snapshots are dropped in any case |
| Snapshots.EndsOnce | indexer/main.py:521-543 | That ending is the only one a block can have |
| Snapshots.MissExactly | indexer/main.py:397-478 | A sealed read is refused if and only if the item appoints an administrator outside the snapshots, or its signer is one whose last level written in this block is that high |
| Snapshots.UnliftedHits | indexer/message_processor.py:572-658 | If no level or username message lifts a profile outside the snapshots to level 100, every sealed read hits, although tiers are filtered on the rows before the block and change during it |
| Snapshots.TierIsWritten | indexer/database.py:1330-1346 | A profile outside the snapshots enters a relay-quota tier only by a level written in the block |
| Snapshots.AppointmentIsRefused | indexer/message_processor.py:2021-2062 | Appointing an administrator who was in no tier before the block is always refused |
| Snapshots.Indexer.Project | indexer/main.py:521-543 | The items in order, up to the first that is rejected or refused |
| Snapshots.Indexer.ProjectItem | indexer/message_processor.py:572-658 | An item is served exactly if it does not meet a profile that the block made an administrator, and then writes its profiles |
| Snapshots.Indexer.Prefetch | indexer/main.py:404-469 | The snapshots are exactly the keys some item or event fetches, told from the items and the rows before the block |
| Snapshots.PrefetchedExactly | indexer/main.py:397-469 | A runtime is fetched exactly for a profile that some item subscribes, or that signs an item or is the target of a level message and had a quota before the block; an epoch, the schedule and tranches exactly for the items about them |
| Snapshots.ReadsExactly | indexer/message_processor.py:572-658 | What an item reads: the runtime of a profile it subscribes, of one it makes an administrator and of its signer if that one has a quota by then; the epochs it claims for somebody; the schedule; tranches |
| Snapshots.WritesExactly | indexer/database.py:1330-1346 | What an item does to each row: a subscription takes it over from the chain, a level message sets the level, a username message takes the level over, and nothing else changes |
| Snapshots.RaisesExactly | indexer/message_processor.py:572-658 | An item is rejected exactly if there is nobody to act for, nothing to claim, or no profile on the chain where one is named |
| Snapshots.EndsByRows | indexer/main.py:521-543 | The refusal of a block, told from the items and the rows before it |
| Snapshots.Indexer.ReadAll | indexer/chain_client.py:839-842 | A sealed item is served exactly if all its keys are cached, and serving it changes no snapshot |
| Snapshots.Indexer.FetchAll | indexer/main.py:460-469 | Every key asked for is cached, and no other |
| Snapshots.CollectKeys | indexer/main.py:397-459 | The loop collects exactly the keys of all items |
| Snapshots.Indexer.Query | indexer/chain_client.py:827-904 | The cached answer, a refusal once sealed, or the node's answer kept for the block; sealing freezes the snapshots |

## Left out

- `unique_root_posts`, `community_content_stats`, preferences and vote weights: these columns are not in the tables of the model.
- Post metadata read back from the chain is assumed to agree with the message.
- Whitespace-only community names, Unicode case folding beyond ASCII, the collation of the database, and a root backfill that fails and is rolled back to its savepoint.
- SHA-256 and RIPEMD-160: a digest is a parameter of the address.
- RunCountsExactly: a post that names its own hash as its parent is not covered; a transaction cannot contain its own hash.
- Checkpoint: what one block writes is an arbitrary function of the tables before it and of the chain. Tables written outside blocks (profile sync, startup resync, migrations) are not part of the data. A node that changes its chain while the process runs is not modelled, nor is a database from before the checkpoint stored hash and chain id.
- Checkpoint: the earnings totals follow the validator address resolved in each life.
- Watchdog: log scanning, disk and I/O pressure alerts, alert rate limiting, log retention and the sleep between polls; cool-down remainders are observations. The bound on stall restarts is about restarts that were recorded; one whose recording an exception prevented is not counted by the program either.
- Genesis: parsing of amounts, missing coin lists, signing infos, the auth account, profiles and core parameters of the genesis file.
- Snapshots: the contents of the snapshots, curation queries, and failures that depend on them, such as an event that disagrees with the profile it names; these appear as an item that aborts.
- `_disjoint` of `deploy/refresh_asn_db.py`: the overlap remover for address ranges.
- The HTTP backend, the frontend, deployment, backup and fleet scripts, `stake.py` and the bootstrap arithmetic.
