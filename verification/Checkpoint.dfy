/** The block checkpoint protocol of `indexer/main.py`: catch-up, live feed, gaps left by
    pruning, and a process that may die between any two steps and be started again. */
module Checkpoint {
  import opened HistoryGaps
  import Reasons
  import opened Wrappers

  type Address = int

  /** A chain as a node serves it. `project` is everything one block writes to the projected tables;
      `minted` and `fees` are what a block pays to and takes from one validator. */
  datatype Chain<!D> = Chain(
    id: int, project: (D, nat) -> D, hash: nat -> int,
    minted: (nat, Address) -> nat, fees: (nat, Address) -> nat)

  /** What the database holds between transactions. */
  datatype Store<D> = Store(
    height: nat, hash: Option<int>, chainId: Option<int>, data: D, minted: nat, fees: nat, gaps: seq<Gap>, complete: bool)

  /** One committed block: its height, the validator the process was following, the chain it was read
      from, and whether that chain was seen to hold the block before it. If it was not, the node had
      already dropped everything below `floor`. */
  datatype Entry<!D> = Entry(height: nat, validator: Option<Address>, node: Chain<D>, linked: bool, floor: nat)

  // ---- What a history of committed blocks amounts to ----

  function DataOf<D>(empty: D, log: seq<Entry<D>>): D {
    if log == [] then empty
    else log[|log| - 1].node.project(DataOf(empty, log[..|log| - 1]), log[|log| - 1].height)
  }

  function MintedIn<D>(e: Entry<D>): nat {
    if e.validator.Some? then e.node.minted(e.height, e.validator.value) else 0
  }

  function FeesIn<D>(e: Entry<D>): nat {
    if e.validator.Some? then e.node.fees(e.height, e.validator.value) else 0
  }

  function MintedOf<D>(log: seq<Entry<D>>): nat {
    if log == [] then 0 else MintedOf(log[..|log| - 1]) + MintedIn(log[|log| - 1])
  }

  function FeesOf<D>(log: seq<Entry<D>>): nat {
    if log == [] then 0 else FeesOf(log[..|log| - 1]) + FeesIn(log[|log| - 1])
  }

  function Top<D>(log: seq<Entry<D>>): nat {
    if log == [] then 0 else log[|log| - 1].height
  }

  ghost predicate Indexed<D>(log: seq<Entry<D>>, h: nat) {
    exists i :: 0 <= i < |log| && log[i].height == h
  }

  /** Heights strictly increase: no block is applied twice, none out of order. */
  ghost predicate Ascending<D>(log: seq<Entry<D>>) {
    forall i, j :: 0 <= i <= j < |log| ==> InTurn(log, i, j)
  }

  ghost predicate InTurn<D>(log: seq<Entry<D>>, i: nat, j: nat)
    requires i <= j < |log|
  {
    log[i].height >= 1 && (i < j ==> log[i].height < log[j].height)
  }

  /** A block read from `node` may follow the history: the same chain id, and the same block at the
      joint, unless that block was already dropped by the node. */
  ghost predicate Joins<D>(log: seq<Entry<D>>, node: Chain<D>, linked: bool, floor: nat) {
    log != [] ==>
      && log[|log| - 1].node.id == node.id
      && (if linked then node.hash(Top(log)) == log[|log| - 1].node.hash(Top(log)) else Top(log) < floor)
  }

  ghost predicate JoinsAt<D>(log: seq<Entry<D>>, i: nat)
    requires i < |log|
  {
    Joins(log[..i], log[i].node, log[i].linked, log[i].floor)
  }

  ghost predicate Continuous<D>(log: seq<Entry<D>>) {
    forall i :: 0 <= i < |log| ==> JoinsAt(log, i)
  }

  /** The store is exactly what folding the committed blocks gives. */
  ghost predicate Folded<D>(empty: D, s: Store<D>, log: seq<Entry<D>>) {
    && Ascending(log) && Continuous(log)
    && s.height == Top(log)
    && s.hash == (if log == [] then None else Some(log[|log| - 1].node.hash(Top(log))))
    && s.chainId == (if log == [] then None else Some(log[|log| - 1].node.id))
    && s.data == DataOf(empty, log) && s.minted == MintedOf(log) && s.fees == FeesOf(log)
  }

  /** Every height up to the checkpoint was indexed or is recorded as a gap, and a checkpoint that
      has passed an unindexed height no longer claims a complete history. */
  ghost predicate Accounted<D>(s: Store<D>, log: seq<Entry<D>>) {
    WellFormed(s.gaps) && forall h: nat :: 1 <= h <= s.height ==> AccountedAt(s.gaps, s.complete, log, h)
  }

  ghost predicate AccountedAt<D>(gaps: seq<Gap>, complete: bool, log: seq<Entry<D>>, h: nat) {
    Indexed(log, h) || (Covers(gaps, h) && !complete)
  }

  /** Everything between the checkpoint and `h` is recorded as a gap, and the history admits it. */
  ghost predicate SkipAllowed<D>(s: Store<D>, h: nat) {
    (s.height + 1 < h ==> !s.complete) && forall k: nat :: s.height < k < h ==> SkippedAt(s.gaps, k)
  }

  ghost predicate SkippedAt(gaps: seq<Gap>, k: nat) {
    Covers(gaps, k)
  }

  /** The store after the block of `e` is committed. */
  function Committed<D>(s: Store<D>, e: Entry<D>): Store<D> {
    s.(height := e.height, hash := Some(e.node.hash(e.height)), chainId := Some(e.node.id),
       data := e.node.project(s.data, e.height), minted := s.minted + MintedIn(e), fees := s.fees + FeesIn(e))
  }

  lemma AtZero<D>(log: seq<Entry<D>>)
    requires Ascending(log)
    ensures Top(log) == 0 <==> log == []
  {
    if log != [] { assert InTurn(log, |log| - 1, |log| - 1); }
  }

  lemma AscendsNext<D>(log: seq<Entry<D>>, e: Entry<D>)
    requires Ascending(log) && Top(log) < e.height
    ensures Ascending(log + [e])
  {
    var next := log + [e];
    forall i, j | 0 <= i <= j < |next| ensures InTurn(next, i, j) {
      if j < |log| {
        assert InTurn(log, i, j);
      } else if i < j {
        assert InTurn(log, i, |log| - 1);
      }
    }
  }

  lemma ContinuesNext<D>(log: seq<Entry<D>>, e: Entry<D>)
    requires Continuous(log) && Joins(log, e.node, e.linked, e.floor)
    ensures Continuous(log + [e])
  {
    var next := log + [e];
    forall i | 0 <= i < |next| ensures JoinsAt(next, i) {
      assert next[..i] == log[..i];
      if i < |log| { assert JoinsAt(log, i); } else { assert log[..i] == log; }
    }
  }

  lemma CommitFolds<D>(empty: D, s: Store<D>, log: seq<Entry<D>>, e: Entry<D>)
    requires Folded(empty, s, log) && s.height < e.height && Joins(log, e.node, e.linked, e.floor)
    ensures Folded(empty, Committed(s, e), log + [e])
  {
    var next := log + [e];
    assert next[..|next| - 1] == log;
    AscendsNext(log, e);
    ContinuesNext(log, e);
  }

  lemma CommitAccounts<D>(s: Store<D>, log: seq<Entry<D>>, e: Entry<D>)
    requires Accounted(s, log) && s.height < e.height && SkipAllowed(s, e.height)
    ensures Accounted(Committed(s, e), log + [e])
  {
    var next := log + [e];
    forall k: nat | 1 <= k <= e.height ensures AccountedAt(s.gaps, s.complete, next, k) {
      if k == e.height {
        assert next[|log|].height == k;
      } else if k <= s.height {
        assert AccountedAt(s.gaps, s.complete, log, k);
        if Indexed(log, k) {
          var i :| 0 <= i < |log| && log[i].height == k;
          assert next[i].height == k;
        }
      } else {
        assert SkippedAt(s.gaps, k);
      }
    }
  }

  lemma GapsAccount<D>(s: Store<D>, log: seq<Entry<D>>, gaps: seq<Gap>, complete: bool)
    requires Accounted(s, log) && WellFormed(gaps) && (complete ==> s.complete)
    requires forall h :: Covers(s.gaps, h) ==> Covers(gaps, h)
    ensures Accounted(s.(gaps := gaps, complete := complete), log)
  {
    forall h: nat | 1 <= h <= s.height ensures AccountedAt(gaps, complete, log, h) {
      assert AccountedAt(s.gaps, s.complete, log, h);
    }
  }

  /** A database that still claims a complete history holds every block from 1 to its checkpoint,
      once each and in order. */
  lemma {:induction false} CompleteHistory<D>(empty: D, s: Store<D>, log: seq<Entry<D>>, n: nat)
    requires Folded(empty, s, log) && Accounted(s, log) && s.complete && n <= s.height
    ensures n <= |log| && forall i :: 0 <= i < n ==> log[i].height == i + 1
    ensures n == s.height ==> |log| == n
  {
    if n > 0 {
      CompleteHistory(empty, s, log, n - 1);
      assert AccountedAt(s.gaps, s.complete, log, n);
      var j :| 0 <= j < |log| && log[j].height == n;
      assert j >= n - 1;
      assert InTurn(log, n - 1, j);
      if n > 1 { assert InTurn(log, n - 2, n - 1); }
      assert InTurn(log, n - 1, |log| - 1);
    } else if s.height == 0 {
      AtZero(log);
    }
  }

  // ---- One chain ----

  /** Block hashes bind what came before: chains with one block in common agree up to it. */
  ghost predicate Binding<D(!new)>(c: Chain<D>, d: Chain<D>) {
    forall h: nat, k: nat :: k <= h && c.hash(h) == d.hash(h) ==> AgreeAt(c, d, k)
  }

  ghost predicate AgreeAt<D(!new)>(c: Chain<D>, d: Chain<D>, k: nat) {
    c.hash(k) == d.hash(k) && forall x :: c.project(x, k) == d.project(x, k)
  }

  /** The fold of the blocks of one chain at the heights of a history. */
  function DataOn<D>(empty: D, c: Chain<D>, log: seq<Entry<D>>): D {
    if log == [] then empty else c.project(DataOn(empty, c, log[..|log| - 1]), log[|log| - 1].height)
  }

  lemma {:induction false} SameOn<D(!new)>(empty: D, c: Chain<D>, d: Chain<D>, log: seq<Entry<D>>, h: nat)
    requires Binding(c, d) && c.hash(h) == d.hash(h) && forall i :: 0 <= i < |log| ==> log[i].height <= h
    ensures DataOn(empty, c, log) == DataOn(empty, d, log)
  {
    if log != [] {
      SameOn(empty, c, d, log[..|log| - 1], h);
      assert AgreeAt(c, d, log[|log| - 1].height);
    }
  }

  /** If every joint was confirmed and hashes bind, then whatever nodes served the blocks, the data is
      that of the chain of the last one. */
  lemma {:induction false} OneChain<D(!new)>(empty: D, log: seq<Entry<D>>)
    requires log != [] && Ascending(log) && Continuous(log)
    requires forall i :: 0 < i < |log| ==> log[i].linked
    requires forall i, j :: 0 <= i < |log| && 0 <= j < |log| ==> Binding(log[i].node, log[j].node)
    ensures DataOf(empty, log) == DataOn(empty, log[|log| - 1].node, log)
  {
    var n := |log| - 1;
    if n > 0 {
      var front, before := log[..n], log[n - 1];
      assert JoinsAt(log, n);
      forall i | 0 <= i < n ensures JoinsAt(front, i) { assert JoinsAt(log, i) && front[..i] == log[..i]; }
      forall i, j | 0 <= i <= j < n ensures InTurn(front, i, j) { assert InTurn(log, i, j); }
      forall i | 0 <= i < n ensures front[i].height <= before.height { assert InTurn(log, i, n - 1); }
      OneChain(empty, front);
      assert Binding(log[n].node, before.node);
      SameOn(empty, log[n].node, before.node, front, before.height);
    }
  }

  /** Two databases with complete histories, confirmed joints and equal checkpoints hold the same data,
      whatever nodes served them and however they were interrupted. */
  lemma SameCheckpointSameData<D(!new)>(empty: D, s: Store<D>, a: seq<Entry<D>>, t: Store<D>, b: seq<Entry<D>>)
    requires Folded(empty, s, a) && Accounted(s, a) && s.complete
    requires Folded(empty, t, b) && Accounted(t, b) && t.complete
    requires forall i :: 0 < i < |a| ==> a[i].linked
    requires forall i :: 0 < i < |b| ==> b[i].linked
    requires forall i, j :: 0 <= i < |a + b| && 0 <= j < |a + b| ==> Binding((a + b)[i].node, (a + b)[j].node)
    requires s.height == t.height && s.hash == t.hash
    ensures s.data == t.data
  {
    CompleteHistory(empty, s, a, s.height);
    CompleteHistory(empty, t, b, t.height);
    if a != [] {
      forall i, j | 0 <= i < |a| && 0 <= j < |a| ensures Binding(a[i].node, a[j].node) {
        assert (a + b)[i] == a[i] && (a + b)[j] == a[j];
      }
      forall i, j | 0 <= i < |b| && 0 <= j < |b| ensures Binding(b[i].node, b[j].node) {
        assert (a + b)[|a| + i] == b[i] && (a + b)[|a| + j] == b[j];
      }
      var c, d := a[|a| - 1].node, b[|b| - 1].node;
      OneChain(empty, a);
      OneChain(empty, b);
      assert (a + b)[|a| - 1] == a[|a| - 1] && (a + b)[|a| + |b| - 1] == b[|b| - 1];
      SameOn(empty, c, d, a, s.height);
      DataByHeights(empty, d, a, b);
    }
  }

  lemma {:induction false} DataByHeights<D>(empty: D, c: Chain<D>, a: seq<Entry<D>>, b: seq<Entry<D>>)
    requires |a| == |b| && forall i :: 0 <= i < |a| ==> a[i].height == b[i].height
    ensures DataOn(empty, c, a) == DataOn(empty, c, b)
  {
    if a != [] { DataByHeights(empty, c, a[..|a| - 1], b[..|b| - 1]); }
  }

  /** How many heights lie from `start` to `end`. */
  function Span(start: int, end: int): nat {
    if start <= end then end + 1 - start else 0
  }

  /** One start of the process: what it is configured with, what the node offers, the rows that the
      table of recent blocks holds, and the live feed. */
  datatype Life<!D> = Life(
    validator: Option<Address>, startHeight: Option<int>, node: Chain<D>, head: nat, earliest: nat,
    rows: seq<(nat, int)>, laterHead: nat, laterEarliest: nat, feed: seq<int>)

  /** The first height a catch-up reads: the largest of 1, what the node still has, and the override or, if
      there is none, the height after the checkpoint. */
  function FirstHeight(height: nat, startHeight: Option<int>, earliest: nat): (first: nat)
    ensures first >= 1 && first >= earliest && first >= if startHeight.Some? then startHeight.value else height + 1
    ensures first == 1 || first == earliest || first == if startHeight.Some? then startHeight.value else height + 1
  {
    var start := if startHeight.Some? then startHeight.value else height + 1;
    if start < earliest then (if earliest < 1 then 1 else earliest) else if start < 1 then 1 else start
  }

  // ---- What one life adds to the history ----

  /** The history goes on with `e` and the blocks after it, height by height: of the same node, for the
      same validator, each seen to follow the one before. */
  ghost predicate GoesOn<D>(was: seq<Entry<D>>, log: seq<Entry<D>>, e: Entry<D>) {
    was <= log && forall i :: |was| <= i < |log| ==> IsNext(was, log, e, i)
  }

  ghost predicate IsNext<D>(was: seq<Entry<D>>, log: seq<Entry<D>>, e: Entry<D>, i: nat)
    requires |was| <= i < |log|
  {
    log[i] == After(e, i - |was|)
  }

  /** The entry that comes `n` blocks after `e`. */
  ghost function After<D>(e: Entry<D>, n: nat): Entry<D> {
    Entry(e.height + n, e.validator, e.node, e.linked || n > 0, e.floor)
  }

  lemma GoesOnNext<D>(was: seq<Entry<D>>, log: seq<Entry<D>>, e: Entry<D>)
    requires GoesOn(was, log, e)
    ensures GoesOn(was, log + [After(e, |log| - |was|)], e)
  {
    var more := log + [After(e, |log| - |was|)];
    forall i | |was| <= i < |more| ensures IsNext(was, more, e, i) {
      if i < |log| { assert IsNext(was, log, e, i); }
    }
  }

  lemma GoesOnFurther<D>(was: seq<Entry<D>>, log: seq<Entry<D>>, e: Entry<D>, more: seq<Entry<D>>)
    requires GoesOn(was, log, e) && GoesOn(log, more, After(e, |log| - |was|))
    ensures GoesOn(was, more, e)
  {
    forall i | |was| <= i < |more| ensures IsNext(was, more, e, i) {
      if i < |log| { assert IsNext(was, log, e, i); } else { assert IsNext(log, more, After(e, |log| - |was|), i); }
    }
  }

  lemma TopAfter<D>(was: seq<Entry<D>>, log: seq<Entry<D>>, e: Entry<D>)
    requires GoesOn(was, log, e) && log != was
    ensures Top(log) == e.height + |log| - |was| - 1 && log[|was|] == e
  {
    assert IsNext(was, log, e, |was|) && IsNext(was, log, e, |log| - 1);
  }

  /** The live feed told of a block at `h` or above. */
  ghost predicate Told(feed: seq<int>, h: nat) {
    exists i :: 0 <= i < |feed| && h <= feed[i]
  }

  /** The node or the live feed did. */
  ghost predicate Announced<D>(life: Life<D>, h: nat) {
    h <= life.laterHead || Told(life.feed, h)
  }

  /** The height of the first block a life reads, on a database at `height`. */
  function FirstRead<D>(life: Life<D>, height: nat): nat {
    var first := FirstHeight(height, life.startHeight, life.laterEarliest);
    if first <= life.laterHead then first else height + 1
  }

  ghost function FirstOf<D>(life: Life<D>, height: nat, linked: bool): Entry<D> {
    Entry(FirstRead(life, height), life.validator, life.node, linked, life.earliest)
  }

  /** The history grew by blocks of this life alone: from its node, for its validator, from its first
      height on, one after the other, and none that was not announced. */
  ghost predicate Lived<D>(life: Life<D>, was: seq<Entry<D>>, log: seq<Entry<D>>) {
    && was <= log
    && (was != log ==>
         && GoesOn(was, log, FirstOf(life, Top(was), log[|was|].linked))
         && Announced(life, Top(log)))
  }

  /** A catch-up that reads from `e` up to `read`. */
  lemma CaughtUp<D>(life: Life<D>, was: seq<Entry<D>>, read: seq<Entry<D>>, e: Entry<D>)
    requires e == Entry(FirstHeight(Top(was), life.startHeight, life.laterEarliest), life.validator, life.node, e.linked, life.earliest)
    requires GoesOn(was, read, e) && |read| <= |was| + Span(e.height, life.laterHead)
    ensures Lived(life, was, read)
    ensures read == was && |read| == |was| + Span(e.height, life.laterHead) ==> FirstRead(life, Top(was)) == Top(was) + 1
  {
    if read != was { TopAfter(was, read, e); }
  }

  /** A live feed that goes on with `e` from there. */
  lemma Followed<D>(life: Life<D>, was: seq<Entry<D>>, read: seq<Entry<D>>, log: seq<Entry<D>>, e: Entry<D>)
    requires Lived(life, was, read) && GoesOn(read, log, e)
    requires e == Entry(Top(read) + 1, life.validator, life.node, e.linked, life.earliest) && (read != was ==> e.linked)
    requires read == was ==> FirstRead(life, Top(was)) == Top(was) + 1
    requires read != log ==> Told(life.feed, Top(log))
    ensures Lived(life, was, log)
  {
    if read != log {
      TopAfter(read, log, e);
      if read != was {
        var first := FirstOf(life, Top(was), read[|was|].linked);
        TopAfter(was, read, first);
        GoesOnFurther(was, read, first, log);
      }
    }
  }

  /** The lives follow each other: `cuts` are the lengths of the history between them. */
  ghost predicate LivedInTurn<D>(lives: seq<Life<D>>, log: seq<Entry<D>>, cuts: seq<nat>) {
    |cuts| == |lives| + 1 && forall k :: 0 <= k < |lives| ==> LivedAt(lives, log, cuts, k)
  }

  ghost predicate LivedAt<D>(lives: seq<Life<D>>, log: seq<Entry<D>>, cuts: seq<nat>, k: nat)
    requires k < |lives| && |cuts| == |lives| + 1
  {
    cuts[k] <= cuts[k + 1] <= |log| && Lived(lives[k], log[..cuts[k]], log[..cuts[k + 1]])
  }

  lemma LivedNext<D>(lives: seq<Life<D>>, log: seq<Entry<D>>, cuts: seq<nat>, life: Life<D>, more: seq<Entry<D>>)
    requires LivedInTurn(lives, log, cuts) && cuts[|lives|] == |log| && Lived(life, log, more)
    ensures LivedInTurn(lives + [life], more, cuts + [|more|])
  {
    var all, ends := lives + [life], cuts + [|more|];
    forall k | 0 <= k < |all| ensures LivedAt(all, more, ends, k) {
      if k < |lives| {
        assert LivedAt(lives, log, cuts, k);
        assert more[..cuts[k]] == log[..cuts[k]] && more[..cuts[k + 1]] == log[..cuts[k + 1]];
      } else {
        assert more[..|log|] == log && more[..|more|] == more;
      }
    }
  }

  // ---- What one life skips, and how far it comes ----

  /** Why a catch-up skips. */
  function SkipReason(height: nat, startHeight: Option<int>): string {
    if startHeight.Some? then "height_override"
    else if height > 0 then "checkpoint_behind_pruning_window" else "fresh_start_pruned"
  }

  /** Every height strictly between is recorded as a gap, for this reason. */
  ghost predicate Recorded(gaps: seq<Gap>, low: int, high: int, reason: string) {
    forall h :: low < h < high ==> Says(gaps, h, reason)
  }

  ghost predicate SaysMore(was: seq<Gap>, gaps: seq<Gap>) {
    forall h, reason :: Says(was, h, reason) ==> Says(gaps, h, reason)
  }

  lemma RecordedStays(was: seq<Gap>, gaps: seq<Gap>, low: int, high: int, reason: string)
    requires Recorded(was, low, high, reason) && SaysMore(was, gaps)
    ensures Recorded(gaps, low, high, reason)
  {
  }

  lemma RecordedJoins(gaps: seq<Gap>, low: int, mid: int, high: int, reason: string)
    requires Recorded(gaps, low, mid, reason) && Recorded(gaps, mid - 1, high, reason)
    ensures Recorded(gaps, low, high, reason)
  {
  }

  /** Every height that a life skips is a gap with its reason. */
  ghost predicate SkipsRecorded<D>(life: Life<D>, height: nat, gaps: seq<Gap>) {
    Recorded(gaps, height, FirstHeight(height, life.startHeight, life.laterEarliest), SkipReason(height, life.startHeight))
  }

  /** What a gap adds to the reasons. */
  lemma GapSays(gaps: seq<Gap>, g: Gap, merged: seq<Gap>)
    requires WellFormed(gaps + [g]) && Normal(merged) && SameHeights(merged, gaps + [g]) && Explained(merged, gaps + [g])
    ensures SaysMore(gaps, merged) && Recorded(merged, g.start - 1, g.end + 1, g.reason)
  {
    var all := gaps + [g];
    forall h, reason | Says(gaps, h, reason) ensures Says(merged, h, reason) {
      var o :| o in gaps && Holds(o, h) && Reasons.Words(reason) <= Reasons.Words(o.reason);
      assert o in all;
      MergeSays(all, merged, h, reason);
    }
    forall h | g.start - 1 < h < g.end + 1 ensures Says(merged, h, g.reason) {
      assert g in all;
      MergeSays(all, merged, h, g.reason);
    }
  }

  /** Below this height a life may skip blocks. */
  function SkipLimit<D>(life: Life<D>): int {
    var pruned := if life.earliest < life.laterEarliest then life.laterEarliest else life.earliest;
    if life.startHeight.Some? && life.startHeight.value > pruned then life.startHeight.value else pruned
  }

  /** Recorded gaps stay recorded, and new ones lie strictly between `low` and `high`. */
  ghost predicate GapsGrow(was: seq<Gap>, gaps: seq<Gap>, low: int, high: int) {
    forall h :: GrowsAt(was, gaps, low, high, h)
  }

  ghost predicate GrowsAt(was: seq<Gap>, gaps: seq<Gap>, low: int, high: int, h: int) {
    (Covers(was, h) ==> Covers(gaps, h)) && (Covers(gaps, h) ==> Covers(was, h) || low < h < high)
  }

  lemma GapsWithin(was: seq<Gap>, gaps: seq<Gap>, low: int, high: int, lower: int, higher: int)
    requires GapsGrow(was, gaps, low, high) && lower <= low && high <= higher
    ensures GapsGrow(was, gaps, lower, higher)
  {
    forall h ensures GrowsAt(was, gaps, lower, higher, h) { assert GrowsAt(was, gaps, low, high, h); }
  }

  lemma GapsGrowOn(was: seq<Gap>, gaps: seq<Gap>, more: seq<Gap>, low: int, high: int)
    requires GapsGrow(was, gaps, low, high) && GapsGrow(gaps, more, low, high)
    ensures GapsGrow(was, more, low, high)
  {
    forall h ensures GrowsAt(was, more, low, high, h) {
      assert GrowsAt(was, gaps, low, high, h) && GrowsAt(gaps, more, low, high, h);
    }
  }

  lemma GapsToFirst<D>(life: Life<D>, was: seq<Gap>, gaps: seq<Gap>, height: nat)
    requires GapsGrow(was, gaps, height, FirstHeight(height, life.startHeight, life.laterEarliest))
    ensures GapsGrow(was, gaps, height, SkipLimit(life))
  {
    var first, limit := FirstHeight(height, life.startHeight, life.laterEarliest), SkipLimit(life);
    forall h ensures GrowsAt(was, gaps, height, limit, h) { assert GrowsAt(was, gaps, height, first, h); }
  }

  /** The height was skipped in one of the lives: above the checkpoint it began with, below its limit. */
  ghost predicate SkippedInOne<D>(lives: seq<Life<D>>, log: seq<Entry<D>>, cuts: seq<nat>, h: int) {
    exists k :: 0 <= k < |lives| && SkippedIn(lives, log, cuts, k, h)
  }

  ghost predicate SkippedIn<D>(lives: seq<Life<D>>, log: seq<Entry<D>>, cuts: seq<nat>, k: nat, h: int)
    requires k < |lives|
  {
    k < |cuts| && cuts[k] <= |log| && Top(log[..cuts[k]]) < h < SkipLimit(lives[k])
  }

  /** Every gap was there before or was skipped in one of the lives. */
  ghost predicate GapsExplained<D>(was: seq<Gap>, gaps: seq<Gap>, lives: seq<Life<D>>, log: seq<Entry<D>>, cuts: seq<nat>) {
    forall h :: GapExplained(was, gaps, lives, log, cuts, h)
  }

  ghost predicate GapExplained<D>(was: seq<Gap>, gaps: seq<Gap>, lives: seq<Life<D>>, log: seq<Entry<D>>, cuts: seq<nat>, h: int) {
    (Covers(was, h) ==> Covers(gaps, h)) && (Covers(gaps, h) ==> Covers(was, h) || SkippedInOne(lives, log, cuts, h))
  }

  lemma GapsExplainedNext<D>(was: seq<Gap>, gaps: seq<Gap>, lives: seq<Life<D>>, log: seq<Entry<D>>, cuts: seq<nat>,
                             life: Life<D>, later: seq<Gap>, more: seq<Entry<D>>)
    requires GapsExplained(was, gaps, lives, log, cuts) && GapsGrow(gaps, later, Top(log), SkipLimit(life))
    requires |cuts| == |lives| + 1 && cuts[|lives|] == |log| && log <= more
    ensures GapsExplained(was, later, lives + [life], more, cuts + [|more|])
  {
    var all, ends := lives + [life], cuts + [|more|];
    forall h ensures GapExplained(was, later, all, more, ends, h) {
      assert GapExplained(was, gaps, lives, log, cuts, h) && GrowsAt(gaps, later, Top(log), SkipLimit(life), h);
      if Covers(later, h) && !Covers(gaps, h) {
        assert more[..|log|] == log;
        assert SkippedIn(all, more, ends, |lives|, h);
      } else if Covers(later, h) && !Covers(was, h) {
        var k :| 0 <= k < |lives| && SkippedIn(lives, log, cuts, k, h);
        assert more[..cuts[k]] == log[..cuts[k]];
        assert SkippedIn(all, more, ends, k, h);
      }
    }
  }

  /** Where the checkpoint ends after a live feed that is followed to its end. */
  function Highest(height: nat, feed: seq<int>): nat {
    if feed == [] then height else Higher(Highest(height, feed[..|feed| - 1]), feed[|feed| - 1])
  }

  function Higher(height: nat, announced: int): nat {
    if announced > height then announced else height
  }

  lemma HighestNext(height: nat, feed: seq<int>, i: nat)
    requires i < |feed|
    ensures Highest(height, feed[..i + 1]) == Higher(Highest(height, feed[..i]), feed[i])
  {
    assert feed[..i + 1][..i] == feed[..i];
  }

  lemma {:induction false} HighestIs(height: nat, feed: seq<int>)
    ensures Highest(height, feed) >= height && forall i :: 0 <= i < |feed| ==> Highest(height, feed) >= feed[i]
    ensures Highest(height, feed) == height || exists i :: 0 <= i < |feed| && Highest(height, feed) == feed[i]
  {
    if feed != [] {
      var front := feed[..|feed| - 1];
      HighestIs(height, front);
      if Highest(height, feed) != height && Highest(height, feed) == Highest(height, front) {
        var i :| 0 <= i < |front| && Highest(height, front) == front[i];
        assert feed[i] == front[i];
      }
    }
  }

  lemma ToldUpTo(height: nat, feed: seq<int>, n: nat, h: nat)
    requires n <= |feed| && height < h <= Highest(height, feed[..n])
    ensures Told(feed, h)
  {
    HighestIs(height, feed[..n]);
    var i :| 0 <= i < n && Highest(height, feed[..n]) == feed[..n][i];
    assert h <= feed[i];
  }

  /** Where it ends after a life that is not cut short. */
  function EndOf<D>(life: Life<D>, height: nat): nat {
    var first := FirstHeight(height, life.startHeight, life.laterEarliest);
    Highest(if first <= life.laterHead then life.laterHead else height, life.feed)
  }

  /** A life that is not cut short ends at the highest of the checkpoint, the head and what was announced,
      unless the first block it could read is above the head. */
  lemma EndIsHighest<D>(life: Life<D>, height: nat)
    requires FirstHeight(height, life.startHeight, life.laterEarliest) <= life.laterHead || life.laterHead <= height
    ensures var end := EndOf(life, height);
            && end >= life.laterHead && (forall i :: 0 <= i < |life.feed| ==> end >= life.feed[i])
            && (end == height || Announced(life, end))
  {
    var first := FirstHeight(height, life.startHeight, life.laterEarliest);
    HighestIs(if first <= life.laterHead then life.laterHead else height, life.feed);
  }

  /** A life that skips nothing: its node keeps every block, and no later start is asked for. */
  predicate KeepsAll<D>(life: Life<D>) {
    life.earliest <= 1 && life.laterEarliest <= 1 && (life.startHeight.Some? ==> life.startHeight.value <= 1)
  }

  lemma NothingSkipped<D>(life: Life<D>, height: nat)
    requires KeepsAll(life) && (life.startHeight.Some? ==> height == 0)
    ensures FirstHeight(height, life.startHeight, life.laterEarliest) == height + 1
  {
  }

  ghost predicate AllKeep<D>(lives: seq<Life<D>>) {
    forall k :: 0 <= k < |lives| ==> KeepsAll(lives[k])
  }

  /** If no node had dropped a block, every joint was confirmed. */
  lemma KeptIsLinked<D>(log: seq<Entry<D>>, i: nat)
    requires Ascending(log) && Continuous(log) && 0 < i < |log| && log[i].floor <= 1
    ensures log[i].linked
  {
    assert JoinsAt(log, i) && InTurn(log, i - 1, i);
    assert log[..i][i - 1] == log[i - 1];
  }

  lemma AllLinked<D>(lives: seq<Life<D>>, log: seq<Entry<D>>, cuts: seq<nat>)
    requires LivedInTurn(lives, log, cuts) && cuts[0] == 0 && cuts[|lives|] == |log|
    requires Ascending(log) && Continuous(log) && AllKeep(lives)
    ensures forall i :: 0 < i < |log| ==> log[i].linked
  {
    forall i | 0 < i < |log| ensures log[i].linked {
      var k := LifeAt(lives, log, cuts, |lives|, i);
      assert KeepsAll(lives[k]);
      KeptIsLinked(log, i);
    }
  }

  /** Every block past the first cut was read in one of the lives. */
  lemma {:induction false} LifeAt<D>(lives: seq<Life<D>>, log: seq<Entry<D>>, cuts: seq<nat>, n: nat, i: nat) returns (k: nat)
    requires LivedInTurn(lives, log, cuts) && n <= |lives| && cuts[0] <= i < cuts[n]
    ensures k < n && cuts[k] <= i < cuts[k + 1]
    ensures i < |log| && log[i].node == lives[k].node && log[i].validator == lives[k].validator && log[i].floor == lives[k].earliest
  {
    if cuts[n - 1] <= i {
      k := n - 1;
      assert LivedAt(lives, log, cuts, k);
      var was, now := log[..cuts[k]], log[..cuts[k + 1]];
      assert IsNext(was, now, FirstOf(lives[k], Top(was), now[|was|].linked), i);
    } else {
      k := LifeAt(lives, log, cuts, n - 1, i);
    }
  }

  /** The plain replay of a chain: blocks 1 to `n`, without any interruption. */
  function Replay<D>(empty: D, c: Chain<D>, n: nat): D {
    if n == 0 then empty else c.project(Replay(empty, c, n - 1), n)
  }

  lemma {:induction false} DataIsReplay<D>(empty: D, c: Chain<D>, log: seq<Entry<D>>)
    requires forall i :: 0 <= i < |log| ==> log[i].height == i + 1
    ensures DataOn(empty, c, log) == Replay(empty, c, |log|)
  {
    if log != [] { DataIsReplay(empty, c, log[..|log| - 1]); }
  }

  lemma BindingInLives<D(!new)>(lives: seq<Life<D>>, log: seq<Entry<D>>, cuts: seq<nat>, i: nat, j: nat)
    requires LivedInTurn(lives, log, cuts) && cuts[0] == 0 && cuts[|lives|] == |log| && i < |log| && j < |log|
    requires forall k, l :: 0 <= k < |lives| && 0 <= l < |lives| ==> Binding(lives[k].node, lives[l].node)
    ensures Binding(log[i].node, log[j].node)
  {
    var k := LifeAt(lives, log, cuts, |lives|, i);
    var l := LifeAt(lives, log, cuts, |lives|, j);
  }

  /** Lives on nodes that keep every block, whose hashes bind: however they were interrupted, the database
      is the uninterrupted replay of the chain of one of those nodes, up to the checkpoint. */
  lemma LivesReplay<D(!new)>(empty: D, s: Store<D>, log: seq<Entry<D>>, lives: seq<Life<D>>, cuts: seq<nat>) returns (k: nat)
    requires Folded(empty, s, log) && Accounted(s, log) && s.complete && s.height > 0
    requires LivedInTurn(lives, log, cuts) && cuts[0] == 0 && cuts[|lives|] == |log| && AllKeep(lives)
    requires forall k, l :: 0 <= k < |lives| && 0 <= l < |lives| ==> Binding(lives[k].node, lives[l].node)
    ensures k < |lives| && s.data == Replay(empty, lives[k].node, s.height) && s.hash == Some(lives[k].node.hash(s.height))
  {
    CompleteHistory(empty, s, log, s.height);
    AllLinked(lives, log, cuts);
    forall i, j | 0 <= i < |log| && 0 <= j < |log| ensures Binding(log[i].node, log[j].node) {
      BindingInLives(lives, log, cuts, i, j);
    }
    OneChain(empty, log);
    k := LifeAt(lives, log, cuts, |lives|, |log| - 1);
    DataIsReplay(empty, lives[k].node, log);
  }

  /** What a validator is paid in blocks 1 to `n`. */
  function PaidIn(pay: (nat, Address) -> nat, v: Address, n: nat): nat {
    if n == 0 then 0 else PaidIn(pay, v, n - 1) + pay(n, v)
  }

  lemma {:induction false} TotalsArePaid<D>(log: seq<Entry<D>>, c: Chain<D>, v: Address)
    requires forall i :: 0 <= i < |log| ==> log[i].height == i + 1 && log[i].node == c && log[i].validator == Some(v)
    ensures MintedOf(log) == PaidIn(c.minted, v, |log|) && FeesOf(log) == PaidIn(c.fees, v, |log|)
  {
    if log != [] { TotalsArePaid(log[..|log| - 1], c, v); }
  }

  /** If all lives follow one validator on one chain, the totals of a complete history are what the validator
      was paid in every block up to the checkpoint, no block left out and none counted twice. */
  lemma LivesEarn<D>(empty: D, s: Store<D>, log: seq<Entry<D>>, lives: seq<Life<D>>, cuts: seq<nat>, c: Chain<D>, v: Address)
    requires Folded(empty, s, log) && Accounted(s, log) && s.complete
    requires LivedInTurn(lives, log, cuts) && cuts[0] == 0 && cuts[|lives|] == |log|
    requires forall k :: 0 <= k < |lives| ==> lives[k].node == c && lives[k].validator == Some(v)
    ensures s.minted == PaidIn(c.minted, v, s.height) && s.fees == PaidIn(c.fees, v, s.height)
  {
    CompleteHistory(empty, s, log, s.height);
    forall i | 0 <= i < |log| ensures log[i].node == c && log[i].validator == Some(v) {
      var k := LifeAt(lives, log, cuts, |lives|, i);
    }
    TotalsArePaid(log, c, v);
  }

  /** A stored row that the node can still be asked about differs from the node's block. */
  predicate RowDiffers<D>(row: (nat, int), node: Chain<D>, earliest: nat, head: nat) {
    earliest <= row.0 <= head && node.hash(row.0) != row.1
  }

  /** What the continuity check refuses: another chain id, a checkpoint above the head, or, where the
      node still has the checkpoint's block, another block there or at a recent row. */
  predicate Refused<D>(s: Store<D>, node: Chain<D>, head: nat, earliest: nat, rows: seq<(nat, int)>) {
    || (s.chainId.Some? && s.chainId.value != node.id)
    || (s.height > 0 && s.height > head)
    || (s.height > 0 && s.height >= earliest && Differs(s, node, head, earliest, rows))
  }

  predicate Differs<D>(s: Store<D>, node: Chain<D>, head: nat, earliest: nat, rows: seq<(nat, int)>) {
    s.hash != Some(node.hash(s.height)) || exists i :: 0 <= i < |rows| && RowDiffers(rows[i], node, earliest, head)
  }

  /** A node that serves the chain of the database, and has its checkpoint, is never refused. */
  lemma AcceptsOwnChain<D>(empty: D, s: Store<D>, log: seq<Entry<D>>, node: Chain<D>, head: nat, earliest: nat, rows: seq<(nat, int)>)
    requires Folded(empty, s, log) && s.height <= head
    requires log != [] ==> node.id == log[|log| - 1].node.id && node.hash(Top(log)) == log[|log| - 1].node.hash(Top(log))
    requires forall i :: 0 <= i < |rows| ==> rows[i].1 == node.hash(rows[i].0)
    ensures !Refused(s, node, head, earliest, rows)
  {
    if s.height > 0 { AtZero(log); }
  }

  /** Any other is: one of another chain id, one whose head is below the checkpoint, and one that has another
      block where it can still be asked, at the checkpoint or at a recent row. */
  lemma RefusesOthers<D>(s: Store<D>, node: Chain<D>, head: nat, earliest: nat, rows: seq<(nat, int)>, i: nat)
    ensures s.chainId.Some? && s.chainId.value != node.id ==> Refused(s, node, head, earliest, rows)
    ensures s.height > head ==> Refused(s, node, head, earliest, rows)
    ensures 0 < s.height && earliest <= s.height && s.hash != Some(node.hash(s.height)) ==> Refused(s, node, head, earliest, rows)
    ensures 0 < s.height && earliest <= s.height && i < |rows| && earliest <= rows[i].0 <= head && rows[i].1 != node.hash(rows[i].0) ==>
              Refused(s, node, head, earliest, rows)
  {
    if i < |rows| && earliest <= rows[i].0 <= head && rows[i].1 != node.hash(rows[i].0) {
      assert RowDiffers(rows[i], node, earliest, head);
    }
  }

  /** One running process over one database. What the nodes serve and have pruned is given by the
      environment, and dying at any step is its choice. */
  class Indexer<D> {
    const empty: D
    // The database, and the history of blocks it was built from.
    var disk: Store<D>
    ghost var log: seq<Entry<D>>
    // The process; lost when it dies.
    var lastHeight: nat
    var mintedTotal: nat
    var feesTotal: nat
    var validator: Option<Address>
    var node: Chain<D>
    // Whether this process has seen its node hold the checkpoint's block, and if not, what the node dropped.
    ghost var confirmed: bool
    ghost var floor: nat

    /** What must hold of the database whenever the process may die. */
    ghost predicate Durable()
      reads `disk, `log
    {
      Folded(empty, disk, log) && Accounted(disk, log)
    }

    /** The process agrees with the database it was started from. */
    ghost predicate InStep()
      reads `disk, `lastHeight, `mintedTotal, `feesTotal
    {
      lastHeight == disk.height && mintedTotal == disk.minted && feesTotal == disk.fees
    }

    /** The block read next may follow the checkpoint. */
    ghost predicate Joined()
      reads `log, `node, `confirmed, `floor
    {
      Joins(log, node, confirmed, floor)
    }

    ghost function Next(height: nat): Entry<D>
      reads `validator, `node, `confirmed, `floor
    {
      Entry(height, validator, node, confirmed, floor)
    }

    constructor (empty: D, node: Chain<D>)
      ensures this.empty == empty && Durable() && log == [] && disk.complete
    {
      this.empty := empty;
      disk := Store(0, None, None, empty, 0, 0, [], true);
      log := [];
      lastHeight, mintedTotal, feesTotal, validator := 0, 0, 0, None;
      this.node, confirmed, floor := node, false, 0;
    }

    /** A start reads the counters and the checkpoint back. A start height is refused on a database
        that already holds blocks. */
    method Start(validator: Option<Address>, startHeight: Option<int>, node: Chain<D>) returns (alive: bool)
      requires Durable()
      modifies `lastHeight, `mintedTotal, `feesTotal, `validator, `node
      ensures this.node == node && this.validator == validator
      ensures InStep() && (alive <==> (startHeight.Some? ==> disk.height == 0))
    {
      this.validator, this.node := validator, node;
      mintedTotal, feesTotal := disk.minted, disk.fees;
      lastHeight := disk.height;
      if startHeight.Some? && lastHeight > 0 {
        return false;
      }
      return true;
    }

    /** Raise the counters in memory, and say what is to be stored. */
    method Accumulate(height: nat) returns (minted: nat, fees: nat)
      requires mintedTotal == disk.minted && feesTotal == disk.fees
      modifies `mintedTotal, `feesTotal
      ensures minted == mintedTotal == disk.minted + MintedIn(Next(height))
      ensures fees == feesTotal == disk.fees + FeesIn(Next(height))
    {
      minted, fees := disk.minted, disk.fees;
      if validator.Some? {
        var m, f := node.minted(height, validator.value), node.fees(height, validator.value);
        if m != 0 || f != 0 {
          mintedTotal, feesTotal := mintedTotal + m, feesTotal + f;
          minted, fees := mintedTotal, feesTotal;
        }
      }
    }

    /** The transaction commits. */
    method Commit(height: nat, minted: nat, fees: nat)
      requires Durable() && Joined() && disk.height < height && SkipAllowed(disk, height)
      requires minted == disk.minted + MintedIn(Next(height)) && fees == disk.fees + FeesIn(Next(height))
      modifies `disk, `log, `confirmed
      ensures Durable() && Joined() && log == old(log) + [old(Next(height))]
      ensures disk.gaps == old(disk.gaps) && disk.complete == old(disk.complete)
      ensures disk.height == height && disk.minted == minted && disk.fees == fees && confirmed
    {
      ghost var before, e := disk, Next(height);
      CommitFolds(empty, disk, log, e);
      CommitAccounts(disk, log, e);
      disk := disk.(height := height, hash := Some(node.hash(height)), chainId := Some(node.id),
                    data := node.project(disk.data, height), minted := minted, fees := fees);
      assert disk == Committed(before, e);
      log := log + [e];
      confirmed := true;
    }

    /** `_process_block`: the counters are raised in memory before the transaction commits. */
    method ProcessBlock(height: nat) returns (alive: bool)
      requires Durable() && InStep() && Joined() && disk.height < height && SkipAllowed(disk, height)
      modifies `disk, `log, `lastHeight, `mintedTotal, `feesTotal, `confirmed
      ensures Durable() && disk.gaps == old(disk.gaps) && disk.complete == old(disk.complete)
      ensures log == old(log) || log == old(log) + [old(Next(height))]
      ensures alive ==> InStep() && Joined() && log == old(log) + [old(Next(height))] && confirmed
    {
      var dies: bool := *;
      if dies { return false; }
      var minted, fees := Accumulate(height);
      dies := *;
      if dies { return false; }
      Commit(height, minted, fees);
      dies := *;
      if dies { return false; }
      lastHeight := height;
      return true;
    }

    /** `_record_history_gap`: two separate writes, and the process may die between them. */
    method RecordGap(start: nat, end: nat, reason: string) returns (alive: bool)
      requires Durable() && 1 <= start <= end
      modifies `disk
      ensures Durable() && disk == old(disk).(gaps := disk.gaps, complete := disk.complete)
      ensures forall h :: Covers(old(disk.gaps), h) ==> Covers(disk.gaps, h)
      ensures old(disk.complete) || !disk.complete
      ensures GapsGrow(old(disk.gaps), disk.gaps, start - 1, end + 1)
      ensures SaysMore(old(disk.gaps), disk.gaps) && (alive ==> Recorded(disk.gaps, start - 1, end + 1, reason))
      ensures alive ==> !disk.complete && forall h :: start <= h <= end ==> Covers(disk.gaps, h)
    {
      var merged := Merge(disk.gaps + [Gap(start, end, reason)]);
      forall h ensures Covers(disk.gaps + [Gap(start, end, reason)], h) <==> Covers(disk.gaps, h) || start <= h <= end {
        CoversLast(disk.gaps, Gap(start, end, reason), h);
      }
      GapSays(disk.gaps, Gap(start, end, reason), merged.value);
      GapsAccount(disk, log, merged.value, disk.complete);
      GapsAccount(disk, log, merged.value, false);
      var dies: bool := *;
      if dies { return false; }
      disk := disk.(gaps := merged.value);
      dies := *;
      if dies { return false; }
      disk := disk.(complete := false);
      return true;
    }

    /** Compare the rows of recent blocks, and the checkpoint, with what the node has. */
    method Compare(rows: seq<(nat, int)>, head: nat, earliest: nat) returns (same: bool)
      ensures same <==> !Differs(disk, node, head, earliest, rows)
    {
      for i := 0 to |rows|
        invariant forall k :: 0 <= k < i ==> !RowDiffers(rows[k], node, earliest, head)
      {
        var (h, hash) := rows[i];
        if earliest <= h <= head && node.hash(h) != hash {
          assert RowDiffers(rows[i], node, earliest, head);
          return false;
        }
      }
      same := disk.hash == Some(node.hash(disk.height));
    }

    /** `_verify_chain_continuity`, for a node with blocks `earliest` to `head`: refuse another chain, and
        record the gap if the node has pruned past the checkpoint. */
    method VerifyContinuity(head: nat, earliest: nat, rows: seq<(nat, int)>) returns (alive: bool)
      requires Durable() && InStep()
      modifies `disk, `confirmed, `floor
      ensures Durable() && InStep() && disk == old(disk).(gaps := disk.gaps, complete := disk.complete)
      ensures Refused(disk, node, head, earliest, rows) ==> !alive && disk == old(disk)
      ensures !Refused(disk, node, head, earliest, rows) && disk.height + 1 >= earliest ==> alive && disk == old(disk)
      ensures alive ==> Joined() && floor == earliest && (disk.height > 0 ==> SkipAllowed(disk, earliest))
      ensures (disk.complete ==> old(disk.complete)) && GapsGrow(old(disk.gaps), disk.gaps, disk.height, earliest)
      ensures SaysMore(old(disk.gaps), disk.gaps)
      ensures alive && disk.height > 0 ==> Recorded(disk.gaps, disk.height, earliest, "pruned_before_verification")
    {
      if disk.chainId.Some? && disk.chainId.value != node.id {
        return false;
      }
      if disk.height == 0 {
        AtZero(log);
        confirmed, floor := true, earliest;
        return true;
      }
      if disk.height > head {
        return false;
      }
      if disk.height < earliest {
        confirmed, floor := false, earliest;
        alive := true;
        if disk.height + 1 <= earliest - 1 {
          alive := RecordGap(disk.height + 1, earliest - 1, "pruned_before_verification");
        }
        return;
      }
      alive := Compare(rows, head, earliest);
      if alive {
        confirmed, floor := true, earliest;
      }
    }

    /** Record whatever the catch-up will skip. */
    method RecordSkips(startHeight: Option<int>, earliest: nat) returns (alive: bool, start: nat)
      requires Durable() && InStep() && (startHeight.Some? ==> disk.height == 0)
      modifies `disk
      ensures Durable() && disk == old(disk).(gaps := disk.gaps, complete := disk.complete)
      ensures start == FirstHeight(disk.height, startHeight, earliest)
      ensures alive ==> disk.height < start && SkipAllowed(disk, start)
      ensures start == disk.height + 1 ==> alive && disk == old(disk)
      ensures (disk.complete ==> old(disk.complete)) && GapsGrow(old(disk.gaps), disk.gaps, disk.height, start)
      ensures alive && startHeight.Some? ==> Recorded(disk.gaps, disk.height, start, "height_override")
      ensures alive && startHeight.None? && disk.height > 0 ==>
                Recorded(disk.gaps, disk.height, start, "checkpoint_behind_pruning_window")
      ensures alive && startHeight.None? && disk.height == 0 ==> Recorded(disk.gaps, disk.height, start, "fresh_start_pruned")
    {
      var low := if earliest < 1 then 1 else earliest;
      var reason := SkipReason(disk.height, startHeight);
      alive, start := true, disk.height + 1;
      if startHeight.Some? {
        start := if startHeight.value < 1 then 1 else startHeight.value;
        if start > 1 {
          alive := RecordGap(1, start - 1, reason);
        }
      }
      ghost var gaps, first := disk.gaps, start;
      if start < low {
        if alive {
          alive := RecordGap(start, low - 1, reason);
          GapsWithin(gaps, disk.gaps, start - 1, low, disk.height, low);
        }
        start := low;
      }
      if alive {
        RecordedStays(gaps, disk.gaps, disk.height, first, reason);
        if first < low { RecordedJoins(disk.gaps, disk.height, first, low, reason); }
      }
      GapsWithin(old(disk.gaps), gaps, disk.height, first, disk.height, start);
      GapsGrowOn(old(disk.gaps), gaps, disk.gaps, disk.height, start);
    }

    /** Read the blocks from `start` to the head. */
    method ReadBlocks(start: nat, head: int) returns (alive: bool)
      requires Durable() && InStep() && Joined() && disk.height < start && SkipAllowed(disk, start)
      modifies `disk, `log, `lastHeight, `mintedTotal, `feesTotal, `confirmed
      ensures Durable() && disk.gaps == old(disk.gaps) && disk.complete == old(disk.complete)
      ensures GoesOn(old(log), log, old(Next(start))) && |log| <= |old(log)| + Span(start, head)
      ensures alive ==> InStep() && Joined() && |log| == |old(log)| + Span(start, head)
      ensures alive ==> disk.height == if start <= head then head else old(disk.height)
      ensures alive ==> confirmed == (old(confirmed) || log != old(log))
    {
      var height := start;
      while height <= head
        invariant Durable() && InStep() && Joined() && GoesOn(old(log), log, old(Next(start)))
        invariant start <= height && |log| == |old(log)| + height - start && (height > start ==> height <= head + 1)
        invariant disk.height == if height == start then old(disk.height) else height - 1
        invariant disk.height < height && SkipAllowed(disk, height)
        invariant disk.gaps == old(disk.gaps) && disk.complete == old(disk.complete)
        invariant confirmed == (old(confirmed) || log != old(log))
        decreases head + 1 - height
      {
        GoesOnNext(old(log), log, old(Next(start)));
        alive := ProcessBlock(height);
        if !alive { return; }
        height := height + 1;
      }
      return true;
    }

    /** `_catch_up`: whatever is skipped is recorded first, and then every block up to the head is read. */
    method CatchUp(startHeight: Option<int>, head: nat, earliest: nat) returns (alive: bool)
      requires Durable() && InStep() && Joined() && (startHeight.Some? ==> disk.height == 0)
      modifies `disk, `log, `lastHeight, `mintedTotal, `feesTotal, `confirmed
      ensures var first := FirstHeight(old(disk.height), startHeight, earliest);
              && Durable() && GoesOn(old(log), log, old(Next(first))) && |log| <= |old(log)| + Span(first, head)
              && (alive ==> InStep() && Joined() && |log| == |old(log)| + Span(first, head))
              && (alive ==> disk.height == if first <= head then head else old(disk.height))
              && (alive ==> confirmed == (old(confirmed) || log != old(log)))
              && (first == old(disk.height) + 1 ==> disk.complete == old(disk.complete))
              && (disk.complete ==> old(disk.complete)) && GapsGrow(old(disk.gaps), disk.gaps, old(disk.height), first)
              && (alive || log != old(log) ==> Recorded(disk.gaps, old(disk.height), first, SkipReason(old(disk.height), startHeight)))
    {
      var start;
      alive, start := RecordSkips(startHeight, earliest);
      if alive {
        alive := ReadBlocks(start, head);
      }
    }

    /** `on_message`: blocks the socket skipped are read first; older ones are ignored. */
    method OnMessage(height: int) returns (alive: bool)
      requires Durable() && InStep() && Joined()
      modifies `disk, `log, `lastHeight, `mintedTotal, `feesTotal, `confirmed
      ensures Durable() && disk.gaps == old(disk.gaps) && disk.complete == old(disk.complete)
      ensures GoesOn(old(log), log, old(Next(disk.height + 1))) && |log| <= |old(log)| + Span(old(disk.height) + 1, height)
      ensures alive ==> InStep() && Joined() && |log| == |old(log)| + Span(old(disk.height) + 1, height)
      ensures alive ==> disk.height == Higher(old(disk.height), height)
      ensures alive ==> Next(disk.height + 1) == After(old(Next(disk.height + 1)), |log| - |old(log)|)
      ensures log != old(log) ==> Top(log) <= height
    {
      if height <= 0 || height <= lastHeight {
        return true;
      }
      ghost var next := Next(disk.height + 1);
      alive := ReadBlocks(lastHeight + 1, height);
      if log != old(log) { TopAfter(old(log), log, next); }
    }

    /** The process goes on with the blocks after `was`, the first of which is `e`. */
    ghost predicate GoingOn(was: seq<Entry<D>>, e: Entry<D>)
      reads `disk, `log, `lastHeight, `mintedTotal, `feesTotal, `validator, `node, `confirmed, `floor
    {
      InStep() && Joined() && |was| <= |log| && Next(disk.height + 1) == After(e, |log| - |was|)
    }

    /** One more message of the feed. */
    method Hear(height: int, ghost was: seq<Entry<D>>, ghost e: Entry<D>) returns (alive: bool)
      requires Durable() && GoingOn(was, e) && GoesOn(was, log, e)
      modifies `disk, `log, `lastHeight, `mintedTotal, `feesTotal, `confirmed
      ensures Durable() && disk.gaps == old(disk.gaps) && disk.complete == old(disk.complete) && GoesOn(was, log, e)
      ensures log != was ==> Top(log) <= Higher(old(disk.height), height)
      ensures alive ==> GoingOn(was, e) && disk.height == Higher(old(disk.height), height)
    {
      alive := OnMessage(height);
      GoesOnFurther(was, old(log), e, log);
    }

    /** The live feed, as long as the process lives. */
    method Follow(feed: seq<int>) returns (alive: bool)
      requires Durable() && InStep() && Joined()
      modifies `disk, `log, `lastHeight, `mintedTotal, `feesTotal, `confirmed
      ensures Durable() && disk.gaps == old(disk.gaps) && disk.complete == old(disk.complete)
      ensures GoesOn(old(log), log, old(Next(disk.height + 1)))
      ensures log != old(log) ==> Told(feed, Top(log))
      ensures alive ==> disk.height == Highest(old(disk.height), feed)
    {
      ghost var was, e := log, Next(disk.height + 1);
      var i := 0;
      alive := true;
      while alive && i < |feed|
        invariant 0 <= i <= |feed| && Durable() && disk.gaps == old(disk.gaps) && disk.complete == old(disk.complete)
        invariant GoesOn(was, log, e) && (log != was ==> Top(log) <= Highest(old(disk.height), feed[..i]))
        invariant alive ==> GoingOn(was, e) && disk.height == Highest(old(disk.height), feed[..i])
        decreases |feed| - i
      {
        HighestNext(old(disk.height), feed, i);
        alive := Hear(feed[i], was, e);
        i := i + 1;
      }
      if log != was {
        TopAfter(was, log, e);
        ToldUpTo(old(disk.height), feed, i, Top(log));
      }
      if i == |feed| { assert feed[..i] == feed; }
    }

    /** Start, and check the chain against the node. */
    method Begin(life: Life<D>) returns (alive: bool)
      requires Durable()
      modifies `disk, `lastHeight, `mintedTotal, `feesTotal, `validator, `node, `confirmed, `floor
      ensures Durable() && disk.height == old(disk.height) && (KeepsAll(life) ==> disk == old(disk))
      ensures (disk.complete ==> old(disk.complete)) && GapsGrow(old(disk.gaps), disk.gaps, disk.height, life.earliest)
      ensures alive ==> InStep() && Joined() && (life.startHeight.Some? ==> disk.height == 0)
      ensures alive ==> node == life.node && validator == life.validator && floor == life.earliest
    {
      alive := Start(life.validator, life.startHeight, life.node);
      if alive {
        alive := VerifyContinuity(life.head, life.earliest, life.rows);
      }
    }

    /** Start, check and catch up. */
    method Arrive(life: Life<D>) returns (alive: bool)
      requires Durable()
      modifies this
      ensures Durable() && Lived(life, old(log), log)
      ensures KeepsAll(life) ==> disk.complete == old(disk.complete)
      ensures disk.complete ==> old(disk.complete)
      ensures GapsGrow(old(disk.gaps), disk.gaps, old(disk.height), SkipLimit(life))
      ensures alive ==> InStep() && Joined() && (log != old(log) ==> confirmed)
      ensures alive ==> node == life.node && validator == life.validator && floor == life.earliest
      ensures alive ==> EndOf(life, old(disk.height)) == Highest(disk.height, life.feed)
      ensures alive || log != old(log) ==> SkipsRecorded(life, old(disk.height), disk.gaps)
      ensures alive && log == old(log) ==> FirstRead(life, Top(log)) == Top(log) + 1
    {
      ghost var height := disk.height;
      alive := Begin(life);
      ghost var gaps, first := disk.gaps, FirstHeight(height, life.startHeight, life.laterEarliest);
      GapsWithin(old(disk.gaps), gaps, height, life.earliest, height, SkipLimit(life));
      if alive {
        ghost var e := Next(first);
        if KeepsAll(life) { NothingSkipped(life, height); }
        alive := CatchUp(life.startHeight, life.laterHead, life.laterEarliest);
        CaughtUp(life, old(log), log, e);
        GapsToFirst(life, gaps, disk.gaps, height);
        GapsGrowOn(old(disk.gaps), gaps, disk.gaps, height, SkipLimit(life));
      }
    }

    /** One life: start, check, catch up, follow the live feed; it may end anywhere. */
    method Live(life: Life<D>) returns (alive: bool)
      requires Durable()
      modifies this
      ensures Durable() && Lived(life, old(log), log)
      ensures KeepsAll(life) ==> disk.complete == old(disk.complete)
      ensures disk.complete ==> old(disk.complete)
      ensures GapsGrow(old(disk.gaps), disk.gaps, old(disk.height), SkipLimit(life))
      ensures alive || log != old(log) ==> SkipsRecorded(life, old(disk.height), disk.gaps)
      ensures alive ==> disk.height == EndOf(life, old(disk.height))
    {
      alive := Arrive(life);
      if alive {
        ghost var read, next := log, Next(disk.height + 1);
        alive := Follow(life.feed);
        Followed(life, old(log), read, log, next);
      }
    }

    /** Any number of lives, each with any configuration, node and live feed, each ending anywhere: the
        database is the fold of the blocks they read, in turn, from the nodes they were given, and the
        gaps are heights they skipped. */
    method Service(lives: seq<Life<D>>) returns (ghost cuts: seq<nat>)
      requires Durable()
      modifies this
      ensures Durable() && old(log) <= log
      ensures LivedInTurn(lives, log, cuts) && cuts[0] == |old(log)| && cuts[|lives|] == |log|
      ensures GapsExplained(old(disk.gaps), disk.gaps, lives, log, cuts) && (disk.complete ==> old(disk.complete))
      ensures AllKeep(lives) ==> disk.complete == old(disk.complete)
      ensures AllKeep(lives) && old(log) == [] ==> forall i :: 0 < i < |log| ==> log[i].linked
    {
      cuts := [|log|];
      for n := 0 to |lives|
        invariant Durable() && old(log) <= log
        invariant LivedInTurn(lives[..n], log, cuts) && cuts[0] == |old(log)| && cuts[n] == |log|
        invariant GapsExplained(old(disk.gaps), disk.gaps, lives[..n], log, cuts) && (disk.complete ==> old(disk.complete))
        invariant AllKeep(lives) ==> disk.complete == old(disk.complete)
      {
        ghost var was, gaps := log, disk.gaps;
        var _ := Live(lives[n]);
        LivedNext(lives[..n], was, cuts, lives[n], log);
        GapsExplainedNext(old(disk.gaps), gaps, lives[..n], was, cuts, lives[n], disk.gaps, log);
        assert lives[..n + 1] == lives[..n] + [lives[n]];
        cuts := cuts + [|log|];
      }
      assert lives[..|lives|] == lives;
      if AllKeep(lives) && old(log) == [] {
        AllLinked(lives, log, cuts);
      }
    }
  }
}
