/** The divergence watchdog of `scripts/divergence_watchdog.py`: a decision ladder driven by a
    polling loop, in an environment that chooses everything it observes. */
module Watchdog {
  import opened Wrappers

  datatype Trigger = LogPattern | Stall | ProcessDead

  datatype Action = Noop | Alert | Restart | PeerPull

  datatype Config = Config(
    dryRun: bool, stallBlocks: nat, peerAhead: int, deadThreshold: int, catchupStall: int,
    escalateAfter: nat, window: int, lagBlocks: int, lagPolls: int)

  datatype Status = Unreachable | Garbled | Up(height: int, catchingUp: bool)

  /** Where an exception may cut a poll short. */
  datatype Stage = Starting | Observing | Weighing | Deciding | Invoking | AfterRestart | Settling

  /** Everything one poll observes, with the clock readings it takes on the way. */
  datatype Poll = Poll(
    gateReady: bool, disabled: bool, alive: bool, status: Status, time: int,
    diverged: bool, healthy: nat, peerMax: int, hashesAgree: bool, halt: bool,
    gateTime: int, restartCooldown: int, pullCooldown: int, countTime: int,
    exitCode: Option<int>, actTime: int, laterPullCooldown: int, fault: Option<Stage>)

  // ---- The decision ladder ----

  function Gated(ready: bool, pullCooldown: int, force: bool, dryRun: bool): Action {
    if !ready then Alert else if pullCooldown > 0 && !force then Noop else if dryRun then Noop else PeerPull
  }

  function Restarting(restartCooldown: int, force: bool, dryRun: bool): Action {
    if restartCooldown > 0 && !force then Noop else if dryRun then Noop else Restart
  }

  /** `decide_action` */
  function DecideAction(trigger: Option<Trigger>, hashesAgree: bool, ready: bool, restartCooldown: int, pullCooldown: int,
                        recentRestarts: nat, dryRun: bool, escalateAfter: nat, halt: bool): Action
  {
    if trigger.None? then Noop
    else if halt then Alert
    else match trigger.value
      case LogPattern => Gated(ready, pullCooldown, false, dryRun)
      case Stall =>
        if recentRestarts >= escalateAfter then Gated(ready, pullCooldown, false, dryRun)
        else if hashesAgree then Restarting(restartCooldown, false, dryRun)
        else Gated(ready, pullCooldown, false, dryRun)
      case ProcessDead => Restarting(restartCooldown, true, dryRun)
  }

  /** `decide_escalation_after_restart` */
  function DecideEscalation(exitCode: int, ready: bool, pullCooldown: int, force: bool, halt: bool): Action {
    if exitCode == 0 then Noop
    else if halt then Alert
    else if !ready then Alert
    else if pullCooldown > 0 && !force then Noop
    else PeerPull
  }

  /** What calls for replaced state: a divergence in the log, or a stall that restarts did not cure or
      whose hashes disagree with the peers'. */
  predicate StateIsWrong(trigger: Trigger, hashesAgree: bool, recentRestarts: nat, escalateAfter: nat) {
    trigger == LogPattern || (trigger == Stall && (recentRestarts >= escalateAfter || !hashesAgree))
  }

  /** The ladder, read from its results: right state is restarted, wrong state is replaced if the gate
      and the cool-down allow it, a halt or a shut gate only alerts, and a dead process is restarted
      whatever the cool-down. */
  lemma LadderExactly(trigger: Trigger, hashesAgree: bool, ready: bool, restartCooldown: int, pullCooldown: int,
                      recent: nat, dryRun: bool, after: nat, halt: bool, exit: int)
    ensures var a := DecideAction(Some(trigger), hashesAgree, ready, restartCooldown, pullCooldown, recent, dryRun, after, halt);
            var wrong := StateIsWrong(trigger, hashesAgree, recent, after);
            && (a == Restart <==> !halt && !dryRun && !wrong && (trigger == ProcessDead || restartCooldown <= 0))
            && (a == PeerPull <==> !halt && !dryRun && wrong && ready && pullCooldown <= 0)
            && (a == Alert <==> halt || (wrong && !ready))
            && (wrong <==> trigger == LogPattern || (trigger == Stall && (recent >= after || !hashesAgree)))
    ensures DecideEscalation(exit, ready, pullCooldown, trigger == ProcessDead && !halt, halt) == PeerPull <==>
              exit != 0 && !halt && ready && (pullCooldown <= 0 || trigger == ProcessDead)
  {
  }

  /** `is_catchup_divergence` */
  predicate CatchupDivergence(age: int, hit: bool, healthy: nat, peerMax: int, height: int, limit: int) {
    age >= limit && hit && healthy >= 2 && peerMax > height
  }

  /** `lag_warning_due` */
  predicate LagWarningDue(overPolls: int, stalled: nat, required: int, stallBlocks: nat) {
    overPolls >= required && stalled < stallBlocks
  }

  /** How many entries at the end equal the last one. */
  function TrailingEqual(history: seq<int>): nat {
    if history == [] then 0
    else if |history| == 1 || history[|history| - 2] != history[|history| - 1] then 1
    else 1 + TrailingEqual(history[..|history| - 1])
  }

  lemma {:induction false} TrailingEqualIs(history: seq<int>, k: nat)
    requires 0 < k <= |history| && (forall i :: |history| - k <= i < |history| ==> history[i] == history[|history| - 1])
    requires k < |history| ==> history[|history| - k - 1] != history[|history| - 1]
    ensures TrailingEqual(history) == k
  {
    if k > 1 { TrailingEqualIs(history[..|history| - 1], k - 1); }
  }

  method CountTrailingEqual(history: seq<int>) returns (c: nat)
    ensures c == TrailingEqual(history)
  {
    if history == [] {
      return 0;
    }
    var last := history[|history| - 1];
    c := 0;
    while c < |history| && history[|history| - 1 - c] == last
      invariant 0 <= c <= |history| && forall i :: |history| - c <= i < |history| ==> history[i] == last
    {
      c := c + 1;
    }
    TrailingEqualIs(history, c);
  }

  /** The bounded history holds `n` readings, all the same. */
  predicate Full(history: seq<int>, n: nat) {
    |history| == n && forall i :: 0 <= i < |history| ==> SameAsFirst(history, i)
  }

  predicate SameAsFirst(history: seq<int>, i: nat)
    requires i < |history|
  {
    history[i] == history[0]
  }

  lemma FullTrails(history: seq<int>, n: nat)
    requires Full(history, n) && n > 0
    ensures TrailingEqual(history) == n
  {
    forall i | 0 <= i < |history| ensures history[i] == history[|history| - 1] {
      assert SameAsFirst(history, i) && SameAsFirst(history, |history| - 1);
    }
    TrailingEqualIs(history, n);
  }

  /** A history that fires the stall trigger silences the trailing-peers warning. */
  lemma StallSilencesLag(history: seq<int>, overPolls: int, required: int, stallBlocks: nat)
    requires Full(history, stallBlocks + 1)
    ensures !LagWarningDue(overPolls, TrailingEqual(history), required, stallBlocks)
  {
    FullTrails(history, stallBlocks + 1);
  }

  // ---- What the watchdog did ----

  /** A restart that was recorded, when it was decided and when it was recorded. */
  datatype RestartDone = RestartDone(trigger: Trigger, decided: int, time: int)

  /** A peer-pull, in which poll, and whether it followed a restart of the same poll. */
  datatype PullDone = PullDone(poll: Poll, trigger: Trigger, escalated: bool)

  /** What a poll must have seen for a trigger: nothing of the node and no process; a divergence in its
      log, during catch-up with peers ahead; or peers far ahead of a node that reports no divergence. */
  predicate Shows(c: Config, t: Trigger, p: Poll) {
    match t
    case ProcessDead => p.status.Unreachable? && !p.alive
    case LogPattern =>
      p.status.Up? && p.diverged && (p.status.catchingUp ==> p.healthy >= 2 && p.peerMax > p.status.height)
    case Stall =>
      && p.status.Up? && !p.status.catchingUp && !p.diverged
      && p.healthy >= 2 && p.peerMax > p.status.height + c.peerAhead
  }

  /** Every guard that has to be down before the chain data may be replaced. */
  predicate Justified(c: Config, p: PullDone) {
    && Shows(c, p.trigger, p.poll)
    && p.poll.gateReady && !p.poll.halt && !c.dryRun && !p.poll.disabled
    && (if p.escalated then p.poll.exitCode.Some? && p.poll.exitCode.value != 0 && p.trigger != LogPattern
                            && (p.poll.laterPullCooldown <= 0 || p.trigger == ProcessDead)
        else p.poll.pullCooldown <= 0 && p.trigger != ProcessDead)
  }

  /** A restart that this poll decided and recorded, for what it saw, under no halt, not in dry-run, and
      with the cool-down over unless the process was dead. */
  predicate RestartedIn(c: Config, r: RestartDone, p: Poll) {
    && Shows(c, r.trigger, p) && r.trigger != LogPattern
    && r.decided == p.countTime && r.time == p.actTime && !p.disabled && !p.halt && !c.dryRun
    && (r.trigger == ProcessDead || p.restartCooldown <= 0)
  }

  /** A stall restart comes more than a window after the restart `escalateAfter` places before it. */
  ghost predicate Spaced(c: Config, rs: seq<RestartDone>) {
    forall j :: c.escalateAfter <= j < |rs| ==> SpacedAt(c, rs, j)
  }

  predicate SpacedAt(c: Config, rs: seq<RestartDone>, j: nat)
    requires c.escalateAfter <= j < |rs|
  {
    rs[j].trigger == Stall ==> rs[j - c.escalateAfter].time < rs[j].time - c.window
  }

  ghost predicate InOrder(rs: seq<RestartDone>) {
    forall i, j :: 0 <= i <= j < |rs| ==> NotLater(rs, i, j)
  }

  predicate NotLater(rs: seq<RestartDone>, i: nat, j: nat)
    requires i <= j < |rs|
  {
    rs[i].time <= rs[j].time
  }

  /** Stall restarts inside one window of time. */
  function StallsWithin(rs: seq<RestartDone>, from: int, to: int): set<int> {
    set j | 0 <= j < |rs| && rs[j].trigger == Stall && from <= rs[j].time <= to
  }

  lemma {:induction false} BoundedSet(s: set<int>, lo: int, hi: int)
    requires lo <= hi && forall x :: x in s ==> lo <= x < hi
    ensures |s| <= hi - lo
    decreases hi - lo
  {
    if lo == hi {
      assert s == {};
    } else {
      BoundedSet(s - {hi - 1}, lo, hi - 1);
      if hi - 1 in s { assert s == (s - {hi - 1}) + {hi - 1}; } else { assert s - {hi - 1} == s; }
    }
  }

  lemma FarApart(c: Config, rs: seq<RestartDone>, i: int, j: int)
    requires Spaced(c, rs) && InOrder(rs) && 0 <= i && i + c.escalateAfter <= j < |rs| && rs[j].trigger == Stall
    ensures rs[i].time < rs[j].time - c.window
  {
    assert NotLater(rs, i, j - c.escalateAfter) && SpacedAt(c, rs, j);
  }

  /** No window of the escalation length holds more stall restarts than the escalation threshold. */
  lemma {:induction false} StallsAreRare(c: Config, rs: seq<RestartDone>, from: int, to: int)
    requires Spaced(c, rs) && InOrder(rs) && to <= from + c.window
    ensures |StallsWithin(rs, from, to)| <= c.escalateAfter
    decreases |rs|
  {
    var s := StallsWithin(rs, from, to);
    var m := |rs| - 1;
    if rs == [] {
      assert s == {};
    } else if m in s {
      forall x | x in s ensures m - c.escalateAfter < x < m + 1 {
        if x <= m - c.escalateAfter {
          FarApart(c, rs, x, m);
          assert false;
        }
      }
      BoundedSet(s, m - c.escalateAfter + 1, m + 1);
    } else {
      assert s == StallsWithin(rs[..m], from, to);
      forall j | c.escalateAfter <= j < m ensures SpacedAt(c, rs[..m], j) { assert SpacedAt(c, rs, j); }
      forall i, j | 0 <= i <= j < m ensures NotLater(rs[..m], i, j) { assert NotLater(rs, i, j); }
      StallsAreRare(c, rs[..m], from, to);
    }
  }

  // ---- The loop ----

  /** The last `n` heights are all the same. */
  ghost predicate Frozen(heights: seq<int>, n: nat) {
    |heights| >= n && forall i :: |heights| - n <= i < |heights| ==> SameAsLast(heights, i)
  }

  ghost predicate SameAsLast(heights: seq<int>, i: nat)
    requires i < |heights|
  {
    heights[i] == heights[|heights| - 1]
  }

  predicate InTime(start: int, p: Poll) {
    start <= p.gateTime <= p.countTime <= p.actTime
  }

  /** The clock readings that decide about restarts never go back, from `start` on. */
  ghost predicate ClockRuns(start: int, polls: seq<Poll>) {
    && (forall i :: 0 <= i < |polls| ==> InTime(start, polls[i]))
    && (forall i, j :: 0 <= i < j < |polls| ==> polls[i].actTime <= polls[j].gateTime)
  }

  /** The history holds the latest readings, at most `n` of them. */
  ghost predicate LastRead(heights: seq<int>, history: seq<int>, n: nat) {
    |history| <= n && |history| <= |heights| && forall i :: 0 <= i < |history| ==> ReadAt(heights, history, i)
  }

  ghost predicate ReadAt(heights: seq<int>, history: seq<int>, i: nat)
    requires i < |history| <= |heights|
  {
    history[i] == heights[|heights| - |history| + i]
  }

  lemma FullIsFrozen(heights: seq<int>, history: seq<int>, n: nat)
    requires LastRead(heights, history, n) && Full(history, n)
    ensures Frozen(heights, n)
  {
    var first := |heights| - n;
    forall i | first <= i < |heights| ensures SameAsLast(heights, i) {
      assert ReadAt(heights, history, i - first) && ReadAt(heights, history, n - 1);
      assert SameAsFirst(history, i - first) && SameAsFirst(history, n - 1);
    }
  }

  /** `recent` holds the times of the last restarts; all before them are earlier than `limit`. */
  ghost predicate Tracks(rs: seq<RestartDone>, recent: seq<int>, limit: int) {
    |recent| <= |rs| && forall i :: 0 <= i < |rs| ==> TracksAt(rs, recent, limit, i)
  }

  predicate TracksAt(rs: seq<RestartDone>, recent: seq<int>, limit: int, i: nat)
    requires |recent| <= |rs| && i < |rs|
  {
    var k := i - (|rs| - |recent|);
    if k >= 0 then recent[k] == rs[i].time else rs[i].time < limit
  }

  /** `recent` is exactly the restarts since `limit`. */
  ghost predicate Exact(rs: seq<RestartDone>, recent: seq<int>, limit: int) {
    |recent| <= |rs| && forall i :: 0 <= i < |rs| ==> (i >= |rs| - |recent| <==> rs[i].time >= limit)
  }

  /** How many restarts were recorded at or after `limit`. */
  function Since(rs: seq<RestartDone>, limit: int): nat {
    if rs == [] then 0
    else Since(rs[..|rs| - 1], limit) + if rs[|rs| - 1].time >= limit then 1 else 0
  }

  lemma {:induction false} ExactCounts(rs: seq<RestartDone>, n: nat, limit: int)
    requires n <= |rs| && forall i :: 0 <= i < |rs| ==> (i >= |rs| - n <==> rs[i].time >= limit)
    ensures Since(rs, limit) == n
  {
    if rs != [] {
      ExactCounts(rs[..|rs| - 1], if n == 0 then 0 else n - 1, limit);
    }
  }

  /** The restarts done by `clock` are in order and spaced, and the deque remembers those that
      still matter. */
  ghost predicate Remembered(c: Config, clock: int, rs: seq<RestartDone>, recent: seq<int>) {
    && InOrder(rs) && Spaced(c, rs)
    && (rs != [] ==> rs[|rs| - 1].time <= clock)
    && Tracks(rs, recent, clock - c.window)
  }

  lemma RememberedLater(c: Config, clock: int, now: int, rs: seq<RestartDone>, recent: seq<int>)
    requires Remembered(c, clock, rs, recent) && clock <= now
    ensures Remembered(c, now, rs, recent)
  {
    var limit, later := clock - c.window, now - c.window;
    forall i | 0 <= i < |rs| ensures TracksAt(rs, recent, later, i) { assert TracksAt(rs, recent, limit, i); }
  }

  lemma ForgetFirst(c: Config, clock: int, rs: seq<RestartDone>, recent: seq<int>)
    requires Remembered(c, clock, rs, recent) && recent != [] && recent[0] < clock - c.window
    ensures Remembered(c, clock, rs, recent[1..])
  {
    var rest, limit := recent[1..], clock - c.window;
    forall i | 0 <= i < |rs| ensures TracksAt(rs, rest, limit, i) { assert TracksAt(rs, recent, limit, i); }
  }

  lemma RememberedExactly(c: Config, clock: int, rs: seq<RestartDone>, recent: seq<int>)
    requires Remembered(c, clock, rs, recent) && (recent != [] ==> recent[0] >= clock - c.window)
    ensures Exact(rs, recent, clock - c.window)
  {
    var first := |rs| - |recent|;
    forall i | 0 <= i < |rs| ensures i >= first <==> rs[i].time >= clock - c.window {
      assert TracksAt(rs, recent, clock - c.window, i);
      if i >= first { assert TracksAt(rs, recent, clock - c.window, first) && NotLater(rs, first, i); }
    }
  }

  lemma RememberNext(c: Config, clock: int, rs: seq<RestartDone>, recent: seq<int>, r: RestartDone)
    requires Remembered(c, clock, rs, recent) && clock <= r.time
    requires r.trigger == Stall ==> |recent| < c.escalateAfter
    ensures Remembered(c, r.time, rs + [r], recent + [r.time])
  {
    var more, last, n := rs + [r], recent + [r.time], |rs|;
    var limit, later := clock - c.window, r.time - c.window;
    forall i, j | 0 <= i <= j < |more| ensures NotLater(more, i, j) {
      if j < n { assert NotLater(rs, i, j); } else if i < n { assert NotLater(rs, i, n - 1); }
    }
    forall i | 0 <= i < |more| ensures TracksAt(more, last, later, i) {
      if i < n { assert TracksAt(rs, recent, limit, i); }
    }
    forall j | c.escalateAfter <= j < |more| ensures SpacedAt(c, more, j) {
      if j < n { assert SpacedAt(c, rs, j); } else if r.trigger == Stall { assert TracksAt(rs, recent, limit, n - c.escalateAfter); }
    }
  }

  ghost predicate AllJustified(c: Config, pulls: seq<PullDone>) {
    forall i :: 0 <= i < |pulls| ==> Justified(c, pulls[i])
  }

  /** The last `n` readings, or all there are. */
  function Latest(s: seq<int>, n: nat): seq<int> {
    if |s| > n then s[|s| - n..] else s
  }

  lemma LatestRead(heights: seq<int>, history: seq<int>, height: int, n: nat)
    requires LastRead(heights, history, n) && n > 0
    ensures LastRead(heights + [height], Latest(history + [height], n), n)
    ensures (if |history| == n then history[1..] else history) + [height] == Latest(history + [height], n)
  {
    var latest, more := Latest(history + [height], n), heights + [height];
    forall i | 0 <= i < |latest| ensures ReadAt(more, latest, i) {
      var k := if |history| == n then i + 1 else i;
      if k < |history| { assert ReadAt(heights, history, k); }
    }
  }

  /** What a reading outside catch-up triggers, given the history with it. */
  function Seen(c: Config, p: Poll, history: seq<int>): Option<Trigger>
    requires p.status.Up?
  {
    if p.fault == Some(Observing) || p.fault == Some(Weighing) then None
    else if p.diverged then Some(LogPattern)
    else if Full(history, c.stallBlocks + 1) && p.healthy >= 2 && p.peerMax > p.status.height + c.peerAhead then Some(Stall)
    else None
  }

  /** What a reading triggers, given the history before it and how long the height has been the same. */
  function Noticed(c: Config, p: Poll, history: seq<int>, age: int): Option<Trigger>
    requires p.status.Up?
  {
    if !p.status.catchingUp then Seen(c, p, Latest(history + [p.status.height], c.stallBlocks + 1))
    else if p.diverged && p.healthy >= 2 && p.peerMax > p.status.height && age >= c.catchupStall then Some(LogPattern)
    else None
  }

  /** `recent_restart_count`: what is left once the entries before the cutoff are dropped from the front. */
  function Pruned(recent: seq<int>, cutoff: int): seq<int> {
    if recent == [] || recent[0] >= cutoff then recent else Pruned(recent[1..], cutoff)
  }

  /** While the clock has not gone back, pruning the deque leaves exactly the restarts since the cutoff. */
  lemma {:induction false} PrunedRemembers(c: Config, now: int, rs: seq<RestartDone>, recent: seq<int>)
    requires Remembered(c, now, rs, recent)
    ensures Remembered(c, now, rs, Pruned(recent, now - c.window))
    ensures |Pruned(recent, now - c.window)| == Since(rs, now - c.window)
    decreases |recent|
  {
    if recent != [] && recent[0] < now - c.window {
      ForgetFirst(c, now, rs, recent);
      PrunedRemembers(c, now, rs, recent[1..]);
    } else {
      RememberedExactly(c, now, rs, recent);
      ExactCounts(rs, |recent|, now - c.window);
    }
  }

  /** What is decided in a poll that counted `count` recent restarts. */
  function Decided(c: Config, trigger: Trigger, p: Poll, count: nat): Action {
    DecideAction(Some(trigger), p.hashesAgree, p.gateReady, p.restartCooldown, p.pullCooldown,
                 count, c.dryRun, c.escalateAfter, p.halt)
  }

  /** A restart that failed leads to a peer-pull in the same poll. */
  predicate Escalates(c: Config, trigger: Trigger, p: Poll) {
    && p.fault != Some(Invoking) && p.fault != Some(AfterRestart) && p.exitCode.Some? && !c.dryRun
    && DecideEscalation(p.exitCode.value, p.gateReady, p.laterPullCooldown,
                        trigger == ProcessDead && !p.halt, p.halt) == PeerPull
  }

  /** The restart a poll records: none if an exception comes between running and recording it. */
  function Restarted(action: Action, trigger: Trigger, p: Poll): seq<RestartDone> {
    if action == Restart && p.fault != Some(Invoking) then [RestartDone(trigger, p.countTime, p.actTime)] else []
  }

  function Pulled(c: Config, action: Action, trigger: Trigger, p: Poll): seq<PullDone> {
    if action == PeerPull then [PullDone(p, trigger, false)]
    else if action == Restart && Escalates(c, trigger, p) then [PullDone(p, trigger, true)] else []
  }

  /** Whatever is decided, a peer-pull that results has every guard down, and a stall restart is
      below the escalation threshold. */
  lemma Guarded(c: Config, trigger: Trigger, p: Poll, count: nat)
    requires !p.disabled && Shows(c, trigger, p)
    ensures Decided(c, trigger, p, count) == PeerPull ==> Justified(c, PullDone(p, trigger, false))
    ensures Decided(c, trigger, p, count) == Restart && Escalates(c, trigger, p) ==> Justified(c, PullDone(p, trigger, true))
    ensures Decided(c, trigger, p, count) == Restart ==> RestartedIn(c, RestartDone(trigger, p.countTime, p.actTime), p)
    ensures Decided(c, trigger, p, count) == Restart && trigger == Stall ==> count < c.escalateAfter
    ensures p.halt || c.dryRun || !p.gateReady ==> Pulled(c, Decided(c, trigger, p, count), trigger, p) == []
  {
  }

  /** As long as the clock has not gone back. */
  ghost predicate Kept(steady: bool, c: Config, clock: int, rs: seq<RestartDone>, recent: seq<int>) {
    steady ==> Remembered(c, clock, rs, recent)
  }

  /** The poll goes on to act on what it noticed. */
  predicate Acts(p: Poll, trigger: Option<Trigger>) {
    trigger.Some? && p.fault != Some(Deciding)
  }

  // ---- Whole runs ----

  /** What the loop keeps from poll to poll. */
  datatype Memory = Memory(
    history: seq<int>, recent: seq<int>, unreachable: int, lagging: int, advanced: Option<int>, advancedAt: int)

  /** The poll gets as far as asking for the node's status. */
  predicate Asks(p: Poll) {
    !p.disabled && p.fault != Some(Starting)
  }

  /** The memory once the height of an answer is compared with the last one. */
  function Advanced(m: Memory, p: Poll): Memory
    requires p.status.Up?
  {
    m.(advanced := Some(p.status.height), advancedAt := if m.advanced == Some(p.status.height) then m.advancedAt else p.time)
  }

  /** What a poll notices. */
  function Triggered(c: Config, m: Memory, p: Poll): Option<Trigger> {
    if !Asks(p) then None
    else match p.status
      case Unreachable => if m.unreachable + 1 >= c.deadThreshold && !p.alive then Some(ProcessDead) else None
      case Garbled => None
      case Up(_, _) => Noticed(c, p, m.history, p.time - Advanced(m, p).advancedAt)
  }

  function Lag(p: Poll): int
    requires p.status.Up?
  {
    if p.healthy >= 2 && p.peerMax > 0 then p.peerMax - p.status.height else 0
  }

  /** How many polls in a row the peers have been too far ahead, this one included. */
  function LagPolls(c: Config, lagging: int, p: Poll): int
    requires p.status.Up?
  {
    if Lag(p) > c.lagBlocks then lagging + 1 else 0
  }

  /** The recent restarts, counted when the guards are reported. */
  function Recounted(c: Config, recent: seq<int>, p: Poll): seq<int> {
    Pruned(recent, p.gateTime - c.window)
  }

  /** The memory after a reading, during catch-up and outside it. */
  function Noted(c: Config, m: Memory, p: Poll): Memory
    requires p.status.Up?
  {
    if p.status.catchingUp
    then m.(history := [],
            recent := if Noticed(c, p, m.history, p.time - m.advancedAt).Some? then Recounted(c, m.recent, p) else m.recent)
    else m.(history := Latest(m.history + [p.status.height], c.stallBlocks + 1),
            lagging := if p.fault == Some(Observing) then m.lagging else LagPolls(c, m.lagging, p),
            recent := if p.fault == Some(Observing) || p.fault == Some(Weighing) then m.recent else Recounted(c, m.recent, p))
  }

  /** The height history and the count of trailing polls once a height is read outside catch-up. */
  ghost predicate Measured(c: Config, was: seq<int>, lagged: int, p: Poll, history: seq<int>, lagging: int)
    requires p.status.Up?
  {
    && history == Latest(was + [p.status.height], c.stallBlocks + 1)
    && lagging == if p.fault == Some(Observing) then lagged else LagPolls(c, lagged, p)
  }

  lemma NotedIs(c: Config, m: Memory, p: Poll, history: seq<int>, lagging: int, recent: seq<int>)
    requires p.status.Up? && !p.status.catchingUp && Measured(c, m.history, m.lagging, p, history, lagging)
    requires recent == if p.fault == Some(Observing) || p.fault == Some(Weighing) then m.recent else Recounted(c, m.recent, p)
    ensures Noted(c, m, p) == Memory(history, recent, m.unreachable, lagging, m.advanced, m.advancedAt)
  {
  }

  /** The memory once a poll has looked, and before it acts. */
  function Observed(c: Config, m: Memory, p: Poll): Memory {
    if !Asks(p) then m
    else match p.status
      case Unreachable =>
        m.(unreachable := m.unreachable + 1,
           recent := if Triggered(c, m, p).Some? then Recounted(c, m.recent, p) else m.recent)
      case Garbled => m.(unreachable := 0)
      case Up(_, _) => Noted(c, Advanced(m.(unreachable := 0), p), p)
  }

  /** The recent restarts a poll counts when it decides, given what it kept so far. */
  function Counted(c: Config, o: Memory, p: Poll): seq<int> {
    Pruned(o.recent, p.countTime - c.window)
  }

  /** What is decided for a trigger. */
  function Chosen(c: Config, o: Memory, t: Trigger, p: Poll): Action {
    Decided(c, t, p, |Counted(c, o, p)|)
  }

  /** The poll executes something and comes to its end. */
  predicate Settles(action: Action, p: Poll) {
    && (action == Restart || action == PeerPull) && p.fault != Some(Invoking) && p.fault != Some(Settling)
    && !(action == Restart && p.fault == Some(AfterRestart))
  }

  /** The memory once a trigger is acted on. */
  function Acted(c: Config, o: Memory, t: Trigger, p: Poll): Memory {
    o.(history := if Settles(Chosen(c, o, t, p), p) then [] else o.history,
       recent := Counted(c, o, p) + if Restarted(Chosen(c, o, t, p), t, p) == [] then [] else [p.actTime])
  }

  /** What a poll does, and the memory after it. */
  function RestartsOf(c: Config, m: Memory, p: Poll): seq<RestartDone> {
    var t, o := Triggered(c, m, p), Observed(c, m, p);
    if Acts(p, t) then Restarted(Chosen(c, o, t.value, p), t.value, p) else []
  }

  function PullsOf(c: Config, m: Memory, p: Poll): seq<PullDone> {
    var t, o := Triggered(c, m, p), Observed(c, m, p);
    if Acts(p, t) then Pulled(c, Chosen(c, o, t.value, p), t.value, p) else []
  }

  function After(c: Config, m: Memory, p: Poll): Memory {
    var t, o := Triggered(c, m, p), Observed(c, m, p);
    if Acts(p, t) then Acted(c, o, t.value, p) else o
  }

  /** The memory, the restarts and the peer-pulls of any number of polls. */
  function Through(c: Config, m: Memory, polls: seq<Poll>): Memory {
    if polls == [] then m else After(c, Through(c, m, polls[..|polls| - 1]), polls[|polls| - 1])
  }

  function RestartsIn(c: Config, m: Memory, polls: seq<Poll>): seq<RestartDone> {
    if polls == [] then []
    else var front := polls[..|polls| - 1];
      RestartsIn(c, m, front) + RestartsOf(c, Through(c, m, front), polls[|polls| - 1])
  }

  function PullsIn(c: Config, m: Memory, polls: seq<Poll>): seq<PullDone> {
    if polls == [] then []
    else var front := polls[..|polls| - 1];
      PullsIn(c, m, front) + PullsOf(c, Through(c, m, front), polls[|polls| - 1])
  }

  /** The heights read outside catch-up, from the polls alone. */
  function Readings(polls: seq<Poll>): seq<int> {
    if polls == [] then []
    else Readings(polls[..|polls| - 1]) + ReadingOf(polls[|polls| - 1])
  }

  function ReadingOf(p: Poll): seq<int> {
    if Asks(p) && p.status.Up? && !p.status.catchingUp then [p.status.height] else []
  }

  /** What is known after the first `n` polls of a run that began with `m`, `hs`, `rs` and `ps`. */
  ghost predicate Ran(c: Config, m: Memory, hs: seq<int>, rs: seq<RestartDone>, ps: seq<PullDone>, polls: seq<Poll>,
                      now: Memory, heights: seq<int>, restarts: seq<RestartDone>, pulls: seq<PullDone>)
  {
    && now == Through(c, m, polls) && heights == hs + Readings(polls)
    && restarts == rs + RestartsIn(c, m, polls) && pulls == ps + PullsIn(c, m, polls)
  }

  lemma ThroughNext(c: Config, m: Memory, polls: seq<Poll>, n: nat)
    requires n < |polls|
    ensures Through(c, m, polls[..n + 1]) == After(c, Through(c, m, polls[..n]), polls[n])
  {
    assert polls[..n + 1][..n] == polls[..n];
  }

  lemma RestartsNext(c: Config, m: Memory, rs: seq<RestartDone>, polls: seq<Poll>, n: nat)
    requires n < |polls|
    ensures rs + RestartsIn(c, m, polls[..n + 1]) == rs + RestartsIn(c, m, polls[..n]) + RestartsOf(c, Through(c, m, polls[..n]), polls[n])
  {
    assert polls[..n + 1][..n] == polls[..n];
  }

  lemma PullsNext(c: Config, m: Memory, ps: seq<PullDone>, polls: seq<Poll>, n: nat)
    requires n < |polls|
    ensures ps + PullsIn(c, m, polls[..n + 1]) == ps + PullsIn(c, m, polls[..n]) + PullsOf(c, Through(c, m, polls[..n]), polls[n])
  {
    assert polls[..n + 1][..n] == polls[..n];
  }

  lemma ReadingsNext(hs: seq<int>, polls: seq<Poll>, n: nat)
    requires n < |polls|
    ensures hs + Readings(polls[..n + 1]) == hs + Readings(polls[..n]) + ReadingOf(polls[n])
  {
    assert polls[..n + 1][..n] == polls[..n];
  }

  lemma RanNext(c: Config, m: Memory, hs: seq<int>, rs: seq<RestartDone>, ps: seq<PullDone>, polls: seq<Poll>, n: nat,
                now: Memory, heights: seq<int>, restarts: seq<RestartDone>, pulls: seq<PullDone>)
    requires n < |polls| && Ran(c, m, hs, rs, ps, polls[..n], now, heights, restarts, pulls)
    ensures var p := polls[n];
            Ran(c, m, hs, rs, ps, polls[..n + 1], After(c, now, p), heights + ReadingOf(p),
                restarts + RestartsOf(c, now, p), pulls + PullsOf(c, now, p))
  {
    ThroughNext(c, m, polls, n);
    ReadingsNext(hs, polls, n);
    RestartsNext(c, m, rs, polls, n);
    PullsNext(c, m, ps, polls, n);
  }

  /** How many polls in a row, of those that asked, got no answer, after `before` such polls. */
  function Silence(before: int, polls: seq<Poll>): int {
    if polls == [] then before
    else
      var front, last := Silence(before, polls[..|polls| - 1]), polls[|polls| - 1];
      if !Asks(last) then front else if last.status.Unreachable? then front + 1 else 0
  }

  /** The poll was answered with a height. */
  predicate Answers(p: Poll) {
    Asks(p) && p.status.Up?
  }

  /** The last height that was answered, `before` being known already. */
  function LastAnswer(before: Option<int>, polls: seq<Poll>): Option<int> {
    if polls == [] then before
    else if Answers(polls[|polls| - 1]) then Some(polls[|polls| - 1].status.height)
    else LastAnswer(before, polls[..|polls| - 1])
  }

  /** Every answer from poll `j` on and before poll `n` is `height`. */
  ghost predicate OnlyAnswer(polls: seq<Poll>, j: nat, n: nat, height: int)
    requires n <= |polls|
  {
    forall i :: j <= i < n ==> AnswersWith(polls[i], height)
  }

  predicate AnswersWith(p: Poll, height: int) {
    Answers(p) ==> p.status.height == height
  }

  /** Poll `j` is the first of the stretch in which `height` is the only answer, up to poll `n`. */
  ghost predicate BeginsAt(m: Memory, polls: seq<Poll>, j: nat, n: nat, height: int)
    requires n <= |polls|
  {
    j < n && Answers(polls[j]) && OnlyAnswer(polls, j, n, height) && LastAnswer(m.advanced, polls[..j]) != Some(height)
  }

  /** `height` was known before the run and is the only answer in it, up to poll `n`. */
  ghost predicate AlwaysWas(m: Memory, polls: seq<Poll>, n: nat, height: int)
    requires n <= |polls|
  {
    m.advanced == Some(height) && OnlyAnswer(polls, 0, n, height)
  }

  /** At poll `k` the height has been the same for as long as the catch-up limit. */
  ghost predicate Stuck(c: Config, m: Memory, polls: seq<Poll>, k: nat)
    requires k < |polls| && polls[k].status.Up?
  {
    var p, height := polls[k], polls[k].status.height;
    || (exists j: nat :: BeginsAt(m, polls, j, k + 1, height) && p.time - polls[j].time >= c.catchupStall)
    || (AlwaysWas(m, polls, k + 1, height) && p.time - m.advancedAt >= c.catchupStall)
  }

  lemma {:induction false} SameAnswer(before: Option<int>, polls: seq<Poll>, j: nat, n: nat, height: int)
    requires j <= n <= |polls| && OnlyAnswer(polls, j, n, height)
    requires LastAnswer(before, polls[..j]) == Some(height) || (j < n && Answers(polls[j]))
    ensures LastAnswer(before, polls[..n]) == Some(height)
    decreases n
  {
    if j < n {
      assert polls[..n][..n - 1] == polls[..n - 1] && AnswersWith(polls[n - 1], height);
      if !Answers(polls[n - 1]) { SameAnswer(before, polls, j, n - 1, height); }
    }
  }

  lemma AnswerAfter(c: Config, m: Memory, p: Poll)
    ensures After(c, m, p).advanced == if Answers(p) then Some(p.status.height) else m.advanced
    ensures After(c, m, p).advancedAt == if Answers(p) && m.advanced != Some(p.status.height) then p.time else m.advancedAt
  {
  }

  lemma {:induction false} LastAnswerIs(c: Config, m: Memory, polls: seq<Poll>)
    ensures Through(c, m, polls).advanced == LastAnswer(m.advanced, polls)
  {
    if polls != [] {
      var front, last := polls[..|polls| - 1], polls[|polls| - 1];
      LastAnswerIs(c, m, front);
      AnswerAfter(c, Through(c, m, front), last);
    }
  }

  /** The height clock shows the time of the first poll of the stretch, or what it showed before the run. */
  lemma {:induction false} ClockIs(c: Config, m: Memory, polls: seq<Poll>, n: nat, height: int)
    requires n <= |polls| && LastAnswer(m.advanced, polls[..n]) == Some(height)
    ensures var at := Through(c, m, polls[..n]).advancedAt;
            && ((exists j: nat :: BeginsAt(m, polls, j, n, height)) || AlwaysWas(m, polls, n, height))
            && (forall j: nat :: BeginsAt(m, polls, j, n, height) ==> at == polls[j].time)
            && (AlwaysWas(m, polls, n, height) ==> at == m.advancedAt)
    decreases n
  {
    if n > 0 {
      var p := polls[n - 1];
      var was := LastAnswer(m.advanced, polls[..n - 1]);
      assert polls[..n][..n - 1] == polls[..n - 1];
      LastAnswerIs(c, m, polls[..n - 1]);
      AnswerAfter(c, Through(c, m, polls[..n - 1]), p);
      ThroughNext(c, m, polls, n - 1);
      if was == Some(height) {
        ClockIs(c, m, polls, n - 1, height);
        ClockGoesOn(m, polls, n, height);
        if !AlwaysWas(m, polls, n, height) {
          var j: nat :| BeginsAt(m, polls, j, n - 1, height);
          assert BeginsAt(m, polls, j, n, height);
        }
      } else {
        assert BeginsAt(m, polls, n - 1, n, height) by { assert AnswersWith(p, height); }
        ClockBegins(m, polls, n, height);
      }
    }
  }

  /** One more poll with the same answer, or with none. */
  lemma ClockGoesOn(m: Memory, polls: seq<Poll>, n: nat, height: int)
    requires 0 < n <= |polls| && AnswersWith(polls[n - 1], height) && LastAnswer(m.advanced, polls[..n - 1]) == Some(height)
    ensures forall j: nat :: BeginsAt(m, polls, j, n, height) <==> BeginsAt(m, polls, j, n - 1, height)
    ensures AlwaysWas(m, polls, n, height) <==> AlwaysWas(m, polls, n - 1, height)
  {
    forall j: nat | j < n ensures OnlyAnswer(polls, j, n, height) <==> OnlyAnswer(polls, j, n - 1, height) {
      if OnlyAnswer(polls, j, n, height) {
        forall i | j <= i < n - 1 ensures AnswersWith(polls[i], height) { }
      }
    }
  }

  /** The first poll with a new answer. */
  lemma ClockBegins(m: Memory, polls: seq<Poll>, n: nat, height: int)
    requires 0 < n <= |polls| && LastAnswer(m.advanced, polls[..n - 1]) != Some(height)
    ensures forall j: nat :: BeginsAt(m, polls, j, n, height) ==> j == n - 1
    ensures !AlwaysWas(m, polls, n, height)
  {
    forall j: nat | j < n - 1 ensures !BeginsAt(m, polls, j, n, height) {
      if BeginsAt(m, polls, j, n, height) {
        forall i | j <= i < n - 1 ensures AnswersWith(polls[i], height) { }
        SameAnswer(m.advanced, polls, j, n - 1, height);
      }
    }
    if AlwaysWas(m, polls, n, height) {
      forall i | 0 <= i < n - 1 ensures AnswersWith(polls[i], height) { }
      assert polls[..0] == [];
      SameAnswer(m.advanced, polls, 0, n - 1, height);
    }
  }

  /** The node was stuck for long enough exactly if the height clock says so. */
  lemma StuckIs(c: Config, m: Memory, polls: seq<Poll>, k: nat)
    requires k < |polls| && Answers(polls[k])
    ensures Stuck(c, m, polls, k) <==> polls[k].time - Advanced(Through(c, m, polls[..k]), polls[k]).advancedAt >= c.catchupStall
  {
    var p := polls[k];
    assert polls[..k + 1][..k] == polls[..k];
    ClockIs(c, m, polls, k + 1, p.status.height);
    ThroughNext(c, m, polls, k);
    AnswerAfter(c, Through(c, m, polls[..k]), p);
  }

  /** Why poll `k` noticed `t`: what it saw itself, and the heights read, the unanswered polls or the time
      with one height up to it. */
  ghost predicate Caused(c: Config, m: Memory, heights: seq<int>, polls: seq<Poll>, k: nat, t: Trigger)
    requires k < |polls|
  {
    && Shows(c, t, polls[k])
    && (t == Stall ==> Frozen(heights + Readings(polls[..k + 1]), c.stallBlocks + 1))
    && (t == ProcessDead ==> Silence(m.unreachable, polls[..k + 1]) >= c.deadThreshold)
    && (t == LogPattern && polls[k].status.catchingUp ==> Stuck(c, m, polls, k))
  }

  lemma TriggerShows(c: Config, m: Memory, p: Poll)
    ensures var t := Triggered(c, m, p);
            t.Some? ==> !p.disabled && Shows(c, t.value, p)
  {
  }

  lemma {:induction false} SilenceIs(c: Config, m: Memory, polls: seq<Poll>)
    ensures Through(c, m, polls).unreachable == Silence(m.unreachable, polls)
  {
    if polls != [] { SilenceIs(c, m, polls[..|polls| - 1]); }
  }

  lemma HistoryAfter(c: Config, m: Memory, p: Poll)
    ensures Observed(c, m, p).history == if ReadingOf(p) != [] then Latest(m.history + ReadingOf(p), c.stallBlocks + 1)
                                         else if Asks(p) && p.status.Up? then [] else m.history
    ensures After(c, m, p).history == Observed(c, m, p).history || After(c, m, p).history == []
    ensures Triggered(c, m, p) == Some(Stall) ==> Full(Observed(c, m, p).history, c.stallBlocks + 1)
  {
  }

  lemma PollRead(c: Config, m: Memory, p: Poll, heights: seq<int>)
    requires LastRead(heights, m.history, c.stallBlocks + 1)
    ensures LastRead(heights + ReadingOf(p), After(c, m, p).history, c.stallBlocks + 1)
    ensures Triggered(c, m, p) == Some(Stall) ==> Frozen(heights + ReadingOf(p), c.stallBlocks + 1)
  {
    var now, n := heights + ReadingOf(p), c.stallBlocks + 1;
    HistoryAfter(c, m, p);
    assert LastRead(now, Observed(c, m, p).history, n) by {
      if ReadingOf(p) != [] { LatestRead(heights, m.history, p.status.height, n); } else { assert now == heights; }
    }
    if Triggered(c, m, p) == Some(Stall) { FullIsFrozen(now, Observed(c, m, p).history, n); }
  }

  lemma {:induction false} ReadingsRead(c: Config, m: Memory, polls: seq<Poll>, heights: seq<int>)
    requires LastRead(heights, m.history, c.stallBlocks + 1)
    ensures LastRead(heights + Readings(polls), Through(c, m, polls).history, c.stallBlocks + 1)
  {
    if polls == [] {
      assert heights + Readings(polls) == heights;
    } else {
      var front, last := polls[..|polls| - 1], polls[|polls| - 1];
      ReadingsRead(c, m, front, heights);
      PollRead(c, Through(c, m, front), last, heights + Readings(front));
      assert heights + Readings(polls) == heights + Readings(front) + ReadingOf(last);
    }
  }

  /** Whatever a poll of a run notices has its cause in the polls up to it. */
  lemma TriggerCaused(c: Config, m: Memory, polls: seq<Poll>, heights: seq<int>, k: nat)
    requires k < |polls| && LastRead(heights, m.history, c.stallBlocks + 1)
    ensures var t := Triggered(c, Through(c, m, polls[..k]), polls[k]);
            t.Some? ==> Caused(c, m, heights, polls, k, t.value)
  {
    var upTo := polls[..k + 1];
    assert upTo[..k] == polls[..k];
    TriggerShows(c, Through(c, m, polls[..k]), polls[k]);
    ReadingsRead(c, m, polls[..k], heights);
    PollRead(c, Through(c, m, polls[..k]), polls[k], heights + Readings(polls[..k]));
    assert heights + Readings(upTo) == heights + Readings(polls[..k]) + ReadingOf(polls[k]);
    SilenceIs(c, m, polls[..k]);
    if Answers(polls[k]) { StuckIs(c, m, polls, k); }
  }

  /** Nothing else is needed: a dead process and a divergence in the log are noticed whenever the polls up to
      this one say so. */
  lemma MustNotice(c: Config, m: Memory, polls: seq<Poll>, k: nat)
    requires k < |polls| && Asks(polls[k])
    ensures var p, t := polls[k], Triggered(c, Through(c, m, polls[..k]), polls[k]);
            && (t == Some(ProcessDead) <==>
                  p.status.Unreachable? && !p.alive && Silence(m.unreachable, polls[..k + 1]) >= c.deadThreshold)
            && (t == Some(LogPattern) <==>
                  && p.status.Up? && p.diverged
                  && if p.status.catchingUp then p.healthy >= 2 && p.peerMax > p.status.height && Stuck(c, m, polls, k)
                     else p.fault != Some(Observing) && p.fault != Some(Weighing))
  {
    assert polls[..k + 1][..k] == polls[..k];
    SilenceIs(c, m, polls[..k]);
    if Answers(polls[k]) { StuckIs(c, m, polls, k); }
  }

  /** A stall is noticed exactly if the readings kept so far are enough and all equal to this one, peers are
      far ahead and no divergence is in the log. */
  lemma MustStall(c: Config, m: Memory, p: Poll)
    requires Asks(p)
    ensures Triggered(c, m, p) == Some(Stall) <==>
              && p.status.Up? && !p.status.catchingUp && !p.diverged && p.fault != Some(Observing) && p.fault != Some(Weighing)
              && p.healthy >= 2 && p.peerMax > p.status.height + c.peerAhead && |m.history| >= c.stallBlocks
              && forall i :: |m.history| - c.stallBlocks <= i < |m.history| ==> m.history[i] == p.status.height
  {
    if p.status.Up? && |m.history| >= c.stallBlocks {
      FullIsEqual(m.history, p.status.height, c.stallBlocks);
    }
  }

  lemma FullIsEqual(history: seq<int>, height: int, n: nat)
    requires |history| >= n
    ensures Full(Latest(history + [height], n + 1), n + 1) <==> forall i :: |history| - n <= i < |history| ==> history[i] == height
  {
    var latest, first := Latest(history + [height], n + 1), |history| - n;
    assert forall i :: 0 <= i <= n ==> latest[i] == (history + [height])[first + i];
    if Full(latest, n + 1) {
      forall i | first <= i < |history| ensures history[i] == height {
        assert SameAsFirst(latest, i - first) && SameAsFirst(latest, n);
      }
    } else {
      var i :| 0 <= i <= n && !SameAsFirst(latest, i);
      assert latest[n] == height;
    }
  }

  /** What makes a poll restart the node, given what it noticed and counted. */
  predicate Restarts(c: Config, t: Trigger, p: Poll, count: nat) {
    && (t == ProcessDead || (t == Stall && count < c.escalateAfter && p.hashesAgree && p.restartCooldown <= 0))
    && !p.halt && !c.dryRun
  }

  /** What makes it replace the state at once. */
  predicate Replaces(c: Config, t: Trigger, p: Poll, count: nat) {
    && (t == LogPattern || (t == Stall && (count >= c.escalateAfter || !p.hashesAgree)))
    && p.pullCooldown <= 0 && p.gateReady && !p.halt && !c.dryRun
  }

  /** What makes it replace the state after a restart of its own. */
  predicate FailedRestart(t: Trigger, p: Poll) {
    && p.fault != Some(Invoking) && p.fault != Some(AfterRestart) && p.exitCode.Some? && p.exitCode.value != 0
    && p.gateReady && (p.laterPullCooldown <= 0 || t == ProcessDead)
  }

  lemma DecidedExactly(c: Config, t: Trigger, p: Poll, count: nat)
    ensures Decided(c, t, p, count) == Restart <==> Restarts(c, t, p, count)
    ensures Decided(c, t, p, count) == PeerPull <==> Replaces(c, t, p, count)
    ensures Restarts(c, t, p, count) ==> (Escalates(c, t, p) <==> FailedRestart(t, p))
  {
  }

  /** The restart that a poll records and the peer-pull that it does, from what it noticed, counted and saw. */
  lemma DoneExactly(c: Config, m: Memory, p: Poll)
    ensures var t, count := Triggered(c, m, p), |Pruned(Observed(c, m, p).recent, p.countTime - c.window)|;
            if t.None? || p.fault == Some(Deciding) then RestartsOf(c, m, p) == [] && PullsOf(c, m, p) == []
            else
              && RestartsOf(c, m, p) == (if Restarts(c, t.value, p, count) && p.fault != Some(Invoking)
                                         then [RestartDone(t.value, p.countTime, p.actTime)] else [])
              && PullsOf(c, m, p) == (if Replaces(c, t.value, p, count) then [PullDone(p, t.value, false)]
                                      else if Restarts(c, t.value, p, count) && FailedRestart(t.value, p)
                                      then [PullDone(p, t.value, true)] else [])
  {
    if Triggered(c, m, p).Some? {
      DecidedExactly(c, Triggered(c, m, p).value, p, |Counted(c, Observed(c, m, p), p)|);
    }
  }

  /** The height history survives a poll that did nothing or was cut short, and is cleared by one that acted. */
  lemma HistoryKept(c: Config, m: Memory, p: Poll)
    ensures RestartsOf(c, m, p) == [] && PullsOf(c, m, p) == [] ==> After(c, m, p).history == Observed(c, m, p).history
    ensures p.fault in {Some(Invoking), Some(Settling)} ==> After(c, m, p).history == Observed(c, m, p).history
    ensures RestartsOf(c, m, p) != [] && p.fault == Some(AfterRestart) ==> After(c, m, p).history == Observed(c, m, p).history
    ensures p.fault !in {Some(Invoking), Some(Settling), Some(AfterRestart)} && (RestartsOf(c, m, p) != [] || PullsOf(c, m, p) != []) ==>
              After(c, m, p).history == []
  {
  }

  /** The deque is pruned when a poll reports its guards, and again when it decides; a restart enters it. */
  lemma RecentAfter(c: Config, m: Memory, p: Poll)
    ensures var reports := Triggered(c, m, p).Some?
                           || (Asks(p) && p.status.Up? && !p.status.catchingUp && p.fault !in {Some(Observing), Some(Weighing)});
            Observed(c, m, p).recent == if reports then Pruned(m.recent, p.gateTime - c.window) else m.recent
    ensures var was := Observed(c, m, p).recent;
            After(c, m, p).recent == if Triggered(c, m, p).None? || p.fault == Some(Deciding) then was
                                     else Pruned(was, p.countTime - c.window) + if RestartsOf(c, m, p) == [] then [] else [p.actTime]
  {
  }

  /** Peers that are too far ahead prolong the count of such polls, others end it. */
  lemma LagExactly(c: Config, lagging: int, p: Poll)
    requires p.status.Up? && c.lagBlocks >= 0
    ensures LagPolls(c, lagging, p) == if p.healthy >= 2 && p.peerMax > 0 && p.peerMax > p.status.height + c.lagBlocks then lagging + 1 else 0
  {
  }

  /** Every peer-pull and every restart of a run belongs to one of its polls. */
  lemma {:induction false} PullHasPoll(c: Config, m: Memory, polls: seq<Poll>, n: nat, i: nat) returns (k: nat)
    requires n <= |polls| && i < |PullsIn(c, m, polls[..n])|
    ensures k < n && PullsIn(c, m, polls[..n])[i] in PullsOf(c, Through(c, m, polls[..k]), polls[k])
  {
    assert polls[..n][..n - 1] == polls[..n - 1];
    if i < |PullsIn(c, m, polls[..n - 1])| { k := PullHasPoll(c, m, polls, n - 1, i); } else { k := n - 1; }
  }

  lemma {:induction false} RestartHasPoll(c: Config, m: Memory, polls: seq<Poll>, n: nat, i: nat) returns (k: nat)
    requires n <= |polls| && i < |RestartsIn(c, m, polls[..n])|
    ensures k < n && RestartsIn(c, m, polls[..n])[i] in RestartsOf(c, Through(c, m, polls[..k]), polls[k])
  {
    assert polls[..n][..n - 1] == polls[..n - 1];
    if i < |RestartsIn(c, m, polls[..n - 1])| { k := RestartHasPoll(c, m, polls, n - 1, i); } else { k := n - 1; }
  }

  /** Poll `k` did this peer-pull: with cause, with every guard down, and, if it escalated, after a restart
      of the same poll for the same trigger. */
  ghost predicate PulledAt(c: Config, m: Memory, heights: seq<int>, polls: seq<Poll>, k: nat, pull: PullDone)
    requires k < |polls|
  {
    && pull.poll == polls[k] && Justified(c, pull) && Caused(c, m, heights, polls, k, pull.trigger)
    && (pull.escalated ==>
         RestartsOf(c, Through(c, m, polls[..k]), polls[k]) == [RestartDone(pull.trigger, polls[k].countTime, polls[k].actTime)])
  }

  /** Poll `k` recorded this restart: with cause, and with every guard down. */
  ghost predicate RestartedAt(c: Config, m: Memory, heights: seq<int>, polls: seq<Poll>, k: nat, r: RestartDone)
    requires k < |polls|
  {
    RestartedIn(c, r, polls[k]) && Caused(c, m, heights, polls, k, r.trigger)
  }

  ghost predicate PulledInOne(c: Config, m: Memory, heights: seq<int>, polls: seq<Poll>, pull: PullDone) {
    exists k: nat :: k < |polls| && PulledAt(c, m, heights, polls, k, pull)
  }

  ghost predicate RestartedInOne(c: Config, m: Memory, heights: seq<int>, polls: seq<Poll>, r: RestartDone) {
    exists k: nat :: k < |polls| && RestartedAt(c, m, heights, polls, k, r)
  }

  lemma DoneAt(c: Config, m: Memory, heights: seq<int>, polls: seq<Poll>, k: nat)
    requires LastRead(heights, m.history, c.stallBlocks + 1) && k < |polls|
    ensures forall pull :: pull in PullsOf(c, Through(c, m, polls[..k]), polls[k]) ==> PulledAt(c, m, heights, polls, k, pull)
    ensures forall r :: r in RestartsOf(c, Through(c, m, polls[..k]), polls[k]) ==> RestartedAt(c, m, heights, polls, k, r)
  {
    var before, p := Through(c, m, polls[..k]), polls[k];
    TriggerCaused(c, m, polls, heights, k);
    if Triggered(c, before, p).Some? {
      TriggerShows(c, before, p);
      Guarded(c, Triggered(c, before, p).value, p, |Counted(c, Observed(c, before, p), p)|);
    }
  }

  /** Whatever the environment does, nothing is restarted or replaced without a cause or against a guard. */
  lemma EveryPull(c: Config, m: Memory, heights: seq<int>, polls: seq<Poll>, i: nat)
    requires LastRead(heights, m.history, c.stallBlocks + 1) && i < |PullsIn(c, m, polls)|
    ensures PulledInOne(c, m, heights, polls, PullsIn(c, m, polls)[i])
  {
    assert polls[..|polls|] == polls;
    var k := PullHasPoll(c, m, polls, |polls|, i);
    DoneAt(c, m, heights, polls, k);
  }

  lemma EveryRestart(c: Config, m: Memory, heights: seq<int>, polls: seq<Poll>, i: nat)
    requires LastRead(heights, m.history, c.stallBlocks + 1) && i < |RestartsIn(c, m, polls)|
    ensures RestartedInOne(c, m, heights, polls, RestartsIn(c, m, polls)[i])
  {
    assert polls[..|polls|] == polls;
    var k := RestartHasPoll(c, m, polls, |polls|, i);
    DoneAt(c, m, heights, polls, k);
  }

  lemma EveryRestartDone(c: Config, m: Memory, heights: seq<int>, rs: seq<RestartDone>, polls: seq<Poll>)
    requires LastRead(heights, m.history, c.stallBlocks + 1)
    ensures var restarts := rs + RestartsIn(c, m, polls);
            forall i :: |rs| <= i < |restarts| ==> RestartedInOne(c, m, heights, polls, restarts[i])
  {
    var restarts := rs + RestartsIn(c, m, polls);
    forall i | |rs| <= i < |restarts| ensures RestartedInOne(c, m, heights, polls, restarts[i]) {
      EveryRestart(c, m, heights, polls, i - |rs|);
    }
  }

  lemma EveryPullDone(c: Config, m: Memory, heights: seq<int>, ps: seq<PullDone>, polls: seq<Poll>)
    requires LastRead(heights, m.history, c.stallBlocks + 1)
    ensures var pulls := ps + PullsIn(c, m, polls);
            forall i :: |ps| <= i < |pulls| ==> PulledInOne(c, m, heights, polls, pulls[i])
  {
    var pulls := ps + PullsIn(c, m, polls);
    forall i | |ps| <= i < |pulls| ensures PulledInOne(c, m, heights, polls, pulls[i]) {
      EveryPull(c, m, heights, polls, i - |ps|);
    }
  }

  /** In every window at most so many stall restarts as the escalation allows. */
  ghost predicate RareStalls(c: Config, rs: seq<RestartDone>) {
    forall from, to | to <= from + c.window :: |StallsWithin(rs, from, to)| <= c.escalateAfter
  }

  lemma RememberedIsRare(c: Config, clock: int, rs: seq<RestartDone>, recent: seq<int>)
    requires Remembered(c, clock, rs, recent)
    ensures RareStalls(c, rs)
  {
    forall from, to | to <= from + c.window ensures |StallsWithin(rs, from, to)| <= c.escalateAfter {
      StallsAreRare(c, rs, from, to);
    }
  }

  class Loop {
    const config: Config
    var history: seq<int>
    var recent: seq<int>
    var unreachable: int
    var lagging: int
    var advanced: Option<int>
    var advancedAt: int
    // What happened so far: the last clock reading and whether the clock never went back, the heights
    // read outside catch-up, the restarts recorded and the peer-pulls.
    ghost var clock: int
    ghost var steady: bool
    ghost var heights: seq<int>
    ghost var restarts: seq<RestartDone>
    ghost var pulls: seq<PullDone>

    ghost predicate Valid()
      reads this
    {
      && LastRead(heights, history, config.stallBlocks + 1)
      && Kept(steady, config, clock, restarts, recent)
      && AllJustified(config, pulls)
    }

    ghost function State(): Memory
      reads `history, `recent, `unreachable, `lagging, `advanced, `advancedAt
    {
      Memory(history, recent, unreachable, lagging, advanced, advancedAt)
    }

    constructor (config: Config, start: int)
      ensures this.config == config && Valid() && steady && clock == start
      ensures State() == Memory([], [], 0, 0, None, start)
      ensures restarts == [] && pulls == [] && heights == []
    {
      this.config := config;
      history, recent, unreachable, lagging := [], [], 0, 0;
      advanced, advancedAt := None, start;
      clock, steady, heights, restarts, pulls := start, true, [], [], [];
    }

    method DropBefore(cutoff: int)
      modifies `recent
      ensures recent == Pruned(old(recent), cutoff)
    {
      while recent != [] && recent[0] < cutoff
        invariant Pruned(recent, cutoff) == Pruned(old(recent), cutoff)
        decreases |recent|
      {
        recent := recent[1..];
      }
    }

    /** Prune what has left the window and count the rest. */
    method CountRecent(now: int) returns (n: nat)
      requires Valid()
      modifies `recent, `clock, `steady
      ensures Valid() && clock == now && steady == (old(steady) && old(clock) <= now)
      ensures recent == Pruned(old(recent), now - config.window) && n == |recent|
      ensures steady ==> n == Since(restarts, now - config.window)
    {
      ghost var was := recent;
      DropBefore(now - config.window);
      n := |recent|;
      if steady && clock <= now {
        RememberedLater(config, clock, now, restarts, was);
        PrunedRemembers(config, now, restarts, was);
      }
      steady := steady && clock <= now;
      clock := now;
    }

    /** Record a restart and its time. */
    method DoRestart(trigger: Trigger, p: Poll)
      requires Valid() && clock == p.countTime
      requires steady && trigger == Stall ==> |recent| < config.escalateAfter
      modifies `recent, `clock, `steady, `restarts
      ensures Valid() && clock == p.actTime && steady == (old(steady) && p.countTime <= p.actTime)
      ensures restarts == old(restarts) + [RestartDone(trigger, p.countTime, p.actTime)] && recent == old(recent) + [p.actTime]
    {
      if steady && clock <= p.actTime {
        RememberNext(config, clock, restarts, recent, RestartDone(trigger, p.countTime, p.actTime));
      }
      recent := recent + [p.actTime];
      restarts := restarts + [RestartDone(trigger, p.countTime, p.actTime)];
      steady := steady && clock <= p.actTime;
      clock := p.actTime;
    }

    /** Record a peer-pull. */
    ghost method DoPull(pull: PullDone)
      requires Valid() && Justified(config, pull)
      modifies `pulls
      ensures Valid() && pulls == old(pulls) + [pull]
    {
      pulls := pulls + [pull];
    }

    /** A restart that failed may escalate within the same poll. */
    method Escalate(trigger: Trigger, p: Poll)
      requires Valid() && !p.disabled && p.fault != Some(AfterRestart) && p.fault != Some(Invoking)
      requires Shows(config, trigger, p) && trigger != LogPattern
      modifies `pulls
      ensures Valid() && pulls == old(pulls) + Pulled(config, Restart, trigger, p)
    {
      if p.exitCode.Some? && p.exitCode.value != 0 {
        var next := DecideEscalation(p.exitCode.value, p.gateReady, p.laterPullCooldown,
                                     trigger == ProcessDead && !p.halt, p.halt);
        if next == PeerPull && !config.dryRun {
          DoPull(PullDone(p, trigger, true));
        }
      }
    }

    /** A decided restart, up to the end of the poll's actions; `done` unless an exception came. */
    method ExecuteRestart(trigger: Trigger, p: Poll) returns (done: bool)
      requires Valid() && clock == p.countTime && !p.disabled && Shows(config, trigger, p) && trigger != LogPattern
      requires steady && trigger == Stall ==> |recent| < config.escalateAfter
      modifies `recent, `clock, `steady, `restarts, `pulls
      ensures Valid() && restarts == old(restarts) + Restarted(Restart, trigger, p)
      ensures recent == old(recent) + if Restarted(Restart, trigger, p) == [] then [] else [p.actTime]
      ensures pulls == old(pulls) + Pulled(config, Restart, trigger, p)
      ensures old(steady) && p.countTime <= p.actTime ==> steady && clock <= p.actTime
      ensures done <==> p.fault != Some(Invoking) && p.fault != Some(AfterRestart)
    {
      if p.fault == Some(Invoking) {
        return false;
      }
      DoRestart(trigger, p);
      if p.fault == Some(AfterRestart) {
        return false;
      }
      Escalate(trigger, p);
      done := true;
    }

    /** Execute what was decided. The height history is cleared exactly if something was executed and no
        exception came before the end. */
    method Execute(action: Action, trigger: Trigger, p: Poll)
      requires Valid() && clock == p.countTime && !p.disabled && Shows(config, trigger, p)
      requires action == Decided(config, trigger, p, |recent|)
      modifies `history, `recent, `clock, `steady, `restarts, `pulls
      ensures Valid() && restarts == old(restarts) + Restarted(action, trigger, p) && pulls == old(pulls) + Pulled(config, action, trigger, p)
      ensures recent == old(recent) + if Restarted(action, trigger, p) == [] then [] else [p.actTime]
      ensures history == if Settles(action, p) then [] else old(history)
      ensures old(steady) && p.countTime <= p.actTime ==> steady && clock <= p.actTime
    {
      Guarded(config, trigger, p, |recent|);
      if action == Alert || action == Noop {
        return;
      }
      if action == PeerPull {
        DoPull(PullDone(p, trigger, false));
        if p.fault == Some(Invoking) {
          return;
        }
      } else {
        var done := ExecuteRestart(trigger, p);
        if !done {
          return;
        }
      }
      if p.fault == Some(Settling) {
        return;
      }
      history := [];
    }

    /** Count the recent restarts, decide and execute. */
    method Dispatch(trigger: Trigger, p: Poll) returns (count: nat)
      requires Valid() && !p.disabled && Shows(config, trigger, p)
      modifies `history, `recent, `clock, `steady, `restarts, `pulls
      ensures Valid()
      ensures count == |Counted(config, old(State()), p)| && State() == Acted(config, old(State()), trigger, p)
      ensures old(steady) && old(clock) <= p.countTime ==> count == Since(old(restarts), p.countTime - config.window)
      ensures old(steady) && old(clock) <= p.countTime <= p.actTime ==> steady && clock <= p.actTime
      ensures restarts == old(restarts) + Restarted(Chosen(config, old(State()), trigger, p), trigger, p)
      ensures pulls == old(pulls) + Pulled(config, Chosen(config, old(State()), trigger, p), trigger, p)
    {
      count := CountRecent(p.countTime);
      assert recent == Counted(config, old(State()), p);
      var action := DecideAction(Some(trigger), p.hashesAgree, p.gateReady, p.restartCooldown, p.pullCooldown,
                                 count, config.dryRun, config.escalateAfter, p.halt);
      Execute(action, trigger, p);
    }

    /** The bounded height history takes one more reading. */
    method Append(height: int)
      requires Valid()
      modifies `history, `heights
      ensures Valid() && heights == old(heights) + [height]
      ensures history == Latest(old(history) + [height], config.stallBlocks + 1)
    {
      LatestRead(heights, history, height, config.stallBlocks + 1);
      history := (if |history| == config.stallBlocks + 1 then history[1..] else history) + [height];
      heights := heights + [height];
    }

    /** The two signals of a reading, in order. */
    method Signal(p: Poll) returns (trigger: Option<Trigger>)
      requires Valid() && p.status.Up? && p.fault != Some(Observing) && p.fault != Some(Weighing)
      ensures trigger == Seen(config, p, history)
      ensures trigger == Some(Stall) ==> TrailingEqual(history) > config.stallBlocks && Frozen(heights, config.stallBlocks + 1)
    {
      trigger := None;
      if p.diverged {
        trigger := Some(LogPattern);
      } else if Full(history, config.stallBlocks + 1) && p.healthy >= 2 && p.peerMax > p.status.height + config.peerAhead {
        FullTrails(history, config.stallBlocks + 1);
        FullIsFrozen(heights, history, config.stallBlocks + 1);
        trigger := Some(Stall);
      }
    }

    /** Take the height into the history, and warn about peers that stay ahead of an advancing node. */
    method Measure(p: Poll) returns (warned: bool)
      requires Valid() && p.status.Up?
      modifies `history, `heights, `lagging
      ensures Valid() && heights == old(heights) + [p.status.height]
      ensures Measured(config, old(history), old(lagging), p, history, lagging)
      ensures warned <==> p.fault != Some(Observing) && lagging >= config.lagPolls && TrailingEqual(history) < config.stallBlocks
    {
      Append(p.status.height);
      var stalled := CountTrailingEqual(history);
      if p.fault == Some(Observing) {
        return false;
      }
      lagging := if Lag(p) > config.lagBlocks then lagging + 1 else 0;
      warned := LagWarningDue(lagging, stalled, config.lagPolls, config.stallBlocks);
    }

    /** Report the guards, and look for the two signals. */
    method Weigh(p: Poll) returns (trigger: Option<Trigger>)
      requires Valid() && p.status.Up? && p.fault != Some(Observing) && p.fault != Some(Weighing)
      modifies `recent, `clock, `steady
      ensures Valid() && recent == Recounted(config, old(recent), p)
      ensures old(steady) && old(clock) <= p.gateTime ==> steady && clock <= p.gateTime
      ensures trigger == Seen(config, p, history)
      ensures trigger == Some(Stall) ==> TrailingEqual(history) > config.stallBlocks && Frozen(heights, config.stallBlocks + 1)
    {
      var _ := CountRecent(p.gateTime);
      trigger := Signal(p);
    }

    /** A status read outside catch-up: what it triggers, and whether the peer-lag warning is raised. */
    method Observe(p: Poll) returns (trigger: Option<Trigger>, warned: bool)
      requires Valid() && p.status.Up? && !p.status.catchingUp
      modifies `history, `recent, `clock, `steady, `heights, `lagging
      ensures Valid() && heights == old(heights) + [p.status.height]
      ensures old(steady) && old(clock) <= p.gateTime ==> steady && clock <= p.gateTime
      ensures State() == Noted(config, old(State()), p) && trigger == Seen(config, p, history)
      ensures warned <==> p.fault != Some(Observing) && lagging >= config.lagPolls && TrailingEqual(history) < config.stallBlocks
      ensures trigger == Some(Stall) ==> !warned && Frozen(heights, config.stallBlocks + 1)
    {
      trigger := None;
      warned := Measure(p);
      if p.fault != Some(Observing) && p.fault != Some(Weighing) {
        trigger := Weigh(p);
      }
      NotedIs(config, old(State()), p, history, lagging, recent);
    }

    /** A status read during catch-up: a frozen height, a divergence in the log and peers ahead make
        it a divergence all the same. */
    method ObserveCatchUp(p: Poll) returns (trigger: Option<Trigger>)
      requires Valid() && p.status.Up? && p.status.catchingUp
      modifies `history, `recent, `clock, `steady
      ensures Valid() && State() == Noted(config, old(State()), p) && trigger in {None, Some(LogPattern)}
      ensures old(steady) && old(clock) <= p.gateTime ==> steady && clock <= p.gateTime
      ensures trigger.Some? <==> p.diverged && p.healthy >= 2 && p.peerMax > p.status.height
                                 && p.time - advancedAt >= config.catchupStall
    {
      history := [];
      var age := p.time - advancedAt;
      var hit := age >= config.catchupStall && p.diverged;
      if CatchupDivergence(age, hit, p.healthy, p.peerMax, p.status.height, config.catchupStall) {
        trigger := Some(LogPattern);
        var _ := CountRecent(p.gateTime);
      } else {
        trigger := None;
      }
    }

    /** A status that was read. */
    method Look(p: Poll) returns (trigger: Option<Trigger>)
      requires Valid() && p.status.Up? && Asks(p) && unreachable == 0
      modifies `history, `recent, `clock, `steady, `heights, `lagging, `advanced, `advancedAt
      ensures Valid() && heights == old(heights) + ReadingOf(p)
      ensures old(steady) && old(clock) <= p.gateTime ==> steady && clock <= p.gateTime
      ensures trigger == Triggered(config, old(State()), p) && State() == Observed(config, old(State()), p)
      ensures trigger == Some(Stall) ==> Frozen(heights, config.stallBlocks + 1)
    {
      if advanced.None? || p.status.height != advanced.value {
        advanced, advancedAt := Some(p.status.height), p.time;
      }
      assert State() == Advanced(old(State()), p);
      if p.status.catchingUp {
        trigger := ObserveCatchUp(p);
      } else {
        var warned;
        trigger, warned := Observe(p);
      }
    }

    /** What one round notices. */
    method Notice(p: Poll) returns (trigger: Option<Trigger>)
      requires Valid() && Asks(p)
      modifies `history, `recent, `clock, `steady, `heights, `lagging, `advanced, `advancedAt, `unreachable
      ensures Valid() && heights == old(heights) + ReadingOf(p)
      ensures old(steady) && old(clock) <= p.gateTime ==> steady && clock <= p.gateTime
      ensures trigger == Triggered(config, old(State()), p) && State() == Observed(config, old(State()), p)
      ensures trigger == Some(Stall) ==> Frozen(heights, config.stallBlocks + 1)
    {
      trigger := None;
      if p.status.Unreachable? {
        unreachable := unreachable + 1;
        if unreachable >= config.deadThreshold && !p.alive {
          var _ := CountRecent(p.gateTime);
          trigger := Some(ProcessDead);
        }
      } else {
        unreachable := 0;
        if p.status.Up? {
          trigger := Look(p);
        }
      }
    }

    /** One round of the loop; an exception abandons it where it stands. What is noticed, done and kept is
        a function of the poll and of what was kept before. */
    method Round(p: Poll) returns (trigger: Option<Trigger>, count: nat)
      requires Valid()
      modifies this
      ensures Valid() && State() == After(config, old(State()), p) && heights == old(heights) + ReadingOf(p)
      ensures trigger == Triggered(config, old(State()), p)
      ensures Acts(p, trigger) ==> count == |Counted(config, Observed(config, old(State()), p), p)|
      ensures restarts == old(restarts) + RestartsOf(config, old(State()), p)
      ensures pulls == old(pulls) + PullsOf(config, old(State()), p)
      ensures old(steady) && InTime(old(clock), p) ==>
                steady && clock <= p.actTime && (Acts(p, trigger) ==> count == Since(old(restarts), p.countTime - config.window))
      ensures trigger == Some(Stall) ==> Frozen(heights, config.stallBlocks + 1)
    {
      trigger, count := None, 0;
      if p.disabled || p.fault == Some(Starting) {
        return;
      }
      trigger := Notice(p);
      if trigger.Some? && p.fault != Some(Deciding) {
        TriggerShows(config, old(State()), p);
        count := Dispatch(trigger.value, p);
      }
    }

    /** Any number of rounds: what was done and what is kept are functions of the polls. */
    method Rounds(polls: seq<Poll>)
      requires Valid()
      modifies this
      ensures Valid() && Ran(config, old(State()), old(heights), old(restarts), old(pulls), polls, State(), heights, restarts, pulls)
      ensures old(steady) && ClockRuns(old(clock), polls) ==> steady
    {
      assert heights + [] == heights && restarts + [] == restarts && pulls + [] == pulls;
      for n := 0 to |polls|
        invariant Valid()
        invariant Ran(config, old(State()), old(heights), old(restarts), old(pulls), polls[..n], State(), heights, restarts, pulls)
        invariant old(steady) && ClockRuns(old(clock), polls) ==> steady && forall i :: n <= i < |polls| ==> clock <= polls[i].gateTime
      {
        RanNext(config, old(State()), old(heights), old(restarts), old(pulls), polls, n, State(), heights, restarts, pulls);
        var _, _ := Round(polls[n]);
      }
      assert polls[..|polls|] == polls;
    }

    /** Under any environment: every restart and every peer-pull was done in one of these polls, with its
        cause in the polls up to it and with every guard down. And if the clock does not go back, stall
        restarts are rare. */
    method Run(polls: seq<Poll>)
      requires Valid()
      modifies this
      ensures Valid() && State() == Through(config, old(State()), polls) && heights == old(heights) + Readings(polls)
      ensures restarts == old(restarts) + RestartsIn(config, old(State()), polls)
      ensures pulls == old(pulls) + PullsIn(config, old(State()), polls)
      ensures forall i :: 0 <= i < |pulls| ==> Justified(config, pulls[i])
      ensures forall i :: |old(pulls)| <= i < |pulls| ==> PulledInOne(config, old(State()), old(heights), polls, pulls[i])
      ensures forall i :: |old(restarts)| <= i < |restarts| ==> RestartedInOne(config, old(State()), old(heights), polls, restarts[i])
      ensures old(steady) && ClockRuns(old(clock), polls) ==>
                steady && RareStalls(config, restarts)
    {
      Rounds(polls);
      EveryRestartDone(config, old(State()), old(heights), old(restarts), polls);
      EveryPullDone(config, old(State()), old(heights), old(pulls), polls);
      if steady {
        RememberedIsRare(config, clock, restarts, recent);
      }
    }
  }
}
