/** The chain snapshots of one block: they are read before the database transaction opens, and once
    they are sealed a read that was not foreseen is refused. Addresses are normalised. */
module Snapshots {
  import opened Wrappers

  type Address = string

  const ADMIN := 100

  /** What the quota refresh looks at in a profile row. */
  datatype Tier = Tier(paid: bool, level: int)

  type Profiles = map<Address, Tier>

  /** The four kinds of sealed reads. */
  datatype Key = Runtime(owner: Address) | Epoch(id: int) | Schedule | Tranches(recipient: Address)

  datatype Kind =
    | Plain
    | Subscribe(target: Option<Address>)
    | SetAutoRenewal
    | SetLevel(target: Option<Address>, level: int)
    | SetUsername(target: Option<Address>)
    | ClaimRewards(epochs: seq<int>)
    | UpdateParams

  /** What a block projects, in order. A transaction's message may be of a type this build does not
      know; a message of a passed proposal is projected without refreshing its signer. */
  datatype Item =
    | Unknown
    | Tx(kind: Kind, signer: Option<Address>)
    | Gov(kind: Kind, signer: Option<Address>)
    | GovSubscription(user: Option<Address>)
    | GovClaim(creator: Option<Address>, epochs: seq<int>)
    | SubscriptionEvent(address: Address, warning: bool)
    | TrancheEvent(recipient: Address)
    | EpochEvent(epoch: int)

  predicate Tiered(db: Profiles, a: Address) {
    a in db && (db[a].paid || db[a].level >= ADMIN)
  }

  // ---- Projection ----

  function WithLevel(db: Profiles, a: Address, level: int): Profiles {
    db[a := Tier(a in db && db[a].paid, level)]
  }

  function Refreshed(chain: Profiles, db: Profiles, a: Address): Profiles {
    if a in chain then db[a := chain[a]] else db
  }

  function Subscriber(kind: Kind, signer: Option<Address>): Option<Address> {
    match kind
    case Subscribe(target) => if target.Some? then target else signer
    case SetAutoRenewal => signer
    case _ => None
  }

  function AfterKind(chain: Profiles, db: Profiles, kind: Kind, signer: Option<Address>): Profiles {
    match kind
    case SetLevel(target, level) => if target.Some? then WithLevel(db, target.value, level) else db
    case SetUsername(target) =>
      if target.Some? && target.value in chain then WithLevel(db, target.value, chain[target.value].level) else db
    case _ =>
      var owner := Subscriber(kind, signer);
      if owner.Some? then Refreshed(chain, db, owner.value) else db
  }

  function KindReads(chain: Profiles, kind: Kind, signer: Option<Address>): set<Key> {
    match kind
    case SetLevel(target, level) => if target.Some? && level >= ADMIN then {Runtime(target.value)} else {}
    case ClaimRewards(epochs) => if signer.Some? then set e | e in epochs :: Epoch(e) else {}
    case UpdateParams => {Schedule}
    case _ =>
      var owner := Subscriber(kind, signer);
      if owner.Some? && owner.value in chain then {Runtime(owner.value)} else {}
  }

  /** The profiles after an item, `chain` being the profiles the node answers with during the block. */
  function After(chain: Profiles, db: Profiles, item: Item): Profiles {
    match item
    case Tx(kind, signer) => AfterKind(chain, db, kind, signer)
    case Gov(kind, signer) => AfterKind(chain, db, kind, signer)
    case GovSubscription(user) => if user.Some? then Refreshed(chain, db, user.value) else db
    case SubscriptionEvent(a, warning) => if warning then db else Refreshed(chain, db, a)
    case _ => db
  }

  /** The sealed reads an item makes. */
  function Reads(chain: Profiles, db: Profiles, item: Item): set<Key> {
    match item
    case Unknown => {}
    case Tx(kind, signer) =>
      KindReads(chain, kind, signer) +
      if signer.Some? && Tiered(AfterKind(chain, db, kind, signer), signer.value) then {Runtime(signer.value)} else {}
    case Gov(kind, signer) => KindReads(chain, kind, signer)
    case GovSubscription(user) => if user.Some? && user.value in chain then {Runtime(user.value)} else {}
    case GovClaim(creator, epochs) => if creator.Some? then set e | e in epochs :: Epoch(e) else {}
    case SubscriptionEvent(a, warning) => if warning || a in chain then {Runtime(a)} else {}
    case TrancheEvent(a) => {Tranches(a)}
    case EpochEvent(e) => {Epoch(e)}
  }

  predicate KindRaises(kind: Kind, signer: Option<Address>) {
    match kind
    case Subscribe(_) => Subscriber(kind, signer).None?
    case SetAutoRenewal => signer.None?
    case ClaimRewards(epochs) => signer.None? || epochs == []
    case _ => false
  }

  /** The item is rejected before it reads anything: nobody to act for, nothing to claim, or a profile
      that the chain no longer has where an event or a proposal names it. */
  predicate Raises(chain: Profiles, item: Item) {
    match item
    case Tx(kind, signer) => KindRaises(kind, signer)
    case Gov(kind, signer) => KindRaises(kind, signer)
    case GovSubscription(user) => user.None? || user.value !in chain
    case GovClaim(creator, epochs) => creator.None? || epochs == []
    case SubscriptionEvent(a, warning) => !warning && a !in chain
    case _ => false
  }

  /** The profiles after the first `n` items. */
  function At(chain: Profiles, db: Profiles, items: seq<Item>, n: nat): Profiles
    requires n <= |items|
  {
    if n == 0 then db else After(chain, At(chain, db, items, n - 1), items[n - 1])
  }

  // ---- Prefetch ----

  /** Profiles fetched whatever the database says. */
  function Subscribers(item: Item): set<Address> {
    match item
    case Tx(kind, signer) => Of(Subscriber(kind, signer))
    case Gov(kind, signer) => Of(Subscriber(kind, signer))
    case GovSubscription(user) => Of(user)
    case SubscriptionEvent(a, _) => {a}
    case _ => {}
  }

  function Of(a: Option<Address>): set<Address> {
    if a.Some? then {a.value} else {}
  }

  /** Profiles fetched if the database has them in a relay-quota tier before the block. */
  function Candidates(item: Item): set<Address> {
    match item
    case Tx(kind, signer) => Of(signer) + if kind.SetLevel? then Of(kind.target) else {}
    case Gov(kind, signer) => Of(signer) + if kind.SetLevel? then Of(kind.target) else {}
    case _ => {}
  }

  function OtherKeys(item: Item): set<Key> {
    match item
    case Tx(ClaimRewards(epochs), _) => set e | e in epochs :: Epoch(e)
    case Gov(ClaimRewards(epochs), _) => set e | e in epochs :: Epoch(e)
    case GovClaim(_, epochs) => set e | e in epochs :: Epoch(e)
    case Tx(UpdateParams, _) => {Schedule}
    case Gov(UpdateParams, _) => {Schedule}
    case TrancheEvent(a) => {Tranches(a)}
    case EpochEvent(e) => {Epoch(e)}
    case _ => {}
  }

  function ItemKeys(db: Profiles, item: Item): set<Key> {
    (set a | a in Subscribers(item) :: Runtime(a)) +
    (set a | a in Candidates(item) && Tiered(db, a) :: Runtime(a)) + OtherKeys(item)
  }

  /** The keys fetched for a block, from the profiles before it. */
  function Prefetched(db: Profiles, items: seq<Item>): set<Key> {
    if items == [] then {} else Prefetched(db, items[..|items| - 1]) + ItemKeys(db, items[|items| - 1])
  }

  lemma {:induction false} PrefetchedAt(db: Profiles, items: seq<Item>, i: nat)
    requires i < |items|
    ensures ItemKeys(db, items[i]) <= Prefetched(db, items)
  {
    if i < |items| - 1 { PrefetchedAt(db, items[..|items| - 1], i); }
  }

  lemma PrefetchedNext(db: Profiles, items: seq<Item>, i: nat)
    requires i < |items|
    ensures Prefetched(db, items[..i + 1]) == Prefetched(db, items[..i]) + ItemKeys(db, items[i])
  {
    assert items[..i + 1][..i] == items[..i];
  }

  method CollectKeys(db: Profiles, items: seq<Item>) returns (keys: set<Key>)
    ensures keys == Prefetched(db, items)
  {
    keys := {};
    for i := 0 to |items|
      invariant keys == Prefetched(db, items[..i])
    {
      PrefetchedNext(db, items, i);
      keys := keys + ItemKeys(db, items[i]);
    }
    assert items[..|items|] == items;
  }

  /** Whatever the items ask for is in the cache. */
  ghost predicate KeysCached(db: Profiles, items: seq<Item>, cache: set<Key>) {
    forall k {:trigger ItemKeys(db, items[k])} :: 0 <= k < |items| ==> ItemKeys(db, items[k]) <= cache
  }

  // ---- Which reads are refused ----

  /** Some read of item `i` is not in the cache. */
  predicate Misses(chain: Profiles, db: Profiles, items: seq<Item>, cache: set<Key>, i: nat)
    requires i < |items|
  {
    !(Reads(chain, At(chain, db, items, i), items[i]) <= cache)
  }

  /** The level a message writes into a profile row directly. */
  function LevelWritten(chain: Profiles, item: Item, a: Address): Option<int> {
    match item
    case Tx(SetLevel(target, level), _) => if target == Some(a) then Some(level) else None
    case Gov(SetLevel(target, level), _) => if target == Some(a) then Some(level) else None
    case Tx(SetUsername(target), _) => if target == Some(a) && a in chain then Some(chain[a].level) else None
    case Gov(SetUsername(target), _) => if target == Some(a) && a in chain then Some(chain[a].level) else None
    case _ => None
  }

  /** The last level written for `a` by the first `n` items. */
  function LastLevel(chain: Profiles, items: seq<Item>, n: nat, a: Address): Option<int>
    requires n <= |items|
  {
    if n == 0 then None
    else
      var l := LevelWritten(chain, items[n - 1], a);
      if l.Some? then l else LastLevel(chain, items, n - 1, a)
  }

  /** An item meets a profile that the block itself made an administrator: it appoints one, or its
      signer is one whose last level written in this block, up to and with this item, is that high. */
  predicate MeetsLifted(chain: Profiles, items: seq<Item>, cache: set<Key>, i: nat)
    requires i < |items|
  {
    match items[i]
    case Tx(kind, signer) => Appoints(kind, cache) ||
      (signer.Some? && Runtime(signer.value) !in cache &&
       LastLevel(chain, items, i + 1, signer.value).Some? && LastLevel(chain, items, i + 1, signer.value).value >= ADMIN)
    case Gov(kind, _) => Appoints(kind, cache)
    case _ => false
  }

  predicate Appoints(kind: Kind, cache: set<Key>) {
    kind.SetLevel? && kind.target.Some? && kind.level >= ADMIN && Runtime(kind.target.value) !in cache
  }

  /** A profile outside the cache is in a tier exactly if the block wrote its level that high: nothing
      else the block does can bring it there. */
  lemma {:induction false} TierIsWritten(chain: Profiles, db: Profiles, items: seq<Item>, cache: set<Key>, n: nat, a: Address)
    requires n <= |items| && Runtime(a) !in cache && !Tiered(db, a)
    requires KeysCached(db, items, cache)
    ensures var now := At(chain, db, items, n);
            && (a in now ==> !now[a].paid)
            && (Tiered(now, a) <==> LastLevel(chain, items, n, a).Some? && LastLevel(chain, items, n, a).value >= ADMIN)
  {
    if n > 0 {
      TierIsWritten(chain, db, items, cache, n - 1, a);
      var item := items[n - 1];
      if a in Subscribers(item) {
        Foreseen(db, item, a);
        assert false;
      }
      StepTier(chain, At(chain, db, items, n - 1), item, a);
    }
  }

  lemma Foreseen(db: Profiles, item: Item, a: Address)
    requires a in Subscribers(item) || (a in Candidates(item) && Tiered(db, a))
    ensures Runtime(a) in ItemKeys(db, item)
  {
  }

  lemma StepTier(chain: Profiles, db: Profiles, item: Item, a: Address)
    requires a !in Subscribers(item)
    ensures var l := LevelWritten(chain, item, a);
            && (l.None? ==> (a in After(chain, db, item) <==> a in db) && (a in db ==> After(chain, db, item)[a] == db[a]))
            && (l.Some? ==> a in After(chain, db, item) && After(chain, db, item)[a] == Tier(a in db && db[a].paid, l.value))
  {
  }

  /** A read is refused exactly where the block meets a profile that it made an administrator itself. */
  lemma MissExactly(chain: Profiles, db: Profiles, items: seq<Item>, cache: set<Key>, i: nat)
    requires i < |items| && KeysCached(db, items, cache)
    ensures Misses(chain, db, items, cache, i) <==> MeetsLifted(chain, items, cache, i)
  {
    var item := items[i];
    if item.Tx? || item.Gov? {
      KindHits(chain, db, item, cache);
      if item.Tx? && item.signer.Some? && Runtime(item.signer.value) !in cache {
        if Tiered(db, item.signer.value) {
          Foreseen(db, item, item.signer.value);
          assert false;
        }
        TierIsWritten(chain, db, items, cache, i + 1, item.signer.value);
        assert At(chain, db, items, i + 1) == AfterKind(chain, At(chain, db, items, i), item.kind, item.signer);
      }
    } else {
      OtherHits(chain, db, At(chain, db, items, i), item, cache);
    }
  }

  lemma KindHits(chain: Profiles, db: Profiles, item: Item, cache: set<Key>)
    requires item.Tx? || item.Gov?
    requires ItemKeys(db, item) <= cache
    ensures !(KindReads(chain, item.kind, item.signer) <= cache) <==> Appoints(item.kind, cache)
  {
    if Subscriber(item.kind, item.signer).Some? {
      assert Runtime(Subscriber(item.kind, item.signer).value) in ItemKeys(db, item);
    }
    if item.kind.ClaimRewards? || item.kind.UpdateParams? { assert KindReads(chain, item.kind, item.signer) <= OtherKeys(item); }
  }

  lemma OtherHits(chain: Profiles, db: Profiles, now: Profiles, item: Item, cache: set<Key>)
    requires !item.Tx? && !item.Gov? && ItemKeys(db, item) <= cache
    ensures Reads(chain, now, item) <= cache
  {
    forall k | k in Reads(chain, now, item) ensures k in ItemKeys(db, item) {
      if k.Runtime? { assert k.owner in Subscribers(item); }
    }
  }

  /** A message that writes an administrator's level into a row outside the cache. */
  predicate Lifts(chain: Profiles, item: Item, cache: set<Key>) {
    (item.Tx? || item.Gov?) && (item.kind.SetLevel? || item.kind.SetUsername?) && item.kind.target.Some? &&
    Runtime(item.kind.target.value) !in cache &&
    LevelWritten(chain, item, item.kind.target.value).Some? && LevelWritten(chain, item, item.kind.target.value).value >= ADMIN
  }

  lemma {:induction false} WrittenByLift(chain: Profiles, items: seq<Item>, cache: set<Key>, n: nat, a: Address)
    requires n <= |items| && Runtime(a) !in cache
    requires forall i :: 0 <= i < n ==> !Lifts(chain, items[i], cache)
    ensures LastLevel(chain, items, n, a).None? || LastLevel(chain, items, n, a).value < ADMIN
  {
    if n > 0 {
      WrittenByLift(chain, items, cache, n - 1, a);
      assert !Lifts(chain, items[n - 1], cache);
    }
  }

  /** A block in which no message lifts a profile makes no refused read, whatever its order. */
  lemma UnliftedHits(chain: Profiles, db: Profiles, items: seq<Item>, others: seq<Item>, i: nat)
    requires i < |items|
    requires forall k :: 0 <= k < |items| ==> !Lifts(chain, items[k], Prefetched(db, items + others))
    ensures Reads(chain, At(chain, db, items, i), items[i]) <= Prefetched(db, items + others)
  {
    var cache := Prefetched(db, items + others);
    AllForeseen(db, items, others);
    MissExactly(chain, db, items, cache, i);
    UnliftedMeetsNone(chain, items, cache, i);
  }

  lemma UnliftedMeetsNone(chain: Profiles, items: seq<Item>, cache: set<Key>, i: nat)
    requires i < |items| && forall k :: 0 <= k <= i ==> !Lifts(chain, items[k], cache)
    ensures !MeetsLifted(chain, items, cache, i)
  {
    assert !Lifts(chain, items[i], cache);
    if items[i].Tx? && items[i].signer.Some? && Runtime(items[i].signer.value) !in cache {
      WrittenByLift(chain, items, cache, i + 1, items[i].signer.value);
    }
  }

  lemma AllForeseen(db: Profiles, items: seq<Item>, others: seq<Item>)
    ensures KeysCached(db, items, Prefetched(db, items + others))
  {
    forall k | 0 <= k < |items| ensures ItemKeys(db, items[k]) <= Prefetched(db, items + others) {
      PrefetchedAt(db, items + others, k);
      assert (items + others)[k] == items[k];
    }
  }

  /** Appointing an administrator who was none before the block is always refused. */
  lemma AppointmentIsRefused(chain: Profiles, db: Profiles, a: Address, level: int)
    requires level >= ADMIN && !Tiered(db, a)
    ensures var items := [Gov(SetLevel(Some(a), level), None)];
            Misses(chain, db, items, Prefetched(db, items), 0)
  {
    var items := [Gov(SetLevel(Some(a), level), None)];
    assert items[..0] == [];
    assert Prefetched(db, items) == Prefetched(db, items[..0]) + ItemKeys(db, items[0]);
    assert Runtime(a) in Reads(chain, At(chain, db, items, 0), items[0]);
  }

  // ---- The same, from the items and the rows before the block ----

  predicate IsMessage(item: Item) { item.Tx? || item.Gov? }

  /** The item renews or changes the subscription of `a`: of the named user, or of the signer if none is. */
  predicate Subscribes(item: Item, a: Address) {
    || (IsMessage(item) && item.kind.Subscribe? && (item.kind.target == Some(a) || (item.kind.target == None && item.signer == Some(a))))
    || (IsMessage(item) && item.kind.SetAutoRenewal? && item.signer == Some(a))
    || item == GovSubscription(Some(a))
    || (item.SubscriptionEvent? && item.address == a)
  }

  /** `a` signs the message, or is the one whose level it sets. */
  predicate Involves(item: Item, a: Address) {
    IsMessage(item) && (item.signer == Some(a) || (item.kind.SetLevel? && item.kind.target == Some(a)))
  }

  /** The message, proposal or event is about the rewards of epoch `e`. */
  predicate Claims(item: Item, e: int) {
    || (IsMessage(item) && item.kind.ClaimRewards? && e in item.kind.epochs)
    || (item.GovClaim? && e in item.epochs) || item == EpochEvent(e)
  }

  /** A row with a relay quota of its own: paid, or of an administrator. */
  predicate HasQuota(db: Profiles, a: Address) {
    a in db && (db[a].paid || db[a].level >= 100)
  }

  /** What is fetched for an item: profiles it subscribes whatever the rows say, profiles it involves if
      they have a quota before the block, and what it is about otherwise. */
  predicate Fetches(db: Profiles, item: Item, key: Key) {
    match key
    case Runtime(a) => Subscribes(item, a) || (Involves(item, a) && HasQuota(db, a))
    case Epoch(e) => Claims(item, e)
    case Schedule => IsMessage(item) && item.kind.UpdateParams?
    case Tranches(a) => item == TrancheEvent(a)
  }

  lemma ItemKeysExactly(db: Profiles, item: Item, key: Key)
    ensures key in ItemKeys(db, item) <==> Fetches(db, item, key)
  {
    if key.Runtime? {
      assert key in ItemKeys(db, item) <==> key.owner in Subscribers(item) || (key.owner in Candidates(item) && Tiered(db, key.owner));
    }
  }

  /** One of the items fetches the key. */
  ghost predicate Wanted(db: Profiles, items: seq<Item>, key: Key) {
    exists i :: 0 <= i < |items| && Fetches(db, items[i], key)
  }

  lemma WantedNext(db: Profiles, items: seq<Item>, last: Item, key: Key)
    ensures Wanted(db, items + [last], key) <==> Wanted(db, items, key) || Fetches(db, last, key)
  {
    var all := items + [last];
    if Wanted(db, items, key) {
      var i :| 0 <= i < |items| && Fetches(db, items[i], key);
      assert all[i] == items[i];
    }
    if Fetches(db, last, key) { assert Fetches(db, all[|items|], key); }
  }

  /** The snapshots of a block hold a key exactly if one of its items fetches it. */
  lemma {:induction false} PrefetchedExactly(db: Profiles, items: seq<Item>, key: Key)
    ensures key in Prefetched(db, items) <==> Wanted(db, items, key)
  {
    if items != [] {
      var front, last := items[..|items| - 1], items[|items| - 1];
      PrefetchedExactly(db, front, key);
      ItemKeysExactly(db, last, key);
      WantedNext(db, front, last, key);
      assert front + [last] == items;
    }
  }

  /** An item is rejected exactly if there is nobody to act for, nothing to claim, or no profile on the
      chain where an event or a proposal names one. */
  lemma RaisesExactly(chain: Profiles, item: Item)
    ensures Raises(chain, item) <==>
              || (IsMessage(item) && item.kind.Subscribe? && item.kind.target == None && item.signer == None)
              || (IsMessage(item) && item.kind.SetAutoRenewal? && item.signer == None)
              || (IsMessage(item) && item.kind.ClaimRewards? && (item.signer == None || item.kind.epochs == []))
              || (item.GovClaim? && (item.creator == None || item.epochs == []))
              || (item.GovSubscription? && (item.user == None || item.user.value !in chain))
              || (item.SubscriptionEvent? && !item.warning && item.address !in chain)
  {
  }

  /** What an item does to the row of `a`: a subscription takes it over from the chain, unless it is only a
      warning; a level message sets the level; a username message takes the level over from the chain. */
  lemma WritesExactly(chain: Profiles, db: Profiles, item: Item, a: Address)
    ensures var now := After(chain, db, item);
            var paid := a in db && db[a].paid;
            if Subscribes(item, a) && a in chain && !(item.SubscriptionEvent? && item.warning) then a in now && now[a] == chain[a]
            else if IsMessage(item) && item.kind.SetLevel? && item.kind.target == Some(a) then a in now && now[a] == Tier(paid, item.kind.level)
            else if IsMessage(item) && item.kind.SetUsername? && item.kind.target == Some(a) && a in chain
            then a in now && now[a] == Tier(paid, chain[a].level)
            else (a in now <==> a in db) && (a in db ==> now[a] == db[a])
  {
  }

  /** What an item reads: the quota of a profile it subscribes, of one it makes an administrator, and of its
      signer if that one has a quota by then; the epochs it is about, if there is somebody to claim them. */
  lemma ReadsExactly(chain: Profiles, db: Profiles, item: Item, key: Key)
    ensures key in Reads(chain, db, item) <==>
              match key
              case Runtime(a) =>
                || (Subscribes(item, a) && (a in chain || (item.SubscriptionEvent? && item.warning)))
                || (IsMessage(item) && item.kind.SetLevel? && item.kind.target == Some(a) && item.kind.level >= 100)
                || (item.Tx? && item.signer == Some(a) && HasQuota(After(chain, db, item), a))
              case Epoch(e) =>
                Claims(item, e) && (IsMessage(item) ==> item.signer.Some?) && (item.GovClaim? ==> item.creator.Some?)
              case Schedule => IsMessage(item) && item.kind.UpdateParams?
              case Tranches(a) => item == TrancheEvent(a)
  {
  }

  /** No row before the block and no subscription in it makes `a` foreseen. */
  ghost predicate Unforeseen(db: Profiles, all: seq<Item>, a: Address) {
    !HasQuota(db, a) && forall i :: 0 <= i < |all| ==> !Subscribes(all[i], a)
  }

  /** Item `i` meets a profile that the block itself made an administrator and nothing foresaw. */
  ghost predicate MeetsAppointed(chain: Profiles, db: Profiles, items: seq<Item>, all: seq<Item>, i: nat)
    requires i < |items|
  {
    var item := items[i];
    || (&& IsMessage(item) && item.kind.SetLevel? && item.kind.level >= 100 && item.kind.target.Some?
        && Unforeseen(db, all, item.kind.target.value))
    || (&& item.Tx? && item.signer.Some? && Unforeseen(db, all, item.signer.value)
        && LastLevel(chain, items, i + 1, item.signer.value).Some? && LastLevel(chain, items, i + 1, item.signer.value).value >= 100)
  }

  lemma UnforeseenIs(db: Profiles, all: seq<Item>, i: nat, a: Address)
    requires i < |all| && Involves(all[i], a)
    ensures Runtime(a) !in Prefetched(db, all) <==> Unforeseen(db, all, a)
  {
    PrefetchedExactly(db, all, Runtime(a));
    if HasQuota(db, a) { assert Fetches(db, all[i], Runtime(a)); }
    if exists k :: 0 <= k < |all| && Subscribes(all[k], a) {
      var k :| 0 <= k < |all| && Subscribes(all[k], a);
      assert Fetches(db, all[k], Runtime(a));
    }
  }

  lemma MeetsIs(chain: Profiles, db: Profiles, items: seq<Item>, others: seq<Item>, i: nat)
    requires i < |items|
    ensures MeetsLifted(chain, items, Prefetched(db, items + others), i) <==> MeetsAppointed(chain, db, items, items + others, i)
  {
    var item, all := items[i], items + others;
    assert all[i] == item;
    if IsMessage(item) {
      if item.signer.Some? { UnforeseenIs(db, all, i, item.signer.value); }
      if item.kind.SetLevel? && item.kind.target.Some? { UnforeseenIs(db, all, i, item.kind.target.value); }
    }
  }

  /** A read is refused at the end of a block, and only there, exactly because of such a profile. */
  ghost predicate RefusedByRows(chain: Profiles, db: Profiles, items: seq<Item>, all: seq<Item>, r: Outcome) {
    && (forall k :: 0 <= k < ServedItems(items, r) && k < |items| ==> !MeetsAppointed(chain, db, items, all, k))
    && (r.Refused? ==> r.at < |items| && MeetsAppointed(chain, db, items, all, r.at))
  }

  lemma EndsByRows(chain: Profiles, db: Profiles, items: seq<Item>, others: seq<Item>, abort: nat, r: Outcome)
    requires Ends(chain, items, Prefetched(db, items + others), abort, r)
    ensures RefusedByRows(chain, db, items, items + others, r)
  {
    forall k | 0 <= k < ServedItems(items, r) && k < |items| ensures !MeetsAppointed(chain, db, items, items + others, k) {
      ServedBefore(chain, items, Prefetched(db, items + others), abort, r, k);
      MeetsIs(chain, db, items, others, k);
    }
    if r.Refused? { MeetsIs(chain, db, items, others, r.at); }
  }

  // ---- The block ----

  /** How a block ends: committed, refused at a read of item `at`, or failed there for another reason. */
  datatype Outcome = Committed | Refused(at: nat) | Failed(at: nat)

  /** Item `k` is served: not rejected, and no read of it refused. */
  predicate Served(chain: Profiles, items: seq<Item>, cache: set<Key>, k: nat)
    requires k < |items|
  {
    !Raises(chain, items[k]) && !MeetsLifted(chain, items, cache, k)
  }

  ghost predicate ServedUpTo(chain: Profiles, items: seq<Item>, cache: set<Key>, n: nat)
    requires n <= |items|
  {
    forall k {:trigger Served(chain, items, cache, k)} :: 0 <= k < n ==> Served(chain, items, cache, k)
  }

  /** Where and why a block with these snapshots ends; item `abort`, if there is one, fails for a reason
      of its own. */
  ghost predicate Ends(chain: Profiles, items: seq<Item>, cache: set<Key>, abort: nat, r: Outcome) {
    match r
    case Committed => |items| <= abort && ServedUpTo(chain, items, cache, |items|)
    case Refused(at) =>
      && at < |items| && at < abort && !Raises(chain, items[at]) && MeetsLifted(chain, items, cache, at)
      && ServedUpTo(chain, items, cache, at)
    case Failed(at) =>
      && at < |items| && at <= abort && (at == abort || Raises(chain, items[at]))
      && ServedUpTo(chain, items, cache, at)
  }

  class Indexer<V> {
    var profiles: Profiles
    var cache: Option<map<Key, V>>
    var sealed: bool

    constructor (profiles: Profiles)
      ensures this.profiles == profiles && cache.None? && !sealed
    {
      this.profiles := profiles;
      cache, sealed := None, false;
    }

    method BeginBlock()
      modifies `cache, `sealed
      ensures cache == Some(map[]) && !sealed
    {
      cache, sealed := Some(map[]), false;
    }

    method SealSnapshots()
      modifies `sealed
      ensures sealed
    {
      sealed := true;
    }

    method EndBlock()
      modifies `cache, `sealed
      ensures cache.None? && !sealed
    {
      cache, sealed := None, false;
    }

    /** A sealed read: the cached answer, else refused once sealed, else the node's answer, kept for the
        rest of the block. */
    method Query(k: Key, answer: V) returns (r: Option<V>)
      modifies `cache
      ensures r.None? <==> sealed && !(old(cache).Some? && k in old(cache).value)
      ensures sealed ==> cache == old(cache)
      ensures r.Some? && cache.Some? ==> k in cache.value && r.value == cache.value[k]
      ensures cache.Some? <==> old(cache).Some?
      ensures !sealed && cache.Some? ==> cache.value.Keys == old(cache).value.Keys + {k}
                                         && forall j | j in old(cache).value :: cache.value[j] == old(cache).value[j]
    {
      if cache.Some? && k in cache.value {
        return Some(cache.value[k]);
      }
      if sealed {
        return None;
      }
      if cache.Some? {
        cache := Some(cache.value[k := answer]);
      }
      r := Some(answer);
    }

    /** Fetch every key that is asked for. */
    method FetchAll(keys: set<Key>, answers: Key -> V)
      requires cache == Some(map[]) && !sealed
      modifies `cache
      ensures cache.Some? && cache.value.Keys == keys
    {
      var todo := keys;
      while todo != {}
        invariant cache.Some? && todo <= keys && cache.value.Keys == keys - todo
        decreases |todo|
      {
        var k :| k in todo;
        var _ := Query(k, answers(k));
        todo := todo - {k};
      }
    }

    /** Fetch what the block's items, and its events that are not projected, will need. */
    method Prefetch(items: seq<Item>, others: seq<Item>, answers: Key -> V)
      requires cache == Some(map[]) && !sealed
      modifies `cache
      ensures cache.Some? && cache.value.Keys == Prefetched(profiles, items + others)
      ensures forall key :: key in cache.value <==> Wanted(profiles, items + others, key)
    {
      var keys := CollectKeys(profiles, items + others);
      FetchAll(keys, answers);
      forall key ensures key in cache.value <==> Wanted(profiles, items + others, key) {
        PrefetchedExactly(profiles, items + others, key);
      }
    }

    /** The sealed reads of one item. */
    method ReadAll(keys: set<Key>, answers: Key -> V) returns (ok: bool)
      requires sealed && cache.Some?
      modifies `cache
      ensures cache == old(cache) && (ok <==> keys <= cache.value.Keys)
    {
      var todo := keys;
      while todo != {}
        invariant cache == old(cache) && todo <= keys && keys - todo <= cache.value.Keys
        decreases |todo|
      {
        var k :| k in todo;
        var r := Query(k, answers(k));
        if r.None? {
          return false;
        }
        todo := todo - {k};
      }
      ok := true;
    }

    /** Item `i` of a sealed block: its reads, and what it writes if they are served. */
    method ProjectItem(chain: Profiles, items: seq<Item>, i: nat, answers: Key -> V, ghost before: Profiles) returns (ok: bool)
      requires sealed && cache.Some? && i < |items| && profiles == At(chain, before, items, i) && !Raises(chain, items[i])
      requires KeysCached(before, items, cache.value.Keys)
      modifies `profiles, `cache
      ensures cache == old(cache) && (ok <==> !MeetsLifted(chain, items, cache.value.Keys, i))
      ensures profiles == At(chain, before, items, if ok then i + 1 else i)
    {
      MissExactly(chain, before, items, cache.value.Keys, i);
      ok := ReadAll(Reads(chain, profiles, items[i]), answers);
      if ok {
        profiles := After(chain, profiles, items[i]);
      }
    }

    /** The projection of a sealed block. */
    method Project(chain: Profiles, items: seq<Item>, answers: Key -> V, abort: nat) returns (r: Outcome)
      requires sealed && cache.Some?
      requires KeysCached(profiles, items, cache.value.Keys)
      modifies `profiles, `cache
      ensures cache == old(cache) && Ends(chain, items, cache.value.Keys, abort, r)
      ensures r.Committed? ==> profiles == At(chain, old(profiles), items, |items|)
    {
      ghost var before := profiles;
      for i := 0 to |items|
        invariant cache == old(cache) && profiles == At(chain, before, items, i) && i <= abort
        invariant ServedUpTo(chain, items, cache.value.Keys, i)
      {
        if i == abort || Raises(chain, items[i]) {
          return Failed(i);
        }
        var ok := ProjectItem(chain, items, i, answers, before);
        if !ok {
          return Refused(i);
        }
        assert Served(chain, items, cache.value.Keys, i);
      }
      r := Committed;
    }

    /** One block: prefetch, seal, project in a transaction, and drop the snapshots in any case. */
    method ProcessBlock(chain: Profiles, items: seq<Item>, others: seq<Item>,
                        answers: Key -> V, later: Key -> V, abort: nat) returns (r: Outcome)
      modifies this
      ensures cache.None? && !sealed && Ends(chain, items, Prefetched(old(profiles), items + others), abort, r)
      ensures RefusedByRows(chain, old(profiles), items, items + others, r)
      ensures profiles == if r.Committed? then At(chain, old(profiles), items, |items|) else old(profiles)
    {
      BeginBlock();
      Prefetch(items, others, answers);
      SealSnapshots();
      AllForeseen(profiles, items, others);
      var before := profiles;
      r := Project(chain, items, later, abort);
      EndsByRows(chain, before, items, others, abort, r);
      if !r.Committed? {
        profiles := before;
      }
      EndBlock();
    }
  }

  /** How many items were served before the end. */
  function ServedItems(items: seq<Item>, r: Outcome): nat {
    if r.Committed? then |items| else r.at
  }

  lemma ServedBefore(chain: Profiles, items: seq<Item>, cache: set<Key>, abort: nat, r: Outcome, k: nat)
    requires Ends(chain, items, cache, abort, r) && k < ServedItems(items, r)
    ensures k < |items| && k < abort && Served(chain, items, cache, k)
  {
  }

  lemma EndsNoEarlier(chain: Profiles, items: seq<Item>, cache: set<Key>, abort: nat, r: Outcome, s: Outcome)
    requires Ends(chain, items, cache, abort, r) && Ends(chain, items, cache, abort, s)
    ensures ServedItems(items, r) <= ServedItems(items, s)
  {
    if ServedItems(items, s) < ServedItems(items, r) {
      ServedBefore(chain, items, cache, abort, r, ServedItems(items, s));
      assert false;
    }
  }

  /** The ending is decided by the block, its snapshots and the first other failure. */
  lemma EndsOnce(chain: Profiles, items: seq<Item>, cache: set<Key>, abort: nat, r: Outcome, s: Outcome)
    requires Ends(chain, items, cache, abort, r) && Ends(chain, items, cache, abort, s)
    ensures r == s
  {
    EndsNoEarlier(chain, items, cache, abort, r, s);
    EndsNoEarlier(chain, items, cache, abort, s, r);
  }
}
