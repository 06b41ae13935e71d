/** The staking and bank rewrite of `scripts/reset_local_testnet.py`: a chain export becomes a genesis
    with one validator that holds the whole stake. Amounts are integers, after parsing. */
module Genesis {
  import opened Wrappers

  type Address = string

  const UMIRAGE := "umirage"
  const POWER_REDUCTION := 1_000_000

  datatype Coin = Coin(denom: string, amount: int)

  datatype Balance = Balance(address: Address, coins: seq<Coin>)

  datatype Validator = Validator(key: string, operator: Address, bonded: bool, jailed: bool, tokens: int, shares: int)

  datatype Delegation = Delegation(delegator: Address, operator: Address, shares: int)

  datatype Genesis = Genesis(
    validators: seq<Validator>, delegations: seq<Delegation>, lastPower: int,
    balances: seq<Balance>, supply: seq<Coin>)

  /** The accounts the rewrite is about, and what it grants the validator. */
  datatype Plan = Plan(bonded: Address, notBonded: Address, account: Address, extra: int)

  // ---- Sums over coins and balances ----

  function In(c: Coin, denom: string): int {
    if c.denom == denom then c.amount else 0
  }

  function Amount(coins: seq<Coin>, denom: string): int {
    if coins == [] then 0 else Amount(coins[..|coins| - 1], denom) + In(coins[|coins| - 1], denom)
  }

  function Own(b: Balance, address: Address, denom: string): int {
    if b.address == address then Amount(b.coins, denom) else 0
  }

  function Held(bs: seq<Balance>, address: Address, denom: string): int {
    if bs == [] then 0 else Held(bs[..|bs| - 1], address, denom) + Own(bs[|bs| - 1], address, denom)
  }

  function Total(bs: seq<Balance>, denom: string): int {
    if bs == [] then 0 else Total(bs[..|bs| - 1], denom) + Amount(bs[|bs| - 1].coins, denom)
  }

  function Rows(bs: seq<Balance>, address: Address): nat {
    if bs == [] then 0 else Rows(bs[..|bs| - 1], address) + if bs[|bs| - 1].address == address then 1 else 0
  }

  /** The coins of an account's first row. */
  function FirstRow(bs: seq<Balance>, address: Address): Option<seq<Coin>> {
    if bs == [] then None
    else
      var first := FirstRow(bs[..|bs| - 1], address);
      if first.None? && bs[|bs| - 1].address == address then Some(bs[|bs| - 1].coins) else first
  }

  /** The supply entry of a denomination is the sum of what the accounts hold of it. */
  predicate Balanced(g: Genesis, denom: string) {
    Amount(g.supply, denom) == Total(g.balances, denom)
  }

  lemma {:induction false} AmountUpdate(coins: seq<Coin>, i: nat, c: Coin, denom: string)
    requires i < |coins|
    ensures Amount(coins[i := c], denom) == Amount(coins, denom) - In(coins[i], denom) + In(c, denom)
  {
    var n := |coins| - 1;
    if i == n {
      assert coins[i := c][..n] == coins[..n];
    } else {
      AmountUpdate(coins[..n], i, c, denom);
      assert coins[i := c][..n] == coins[..n][i := c];
    }
  }

  lemma AmountAppend(coins: seq<Coin>, c: Coin, denom: string)
    ensures Amount(coins + [c], denom) == Amount(coins, denom) + In(c, denom)
  {
    assert (coins + [c])[..|coins|] == coins;
  }

  lemma {:induction false} BalanceUpdate(bs: seq<Balance>, i: nat, b: Balance, address: Address, denom: string)
    requires i < |bs| && b.address == bs[i].address
    ensures Held(bs[i := b], address, denom) == Held(bs, address, denom) - Own(bs[i], address, denom) + Own(b, address, denom)
    ensures Total(bs[i := b], denom) == Total(bs, denom) - Amount(bs[i].coins, denom) + Amount(b.coins, denom)
  {
    var n := |bs| - 1;
    if i == n {
      assert bs[i := b][..n] == bs[..n];
    } else {
      BalanceUpdate(bs[..n], i, b, address, denom);
      assert bs[i := b][..n] == bs[..n][i := b];
    }
  }

  lemma BalanceAppend(bs: seq<Balance>, b: Balance, address: Address, denom: string)
    ensures Held(bs + [b], address, denom) == Held(bs, address, denom) + Own(b, address, denom)
    ensures Total(bs + [b], denom) == Total(bs, denom) + Amount(b.coins, denom)
    ensures Rows(bs + [b], address) == Rows(bs, address) + if b.address == address then 1 else 0
    ensures FirstRow(bs + [b], address) ==
              if FirstRow(bs, address).None? && b.address == address then Some(b.coins) else FirstRow(bs, address)
  {
    assert (bs + [b])[..|bs|] == bs;
  }

  lemma {:induction false} FirstRowAt(bs: seq<Balance>, i: nat, address: Address)
    requires i <= |bs| && forall k :: 0 <= k < i ==> bs[k].address != address
    ensures i == |bs| ==> FirstRow(bs, address) == None
    ensures i < |bs| && bs[i].address == address ==> FirstRow(bs, address) == Some(bs[i].coins)
  {
    if bs != [] {
      FirstRowAt(bs[..|bs| - 1], if i == |bs| then i - 1 else i, address);
    }
  }

  /** What coins amount to, and what an account and all accounts hold, are sums. */
  lemma {:induction false} AmountConcat(a: seq<Coin>, b: seq<Coin>, c: Coin, denom: string)
    ensures Amount(a + b, denom) == Amount(a, denom) + Amount(b, denom)
    ensures Amount([c], denom) == if c.denom == denom then c.amount else 0
    decreases |b|
  {
    AmountAppend([], c, denom);
    assert [] + [c] == [c];
    if b == [] {
      assert a + b == a;
    } else {
      var k := |b| - 1;
      AmountConcat(a, b[..k], c, denom);
      AmountAppend(a + b[..k], b[k], denom);
      assert a + b[..k] + [b[k]] == a + b;
    }
  }

  lemma {:induction false} HeldConcat(a: seq<Balance>, b: seq<Balance>, row: Balance, address: Address, denom: string)
    ensures Held(a + b, address, denom) == Held(a, address, denom) + Held(b, address, denom)
    ensures Total(a + b, denom) == Total(a, denom) + Total(b, denom)
    ensures Held([row], address, denom) == (if row.address == address then Amount(row.coins, denom) else 0)
    ensures Total([row], denom) == Amount(row.coins, denom)
    decreases |b|
  {
    BalanceAppend([], row, address, denom);
    assert [] + [row] == [row];
    if b == [] {
      assert a + b == a;
    } else {
      var k := |b| - 1;
      HeldConcat(a, b[..k], row, address, denom);
      BalanceAppend(a + b[..k], b[k], address, denom);
      assert a + b[..k] + [b[k]] == a + b;
    }
  }

  lemma OneCoin(amount: int, denom: string)
    ensures Amount([Coin(UMIRAGE, amount)], denom) == if denom == UMIRAGE then amount else 0
  {
    AmountAppend([], Coin(UMIRAGE, amount), denom);
    assert [] + [Coin(UMIRAGE, amount)] == [Coin(UMIRAGE, amount)];
  }

  // ---- What the export says about the stake ----

  function BondedTokens(vs: seq<Validator>): int {
    if vs == [] then 0 else BondedTokens(vs[..|vs| - 1]) + if vs[|vs| - 1].bonded then vs[|vs| - 1].tokens else 0
  }

  /** A bonded validator adds its tokens, wherever it stands in the list; another one adds nothing. */
  lemma {:induction false} BondedAdds(a: seq<Validator>, v: Validator, b: seq<Validator>)
    ensures BondedTokens(a + [v] + b) == BondedTokens(a + b) + if v.bonded then v.tokens else 0
    decreases |b|
  {
    if b == [] {
      assert a + [v] + b == a + [v] && a + b == a && (a + [v])[..|a|] == a;
    } else {
      var k := |b| - 1;
      BondedAdds(a, v, b[..k]);
      var all, less := a + [v] + b, a + b;
      assert all[..|all| - 1] == a + [v] + b[..k] && all[|all| - 1] == b[k];
      assert less[..|less| - 1] == a + b[..k] && less[|less| - 1] == b[k];
    }
  }

  method SumBonded(vs: seq<Validator>) returns (sum: int)
    ensures sum == BondedTokens(vs)
  {
    sum := 0;
    for i := 0 to |vs|
      invariant sum == BondedTokens(vs[..i])
    {
      assert vs[..i + 1][..i] == vs[..i];
      if vs[i].bonded {
        sum := sum + vs[i].tokens;
      }
    }
    assert vs[..|vs|] == vs;
  }

  /** The last amount of umirage among `coins`, or `was`. */
  function LastAmount(coins: seq<Coin>, was: int): int {
    if coins == [] then was
    else if coins[|coins| - 1].denom == UMIRAGE then coins[|coins| - 1].amount
    else LastAmount(coins[..|coins| - 1], was)
  }

  /** It is the amount of the entry behind which there is no other one. */
  lemma {:induction false} LastAmountAt(coins: seq<Coin>, i: nat, was: int)
    requires i <= |coins| && forall k :: i < k < |coins| ==> coins[k].denom != "umirage"
    ensures i < |coins| && coins[i].denom == "umirage" ==> LastAmount(coins, was) == coins[i].amount
    ensures i == 0 && (|coins| > 0 ==> coins[0].denom != "umirage") ==> LastAmount(coins, was) == was
  {
    if coins != [] && i < |coins| - 1 { LastAmountAt(coins[..|coins| - 1], i, was); }
  }

  /** The last amount of umirage listed for an account: how the rewrite reads a pool. */
  function LastListed(bs: seq<Balance>, address: Address): int {
    if bs == [] then 0
    else
      var was := LastListed(bs[..|bs| - 1], address);
      if bs[|bs| - 1].address == address then LastAmount(bs[|bs| - 1].coins, was) else was
  }

  /** A later row of the account counts for more than an earlier one, and rows of others not at all. */
  lemma LastListedNext(bs: seq<Balance>, b: Balance, address: Address, i: nat)
    requires i < |b.coins| && b.coins[i].denom == "umirage" && forall k :: i < k < |b.coins| ==> b.coins[k].denom != "umirage"
    ensures LastListed(bs + [b], address) == if b.address == address then b.coins[i].amount else LastListed(bs, address)
  {
    assert (bs + [b])[..|bs|] == bs;
    LastAmountAt(b.coins, i, LastListed(bs, address));
  }

  method ReadUmirage(coins: seq<Coin>, was: int) returns (amount: int)
    ensures amount == LastAmount(coins, was)
  {
    amount := was;
    for i := 0 to |coins|
      invariant amount == LastAmount(coins[..i], was)
    {
      assert coins[..i + 1][..i] == coins[..i];
      if coins[i].denom == UMIRAGE {
        amount := coins[i].amount;
      }
    }
    assert coins[..|coins|] == coins;
  }

  /** What is read for the pool of stake that is not bonded; an account that is both pools counts as
      the bonded one. */
  function OldNotBonded(bs: seq<Balance>, p: Plan): int {
    if p.bonded == p.notBonded then 0 else LastListed(bs, p.notBonded)
  }

  method ReadPools(bs: seq<Balance>, p: Plan) returns (bonded: int, notBonded: int)
    ensures bonded == LastListed(bs, p.bonded) && notBonded == OldNotBonded(bs, p)
  {
    bonded, notBonded := 0, 0;
    for i := 0 to |bs|
      invariant bonded == LastListed(bs[..i], p.bonded) && notBonded == OldNotBonded(bs[..i], p)
    {
      assert bs[..i + 1][..i] == bs[..i];
      if bs[i].address == p.bonded {
        bonded := ReadUmirage(bs[i].coins, bonded);
      } else if bs[i].address == p.notBonded {
        notBonded := ReadUmirage(bs[i].coins, notBonded);
      }
    }
    assert bs[..|bs|] == bs;
  }

  // ---- The steps of the rewrite ----

  /** `amount` once for every row of the account. */
  function Repeated(bs: seq<Balance>, address: Address, amount: int): int {
    Rows(bs, address) * amount
  }

  function HeldByPools(bs: seq<Balance>, p: Plan, denom: string): int {
    Held(bs, p.bonded, denom) + if p.bonded == p.notBonded then 0 else Held(bs, p.notBonded, denom)
  }

  /** What the rewrite leaves an account with before the grant. */
  function Left(bs: seq<Balance>, p: Plan, stake: int, address: Address, denom: string): int {
    if address == p.bonded then (if denom == UMIRAGE then Repeated(bs, p.bonded, stake) else 0)
    else if address == p.notBonded then 0
    else Held(bs, address, denom)
  }

  function LeftInAll(bs: seq<Balance>, p: Plan, stake: int, denom: string): int {
    Total(bs, denom) - HeldByPools(bs, p, denom) + if denom == UMIRAGE then Repeated(bs, p.bonded, stake) else 0
  }

  function LeftFirst(bs: seq<Balance>, p: Plan, stake: int, address: Address): Option<seq<Coin>> {
    if address == p.bonded then (if FirstRow(bs, address).None? then None else Some([Coin(UMIRAGE, stake)]))
    else if address == p.notBonded then None
    else FirstRow(bs, address)
  }

  ghost predicate PoolsReplaced(bs: seq<Balance>, out: seq<Balance>, p: Plan, stake: int) {
    && (forall a, d :: Held(out, a, d) == Left(bs, p, stake, a, d))
    && (forall d :: Total(out, d) == LeftInAll(bs, p, stake, d))
    && (forall a :: FirstRow(out, a) == LeftFirst(bs, p, stake, a))
  }

  /** The rows of accounts other than the pools, in order. */
  function Others(bs: seq<Balance>, p: Plan): seq<Balance> {
    if bs == [] then []
    else
      var b := bs[|bs| - 1];
      Others(bs[..|bs| - 1], p) + if b.address == p.bonded || b.address == p.notBonded then [] else [b]
  }

  lemma OthersNext(bs: seq<Balance>, out: seq<Balance>, b: Balance, p: Plan, stake: int)
    requires Others(out, p) == Others(bs, p)
    ensures Others(out + NextRows(b, p, stake), p) == Others(bs + [b], p)
  {
    assert (bs + [b])[..|bs|] == bs;
    if b.address == p.bonded {
      var row := Balance(b.address, [Coin(UMIRAGE, stake)]);
      assert (out + [row])[..|out|] == out;
    } else if b.address != p.notBonded {
      assert (out + [b])[..|out|] == out;
    } else {
      assert out + [] == out;
    }
  }

  /** Replace the bonded pool's rows by one coin each, drop those of the other pool, keep the rest. */
  method ReplacePools(bs: seq<Balance>, p: Plan, stake: int) returns (out: seq<Balance>)
    ensures PoolsReplaced(bs, out, p, stake) && Others(out, p) == Others(bs, p)
  {
    out := [];
    for i := 0 to |bs|
      invariant PoolsReplaced(bs[..i], out, p, stake) && Others(out, p) == Others(bs[..i], p)
    {
      OthersNext(bs[..i], out, bs[i], p, stake);
      PoolStep(bs[..i], out, bs[i], p, stake);
      assert bs[..i + 1] == bs[..i] + [bs[i]];
      if bs[i].address == p.bonded {
        out := out + [Balance(bs[i].address, [Coin(UMIRAGE, stake)])];
      } else if bs[i].address != p.notBonded {
        out := out + [bs[i]];
      }
    }
    assert bs[..|bs|] == bs;
  }

  function NextRows(b: Balance, p: Plan, stake: int): seq<Balance> {
    if b.address == p.bonded then [Balance(b.address, [Coin(UMIRAGE, stake)])]
    else if b.address != p.notBonded then [b] else []
  }

  lemma NextRowsHeld(out: seq<Balance>, b: Balance, p: Plan, stake: int, a: Address, d: string)
    ensures Held(out + NextRows(b, p, stake), a, d) ==
              Held(out, a, d) + if b.address == p.bonded then (if a == p.bonded && d == UMIRAGE then stake else 0)
                                else if b.address == p.notBonded then 0 else Own(b, a, d)
  {
    OneCoin(stake, d);
    if b.address == p.bonded {
      BalanceAppend(out, Balance(b.address, [Coin(UMIRAGE, stake)]), a, d);
    } else if b.address != p.notBonded {
      BalanceAppend(out, b, a, d);
    } else {
      assert out + [] == out;
    }
  }

  lemma NextRowsTotal(out: seq<Balance>, b: Balance, p: Plan, stake: int, d: string)
    ensures Total(out + NextRows(b, p, stake), d) ==
              Total(out, d) + if b.address == p.bonded then (if d == UMIRAGE then stake else 0)
                              else if b.address == p.notBonded then 0 else Amount(b.coins, d)
  {
    OneCoin(stake, d);
    if b.address == p.bonded {
      BalanceAppend(out, Balance(b.address, [Coin(UMIRAGE, stake)]), b.address, d);
    } else if b.address != p.notBonded {
      BalanceAppend(out, b, b.address, d);
    } else {
      assert out + [] == out;
    }
  }

  lemma PoolStepHeld(bs: seq<Balance>, out: seq<Balance>, b: Balance, p: Plan, stake: int, a: Address, d: string)
    requires Held(out, a, d) == Left(bs, p, stake, a, d)
    ensures Held(out + NextRows(b, p, stake), a, d) == Left(bs + [b], p, stake, a, d)
  {
    NextRowsHeld(out, b, p, stake, a, d);
    BalanceAppend(bs, b, a, d);
    RepeatedAppend(bs, b, p.bonded, stake);
  }

  lemma PoolStepTotal(bs: seq<Balance>, out: seq<Balance>, b: Balance, p: Plan, stake: int, d: string)
    requires Total(out, d) == LeftInAll(bs, p, stake, d)
    ensures Total(out + NextRows(b, p, stake), d) == LeftInAll(bs + [b], p, stake, d)
  {
    NextRowsTotal(out, b, p, stake, d);
    BalanceAppend(bs, b, p.bonded, d);
    BalanceAppend(bs, b, p.notBonded, d);
    RepeatedAppend(bs, b, p.bonded, stake);
  }

  lemma PoolStepFirst(bs: seq<Balance>, out: seq<Balance>, b: Balance, p: Plan, stake: int, a: Address)
    requires FirstRow(out, a) == LeftFirst(bs, p, stake, a)
    ensures FirstRow(out + NextRows(b, p, stake), a) == LeftFirst(bs + [b], p, stake, a)
  {
    BalanceAppend(bs, b, a, UMIRAGE);
    if b.address == p.bonded {
      BalanceAppend(out, Balance(b.address, [Coin(UMIRAGE, stake)]), a, UMIRAGE);
    } else if b.address != p.notBonded {
      BalanceAppend(out, b, a, UMIRAGE);
    } else {
      assert out + [] == out;
    }
  }

  lemma PoolStep(bs: seq<Balance>, out: seq<Balance>, b: Balance, p: Plan, stake: int)
    requires PoolsReplaced(bs, out, p, stake)
    ensures PoolsReplaced(bs + [b], out + NextRows(b, p, stake), p, stake)
  {
    forall a, d ensures Held(out + NextRows(b, p, stake), a, d) == Left(bs + [b], p, stake, a, d) {
      PoolStepHeld(bs, out, b, p, stake, a, d);
    }
    forall d ensures Total(out + NextRows(b, p, stake), d) == LeftInAll(bs + [b], p, stake, d) {
      PoolStepTotal(bs, out, b, p, stake, d);
    }
    forall a ensures FirstRow(out + NextRows(b, p, stake), a) == LeftFirst(bs + [b], p, stake, a) {
      PoolStepFirst(bs, out, b, p, stake, a);
    }
  }

  lemma RepeatedAppend(bs: seq<Balance>, b: Balance, address: Address, amount: int)
    ensures Repeated(bs + [b], address, amount) == Repeated(bs, address, amount) + if b.address == address then amount else 0
  {
    BalanceAppend(bs, b, address, UMIRAGE);
  }

  /** The first umirage entry, if there is one. */
  method FindUmirage(coins: seq<Coin>) returns (i: nat)
    ensures i <= |coins| && (i < |coins| ==> coins[i].denom == UMIRAGE)
    ensures forall k :: 0 <= k < i ==> coins[k].denom != UMIRAGE
  {
    i := 0;
    while i < |coins| && coins[i].denom != UMIRAGE
      invariant i <= |coins| && forall k :: 0 <= k < i ==> coins[k].denom != UMIRAGE
    {
      i := i + 1;
    }
  }

  /** Entry `i` is of umirage, and none before it is. */
  ghost predicate IsFirst(coins: seq<Coin>, i: nat)
    requires i < |coins|
  {
    coins[i].denom == UMIRAGE && forall k :: 0 <= k < i ==> coins[k].denom != UMIRAGE
  }

  /** Add to the first umirage entry, or append one: the supply and the validator's own coins. */
  method AddUmirage(coins: seq<Coin>, amount: int) returns (out: seq<Coin>)
    ensures forall d :: Amount(out, d) == Amount(coins, d) + if d == UMIRAGE then amount else 0
    ensures FirstAmount(coins).None? ==> out == coins + [Coin(UMIRAGE, amount)]
    ensures FirstAmount(coins).Some? ==>
              exists i :: 0 <= i < |coins| && FirstAmount(coins) == Some(coins[i].amount) && IsFirst(coins, i)
                          && out == coins[i := Coin(UMIRAGE, coins[i].amount + amount)]
  {
    var i := FindUmirage(coins);
    FirstAmountAt(coins, i);
    if i < |coins| {
      assert IsFirst(coins, i);
      out := coins[i := Coin(UMIRAGE, coins[i].amount + amount)];
      forall d ensures Amount(out, d) == Amount(coins, d) + if d == UMIRAGE then amount else 0 {
        AmountUpdate(coins, i, out[i], d);
      }
    } else {
      out := coins + [Coin(UMIRAGE, amount)];
      forall d ensures Amount(out, d) == Amount(coins, d) + if d == UMIRAGE then amount else 0 {
        AmountAppend(coins, Coin(UMIRAGE, amount), d);
      }
    }
  }

  ghost predicate Granted(bs: seq<Balance>, out: seq<Balance>, account: Address, extra: int) {
    && (forall a, d :: Held(out, a, d) == Held(bs, a, d) + if a == account && d == UMIRAGE then extra else 0)
    && (forall d :: Total(out, d) == Total(bs, d) + if d == UMIRAGE then extra else 0)
  }

  /** The account's first row is the only one changed; a row is added only if there was none. */
  ghost predicate GrantedIn(bs: seq<Balance>, out: seq<Balance>, account: Address) {
    if FirstRow(bs, account).None? then |out| == |bs| + 1 && out[..|bs|] == bs
    else exists i :: 0 <= i < |bs| && bs[i].address == account && (forall k :: 0 <= k < i ==> bs[k].address != account)
                     && |out| == |bs| && out == bs[i := out[i]]
  }

  lemma GrantedInNewRow(bs: seq<Balance>, account: Address, extra: int)
    ensures Granted(bs, bs + [Balance(account, [Coin(UMIRAGE, extra)])], account, extra)
  {
    var row := Balance(account, [Coin(UMIRAGE, extra)]);
    forall a, d ensures Held(bs + [row], a, d) == Held(bs, a, d) + if a == account && d == UMIRAGE then extra else 0 {
      BalanceAppend(bs, row, a, d);
      OneCoin(extra, d);
    }
    forall d ensures Total(bs + [row], d) == Total(bs, d) + if d == UMIRAGE then extra else 0 {
      BalanceAppend(bs, row, account, d);
      OneCoin(extra, d);
    }
  }

  lemma GrantedInRow(bs: seq<Balance>, i: nat, coins: seq<Coin>, extra: int)
    requires i < |bs|
    requires forall d :: Amount(coins, d) == Amount(bs[i].coins, d) + if d == UMIRAGE then extra else 0
    ensures Granted(bs, bs[i := Balance(bs[i].address, coins)], bs[i].address, extra)
  {
    var row := Balance(bs[i].address, coins);
    forall a, d ensures Held(bs[i := row], a, d) == Held(bs, a, d) + if a == row.address && d == UMIRAGE then extra else 0 {
      BalanceUpdate(bs, i, row, a, d);
    }
    forall d ensures Total(bs[i := row], d) == Total(bs, d) + if d == UMIRAGE then extra else 0 {
      BalanceUpdate(bs, i, row, row.address, d);
    }
  }

  /** The first umirage amount of these coins, if any. */
  function FirstAmount(coins: seq<Coin>): Option<int> {
    if coins == [] then None
    else
      var first := FirstAmount(coins[..|coins| - 1]);
      if first.None? && coins[|coins| - 1].denom == UMIRAGE then Some(coins[|coins| - 1].amount) else first
  }

  lemma {:induction false} FirstAmountAt(coins: seq<Coin>, i: nat)
    requires i <= |coins| && forall k :: 0 <= k < i ==> coins[k].denom != UMIRAGE
    ensures i == |coins| ==> FirstAmount(coins) == None
    ensures i < |coins| && coins[i].denom == UMIRAGE ==> FirstAmount(coins) == Some(coins[i].amount)
  {
    if coins != [] {
      FirstAmountAt(coins[..|coins| - 1], if i == |coins| then i - 1 else i);
    }
  }

  /** The first row's first umirage amount is not a run of digits. */
  predicate Unreadable(row: Option<seq<Coin>>) {
    row.Some? && FirstAmount(row.value).Some? && FirstAmount(row.value).value < 0
  }

  /** Grant the validator's account the extra funds, in its first row or in a new one. */
  method GrantFunds(bs: seq<Balance>, account: Address, extra: int) returns (r: Result<seq<Balance>>)
    ensures r.Ok? ==> Granted(bs, r.value, account, extra) && GrantedIn(bs, r.value, account)
    ensures r.Err? <==> Unreadable(FirstRow(bs, account))
  {
    var i := 0;
    while i < |bs| && bs[i].address != account
      invariant i <= |bs| && forall k :: 0 <= k < i ==> bs[k].address != account
    {
      i := i + 1;
    }
    FirstRowAt(bs, i, account);
    if i == |bs| {
      GrantedInNewRow(bs, account, extra);
      return Ok(bs + [Balance(account, [Coin(UMIRAGE, extra)])]);
    }
    var j := FindUmirage(bs[i].coins);
    FirstAmountAt(bs[i].coins, j);
    if j < |bs[i].coins| && bs[i].coins[j].amount < 0 {
      return Err("invalid validator umirage balance amount");
    }
    var coins := AddUmirage(bs[i].coins, extra);
    GrantedInRow(bs, i, coins, extra);
    r := Ok(bs[i := Balance(account, coins)]);
  }

  // ---- The rewrite ----

  function Stake(g: Genesis, p: Plan): int {
    BondedTokens(g.validators) + OldNotBonded(g.balances, p)
  }

  /** `v` becomes the only validator and holds the whole stake. */
  predicate StakeIsOne(g: Genesis, p: Plan, v: Validator, out: Genesis) {
    && out.validators == [v.(bonded := true, jailed := false, tokens := Stake(g, p), shares := Stake(g, p))]
    && out.delegations == [Delegation(p.account, v.operator, Stake(g, p))]
    && out.lastPower * POWER_REDUCTION <= Stake(g, p) < (out.lastPower + 1) * POWER_REDUCTION
  }

  /** No account but the pools and the validator's is touched; supply follows the bonded pool. */
  ghost predicate BankFollows(g: Genesis, p: Plan, out: Genesis) {
    && (forall a, d :: Held(out.balances, a, d) == Left(g.balances, p, Stake(g, p), a, d)
                                                   + if a == p.account && d == UMIRAGE then p.extra else 0)
    && (forall d :: Total(out.balances, d) == LeftInAll(g.balances, p, Stake(g, p), d)
                                              + if d == UMIRAGE then p.extra else 0)
    && (forall d :: Amount(out.supply, d) == Amount(g.supply, d) +
            if d == UMIRAGE then BondedTokens(g.validators) - LastListed(g.balances, p.bonded) + p.extra else 0)
  }

  /** The first validator with this consensus key. */
  method FindValidator(vs: seq<Validator>, key: string) returns (i: nat)
    ensures i <= |vs| && (i < |vs| ==> vs[i].key == key) && forall k :: 0 <= k < i ==> vs[k].key != key
  {
    i := 0;
    while i < |vs| && vs[i].key != key
      invariant i <= |vs| && forall k :: 0 <= k < i ==> vs[k].key != key
    {
      i := i + 1;
    }
  }

  /** The balances of the new genesis. */
  method RewriteBank(g: Genesis, p: Plan, stake: int) returns (r: Result<seq<Balance>>)
    ensures r.Err? <==> Unreadable(LeftFirst(g.balances, p, stake, p.account))
    ensures r.Ok? ==>
              && (forall a, d :: Held(r.value, a, d) == Left(g.balances, p, stake, a, d)
                                                        + if a == p.account && d == UMIRAGE then p.extra else 0)
              && (forall d :: Total(r.value, d) == LeftInAll(g.balances, p, stake, d)
                                                   + if d == UMIRAGE then p.extra else 0)
  {
    var pooled := ReplacePools(g.balances, p, stake);
    r := GrantFunds(pooled, p.account, p.extra);
  }

  /** The rewrite of the stake and the bank. */
  method Rewrite(g: Genesis, key: string, bonded: Option<Address>, notBonded: Option<Address>, account: Address, extra: int)
    returns (r: Result<Genesis>)
    ensures r.Ok? <==>
              && bonded.Some? && notBonded.Some? && extra > 0 && (exists v :: v in g.validators && v.key == key)
              && var p := Plan(bonded.value, notBonded.value, account, extra);
                 !Unreadable(LeftFirst(g.balances, p, Stake(g, p), account))
    ensures r.Ok? ==>
              var p := Plan(bonded.value, notBonded.value, account, extra);
              && BankFollows(g, p, r.value)
              && exists i :: 0 <= i < |g.validators| && g.validators[i].key == key
                             && (forall k :: 0 <= k < i ==> g.validators[k].key != key)
                             && StakeIsOne(g, p, g.validators[i], r.value)
  {
    if bonded.None? || notBonded.None? {
      return Err("could not find staking module accounts");
    }
    var i := FindValidator(g.validators, key);
    if i == |g.validators| {
      return Err("validator matching consensus pubkey not found");
    }
    var v := g.validators[i];
    assert v in g.validators;
    if extra <= 0 {
      return Err("extra validator funds must be positive");
    }
    var p := Plan(bonded.value, notBonded.value, account, extra);
    var base := SumBonded(g.validators);
    var oldBonded, oldNotBonded := ReadPools(g.balances, p);
    var stake := base + oldNotBonded;
    var balances := RewriteBank(g, p, stake);
    if balances.Err? {
      return Err(balances.error);
    }
    var supply := AddUmirage(g.supply, (stake - oldBonded) - oldNotBonded + extra);
    r := Ok(Genesis([v.(bonded := true, jailed := false, tokens := stake, shares := stake)],
                    [Delegation(account, v.operator, stake)], stake / POWER_REDUCTION, balances.value, supply));
    assert StakeIsOne(g, p, v, r.value);
  }

  // ---- When supply stays the sum of balances ----

  /** By how much the rewrite moves the umirage supply away from the sum of balances. */
  function Drift(g: Genesis, p: Plan): int {
    Stake(g, p) - Repeated(g.balances, p.bonded, Stake(g, p))
    + HeldByPools(g.balances, p, UMIRAGE) - LastListed(g.balances, p.bonded) - OldNotBonded(g.balances, p)
  }

  lemma SupplyDrifts(g: Genesis, p: Plan, out: Genesis)
    requires BankFollows(g, p, out) && Balanced(g, UMIRAGE)
    ensures Amount(out.supply, UMIRAGE) == Total(out.balances, UMIRAGE) + Drift(g, p)
  {
  }

  /** A right supply of any other denomination stays right exactly if the pools held none of it. */
  lemma OtherSupplies(g: Genesis, p: Plan, out: Genesis, denom: string)
    requires BankFollows(g, p, out) && Balanced(g, denom) && denom != UMIRAGE
    ensures Balanced(out, denom) <==> HeldByPools(g.balances, p, denom) == 0
  {
    assert Total(out.balances, denom) == LeftInAll(g.balances, p, Stake(g, p), denom);
  }

  function UmirageCoins(coins: seq<Coin>): nat {
    if coins == [] then 0
    else UmirageCoins(coins[..|coins| - 1]) + if coins[|coins| - 1].denom == UMIRAGE then 1 else 0
  }

  /** At most one row, with at most one umirage entry. */
  ghost predicate Tidy(bs: seq<Balance>, address: Address) {
    Rows(bs, address) <= 1 && forall i :: 0 <= i < |bs| && bs[i].address == address ==> UmirageCoins(bs[i].coins) <= 1
  }

  lemma {:induction false} NoCoin(coins: seq<Coin>, was: int)
    requires UmirageCoins(coins) == 0
    ensures Amount(coins, UMIRAGE) == 0 && LastAmount(coins, was) == was
  {
    if coins != [] { NoCoin(coins[..|coins| - 1], was); }
  }

  lemma {:induction false} ReadingIsAmount(coins: seq<Coin>)
    requires UmirageCoins(coins) <= 1
    ensures LastAmount(coins, 0) == Amount(coins, UMIRAGE)
  {
    if coins != [] {
      if coins[|coins| - 1].denom == UMIRAGE {
        NoCoin(coins[..|coins| - 1], 0);
      } else {
        ReadingIsAmount(coins[..|coins| - 1]);
      }
    }
  }

  lemma {:induction false} NoRow(bs: seq<Balance>, address: Address, denom: string)
    requires Rows(bs, address) == 0
    ensures Held(bs, address, denom) == 0 && LastListed(bs, address) == 0
  {
    if bs != [] { NoRow(bs[..|bs| - 1], address, denom); }
  }

  lemma {:induction false} ListedIsHeld(bs: seq<Balance>, address: Address)
    requires Tidy(bs, address)
    ensures LastListed(bs, address) == Held(bs, address, UMIRAGE)
  {
    if bs != [] {
      var n := |bs| - 1;
      if bs[n].address == address {
        NoRow(bs[..n], address, UMIRAGE);
        ReadingIsAmount(bs[n].coins);
      } else {
        ListedIsHeld(bs[..n], address);
      }
    }
  }

  /** With tidy pools the drift is the stake, unless the bonded pool is listed. */
  lemma TidyDrift(g: Genesis, p: Plan)
    requires Tidy(g.balances, p.bonded) && Tidy(g.balances, p.notBonded)
    ensures Drift(g, p) == if Rows(g.balances, p.bonded) == 1 then 0 else Stake(g, p)
    ensures LastListed(g.balances, p.bonded) == Held(g.balances, p.bonded, UMIRAGE)
  {
    ListedIsHeld(g.balances, p.bonded);
    ListedIsHeld(g.balances, p.notBonded);
  }

  lemma OneListedPool(g: Genesis, p: Plan, v: Validator, out: Genesis)
    requires BankFollows(g, p, out) && StakeIsOne(g, p, v, out)
    requires Rows(g.balances, p.bonded) == 1 && p.account != p.bonded
    ensures Held(out.balances, p.bonded, UMIRAGE) == Stake(g, p)
    ensures out.validators[0].tokens == out.validators[0].shares == out.delegations[0].shares == Stake(g, p)
  {
  }

  /** With tidy pools a right umirage supply stays right exactly if the bonded pool is listed or there
      is no stake; the new bonded pool, the tokens and the shares are then one amount, and supply grows
      by the extra funds alone exactly if the old bonded pool held the bonded tokens. */
  lemma TidyPools(g: Genesis, p: Plan, v: Validator, out: Genesis)
    requires BankFollows(g, p, out) && StakeIsOne(g, p, v, out)
    requires Tidy(g.balances, p.bonded) && Tidy(g.balances, p.notBonded) && Balanced(g, UMIRAGE)
    ensures Balanced(out, UMIRAGE) <==> Rows(g.balances, p.bonded) == 1 || Stake(g, p) == 0
    ensures Rows(g.balances, p.bonded) == 1 && p.account != p.bonded ==>
              Held(out.balances, p.bonded, UMIRAGE) == out.validators[0].tokens
              == out.validators[0].shares == out.delegations[0].shares
    ensures Amount(out.supply, "umirage") == Amount(g.supply, "umirage") + p.extra <==>
              Held(g.balances, p.bonded, "umirage") == BondedTokens(g.validators)
    ensures p.bonded != p.notBonded ==>
              out.validators[0].tokens == BondedTokens(g.validators) + Held(g.balances, p.notBonded, "umirage")
    ensures 1_000_000 * out.lastPower <= out.validators[0].tokens < 1_000_000 * (out.lastPower + 1)
  {
    TidyDrift(g, p);
    SupplyDrifts(g, p, out);
    if Rows(g.balances, p.bonded) == 1 && p.account != p.bonded { OneListedPool(g, p, v, out); }
  }
}
