/** The wallet's set of coins: what is spendable, and largest-first coin selection. */
module UtxoSet {
  import opened Wrappers
  import opened Bytes
  import opened Psbt

  datatype Coin = Coin(
    amount: int, script: Bytes, address: string, confirmations: int, blockHeight: int, spent: bool, spentIn: string)

  predicate IsMature(c: Coin) {
    c.confirmations >= 1
  }

  predicate IsConfirmed(c: Coin) {
    c.confirmations > 0
  }

  type Coins = map<OutPoint, Coin>

  predicate CanSpend(c: Coin) {
    !c.spent && IsMature(c)
  }

  predicate IsPending(c: Coin) {
    !c.spent && !IsConfirmed(c)
  }

  ghost function SpendableKeys(coins: Coins): set<OutPoint> {
    set k | k in coins && CanSpend(coins[k])
  }

  ghost function PendingKeys(coins: Coins): set<OutPoint> {
    set k | k in coins && IsPending(coins[k])
  }

  /** The sum of the amounts of the coins at the given keys. */
  ghost function AmountOf(coins: Coins, keys: set<OutPoint>): int
    requires keys <= coins.Keys
  {
    if keys == {} then 0 else
      var k :| k in keys;
      coins[k].amount + AmountOf(coins, keys - {k})
  }

  lemma {:induction false} AmountRemove(coins: Coins, keys: set<OutPoint>, k: OutPoint)
    requires keys <= coins.Keys && k in keys
    ensures AmountOf(coins, keys) == coins[k].amount + AmountOf(coins, keys - {k})
  {
    var j :| j in keys && AmountOf(coins, keys) == coins[j].amount + AmountOf(coins, keys - {j});
    if j != k {
      AmountRemove(coins, keys - {j}, k);
      AmountRemove(coins, keys - {k}, j);
      assert keys - {j} - {k} == keys - {k} - {j};
    }
  }

  /** Only the coins at the keys matter. */
  lemma {:induction false} AmountSame(coins: Coins, other: Coins, keys: set<OutPoint>)
    requires keys <= coins.Keys && keys <= other.Keys
    requires forall k | k in keys :: coins[k].amount == other[k].amount
    ensures AmountOf(coins, keys) == AmountOf(other, keys)
  {
    if keys != {} {
      var k :| k in keys;
      AmountRemove(coins, keys, k);
      AmountRemove(other, keys, k);
      AmountSame(coins, other, keys - {k});
    }
  }

  /** Spendable and pending coins are different, and together they are the unspent ones: both balances
      add up to all that is unspent. */
  lemma BalancesAddUp(coins: Coins)
    ensures var unspent := set k | k in coins && !coins[k].spent;
      && SpendableKeys(coins) !! PendingKeys(coins) && SpendableKeys(coins) + PendingKeys(coins) == unspent
      && AmountOf(coins, unspent)
         == AmountOf(coins, SpendableKeys(coins)) + AmountOf(coins, PendingKeys(coins))
  {
    var a, b := SpendableKeys(coins), PendingKeys(coins);
    assert a + b == set k | k in coins && !coins[k].spent;
    AmountUnion(coins, a, b);
  }

  lemma {:induction false} AmountUnion(coins: Coins, a: set<OutPoint>, b: set<OutPoint>)
    requires a <= coins.Keys && b <= coins.Keys && a !! b
    ensures AmountOf(coins, a + b) == AmountOf(coins, a) + AmountOf(coins, b)
  {
    if a == {} {
      assert a + b == b;
    } else {
      var k :| k in a;
      AmountRemove(coins, a, k);
      AmountRemove(coins, a + b, k);
      assert a + b - {k} == a - {k} + b;
      AmountUnion(coins, a - {k}, b);
    }
  }

  // ----- The set and its updates -----

  function Added(coins: Coins, key: OutPoint, coin: Coin): Coins {
    if key in coins then
      coins[key := coins[key].(confirmations := coin.confirmations, blockHeight := coin.blockHeight)]
    else coins[key := coin]
  }

  /** A known coin that is added again keeps what it is and whether it is spent; only its confirmations
      and height are those of the new report. */
  ghost predicate IsConfirmedAnew(known: Coin, report: Coin, now: Coin) {
    && now.confirmations == report.confirmations && now.blockHeight == report.blockHeight
    && now.amount == known.amount && now.script == known.script && now.address == known.address
    && now.spent == known.spent && now.spentIn == known.spentIn
  }

  ghost predicate IsSpentIn(before: Coin, txid: string, now: Coin) {
    && now.spent && now.spentIn == txid
    && now.confirmations == before.confirmations && now.blockHeight == before.blockHeight
    && now.amount == before.amount && now.script == before.script && now.address == before.address
  }

  function Marked(coins: Coins, key: OutPoint, spentIn: string): Coins {
    if key in coins then coins[key := coins[key].(spent := true, spentIn := spentIn)] else coins
  }

  /** The tracked balance: the spendable coins' total. */
  ghost function BalanceOf(coins: Coins): int {
    AmountOf(coins, SpendableKeys(coins))
  }

  ghost function Contribution(coins: Coins, key: OutPoint): int {
    if key in coins && CanSpend(coins[key]) then coins[key].amount else 0
  }

  /** An update of one coin changes the balance by exactly what that coin contributed before and
      contributes after. */
  lemma BalanceChange(coins: Coins, other: Coins, key: OutPoint)
    requires forall k | k != key :: (k in coins <==> k in other) && (k in coins ==> coins[k] == other[k])
    ensures BalanceOf(other) == BalanceOf(coins) - Contribution(coins, key) + Contribution(other, key)
  {
    var a, b := SpendableKeys(coins), SpendableKeys(other);
    assert a - {key} == b - {key} by {
      forall k ensures k in a - {key} <==> k in b - {key} {}
    }
    if key in a { AmountRemove(coins, a, key); } else { assert a - {key} == a; }
    if key in b { AmountRemove(other, b, key); } else { assert b - {key} == b; }
    AmountSame(coins, other, a - {key});
  }

  class UTXOSet {
    var coins: Coins

    constructor ()
      ensures coins == map[]
    {
      coins := map[];
    }

    method Add(key: OutPoint, coin: Coin)
      modifies this
      ensures coins == Added(old(coins), key, coin)
      ensures coins.Keys == old(coins).Keys + {key}
      ensures forall k | k in old(coins) && k != key :: coins[k] == old(coins)[k]
      ensures key !in old(coins) ==> coins[key] == coin
      ensures key in old(coins) ==> IsConfirmedAnew(old(coins)[key], coin, coins[key])
      ensures coin.confirmations >= 1 && (if key in old(coins) then !old(coins)[key].spent else !coin.spent) ==>
        key in SpendableKeys(coins)
      ensures BalanceOf(coins) == BalanceOf(old(coins)) - Contribution(old(coins), key) + Contribution(coins, key)
    {
      if key in coins {
        var existing := coins[key];
        coins := coins[key := existing.(confirmations := coin.confirmations, blockHeight := coin.blockHeight)];
      } else {
        coins := coins[key := coin];
      }
      BalanceChange(old(coins), coins, key);
    }

    method Remove(key: OutPoint)
      modifies this
      ensures coins == old(coins) - {key}
      ensures BalanceOf(coins) == BalanceOf(old(coins)) - Contribution(old(coins), key)
    {
      coins := coins - {key};
      BalanceChange(old(coins), coins, key);
    }

    method MarkSpent(key: OutPoint, spentIn: string) returns (found: bool)
      modifies this
      ensures found <==> key in old(coins)
      ensures coins == Marked(old(coins), key, spentIn)
      ensures coins.Keys == old(coins).Keys && forall k | k in old(coins) && k != key :: coins[k] == old(coins)[k]
      ensures found ==> IsSpentIn(old(coins)[key], spentIn, coins[key]) && key !in SpendableKeys(coins)
      ensures BalanceOf(coins) == BalanceOf(old(coins)) - Contribution(old(coins), key)
    {
      found := key in coins;
      if found {
        coins := coins[key := coins[key].(spent := true, spentIn := spentIn)];
      }
      BalanceChange(old(coins), coins, key);
    }

    /** The spendable coins, in whatever order the map is iterated. */
    method Spendable() returns (keys: seq<OutPoint>)
      ensures NoRepeats(keys) && Elements(keys) == SpendableKeys(coins)
    {
      keys := [];
      var pending := coins.Keys;
      while pending != {}
        invariant pending <= coins.Keys && NoRepeats(keys)
        invariant forall k :: k in keys <==> k in coins && CanSpend(coins[k]) && k !in pending
      {
        var k :| k in pending;
        pending := pending - {k};
        if CanSpend(coins[k]) {
          keys := keys + [k];
        }
      }
    }

    method Balance() returns (total: int)
      ensures total == BalanceOf(coins)
    {
      total := 0;
      var pending := coins.Keys;
      ghost var done: set<OutPoint> := {};
      while pending != {}
        invariant pending <= coins.Keys
        invariant done == (set k | k in coins && CanSpend(coins[k]) && k !in pending)
        invariant total == AmountOf(coins, done)
      {
        var k :| k in pending;
        pending := pending - {k};
        if CanSpend(coins[k]) {
          AmountRemove(coins, done + {k}, k);
          assert done + {k} - {k} == done;
          total, done := total + coins[k].amount, done + {k};
        }
      }
      assert done == SpendableKeys(coins);
    }

    method UnconfirmedBalance() returns (total: int)
      ensures total == AmountOf(coins, PendingKeys(coins))
    {
      total := 0;
      var pending := coins.Keys;
      ghost var done: set<OutPoint> := {};
      while pending != {}
        invariant pending <= coins.Keys
        invariant done == (set k | k in coins && IsPending(coins[k]) && k !in pending)
        invariant total == AmountOf(coins, done)
      {
        var k :| k in pending;
        pending := pending - {k};
        if IsPending(coins[k]) {
          AmountRemove(coins, done + {k}, k);
          assert done + {k} - {k} == done;
          total, done := total + coins[k].amount, done + {k};
        }
      }
      assert done == PendingKeys(coins);
    }

    /** Largest first.  On success no smaller non-empty set of spendable coins would do, and on
        failure no non-empty set of spendable coins does: the greedy choice is optimal. */
    method SelectCoins(target: int, feeRate: int, inputSize: int) returns (r: Option<(seq<OutPoint>, int)>)
      ensures r.Some? ==>
        && var (selected, total) := r.value;
        && selected != [] && NoRepeats(selected) && Elements(selected) <= SpendableKeys(coins)
        && total == AmountOf(coins, Elements(selected))
        && total >= target + FeeFor(|selected|, feeRate, inputSize)
        && forall other | IsChoice(coins, other) && |other| < |selected| ::
             !Covers(coins, other, target, feeRate, inputSize)
      ensures r.None? ==> forall other | IsChoice(coins, other) :: !Covers(coins, other, target, feeRate, inputSize)
    {
      var spendable := Spendable();
      if spendable == [] {
        return None;
      }
      var sorted := SortByAmount(coins, spendable);
      var total := 0;
      assert sorted[..0] == [];
      for i := 0 to |sorted|
        invariant total == AmountOf(coins, Elements(sorted[..i]))
        invariant forall other | IsChoice(coins, other) && |other| <= i ::
          !Covers(coins, other, target, feeRate, inputSize)
      {
        AmountAppend(coins, sorted, i);
        total := total + coins[sorted[i]].amount;
        if total >= target + FeeFor(i + 1, feeRate, inputSize) {
          return Some((sorted[..i + 1], total));
        }
        forall other | IsChoice(coins, other) && |other| == i + 1
          ensures !Covers(coins, other, target, feeRate, inputSize)
        {
          TopIsLargest(coins, sorted, other);
        }
      }
      forall other | IsChoice(coins, other) ensures |other| <= |sorted| {
        ElementsCount(sorted);
        SubsetCount(other, Elements(sorted));
      }
      return None;
    }
  }

  /** 50 vbytes of overhead and inputSize for each coin. */
  function FeeFor(count: nat, feeRate: int, inputSize: int): int {
    count * inputSize * feeRate + 50 * feeRate
  }

  /** What covering means in numbers: the coins are worth the target and, at the fee rate, inputSize
      vbytes for each of them and 50 more. */
  lemma CoversInNumbers(coins: Coins, keys: set<OutPoint>, target: int, feeRate: int, inputSize: int)
    requires keys <= coins.Keys
    ensures Covers(coins, keys, target, feeRate, inputSize)
       <==> AmountOf(coins, keys) - target >= feeRate * (|keys| * inputSize + 50)
  {
    FeeInNumbers(|keys|, feeRate, inputSize);
    hide AmountOf, FeeFor;
  }

  lemma FeeInNumbers(count: nat, feeRate: int, inputSize: int)
    ensures FeeFor(count, feeRate, inputSize) == feeRate * (count * inputSize + 50)
  {
    var size := count * inputSize;
    assert size * feeRate + 50 * feeRate == feeRate * (size + 50);
  }

  /** A selection somebody else might make. */
  ghost predicate IsChoice(coins: Coins, other: set<OutPoint>) {
    other <= SpendableKeys(coins) && other != {}
  }

  /** The coins are worth the target and the fee for spending them. */
  ghost predicate Covers(coins: Coins, keys: set<OutPoint>, target: int, feeRate: int, inputSize: int)
    requires keys <= coins.Keys
  {
    AmountOf(coins, keys) >= target + FeeFor(|keys|, feeRate, inputSize)
  }

  ghost predicate NoRepeats(keys: seq<OutPoint>) {
    forall i, j | 0 <= i < j < |keys| :: keys[i] != keys[j]
  }

  ghost function Elements(keys: seq<OutPoint>): set<OutPoint> {
    set k | k in keys
  }

  ghost predicate Descending(coins: Coins, keys: seq<OutPoint>)
    requires Elements(keys) <= coins.Keys
  {
    forall i, j | 0 <= i < j < |keys| :: coins[keys[i]].amount >= coins[keys[j]].amount
  }

  /** The library's sort promises a sorted permutation, and no order among equal amounts. */
  method SortByAmount(coins: Coins, keys: seq<OutPoint>) returns (sorted: seq<OutPoint>)
    requires NoRepeats(keys) && Elements(keys) <= coins.Keys
    ensures NoRepeats(sorted) && Elements(sorted) == Elements(keys) && Descending(coins, sorted)
  {
    sorted := [];
    for i := 0 to |keys|
      invariant NoRepeats(sorted) && Elements(sorted) == Elements(keys[..i]) && Descending(coins, sorted)
    {
      assert keys[i] !in keys[..i];
      assert keys[i] !in sorted by { assert keys[i] !in Elements(sorted); }
      sorted := InsertByAmount(coins, sorted, keys[i]);
      assert keys[..i + 1] == keys[..i] + [keys[i]];
    }
    assert keys[..|keys|] == keys;
  }

  method InsertByAmount(coins: Coins, keys: seq<OutPoint>, key: OutPoint) returns (r: seq<OutPoint>)
    requires NoRepeats(keys) && Elements(keys) <= coins.Keys && Descending(coins, keys)
    requires key in coins && key !in keys
    ensures NoRepeats(r) && Elements(r) == Elements(keys) + {key} && Descending(coins, r)
  {
    var n := 0;
    while n < |keys| && coins[keys[n]].amount > coins[key].amount
      invariant n <= |keys|
      invariant forall j | 0 <= j < n :: coins[keys[j]].amount > coins[key].amount
    {
      n := n + 1;
    }
    r := keys[..n] + [key] + keys[n..];
    InsertKeeps(coins, keys, key, n);
  }

  lemma InsertKeeps(coins: Coins, keys: seq<OutPoint>, key: OutPoint, n: nat)
    requires NoRepeats(keys) && Elements(keys) <= coins.Keys && Descending(coins, keys)
    requires key in coins && key !in keys && n <= |keys|
    requires forall j | 0 <= j < n :: coins[keys[j]].amount > coins[key].amount
    requires n < |keys| ==> coins[keys[n]].amount <= coins[key].amount
    ensures var r := keys[..n] + [key] + keys[n..];
      NoRepeats(r) && Elements(r) == Elements(keys) + {key} && Descending(coins, r)
  {
    var r := keys[..n] + [key] + keys[n..];
    InsertElements(keys, key, n);
    hide Elements;
    forall i, j | 0 <= i < j < |r|
      ensures r[i] != r[j] && coins[r[i]].amount >= coins[r[j]].amount
    {
      InsertOrder(coins, keys, key, n, i, j);
    }
  }

  lemma InsertElements(keys: seq<OutPoint>, key: OutPoint, n: nat)
    requires n <= |keys|
    ensures Elements(keys[..n] + [key] + keys[n..]) == Elements(keys) + {key}
    ensures forall k | k in keys :: k in Elements(keys)
  {
    assert keys == keys[..n] + keys[n..];
  }

  lemma InsertOrder(coins: Coins, keys: seq<OutPoint>, key: OutPoint, n: nat, i: nat, j: nat)
    requires NoRepeats(keys) && (forall k | k in keys :: k in coins)
    requires forall a, b | 0 <= a < b < |keys| :: coins[keys[a]].amount >= coins[keys[b]].amount
    requires key in coins && key !in keys && n <= |keys|
    requires forall a | 0 <= a < n :: coins[keys[a]].amount > coins[key].amount
    requires n < |keys| ==> coins[keys[n]].amount <= coins[key].amount
    requires i < j <= |keys|
    ensures var r := keys[..n] + [key] + keys[n..];
      r[i] in coins && r[j] in coins && r[i] != r[j] && coins[r[i]].amount >= coins[r[j]].amount
  {
    var r := keys[..n] + [key] + keys[n..];
    assert r[i] == if i < n then keys[i] else if i == n then key else keys[i - 1];
    assert r[j] == if j < n then keys[j] else if j == n then key else keys[j - 1];
  }

  lemma AmountAppend(coins: Coins, keys: seq<OutPoint>, i: nat)
    requires NoRepeats(keys) && Elements(keys) <= coins.Keys && i < |keys|
    ensures Elements(keys[..i]) <= coins.Keys && Elements(keys[..i + 1]) <= coins.Keys
    ensures AmountOf(coins, Elements(keys[..i + 1])) == AmountOf(coins, Elements(keys[..i])) + coins[keys[i]].amount
  {
    assert keys[..i + 1] == keys[..i] + [keys[i]];
    assert keys[i] !in keys[..i];
    AmountRemove(coins, Elements(keys[..i + 1]), keys[i]);
    assert Elements(keys[..i + 1]) - {keys[i]} == Elements(keys[..i]);
  }

  lemma {:induction false} ElementsCount(keys: seq<OutPoint>)
    requires NoRepeats(keys)
    ensures |Elements(keys)| == |keys|
  {
    if keys != [] {
      var n := |keys| - 1;
      ElementsCount(keys[..n]);
      assert keys == keys[..n] + [keys[n]];
      assert Elements(keys) == Elements(keys[..n]) + {keys[n]};
    }
  }

  lemma {:induction false} SubsetCount<T>(a: set<T>, b: set<T>)
    requires a <= b
    ensures |a| <= |b|
  {
    assert b == a + (b - a);
    assert |b| == |a| + |b - a|;
  }

  /** No m coins of a descending list are worth more than its first m. */
  lemma {:induction false} TopIsLargest(coins: Coins, keys: seq<OutPoint>, other: set<OutPoint>)
    requires NoRepeats(keys) && Elements(keys) <= coins.Keys && Descending(coins, keys)
    requires other <= Elements(keys)
    ensures |other| <= |keys| && Elements(keys[..|other|]) <= coins.Keys
    ensures AmountOf(coins, other) <= AmountOf(coins, Elements(keys[..|other|]))
    decreases |keys|
  {
    hide AmountOf, Elements, NoRepeats, Descending;
    if other == {} {
      NoneTaken(coins, keys);
    } else {
      FrontFacts(coins, keys, other);
      var n := |keys| - 1;
      var last, front := keys[n], keys[..n];
      if last !in other {
        TopIsLargest(coins, front, other);
        assert front[..|other|] == keys[..|other|];
      } else {
        TopIsLargest(coins, front, other - {last});
        assert front[..|other| - 1] == keys[..|other| - 1];
        TopWithLast(coins, keys, other);
      }
    }
  }

  lemma NoneTaken(coins: Coins, keys: seq<OutPoint>)
    ensures Elements(keys[..0]) == {} && AmountOf(coins, {}) == 0
  {
    assert keys[..0] == [];
  }

  lemma FrontFacts(coins: Coins, keys: seq<OutPoint>, other: set<OutPoint>)
    requires NoRepeats(keys) && Elements(keys) <= coins.Keys && Descending(coins, keys)
    requires other != {} && other <= Elements(keys)
    ensures |other| <= |keys| && keys != []
    ensures var n := |keys| - 1;
      && NoRepeats(keys[..n]) && Elements(keys[..n]) <= coins.Keys && Descending(coins, keys[..n])
      && other - {keys[n]} <= Elements(keys[..n])
  {
    ElementsCount(keys);
    SubsetCount(other, Elements(keys));
    var k :| k in other;
    assert k in keys;
    var n := |keys| - 1;
    LastElement(keys);
    hide Elements;
  }

  lemma LastElement(keys: seq<OutPoint>)
    requires keys != []
    ensures Elements(keys) == Elements(keys[..|keys| - 1]) + {keys[|keys| - 1]}
  {
    var n := |keys| - 1;
    assert keys == keys[..n] + [keys[n]];
  }

  lemma TopWithLast(coins: Coins, keys: seq<OutPoint>, other: set<OutPoint>)
    requires NoRepeats(keys) && Elements(keys) <= coins.Keys && Descending(coins, keys)
    requires keys != [] && keys[|keys| - 1] in other && other <= Elements(keys) && |other| <= |keys|
    requires Elements(keys[..|other| - 1]) <= coins.Keys
    requires AmountOf(coins, other - {keys[|keys| - 1]}) <= AmountOf(coins, Elements(keys[..|other| - 1]))
    ensures Elements(keys[..|other|]) <= coins.Keys
    ensures AmountOf(coins, other) <= AmountOf(coins, Elements(keys[..|other|]))
  {
    var m, n := |other|, |keys| - 1;
    assert coins[keys[m - 1]].amount >= coins[keys[n]].amount;
    hide *;
    AmountRemove(coins, other, keys[n]);
    AmountAppend(coins, keys, m - 1);
  }

  // ----- Whole runs -----

  datatype Op = Add(key: OutPoint, coin: Coin) | Remove(key: OutPoint) | MarkSpent(key: OutPoint, spentIn: string)

  function Apply(coins: Coins, op: Op): Coins {
    match op
    case Add(key, coin) => Added(coins, key, coin)
    case Remove(key) => coins - {key}
    case MarkSpent(key, spentIn) => Marked(coins, key, spentIn)
  }

  function RunOps(coins: Coins, ops: seq<Op>): Coins
    decreases |ops|
  {
    if ops == [] then coins else RunOps(Apply(coins, ops[0]), ops[1..])
  }

  /** Without Remove, a spent coin never becomes spendable again, even when it is added again. */
  lemma {:induction false} SpentStaysSpent(coins: Coins, ops: seq<Op>, key: OutPoint)
    requires key in coins && coins[key].spent
    requires forall i | 0 <= i < |ops| :: ops[i] != Remove(key)
    ensures key in RunOps(coins, ops) && RunOps(coins, ops)[key].spent
    ensures key !in SpendableKeys(RunOps(coins, ops))
    decreases |ops|
  {
    if ops != [] {
      var next := Apply(coins, ops[0]);
      assert key in next && next[key].spent by { assert ops[0] != Remove(key); }
      SpentStaysSpent(next, ops[1..], key);
    }
  }

  /** What one step changes in the balance. */
  ghost function Delta(coins: Coins, op: Op): int {
    Contribution(Apply(coins, op), op.key) - Contribution(coins, op.key)
  }

  ghost function Deltas(coins: Coins, ops: seq<Op>): int
    decreases |ops|
  {
    if ops == [] then 0 else Delta(coins, ops[0]) + Deltas(Apply(coins, ops[0]), ops[1..])
  }

  /** Over any run the balance moves by exactly the amounts of the coins that each step makes
      spendable or stops from being so. */
  lemma {:induction false} BalanceOverRun(coins: Coins, ops: seq<Op>)
    ensures BalanceOf(RunOps(coins, ops)) == BalanceOf(coins) + Deltas(coins, ops)
    decreases |ops|
  {
    if ops != [] {
      BalanceChange(coins, Apply(coins, ops[0]), ops[0].key);
      BalanceOverRun(Apply(coins, ops[0]), ops[1..]);
    }
  }
}
