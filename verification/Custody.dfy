/** The custody system: the key-generation ceremony and spending, tying the parts together. */
module Custody {
  import opened Wrappers
  import opened Modular
  import opened Curve
  import opened Polynomial
  import opened Lagrange
  import opened Signing
  import opened Threshold
  import opened Psbt
  import opened Storage
  import opened Builder
  import opened Ceremony
  import opened InputSigning
  import opened Velocity
  import Frost
  import Dkg
  import Engine
  import UtxoSet

  datatype SpendRequest = SpendRequest(
    destinations: seq<Recipient>, feeRate: int, requestedBy: string, approvals: seq<Engine.Approval>,
      signers: seq<uint32>)

  datatype SpendResult = SpendResult(txid: string, tx: Tx, fee: int)

  datatype SpendError =
    | NoWallet | TooFewSigners | PolicyDenied | NoCoins | NoChangeAddress
    | BuildFailed(cause: Failure) | SignFailed(reason: SignError) | FinalizeFailed
    | BroadcastFailed(signed: SpendResult)

  /** What the outside world supplies to a spend: the change address, fresh nonces, and the txid the
      network answers with, if it does. */
  datatype World = World(changeAddress: Option<string>, nonces: seq<NonceSecret>, txid: Option<string>)

  // ----- Any quorum of an honest ceremony -----

  /** Different signers whose shares lie on one polynomial behind the group key. */
  ghost predicate HonestFor(c: Curve, ps: Participants, signers: seq<uint32>, groupKey: Point) {
    exists f :: f != [] && HonestSigners(c, ps, signers, f) && groupKey == Gen(c, f[0])
  }

  /** Different participants, as many as the threshold asks for. */
  ghost predicate IsQuorum(signers: seq<uint32>, threshold: uint32, total: uint32) {
    Distinct(signers) && |signers| >= threshold && forall i | i in signers :: 1 <= i <= total
  }

  /** The key whose discrete logarithm is the group secret. */
  ghost function GroupKey(c: Curve, ps: Participants, threshold: uint32, total: uint32): Point
    requires Initialised(c, ps, threshold, total)
  {
    Gen(c, Eval(Group(c, ps, threshold, total), 0))
  }

  /** After an honest ceremony any quorum consists of honest signers for the one group key; which
      signers they are does not matter. */
  lemma QuorumIsHonest(c: Curve, before: Participants, after: Participants, threshold: uint32, total: uint32,
      signers: seq<uint32>)
    requires Initialised(c, before, threshold, total) && Completed(c, before, after, threshold, total)
    requires IsQuorum(signers, threshold, total)
    ensures HonestSigners(c, after, signers, Group(c, before, threshold, total))
    ensures GroupKey(c, before, threshold, total) == Gen(c, Group(c, before, threshold, total)[0])
    ensures HonestFor(c, after, signers, GroupKey(c, before, threshold, total))
  {
    hide Gen, Mod, Group, Frost.WellFormed, Distinct, Eval;
    var f := Group(c, before, threshold, total);
    Dkg.PowerSumAtZero(f);
    forall i | i in signers ensures Ready(after, i) && after[i].dkg.value.secretShare == Mod(c.q, Eval(f, i)) {
      assert FinishedAs(c, before[i], after[i], f, total);
    }
    assert HonestSigners(c, after, signers, f);
  }

  /** From the ceremony to the signature: whichever quorum signs a message with the tweaked shares it
      got, the aggregate of its partial signatures verifies under the output key of the one group key,
      unless the aggregate nonce or that key is the identity. */
  lemma AnyQuorumSigns(c: Curve, h: Hashes, before: Participants, after: Participants, threshold: uint32, total: uint32,
      s: Session, nonces: map<uint32, NonceSecret>, partials: seq<PartialSignature>, sorted: seq<NonceCommitment>)
    requires Valid(c) && Initialised(c, before, threshold, total) && Completed(c, before, after, threshold, total)
    requires IsQuorum(s.signers, threshold, total)
    requires InputSession(c, h, s, GroupKey(c, before, threshold, total), nonces)
    requires Collected(c, h, after, s, GroupKey(c, before, threshold, total), nonces, partials)
    requires IsSortOf(sorted, s.commitments)
    ensures var key := OutputKey(c, h, GroupKey(c, before, threshold, total));
      var sig := Signature(XOf(NoncePoint(c, h, s.message, sorted, sorted)), Mod(c.q, SumZ(partials)));
      VerifySchnorr(c, h, key, s.message, sig) <==> NonceIsNotIdentity(c, h, s) && key != Infinity
  {
    hide *;
    QuorumIsHonest(c, before, after, threshold, total, s.signers);
    ghost var f, key := Group(c, before, threshold, total), GroupKey(c, before, threshold, total);
    CollectedReduced(c, h, after, s, key, nonces, partials);
    HonestInput(c, h, after, s, f, nonces, partials, sorted);
    StoredAsCollected(c, h, after, s, threshold, total, key, nonces, partials, sorted);
    SessionKey(c, h, s, key, nonces);
  }

  lemma SessionKey(c: Curve, h: Hashes, s: Session, groupKey: Point, nonces: map<uint32, NonceSecret>)
    requires InputSession(c, h, s, groupKey, nonces)
    ensures s.groupKey == OutputKey(c, h, groupKey)
  {
    hide OutputKey, Distinct, CommitNonce;
  }

  /** Aggregating what was stored is aggregating what was collected. */
  lemma StoredAsCollected(c: Curve, h: Hashes, ps: Participants, s: Session, threshold: uint32, total: uint32,
      groupKey: Point, nonces: map<uint32, NonceSecret>, partials: seq<PartialSignature>, sorted: seq<NonceCommitment>)
    requires Valid(c) && IsQuorum(s.signers, threshold, total)
    requires Collected(c, h, ps, s, groupKey, nonces, partials)
    requires forall k | 0 <= k < |partials| :: 0 <= partials[k].z < c.q && partials[k].index == s.signers[k]
    ensures SignatureOf(c, h, s, sorted, StoreAll(map[], partials))
         == Signature(XOf(NoncePoint(c, h, s.message, sorted, sorted)), Mod(c.q, SumZ(partials)))
  {
    hide Valid, Collected, StoreAll, NoncePoint, Mod, StoredTotal, Signature, Distinct, SumZ, TWO_256;
    Basics(c);
    CollectedLength(c, h, ps, s, groupKey, nonces, partials);
    assert PartialIndices(partials) == s.signers;
    StorageRoundTrip(c.q, partials);
  }

  // ----- Coins -----

  /** What the builder is told about a tracked coin. */
  function AsUtxo(key: OutPoint, coin: UtxoSet.Coin): Utxo {
    Utxo(key.txid, key.vout, coin.amount, coin.script)
  }

  ghost predicate ReadFrom(coins: UtxoSet.Coins, keys: seq<OutPoint>, utxos: seq<Utxo>) {
    && |utxos| == |keys|
    && forall k | 0 <= k < |keys| :: keys[k] in coins && utxos[k] == AsUtxo(keys[k], coins[keys[k]])
  }

  method ReadCoins(coins: UtxoSet.Coins, keys: seq<OutPoint>) returns (utxos: seq<Utxo>)
    requires UtxoSet.NoRepeats(keys) && UtxoSet.Elements(keys) <= coins.Keys
    ensures ReadFrom(coins, keys, utxos) && SumValues(utxos) == UtxoSet.AmountOf(coins, UtxoSet.Elements(keys))
  {
    hide UtxoSet.AmountOf, UtxoSet.NoRepeats;
    utxos := [];
    NoCoinsRead(coins, keys);
    for i := 0 to |keys|
      invariant ReadFrom(coins, keys[..i], utxos)
      invariant SumValues(utxos) == UtxoSet.AmountOf(coins, UtxoSet.Elements(keys[..i]))
    {
      UtxoSet.AmountAppend(coins, keys, i);
      ghost var before := utxos;
      utxos := utxos + [AsUtxo(keys[i], coins[keys[i]])];
      assert utxos[..|utxos| - 1] == before;
    }
    assert keys[..|keys|] == keys;
  }

  lemma NoCoinsRead(coins: UtxoSet.Coins, keys: seq<OutPoint>)
    ensures UtxoSet.Elements(keys[..0]) == {} && UtxoSet.AmountOf(coins, {}) == 0
  {
    assert keys[..0] == [];
  }

  /** The coins after those at the keys are marked as spent. */
  ghost predicate AllMarked(before: UtxoSet.Coins, after: UtxoSet.Coins, keys: set<OutPoint>, txid: string) {
    && after.Keys == before.Keys
    && forall k | k in before :: after[k] == if k in keys then before[k].(spent := true, spentIn := txid) else before[k]
  }

  lemma SpendableAreCoins(coins: UtxoSet.Coins)
    ensures UtxoSet.SpendableKeys(coins) <= coins.Keys
    ensures UtxoSet.BalanceOf(coins) == UtxoSet.AmountOf(coins, UtxoSet.SpendableKeys(coins))
  {
  }

  method MarkAllSpent(wallet: UtxoSet.UTXOSet, keys: seq<OutPoint>, txid: string)
    requires UtxoSet.Elements(keys) <= wallet.coins.Keys
    modifies wallet
    ensures AllMarked(old(wallet.coins), wallet.coins, UtxoSet.Elements(keys), txid)
  {
    for i := 0 to |keys|
      invariant AllMarked(old(wallet.coins), wallet.coins, UtxoSet.Elements(keys[..i]), txid)
    {
      assert keys[i] in UtxoSet.Elements(keys);
      assert keys[..i + 1] == keys[..i] + [keys[i]];
      assert UtxoSet.Elements(keys[..i + 1]) == UtxoSet.Elements(keys[..i]) + {keys[i]};
      var found := wallet.MarkSpent(keys[i], txid);
    }
    assert keys[..|keys|] == keys;
  }

  /** The network may refuse; the coins are marked only when it answers with a txid. */
  method BroadcastAndMark(wallet: UtxoSet.UTXOSet, keys: seq<OutPoint>, signed: SpendResult, txid: Option<string>)
    returns (r: Result<SpendResult, SpendError>)
    requires UtxoSet.Elements(keys) <= wallet.coins.Keys
    modifies wallet
    ensures r == if txid.Some? then Ok(signed.(txid := txid.value)) else Err(BroadcastFailed(signed))
    ensures txid.None? ==> wallet.coins == old(wallet.coins)
    ensures txid.Some? ==> AllMarked(old(wallet.coins), wallet.coins, UtxoSet.Elements(keys), txid.value)
  {
    hide *;
    if txid.None? {
      return Err(BroadcastFailed(signed));
    }
    MarkAllSpent(wallet, keys, txid.value);
    return Ok(signed.(txid := txid.value));
  }

  /** Once every spendable coin is marked, nothing is left to spend. */
  lemma NothingLeft(before: UtxoSet.Coins, after: UtxoSet.Coins, txid: string)
    requires AllMarked(before, after, UtxoSet.SpendableKeys(before), txid)
    ensures UtxoSet.SpendableKeys(after) == {} && UtxoSet.BalanceOf(after) == 0
  {
    forall k ensures k !in UtxoSet.SpendableKeys(after) {}
    assert UtxoSet.SpendableKeys(after) == {};
  }

  // ----- Signed transactions -----

  /** The velocity histories around a spend: the amount is recorded exactly when signing was
      completed, and limits that held in every window still do, if no rule is listed twice and no
      amount is negative. */
  ghost predicate Recorded(rules: seq<Engine.Rule>, before: Engine.Histories, after: Engine.Histories, signed: bool,
      amount: int, lo: int, hi: int) {
    && (if signed then Engine.AllExtend(rules, before, after, amount, lo, hi) else after == before)
    && (Sound(rules, before) && amount >= 0 ==> Sound(rules, after))
  }

  ghost predicate Sound(rules: seq<Engine.Rule>, hs: Engine.Histories) {
    Engine.ListedOnce(rules, hs) && Engine.NoNegatives(hs) && Engine.AllSafe(hs)
  }

  lemma NothingRecorded(rules: seq<Engine.Rule>, hs: Engine.Histories, amount: int, lo: int, hi: int)
    ensures Recorded(rules, hs, hs, false, amount, lo, hi)
  {
  }

  lemma AmountRecorded(rules: seq<Engine.Rule>, before: Engine.Histories, after: Engine.Histories, req: Engine.Request,
      lo: int, asked: int, checked: int, hi: int)
    requires Engine.AllExtend(rules, before, after, req.totalAmount, checked, hi)
    requires Engine.Allows(rules, before, req, asked, checked) && lo <= asked <= checked <= hi
    requires Engine.Listed(rules, before) && Engine.RecordedBy(before, asked)
    ensures Recorded(rules, before, after, true, req.totalAmount, lo, hi)
  {
    hide Engine.AllSafe, Engine.Allows, Engine.NoNegatives, Engine.RecordedBy, Engine.Listed, Engine.Listings,
      Engine.Extends;
    Engine.ExtendLater(rules, before, after, req.totalAmount, checked, hi, lo, hi);
    if Sound(rules, before) && req.totalAmount >= 0 {
      Engine.RecordingKeepsSafe(rules, before, after, req, asked, checked, hi);
    }
  }

  /** tx is the built transaction with one witness per input, each a signature that verifies for the
      input's own sighash under the key. */
  ghost predicate SignedFor(c: Curve, h: Hashes, net: Network, key: Point, unsigned: Tx, utxos: seq<Utxo>, tx: Tx) {
    && tx.outs == unsigned.outs && |tx.ins| == |unsigned.ins| == |utxos|
    && forall i | 0 <= i < |utxos| ::
         && tx.ins[i].previous == unsigned.ins[i].previous == OutPoint(utxos[i].txid, utxos[i].vout)
         && |tx.ins[i].witnessStack| == 1
         && net.sigHash(unsigned, i, PreviousOuts(utxos)).Some?
         && VerifySchnorr(c, h, key, net.sigHash(unsigned, i, PreviousOuts(utxos)).value, tx.ins[i].witnessStack[0])
  }

  /** The value arithmetic of a spend: the coins' worth goes to recipients, change and fee. */
  ghost predicate SpendConserves(balance: int, inputs: nat, req: SpendRequest, changeAddress: string, tx: Tx,
      fee: int) {
    var estimate := EstimatedFee(inputs, |req.destinations|, req.feeRate);
    var change := if |tx.outs| == |req.destinations| + 1 then tx.outs[|req.destinations|].value else 0;
    && balance == SumAmounts(req.destinations) + change + fee
    && balance == SumOuts(tx.outs) + fee
    && fee >= estimate
    && (changeAddress != "" ==> fee - estimate < DUST_THRESHOLD)
    && (|tx.outs| == |req.destinations| + 1 ==> fee == estimate && change >= DUST_THRESHOLD)
  }

  // ----- The transaction in the wallet's own terms -----

  /** The outpoints of the unspent coins with a confirmation. */
  ghost function UnspentKeys(coins: UtxoSet.Coins): set<OutPoint> {
    set k | k in coins && !coins[k].spent && coins[k].confirmations >= 1
  }

  /** Those coins as outputs, each at its own outpoint. */
  ghost function UnspentOuts(coins: UtxoSet.Coins): map<OutPoint, TxOut> {
    map k | k in coins && !coins[k].spent && coins[k].confirmations >= 1 :: TxOut(coins[k].amount, coins[k].script)
  }

  /** The transaction without its witnesses. */
  ghost function Unsigned(tx: Tx): (unsigned: Tx)
    ensures unsigned.outs == tx.outs && |unsigned.ins| == |tx.ins|
    ensures forall i | 0 <= i < |tx.ins| :: unsigned.ins[i] == TxIn(tx.ins[i].previous, [])
  {
    Tx(seq(|tx.ins|, i requires 0 <= i < |tx.ins| => TxIn(tx.ins[i].previous, [])), tx.outs)
  }

  /** Every unspent coin with a confirmation is spent by exactly one input, and each input has one
      witness: a signature that verifies under the key for the sighash of that input, given the
      amounts and scripts of the wallet's coins. */
  ghost predicate SpendsCoins(c: Curve, h: Hashes, net: Network, key: Point, coins: UtxoSet.Coins, tx: Tx) {
    && (forall i, j | 0 <= i < j < |tx.ins| :: tx.ins[i].previous != tx.ins[j].previous)
    && (set i | 0 <= i < |tx.ins| :: tx.ins[i].previous) == UnspentKeys(coins)
    && forall i | 0 <= i < |tx.ins| ::
         && |tx.ins[i].witnessStack| == 1
         && var hash := net.sigHash(Unsigned(tx), i, UnspentOuts(coins));
         && hash.Some? && VerifySchnorr(c, h, key, hash.value, tx.ins[i].witnessStack[0])
  }

  /** The outputs are the recipients', in order, and at most one more, to the change address. */
  ghost predicate PaysOut(net: Network, destinations: seq<Recipient>, changeAddress: string, tx: Tx) {
    var n := |destinations|;
    && n <= |tx.outs| <= n + 1
    && (forall k | 0 <= k < n ::
          tx.outs[k].value == destinations[k].amount && net.payTo(destinations[k].address) == Some(tx.outs[k].script))
    && (|tx.outs| == n + 1 ==> net.payTo(changeAddress) == Some(tx.outs[n].script))
  }

  lemma SpendsEveryCoin(c: Curve, h: Hashes, net: Network, key: Point, coins: UtxoSet.Coins, utxos: seq<Utxo>,
      unsigned: Tx, tx: Tx)
    requires SpendsAll(coins, utxos) && SignedFor(c, h, net, key, unsigned, utxos, tx)
    requires forall i | 0 <= i < |unsigned.ins| :: unsigned.ins[i].witnessStack == []
    ensures SpendsCoins(c, h, net, key, coins, tx)
  {
    hide VerifySchnorr, PreviousOuts;
    var keys :|
      UtxoSet.NoRepeats(keys) && UtxoSet.Elements(keys) == UtxoSet.SpendableKeys(coins) && ReadFrom(coins, keys, utxos);
    InputsAreKeys(coins, keys, utxos, tx);
    OutsAreCoins(coins, keys, utxos);
    assert Unsigned(tx).ins == unsigned.ins;
    assert Unsigned(tx) == unsigned;
  }

  lemma InputsAreKeys(coins: UtxoSet.Coins, keys: seq<OutPoint>, utxos: seq<Utxo>, tx: Tx)
    requires UtxoSet.NoRepeats(keys) && UtxoSet.Elements(keys) == UtxoSet.SpendableKeys(coins)
    requires ReadFrom(coins, keys, utxos) && |tx.ins| == |utxos|
    requires forall i | 0 <= i < |utxos| :: tx.ins[i].previous == OutPoint(utxos[i].txid, utxos[i].vout)
    ensures forall i, j | 0 <= i < j < |tx.ins| :: tx.ins[i].previous != tx.ins[j].previous
    ensures (set i | 0 <= i < |tx.ins| :: tx.ins[i].previous) == UnspentKeys(coins)
  {
    forall i | 0 <= i < |keys| ensures tx.ins[i].previous == keys[i] {
      assert utxos[i] == AsUtxo(keys[i], coins[keys[i]]);
    }
    forall k ensures k in UnspentKeys(coins) <==> k in (set i | 0 <= i < |tx.ins| :: tx.ins[i].previous) {
      assert k in UtxoSet.Elements(keys) <==> k in keys;
      if k in keys {
        var i :| 0 <= i < |keys| && keys[i] == k;
        assert tx.ins[i].previous == k;
      }
    }
  }

  lemma OutsAreCoins(coins: UtxoSet.Coins, keys: seq<OutPoint>, utxos: seq<Utxo>)
    requires UtxoSet.NoRepeats(keys) && UtxoSet.Elements(keys) == UtxoSet.SpendableKeys(coins)
    requires ReadFrom(coins, keys, utxos)
    ensures PreviousOuts(utxos) == UnspentOuts(coins)
  {
    OutsOfKeys(coins, keys, utxos);
    hide PreviousOuts, ReadFrom;
    forall k ensures k in UnspentOuts(coins) <==> k in keys {
      assert k in UtxoSet.Elements(keys) <==> k in keys;
    }
    hide UtxoSet.Elements, UtxoSet.SpendableKeys, UtxoSet.NoRepeats;
    assert PreviousOuts(utxos).Keys == UnspentOuts(coins).Keys;
  }

  lemma OutsOfKeys(coins: UtxoSet.Coins, keys: seq<OutPoint>, utxos: seq<Utxo>)
    requires UtxoSet.NoRepeats(keys) && ReadFrom(coins, keys, utxos)
    ensures forall k :: k in PreviousOuts(utxos) <==> k in keys
    ensures forall k | k in keys :: k in coins && PreviousOuts(utxos)[k] == TxOut(coins[k].amount, coins[k].script)
  {
    forall i | 0 <= i < |keys| ensures OutPoint(utxos[i].txid, utxos[i].vout) == keys[i] {
      assert utxos[i] == AsUtxo(keys[i], coins[keys[i]]);
    }
    PreviousOutsAt(utxos);
    hide PreviousOuts;
  }

  lemma BuiltPaysOut(net: Network, utxos: seq<Utxo>, req: SpendRequest, changeAddress: string, tx: Tx)
    requires CanBuild(net, utxos, req.destinations, changeAddress, req.feeRate)
    requires tx.outs == BuiltTx(net, utxos, req.destinations, changeAddress, req.feeRate).outs
    ensures PaysOut(net, req.destinations, changeAddress, tx)
  {
    hide SpendInputs, Change, PreviousOuts;
  }

  lemma AtMostOneMore(net: Network, destinations: seq<Recipient>, changeAddress: string, tx: Tx)
    requires PaysOut(net, destinations, changeAddress, tx)
    ensures |tx.outs| <= |destinations| + 1
  {
  }

  lemma BuiltIsUnsigned(net: Network, utxos: seq<Utxo>, req: SpendRequest, changeAddress: string)
    ensures var tx := BuiltTx(net, utxos, req.destinations, changeAddress, req.feeRate);
      forall i | 0 <= i < |tx.ins| :: tx.ins[i].witnessStack == []
  {
  }

  lemma SpendPays(balance: int, inputs: nat, req: SpendRequest, changeAddress: string, tx: Tx, fee: int)
    requires SpendConserves(balance, inputs, req, changeAddress, tx, fee) && |tx.outs| <= |req.destinations| + 1
    ensures FeePays(inputs, |req.destinations|, |tx.outs|, fee, changeAddress, req.feeRate)
  {
    hide SumAmounts, SumOuts, EstimatedFee, FeePays;
    FeePaysForAll(inputs, |req.destinations|, |tx.outs|, fee, changeAddress, req.feeRate);
  }

  /** Neither the output key nor, under the input's own sighash, the aggregate nonce is the identity. */
  ghost predicate NoIdentityAt(c: Curve, h: Hashes, net: Network, tx: Tx, utxos: seq<Utxo>, i: nat,
      signers: seq<uint32>, nonces: seq<NonceSecret>, groupKey: Point)
    requires |signers| == |nonces|
  {
    var hash := net.sigHash(tx, i, PreviousOuts(utxos));
    && OutputKey(c, h, groupKey) != Infinity
    && (hash.Some? ==>
          NonceIsNotIdentity(c, h, SessionFor(c, h, hash.value, signers, CommitAll(c, signers, nonces), groupKey)))
  }

  ghost predicate NoIdentity(c: Curve, h: Hashes, net: Network, tx: Tx, utxos: seq<Utxo>, signers: seq<uint32>,
      nonces: seq<NonceSecret>, groupKey: Point)
    requires |signers| == |nonces|
  {
    forall i | 0 <= i < |utxos| :: NoIdentityAt(c, h, net, tx, utxos, i, signers, nonces, groupKey)
  }

  /** The listed signers' aggregate for input i, under its own sighash, verifies, or it does not. */
  ghost predicate InputVerifies(c: Curve, h: Hashes, net: Network, ps: Participants, tx: Tx, utxos: seq<Utxo>, i: nat,
      signers: seq<uint32>, nonces: seq<NonceSecret>, groupKey: Point, good: bool)
    requires |signers| == |nonces|
  {
    var hash := net.sigHash(tx, i, PreviousOuts(utxos));
    && hash.Some?
    && AggregateVerifies(c, h, ps, SessionFor(c, h, hash.value, signers, CommitAll(c, signers, nonces), groupKey),
         groupKey, SecretsOf(signers, nonces), good)
  }

  ghost predicate AllVerify(c: Curve, h: Hashes, net: Network, ps: Participants, tx: Tx, utxos: seq<Utxo>,
      signers: seq<uint32>, nonces: seq<NonceSecret>, groupKey: Point)
    requires |signers| == |nonces|
  {
    forall i | 0 <= i < |utxos| :: InputVerifies(c, h, net, ps, tx, utxos, i, signers, nonces, groupKey, true)
  }

  ghost predicate SomeFails(c: Curve, h: Hashes, net: Network, ps: Participants, tx: Tx, utxos: seq<Utxo>,
      signers: seq<uint32>, nonces: seq<NonceSecret>, groupKey: Point)
    requires |signers| == |nonces|
  {
    exists i :: 0 <= i < |utxos| && InputVerifies(c, h, net, ps, tx, utxos, i, signers, nonces, groupKey, false)
  }

  /** How signing the coins ends, without an error or with one, and why, whoever the signers are: the
      build is not possible, a signer is not ready, some input's aggregate does not verify, or all
      do. */
  ghost predicate SigningEnds(c: Curve, h: Hashes, net: Network, ps: Participants, req: SpendRequest, utxos: seq<Utxo>,
      changeAddress: string, nonces: seq<NonceSecret>, groupKey: Point, e: Option<SpendError>)
    requires |req.signers| == |nonces|
  {
    var tx := BuiltTx(net, utxos, req.destinations, changeAddress, req.feeRate);
    var possible := CanBuild(net, utxos, req.destinations, changeAddress, req.feeRate);
    match e
    case Some(BuildFailed(cause)) =>
      !possible && cause == WhyNot(net, utxos, req.destinations, changeAddress, req.feeRate)
    case Some(SignFailed(reason)) => possible && FirstUnready(ps, req.signers, reason)
    case Some(FinalizeFailed) =>
      possible && AllReady(ps, req.signers) && SomeFails(c, h, net, ps, tx, utxos, req.signers, nonces, groupKey)
    case None =>
      possible && AllReady(ps, req.signers) && AllVerify(c, h, net, ps, tx, utxos, req.signers, nonces, groupKey)
    case Some(_) => false
  }

  /** For signers that are listed once there is one ending: the cases exclude each other.  (The
      signatures of a repeated signer can depend on how its commitments are sorted.) */
  lemma OneEnding(c: Curve, h: Hashes, net: Network, ps: Participants, req: SpendRequest, utxos: seq<Utxo>,
      changeAddress: string, nonces: seq<NonceSecret>, groupKey: Point, e: Option<SpendError>,
      other: Option<SpendError>)
    requires |req.signers| == |nonces| && Distinct(req.signers)
    requires SigningEnds(c, h, net, ps, req, utxos, changeAddress, nonces, groupKey, e)
    requires SigningEnds(c, h, net, ps, req, utxos, changeAddress, nonces, groupKey, other)
    ensures e == other
  {
    hide CanBuild, WhyNot, BuiltTx, InputVerifies, FirstUnready, AllReady, Distinct;
    var tx := BuiltTx(net, utxos, req.destinations, changeAddress, req.feeRate);
    if AllVerify(c, h, net, ps, tx, utxos, req.signers, nonces, groupKey)
      && SomeFails(c, h, net, ps, tx, utxos, req.signers, nonces, groupKey) {
      var i :| 0 <= i < |utxos| && InputVerifies(c, h, net, ps, tx, utxos, i, req.signers, nonces, groupKey, false);
      OneVerdict(c, h, net, ps, tx, utxos, i, req.signers, nonces, groupKey, true, false);
    }
    forall d | FirstUnready(ps, req.signers, d) ensures !AllReady(ps, req.signers) {
      UnreadyIsNotAll(ps, req.signers, d);
    }
    if e.Some? && other.Some? && e.value.SignFailed? && other.value.SignFailed? {
      OneUnready(ps, req.signers, e.value.reason, other.value.reason);
    }
    hide AllVerify, SomeFails;
  }

  lemma OneVerdict(c: Curve, h: Hashes, net: Network, ps: Participants, tx: Tx, utxos: seq<Utxo>, i: nat,
      signers: seq<uint32>, nonces: seq<NonceSecret>, groupKey: Point, good: bool, other: bool)
    requires |signers| == |nonces| && Distinct(signers)
    requires InputVerifies(c, h, net, ps, tx, utxos, i, signers, nonces, groupKey, good)
    requires InputVerifies(c, h, net, ps, tx, utxos, i, signers, nonces, groupKey, other)
    ensures good == other
  {
    hide IsAggregateOf, VerifySchnorr, CommitNonce, SecretsOf, OutputKey, Distinct, PreviousOuts;
    var message := net.sigHash(tx, i, PreviousOuts(utxos)).value;
    var s := SessionFor(c, h, message, signers, CommitAll(c, signers, nonces), groupKey);
    var secrets := SecretsOf(signers, nonces);
    var sig :| IsAggregateOf(c, h, ps, s, groupKey, secrets, sig)
      && (VerifySchnorr(c, h, s.groupKey, s.message, sig) <==> good);
    var sig' :| IsAggregateOf(c, h, ps, s, groupKey, secrets, sig')
      && (VerifySchnorr(c, h, s.groupKey, s.message, sig') <==> other);
    CommitmentsDistinct(c, signers, nonces);
    AggregateIsUnique(c, h, ps, s, groupKey, secrets, sig, sig');
  }

  lemma CommitmentsDistinct(c: Curve, signers: seq<uint32>, nonces: seq<NonceSecret>)
    requires |signers| == |nonces| && Distinct(signers)
    ensures DistinctIndices(CommitAll(c, signers, nonces))
  {
    hide Gen, CommitAll;
    var cs := CommitAll(c, signers, nonces);
    forall i, j | 0 <= i < j < |cs| ensures cs[i].index != cs[j].index {
      assert signers[i] != signers[j];
    }
  }

  lemma UnreadyIsNotAll(ps: Participants, signers: seq<uint32>, e: SignError)
    requires FirstUnready(ps, signers, e)
    ensures !AllReady(ps, signers)
  {
    hide Ready;
    var k :| 0 <= k < |signers| && UnreadyAt(ps, signers, k);
    assert signers[k] in signers;
  }

  lemma OneUnready(ps: Participants, signers: seq<uint32>, e: SignError, other: SignError)
    requires FirstUnready(ps, signers, e) && FirstUnready(ps, signers, other)
    ensures e == other
  {
    hide Ready;
    var j :| 0 <= j < |signers| && UnreadyAt(ps, signers, j) && e == ParticipantNotReady(signers[j]);
    var k :| 0 <= k < |signers| && UnreadyAt(ps, signers, k) && other == ParticipantNotReady(signers[k]);
    assert j == k;
  }

  /** For honest signers: signing succeeds exactly when the build is possible and nothing is an
      identity. */
  lemma HonestSigningEnds(c: Curve, h: Hashes, net: Network, ps: Participants, req: SpendRequest, utxos: seq<Utxo>,
      changeAddress: string, nonces: seq<NonceSecret>, groupKey: Point, e: Option<SpendError>)
    requires Valid(c) && |req.signers| == |nonces| && HonestFor(c, ps, req.signers, groupKey)
    requires SigningEnds(c, h, net, ps, req, utxos, changeAddress, nonces, groupKey, e)
    ensures var tx := BuiltTx(net, utxos, req.destinations, changeAddress, req.feeRate);
      e == None <==>
        && CanBuild(net, utxos, req.destinations, changeAddress, req.feeRate)
        && NoIdentity(c, h, net, tx, utxos, req.signers, nonces, groupKey)
  {
    hide Valid, BuiltTx, NoIdentityAt, HonestFor, WhyNot, HonestSigners, Gen, InputVerifies, FirstUnready,
      AllReady, CanBuild;
    var tx := BuiltTx(net, utxos, req.destinations, changeAddress, req.feeRate);
    HonestReady(c, ps, req.signers, groupKey);
    forall d | FirstUnready(ps, req.signers, d) ensures false {
      UnreadyIsNotAll(ps, req.signers, d);
    }
    HonestVerdicts(c, h, net, ps, tx, utxos, req.signers, nonces, groupKey);
    hide NoIdentity, AllVerify, SomeFails;
  }

  lemma HonestVerdicts(c: Curve, h: Hashes, net: Network, ps: Participants, tx: Tx, utxos: seq<Utxo>,
      signers: seq<uint32>, nonces: seq<NonceSecret>, groupKey: Point)
    requires Valid(c) && |signers| == |nonces| && HonestFor(c, ps, signers, groupKey)
    ensures AllVerify(c, h, net, ps, tx, utxos, signers, nonces, groupKey) ==>
      NoIdentity(c, h, net, tx, utxos, signers, nonces, groupKey)
    ensures SomeFails(c, h, net, ps, tx, utxos, signers, nonces, groupKey) ==>
      !NoIdentity(c, h, net, tx, utxos, signers, nonces, groupKey)
  {
    hide Valid, HonestFor, InputVerifies, NoIdentityAt;
    if AllVerify(c, h, net, ps, tx, utxos, signers, nonces, groupKey) {
      forall i | 0 <= i < |utxos| ensures NoIdentityAt(c, h, net, tx, utxos, i, signers, nonces, groupKey) {
        HonestVerdict(c, h, net, ps, tx, utxos, i, signers, nonces, groupKey, true);
      }
    }
    if SomeFails(c, h, net, ps, tx, utxos, signers, nonces, groupKey) {
      var i :| 0 <= i < |utxos| && InputVerifies(c, h, net, ps, tx, utxos, i, signers, nonces, groupKey, false);
      HonestVerdict(c, h, net, ps, tx, utxos, i, signers, nonces, groupKey, false);
    }
  }

  lemma HonestReady(c: Curve, ps: Participants, signers: seq<uint32>, groupKey: Point)
    requires HonestFor(c, ps, signers, groupKey)
    ensures AllReady(ps, signers)
  {
    hide HonestSigners, Gen, Ready;
    var f :| f != [] && HonestSigners(c, ps, signers, f) && groupKey == Gen(c, f[0]);
    HonestAreReady(c, ps, signers, f);
  }

  lemma BuildHasInputs(net: Network, utxos: seq<Utxo>, req: SpendRequest, changeAddress: string)
    requires CanBuild(net, utxos, req.destinations, changeAddress, req.feeRate)
    ensures utxos != []
  {
    hide Change, HasChange, BuiltTx, PreviousOuts;
  }

  /** Honest signers' aggregate for an input verifies exactly without an identity. */
  lemma HonestVerdict(c: Curve, h: Hashes, net: Network, ps: Participants, tx: Tx, utxos: seq<Utxo>, i: nat,
      signers: seq<uint32>, nonces: seq<NonceSecret>, groupKey: Point, good: bool)
    requires Valid(c) && |signers| == |nonces| && HonestFor(c, ps, signers, groupKey)
    requires InputVerifies(c, h, net, ps, tx, utxos, i, signers, nonces, groupKey, good)
    ensures good <==> NoIdentityAt(c, h, net, tx, utxos, i, signers, nonces, groupKey)
  {
    hide Valid, HonestSigners, Gen, AggregateVerifies, NonceIsNotIdentity, OutputKey, CommitAll, SecretsOf,
      PreviousOuts;
    var f :| f != [] && HonestSigners(c, ps, signers, f) && groupKey == Gen(c, f[0]);
    var message := net.sigHash(tx, i, PreviousOuts(utxos)).value;
    var s := SessionFor(c, h, message, signers, CommitAll(c, signers, nonces), groupKey);
    SecretsCover(signers, nonces);
    SessionsFit(c, h, message, signers, nonces, SecretsOf(signers, nonces), groupKey);
    hide InputSession;
    HonestAggregateVerifies(c, h, ps, s, f, SecretsOf(signers, nonces), good);
  }

  class CustodySystem {
    const c: Curve
    const h: Hashes
    const net: Network
    const threshold: uint32
    const total: uint32
    const policy: Engine.Engine
    var wallet: UtxoSet.UTXOSet?
    var groupPubKey: Option<Point>
    var participants: Participants

    constructor (c: Curve, h: Hashes, net: Network, threshold: uint32, total: uint32, policy: Engine.Engine)
      requires 1 <= threshold <= total
      ensures this.c == c && this.h == h && this.net == net && this.threshold == threshold && this.total == total
      ensures this.policy == policy && wallet == null && groupPubKey == None && participants == map[]
    {
      this.c, this.h, this.net, this.threshold, this.total, this.policy := c, h, net, threshold, total, policy;
      wallet, groupPubKey, participants := null, None, map[];
    }

    /** Creates the participants, each with the random coefficients it is given; any there were are
        replaced. */
    method InitializeDKG(random: seq<seq<int>>) returns (r: Result<(), Frost.Error>)
      requires 1 <= threshold <= total < TWO_32 - 1 && |random| == total
      requires forall i | i in participants :: 1 <= i <= total
      requires forall k | 0 <= k < total ::
        |random[k]| == threshold && forall j | 0 <= j < threshold :: 0 < random[k][j] < c.q
      modifies this`participants
      ensures r.Ok? && Initialised(c, participants, threshold, total)
      ensures Polynomials(participants, total) == random
      ensures forall i | i in participants :: participants[i].dkg == None
    {
      hide Frost.Commit;
      var i: uint32 := 1;
      while i <= total
        invariant 1 <= i <= total + 1
        invariant forall j | j in participants :: 1 <= j <= total
        invariant forall j: uint32 | 1 <= j < i :: j in participants
        invariant forall j: uint32 | 1 <= j < i ::
          && Frost.WellFormed(c, participants[j].participant)
          && participants[j].participant.index == j == participants[j].index
          && participants[j].participant.threshold == threshold && participants[j].participant.total == total
          && participants[j].participant.poly == random[j - 1] && participants[j].dkg == None
      {
        var p := Frost.NewParticipant(c, i, threshold, total, random[i - 1]);
        participants := participants[i := ParticipantState(i, p.value, None)];
        i := i + 1;
      }
      return Ok(());
    }

    /** An honest ceremony succeeds exactly when no value of the group polynomial at 0, ..., total is
        zero.  Then everybody holds the same group key, their own value of the polynomial, and the
        same verification shares. */
    method RunDKGCeremony() returns (r: Result<Point, CeremonyError>)
      requires Valid(c) && (participants == map[] || Initialised(c, participants, threshold, total))
      modifies this`participants, this`groupPubKey
      ensures r == Err(NotInitialised) <==> old(participants) == map[]
      ensures r != Err(DifferentGroupKey)
      ensures old(participants) != map[] ==>
        && var f := Group(c, old(participants), threshold, total);
        && (r.Ok? <==> Dkg.NonZeroUpTo(c.q, f, total))
        && (r.Ok? ==> r.value == Gen(c, Eval(f, 0)) && groupPubKey == Some(r.value))
        && (r.Ok? ==> Completed(c, old(participants), participants, threshold, total))
      ensures r.Err? ==> groupPubKey == old(groupPubKey) && participants == old(participants)
    {
      hide Valid, Initialised, Dkg.NonZeroUpTo, Completed, Gen, Eval, Group, Dkg.HonestShares, Dkg.HonestBroadcasts;
      if participants == map[] {
        return Err(NotInitialised);
      }
      var round1 := Broadcast(c, participants, threshold, total);
      var shares := DealShares(c, participants, threshold, total);
      var finished, done := FinaliseAll(c, participants, threshold, total, round1, shares);
      participants := done;
      if finished.Err? {
        return Err(finished.error);
      }
      groupPubKey := Some(finished.value);
      return Ok(finished.value);
    }

    /** Builds the transaction, signs every input and finalises. */
    method SignTransaction(req: SpendRequest, utxos: seq<Utxo>, changeAddress: string, nonces: seq<NonceSecret>,
        groupKey: Point)
      returns (r: Result<(Tx, int), SpendError>)
      requires Valid(c) && req.signers != [] && |nonces| == |req.signers|
      requires forall k | 0 <= k < |nonces| :: ValidNonce(c.q, nonces[k])
      ensures SigningEnds(c, h, net, participants, req, utxos, changeAddress, nonces, groupKey,
        if r.Ok? then None else Some(r.error))
      ensures r.Ok? ==> SignedFor(c, h, net, OutputKey(c, h, groupKey),
        BuiltTx(net, utxos, req.destinations, changeAddress, req.feeRate), utxos, r.value.0)
      ensures r.Ok? ==> SpendConserves(SumValues(utxos), |utxos|, req, changeAddress, r.value.0, r.value.1)
    {
      hide *;
      var built := Build(net, utxos, req.destinations, changeAddress, req.feeRate);
      if built.Err? {
        EndsUnbuilt(c, h, net, participants, req, utxos, changeAddress, nonces, groupKey, built.error);
        return Err(BuildFailed(built.error));
      }
      var b := built.value;
      FreshInputsAreUnsigned(utxos, b.packet.inputs);
      SizesMatch(net, utxos, req, changeAddress);
      var secrets, commitments := MakeNonces(c, req.signers, nonces);
      forall m: Message
        ensures InputSession(c, h, SessionFor(c, h, m, req.signers, commitments, groupKey), groupKey, secrets)
      {
        SessionsFit(c, h, m, req.signers, nonces, secrets, groupKey);
      }
      var signed := SignAllInputs(c, h, participants, b.packet, b.sigHashes, req.signers, commitments, groupKey,
        secrets);
      ghost var inputs := b.packet.inputs;
      if signed.Err? {
        EndsUnsigned(c, h, net, participants, req, utxos, changeAddress, nonces, groupKey, signed.error);
        return Err(SignFailed(signed.error));
      }
      var final := b.packet.Finalize();
      EndsFinalised(c, h, net, participants, req, utxos, changeAddress, nonces, groupKey, b.sigHashes, inputs,
        final.Ok?);
      if final.Err? {
        return Err(FinalizeFailed);
      }
      FinalIsSigned(c, h, net, OutputKey(c, h, groupKey), b.packet.unsignedTx, utxos, b.sigHashes, inputs, final.value);
      BuildConserves(b, final.value, utxos, req, changeAddress);
      return Ok((final.value, b.fee));
    }

    /** The request the policy engine sees. */
    ghost predicate IsPolicyRequest(req: SpendRequest, p: Engine.Request) {
      && p.totalAmount == SumAmounts(req.destinations)
      && p.requestedBy == req.requestedBy && p.approvals == req.approvals
      && |p.destinations| == |req.destinations|
      && forall k | 0 <= k < |req.destinations| ::
           p.destinations[k] == Engine.Destination(req.destinations[k].address, req.destinations[k].amount)
    }

    method PolicyRequest(clock: Clock, req: SpendRequest) returns (p: Engine.Request)
      modifies clock
      ensures old(clock.now) <= clock.now == p.requestedAt && IsPolicyRequest(req, p)
    {
      var totalAmount := 0;
      var destinations := [];
      for i := 0 to |req.destinations|
        invariant totalAmount == SumAmounts(req.destinations[..i]) && |destinations| == i
        invariant forall k | 0 <= k < i ::
          destinations[k] == Engine.Destination(req.destinations[k].address, req.destinations[k].amount)
      {
        assert req.destinations[..i + 1][..i] == req.destinations[..i];
        var d := req.destinations[i];
        totalAmount := totalAmount + d.amount;
        destinations := destinations + [Engine.Destination(d.address, d.amount)];
      }
      assert req.destinations[..|req.destinations|] == req.destinations;
      var now := clock.Now();
      p := Engine.Request(destinations, totalAmount, req.requestedBy, now, req.approvals);
    }

    /** The wallet exists only once the group key does. */
    ghost predicate Operational(now: int)
      reads this, policy, policy.Limits()
    {
      Valid(c) && 1 <= threshold && (wallet != null ==> groupPubKey.Some?) && policy.Valid(now)
    }

    /** The engine was asked between lo and hi, about this spend as it stood when it was asked, and
        allowed it. */
    ghost predicate PolicyAllows(req: SpendRequest, hs: Engine.Histories, lo: int, hi: int)
      reads policy
    {
      exists p :: IsPolicyRequest(req, p) && lo <= p.requestedAt <= hi
        && Engine.Allows(policy.rules, hs, p, p.requestedAt, hi)
    }

    ghost predicate PolicyDenies(req: SpendRequest, hs: Engine.Histories, lo: int, hi: int)
      reads policy
    {
      exists p :: IsPolicyRequest(req, p) && lo <= p.requestedAt <= hi
        && Engine.Denies(policy.rules, hs, p, p.requestedAt, hi)
    }

    /** There are rules, every limit has room at lo, and every other rule passes from lo to hi. */
    ghost predicate PolicyMustAllow(req: SpendRequest, hs: Engine.Histories, lo: int, hi: int)
      reads policy
    {
      && Engine.NoNegatives(hs)
      && forall p | IsPolicyRequest(req, p) && lo <= p.requestedAt <= hi ::
           Engine.PassThroughout(policy.rules, hs, p, lo, hi)
    }

    lemma MustAllowExcludesDenial(req: SpendRequest, hs: Engine.Histories, lo: int, hi: int)
      requires PolicyMustAllow(req, hs, lo, hi) && Engine.RecordedBy(hs, lo)
      ensures !PolicyDenies(req, hs, lo, hi)
    {
      hide Engine.Denies, Engine.PassThroughout, Engine.NoNegatives, Engine.RecordedBy, IsPolicyRequest;
      if PolicyDenies(req, hs, lo, hi) {
        var p :| IsPolicyRequest(req, p) && lo <= p.requestedAt <= hi
          && Engine.Denies(policy.rules, hs, p, p.requestedAt, hi);
        Engine.NotDenied(policy.rules, hs, p, lo, p.requestedAt, hi);
      }
    }

    lemma PolicyAllowsLater(req: SpendRequest, p: Engine.Request, hs: Engine.Histories, lo: int, hi: int, later: int)
      requires IsPolicyRequest(req, p) && lo <= p.requestedAt <= hi <= later
      requires Engine.Allows(policy.rules, hs, p, p.requestedAt, hi)
      ensures PolicyAllows(req, hs, lo, later)
    {
      hide IsPolicyRequest;
      Engine.AllowsLater(policy.rules, hs, p, p.requestedAt, hi, later);
      hide Engine.Allows;
    }

    lemma PolicyDeniesAt(req: SpendRequest, p: Engine.Request, hs: Engine.Histories, lo: int, hi: int)
      requires IsPolicyRequest(req, p) && lo <= p.requestedAt <= hi
      requires Engine.Denies(policy.rules, hs, p, p.requestedAt, hi)
      ensures PolicyDenies(req, hs, lo, hi)
    {
      hide IsPolicyRequest, Engine.Denies;
    }

    /** How a spend that the policy allows ends, and exactly why. */
    ghost predicate Ends(req: SpendRequest, world: World, groupKey: Point, coins: UtxoSet.Coins, utxos: seq<Utxo>,
        e: Option<SpendError>)
      requires |req.signers| == |world.nonces|
      reads this
    {
      match e
      case Some(NoCoins) => UtxoSet.SpendableKeys(coins) == {}
      case Some(NoChangeAddress) => UtxoSet.SpendableKeys(coins) != {} && world.changeAddress.None?
      case _ =>
        && UtxoSet.SpendableKeys(coins) != {} && world.changeAddress.Some? && SpendsAll(coins, utxos)
        && SigningEnds(c, h, net, participants, req, utxos, world.changeAddress.value, world.nonces, groupKey, e)
    }

    lemma EndsSigning(req: SpendRequest, world: World, groupKey: Point, coins: UtxoSet.Coins, utxos: seq<Utxo>,
        e: Option<SpendError>)
      requires |req.signers| == |world.nonces|
      requires UtxoSet.SpendableKeys(coins) != {} && world.changeAddress.Some? && SpendsAll(coins, utxos)
      requires SigningEnds(c, h, net, participants, req, utxos, world.changeAddress.value, world.nonces, groupKey, e)
      ensures Ends(req, world, groupKey, coins, utxos, e)
      ensures e.Some? ==> e.value.BuildFailed? || e.value.SignFailed? || e.value.FinalizeFailed?
    {
      hide UtxoSet.SpendableKeys, SpendsAll, CanBuild, WhyNot, FirstUnready, AllReady, AllVerify, SomeFails, BuiltTx;
    }

    lemma EndsUnspendable(req: SpendRequest, world: World, groupKey: Point, coins: UtxoSet.Coins, utxos: seq<Utxo>,
        keys: seq<OutPoint>)
      requires |req.signers| == |world.nonces| && UtxoSet.Elements(keys) == UtxoSet.SpendableKeys(coins)
      ensures keys == [] ==> Ends(req, world, groupKey, coins, utxos, Some(NoCoins))
      ensures keys != [] ==> UtxoSet.SpendableKeys(coins) != {}
      ensures keys != [] && world.changeAddress.None? ==>
        Ends(req, world, groupKey, coins, utxos, Some(NoChangeAddress))
    {
      hide SigningEnds, SpendsAll;
      if keys != [] { assert keys[0] in UtxoSet.Elements(keys); }
    }

    /** Everything a spend needs: coins, a change address, honest signers of this group key and,
        whichever way the coins are listed, a possible build without an identity. */
    ghost predicate CanSpend(req: SpendRequest, world: World, groupKey: Point, coins: UtxoSet.Coins)
      requires |req.signers| == |world.nonces|
      reads this
    {
      && UtxoSet.SpendableKeys(coins) != {} && world.changeAddress.Some?
      && HonestFor(c, participants, req.signers, groupKey)
      && forall utxos | SpendsAll(coins, utxos) ::
           var change := world.changeAddress.value;
           && CanBuild(net, utxos, req.destinations, change, req.feeRate)
           && NoIdentity(c, h, net, BuiltTx(net, utxos, req.destinations, change, req.feeRate), utxos, req.signers,
                world.nonces, groupKey)
    }

    /** With all of it, no error is left. */
    lemma NothingElseFails(req: SpendRequest, world: World, groupKey: Point, coins: UtxoSet.Coins, utxos: seq<Utxo>,
        e: Option<SpendError>)
      requires Valid(c) && |req.signers| == |world.nonces| && CanSpend(req, world, groupKey, coins)
      requires Ends(req, world, groupKey, coins, utxos, e)
      ensures e == None
    {
      hide Valid, UtxoSet.SpendableKeys, SpendsAll, CanBuild, NoIdentity, BuiltTx, SigningEnds, HonestFor;
      if !(e.Some? && (e.value.NoCoins? || e.value.NoChangeAddress?)) {
        HonestSigningEnds(c, h, net, participants, req, utxos, world.changeAddress.value, world.nonces, groupKey, e);
      }
    }

    /** Asks the policy engine, then builds and signs; records the amount once signing is done. */
    method SignWithPolicy(clock: Clock, wallet: UtxoSet.UTXOSet, req: SpendRequest, world: World, groupKey: Point)
      returns (r: Result<SpendResult, SpendError>, ghost utxos: seq<Utxo>, keys: seq<OutPoint>)
      requires Operational(clock.now) && req.signers != []
      requires |world.nonces| == |req.signers| && forall k | 0 <= k < |world.nonces| :: ValidNonce(c.q, world.nonces[k])
      modifies clock, policy.Limits()
      ensures old(clock.now) <= clock.now && policy.Valid(clock.now)
      ensures Recorded(policy.rules, old(policy.History()), policy.History(), r.Ok?, SumAmounts(req.destinations),
        old(clock.now), clock.now)
      ensures r == Err(PolicyDenied) ==> PolicyDenies(req, old(policy.History()), old(clock.now), clock.now)
      ensures r != Err(PolicyDenied) ==> PolicyAllows(req, old(policy.History()), old(clock.now), clock.now)
      ensures r != Err(PolicyDenied) ==>
        Ends(req, world, groupKey, wallet.coins, utxos, if r.Ok? then None else Some(r.error))
      ensures r.Err? ==> !r.error.BroadcastFailed? && !r.error.NoWallet? && !r.error.TooFewSigners?
      ensures r.Ok? ==> UtxoSet.Elements(keys) == UtxoSet.SpendableKeys(wallet.coins) && r.value.txid == ""
      ensures r.Ok? ==> IsSpend(req, world, groupKey, wallet.coins, utxos, r.value.tx, r.value.fee)
    {
      hide *;
      utxos, keys := [], [];
      ReadyForPolicy(clock.now);
      ghost var before, history := clock.now, policy.History();
      var request := PolicyRequest(clock, req);
      RequestedTotal(req, request);
      policy.ValidLater(before, clock.now);
      ghost var asked := clock.now;
      forall later
        ensures Recorded(policy.rules, history, history, false, SumAmounts(req.destinations), before, later)
      {
        NothingRecorded(policy.rules, history, SumAmounts(req.destinations), before, later);
      }
      var allowed := policy.Evaluate(clock, request);
      if !allowed {
        PolicyDeniesAt(req, request, history, before, clock.now);
        return Err(PolicyDenied), utxos, keys;
      }
      PolicyAllowsLater(req, request, history, before, clock.now, clock.now);
      keys := wallet.Spendable();
      EndsUnspendable(req, world, groupKey, wallet.coins, utxos, keys);
      if keys == [] {
        return Err(NoCoins), utxos, keys;
      }
      SpendableAreCoins(wallet.coins);
      var read := ReadCoins(wallet.coins, keys);
      utxos := read;
      EndsUnspendable(req, world, groupKey, wallet.coins, utxos, keys);
      if world.changeAddress.None? {
        return Err(NoChangeAddress), utxos, keys;
      }
      AllAreSpent(wallet.coins, keys, utxos);
      var signed := SignTransaction(req, read, world.changeAddress.value, world.nonces, groupKey);
      EndsSigning(req, world, groupKey, wallet.coins, utxos, if signed.Ok? then None else Some(signed.error));
      if signed.Err? {
        return Err(signed.error), utxos, keys;
      }
      ghost var checked := clock.now;
      policy.RecordTransaction(clock, request.totalAmount);
      PolicyAllowsLater(req, request, history, before, checked, clock.now);
      AmountRecorded(policy.rules, history, policy.History(), request, before, asked, checked, clock.now);
      var result := SpendResult("", signed.value.0, signed.value.1);
      EndsPossible(req, utxos, world.changeAddress.value, world.nonces, groupKey);
      ResultIsSpend(req, world, groupKey, wallet.coins, keys, utxos, result.tx, result.fee);
      return Ok(result), utxos, keys;
    }

    lemma ReadyForPolicy(now: int)
      requires Operational(now)
      ensures Valid(c) && policy.Valid(now)
    {
      hide Valid;
    }

    lemma RequestedTotal(req: SpendRequest, p: Engine.Request)
      requires IsPolicyRequest(req, p)
      ensures p.totalAmount == SumAmounts(req.destinations)
    {
      hide SumAmounts;
    }

    lemma ResultIsSpend(req: SpendRequest, world: World, groupKey: Point, coins: UtxoSet.Coins, keys: seq<OutPoint>,
        utxos: seq<Utxo>, tx: Tx, fee: int)
      requires world.changeAddress.Some? && SpendsAll(coins, utxos)
      requires CanBuild(net, utxos, req.destinations, world.changeAddress.value, req.feeRate)
      requires SignedFor(c, h, net, OutputKey(c, h, groupKey),
        BuiltTx(net, utxos, req.destinations, world.changeAddress.value, req.feeRate), utxos, tx)
      requires SpendConserves(UtxoSet.BalanceOf(coins), |utxos|, req, world.changeAddress.value, tx, fee)
      ensures IsSpend(req, world, groupKey, coins, utxos, tx, fee)
    {
      var change := world.changeAddress.value;
      var unsigned := BuiltTx(net, utxos, req.destinations, change, req.feeRate);
      assert |tx.ins| == |utxos| && tx.outs == unsigned.outs;
      hide SpendsAll, SignedFor, SpendConserves, OutputKey, BuiltTx, UtxoSet.BalanceOf, CanBuild, SpendsCoins,
        PaysOut, FeePays;
      BuiltIsUnsigned(net, utxos, req, change);
      SpendsEveryCoin(c, h, net, OutputKey(c, h, groupKey), coins, utxos, unsigned, tx);
      BuiltPaysOut(net, utxos, req, change, tx);
      AtMostOneMore(net, req.destinations, change, tx);
      SpendPays(UtxoSet.BalanceOf(coins), |utxos|, req, change, tx, fee);
    }

    lemma EndsPossible(req: SpendRequest, utxos: seq<Utxo>, changeAddress: string, nonces: seq<NonceSecret>,
        groupKey: Point)
      requires |req.signers| == |nonces|
      requires SigningEnds(c, h, net, participants, req, utxos, changeAddress, nonces, groupKey, None)
      ensures CanBuild(net, utxos, req.destinations, changeAddress, req.feeRate)
    {
      hide CanBuild, WhyNot, AllReady, AllVerify, SomeFails, FirstUnready, BuiltTx;
    }

    /** The coins the wallet tracks; none before there is a wallet. */
    ghost function Coins(): UtxoSet.Coins
      reads this, wallet
    {
      if wallet == null then map[] else wallet.coins
    }

    /** Signs, and broadcasts when asked to; the coins are marked only after a broadcast. */
    method SpendFrom(clock: Clock, wallet: UtxoSet.UTXOSet, req: SpendRequest, broadcast: bool, world: World,
        groupKey: Point)
      returns (r: Result<SpendResult, SpendError>, ghost utxos: seq<Utxo>)
      requires Operational(clock.now) && req.signers != []
      requires |world.nonces| == |req.signers| && forall k | 0 <= k < |world.nonces| :: ValidNonce(c.q, world.nonces[k])
      modifies clock, policy.Limits(), wallet
      ensures old(clock.now) <= clock.now && policy.Valid(clock.now)
      ensures Recorded(policy.rules, old(policy.History()), policy.History(), SignedResult(r).Some?,
        SumAmounts(req.destinations), old(clock.now), clock.now)
      ensures r == Err(PolicyDenied) ==> PolicyDenies(req, old(policy.History()), old(clock.now), clock.now)
      ensures r != Err(PolicyDenied) ==> PolicyAllows(req, old(policy.History()), old(clock.now), clock.now)
      ensures r != Err(PolicyDenied) ==> Ends(req, world, groupKey, old(wallet.coins), utxos, WhyUnsigned(r))
      ensures r.Err? ==> !r.error.NoWallet? && !r.error.TooFewSigners?
      ensures SignedResult(r).Some? ==>
        IsSpend(req, world, groupKey, old(wallet.coins), utxos, SignedResult(r).value.tx, SignedResult(r).value.fee)
      ensures SignedResult(r).Some? ==> (r.Ok? <==> !broadcast || world.txid.Some?)
      ensures !(r.Ok? && broadcast) ==> wallet.coins == old(wallet.coins)
      ensures r.Ok? ==> r.value.txid == if broadcast then world.txid.value else ""
      ensures r.Ok? && broadcast ==>
        AllMarked(old(wallet.coins), wallet.coins, UtxoSet.SpendableKeys(old(wallet.coins)), r.value.txid)
    {
      hide *;
      SpendableAreCoins(wallet.coins);
      var signed, spent, keys := SignWithPolicy(clock, wallet, req, world, groupKey);
      utxos := spent;
      OutcomeIs(signed);
      if signed.Err? {
        return signed, utxos;
      }
      if !broadcast {
        return signed, utxos;
      }
      ghost var history := policy.History();
      assert Recorded(policy.rules, old(policy.History()), history, true, SumAmounts(req.destinations),
        old(clock.now), clock.now);
      r := BroadcastAndMark(wallet, keys, signed.value, world.txid);
      OutcomeIs(r);
      assert policy.History() == history && policy.Valid(clock.now);
    }

    /** Builds, signs and optionally broadcasts.

        Every outcome is explained: a denial by the policy, and any other error by its own cause; a
        spend that gets further was allowed by the policy.  A spend that the policy must allow and
        that has everything it needs is signed.  The amount is recorded exactly when a transaction
        was signed, even if broadcasting then fails, and the velocity limits hold in every window of
        their histories; the coins are marked, all of them, only after a broadcast. */
    method Spend(clock: Clock, req: SpendRequest, broadcast: bool, world: World)
      returns (r: Result<SpendResult, SpendError>, ghost utxos: seq<Utxo>)
      requires Operational(clock.now)
      requires |world.nonces| == |req.signers| && forall k | 0 <= k < |world.nonces| :: ValidNonce(c.q, world.nonces[k])
      modifies clock, policy.Limits(), wallet
      ensures old(clock.now) <= clock.now && policy.Valid(clock.now)
      ensures Recorded(policy.rules, old(policy.History()), policy.History(), SignedResult(r).Some?,
        SumAmounts(req.destinations), old(clock.now), clock.now)
      ensures r == Err(NoWallet) <==> wallet == null
      ensures r == Err(TooFewSigners) <==> wallet != null && |req.signers| < threshold
      ensures r == Err(PolicyDenied) ==> PolicyDenies(req, old(policy.History()), old(clock.now), clock.now)
      ensures wallet != null && |req.signers| >= threshold && r != Err(PolicyDenied) ==>
        PolicyAllows(req, old(policy.History()), old(clock.now), clock.now)
      ensures wallet != null && |req.signers| >= threshold && r != Err(PolicyDenied) ==>
        groupPubKey.Some? && Ends(req, world, groupPubKey.value, old(Coins()), utxos, WhyUnsigned(r))
      ensures wallet != null && |req.signers| >= threshold ==>
        PolicyMustAllow(req, old(policy.History()), old(clock.now), clock.now) ==>
          CanSpend(req, world, groupPubKey.value, old(Coins())) ==> SignedResult(r).Some?
      ensures SignedResult(r).Some? ==>
        IsSpend(req, world, groupPubKey.value, old(Coins()), utxos, SignedResult(r).value.tx, SignedResult(r).value.fee)
      ensures SignedResult(r).Some? ==> (r.Ok? <==> !broadcast || world.txid.Some?)
      ensures !(r.Ok? && broadcast) ==> Coins() == old(Coins())
      ensures r.Ok? ==> r.value.txid == if broadcast then world.txid.value else ""
      ensures r.Ok? && broadcast ==> UtxoSet.BalanceOf(Coins()) == 0
      ensures r.Ok? && broadcast ==> AllMarked(old(Coins()), Coins(), UtxoSet.SpendableKeys(old(Coins())), r.value.txid)
    {
      hide Valid, IsSpend, AllMarked, Recorded, ValidNonce, SumAmounts, PolicyAllows, PolicyDenies, PolicyMustAllow,
        Ends, CanSpend;
      utxos := [];
      NothingRecorded(policy.rules, policy.History(), SumAmounts(req.destinations), clock.now, clock.now);
      if wallet == null {
        return Err(NoWallet), utxos;
      }
      if |req.signers| < threshold {
        return Err(TooFewSigners), utxos;
      }
      ghost var before, start, history := wallet.coins, clock.now, policy.History();
      r, utxos := SpendFrom(clock, wallet, req, broadcast, world, groupPubKey.value);
      if PolicyMustAllow(req, history, start, clock.now) {
        MustAllowExcludesDenial(req, history, start, clock.now);
        if CanSpend(req, world, groupPubKey.value, before) {
          NothingElseFails(req, world, groupPubKey.value, before, utxos, WhyUnsigned(r));
        }
      }
      if r.Ok? && broadcast {
        NothingLeft(before, wallet.coins, r.value.txid);
      }
    }

    /** The outcome of a signed spend: a transaction of all the spendable coins, at their own
        outpoints, whose every witness verifies under the Taproot output key for its own sighash, that
        pays the recipients and perhaps change, and whose value adds up to the balance. */
    ghost predicate IsSpend(req: SpendRequest, world: World, groupKey: Point, coins: UtxoSet.Coins, utxos: seq<Utxo>,
        tx: Tx, fee: int) {
      && world.changeAddress.Some?
      && var change := world.changeAddress.value;
      && SpendsAll(coins, utxos)
      && SignedFor(c, h, net, OutputKey(c, h, groupKey),
           BuiltTx(net, utxos, req.destinations, change, req.feeRate), utxos, tx)
      && SpendConserves(UtxoSet.BalanceOf(coins), |utxos|, req, change, tx, fee)
      && SpendsCoins(c, h, net, OutputKey(c, h, groupKey), coins, tx)
      && PaysOut(net, req.destinations, change, tx)
      && FeePays(|tx.ins|, |req.destinations|, |tx.outs|, fee, change, req.feeRate)
    }
  }

  /** The error a spend ended with before anything was signed, if it did. */
  function WhyUnsigned(r: Result<SpendResult, SpendError>): Option<SpendError> {
    match r
    case Ok(_) => None
    case Err(BroadcastFailed(_)) => None
    case Err(e) => Some(e)
  }

  lemma OutcomeIs(r: Result<SpendResult, SpendError>)
    ensures r.Ok? ==> SignedResult(r) == Some(r.value) && WhyUnsigned(r) == None
    ensures r.Err? && r.error.BroadcastFailed? ==> SignedResult(r) == Some(r.error.signed) && WhyUnsigned(r) == None
    ensures r.Err? && !r.error.BroadcastFailed? ==> SignedResult(r) == None && WhyUnsigned(r) == Some(r.error)
  {
  }

  /** The signed transaction a spend ended with, if it got that far. */
  function SignedResult(r: Result<SpendResult, SpendError>): Option<SpendResult> {
    match r
    case Ok(result) => Some(result)
    case Err(BroadcastFailed(result)) => Some(result)
    case Err(_) => None
  }

  /** The inputs are all the spendable coins, each once. */
  ghost predicate SpendsAll(coins: UtxoSet.Coins, utxos: seq<Utxo>) {
    exists keys: seq<OutPoint> ::
      UtxoSet.NoRepeats(keys) && UtxoSet.Elements(keys) == UtxoSet.SpendableKeys(coins) && ReadFrom(coins, keys, utxos)
  }

  lemma AllAreSpent(coins: UtxoSet.Coins, keys: seq<OutPoint>, utxos: seq<Utxo>)
    requires UtxoSet.NoRepeats(keys) && UtxoSet.Elements(keys) == UtxoSet.SpendableKeys(coins)
    requires ReadFrom(coins, keys, utxos)
    ensures SpendsAll(coins, utxos)
  {
    hide UtxoSet.NoRepeats, UtxoSet.Elements, UtxoSet.SpendableKeys, ReadFrom;
  }

  lemma FreshInputsAreUnsigned(utxos: seq<Utxo>, inputs: seq<Input>)
    requires |inputs| == |utxos| && forall k | 0 <= k < |utxos| :: inputs[k] == FreshInput(utxos[k])
    ensures forall i | 0 <= i < |inputs| :: inputs[i].partialSigs == map[] && inputs[i].keySpendSig == []
  {
  }

  lemma SizesMatch(net: Network, utxos: seq<Utxo>, req: SpendRequest, changeAddress: string)
    ensures var tx := BuiltTx(net, utxos, req.destinations, changeAddress, req.feeRate);
      && |tx.ins| == |utxos|
      && forall k | 0 <= k < |utxos| :: tx.ins[k].previous == OutPoint(utxos[k].txid, utxos[k].vout)
  {
  }

  lemma EndsUnbuilt(c: Curve, h: Hashes, net: Network, ps: Participants, req: SpendRequest, utxos: seq<Utxo>,
      changeAddress: string, nonces: seq<NonceSecret>, groupKey: Point, cause: Failure)
    requires |req.signers| == |nonces| && !CanBuild(net, utxos, req.destinations, changeAddress, req.feeRate)
    requires cause == WhyNot(net, utxos, req.destinations, changeAddress, req.feeRate)
    ensures SigningEnds(c, h, net, ps, req, utxos, changeAddress, nonces, groupKey, Some(BuildFailed(cause)))
  {
    hide CanBuild, WhyNot, AllVerify, SomeFails, BuiltTx;
  }

  lemma EndsUnsigned(c: Curve, h: Hashes, net: Network, ps: Participants, req: SpendRequest, utxos: seq<Utxo>,
      changeAddress: string, nonces: seq<NonceSecret>, groupKey: Point, reason: SignError)
    requires |req.signers| == |nonces| && CanBuild(net, utxos, req.destinations, changeAddress, req.feeRate)
    requires FirstUnready(ps, req.signers, reason)
    ensures SigningEnds(c, h, net, ps, req, utxos, changeAddress, nonces, groupKey, Some(SignFailed(reason)))
  {
    hide CanBuild, WhyNot, FirstUnready, AllVerify, SomeFails, BuiltTx;
  }

  lemma EndsFinalised(c: Curve, h: Hashes, net: Network, ps: Participants, req: SpendRequest, utxos: seq<Utxo>,
      changeAddress: string, nonces: seq<NonceSecret>, groupKey: Point, sigHashes: seq<Message>, inputs: seq<Input>,
      final: bool)
    requires |req.signers| == |nonces| && CanBuild(net, utxos, req.destinations, changeAddress, req.feeRate)
    requires |sigHashes| == |inputs| == |utxos| && (sigHashes == [] || AllReady(ps, req.signers))
    requires forall k | 0 <= k < |utxos| ::
      net.sigHash(BuiltTx(net, utxos, req.destinations, changeAddress, req.feeRate), k, PreviousOuts(utxos))
        == Some(sigHashes[k])
    requires forall i | 0 <= i < |inputs| ::
      OnlyVerified(c, h, OutputKey(c, h, groupKey), sigHashes[i], inputs[i].keySpendSig)
    requires forall i | 0 <= i < |inputs| :: IsFinalised(c, h, ps,
      SessionFor(c, h, sigHashes[i], req.signers, CommitAll(c, req.signers, nonces), groupKey), groupKey,
      SecretsOf(req.signers, nonces), inputs[i].keySpendSig)
    requires final <==> forall i | 0 <= i < |inputs| :: |inputs[i].keySpendSig| == 64
    ensures SigningEnds(c, h, net, ps, req, utxos, changeAddress, nonces, groupKey,
      if final then None else Some(FinalizeFailed))
  {
    hide OutputKey, SessionFor, CommitAll, SecretsOf, OnlyVerified, BuiltTx, PreviousOuts, WhyNot, AllReady,
      IsFinalised, AggregateVerifies, CanBuild;
    BuildHasInputs(net, utxos, req, changeAddress);
    var tx := BuiltTx(net, utxos, req.destinations, changeAddress, req.feeRate);
    forall i | 0 <= i < |inputs|
      ensures InputVerifies(c, h, net, ps, tx, utxos, i, req.signers, nonces, groupKey, |inputs[i].keySpendSig| == 64)
    {
      VerifiedIsComplete(c, h, OutputKey(c, h, groupKey), sigHashes[i], inputs[i].keySpendSig);
      var s := SessionFor(c, h, sigHashes[i], req.signers, CommitAll(c, req.signers, nonces), groupKey);
      FinalisedVerifies(c, h, ps, s, groupKey, SecretsOf(req.signers, nonces), inputs[i].keySpendSig);
    }
    hide InputVerifies;
  }

  lemma FinalIsSigned(c: Curve, h: Hashes, net: Network, key: Point, unsigned: Tx, utxos: seq<Utxo>,
      sigHashes: seq<Message>, inputs: seq<Input>, tx: Tx)
    requires |inputs| == |utxos| == |sigHashes| == |unsigned.ins| == |tx.ins| && tx.outs == unsigned.outs
    requires forall k | 0 <= k < |utxos| :: unsigned.ins[k].previous == OutPoint(utxos[k].txid, utxos[k].vout)
    requires forall k | 0 <= k < |utxos| :: net.sigHash(unsigned, k, PreviousOuts(utxos)) == Some(sigHashes[k])
    requires forall i | 0 <= i < |inputs| :: OnlyVerified(c, h, key, sigHashes[i], inputs[i].keySpendSig)
    requires forall i | 0 <= i < |inputs| :: |inputs[i].keySpendSig| == 64
    requires forall i | 0 <= i < |inputs| :: tx.ins[i] == TxIn(unsigned.ins[i].previous, [inputs[i].keySpendSig])
    ensures SignedFor(c, h, net, key, unsigned, utxos, tx)
  {
    hide OnlyVerified, VerifySchnorr, PreviousOuts;
    forall i | 0 <= i < |utxos| ensures VerifySchnorr(c, h, key, sigHashes[i], inputs[i].keySpendSig) {
      VerifiedIsComplete(c, h, key, sigHashes[i], inputs[i].keySpendSig);
    }
  }

  lemma BuildConserves(b: BuildResult, tx: Tx, utxos: seq<Utxo>, req: SpendRequest, changeAddress: string)
    requires Conserves(b.totalIn, b.totalOut, b.fee, tx.outs, utxos, req.destinations, changeAddress, req.feeRate)
    ensures SpendConserves(SumValues(utxos), |utxos|, req, changeAddress, tx, b.fee)
  {
    hide SumValues, SumAmounts, SumOuts, EstimatedFee;
  }
}
