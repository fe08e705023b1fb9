/** Building the unsigned transaction: value arithmetic, change and dust, and per-input metadata. */
module Builder {
  import opened Wrappers
  import opened Bytes
  import opened Signing
  import opened Psbt

  const DUST_THRESHOLD := 546
  const OP_1 := 0x51

  function SumValues(utxos: seq<Utxo>): int {
    if utxos == [] then 0 else SumValues(utxos[..|utxos| - 1]) + utxos[|utxos| - 1].value
  }

  function SumAmounts(recipients: seq<Recipient>): int {
    if recipients == [] then 0 else SumAmounts(recipients[..|recipients| - 1]) + recipients[|recipients| - 1].amount
  }

  function SumOuts(outs: seq<TxOut>): int {
    if outs == [] then 0 else SumOuts(outs[..|outs| - 1]) + outs[|outs| - 1].value
  }

  /** Feerate times the estimated virtual size: one output more than there are recipients. */
  function EstimatedFee(inputs: nat, recipients: nat, feeRate: int): int {
    feeRate * (11 + 58 * inputs + 43 * (recipients + 1))
  }

  /** What is left over for change. */
  function Change(utxos: seq<Utxo>, recipients: seq<Recipient>, feeRate: int): int {
    SumValues(utxos) - SumAmounts(recipients) - EstimatedFee(|utxos|, |recipients|, feeRate)
  }

  function PayTo(net: Network, address: string): Bytes {
    var script := net.payTo(address);
    if script.Some? then script.value else []
  }

  function RecipientOuts(net: Network, recipients: seq<Recipient>): (outs: seq<TxOut>)
    ensures |outs| == |recipients|
    ensures forall k | 0 <= k < |outs| :: outs[k] == TxOut(recipients[k].amount, PayTo(net, recipients[k].address))
  {
    if recipients == [] then [] else
      var last := recipients[|recipients| - 1];
      RecipientOuts(net, recipients[..|recipients| - 1]) + [TxOut(last.amount, PayTo(net, last.address))]
  }

  lemma {:induction false} RecipientOutsSum(net: Network, recipients: seq<Recipient>)
    ensures SumOuts(RecipientOuts(net, recipients)) == SumAmounts(recipients)
  {
    if recipients != [] {
      var n := |recipients| - 1;
      RecipientOutsSum(net, recipients[..n]);
      var outs := RecipientOuts(net, recipients);
      assert outs[..n] == RecipientOuts(net, recipients[..n]);
    }
  }

  predicate HasChange(utxos: seq<Utxo>, recipients: seq<Recipient>, changeAddress: string, feeRate: int) {
    Change(utxos, recipients, feeRate) >= DUST_THRESHOLD && changeAddress != ""
  }

  function SpendInputs(utxos: seq<Utxo>): (ins: seq<TxIn>)
    ensures |ins| == |utxos|
    ensures forall k | 0 <= k < |ins| :: ins[k] == TxIn(OutPoint(utxos[k].txid, utxos[k].vout), [])
  {
    if utxos == [] then [] else
      SpendInputs(utxos[..|utxos| - 1]) + [TxIn(OutPoint(utxos[|utxos| - 1].txid, utxos[|utxos| - 1].vout), [])]
  }

  function PreviousOuts(utxos: seq<Utxo>): map<OutPoint, TxOut> {
    if utxos == [] then map[] else
      var last := utxos[|utxos| - 1];
      PreviousOuts(utxos[..|utxos| - 1])[OutPoint(last.txid, last.vout) := TxOut(last.value, last.script)]
  }

  ghost predicate DifferentOutPoints(utxos: seq<Utxo>) {
    forall i, j | 0 <= i < j < |utxos| ::
      OutPoint(utxos[i].txid, utxos[i].vout) != OutPoint(utxos[j].txid, utxos[j].vout)
  }

  lemma {:induction false} PreviousKeys(utxos: seq<Utxo>, o: OutPoint)
    ensures o in PreviousOuts(utxos) <==> exists k :: 0 <= k < |utxos| && OutPoint(utxos[k].txid, utxos[k].vout) == o
  {
    if utxos != [] {
      var n := |utxos| - 1;
      PreviousKeys(utxos[..n], o);
      if exists k :: 0 <= k < n && OutPoint(utxos[k].txid, utxos[k].vout) == o {
        var k :| 0 <= k < n && OutPoint(utxos[k].txid, utxos[k].vout) == o;
        assert utxos[..n][k] == utxos[k];
      }
    }
  }

  lemma {:induction false} PreviousOutAt(utxos: seq<Utxo>, k: nat)
    requires DifferentOutPoints(utxos) && k < |utxos|
    ensures var o := OutPoint(utxos[k].txid, utxos[k].vout);
      o in PreviousOuts(utxos) && PreviousOuts(utxos)[o] == TxOut(utxos[k].value, utxos[k].script)
  {
    var n := |utxos| - 1;
    if k < n {
      PreviousOutAt(utxos[..n], k);
    }
  }

  /** With different outpoints the map holds exactly each coin's value and script at its outpoint. */
  lemma PreviousOutsAt(utxos: seq<Utxo>)
    requires DifferentOutPoints(utxos)
    ensures forall o :: o in PreviousOuts(utxos) <==>
      exists k :: 0 <= k < |utxos| && OutPoint(utxos[k].txid, utxos[k].vout) == o
    ensures forall k | 0 <= k < |utxos| ::
      && OutPoint(utxos[k].txid, utxos[k].vout) in PreviousOuts(utxos)
      && PreviousOuts(utxos)[OutPoint(utxos[k].txid, utxos[k].vout)] == TxOut(utxos[k].value, utxos[k].script)
  {
    hide PreviousOuts, DifferentOutPoints;
    forall o ensures o in PreviousOuts(utxos) <==>
      exists k :: 0 <= k < |utxos| && OutPoint(utxos[k].txid, utxos[k].vout) == o
    {
      PreviousKeys(utxos, o);
    }
    forall k | 0 <= k < |utxos|
      ensures OutPoint(utxos[k].txid, utxos[k].vout) in PreviousOuts(utxos)
        && PreviousOuts(utxos)[OutPoint(utxos[k].txid, utxos[k].vout)] == TxOut(utxos[k].value, utxos[k].script)
    {
      PreviousOutAt(utxos, k);
    }
  }

  /** The transaction a successful build produces. */
  function BuiltTx(net: Network, utxos: seq<Utxo>, recipients: seq<Recipient>, changeAddress: string,
      feeRate: int): Tx {
    Tx(SpendInputs(utxos), RecipientOuts(net, recipients) +
      if HasChange(utxos, recipients, changeAddress, feeRate)
      then [TxOut(Change(utxos, recipients, feeRate), PayTo(net, changeAddress))] else [])
  }

  /** Inputs, addresses and funds allow the transaction. */
  ghost predicate CanDraft(net: Network, utxos: seq<Utxo>, recipients: seq<Recipient>, changeAddress: string,
      feeRate: int) {
    && utxos != [] && recipients != []
    && (forall k | 0 <= k < |utxos| :: net.validTxid(utxos[k].txid))
    && (forall k | 0 <= k < |recipients| :: net.payTo(recipients[k].address).Some?)
    && Change(utxos, recipients, feeRate) >= 0
    && (HasChange(utxos, recipients, changeAddress, feeRate) ==> net.payTo(changeAddress).Some?)
  }

  /** So do the sighashes of all its inputs. */
  ghost predicate CanBuild(net: Network, utxos: seq<Utxo>, recipients: seq<Recipient>, changeAddress: string,
      feeRate: int) {
    && CanDraft(net, utxos, recipients, changeAddress, feeRate)
    && var tx := BuiltTx(net, utxos, recipients, changeAddress, feeRate);
    && forall k | 0 <= k < |utxos| :: net.sigHash(tx, k, PreviousOuts(utxos)).Some?
  }

  /** Why a build that is not possible fails: the first of these that applies. */
  ghost function WhyNot(net: Network, utxos: seq<Utxo>, recipients: seq<Recipient>, changeAddress: string,
      feeRate: int): Failure {
    if utxos == [] then NoInputs
    else if recipients == [] then NoRecipients
    else if exists k :: 0 <= k < |utxos| && !net.validTxid(utxos[k].txid) then BadTxid
    else if exists k :: 0 <= k < |recipients| && net.payTo(recipients[k].address).None? then BadAddress
    else if Change(utxos, recipients, feeRate) < 0 then InsufficientFunds
    else if HasChange(utxos, recipients, changeAddress, feeRate) && net.payTo(changeAddress).None? then BadChangeAddress
    else NoSigHash
  }

  /** The metadata of an input nobody has signed yet. */
  function FreshInput(u: Utxo): (r: Input)
    ensures r.keySpendSig == [] && r.partialSigs == map[]
  {
    Input(TxOut(u.value, u.script), if |u.script| == 34 && u.script[0] == OP_1 then u.script[2..34] else [], [], map[])
  }

  datatype BuildResult = BuildResult(packet: Packet, sigHashes: seq<Message>, totalIn: int, totalOut: int, fee: int)

  method AddInputs(net: Network, utxos: seq<Utxo>)
    returns (ok: bool, ins: seq<TxIn>, previous: map<OutPoint, TxOut>, total: int)
    ensures ok <==> forall k | 0 <= k < |utxos| :: net.validTxid(utxos[k].txid)
    ensures ok ==> ins == SpendInputs(utxos) && previous == PreviousOuts(utxos) && total == SumValues(utxos)
  {
    ins, previous, total := [], map[], 0;
    for i := 0 to |utxos|
      invariant forall k | 0 <= k < i :: net.validTxid(utxos[k].txid)
      invariant ins == SpendInputs(utxos[..i]) && previous == PreviousOuts(utxos[..i]) && total == SumValues(utxos[..i])
    {
      var u := utxos[i];
      if !net.validTxid(u.txid) {
        return false, ins, previous, total;
      }
      assert utxos[..i + 1][..i] == utxos[..i];
      var outpoint := OutPoint(u.txid, u.vout);
      ins := ins + [TxIn(outpoint, [])];
      previous := previous[outpoint := TxOut(u.value, u.script)];
      total := total + u.value;
    }
    assert utxos[..|utxos|] == utxos;
    ok := true;
  }

  method AddOutputs(net: Network, recipients: seq<Recipient>) returns (ok: bool, outs: seq<TxOut>, total: int)
    ensures ok <==> forall k | 0 <= k < |recipients| :: net.payTo(recipients[k].address).Some?
    ensures ok ==> outs == RecipientOuts(net, recipients) && total == SumAmounts(recipients)
  {
    outs, total := [], 0;
    for i := 0 to |recipients|
      invariant forall k | 0 <= k < i :: net.payTo(recipients[k].address).Some?
      invariant outs == RecipientOuts(net, recipients[..i]) && total == SumAmounts(recipients[..i])
    {
      var script := net.payTo(recipients[i].address);
      if script.None? {
        return false, outs, total;
      }
      assert recipients[..i + 1][..i] == recipients[..i];
      outs := outs + [TxOut(recipients[i].amount, script.value)];
      total := total + recipients[i].amount;
    }
    assert recipients[..|recipients|] == recipients;
    ok := true;
  }

  method ComputeSigHashes(net: Network, tx: Tx, previous: map<OutPoint, TxOut>, n: nat)
    returns (ok: bool, hashes: seq<Message>)
    ensures ok <==> forall k | 0 <= k < n :: net.sigHash(tx, k, previous).Some?
    ensures ok ==> |hashes| == n && forall k | 0 <= k < n :: net.sigHash(tx, k, previous) == Some(hashes[k])
  {
    hashes := [];
    for i := 0 to n
      invariant |hashes| == i && forall k | 0 <= k < i :: net.sigHash(tx, k, previous) == Some(hashes[k])
    {
      var hash := net.sigHash(tx, i, previous);
      if hash.None? {
        return false, hashes;
      }
      hashes := hashes + [hash.value];
    }
    ok := true;
  }

  method FreshInputs(utxos: seq<Utxo>) returns (inputs: seq<Input>)
    ensures |inputs| == |utxos| && forall k | 0 <= k < |utxos| :: inputs[k] == FreshInput(utxos[k])
  {
    inputs := [];
    for i := 0 to |utxos|
      invariant |inputs| == i && forall k | 0 <= k < i :: inputs[k] == FreshInput(utxos[k])
    {
      inputs := inputs + [FreshInput(utxos[i])];
    }
  }

  /** The value arithmetic of a build: nothing is lost, the fee pays for the estimated size, and it
      exceeds the estimate only by change too small to emit. */
  ghost predicate Conserves(totalIn: int, totalOut: int, fee: int, outs: seq<TxOut>, utxos: seq<Utxo>,
      recipients: seq<Recipient>, changeAddress: string, feeRate: int) {
    var estimate := EstimatedFee(|utxos|, |recipients|, feeRate);
    var change := if |outs| == |recipients| + 1 then outs[|recipients|].value else 0;
    && totalIn == SumValues(utxos) && totalOut == SumOuts(outs) && totalIn == totalOut + fee
    && totalOut == SumAmounts(recipients) + change
    && fee >= estimate
    && (changeAddress != "" ==> fee - estimate < DUST_THRESHOLD)
    && (|outs| == |recipients| + 1 ==> fee == estimate && change >= DUST_THRESHOLD)
  }

  lemma ChangeIs(utxos: seq<Utxo>, recipients: seq<Recipient>, changeAddress: string, feeRate: int)
    ensures Change(utxos, recipients, feeRate)
         == SumValues(utxos) - SumAmounts(recipients) - EstimatedFee(|utxos|, |recipients|, feeRate)
    ensures HasChange(utxos, recipients, changeAddress, feeRate)
       <==> Change(utxos, recipients, feeRate) >= DUST_THRESHOLD && changeAddress != ""
  {
    hide SumValues, SumAmounts, EstimatedFee;
  }

  /** The outputs of the built transaction without change, and their sum. */
  lemma WithoutChange(net: Network, utxos: seq<Utxo>, recipients: seq<Recipient>, changeAddress: string, feeRate: int)
    requires Change(utxos, recipients, feeRate) >= 0 && !HasChange(utxos, recipients, changeAddress, feeRate)
    ensures var outs, paid := RecipientOuts(net, recipients), SumAmounts(recipients);
      && outs == BuiltTx(net, utxos, recipients, changeAddress, feeRate).outs
      && Conserves(SumValues(utxos), paid, SumValues(utxos) - paid, outs, utxos, recipients, changeAddress, feeRate)
  {
    hide SumValues, SumAmounts, EstimatedFee, RecipientOuts, SpendInputs, SumOuts;
    RecipientOutsSum(net, recipients);
    assert RecipientOuts(net, recipients) + [] == RecipientOuts(net, recipients);
  }

  /** The same with change. */
  lemma WithChange(net: Network, utxos: seq<Utxo>, recipients: seq<Recipient>, changeAddress: string, feeRate: int,
      out: TxOut)
    requires HasChange(utxos, recipients, changeAddress, feeRate) && net.payTo(changeAddress).Some?
    requires out == TxOut(Change(utxos, recipients, feeRate), net.payTo(changeAddress).value)
    ensures var outs, paid := RecipientOuts(net, recipients) + [out], SumAmounts(recipients) + out.value;
      && outs == BuiltTx(net, utxos, recipients, changeAddress, feeRate).outs
      && Conserves(SumValues(utxos), paid, SumValues(utxos) - paid, outs, utxos, recipients, changeAddress, feeRate)
  {
    AppendOut(RecipientOuts(net, recipients), out);
    hide SumValues, SumAmounts, EstimatedFee, RecipientOuts, SpendInputs, SumOuts;
    RecipientOutsSum(net, recipients);
  }

  lemma AppendOut(outs: seq<TxOut>, out: TxOut)
    ensures SumOuts(outs + [out]) == SumOuts(outs) + out.value
  {
    assert (outs + [out])[..|outs|] == outs;
  }

  /** Adds the change output when there is enough change and an address for it. */
  method AddChange(net: Network, utxos: seq<Utxo>, recipients: seq<Recipient>, changeAddress: string, feeRate: int,
      totalIn: int, paid: int, outs: seq<TxOut>)
    returns (ok: bool, all: seq<TxOut>, totalOut: int)
    requires Change(utxos, recipients, feeRate) >= 0 && outs == RecipientOuts(net, recipients)
    requires totalIn == SumValues(utxos) && paid == SumAmounts(recipients)
    ensures ok <==> (HasChange(utxos, recipients, changeAddress, feeRate) ==> net.payTo(changeAddress).Some?)
    ensures ok ==> all == BuiltTx(net, utxos, recipients, changeAddress, feeRate).outs
    ensures ok ==>
      Conserves(totalIn, totalOut, totalIn - totalOut, all, utxos, recipients, changeAddress, feeRate)
  {
    hide *;
    all, totalOut := outs, paid;
    ChangeIs(utxos, recipients, changeAddress, feeRate);
    var change := totalIn - paid - EstimatedFee(|utxos|, |recipients|, feeRate);
    if change >= DUST_THRESHOLD && changeAddress != "" {
      var script := net.payTo(changeAddress);
      if script.None? {
        return false, outs, totalOut;
      }
      WithChange(net, utxos, recipients, changeAddress, feeRate, TxOut(change, script.value));
      all := outs + [TxOut(change, script.value)];
      totalOut := totalOut + change;
    } else {
      WithoutChange(net, utxos, recipients, changeAddress, feeRate);
    }
    ok := true;
  }

  /** The fee pays, at the fee rate, for every input and output there is; with change for exactly
      these, and with a change address for less than 546 more than one output beyond the recipients'
      costs. */
  ghost predicate FeePays(inputs: nat, recipients: nat, outs: nat, fee: int, changeAddress: string, feeRate: int) {
    && (feeRate >= 0 ==> fee >= feeRate * (11 + 58 * inputs + 43 * outs))
    && (changeAddress != "" ==> fee - feeRate * (11 + 58 * inputs + 43 * (recipients + 1)) < 546)
    && (outs == recipients + 1 ==> fee == feeRate * (11 + 58 * inputs + 43 * outs))
  }

  lemma FeePaysForAll(inputs: nat, recipients: nat, outs: nat, fee: int, changeAddress: string, feeRate: int)
    requires outs <= recipients + 1
    requires fee >= EstimatedFee(inputs, recipients, feeRate)
    requires changeAddress != "" ==> fee - EstimatedFee(inputs, recipients, feeRate) < DUST_THRESHOLD
    requires outs == recipients + 1 ==> fee == EstimatedFee(inputs, recipients, feeRate)
    ensures FeePays(inputs, recipients, outs, fee, changeAddress, feeRate)
  {
    if feeRate >= 0 {
      MoreCostsMore(feeRate, 11 + 58 * inputs + 43 * outs, 11 + 58 * inputs + 43 * (recipients + 1));
    }
  }

  lemma MoreCostsMore(rate: int, a: int, b: int)
    requires rate >= 0 && a <= b
    ensures rate * a <= rate * b
  {
    assert rate * b == rate * a + rate * (b - a);
  }

  /** The metadata of a Taproot coin, whose script is OP_1 and a push of 32 bytes, holds its key; that
      of any other coin holds none. */
  lemma FreshInputKey(u: Utxo)
    ensures FreshInput(u).witnessUtxo == TxOut(u.value, u.script)
    ensures forall push: byte, key: Bytes | |key| == 32 && u.script == [0x51, push] + key ::
      FreshInput(u).internalKey == key
    ensures (|u.script| != 34 || u.script[0] != 0x51) ==> FreshInput(u).internalKey == []
  {
    forall push: byte, key: Bytes | |key| == 32 && u.script == [0x51, push] + key
      ensures FreshInput(u).internalKey == key
    {
      assert u.script[2..34] == key;
    }
  }

  datatype Draft = Draft(tx: Tx, previous: map<OutPoint, TxOut>, totalIn: int, totalOut: int)

  /** The first half of a build: the transaction and its sums. */
  method DraftTx(net: Network, utxos: seq<Utxo>, recipients: seq<Recipient>, changeAddress: string, feeRate: int)
    returns (r: Result<Draft, Failure>)
    ensures r.Ok? <==> CanDraft(net, utxos, recipients, changeAddress, feeRate)
    ensures r.Err? ==> r.error == WhyNot(net, utxos, recipients, changeAddress, feeRate)
    ensures r.Ok? ==> r.value.tx == BuiltTx(net, utxos, recipients, changeAddress, feeRate)
    ensures r.Ok? ==> r.value.previous == PreviousOuts(utxos)
    ensures r.Ok? ==> Conserves(r.value.totalIn, r.value.totalOut, r.value.totalIn - r.value.totalOut, r.value.tx.outs,
      utxos, recipients, changeAddress, feeRate)
  {
    hide Conserves, PreviousOuts, SumValues, SumAmounts, EstimatedFee, RecipientOuts, SpendInputs;
    if utxos == [] {
      return Err(NoInputs);
    }
    if recipients == [] {
      return Err(NoRecipients);
    }
    var insOk, ins, previous, totalIn := AddInputs(net, utxos);
    if !insOk {
      return Err(BadTxid);
    }
    var outsOk, outs, totalOut := AddOutputs(net, recipients);
    if !outsOk {
      return Err(BadAddress);
    }
    if totalIn - totalOut - EstimatedFee(|utxos|, |recipients|, feeRate) < 0 {
      return Err(InsufficientFunds);
    }
    var changeOk, all, spent := AddChange(net, utxos, recipients, changeAddress, feeRate, totalIn, totalOut, outs);
    if !changeOk {
      return Err(BadChangeAddress);
    }
    return Ok(Draft(Tx(ins, all), previous, totalIn, spent));
  }

  method Build(net: Network, utxos: seq<Utxo>, recipients: seq<Recipient>, changeAddress: string, feeRate: int)
    returns (r: Result<BuildResult, Failure>)
    ensures r.Ok? <==> CanBuild(net, utxos, recipients, changeAddress, feeRate)
    ensures r.Err? ==> r.error == WhyNot(net, utxos, recipients, changeAddress, feeRate)
    ensures r.Ok? ==> fresh(r.value.packet)
    ensures r.Ok? ==> r.value.packet.unsignedTx == BuiltTx(net, utxos, recipients, changeAddress, feeRate)
    ensures r.Ok? ==> |r.value.packet.inputs| == |utxos| == |r.value.sigHashes|
    ensures r.Ok? ==> forall k | 0 <= k < |utxos| :: r.value.packet.inputs[k] == FreshInput(utxos[k])
    ensures r.Ok? ==> forall k | 0 <= k < |utxos| ::
      net.sigHash(r.value.packet.unsignedTx, k, PreviousOuts(utxos)) == Some(r.value.sigHashes[k])
    ensures r.Ok? ==> Conserves(r.value.totalIn, r.value.totalOut, r.value.fee, r.value.packet.unsignedTx.outs,
      utxos, recipients, changeAddress, feeRate)
    ensures r.Ok? ==> forall c, h :: r.value.packet.AllVerified(c, h)
    ensures r.Ok? ==>
      FeePays(|utxos|, |recipients|, |r.value.packet.unsignedTx.outs|, r.value.fee, changeAddress, feeRate)
  {
    hide CanDraft, WhyNot, Conserves, BuiltTx, PreviousOuts;
    var draft := DraftTx(net, utxos, recipients, changeAddress, feeRate);
    if draft.Err? {
      return Err(draft.error);
    }
    var tx := draft.value.tx;
    var inputs := FreshInputs(utxos);
    var hashesOk, hashes := ComputeSigHashes(net, tx, draft.value.previous, |utxos|);
    if !hashesOk {
      DraftedFailure(net, utxos, recipients, changeAddress, feeRate);
      return Err(NoSigHash);
    }
    var packet := new Packet(tx, inputs);
    var fee := draft.value.totalIn - draft.value.totalOut;
    DraftPays(net, utxos, recipients, changeAddress, feeRate, draft.value.totalIn, draft.value.totalOut, fee);
    return Ok(BuildResult(packet, hashes, draft.value.totalIn, draft.value.totalOut, fee));
  }

  lemma DraftPays(net: Network, utxos: seq<Utxo>, recipients: seq<Recipient>, changeAddress: string, feeRate: int,
      totalIn: int, totalOut: int, fee: int)
    requires Conserves(totalIn, totalOut, fee, BuiltTx(net, utxos, recipients, changeAddress, feeRate).outs, utxos,
      recipients, changeAddress, feeRate)
    ensures FeePays(|utxos|, |recipients|, |BuiltTx(net, utxos, recipients, changeAddress, feeRate).outs|, fee,
      changeAddress, feeRate)
  {
    hide SumValues, SumAmounts, SumOuts, EstimatedFee, Change, PayTo, FeePays, HasChange;
    FeePaysForAll(|utxos|, |recipients|, |BuiltTx(net, utxos, recipients, changeAddress, feeRate).outs|, fee,
      changeAddress, feeRate);
  }

  /** A transaction that can be drafted fails for want of a sighash only. */
  lemma DraftedFailure(net: Network, utxos: seq<Utxo>, recipients: seq<Recipient>, changeAddress: string, feeRate: int)
    requires CanDraft(net, utxos, recipients, changeAddress, feeRate)
    ensures WhyNot(net, utxos, recipients, changeAddress, feeRate) == NoSigHash
  {
  }
}
