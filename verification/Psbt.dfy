/** The PSBT: building the unsigned transaction, collecting partial signatures, and finalising. */
module Psbt {
  import opened Wrappers
  import opened Modular
  import opened Curve
  import opened Bytes
  import opened Signing
  import Frost

  datatype OutPoint = OutPoint(txid: string, vout: uint32)

  datatype TxOut = TxOut(value: int, script: Bytes)

  datatype TxIn = TxIn(previous: OutPoint, witnessStack: seq<Bytes>)

  datatype Tx = Tx(ins: seq<TxIn>, outs: seq<TxOut>)

  datatype Utxo = Utxo(txid: string, vout: uint32, value: int, script: Bytes)

  datatype Recipient = Recipient(address: string, amount: int)

  /** What the libraries answer: whether a txid parses, the script paying to an address, and the
      Taproot sighash of an input. */
  datatype Network = Network(
    validTxid: string -> bool,
    payTo: string -> Option<Bytes>,
    sigHash: (Tx, nat, map<OutPoint, TxOut>) -> Option<Message>)

  datatype Failure =
    | NoInputs | NoRecipients | BadTxid | BadAddress | InsufficientFunds | BadChangeAddress | NoSigHash
    | InputOutOfRange | NothingToAggregate | VerificationFailed | NotSigned

  // ----- Signing and finalising inputs -----

  datatype Input = Input(witnessUtxo: TxOut, internalKey: Bytes, keySpendSig: Bytes, partialSigs: map<uint32, Bytes>)

  /** The scalar read back from a stored partial signature. */
  ghost function StoredScalars(q: Modulus, stored: map<uint32, Bytes>): nat -> int {
    (i: nat) => if i < TWO_32 && i in stored then Mod(q, FromBytes(stored[i])) else 0
  }

  /** The scalar FinalizeInput aggregates from the stored partial signatures. */
  ghost function StoredTotal(q: Modulus, stored: map<uint32, Bytes>): int {
    Frost.SetSum(stored.Keys, StoredScalars(q, stored))
  }

  class Packet {
    var unsignedTx: Tx
    var inputs: seq<Input>
    /** The session in which each set signature was verified. */
    ghost var acceptedIn: map<nat, Session>

    constructor (tx: Tx, ins: seq<Input>)
      requires forall i | 0 <= i < |ins| :: ins[i].keySpendSig == []
      ensures unsignedTx == tx && inputs == ins
      ensures forall c, h :: AllVerified(c, h)
    {
      unsignedTx := tx;
      inputs := ins;
      acceptedIn := map[];
    }

    /** Every signature that is set has passed verification in the session that set it. */
    ghost predicate AllVerified(c: Curve, h: Hashes)
      reads this
    {
      forall i | 0 <= i < |inputs| && inputs[i].keySpendSig != [] ::
        && i in acceptedIn
        && VerifySchnorr(c, h, acceptedIn[i].groupKey, acceptedIn[i].message, inputs[i].keySpendSig)
    }

    method SignInput(c: Curve, h: Hashes, i: int, partial: PartialSignature) returns (r: Result<(), Failure>)
      requires partial.z >= 0
      modifies this`inputs
      ensures r == if 0 <= i < |old(inputs)| then Ok(()) else Err(InputOutOfRange)
      ensures r.Err? ==> inputs == old(inputs)
      ensures r.Ok? ==> inputs == old(inputs)[i := old(inputs)[i].(partialSigs :=
        old(inputs)[i].partialSigs[partial.index := Word(partial.z)])]
      ensures old(AllVerified(c, h)) ==> AllVerified(c, h)
    {
      if i < 0 || i >= |inputs| {
        return Err(InputOutOfRange);
      }
      hide VerifySchnorr;
      var stored := inputs[i].partialSigs[partial.index := Word(partial.z)];
      inputs := inputs[i := inputs[i].(partialSigs := stored)];
      return Ok(());
    }

    /** The ghost result is the order in which the coordinator sorted the commitments. */
    method FinalizeInput(c: Curve, h: Hashes, i: int, s: Session)
      returns (r: Result<(), Failure>, ghost sorted: seq<NonceCommitment>)
      modifies this`inputs, this`acceptedIn
      ensures r == Err(InputOutOfRange) <==> !(0 <= i < |old(inputs)|)
      ensures r == Err(NothingToAggregate) <==> 0 <= i < |old(inputs)| && old(inputs)[i].partialSigs == map[]
      ensures 0 <= i < |old(inputs)| && old(inputs)[i].partialSigs != map[] ==>
        && IsSortOf(sorted, s.commitments)
        && var sig := SignatureOf(c, h, s, sorted, old(inputs)[i].partialSigs);
        && (r.Ok? <==> VerifySchnorr(c, h, s.groupKey, s.message, sig))
        && (r.Ok? ==> inputs == old(inputs)[i := old(inputs)[i].(keySpendSig := sig)])
      ensures r.Err? ==> inputs == old(inputs)
      ensures old(AllVerified(c, h)) ==> AllVerified(c, h)
    {
      hide *;
      if i < 0 || i >= |inputs| {
        return Err(InputOutOfRange), [];
      }
      if inputs[i].partialSigs == map[] {
        return Err(NothingToAggregate), [];
      }
      var sig, order := AggregateStored(c, h, s, inputs[i].partialSigs);
      sorted := order;
      if !VerifySchnorr(c, h, s.groupKey, s.message, sig) {
        return Err(VerificationFailed), sorted;
      }
      SetSignature(c, h, i, s, sig);
      return Ok(()), sorted;
    }

    method SetSignature(c: Curve, h: Hashes, i: nat, ghost s: Session, sig: Bytes)
      requires i < |inputs| && VerifySchnorr(c, h, s.groupKey, s.message, sig)
      modifies this`inputs, this`acceptedIn
      ensures inputs == old(inputs)[i := old(inputs)[i].(keySpendSig := sig)]
      ensures old(AllVerified(c, h)) ==> AllVerified(c, h)
    {
      hide VerifySchnorr;
      inputs := inputs[i := inputs[i].(keySpendSig := sig)];
      acceptedIn := acceptedIn[i := s];
    }

    method IsSigned() returns (signed: bool)
      ensures signed <==> forall i | 0 <= i < |inputs| :: |inputs[i].keySpendSig| == 64
    {
      for i := 0 to |inputs|
        invariant forall j | 0 <= j < i :: |inputs[j].keySpendSig| == 64
      {
        if |inputs[i].keySpendSig| != 64 {
          return false;
        }
      }
      return true;
    }

    method Finalize() returns (r: Result<Tx, Failure>)
      requires |inputs| == |unsignedTx.ins|
      ensures r.Ok? <==> forall i | 0 <= i < |inputs| :: |inputs[i].keySpendSig| == 64
      ensures r.Ok? ==> r.value.outs == unsignedTx.outs && |r.value.ins| == |unsignedTx.ins|
      ensures r.Ok? ==> forall i | 0 <= i < |inputs| ::
        r.value.ins[i] == TxIn(unsignedTx.ins[i].previous, [inputs[i].keySpendSig])
    {
      var signed := IsSigned();
      if !signed {
        return Err(NotSigned);
      }
      var ins := unsignedTx.ins;
      for i := 0 to |inputs|
        invariant |ins| == |unsignedTx.ins|
        invariant forall j | 0 <= j < i :: ins[j] == TxIn(unsignedTx.ins[j].previous, [inputs[j].keySpendSig])
        invariant forall j | i <= j < |ins| :: ins[j] == unsignedTx.ins[j]
      {
        ins := ins[i := ins[i].(witnessStack := [inputs[i].keySpendSig])];
      }
      return Ok(Tx(ins, unsignedTx.outs));
    }
  }

  /** The signature the coordinator computes from what an input has stored. */
  ghost function SignatureOf(c: Curve, h: Hashes, s: Session, sorted: seq<NonceCommitment>,
      stored: map<uint32, Bytes>): Bytes {
    Signature(XOf(NoncePoint(c, h, s.message, sorted, sorted)), Mod(c.q, StoredTotal(c.q, stored)))
  }

  /** Reads the stored partial signatures back and aggregates them. */
  method AggregateStored(c: Curve, h: Hashes, s: Session, stored: map<uint32, Bytes>)
    returns (sig: Bytes, ghost sorted: seq<NonceCommitment>)
    requires stored != map[]
    ensures IsSortOf(sorted, s.commitments) && sig == SignatureOf(c, h, s, sorted, stored)
  {
    hide Mod, NoncePoint, IsSortOf, StoredTotal, Signature;
    var partials := ReadPartials(c.q, stored);
    var r, order := Aggregate(c, h, s, partials);
    sig, sorted := r.value, order;
  }

  lemma SumsOfNothing(f: nat -> int)
    ensures SumZ([]) == 0 == Frost.SetSum({}, f)
  {
  }

  lemma SumZAppend(partials: seq<PartialSignature>, p: PartialSignature)
    ensures SumZ(partials + [p]) == SumZ(partials) + p.z
  {
    assert (partials + [p])[..|partials|] == partials;
  }

  /** The stored partial signatures as a list, in whatever order the map is iterated. */
  method ReadPartials(q: Modulus, stored: map<uint32, Bytes>) returns (partials: seq<PartialSignature>)
    ensures SumZ(partials) == StoredTotal(q, stored)
    ensures partials == [] <==> stored == map[]
  {
    partials := [];
    var pending := stored.Keys;
    ghost var done: set<uint32>, f := {}, StoredScalars(q, stored);
    hide Mod, FromBytes, SumZ, Frost.SetSum;
    SumsOfNothing(f);
    while pending != {}
      invariant pending <= stored.Keys && done == stored.Keys - pending
      invariant SumZ(partials) == Frost.SetSum(done, f)
      invariant partials == [] <==> done == {}
    {
      var j :| j in pending;
      Frost.SetSumRemove(done + {j}, f, j);
      assert done + {j} - {j} == done;
      var partial := PartialSignature(j, Mod(q, FromBytes(stored[j])));
      SumZAppend(partials, partial);
      partials := partials + [partial];
      pending, done := pending - {j}, done + {j};
    }
    assert done == stored.Keys;
  }
}
