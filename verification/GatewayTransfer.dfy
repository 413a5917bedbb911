// gatewayTransfer.ts: the state machine of a transfer through the gateway, from or to a Cosmos chain.
module GatewayTransfers {
  import opened Common
  import opened Batching
  import opened TransferRuns
  import opened TokenTransfers
  import Solana = SolanaRedeem

  /** IbcTransferInfo, by its id. */
  type IbcTransfer = nat

  datatype AttestationId = Message(id: MessageId) | Ibc(transfer: IbcTransfer)

  /** What the network answers while the attestations are gathered. */
  datatype Answers = Answers(
    bridge: Result<()>,                                   // the IBC bridge of Wormchain
    lookupTransfer: TxHash -> Result<seq<IbcTransfer>>,   // IBC transfers of a Cosmos transaction
    lookupMessage: IbcTransfer -> Result<MessageId>,      // the gateway's message for an IBC transfer
    parseMessage: TxHash -> Result<seq<MessageId>>,       // messages of a source transaction
    fetch: VaaFetcher,
    redeemed: Result<bool>,                               // is the VAA redeemed on Wormchain, after all retries?
    transfer: Result<Option<IbcTransfer>>                 // Wormchain's own IBC transfer, after all retries
  )

  /** All transactions are looked up; one failure fails all. */
  function LookupAll(lookup: TxHash -> Result<seq<IbcTransfer>>, txs: seq<TxHash>): Result<seq<IbcTransfer>> {
    if |txs| == 0 then Ok([])
    else
      var first :- lookup(txs[0]);
      var rest :- LookupAll(lookup, txs[1..]);
      Ok(first + rest)
  }

  /** What is found are the transfers of all transactions, in order. */
  lemma {:induction false} LookupFindsAll(lookup: TxHash -> Result<seq<IbcTransfer>>, txs: seq<TxHash>)
    ensures LookupAll(lookup, txs).Ok? <==> forall i | 0 <= i < |txs| :: lookup(txs[i]).Ok?
    ensures LookupAll(lookup, txs).Ok? ==>
              LookupAll(lookup, txs).value == Flatten(seq(|txs|, i requires 0 <= i < |txs| && lookup(txs[i]).Ok? => lookup(txs[i]).value))
  {
    if |txs| > 0 {
      LookupFindsAll(lookup, txs[1..]);
      assert forall i | 0 <= i < |txs[1..]| :: txs[1..][i] == txs[i + 1];
      if LookupAll(lookup, txs).Ok? {
        var all := seq(|txs|, i requires 0 <= i < |txs| && lookup(txs[i]).Ok? => lookup(txs[i]).value);
        var rest := seq(|txs[1..]|, i requires 0 <= i < |txs[1..]| && lookup(txs[1..][i]).Ok? => lookup(txs[1..][i]).value);
        assert all == [lookup(txs[0]).value] + rest;
        Solana.FlattenFirst(lookup(txs[0]).value, rest);
      }
    }
  }

  /** From a Cosmos chain: exactly one IBC transfer, and a VAA unless the transfer stays in Cosmos. */
  ghost predicate CosmosFound(answers: Answers, toGateway: bool, transactions: seq<TxHash>) {
    && LookupAll(answers.lookupTransfer, transactions).Ok?
    && |LookupAll(answers.lookupTransfer, transactions).value| == 1
    && (!toGateway ==>
          var whm := answers.lookupMessage(LookupAll(answers.lookupTransfer, transactions).value[0]);
          whm.Ok? && answers.fetch(whm.value).Ok?)
  }

  /** From elsewhere: the VAA of the first message of the first transaction, redeemed and forwarded by Wormchain. */
  ghost predicate OutsideFound(answers: Answers, transactions: seq<TxHash>) {
    && FirstMessage(answers, transactions).Ok? && answers.fetch(FirstMessage(answers, transactions).value).Ok?
    && answers.redeemed == Ok(true) && answers.transfer.Ok? && answers.transfer.value.Some?
  }

  /** All attestations of a transfer can be gathered. */
  ghost predicate Gathers(answers: Answers, fromGateway: bool, toGateway: bool, transactions: seq<TxHash>) {
    && answers.bridge.Ok?
    && if fromGateway then CosmosFound(answers, toGateway, transactions) else OutsideFound(answers, transactions)
  }

  /** The first message of the first source transaction, if there is one. */
  function FirstMessage(answers: Answers, transactions: seq<TxHash>): Result<MessageId> {
    if |transactions| == 0 then Err(TypeFault)
    else
      var whms := answers.parseMessage(transactions[0]);
      if whms.Err? || |whms.value| == 0 then Err(TypeFault) else Ok(whms.value[0])
  }

  class GatewayTransfer {
    var state: nat
    var transactions: seq<TxHash>
    var vaas: Option<seq<CachedVaa>>
    var ibcTransfers: Option<seq<IbcTransfer>>
    const fromGateway: bool
    const toGateway: bool
    const from: string
    const to: string

    ghost predicate Valid()
      reads this
    {
      && CREATED <= state <= ATTESTED
      && (state == CREATED ==> transactions == [] && vaas.None?)
      && (state == ATTESTED ==> Ready())
    }

    /** A transfer that ends in the gateway has nothing to complete; any other needs its VAAs. */
    predicate Ready()
      reads this
    {
      (fromGateway && toGateway) || (vaas.Some? && |vaas.value| == 1 && AllFetched(vaas.value))
    }

    ghost function Look(net: Network): Snap
      reads this, net
    {
      Snap(state, Ready(), net.log)
    }

    constructor (fromGateway: bool, toGateway: bool, from: string, to: string)
      ensures Valid() && state == CREATED
      ensures this.fromGateway == fromGateway && this.toGateway == toGateway && this.from == from && this.to == to
    {
      this.fromGateway, this.toGateway, this.from, this.to := fromGateway, toGateway, from, to;
      state, transactions, vaas, ibcTransfers := CREATED, [], None, None;
    }

    /** Picks up a transfer whose transactions are known; `Wait` is then called for what can complete. */
    constructor Resume(fromGateway: bool, toGateway: bool, from: string, to: string, transactions: seq<TxHash>)
      ensures Valid() && state == INITIATED && this.transactions == transactions && vaas.None?
      ensures this.fromGateway == fromGateway && this.toGateway == toGateway && this.from == from && this.to == to
    {
      this.fromGateway, this.toGateway, this.from, this.to := fromGateway, toGateway, from, to;
      state, this.transactions, vaas, ibcTransfers := INITIATED, transactions, None, None;
    }

    method InitiateTransfer(net: Network, xfer: Result<Stream>) returns (r: Result<seq<TxHash>>, ghost attempts: seq<Attempt>)
      requires Valid()
      modifies this`state, this`transactions, net
      ensures Valid() && Allowed(old(Look(net)), Initiate, Look(net))
      ensures net.log == old(net.log) + attempts
      ensures old(state) != CREATED || xfer.Err? ==> r.Err? && attempts == []
      ensures r.Err? ==> unchanged(this)
      ensures old(state) == CREATED && r.Err? && xfer.Ok? ==>
                && SentUpTo(attempts, from, Batches(xfer.value.txs))
                && (!Failed(attempts) ==> xfer.value.failure.Some? && Sent(attempts, from, Flushed(xfer.value.txs)))
      ensures r.Ok? ==> state == INITIATED && transactions == r.value == HashesOf(attempts)
                        && xfer.Ok? && Sent(attempts, from, Batches(xfer.value.txs))
    {
      attempts := [];
      if state != CREATED {
        return Err(Invalid("Invalid state transition in `start`")), attempts;
      }
      if xfer.Err? {
        return Err(xfer.error), attempts;
      }
      r, attempts := SendAll(net, from, xfer.value);
      if r.Ok? {
        transactions, state := r.value, INITIATED;
      }
    }

    /** From a Cosmos chain: exactly one IBC transfer, and a VAA unless the transfer stays in Cosmos. */
    method FromCosmos(answers: Answers) returns (r: Result<seq<AttestationId>>)
      requires fromGateway
      modifies this`vaas, this`ibcTransfers
      ensures r.Ok? <==> CosmosFound(answers, toGateway, transactions)
      ensures r.Ok? ==> ibcTransfers == Some(LookupAll(answers.lookupTransfer, transactions).value)
      ensures r.Ok? && !toGateway ==>
                var whm := answers.lookupMessage(ibcTransfers.value[0]).value;
                vaas == Some([CachedVaa(whm, Some(answers.fetch(whm).value))]) && r.value == [Message(whm)]
      ensures r.Err? || toGateway ==> vaas == old(vaas)
      ensures r.Ok? && toGateway ==> r.value == []
    {
      var transfers := LookupAll(answers.lookupTransfer, transactions);
      if transfers.Err? {
        return Err(transfers.error);
      }
      ibcTransfers := Some(transfers.value);
      if |transfers.value| != 1 {
        return Err(Invalid("why?"));
      }
      if toGateway {
        return Ok([]);
      }
      var whm := answers.lookupMessage(transfers.value[0]);
      if whm.Err? {
        return Err(whm.error);
      }
      r := CacheVaa(whm.value, answers.fetch);
    }

    method CacheVaa(whm: MessageId, fetch: VaaFetcher) returns (r: Result<seq<AttestationId>>)
      modifies this`vaas
      ensures r.Ok? <==> fetch(whm).Ok?
      ensures r.Ok? ==> r.value == [Message(whm)] && vaas == Some([CachedVaa(whm, Some(fetch(whm).value))])
      ensures r.Err? ==> vaas == old(vaas)
    {
      var vaa := fetch(whm);
      if vaa.Err? {
        return Err(vaa.error);
      }
      vaas := Some([CachedVaa(whm, Some(vaa.value))]);
      return Ok([Message(whm)]);
    }

    /** From elsewhere: the VAA of the first source transaction, once Wormchain has redeemed and forwarded it. */
    method FromOutside(answers: Answers) returns (r: Result<seq<AttestationId>>)
      requires !fromGateway && ibcTransfers == Some([])
      modifies this`vaas, this`ibcTransfers
      ensures r.Ok? <==> OutsideFound(answers, transactions)
      ensures r.Ok? ==> r.value == [Message(FirstMessage(answers, transactions).value)]
                        && ibcTransfers == Some([answers.transfer.value.value])
      ensures r.Err? ==> ibcTransfers == old(ibcTransfers)
      ensures var whm := FirstMessage(answers, transactions);
              vaas == if whm.Ok? && answers.fetch(whm.value).Ok?
                      then Some([CachedVaa(whm.value, Some(answers.fetch(whm.value).value))]) else old(vaas)
    {
      if |transactions| == 0 {
        return Err(TypeFault);
      }
      var whms := answers.parseMessage(transactions[0]);
      if whms.Err? || |whms.value| == 0 {
        return Err(TypeFault);
      }
      r := CacheVaa(whms.value[0], answers.fetch);
      if r.Err? {
        return;
      }
      if answers.redeemed.Err? || !answers.redeemed.value {
        return Err(Invalid("VAA not found after retries exhausted"));
      }
      if answers.transfer.Err? || answers.transfer.value.None? {
        return Err(Invalid("Wormchain transfer not found after retries exhausted"));
      }
      ibcTransfers := Some(ibcTransfers.value + [answers.transfer.value.value]);
      assert ibcTransfers.value == [answers.transfer.value.value];
    }

    /** Gathers all attestations anew. Whatever fails, VAAs that were there stay. */
    method FetchAttestation(net: Network, answers: Answers) returns (r: Result<seq<AttestationId>>)
      requires Valid()
      modifies this`state, this`vaas, this`ibcTransfers
      ensures Valid() && Allowed(old(Look(net)), Fetch, Look(net))
      ensures old(state) < INITIATED ==> r.Err? && unchanged(this)
      ensures r.Ok? <==> INITIATED <= old(state) <= ATTESTED && Gathers(answers, fromGateway, toGateway, transactions)
      ensures r.Err? ==> state == old(state)
      ensures r.Ok? ==> state == ATTESTED && Ready() && ibcTransfers.Some? && |ibcTransfers.value| == 1
                        && r.value == (if fromGateway && toGateway then [] else [Message(vaas.value[0].id)])
                                      + [Ibc(ibcTransfers.value[0])]
      ensures r.Ok? && fromGateway ==> ibcTransfers == Some(LookupAll(answers.lookupTransfer, transactions).value)
      ensures r.Ok? && !fromGateway ==> ibcTransfers == Some([answers.transfer.value.value])
      ensures r.Ok? && !(fromGateway && toGateway) ==>
                var whm := if fromGateway then answers.lookupMessage(ibcTransfers.value[0]) else FirstMessage(answers, transactions);
                vaas == Some([CachedVaa(whm.value, Some(answers.fetch(whm.value).value))])
      ensures transactions == [] ==> r.Err?
    {
      if state < INITIATED || state > ATTESTED {
        return Err(Invalid("Invalid state transition in `fetchAttestation`"));
      }
      ibcTransfers := Some([]);
      if answers.bridge.Err? {
        return Err(answers.bridge.error);
      }
      if fromGateway {
        r := FromCosmos(answers);
      } else {
        r := FromOutside(answers);
      }
      if r.Err? {
        return;
      }
      assert |ibcTransfers.value| == 1;
      r := Ok(r.value + [Ibc(ibcTransfers.value[0])]);
      state := ATTESTED;
    }

    method CompleteTransfer(net: Network, redeem: Redeemer)
      returns (r: Result<seq<TxHash>>, ghost attempts: seq<Attempt>, ghost k: nat)
      requires Valid()
      modifies net
      ensures Valid() && Allowed(old(Look(net)), Complete, Look(net))
      ensures net.log == old(net.log) + attempts
      ensures state < ATTESTED || toGateway || vaas.None? ==> r.Err? && attempts == []
      ensures r.Ok? ==> vaas.Some? && AllFetched(vaas.value) && HashesOf(attempts) == r.value
                        && Sent(attempts, to, Batches(TxsOf(redeem, |vaas.value|))) && k == |vaas.value|
      ensures state >= ATTESTED && !toGateway && vaas.Some? ==>
                && Ended(attempts, to, false, vaas.value, redeem, k)
                && (r.Ok? <==> k == |vaas.value| && !Failed(attempts))
    {
      attempts, k := [], 0;
      if state < ATTESTED {
        return Err(Invalid("Invalid state transition in `finish`")), attempts, k;
      }
      if toGateway {
        return Err(Invalid("Complete transfer is not necessary for Gateway supported chains")), attempts, k;
      }
      if vaas.None? {
        return Err(Invalid("No VAA details available to redeem")), attempts, k;
      }
      r, attempts, k := RedeemVaas(net, to, false, vaas.value, redeem);
    }
  }

  datatype Origin = FromMessageId | FromTransaction(txid: TxHash)

  /**
   * `from` with a transfer that is under way. Starting from a message id leaves the transfer without
   * transactions, and without transactions no attestation can be gathered: it is always refused.
   */
  method From(net: Network, origin: Origin, fromGateway: bool, toGateway: bool, from: string, to: string, answers: Answers)
    returns (r: Result<GatewayTransfer>)
    ensures r.Ok? ==> r.value.Valid() && fresh(r.value) && r.value.state == ATTESTED && r.value.Ready()
    ensures origin == FromMessageId ==> r.Err?
    ensures origin.FromTransaction? ==> (r.Ok? <==> Gathers(answers, fromGateway, toGateway, [origin.txid]))
  {
    var txns := match origin case FromMessageId => [] case FromTransaction(txid) => [txid];
    var gt := new GatewayTransfer.Resume(fromGateway, toGateway, from, to, txns);
    var attestations := gt.FetchAttestation(net, answers);
    return if attestations.Ok? then Ok(gt) else Err(attestations.error);
  }

  /** Any calls in any order, with any answers of the network. */
  method Drive(t: GatewayTransfer, net: Network, steps: nat) returns (ghost run: seq<Snap>, ghost calls: seq<Call>)
    requires t.Valid()
    modifies t, net
    ensures t.Valid() && IsRun(run, calls) && |calls| == steps
    ensures run[0] == old(t.Look(net)) && run[steps] == t.Look(net)
    ensures ReadyWhenAttested(run)
  {
    run, calls := [t.Look(net)], [];
    for n := 0 to steps
      invariant t.Valid() && IsRun(run, calls) && |calls| == n
      invariant run[0] == old(t.Look(net)) && run[n] == t.Look(net)
      invariant ReadyWhenAttested(run)
    {
      ghost var call := AnyCall(t, net);
      RunGoesOn(run, calls, call, t.Look(net));
      run, calls := run + [t.Look(net)], calls + [call];
    }
  }

  method AnyCall(t: GatewayTransfer, net: Network) returns (ghost call: Call)
    requires t.Valid()
    modifies t, net
    ensures t.Valid() && Allowed(old(t.Look(net)), call, t.Look(net))
  {
    if {
      case true =>
        var xfer: Result<Stream> := *;
        call := Initiate;
        var r, attempts := t.InitiateTransfer(net, xfer);
      case true =>
        var answers: Answers := *;
        call := Fetch;
        var r := t.FetchAttestation(net, answers);
      case true =>
        var redeem: Redeemer := *;
        call := Complete;
        var r, attempts, k := t.CompleteTransfer(net, redeem);
    }
  }
}
