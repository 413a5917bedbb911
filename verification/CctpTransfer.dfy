// cctpTransfer.ts: the state machine of a USDC transfer over Circle's bridge, attested by Circle or, if it
// is automatic, by a Wormhole VAA.
module CctpTransfers {
  import opened Common
  import opened Batching
  import opened TransferRuns
  import opened TokenTransfers

  /** CircleMessageId and its attestation, once there is one. */
  datatype CachedAttestation = CachedAttestation(id: nat, attestation: Option<nat>)

  datatype AttestationId = Message(id: MessageId) | Circle(circleId: nat)

  predicate AllAttested(cached: seq<CachedAttestation>) {
    forall i | 0 <= i < |cached| :: cached[i].attestation.Some?
  }

  /** The batches of transfers that are flushed one by one. */
  function CircleBatches(redeem: Redeemer, n: nat): seq<seq<Tx>> {
    if n == 0 then []
    else CircleBatches(redeem, n - 1) + match redeem(n - 1) case Ok(xfer) => Batches(xfer.txs) case Err(_) => []
  }

  lemma {:induction false} CircleBatchesPrefix(redeem: Redeemer, m: nat, n: nat)
    requires m <= n
    ensures IsPrefix(CircleBatches(redeem, m), CircleBatches(redeem, n))
  {
    if m < n {
      CircleBatchesPrefix(redeem, m, n - 1);
    }
  }

  /** The hashes that completeTransfer returns: those of the batches that a non-parallelizable transaction ended. */
  function ReturnedHashes(attempts: seq<Attempt>): seq<TxHash> {
    if |attempts| == 0 then []
    else
      var last := attempts[|attempts| - 1];
      ReturnedHashes(attempts[..|attempts| - 1])
      + if EndsOnce(last.batch) && last.hashes.Some? then last.hashes.value else []
  }

  lemma {:induction false} ReturnedAppend(a: seq<Attempt>, b: seq<Attempt>)
    ensures ReturnedHashes(a + b) == ReturnedHashes(a) + ReturnedHashes(b)
  {
    if |b| == 0 {
      assert a + b == a;
    } else {
      assert (a + b)[..|a + b| - 1] == a + b[..|b| - 1];
      ReturnedAppend(a, b[..|b| - 1]);
    }
  }

  /** An attempt whose hashes are not among those returned. */
  predicate Lost(attempt: Attempt) {
    !EndsOnce(attempt.batch) && attempt.hashes.Some? && attempt.hashes.value != []
  }

  /** All hashes are returned just if no batch of only parallelizable transactions was sent for any. */
  lemma {:induction false} AllReturnedJustIfNoneLost(attempts: seq<Attempt>)
    ensures |ReturnedHashes(attempts)| <= |HashesOf(attempts)|
    ensures ReturnedHashes(attempts) == HashesOf(attempts) <==> forall i | 0 <= i < |attempts| :: !Lost(attempts[i])
  {
    if |attempts| > 0 {
      var front, last := attempts[..|attempts| - 1], attempts[|attempts| - 1];
      AllReturnedJustIfNoneLost(front);
      assert forall i | 0 <= i < |front| :: attempts[i] == front[i];
      if Lost(last) {
        assert |ReturnedHashes(attempts)| < |HashesOf(attempts)|;
      } else {
        SameSuffix(ReturnedHashes(front), HashesOf(front), if last.hashes.Some? then last.hashes.value else []);
      }
    }
  }

  lemma SameSuffix(a: seq<TxHash>, b: seq<TxHash>, c: seq<TxHash>)
    requires |a| <= |b|
    ensures a + c == b + c <==> a == b
  {
    if a + c == b + c {
      assert |a| == |b|;
      assert (a + c)[..|a|] == a && (b + c)[..|b|] == b;
    }
  }

  /** The last transaction of the generator flushes the batch, so that nothing is left for the flush behind the loop. */
  predicate EndsFlushed(xfer: Result<Stream>) {
    xfer.Ok? && |xfer.value.txs| > 0 ==> !xfer.value.txs[|xfer.value.txs| - 1].parallelizable
  }

  ghost predicate AllEndFlushed(redeem: Redeemer, n: nat) {
    forall k: nat | k < n :: EndsFlushed(redeem(k))
  }

  predicate AllEndOnce(batches: seq<seq<Tx>>) {
    forall i | 0 <= i < |batches| :: EndsOnce(batches[i])
  }

  lemma StreamEndsOnce(txs: seq<Tx>)
    ensures AllEndOnce(Batches(txs)) <==> |txs| == 0 || !txs[|txs| - 1].parallelizable
  {
    FlushedEndOnce(txs);
    if Pending(txs) != [] {
      var batches := Batches(txs);
      assert batches[|batches| - 1] == Pending(txs);
      assert !EndsOnce(Pending(txs));
    }
  }

  lemma {:induction false} CircleBatchesEndOnce(redeem: Redeemer, n: nat)
    ensures AllEndOnce(CircleBatches(redeem, n)) <==> AllEndFlushed(redeem, n)
  {
    if n > 0 {
      CircleBatchesEndOnce(redeem, n - 1);
      var xfer := redeem(n - 1);
      var last := match xfer case Ok(stream) => Batches(stream.txs) case Err(_) => [];
      if xfer.Ok? {
        StreamEndsOnce(xfer.value.txs);
      }
      BothEndOnce(CircleBatches(redeem, n - 1), last);
      assert AllEndFlushed(redeem, n) <==> AllEndFlushed(redeem, n - 1) && EndsFlushed(redeem(n - 1));
    }
  }

  lemma BothEndOnce(a: seq<seq<Tx>>, b: seq<seq<Tx>>)
    ensures AllEndOnce(a + b) <==> AllEndOnce(a) && AllEndOnce(b)
  {
    if AllEndOnce(a + b) {
      assert forall i | 0 <= i < |a| :: a[i] == (a + b)[i];
      assert forall i | 0 <= i < |b| :: b[i] == (a + b)[|a| + i];
    }
  }

  /**
   * Redeeming `n` attestations returns all hashes if every generator ends with a transaction that is not
   * parallelizable. If one does not, and every send returns some hash, hashes are missing.
   */
  lemma AllReturnedJustIfFlushed(redeem: Redeemer, n: nat, attempts: seq<Attempt>, to: string)
    requires Sent(attempts, to, CircleBatches(redeem, n))
    ensures AllEndFlushed(redeem, n) ==> ReturnedHashes(attempts) == HashesOf(attempts)
    ensures (forall i | 0 <= i < |attempts| :: attempts[i].hashes.value != []) ==>
              (ReturnedHashes(attempts) == HashesOf(attempts) <==> AllEndFlushed(redeem, n))
  {
    CircleBatchesEndOnce(redeem, n);
    AllReturnedJustIfNoneLost(attempts);
    if AllEndFlushed(redeem, n) {
      assert forall i | 0 <= i < |attempts| :: EndsOnce(attempts[i].batch);
    } else {
      var i :| 0 <= i < |CircleBatches(redeem, n)| && !EndsOnce(CircleBatches(redeem, n)[i]);
      assert attempts[i].hashes.value != [] ==> Lost(attempts[i]);
    }
  }

  /** One parallelizable transaction redeems the message. */
  const PARALLEL := Tx([Plain(0)], "CircleBridge.Redeem", true)

  const REDEEM_PARALLEL := (k: nat) => Ok(Stream([PARALLEL], None))

  /** It is sent, but its hash 7 is not returned. */
  lemma HashGetsLost(to: string)
    ensures var attempts := [Attempt(to, [PARALLEL], Some([7]))];
            && Sent(attempts, to, CircleBatches(REDEEM_PARALLEL, 1))
            && HashesOf(attempts) == [7] && ReturnedHashes(attempts) == []
  {
    var txs, none: seq<Tx> := [PARALLEL], [];
    assert txs[..0] == none && none + [PARALLEL] == txs;
    assert Flushed(none) == [] && Pending(none) == none;
    assert Flushed(txs) == [] && Pending(txs) == txs && Batches(txs) == [txs];
    assert CircleBatches(REDEEM_PARALLEL, 0) == [] && CircleBatches(REDEEM_PARALLEL, 1) == [txs];
    var attempts := [Attempt(to, txs, Some([7]))];
    assert attempts[..0] == [] && HashesOf(attempts[..0]) == [] && ReturnedHashes(attempts[..0]) == [];
  }

  // ---- Circle's attestations --------------------------------------------------------------

  type Attester = nat -> Result<Option<nat>>

  function AttestOne(cached: CachedAttestation, attest: Attester): Result<CachedAttestation> {
    if cached.attestation.Some? then Ok(cached)
    else
      match attest(cached.id)
      case Ok(Some(attestation)) => Ok(cached.(attestation := Some(attestation)))
      case _ => Err(Invalid("No attestation available after retries exhausted"))
  }

  function Attesting(attest: Attester): CachedAttestation -> Result<CachedAttestation> {
    (cached: CachedAttestation) => AttestOne(cached, attest)
  }

  /** The cache that the attestations are fetched for: what is there, or the message of the last transaction. */
  function MessagesToAttest(cached: Option<seq<CachedAttestation>>, txids: Option<seq<TxHash>>, details: Result<nat>)
    : Result<seq<CachedAttestation>>
  {
    if cached.Some? && |cached.value| > 0 then Ok(cached.value)
    else if txids.None? then Err(Invalid("No circle attestations or transactions to fetch"))
    else
      var id :- details;
      Ok([CachedAttestation(id, None)])
  }

  /** Attesting keeps ids and what is attested; it is complete just if no needed attestation fails. */
  lemma {:induction false} AttestingKeeps(cached: seq<CachedAttestation>, attest: Attester)
    ensures var after := InOrder(cached, Attesting(attest));
            && |after| == |cached|
            && (forall i | 0 <= i < |cached| ::
                  after[i].id == cached[i].id && (cached[i].attestation.Some? ==> after[i] == cached[i]))
            && (AllAttested(after) <==> forall i | 0 <= i < |cached| :: AttestOne(cached[i], attest).Ok?)
  {
    if |cached| > 0 && AttestOne(cached[0], attest).Ok? {
      AttestingKeeps(cached[1..], attest);
      var after, rest := InOrder(cached, Attesting(attest)), InOrder(cached[1..], Attesting(attest));
      assert after == [AttestOne(cached[0], attest).value] + rest;
      assert forall i | 0 < i < |cached| :: cached[i] == cached[1..][i - 1] && after[i] == rest[i - 1];
      assert forall i | 0 <= i < |rest| :: after[i + 1] == rest[i];
      assert forall i | 0 <= i < |cached[1..]| :: cached[i + 1] == cached[1..][i];
    }
  }

  class CCTPTransfer {
    var state: nat
    var txids: Option<seq<TxHash>>
    var circleAttestations: Option<seq<CachedAttestation>>
    var vaas: Option<seq<CachedVaa>>
    const automatic: bool
    const from: string
    const to: string

    ghost predicate Valid()
      reads this
    {
      && CREATED <= state <= ATTESTED
      && (state == CREATED ==> txids.None? && circleAttestations.None? && vaas.None?)
      && (state == ATTESTED ==> Ready())
    }

    /** An automatic transfer needs its VAAs, any other one Circle's attestations. */
    predicate Ready()
      reads this
    {
      if automatic then vaas.Some? && |vaas.value| > 0 && AllFetched(vaas.value)
      else circleAttestations.Some? && |circleAttestations.value| > 0 && AllAttested(circleAttestations.value)
    }

    ghost function Look(net: Network): Snap
      reads this, net
    {
      Snap(state, Ready(), net.log)
    }

    /** `from` with the details of a new transfer. */
    constructor (automatic: bool, from: string, to: string)
      ensures Valid() && state == CREATED
      ensures this.automatic == automatic && this.from == from && this.to == to
    {
      this.automatic, this.from, this.to := automatic, from, to;
      state, txids, circleAttestations, vaas := CREATED, None, None, None;
    }

    /** fromIdentifier and fromTransaction, before `from` has set the state and fetched the attestation. */
    constructor Found(automatic: bool, from: string, to: string, txids: Option<seq<TxHash>>,
                      circleAttestations: Option<seq<CachedAttestation>>, vaas: Option<seq<CachedVaa>>)
      ensures state == ATTESTED && this.txids == txids
      ensures this.circleAttestations == circleAttestations && this.vaas == vaas
      ensures this.automatic == automatic && this.from == from && this.to == to
    {
      this.automatic, this.from, this.to := automatic, from, to;
      state, this.txids, this.circleAttestations, this.vaas := ATTESTED, txids, circleAttestations, vaas;
    }

    method InitiateTransfer(net: Network, xfer: Result<Stream>) returns (r: Result<seq<TxHash>>, ghost attempts: seq<Attempt>)
      requires Valid()
      modifies this`state, this`txids, net
      ensures Valid() && Allowed(old(Look(net)), Initiate, Look(net))
      ensures net.log == old(net.log) + attempts
      ensures old(state) != CREATED || xfer.Err? ==> r.Err? && attempts == []
      ensures r.Err? ==> unchanged(this)
      ensures old(state) == CREATED && r.Err? && xfer.Ok? ==>
                && SentUpTo(attempts, from, Batches(xfer.value.txs))
                && (!Failed(attempts) ==> xfer.value.failure.Some? && Sent(attempts, from, Flushed(xfer.value.txs)))
      ensures r.Ok? ==> state == INITIATED && txids == Some(r.value) && r.value == HashesOf(attempts)
                        && xfer.Ok? && Sent(attempts, from, Batches(xfer.value.txs))
    {
      attempts := [];
      if state != CREATED {
        return Err(Invalid("Invalid state transition in `start`")), attempts;
      }
      if xfer.Err? {
        return Err(xfer.error), attempts;
      }
      r, attempts := SendAll(net, from, xfer.value);
      if r.Ok? {
        txids, state := Some(r.value), INITIATED;
      }
    }

    method FetchWormholeAttestation(fetch: VaaFetcher) returns (r: Result<seq<AttestationId>>)
      modifies this`vaas
      ensures r.Ok? ==> vaas.Some? && |vaas.value| > 0 && AllFetched(vaas.value) && |r.value| == |vaas.value|
                        && forall i | 0 <= i < |r.value| :: r.value[i] == Message(vaas.value[i].id)
      ensures vaas == if old(vaas).Some? then Some(FetchInOrder(old(vaas).value, fetch)) else None
      ensures r.Ok? <==> && old(vaas).Some? && |old(vaas).value| > 0
                         && forall i | 0 <= i < |old(vaas).value| :: FetchOne(old(vaas).value[i], fetch).Ok?
    {
      if vaas.None? || |vaas.value| == 0 {
        return Err(Invalid("No VAA details available"));
      }
      var cached := vaas.value;
      var cache := new CachedVaa[|cached|](i requires 0 <= i < |cached| => cached[i]);
      assert cache[..] == cached;
      var fetched := FetchMissing(cache, fetch);
      vaas := Some(cache[..]);
      FetchKeeps(cached, fetch);
      if fetched.Err? {
        return Err(fetched.error);
      }
      var done := vaas.value;
      return Ok(seq(|done|, i requires 0 <= i < |done| => Message(done[i].id)));
    }

    /** Looks up Circle's message in the last source transaction, if there is none yet, and its attestation. */
    method FetchCircleAttestation(details: Result<nat>, attest: Attester) returns (r: Result<seq<AttestationId>>)
      modifies this`circleAttestations
      ensures var start := MessagesToAttest(old(circleAttestations), txids, details);
              && circleAttestations == (if start.Ok? then Some(InOrder(start.value, Attesting(attest))) else old(circleAttestations))
              && (r.Ok? <==> start.Ok? && forall i | 0 <= i < |start.value| :: AttestOne(start.value[i], attest).Ok?)
      ensures r.Ok? ==> circleAttestations.Some? && |circleAttestations.value| > 0
                        && AllAttested(circleAttestations.value) && |r.value| == |circleAttestations.value|
                        && forall i | 0 <= i < |r.value| :: r.value[i] == Circle(circleAttestations.value[i].id)
    {
      if circleAttestations.None? || |circleAttestations.value| == 0 {
        if txids.None? {
          return Err(Invalid("No circle attestations or transactions to fetch"));
        }
        if details.Err? {
          return Err(details.error);
        }
        circleAttestations := Some([CachedAttestation(details.value, None)]);
      }
      ghost var start := circleAttestations.value;
      AttestingKeeps(start, attest);
      var attested := AttestMissing(attest);
      if attested.Err? {
        return Err(attested.error);
      }
      var done := circleAttestations.value;
      return Ok(seq(|done|, i requires 0 <= i < |done| => Circle(done[i].id)));
    }

    /** The loop over the cache, in place. */
    method AttestMissing(attest: Attester) returns (r: Result<()>)
      requires circleAttestations.Some?
      modifies this`circleAttestations
      ensures circleAttestations == Some(InOrder(old(circleAttestations).value, Attesting(attest)))
      ensures r.Ok? <==> AllAttested(circleAttestations.value)
    {
      ghost var start := circleAttestations.value;
      for idx := 0 to |circleAttestations.value|
        invariant circleAttestations.Some? && |circleAttestations.value| == |start|
        invariant forall j | 0 <= j < idx :: AttestOne(start[j], attest) == Ok(circleAttestations.value[j])
        invariant forall j | idx <= j < |start| :: circleAttestations.value[j] == start[j]
      {
        var ca := circleAttestations.value[idx];
        if ca.attestation.None? {
          var attestation := attest(ca.id);
          if attestation.Err? || attestation.value.None? {
            InOrderStops(start, Attesting(attest), circleAttestations.value, idx);
            return Err(Invalid("No attestation available after retries exhausted"));
          }
          circleAttestations := Some(circleAttestations.value[idx := ca.(attestation := attestation.value)]);
        }
      }
      AllInOrder(start, Attesting(attest), circleAttestations.value);
      return Ok(());
    }

    /**
     * Fetches what the kind of transfer needs. An automatic transfer that was initiated here has no VAA
     * ids and gets none, so it can never be attested.
     */
    method FetchAttestation(net: Network, fetch: VaaFetcher, details: Result<nat>, attest: Attester)
      returns (r: Result<seq<AttestationId>>)
      requires CREATED <= state <= ATTESTED
      modifies this`state, this`vaas, this`circleAttestations
      ensures old(Valid()) ==> Valid() && Allowed(old(Look(net)), Fetch, Look(net))
      ensures r.Ok? ==> state == ATTESTED && Ready() && Valid()
      ensures r.Err? ==> state == old(state)
      ensures old(state) < INITIATED ==> r.Err? && unchanged(this)
      ensures automatic && old(vaas).None? ==> r.Err? && vaas.None?
      ensures if automatic then circleAttestations == old(circleAttestations) else vaas == old(vaas)
      ensures INITIATED <= old(state) <= ATTESTED && automatic && old(vaas).Some? ==>
                vaas == Some(FetchInOrder(old(vaas).value, fetch))
      ensures INITIATED <= old(state) <= ATTESTED && !automatic ==>
                var start := MessagesToAttest(old(circleAttestations), txids, details);
                circleAttestations == if start.Ok? then Some(InOrder(start.value, Attesting(attest))) else old(circleAttestations)
      ensures !automatic && old(circleAttestations).None? && txids.None? ==> r.Err?
      ensures INITIATED <= old(state) <= ATTESTED && automatic ==>
                (r.Ok? <==> && old(vaas).Some? && |old(vaas).value| > 0
                            && forall i | 0 <= i < |old(vaas).value| :: FetchOne(old(vaas).value[i], fetch).Ok?)
      ensures INITIATED <= old(state) <= ATTESTED && !automatic ==>
                var start := MessagesToAttest(old(circleAttestations), txids, details);
                (r.Ok? <==> start.Ok? && forall i | 0 <= i < |start.value| :: AttestOne(start.value[i], attest).Ok?)
    {
      if state < INITIATED || state > ATTESTED {
        return Err(Invalid("Invalid state transition in `fetchAttestation`"));
      }
      if automatic {
        r := FetchWormholeAttestation(fetch);
      } else {
        r := FetchCircleAttestation(details, attest);
      }
      if r.Ok? {
        state := ATTESTED;
      }
    }

    /** Redeems Circle's messages one after the other. For automatic transfers the source has no way to do it. */
    method CompleteTransfer(net: Network, redeem: Redeemer)
      returns (r: Result<seq<TxHash>>, ghost attempts: seq<Attempt>, ghost k: nat)
      requires Valid()
      modifies net
      ensures Valid() && Allowed(old(Look(net)), Complete, Look(net))
      ensures net.log == old(net.log) + attempts
      ensures state < ATTESTED || automatic ==> r.Err? && attempts == []
      ensures r.Ok? ==> circleAttestations.Some? && AllAttested(circleAttestations.value) && k == |circleAttestations.value|
                        && Sent(attempts, to, CircleBatches(redeem, k)) && r.value == ReturnedHashes(attempts)
      ensures r.Ok? && AllEndFlushed(redeem, k) ==> r.value == HashesOf(attempts)
      ensures r.Ok? && (forall i | 0 <= i < |attempts| :: attempts[i].hashes.value != []) ==>
                (r.value == HashesOf(attempts) <==> AllEndFlushed(redeem, k))
      ensures state >= ATTESTED && !automatic ==>
                && EndedAtAttestation(attempts, to, circleAttestations.value, redeem, k)
                && (r.Ok? <==> k == |circleAttestations.value| && !Failed(attempts))
    {
      attempts, k := [], 0;
      if state < ATTESTED {
        return Err(Invalid("Invalid state transition in `finish`")), attempts, k;
      }
      if automatic {
        return Err(Invalid("No method to redeem auto circle bridge tx (yet)")), attempts, k;
      }
      r, attempts, k := RedeemCircle(net, to, circleAttestations.value, redeem);
      if r.Ok? {
        AllReturnedJustIfFlushed(redeem, k, attempts, to);
      }
    }
  }

  /**
   * The loop has ended at attestation `k`, or after them all: everything before has been through it, and of
   * attestation `k` no more than its batches, and nothing if it is missing. Unless signing or sending the last batch
   * failed, it is missing or its generator throws.
   */
  ghost predicate EndedAtAttestation(attempts: seq<Attempt>, to: string, cached: seq<CachedAttestation>, redeem: Redeemer, k: nat) {
    && k <= |cached| && RanThrough(redeem, k)
    && (forall j | 0 <= j < k :: cached[j].attestation.Some?)
    && Began(attempts, to, CircleBatches(redeem, k))
    && SentUpTo(attempts, to, if k < |cached| then CircleBatches(redeem, k + 1) else CircleBatches(redeem, k))
    && (k < |cached| && cached[k].attestation.None? ==> Sent(attempts, to, CircleBatches(redeem, k)))
    && (k < |cached| && cached[k].attestation.Some? && !Failed(attempts) ==>
          Throws(redeem, k) && Sent(attempts, to, CircleBatches(redeem, k) + FlushedOf(redeem, k)))
    && (k == |cached| && !Failed(attempts) ==> Sent(attempts, to, CircleBatches(redeem, k)))
  }

  /** What the generator for attestation `k` flushes before it ends or throws. */
  function FlushedOf(redeem: Redeemer, k: nat): seq<seq<Tx>> {
    match redeem(k)
    case Ok(xfer) => Flushed(xfer.txs)
    case Err(_) => []
  }

  /** The loop of completeTransfer. The hashes of a last flush go to a shadowing variable and get lost. */
  method RedeemCircle(net: Network, to: string, cached: seq<CachedAttestation>, redeem: Redeemer)
    returns (r: Result<seq<TxHash>>, ghost attempts: seq<Attempt>, ghost k: nat)
    modifies net
    ensures net.log == old(net.log) + attempts
    ensures r.Ok? ==> AllAttested(cached) && k == |cached| && Sent(attempts, to, CircleBatches(redeem, k))
                      && r.value == ReturnedHashes(attempts)
    ensures EndedAtAttestation(attempts, to, cached, redeem, k)
    ensures r.Ok? <==> k == |cached| && !Failed(attempts)
  {
    var txHashes: seq<TxHash> := [];
    attempts, k := [], 0;
    for i := 0 to |cached|
      invariant net.log == old(net.log) + attempts && k == i
      invariant forall j | 0 <= j < i :: cached[j].attestation.Some?
      invariant Redeemed(to, redeem, i, txHashes, attempts)
    {
      r, attempts := RedeemAttested(net, to, cached, redeem, i, txHashes, old(net.log), attempts);
      if r.Err? {
        return r, attempts, k;
      }
      txHashes, k := r.value, i + 1;
    }
    AllRedeemed(attempts, to, cached, redeem);
    SentDidNotFail(attempts, to, CircleBatches(redeem, |cached|));
    return Ok(txHashes), attempts, k;
  }

  /** `k` attestations have been redeemed. */
  ghost predicate Redeemed(to: string, redeem: Redeemer, k: nat, txHashes: seq<TxHash>, sent: seq<Attempt>) {
    RanThrough(redeem, k) && Sent(sent, to, CircleBatches(redeem, k)) && txHashes == ReturnedHashes(sent)
  }

  method RedeemAttested(net: Network, to: string, cached: seq<CachedAttestation>, redeem: Redeemer, k: nat,
                        txHashes: seq<TxHash>, ghost log: seq<Attempt>, ghost sent: seq<Attempt>)
    returns (r: Result<seq<TxHash>>, ghost attempts: seq<Attempt>)
    requires net.log == log + sent
    requires k < |cached| && (forall j | 0 <= j < k :: cached[j].attestation.Some?) && Redeemed(to, redeem, k, txHashes, sent)
    modifies net
    ensures net.log == log + attempts
    ensures r.Ok? ==> cached[k].attestation.Some? && Redeemed(to, redeem, k + 1, r.value, attempts)
    ensures r.Err? ==> EndedAtAttestation(attempts, to, cached, redeem, k)
  {
    if cached[k].attestation.None? {
      NotAttested(sent, to, cached, redeem, k);
      return Err(Invalid("No Circle Attestation")), sent;
    }
    r, attempts := RedeemOne(net, to, redeem, k, log, sent);
    if r.Err? {
      BrokenAtAttestation(sent, attempts, to, cached, redeem, k);
    } else {
      r := Ok(txHashes + r.value);
    }
  }

  lemma NotAttested(sent: seq<Attempt>, to: string, cached: seq<CachedAttestation>, redeem: Redeemer, k: nat)
    requires k < |cached| && RanThrough(redeem, k) && Sent(sent, to, CircleBatches(redeem, k))
    requires (forall j | 0 <= j < k :: cached[j].attestation.Some?) && cached[k].attestation.None?
    ensures EndedAtAttestation(sent, to, cached, redeem, k)
  {
    CircleBatchesPrefix(redeem, k, k + 1);
    BeganBefore(sent, to, CircleBatches(redeem, k), CircleBatches(redeem, k + 1));
  }

  /** The generator for attestation `k` has failed, or one of its sends has. */
  lemma BrokenAtAttestation(sent: seq<Attempt>, attempts: seq<Attempt>, to: string, cached: seq<CachedAttestation>,
                            redeem: Redeemer, k: nat)
    requires k < |cached| && RanThrough(redeem, k) && Sent(sent, to, CircleBatches(redeem, k))
    requires forall j | 0 <= j <= k :: cached[j].attestation.Some?
    requires IsPrefix(sent, attempts) && SentUpTo(attempts, to, CircleBatches(redeem, k + 1))
    requires !Failed(attempts) ==> Throws(redeem, k) && Sent(attempts, to, CircleBatches(redeem, k) + FlushedOf(redeem, k))
    ensures EndedAtAttestation(attempts, to, cached, redeem, k)
  {
  }

  lemma AllRedeemed(attempts: seq<Attempt>, to: string, cached: seq<CachedAttestation>, redeem: Redeemer)
    requires RanThrough(redeem, |cached|) && Sent(attempts, to, CircleBatches(redeem, |cached|))
    requires forall j | 0 <= j < |cached| :: cached[j].attestation.Some?
    ensures EndedAtAttestation(attempts, to, cached, redeem, |cached|)
  {
    BeganBefore(attempts, to, CircleBatches(redeem, |cached|), CircleBatches(redeem, |cached|));
  }

  lemma BeganBefore(sent: seq<Attempt>, to: string, batches: seq<seq<Tx>>, all: seq<seq<Tx>>)
    requires Sent(sent, to, batches) && IsPrefix(batches, all)
    ensures Began(sent, to, batches) && SentUpTo(sent, to, all)
  {
    SentIsUpTo(sent, to, batches);
    SentUpToPrefix(sent, to, batches, all);
  }

  /** One attestation of the loop, after `sent`. */
  method RedeemOne(net: Network, to: string, redeem: Redeemer, k: nat, ghost log: seq<Attempt>, ghost sent: seq<Attempt>)
    returns (r: Result<seq<TxHash>>, ghost attempts: seq<Attempt>)
    requires net.log == log + sent && Sent(sent, to, CircleBatches(redeem, k))
    modifies net
    ensures net.log == log + attempts && IsPrefix(sent, attempts)
    ensures r.Ok? ==> && redeem(k).Ok? && redeem(k).value.failure.None?
                      && Sent(attempts, to, CircleBatches(redeem, k + 1))
                      && ReturnedHashes(attempts) == ReturnedHashes(sent) + r.value
    ensures r.Err? ==> SentUpTo(attempts, to, CircleBatches(redeem, k + 1))
    ensures r.Err? && !Failed(attempts) ==>
              Throws(redeem, k) && Sent(attempts, to, CircleBatches(redeem, k) + FlushedOf(redeem, k))
  {
    var xfer := redeem(k);
    if xfer.Err? {
      CircleBatchesPrefix(redeem, k, k + 1);
      BeganBefore(sent, to, CircleBatches(redeem, k), CircleBatches(redeem, k + 1));
      return Err(xfer.error), sent;
    }
    ghost var more;
    r, more := RedeemStream(net, to, xfer.value);
    LogGrows(log, sent, more);
    attempts := sent + more;
    SentThen(sent, to, CircleBatches(redeem, k), more, Batches(xfer.value.txs));
    SentThen(sent, to, CircleBatches(redeem, k), more, Flushed(xfer.value.txs));
    ReturnedAppend(sent, more);
  }

  /** The loop over the transactions of one generator, and the flush whose hashes get lost. */
  method RedeemStream(net: Network, to: string, xfer: Stream) returns (r: Result<seq<TxHash>>, ghost attempts: seq<Attempt>)
    modifies net
    ensures net.log == old(net.log) + attempts
    ensures r.Ok? ==> xfer.failure.None? && Sent(attempts, to, Batches(xfer.txs)) && r.value == ReturnedHashes(attempts)
    ensures r.Err? ==> SentUpTo(attempts, to, Batches(xfer.txs))
    ensures r.Err? && !Failed(attempts) ==> xfer.failure == Some(r.error) && Sent(attempts, to, Flushed(xfer.txs))
  {
    ghost var txs := xfer.txs;
    var hashes, unsigned, flushed := SendStream(net, to, xfer, [], []);
    assert [] + txs == txs && Flushed(txs)[0..] == Flushed(txs);
    attempts := flushed;
    if hashes.Err? {
      SentUpToPrefix(flushed, to, Flushed(txs), Batches(txs));
      return hashes, attempts;
    }
    var last, more := SendPending(net, to, unsigned, txs);
    LogGrows(old(net.log), flushed, more);
    assert Flushed(txs) + Batches(txs)[|Flushed(txs)|..] == Batches(txs);
    SentThen(flushed, to, Flushed(txs), more, Batches(txs)[|Flushed(txs)|..]);
    attempts := flushed + more;
    if last.Ok? {
      LastFlushLost(flushed, more, to, txs);
    }
    return if last.Ok? then hashes else last, attempts;
  }

  lemma LastFlushLost(flushed: seq<Attempt>, more: seq<Attempt>, to: string, txs: seq<Tx>)
    requires Sent(flushed, to, Flushed(txs)) && Sent(more, to, Batches(txs)[|Flushed(txs)|..])
    ensures ReturnedHashes(flushed + more) == HashesOf(flushed)
  {
    ReturnedAppend(flushed, more);
    FlushedEndOnce(txs);
    AllReturnedJustIfNoneLost(flushed);
    if Pending(txs) != [] {
      assert |more| == 1 && more[0].batch == Pending(txs) && !EndsOnce(more[0].batch);
      assert ReturnedHashes(more) == ReturnedHashes(more[..0]) + [];
    }
  }

  /**
   * `from` with a message id or a transaction. The state is set to Attested before the attestation is
   * there, but the transfer is handed out only when it is.
   */
  method From(net: Network, automatic: bool, from: string, to: string, txids: Option<seq<TxHash>>,
              circleAttestations: Option<seq<CachedAttestation>>, vaas: Option<seq<CachedVaa>>,
              fetch: VaaFetcher, details: Result<nat>, attest: Attester)
    returns (r: Result<CCTPTransfer>)
    ensures r.Ok? ==> r.value.Valid() && fresh(r.value) && r.value.state == ATTESTED && r.value.Ready()
    ensures automatic ==>
              (r.Ok? <==> vaas.Some? && |vaas.value| > 0 && forall i | 0 <= i < |vaas.value| :: FetchOne(vaas.value[i], fetch).Ok?)
    ensures !automatic ==>
              var start := MessagesToAttest(circleAttestations, txids, details);
              (r.Ok? <==> start.Ok? && forall i | 0 <= i < |start.value| :: AttestOne(start.value[i], attest).Ok?)
  {
    var tt := new CCTPTransfer.Found(automatic, from, to, txids, circleAttestations, vaas);
    var attestations := tt.FetchAttestation(net, fetch, details, attest);
    return if attestations.Ok? then Ok(tt) else Err(attestations.error);
  }

  /** An automatic transfer made here, as it is before and after its source transactions are sent. */
  ghost predicate Stuck(t: CCTPTransfer)
    reads t
  {
    t.automatic && t.vaas.None?
  }

  /** Any calls in any order, with any answers of the network. A stuck transfer is never attested. */
  method Drive(t: CCTPTransfer, net: Network, steps: nat) returns (ghost run: seq<Snap>, ghost calls: seq<Call>)
    requires t.Valid()
    modifies t, net
    ensures t.Valid() && IsRun(run, calls) && |calls| == steps
    ensures run[0] == old(t.Look(net)) && run[steps] == t.Look(net)
    ensures ReadyWhenAttested(run)
    ensures old(Stuck(t)) ==> Stuck(t) && forall s <- run :: s.state <= INITIATED
  {
    run, calls := [t.Look(net)], [];
    for n := 0 to steps
      invariant t.Valid() && IsRun(run, calls) && |calls| == n
      invariant run[0] == old(t.Look(net)) && run[n] == t.Look(net)
      invariant ReadyWhenAttested(run)
      invariant old(Stuck(t)) ==> Stuck(t) && forall s <- run :: s.state <= INITIATED
    {
      ghost var call := AnyCall(t, net);
      RunGoesOn(run, calls, call, t.Look(net));
      run, calls := run + [t.Look(net)], calls + [call];
    }
  }

  method AnyCall(t: CCTPTransfer, net: Network) returns (ghost call: Call)
    requires t.Valid()
    modifies t, net
    ensures t.Valid() && Allowed(old(t.Look(net)), call, t.Look(net))
    ensures old(Stuck(t)) ==> Stuck(t)
  {
    if {
      case true =>
        var xfer: Result<Stream> := *;
        call := Initiate;
        var r, attempts := t.InitiateTransfer(net, xfer);
      case true =>
        var fetch: VaaFetcher := *;
        var details: Result<nat> := *;
        var attest: Attester := *;
        call := Fetch;
        var r := t.FetchAttestation(net, fetch, details, attest);
      case true =>
        var redeem: Redeemer := *;
        call := Complete;
        var r, attempts, k := t.CompleteTransfer(net, redeem);
    }
  }
}
