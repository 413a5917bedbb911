// tokenTransfer.ts: the state machine of a token transfer. What the network answers - the transactions a
// token bridge builds, parsed messages, fetched VAAs - comes in as parameters and may be an error.
module TokenTransfers {
  import opened Common
  import opened Batching
  import opened TransferRuns
  import Solana = SolanaRedeem

  /** WormholeMessageId */
  datatype MessageId = MessageId(chain: string, emitter: nat, sequence: nat)

  /** A fetched VAA, as far as the transfer looks at it: is its payload a simple transfer? */
  datatype FetchedVaa = FetchedVaa(id: nat, simple: bool)

  datatype CachedVaa = CachedVaa(id: MessageId, vaa: Option<FetchedVaa>)

  type VaaFetcher = MessageId -> Result<FetchedVaa>

  predicate AllFetched(vaas: seq<CachedVaa>) {
    forall i | 0 <= i < |vaas| :: vaas[i].vaa.Some?
  }

  function FetchOne(cached: CachedVaa, fetch: VaaFetcher): Result<CachedVaa> {
    if cached.vaa.Some? then Ok(cached)
    else
      var vaa :- fetch(cached.id);
      Ok(cached.(vaa := Some(vaa)))
  }

  function Fetching(fetch: VaaFetcher): CachedVaa -> Result<CachedVaa> {
    (cached: CachedVaa) => FetchOne(cached, fetch)
  }

  /** The elements of a cache updated one after the other, up to the first failure. */
  function InOrder<T>(cache: seq<T>, one: T -> Result<T>): seq<T> {
    if |cache| == 0 then []
    else
      match one(cache[0])
      case Ok(next) => [next] + InOrder(cache[1..], one)
      case Err(_) => cache
  }

  function FetchInOrder(vaas: seq<CachedVaa>, fetch: VaaFetcher): seq<CachedVaa> {
    InOrder(vaas, Fetching(fetch))
  }

  /** The first `i` updates have been made in `now`. */
  lemma {:induction false} InOrderPrefix<T>(cache: seq<T>, one: T -> Result<T>, now: seq<T>, i: nat)
    requires i <= |cache| == |now| && forall j | 0 <= j < i :: one(cache[j]) == Ok(now[j])
    ensures InOrder(cache, one) == now[..i] + InOrder(cache[i..], one)
  {
    if i == 0 {
      assert cache[0..] == cache;
    } else {
      assert one(cache[0]) == Ok(now[0]);
      forall j | 0 <= j < i - 1
        ensures one(cache[1..][j]) == Ok(now[1..][j])
      {
        assert cache[1..][j] == cache[j + 1] && now[1..][j] == now[j + 1];
      }
      InOrderPrefix(cache[1..], one, now[1..], i - 1);
      assert cache[1..][i - 1..] == cache[i..];
      assert [now[0]] + now[1..][..i - 1] == now[..i];
    }
  }

  lemma AllInOrder<T>(cache: seq<T>, one: T -> Result<T>, now: seq<T>)
    requires |now| == |cache| && forall j | 0 <= j < |cache| :: one(cache[j]) == Ok(now[j])
    ensures InOrder(cache, one) == now
  {
    InOrderPrefix(cache, one, now, |cache|);
  }

  /** The update at `idx` has failed, and what comes behind was not touched. */
  lemma InOrderStops<T>(cache: seq<T>, one: T -> Result<T>, now: seq<T>, idx: nat)
    requires idx < |cache| == |now| && one(cache[idx]).Err?
    requires forall j | 0 <= j < idx :: one(cache[j]) == Ok(now[j])
    requires forall j | idx <= j < |now| :: now[j] == cache[j]
    ensures InOrder(cache, one) == now
  {
    InOrderPrefix(cache, one, now, idx);
    FirstFails(cache[idx..], one);
    SameTail(cache, now, idx);
  }

  lemma FirstFails<T>(cache: seq<T>, one: T -> Result<T>)
    requires |cache| > 0 && one(cache[0]).Err?
    ensures InOrder(cache, one) == cache
  {
  }

  lemma SameTail<T>(cache: seq<T>, now: seq<T>, idx: nat)
    requires idx <= |cache| == |now| && forall j | idx <= j < |now| :: now[j] == cache[j]
    ensures now[..idx] + cache[idx..] == now
  {
  }

  /** Fetching keeps what has been fetched and the ids; it is complete just if no needed fetch fails. */
  lemma {:induction false} FetchKeeps(vaas: seq<CachedVaa>, fetch: VaaFetcher)
    ensures var after := FetchInOrder(vaas, fetch);
            && |after| == |vaas|
            && (forall i | 0 <= i < |vaas| :: after[i].id == vaas[i].id && (vaas[i].vaa.Some? ==> after[i] == vaas[i]))
            && (AllFetched(after) <==> forall i | 0 <= i < |vaas| :: FetchOne(vaas[i], fetch).Ok?)
  {
    if |vaas| > 0 && FetchOne(vaas[0], fetch).Ok? {
      FetchKeeps(vaas[1..], fetch);
      var after, rest := FetchInOrder(vaas, fetch), FetchInOrder(vaas[1..], fetch);
      assert after == [FetchOne(vaas[0], fetch).value] + rest;
      assert forall i | 0 < i < |vaas| :: vaas[i] == vaas[1..][i - 1] && after[i] == rest[i - 1];
      assert forall i | 0 <= i < |rest| :: after[i + 1] == rest[i];
      assert forall i | 0 <= i < |vaas[1..]| :: vaas[i + 1] == vaas[1..][i];
    }
  }

  /** The loop over the cache, common to the transfer classes: fills in missing VAAs, in place. */
  method FetchMissing(cache: array<CachedVaa>, fetch: VaaFetcher) returns (r: Result<()>)
    modifies cache
    ensures cache[..] == FetchInOrder(old(cache[..]), fetch)
    ensures r.Ok? <==> AllFetched(cache[..])
  {
    ghost var vaas := cache[..];
    FetchKeeps(vaas, fetch);
    for idx := 0 to cache.Length
      invariant forall j | 0 <= j < idx :: FetchOne(vaas[j], fetch) == Ok(cache[j])
      invariant forall j | idx <= j < cache.Length :: cache[j] == vaas[j]
    {
      if cache[idx].vaa.None? {
        var vaa := fetch(cache[idx].id);
        if vaa.Err? {
          assert cache[..][idx].vaa.None?;
          InOrderStops(vaas, Fetching(fetch), cache[..], idx);
          return Err(vaa.error);
        }
        cache[idx] := cache[idx].(vaa := Some(vaa.value));
      }
    }
    AllInOrder(vaas, Fetching(fetch), cache[..]);
    return Ok(());
  }

  // ---- what is sent to redeem -------------------------------------------------------------

  /** Generators, one for each VAA; building one may fail, too. */
  type Redeemer = nat -> Result<Stream>

  function TxsOf(redeem: Redeemer, n: nat): seq<Tx> {
    if n == 0 then []
    else TxsOf(redeem, n - 1) + match redeem(n - 1) case Ok(xfer) => xfer.txs case Err(_) => []
  }

  lemma {:induction false} TxsPrefix(redeem: Redeemer, m: nat, n: nat)
    requires m <= n
    ensures IsPrefix(Flushed(TxsOf(redeem, m)), Flushed(TxsOf(redeem, n)))
  {
    if m < n {
      TxsPrefix(redeem, m, n - 1);
      FlushedExtends(TxsOf(redeem, n - 1), match redeem(n - 1) case Ok(xfer) => xfer.txs case Err(_) => []);
    }
  }

  /** The generators of the first `k` VAAs have run to their end. */
  predicate RanThrough(redeem: Redeemer, k: nat) {
    k > 0 ==> RanThrough(redeem, k - 1) && redeem(k - 1).Ok? && redeem(k - 1).value.failure.None?
  }

  /** All these batches went out first. */
  predicate Began(attempts: seq<Attempt>, chain: string, batches: seq<seq<Tx>>) {
    && |batches| <= |attempts|
    && forall i | 0 <= i < |batches| ::
         attempts[i].chain == chain && attempts[i].batch == batches[i] && attempts[i].hashes.Some?
  }

  /**
   * The loop over `n` VAAs has ended at VAA `k`, or after them all in its last flush: everything before has been
   * through it, and of VAA `k` no more than the batches that its own transactions flush.
   */
  ghost predicate EndedAt(attempts: seq<Attempt>, chain: string, redeem: Redeemer, n: nat, k: nat) {
    && k <= n && RanThrough(redeem, k)
    && Began(attempts, chain, Flushed(TxsOf(redeem, k)))
    && SentUpTo(attempts, chain, if k < n then Flushed(TxsOf(redeem, k + 1)) else Batches(TxsOf(redeem, n)))
  }

  /** The generator of VAA `k` cannot be built, or throws. */
  predicate Throws(redeem: Redeemer, k: nat) {
    redeem(k).Ok? ==> redeem(k).value.failure.Some?
  }

  /** On success everything was sent, which ends the loop after all VAAs. */
  lemma SentEndsLast(attempts: seq<Attempt>, chain: string, redeem: Redeemer, n: nat)
    requires RanThrough(redeem, n) && Sent(attempts, chain, Batches(TxsOf(redeem, n)))
    ensures EndedAt(attempts, chain, redeem, n, n)
  {
    var flushed := Flushed(TxsOf(redeem, n));
    assert IsPrefix(flushed, Batches(TxsOf(redeem, n)));
    SentIsUpTo(attempts, chain, Batches(TxsOf(redeem, n)));
  }

  /** VAA `k` is not there, or not one to be redeemed like this. */
  lemma RefusedAt(attempts: seq<Attempt>, chain: string, redeem: Redeemer, n: nat, k: nat)
    requires k < n && RanThrough(redeem, k) && Sent(attempts, chain, Flushed(TxsOf(redeem, k)))
    ensures EndedAt(attempts, chain, redeem, n, k)
  {
    SentIsUpTo(attempts, chain, Flushed(TxsOf(redeem, k)));
    TxsPrefix(redeem, k, k + 1);
    SentUpToPrefix(attempts, chain, Flushed(TxsOf(redeem, k)), Flushed(TxsOf(redeem, k + 1)));
  }

  /** The generator of VAA `k` has failed, or one of its sends has. */
  lemma BrokenAt(sent: seq<Attempt>, more: seq<Attempt>, chain: string, redeem: Redeemer, n: nat, k: nat)
    requires k < n && RanThrough(redeem, k) && Sent(sent, chain, Flushed(TxsOf(redeem, k)))
    requires SentUpTo(sent + more, chain, Flushed(TxsOf(redeem, k + 1)))
    ensures EndedAt(sent + more, chain, redeem, n, k)
  {
  }

  lemma SentDidNotFail(attempts: seq<Attempt>, chain: string, batches: seq<seq<Tx>>)
    requires Sent(attempts, chain, batches)
    ensures !Failed(attempts)
  {
  }

  lemma SentIsUpTo(attempts: seq<Attempt>, chain: string, batches: seq<seq<Tx>>)
    requires Sent(attempts, chain, batches)
    ensures SentUpTo(attempts, chain, batches)
  {
  }

  lemma NoGenerator(sent: seq<Attempt>, chain: string, redeem: Redeemer, k: nat)
    requires redeem(k).Err? && Sent(sent, chain, Flushed(TxsOf(redeem, k)))
    ensures Sent(sent, chain, Flushed(TxsOf(redeem, k + 1))) && SentUpTo(sent, chain, Flushed(TxsOf(redeem, k + 1)))
  {
    assert TxsOf(redeem, k + 1) == TxsOf(redeem, k) + [] == TxsOf(redeem, k);
    SentIsUpTo(sent, chain, Flushed(TxsOf(redeem, k)));
  }

  /** One VAA of the loop in completeTransfer; `unsigned` is pending from the VAAs before it. */
  method RedeemNext(net: Network, chain: string, redeem: Redeemer, k: nat, unsigned: seq<Tx>, ghost sent: seq<Attempt>)
    returns (r: Result<seq<TxHash>>, rest: seq<Tx>, ghost attempts: seq<Attempt>)
    requires unsigned == Pending(TxsOf(redeem, k)) && Sent(sent, chain, Flushed(TxsOf(redeem, k)))
    modifies net
    ensures net.log == old(net.log) + attempts
    ensures r.Ok? ==> redeem(k).Ok? && redeem(k).value.failure.None?
                      && rest == Pending(TxsOf(redeem, k + 1)) && HashesOf(sent + attempts) == HashesOf(sent) + r.value
                      && Sent(sent + attempts, chain, Flushed(TxsOf(redeem, k + 1)))
    ensures r.Err? ==> SentUpTo(sent + attempts, chain, Flushed(TxsOf(redeem, k + 1)))
    ensures r.Err? && !Failed(attempts) ==> Throws(redeem, k) && Sent(sent + attempts, chain, Flushed(TxsOf(redeem, k + 1)))
  {
    attempts, rest := [], unsigned;
    ghost var before, after := TxsOf(redeem, k), TxsOf(redeem, k + 1);
    TxsPrefix(redeem, k, k + 1);
    var xfer := redeem(k);
    if xfer.Err? {
      assert sent + [] == sent;
      NoGenerator(sent, chain, redeem, k);
      return Err(xfer.error), rest, attempts;
    }
    r, rest, attempts := SendStream(net, chain, xfer.value, unsigned, before);
    assert Flushed(after) == Flushed(before) + Flushed(after)[|Flushed(before)|..];
    SentThen(sent, chain, Flushed(before), attempts, Flushed(after)[|Flushed(before)|..]);
    HashesAppend(sent, attempts);
  }

  // ---- the transfer -----------------------------------------------------------------------

  /** The messages of the source transactions, as long as each parses as exactly one. */
  function ParsedIds(parse: TxHash -> Result<seq<MessageId>>, txHashes: seq<TxHash>): seq<CachedVaa> {
    if |txHashes| == 0 then []
    else
      var front, last := ParsedIds(parse, txHashes[..|txHashes| - 1]), parse(txHashes[|txHashes| - 1]);
      if |front| == |txHashes| - 1 && last.Ok? && |last.value| == 1
      then front + [CachedVaa(last.value[0], None)]
      else front
  }

  lemma {:induction false} ParsingStops(parse: TxHash -> Result<seq<MessageId>>, txHashes: seq<TxHash>, i: nat)
    requires i <= |txHashes| && |ParsedIds(parse, txHashes[..i])| < i
    ensures ParsedIds(parse, txHashes) == ParsedIds(parse, txHashes[..i])
    decreases |txHashes|
  {
    if i == |txHashes| {
      assert txHashes[..i] == txHashes;
    } else {
      assert txHashes[..|txHashes| - 1][..i] == txHashes[..i];
      ParsingStops(parse, txHashes[..|txHashes| - 1], i);
    }
  }

  class TokenTransfer {
    var state: nat
    var txids: Option<seq<TxHash>>
    var vaas: Option<seq<CachedVaa>>
    const automatic: bool
    const from: string
    const to: string

    ghost predicate Valid()
      reads this
    {
      && CREATED <= state <= COMPLETED
      && (state == CREATED ==> txids.None? && vaas.None?)
      && (state == ATTESTED ==> Ready())
    }

    /** All attestations are there. */
    predicate Ready()
      reads this
    {
      vaas.Some? && |vaas.value| > 0 && AllFetched(vaas.value)
    }

    ghost function Look(net: Network): Snap
      reads this, net
    {
      Snap(state, Ready(), net.log)
    }

    /** `from` with the details of a new transfer. */
    constructor (automatic: bool, from: string, to: string)
      ensures Valid() && state == CREATED
      ensures this.automatic == automatic && this.from == from && this.to == to
    {
      this.automatic, this.from, this.to := automatic, from, to;
      state, txids, vaas := CREATED, None, None;
    }

    /** `from` with a message id whose VAA has been fetched, or with a transaction that has that one message. */
    constructor FromMessage(id: MessageId, vaa: FetchedVaa, txid: Option<TxHash>, automatic: bool, from: string, to: string)
      ensures Valid() && state == ATTESTED && Ready()
      ensures vaas == Some([CachedVaa(id, Some(vaa))]) && this.automatic == automatic
    {
      this.automatic, this.from, this.to := automatic, from, to;
      state := ATTESTED;
      txids := if txid.Some? then Some([txid.value]) else None;
      vaas := Some([CachedVaa(id, Some(vaa))]);
    }

    /** Asks for the status of the relayed transaction; the answer says whether that has completed. */
    method GetTransferState(net: Network, completed: Result<bool>) returns (r: Result<nat>)
      requires Valid()
      modifies this`state
      ensures Valid() && Allowed(old(Look(net)), Query, Look(net))
      ensures state == if automatic && vaas.Some? && |vaas.value| > 0 && completed == Ok(true) then COMPLETED else old(state)
      ensures r.Ok? ==> r.value == state
      ensures r.Err? <==> automatic && vaas.Some? && |vaas.value| > 0 && completed.Err?
    {
      if !automatic || vaas.None? || |vaas.value| == 0 {
        return Ok(state);
      }
      if completed.Err? {
        return Err(completed.error);
      }
      if completed.value {
        state := COMPLETED;
      }
      return Ok(state);
    }

    /** Sends the source transactions, then looks for the one message of each. */
    method InitiateTransfer(net: Network, xfer: Result<Stream>, parse: TxHash -> Result<seq<MessageId>>)
      returns (r: Result<seq<TxHash>>, ghost attempts: seq<Attempt>)
      requires Valid()
      modifies this, net
      ensures Valid() && Allowed(old(Look(net)), Initiate, Look(net))
      ensures net.log == old(net.log) + attempts
      ensures old(state) != CREATED ==> r.Err? && attempts == [] && unchanged(this)
      ensures state == CREATED ==> r.Err? && unchanged(this)
      ensures state == CREATED && xfer.Ok? ==> SentUpTo(attempts, from, Batches(xfer.value.txs))
      ensures state == CREATED && xfer.Err? ==> attempts == []
      ensures state == CREATED && xfer.Ok? && !Failed(attempts) ==>
                xfer.value.failure.Some? && Sent(attempts, from, Flushed(xfer.value.txs))
      ensures old(state) == CREATED && state != CREATED ==>
                && state == INITIATED && xfer.Ok? && Sent(attempts, from, Batches(xfer.value.txs))
                && txids == Some(HashesOf(attempts))
                && vaas == (var ids := ParsedIds(parse, HashesOf(attempts)); if ids == [] then None else Some(ids))
      ensures r.Ok? ==> state == INITIATED && txids == Some(r.value)
      ensures old(state) == CREATED && state != CREATED ==>
                (r.Ok? <==> |ParsedIds(parse, HashesOf(attempts))| == |HashesOf(attempts)|)
    {
      attempts := [];
      if state != CREATED {
        return Err(Invalid("Invalid state transition in `start`")), attempts;
      }
      if xfer.Err? {
        return Err(xfer.error), attempts;
      }
      var txHashes: Result<seq<TxHash>>;
      txHashes, attempts := SendAll(net, from, xfer.value);
      if txHashes.Err? {
        return txHashes, attempts;
      }
      txids, state := Some(txHashes.value), INITIATED;
      var parsed := ParseMessages(txHashes.value, parse);
      return if parsed.Ok? then txHashes else Err(parsed.error), attempts;
    }

    method ParseMessages(txHashes: seq<TxHash>, parse: TxHash -> Result<seq<MessageId>>) returns (r: Result<()>)
      requires vaas.None?
      modifies this`vaas
      ensures vaas == (var ids := ParsedIds(parse, txHashes); if ids == [] then None else Some(ids))
      ensures r.Ok? <==> |ParsedIds(parse, txHashes)| == |txHashes|
    {
      for i := 0 to |txHashes|
        invariant |ParsedIds(parse, txHashes[..i])| == i
        invariant vaas == (var ids := ParsedIds(parse, txHashes[..i]); if ids == [] then None else Some(ids))
      {
        assert txHashes[..i + 1][..i] == txHashes[..i];
        var parsed := parse(txHashes[i]);
        if parsed.Err? || |parsed.value| != 1 {
          ParsingStops(parse, txHashes, i + 1);
          return Err(Invalid("Expected a single VAA"));
        }
        vaas := Some((if vaas.None? then [] else vaas.value) + [CachedVaa(parsed.value[0], None)]);
      }
      assert txHashes[..|txHashes|] == txHashes;
      return Ok(());
    }

    /** Fetches the VAAs that are not there yet. */
    method FetchAttestation(net: Network, fetch: VaaFetcher) returns (r: Result<seq<MessageId>>)
      requires Valid()
      modifies this`state, this`vaas
      ensures Valid() && Allowed(old(Look(net)), Fetch, Look(net))
      ensures old(state) < INITIATED || old(state) > ATTESTED ==> r.Err?
      ensures r.Err? ==> state == old(state)
      ensures r.Ok? <==> && INITIATED <= old(state) <= ATTESTED && old(vaas).Some? && |old(vaas).value| > 0
                         && forall i | 0 <= i < |old(vaas).value| :: FetchOne(old(vaas).value[i], fetch).Ok?
      ensures r.Ok? ==> state == ATTESTED && Ready() && |r.value| == |vaas.value|
                        && forall i | 0 <= i < |r.value| :: r.value[i] == vaas.value[i].id
      ensures vaas == if INITIATED <= old(state) <= ATTESTED && old(vaas).Some?
                      then Some(FetchInOrder(old(vaas).value, fetch)) else old(vaas)
    {
      if state < INITIATED || state > ATTESTED {
        return Err(Invalid("Invalid state transition in `ready`"));
      }
      if vaas.None? || |vaas.value| == 0 {
        return Err(Invalid("No VAA details available"));
      }
      var cached := vaas.value;
      var cache := new CachedVaa[|cached|](i requires 0 <= i < |cached| => cached[i]);
      assert cache[..] == cached;
      var fetched := FetchMissing(cache, fetch);
      vaas := Some(cache[..]);
      FetchKeeps(cached, fetch);
      if fetched.Err? {
        return Err(fetched.error);
      }
      state := ATTESTED;
      var done := vaas.value;
      return Ok(seq(|done|, i requires 0 <= i < |done| => done[i].id));
    }

    /** Redeems all VAAs in one go of the batching loop. The state is left as it is. */
    method CompleteTransfer(net: Network, redeem: Redeemer)
      returns (r: Result<seq<TxHash>>, ghost attempts: seq<Attempt>, ghost k: nat)
      requires Valid()
      modifies net
      ensures Valid() && Allowed(old(Look(net)), Complete, Look(net))
      ensures net.log == old(net.log) + attempts
      ensures state < ATTESTED || vaas.None? ==> r.Err? && attempts == []
      ensures r.Ok? ==> vaas.Some? && AllFetched(vaas.value) && HashesOf(attempts) == r.value
                        && Sent(attempts, to, Batches(TxsOf(redeem, |vaas.value|))) && k == |vaas.value|
      ensures state >= ATTESTED && vaas.Some? ==>
                && Ended(attempts, to, automatic, vaas.value, redeem, k)
                && (r.Ok? <==> k == |vaas.value| && !Failed(attempts))
    {
      attempts, k := [], 0;
      if state < ATTESTED {
        return Err(Invalid("Invalid state transition in `finish`")), attempts, k;
      }
      if vaas.None? {
        return Err(Invalid("No VAA details available")), attempts, k;
      }
      r, attempts, k := RedeemVaas(net, to, automatic, vaas.value, redeem);
    }
  }

  /**
   * The loop ends at VAA `k`, of which it sends nothing if it is missing or refused. Unless signing or sending the
   * last batch failed, there is one of these two reasons to end there, or its generator throws; and if it ends
   * after all VAAs, everything is sent.
   */
  ghost predicate Ended(attempts: seq<Attempt>, chain: string, automatic: bool, vaas: seq<CachedVaa>, redeem: Redeemer, k: nat) {
    && EndedAt(attempts, chain, redeem, |vaas|, k)
    && (forall j | 0 <= j < k :: Redeemable(automatic, vaas[j]))
    && (k < |vaas| && !Redeemable(automatic, vaas[k]) ==> Sent(attempts, chain, Flushed(TxsOf(redeem, k))))
    && (k < |vaas| && Redeemable(automatic, vaas[k]) && !Failed(attempts) ==>
          Throws(redeem, k) && Sent(attempts, chain, Flushed(TxsOf(redeem, k + 1))))
    && (k == |vaas| && !Failed(attempts) ==> Sent(attempts, chain, Batches(TxsOf(redeem, k))))
  }

  predicate Redeemable(automatic: bool, cached: CachedVaa) {
    cached.vaa.Some? && !(automatic && cached.vaa.value.simple)
  }

  /** The loop of completeTransfer. */
  method RedeemVaas(net: Network, to: string, automatic: bool, vaas: seq<CachedVaa>, redeem: Redeemer)
    returns (r: Result<seq<TxHash>>, ghost attempts: seq<Attempt>, ghost k: nat)
    modifies net
    ensures net.log == old(net.log) + attempts
    ensures r.Ok? ==> AllFetched(vaas) && HashesOf(attempts) == r.value && Sent(attempts, to, Batches(TxsOf(redeem, |vaas|)))
                      && k == |vaas|
    ensures Ended(attempts, to, automatic, vaas, redeem, k)
    ensures r.Ok? <==> k == |vaas| && !Failed(attempts)
  {
    var unsigned: seq<Tx>, txHashes: seq<TxHash> := [], [];
    attempts, k := [], 0;
    for i := 0 to |vaas|
      invariant net.log == old(net.log) + attempts && k == i
      invariant forall j | 0 <= j < i :: Redeemable(automatic, vaas[j])
      invariant Progress(to, redeem, i, unsigned, txHashes, attempts)
    {
      ghost var more;
      r, unsigned, more := RedeemOne(net, to, automatic, vaas, redeem, i, unsigned, txHashes, attempts);
      LogGrows(old(net.log), attempts, more);
      attempts := attempts + more;
      if r.Err? {
        return r, attempts, k;
      }
      txHashes, k := r.value, i + 1;
    }
    ghost var more;
    r, more := SendRest(net, to, unsigned, TxsOf(redeem, |vaas|), txHashes, attempts);
    LogGrows(old(net.log), attempts, more);
    attempts := attempts + more;
    if r.Ok? {
      SentEndsLast(attempts, to, redeem, |vaas|);
      SentDidNotFail(attempts, to, Batches(TxsOf(redeem, |vaas|)));
    }
  }

  /** The transactions of `k` VAAs have been through the loop. */
  ghost predicate Progress(to: string, redeem: Redeemer, k: nat, unsigned: seq<Tx>, txHashes: seq<TxHash>, sent: seq<Attempt>) {
    && RanThrough(redeem, k)
    && unsigned == Pending(TxsOf(redeem, k)) && HashesOf(sent) == txHashes && Sent(sent, to, Flushed(TxsOf(redeem, k)))
  }

  method RedeemOne(net: Network, to: string, automatic: bool, vaas: seq<CachedVaa>, redeem: Redeemer, k: nat,
                   unsigned: seq<Tx>, txHashes: seq<TxHash>, ghost sent: seq<Attempt>)
    returns (r: Result<seq<TxHash>>, rest: seq<Tx>, ghost attempts: seq<Attempt>)
    requires k < |vaas| && Progress(to, redeem, k, unsigned, txHashes, sent)
    modifies net
    ensures net.log == old(net.log) + attempts
    ensures r.Ok? ==> Redeemable(automatic, vaas[k]) && Progress(to, redeem, k + 1, rest, r.value, sent + attempts)
    ensures r.Err? ==> EndedAt(sent + attempts, to, redeem, |vaas|, k)
    ensures r.Err? && Redeemable(automatic, vaas[k]) && !Failed(sent + attempts) ==>
              Throws(redeem, k) && Sent(sent + attempts, to, Flushed(TxsOf(redeem, k + 1)))
    ensures !Redeemable(automatic, vaas[k]) ==> attempts == []
  {
    if vaas[k].vaa.None? || (automatic && vaas[k].vaa.value.simple) {
      attempts, rest := [], unsigned;
      assert sent + [] == sent;
      RefusedAt(sent, to, redeem, |vaas|, k);
      return Err(Invalid("No VAA found")), rest, attempts;
    }
    r, rest, attempts := RedeemNext(net, to, redeem, k, unsigned, sent);
    if r.Err? {
      BrokenAt(sent, attempts, to, redeem, |vaas|, k);
    } else {
      r := Ok(txHashes + r.value);
    }
  }

  /** The last flush, after all that has been sent before. */
  method SendRest(net: Network, chain: string, unsigned: seq<Tx>, ghost txs: seq<Tx>, txHashes: seq<TxHash>,
                  ghost sent: seq<Attempt>)
    returns (r: Result<seq<TxHash>>, ghost attempts: seq<Attempt>)
    requires unsigned == Pending(txs) && HashesOf(sent) == txHashes && Sent(sent, chain, Flushed(txs))
    modifies net
    ensures net.log == old(net.log) + attempts
    ensures r.Ok? ==> HashesOf(sent + attempts) == r.value && Sent(sent + attempts, chain, Batches(txs))
    ensures r.Err? ==> Failed(sent + attempts) && SentUpTo(sent + attempts, chain, Batches(txs))
  {
    r, attempts := SendPending(net, chain, unsigned, txs);
    assert Flushed(txs) + Batches(txs)[|Flushed(txs)|..] == Batches(txs);
    SentThen(sent, chain, Flushed(txs), attempts, Batches(txs)[|Flushed(txs)|..]);
    HashesAppend(sent, attempts);
    if r.Ok? {
      r := Ok(txHashes + r.value);
    }
  }

  /** Any calls in any order, with any answers of the network. */
  method Drive(t: TokenTransfer, net: Network, steps: nat) returns (ghost run: seq<Snap>, ghost calls: seq<Call>)
    requires t.Valid()
    modifies t, net
    ensures t.Valid() && IsRun(run, calls) && |calls| == steps
    ensures run[0] == old(t.Look(net)) && run[steps] == t.Look(net)
    ensures ReadyWhenAttested(run)
  {
    run, calls := [t.Look(net)], [];
    for n := 0 to steps
      invariant t.Valid() && IsRun(run, calls) && |calls| == n
      invariant run[0] == old(t.Look(net)) && run[n] == t.Look(net)
      invariant ReadyWhenAttested(run)
    {
      ghost var call := AnyCall(t, net);
      RunGoesOn(run, calls, call, t.Look(net));
      run, calls := run + [t.Look(net)], calls + [call];
    }
  }

  method AnyCall(t: TokenTransfer, net: Network) returns (ghost call: Call)
    requires t.Valid()
    modifies t, net
    ensures t.Valid() && Allowed(old(t.Look(net)), call, t.Look(net))
  {
    if {
      case true =>
        var xfer: Result<Stream> := *;
        var parse: TxHash -> Result<seq<MessageId>> := *;
        call := Initiate;
        var r, attempts := t.InitiateTransfer(net, xfer, parse);
      case true =>
        var fetch: VaaFetcher := *;
        call := Fetch;
        var r := t.FetchAttestation(net, fetch);
      case true =>
        var redeem: Redeemer := *;
        call := Complete;
        var r, attempts, k := t.CompleteTransfer(net, redeem);
      case true =>
        var completed: Result<bool> := *;
        call := Query;
        var r := t.GetTransferState(net, completed);
    }
  }

  // ---- completing on Solana ---------------------------------------------------------------

  /** The generators are those of the Solana token bridge, which may throw before or at any point of their run. */
  ghost predicate RedeemsOnSolana(redeem: Redeemer, jobs: seq<Solana.Job>) {
    forall k | 0 <= k < |jobs| && redeem(k).Ok? ::
      && IsPrefix(redeem(k).value.txs, Solana.RedeemTxs(jobs[k]))
      && (redeem(k).value.failure.None? ==> redeem(k).value.txs == Solana.RedeemTxs(jobs[k]))
  }

  lemma {:induction false} SolanaStream(redeem: Redeemer, jobs: seq<Solana.Job>, n: nat)
    requires RedeemsOnSolana(redeem, jobs) && n <= |jobs| && RanThrough(redeem, n)
    ensures TxsOf(redeem, n) == Solana.StreamOf(jobs[..n])
  {
    if n > 0 {
      SolanaStream(redeem, jobs, n - 1);
      assert jobs[..n][..n - 1] == jobs[..n - 1];
      assert redeem(n - 1).Ok?;
    }
  }

  /** What the generators up to the one that threw have flushed are the first of the batches of all jobs. */
  lemma SolanaFlushed(redeem: Redeemer, jobs: seq<Solana.Job>, k: nat)
    requires RedeemsOnSolana(redeem, jobs) && k < |jobs| && RanThrough(redeem, k)
    ensures IsPrefix(Flushed(TxsOf(redeem, k + 1)), Solana.BatchesOf(jobs))
  {
    SolanaStream(redeem, jobs, k);
    Solana.StreamOfPrefix(jobs, k);
    Solana.BatchesOfFlushed(jobs);
    FlushedOfPart(TxsOf(redeem, k), match redeem(k) case Ok(xfer) => xfer.txs case Err(_) => [],
                  Solana.RedeemTxs(jobs[k]), Solana.StreamOf(jobs));
  }

  lemma FlushedOfPart(before: seq<Tx>, part: seq<Tx>, whole: seq<Tx>, all: seq<Tx>)
    requires IsPrefix(part, whole) && IsPrefix(before + whole, all)
    ensures IsPrefix(Flushed(before + part), Flushed(all))
  {
    var rest := all[|before + part|..];
    assert before + part + rest == all;
    FlushedExtends(before + part, rest);
  }

  /**
   * Whatever completeTransfer has sent to Solana, also when it was interrupted - by a generator, too - keeps the
   * order of each VAA: verifications in one batch that went through, then posting, then completing the transfer.
   */
  lemma CompletedOnSolana(redeem: Redeemer, jobs: seq<Solana.Job>, attempts: seq<Attempt>, chain: string, k: nat, j: nat)
    requires RedeemsOnSolana(redeem, jobs) && j < |jobs|
    requires EndedAt(attempts, chain, redeem, |jobs|, k)
    ensures Solana.AttemptsOf(Solana.RedeemBatches(jobs[j]), attempts, Solana.StartOf(jobs, j))
    ensures Solana.VerifiedThenPosted(jobs[j], attempts, Solana.StartOf(jobs, j))
  {
    SentToSolana(redeem, jobs, attempts, chain, k);
    Solana.AttemptsOfJob(jobs, j, attempts, chain);
    Solana.PostedOnlyAfterVerified(jobs[j], attempts, Solana.StartOf(jobs, j));
  }

  lemma SentToSolana(redeem: Redeemer, jobs: seq<Solana.Job>, attempts: seq<Attempt>, chain: string, k: nat)
    requires RedeemsOnSolana(redeem, jobs) && EndedAt(attempts, chain, redeem, |jobs|, k)
    ensures SentUpTo(attempts, chain, Solana.BatchesOf(jobs))
  {
    if k < |jobs| {
      SolanaFlushed(redeem, jobs, k);
      SentUpToPrefix(attempts, chain, Flushed(TxsOf(redeem, k + 1)), Solana.BatchesOf(jobs));
    } else {
      AllToSolana(redeem, jobs);
    }
  }

  lemma AllToSolana(redeem: Redeemer, jobs: seq<Solana.Job>)
    requires RedeemsOnSolana(redeem, jobs) && RanThrough(redeem, |jobs|)
    ensures Batches(TxsOf(redeem, |jobs|)) == Solana.BatchesOf(jobs)
  {
    SolanaStream(redeem, jobs, |jobs|);
    assert jobs[..|jobs|] == jobs;
    Solana.RedemptionsBatchAlone(jobs);
  }
}
