// The loop that signs and sends the transactions of a generator (tokenTransfer.ts, gatewayTransfer.ts and
// cctpTransfer.ts share it): transactions pile up until one that is not parallelizable, which flushes them.
module Batching {
  import opened Common

  type TxHash = nat

  datatype Instruction =
    | CreateATA(vaa: nat)
    | VerifySignatures(vaa: nat, index: nat)
    | PostVAA(vaa: nat)
    | CompleteTransfer(vaa: nat)
    | Plain(id: nat)

  /** UnsignedTransaction */
  datatype Tx = Tx(transaction: seq<Instruction>, description: string, parallelizable: bool)

  /** What an async generator yields, and the error it ends with, if any. */
  datatype Stream = Stream(txs: seq<Tx>, failure: Option<Error>)

  // ---- the batches of a stream ------------------------------------------------------------

  predicate AllParallelizable(txs: seq<Tx>) {
    forall i | 0 <= i < |txs| :: txs[i].parallelizable
  }

  /** The batches that a non-parallelizable transaction has ended. */
  function Flushed(txs: seq<Tx>): seq<seq<Tx>> {
    if |txs| == 0 then []
    else
      var front, last := txs[..|txs| - 1], txs[|txs| - 1];
      if last.parallelizable then Flushed(front) else Flushed(front) + [Pending(front) + [last]]
  }

  /** The transactions after the last non-parallelizable one. */
  function Pending(txs: seq<Tx>): (r: seq<Tx>)
    ensures AllParallelizable(r)
  {
    if |txs| == 0 then []
    else
      var front, last := txs[..|txs| - 1], txs[|txs| - 1];
      if last.parallelizable then Pending(front) + [last] else []
  }

  /** All batches, the last one flushed when the stream has ended. */
  function Batches(txs: seq<Tx>): seq<seq<Tx>> {
    Flushed(txs) + if Pending(txs) == [] then [] else [Pending(txs)]
  }

  function Flatten<T>(ss: seq<seq<T>>): seq<T> {
    if |ss| == 0 then [] else Flatten(ss[..|ss| - 1]) + ss[|ss| - 1]
  }

  lemma FlattenOne<T>(ss: seq<seq<T>>, s: seq<T>)
    ensures Flatten(ss + [s]) == Flatten(ss) + s
  {
    assert (ss + [s])[..|ss|] == ss;
  }

  lemma {:induction false} FlattenFlushed(txs: seq<Tx>)
    ensures Flatten(Flushed(txs)) + Pending(txs) == txs
  {
    if |txs| > 0 {
      var front, last := txs[..|txs| - 1], txs[|txs| - 1];
      FlattenFlushed(front);
      assert txs == Flatten(Flushed(front)) + Pending(front) + [last];
      if !last.parallelizable {
        FlattenOne(Flushed(front), Pending(front) + [last]);
        assert Flatten(Flushed(txs)) + [] == txs;
      }
    }
  }

  /** Order is kept and nothing is lost: the batches concatenate to the stream. */
  lemma BatchesConcatenate(txs: seq<Tx>)
    ensures Flatten(Batches(txs)) == txs
  {
    FlattenFlushed(txs);
    if Pending(txs) == [] {
      assert Batches(txs) == Flushed(txs);
      assert Flatten(Flushed(txs)) + [] == txs;
    } else {
      FlattenOne(Flushed(txs), Pending(txs));
    }
  }

  /** A batch that a non-parallelizable transaction ends, and only ends. */
  predicate EndsOnce(batch: seq<Tx>) {
    |batch| > 0 && (forall i | 0 <= i < |batch| - 1 :: batch[i].parallelizable) && !batch[|batch| - 1].parallelizable
  }

  /** Non-empty batches of which all but the last are ended, and only ended, by a non-parallelizable transaction. */
  predicate Batched(batches: seq<seq<Tx>>) {
    && (forall i | 0 <= i < |batches| - 1 :: EndsOnce(batches[i]))
    && (|batches| > 0 ==>
          var last := batches[|batches| - 1];
          |last| > 0 && (EndsOnce(last) || AllParallelizable(last)))
  }

  lemma {:induction false} FlushedEndOnce(txs: seq<Tx>)
    ensures forall batch <- Flushed(txs) :: EndsOnce(batch)
  {
    if |txs| > 0 {
      var front, last := txs[..|txs| - 1], txs[|txs| - 1];
      FlushedEndOnce(front);
      assert (Pending(front) + [last])[..|Pending(front)|] == Pending(front);
    }
  }

  lemma BatchesAreBatched(txs: seq<Tx>)
    ensures Batched(Batches(txs))
  {
    FlushedEndOnce(txs);
  }

  /** These properties leave no choice: whatever has them is what the loop sends. */
  lemma BatchesAreUnique(batches: seq<seq<Tx>>)
    requires Batched(batches)
    ensures Batches(Flatten(batches)) == batches
  {
    if |batches| > 0 {
      LastBatchStays(batches[..|batches| - 1], batches[|batches| - 1]);
    }
  }

  lemma LastBatchStays(front: seq<seq<Tx>>, last: seq<Tx>)
    requires forall i | 0 <= i < |front| :: EndsOnce(front[i])
    requires |last| > 0 && (EndsOnce(last) || AllParallelizable(last))
    ensures Batches(Flatten(front) + last) == front + [last]
  {
    AfterEnded(front, last);
    OneMoreBatch(Flatten(front), front, last);
  }

  lemma OneMoreBatch(before: seq<Tx>, flushed: seq<seq<Tx>>, last: seq<Tx>)
    requires |last| > 0 && (EndsOnce(last) || AllParallelizable(last))
    requires Flushed(before + last) == flushed + Flushed(last) && Pending(before + last) == Pending(last)
    ensures Batches(before + last) == flushed + [last]
  {
    if EndsOnce(last) {
      EndedBatch(last);
    } else {
      ParallelizableBatch(last);
    }
  }

  lemma AfterEnded(front: seq<seq<Tx>>, last: seq<Tx>)
    requires forall i | 0 <= i < |front| :: EndsOnce(front[i])
    ensures Flushed(Flatten(front) + last) == front + Flushed(last)
    ensures Pending(Flatten(front) + last) == Pending(last)
  {
    FlushedFlattened(front);
    FlushedAppend(Flatten(front), last);
    assert [] + last == last;
  }

  lemma EndedBatchesStay(batches: seq<seq<Tx>>)
    requires forall i | 0 <= i < |batches| :: EndsOnce(batches[i])
    ensures Batches(Flatten(batches)) == batches
  {
    FlushedFlattened(batches);
    assert batches + [] == batches;
  }

  lemma {:induction false} FlushedFlattened(batches: seq<seq<Tx>>)
    requires forall i | 0 <= i < |batches| :: EndsOnce(batches[i])
    ensures Flushed(Flatten(batches)) == batches && Pending(Flatten(batches)) == []
  {
    if |batches| > 0 {
      var front, last := batches[..|batches| - 1], batches[|batches| - 1];
      FlushedFlattened(front);
      FlushedAppend(Flatten(front), last);
      assert [] + last == last;
      EndedBatch(last);
      assert front + [last] == batches;
    }
  }

  lemma {:induction false} ParallelizableBatch(txs: seq<Tx>)
    requires AllParallelizable(txs)
    ensures Flushed(txs) == [] && Pending(txs) == txs
  {
    if |txs| > 0 {
      ParallelizableBatch(txs[..|txs| - 1]);
      assert txs[|txs| - 1] in txs;
    }
  }

  lemma EndedBatch(batch: seq<Tx>)
    requires EndsOnce(batch)
    ensures Flushed(batch) == [batch] && Pending(batch) == []
  {
    ParallelizableBatch(batch[..|batch| - 1]);
    assert batch[..|batch| - 1] + [batch[|batch| - 1]] == batch;
  }

  /** Going on with a stream is starting anew with what is pending. */
  lemma {:induction false} FlushedAppend(before: seq<Tx>, txs: seq<Tx>)
    ensures Flushed(before + txs) == Flushed(before) + Flushed(Pending(before) + txs)
    ensures Pending(before + txs) == Pending(Pending(before) + txs)
    decreases |txs|
  {
    if |txs| == 0 {
      ParallelizableBatch(Pending(before));
      assert before + txs == before && Pending(before) + txs == Pending(before);
    } else {
      var front, last := txs[..|txs| - 1], txs[|txs| - 1];
      FlushedAppend(before, front);
      assert (before + txs)[..|before + txs| - 1] == before + front;
      assert (Pending(before) + txs)[..|Pending(before) + txs| - 1] == Pending(before) + front;
    }
  }

  predicate IsPrefix<T(==)>(a: seq<T>, b: seq<T>) {
    a <= b
  }

  lemma FlushedExtends(a: seq<Tx>, b: seq<Tx>)
    ensures IsPrefix(Flushed(a), Flushed(a + b))
  {
    FlushedAppend(a, b);
  }

  // ---- signing and sending ----------------------------------------------------------------

  /** A batch handed to the signer and then to a chain; no hashes if signing or sending it failed. */
  datatype Attempt = Attempt(chain: string, batch: seq<Tx>, hashes: Option<seq<TxHash>>)

  /** The chains and the signer, whose answers may be anything. */
  class Network {
    var log: seq<Attempt>

    constructor ()
      ensures log == []
    {
      log := [];
    }

    /** `chain.sendWait(await signer.sign(unsigned))` */
    method SignAndSend(chain: string, unsigned: seq<Tx>) returns (r: Result<seq<TxHash>>)
      modifies this
      ensures log == old(log) + [Attempt(chain, unsigned, if r.Ok? then Some(r.value) else None)]
    {
      if * {
        log := log + [Attempt(chain, unsigned, None)];
        return Err(Invalid("signing or sending failed"));
      }
      var hashes: seq<TxHash> := *;
      log := log + [Attempt(chain, unsigned, Some(hashes))];
      return Ok(hashes);
    }
  }

  /** The hashes of all attempts, in the order of the sends. */
  function HashesOf(attempts: seq<Attempt>): seq<TxHash> {
    if |attempts| == 0 then []
    else
      HashesOf(attempts[..|attempts| - 1])
      + if attempts[|attempts| - 1].hashes.Some? then attempts[|attempts| - 1].hashes.value else []
  }

  /** Every batch has been sent, in order, and nothing else. */
  predicate Sent(attempts: seq<Attempt>, chain: string, batches: seq<seq<Tx>>) {
    && |attempts| == |batches|
    && forall i | 0 <= i < |attempts| ::
         attempts[i].chain == chain && attempts[i].batch == batches[i] && attempts[i].hashes.Some?
  }

  /** Batches have been sent up to some point; at most the last attempt failed. */
  predicate SentUpTo(attempts: seq<Attempt>, chain: string, batches: seq<seq<Tx>>) {
    && |attempts| <= |batches|
    && (forall i | 0 <= i < |attempts| :: attempts[i].chain == chain && attempts[i].batch == batches[i])
    && (forall i | 0 <= i < |attempts| - 1 :: attempts[i].hashes.Some?)
  }

  /** The last batch was not signed or not sent. */
  predicate Failed(attempts: seq<Attempt>) {
    |attempts| > 0 && attempts[|attempts| - 1].hashes.None?
  }

  lemma SentUpToPrefix(attempts: seq<Attempt>, chain: string, a: seq<seq<Tx>>, b: seq<seq<Tx>>)
    requires SentUpTo(attempts, chain, a) && IsPrefix(a, b)
    ensures SentUpTo(attempts, chain, b)
  {
  }

  lemma SentThen(attempts: seq<Attempt>, chain: string, batches: seq<seq<Tx>>, more: seq<Attempt>, others: seq<seq<Tx>>)
    requires Sent(attempts, chain, batches)
    ensures Sent(more, chain, others) ==> Sent(attempts + more, chain, batches + others)
    ensures SentUpTo(more, chain, others) ==> SentUpTo(attempts + more, chain, batches + others)
  {
  }

  lemma {:induction false} HashesAppend(a: seq<Attempt>, b: seq<Attempt>)
    ensures HashesOf(a + b) == HashesOf(a) + HashesOf(b)
  {
    if |b| == 0 {
      assert a + b == a;
    } else {
      assert (a + b)[..|a + b| - 1] == a + b[..|b| - 1];
      HashesAppend(a, b[..|b| - 1]);
    }
  }

  /** One transaction of the loop: it is added to the batch and, unless parallelizable, flushes it. */
  method AddTx(net: Network, chain: string, tx: Tx, unsigned: seq<Tx>, ghost before: seq<Tx>)
    returns (r: Result<seq<TxHash>>, rest: seq<Tx>, ghost attempts: seq<Attempt>)
    requires unsigned == Pending(before)
    modifies net
    ensures net.log == old(net.log) + attempts
    ensures IsPrefix(Flushed(before), Flushed(before + [tx]))
    ensures r.Ok? ==> rest == Pending(before + [tx]) && HashesOf(attempts) == r.value
                      && Sent(attempts, chain, Flushed(before + [tx])[|Flushed(before)|..])
    ensures r.Err? ==> Failed(attempts) && SentUpTo(attempts, chain, Flushed(before + [tx])[|Flushed(before)|..])
  {
    rest := unsigned + [tx];
    attempts := [];
    assert (before + [tx])[..|before|] == before;
    if tx.parallelizable {
      return Ok([]), rest, attempts;
    }
    r := net.SignAndSend(chain, rest);
    attempts := net.log[|old(net.log)|..];
    if r.Ok? {
      assert attempts == [Attempt(chain, rest, Some(r.value))];
      assert HashesOf(attempts) == HashesOf([]) + r.value;
      rest := [];
    }
  }

  /** The loop over one generator, with the transactions that are pending from before. */
  method SendStream(net: Network, chain: string, xfer: Stream, unsigned: seq<Tx>, ghost before: seq<Tx>)
    returns (r: Result<seq<TxHash>>, rest: seq<Tx>, ghost attempts: seq<Attempt>)
    requires unsigned == Pending(before)
    modifies net
    ensures net.log == old(net.log) + attempts
    ensures IsPrefix(Flushed(before), Flushed(before + xfer.txs))
    ensures r.Ok? ==> xfer.failure.None? && rest == Pending(before + xfer.txs) && HashesOf(attempts) == r.value
                      && Sent(attempts, chain, Flushed(before + xfer.txs)[|Flushed(before)|..])
    ensures r.Err? ==> SentUpTo(attempts, chain, Flushed(before + xfer.txs)[|Flushed(before)|..])
    ensures r.Err? && !Failed(attempts) ==>
              xfer.failure == Some(r.error) && Sent(attempts, chain, Flushed(before + xfer.txs)[|Flushed(before)|..])
  {
    var txHashes: seq<TxHash> := [];
    rest, attempts := unsigned, [];
    FlushedExtends(before, xfer.txs);
    assert before + xfer.txs[..0] == before;
    for i := 0 to |xfer.txs|
      invariant net.log == old(net.log) + attempts
      invariant Looped(chain, before, xfer.txs, i, rest, txHashes, attempts)
    {
      ghost var more;
      r, rest, more := SendTx(net, chain, xfer.txs, i, rest, txHashes, before, attempts);
      LogGrows(old(net.log), attempts, more);
      attempts := attempts + more;
      if r.Err? {
        assert Failed(attempts);
        return;
      }
      txHashes := r.value;
    }
    assert xfer.txs[..|xfer.txs|] == xfer.txs;
    if xfer.failure.Some? {
      return Err(xfer.failure.value), rest, attempts;
    }
    return Ok(txHashes), rest, attempts;
  }

  lemma LogGrows(log: seq<Attempt>, attempts: seq<Attempt>, more: seq<Attempt>)
    ensures log + attempts + more == log + (attempts + more)
  {
  }

  /** The first `i` transactions have been through the loop. */
  ghost predicate Looped(chain: string, before: seq<Tx>, txs: seq<Tx>, i: nat, rest: seq<Tx>, txHashes: seq<TxHash>,
                         attempts: seq<Attempt>)
    requires i <= |txs|
  {
    && rest == Pending(before + txs[..i]) && HashesOf(attempts) == txHashes
    && IsPrefix(Flushed(before), Flushed(before + txs[..i]))
    && Sent(attempts, chain, Flushed(before + txs[..i])[|Flushed(before)|..])
  }

  method SendTx(net: Network, chain: string, txs: seq<Tx>, i: nat, unsigned: seq<Tx>, txHashes: seq<TxHash>,
                ghost before: seq<Tx>, ghost sent: seq<Attempt>)
    returns (r: Result<seq<TxHash>>, rest: seq<Tx>, ghost attempts: seq<Attempt>)
    requires i < |txs| && Looped(chain, before, txs, i, unsigned, txHashes, sent)
    modifies net
    ensures net.log == old(net.log) + attempts
    ensures IsPrefix(Flushed(before), Flushed(before + txs))
    ensures r.Ok? ==> Looped(chain, before, txs, i + 1, rest, r.value, sent + attempts)
    ensures r.Err? ==> Failed(attempts) && SentUpTo(sent + attempts, chain, Flushed(before + txs)[|Flushed(before)|..])
  {
    r, rest, attempts := AddTx(net, chain, txs[i], unsigned, before + txs[..i]);
    FlushedExtends(before, txs);
    StreamNext(chain, before, txs, i, sent, attempts);
    HashesAppend(sent, attempts);
    if r.Ok? {
      r := Ok(txHashes + r.value);
    }
  }

  /** What transaction `i` adds to what has been sent before it. */
  lemma StreamNext(chain: string, before: seq<Tx>, txs: seq<Tx>, i: nat, attempts: seq<Attempt>, more: seq<Attempt>)
    requires i < |txs|
    requires IsPrefix(Flushed(before), Flushed(before + txs[..i]))
    requires Sent(attempts, chain, Flushed(before + txs[..i])[|Flushed(before)|..])
    ensures before + txs[..i] + [txs[i]] == before + txs[..i + 1]
    ensures var n, done, next, all :=
              |Flushed(before)|, Flushed(before + txs[..i]), Flushed(before + txs[..i + 1]), Flushed(before + txs);
            && IsPrefix(Flushed(before), next) && IsPrefix(done, next) && IsPrefix(next, all)
            && (Sent(more, chain, next[|done|..]) ==> Sent(attempts + more, chain, next[n..]))
            && (SentUpTo(more, chain, next[|done|..]) ==> SentUpTo(attempts + more, chain, all[n..]))
  {
    var n, done, next, all :=
      |Flushed(before)|, Flushed(before + txs[..i]), Flushed(before + txs[..i + 1]), Flushed(before + txs);
    FlushedExtends(before + txs[..i], [txs[i]]);
    FlushedExtends(before + txs[..i + 1], txs[i + 1..]);
    assert before + txs[..i] + [txs[i]] == before + txs[..i + 1];
    assert before + txs[..i + 1] + txs[i + 1..] == before + txs;
    assert next[n..] == done[n..] + next[|done|..];
    SentThen(attempts, chain, done[n..], more, next[|done|..]);
  }

  /** The flush after the loop. */
  method SendPending(net: Network, chain: string, unsigned: seq<Tx>, ghost txs: seq<Tx>)
    returns (r: Result<seq<TxHash>>, ghost attempts: seq<Attempt>)
    requires unsigned == Pending(txs)
    modifies net
    ensures net.log == old(net.log) + attempts
    ensures r.Ok? ==> HashesOf(attempts) == r.value && Sent(attempts, chain, Batches(txs)[|Flushed(txs)|..])
    ensures r.Err? ==> Failed(attempts) && SentUpTo(attempts, chain, Batches(txs)[|Flushed(txs)|..])
  {
    attempts := [];
    if |unsigned| == 0 {
      return Ok([]), attempts;
    }
    r := net.SignAndSend(chain, unsigned);
    attempts := net.log[|old(net.log)|..];
    if r.Ok? {
      assert attempts == [Attempt(chain, unsigned, Some(r.value))];
      assert HashesOf(attempts) == HashesOf([]) + r.value;
    }
  }

  /**
   * Signs and sends a whole stream: every batch once, in order; on failure, up to the batch that failed, or up to the
   * last that was flushed before the generator failed.
   */
  method SendAll(net: Network, chain: string, xfer: Stream)
    returns (r: Result<seq<TxHash>>, ghost attempts: seq<Attempt>)
    modifies net
    ensures net.log == old(net.log) + attempts
    ensures r.Ok? ==> xfer.failure.None? && HashesOf(attempts) == r.value && Sent(attempts, chain, Batches(xfer.txs))
    ensures r.Err? ==> SentUpTo(attempts, chain, Batches(xfer.txs))
    ensures r.Err? && !Failed(attempts) ==> xfer.failure == Some(r.error) && Sent(attempts, chain, Flushed(xfer.txs))
  {
    var hashes, unsigned, flushed := SendStream(net, chain, xfer, [], []);
    assert [] + xfer.txs == xfer.txs;
    ghost var n := |Flushed(xfer.txs)|;
    assert Flushed(xfer.txs)[0..] == Flushed(xfer.txs) && Batches(xfer.txs)[..n] == Flushed(xfer.txs);
    if hashes.Err? {
      SentUpToPrefix(flushed, chain, Flushed(xfer.txs), Batches(xfer.txs));
      return hashes, flushed;
    }
    var last, more := SendPending(net, chain, unsigned, xfer.txs);
    assert Flushed(xfer.txs) + Batches(xfer.txs)[n..] == Batches(xfer.txs);
    SentThen(flushed, chain, Flushed(xfer.txs), more, Batches(xfer.txs)[n..]);
    HashesAppend(flushed, more);
    attempts := flushed + more;
    if last.Err? {
      return last, attempts;
    }
    return Ok(hashes.value + last.value), attempts;
  }
}
