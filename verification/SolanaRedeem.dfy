// The Solana token bridge (platforms/solana/src/protocols/tokenBridge.ts): the transactions that redeem a
// VAA, and in which batches the batching loop sends them.
module SolanaRedeem {
  import opened Common
  import opened Batching

  /** A VAA to redeem: whether the token account exists, and the instructions that verify its signatures. */
  datatype Job = Job(vaa: nat, accountExists: bool, verifySignatures: seq<Instruction>)

  // ---- postVaa ----------------------------------------------------------------------------

  /** `instructions.slice(i, i + 2)` for i = 0, 2, 4, ... */
  function Chunks(instructions: seq<Instruction>): seq<seq<Instruction>> {
    if |instructions| == 0 then []
    else if |instructions| == 1 then [instructions]
    else [instructions[..2]] + Chunks(instructions[2..])
  }

  function Slice(s: seq<Instruction>, i: nat, j: nat): seq<Instruction> {
    if i < |s| && i <= j then s[i..if j < |s| then j else |s|] else []
  }

  method PostVaa(job: Job) returns (unsignedTransactions: seq<seq<Instruction>>)
    ensures unsignedTransactions == Chunks(job.verifySignatures) + [[PostVAA(job.vaa)]]
  {
    var instructions := job.verifySignatures;
    unsignedTransactions := [];
    var i := 0;
    assert instructions[0..] == instructions;
    while i < |instructions|
      invariant unsignedTransactions + Chunks(if i < |instructions| then instructions[i..] else []) == Chunks(instructions)
      decreases |instructions| - i
    {
      ghost var rest := instructions[i..];
      assert Slice(instructions, i, i + 2) == if |rest| == 1 then rest else rest[..2];
      assert |rest| > 2 ==> rest[2..] == instructions[i + 2..];
      assert Chunks(rest) == [Slice(instructions, i, i + 2)] + Chunks(if i + 2 < |instructions| then instructions[i + 2..] else []);
      unsignedTransactions := unsignedTransactions + [Slice(instructions, i, i + 2)];
      i := i + 2;
    }
    unsignedTransactions := unsignedTransactions + [[PostVAA(job.vaa)]];
  }

  lemma FlattenFirst<T>(s: seq<T>, ss: seq<seq<T>>)
    ensures Flatten([s] + ss) == s + Flatten(ss)
    decreases |ss|
  {
    if |ss| == 0 {
      assert [s] + ss == [s];
      assert Flatten([s]) == Flatten([]) + s;
    } else {
      assert ([s] + ss)[..|ss|] == [s] + ss[..|ss| - 1];
      FlattenFirst(s, ss[..|ss| - 1]);
    }
  }

  /** No signature is left out: the chunks of one or two instructions hold all of them, in order. */
  lemma {:induction false} ChunksConcatenate(instructions: seq<Instruction>)
    ensures Flatten(Chunks(instructions)) == instructions
    ensures forall chunk <- Chunks(instructions) :: 1 <= |chunk| <= 2
    ensures forall i | 0 <= i < |Chunks(instructions)| - 1 :: |Chunks(instructions)[i]| == 2
    ensures Chunks(instructions) == [] <==> instructions == []
  {
    if |instructions| == 1 {
      FlattenFirst(instructions, []);
      assert [instructions] + [] == [instructions];
    } else if |instructions| > 1 {
      ChunksConcatenate(instructions[2..]);
      FlattenFirst(instructions[..2], Chunks(instructions[2..]));
    }
  }

  // ---- redeem -----------------------------------------------------------------------------

  function CreateTx(job: Job): Tx {
    Tx([CreateATA(job.vaa)], "Redeem.CreateATA", false)
  }

  /** All can be sent together; the last one makes them go out. */
  function VerifyTxs(job: Job): seq<Tx> {
    var chunks := Chunks(job.verifySignatures);
    seq(|chunks|, i requires 0 <= i < |chunks| => Tx(chunks[i], "Redeem.VerifySignature", i < |chunks| - 1))
  }

  function PostTx(job: Job): Tx {
    Tx([PostVAA(job.vaa)], "Redeem.PostVAA", false)
  }

  function TransferTx(job: Job): Tx {
    Tx([CompleteTransfer(job.vaa)], "Solana.RedeemTransfer", false)
  }

  function RedeemTxs(job: Job): seq<Tx> {
    (if job.accountExists then [] else [CreateTx(job)]) + VerifyTxs(job) + [PostTx(job)] + [TransferTx(job)]
  }

  method Redeem(job: Job) returns (xfer: seq<Tx>)
    ensures xfer == RedeemTxs(job)
  {
    xfer := [];
    if !job.accountExists {
      xfer := xfer + [CreateTx(job)];
    }
    ghost var start := xfer;
    var postVaaTxns := PostVaa(job);
    var postVaaTx := postVaaTxns[|postVaaTxns| - 1];
    postVaaTxns := postVaaTxns[..|postVaaTxns| - 1];
    assert postVaaTxns == Chunks(job.verifySignatures);
    for i := 0 to |postVaaTxns|
      invariant xfer == start + VerifyTxs(job)[..i]
    {
      xfer := xfer + [Tx(postVaaTxns[i], "Redeem.VerifySignature", i < |postVaaTxns| - 1)];
    }
    assert VerifyTxs(job)[..|postVaaTxns|] == VerifyTxs(job);
    xfer := xfer + [Tx(postVaaTx, "Redeem.PostVAA", false)];
    xfer := xfer + [TransferTx(job)];
  }

  // ---- in batches -------------------------------------------------------------------------

  function CreateBatches(job: Job): seq<seq<Tx>> {
    if job.accountExists then [] else [[CreateTx(job)]]
  }

  function VerifyBatches(job: Job): seq<seq<Tx>> {
    if VerifyTxs(job) == [] then [] else [VerifyTxs(job)]
  }

  /** The batches that the redemption should go out in. */
  function RedeemBatches(job: Job): seq<seq<Tx>> {
    CreateBatches(job) + VerifyBatches(job) + [[PostTx(job)]] + [[TransferTx(job)]]
  }

  lemma OneEnds(tx: Tx)
    requires !tx.parallelizable
    ensures EndsOnce([tx])
  {
  }

  lemma VerifyEndsOnce(job: Job)
    requires VerifyTxs(job) != []
    ensures EndsOnce(VerifyTxs(job))
  {
  }

  lemma RedeemBatchesEndOnce(job: Job)
    ensures forall batch <- RedeemBatches(job) :: EndsOnce(batch)
  {
    OneEnds(CreateTx(job));
    OneEnds(PostTx(job));
    OneEnds(TransferTx(job));
    if VerifyTxs(job) != [] {
      VerifyEndsOnce(job);
    }
  }

  lemma RedeemBatchesConcatenate(job: Job)
    ensures Flatten(RedeemBatches(job)) == RedeemTxs(job)
  {
    var create := if job.accountExists then [] else [[CreateTx(job)]];
    var verify := if VerifyTxs(job) == [] then [] else [VerifyTxs(job)];
    assert Flatten(create) == if job.accountExists then [] else [CreateTx(job)] by {
      FlattenOne([], [CreateTx(job)]);
      assert [] + [[CreateTx(job)]] == [[CreateTx(job)]];
    }
    assert Flatten(create + verify) == Flatten(create) + VerifyTxs(job) by {
      FlattenOne(create, VerifyTxs(job));
      assert verify == [] ==> create + verify == create;
    }
    FlattenOne(create + verify, [PostTx(job)]);
    FlattenOne(create + verify + [[PostTx(job)]], [TransferTx(job)]);
  }

  function StreamOf(jobs: seq<Job>): seq<Tx> {
    if |jobs| == 0 then [] else StreamOf(jobs[..|jobs| - 1]) + RedeemTxs(jobs[|jobs| - 1])
  }

  function BatchesOf(jobs: seq<Job>): seq<seq<Tx>> {
    if |jobs| == 0 then [] else BatchesOf(jobs[..|jobs| - 1]) + RedeemBatches(jobs[|jobs| - 1])
  }

  lemma {:induction false} FlattenAppend<T>(a: seq<seq<T>>, b: seq<seq<T>>)
    ensures Flatten(a + b) == Flatten(a) + Flatten(b)
  {
    if |b| == 0 {
      assert a + b == a;
    } else {
      assert (a + b)[..|a + b| - 1] == a + b[..|b| - 1];
      FlattenAppend(a, b[..|b| - 1]);
    }
  }

  lemma {:induction false} BatchesOfConcatenate(jobs: seq<Job>)
    ensures Flatten(BatchesOf(jobs)) == StreamOf(jobs)
    ensures forall batch <- BatchesOf(jobs) :: EndsOnce(batch)
  {
    if |jobs| > 0 {
      var front, last := jobs[..|jobs| - 1], jobs[|jobs| - 1];
      BatchesOfConcatenate(front);
      FlattenAppend(BatchesOf(front), RedeemBatches(last));
      RedeemBatchesConcatenate(last);
      RedeemBatchesEndOnce(last);
    }
  }

  /** However many VAAs are redeemed in one go, each goes out in just its own batches. */
  lemma RedemptionsBatchAlone(jobs: seq<Job>)
    ensures Batches(StreamOf(jobs)) == BatchesOf(jobs)
  {
    BatchesOfConcatenate(jobs);
    EndedBatchesStay(BatchesOf(jobs));
  }

  lemma BatchesOfFlushed(jobs: seq<Job>)
    ensures Flushed(StreamOf(jobs)) == BatchesOf(jobs)
  {
    BatchesOfConcatenate(jobs);
    FlushedFlattened(BatchesOf(jobs));
  }

  lemma {:induction false} StreamOfPrefix(jobs: seq<Job>, k: nat)
    requires k < |jobs|
    ensures IsPrefix(StreamOf(jobs[..k]) + RedeemTxs(jobs[k]), StreamOf(jobs))
  {
    var front := jobs[..|jobs| - 1];
    if k < |front| {
      StreamOfPrefix(front, k);
      assert front[..k] == jobs[..k] && front[k] == jobs[k];
    } else {
      assert front == jobs[..k];
    }
  }

  /** Where in the batches of all jobs those of job `j` begin. */
  function StartOf(jobs: seq<Job>, j: nat): nat
    requires j < |jobs|
  {
    |BatchesOf(jobs[..j])|
  }

  /** `own` stands in `all` from position `a` on. */
  predicate HasSlice<T(==)>(all: seq<T>, own: seq<T>, a: nat) {
    a + |own| <= |all| && forall k | 0 <= k < |own| :: own[k] == all[a + k]
  }

  lemma {:induction false} BatchesOfJob(jobs: seq<Job>, j: nat)
    requires j < |jobs|
    ensures HasSlice(BatchesOf(jobs), RedeemBatches(jobs[j]), StartOf(jobs, j))
  {
    var front := jobs[..|jobs| - 1];
    if j < |front| {
      BatchesOfJob(front, j);
      assert front[..j] == jobs[..j] && front[j] == jobs[j];
    } else {
      assert front == jobs[..j];
    }
  }

  /** From `start` on, the attempts are those of one job: batch for batch, each made when the one before went through. */
  predicate AttemptsOf(own: seq<seq<Tx>>, attempts: seq<Attempt>, start: nat) {
    forall k | 0 <= k < |own| ::
      && (start + k < |attempts| ==> attempts[start + k].batch == own[k])
      && (start + k + 1 < |attempts| ==> attempts[start + k].hashes.Some?)
  }

  lemma AttemptsOfJob(jobs: seq<Job>, j: nat, attempts: seq<Attempt>, chain: string)
    requires j < |jobs| && SentUpTo(attempts, chain, BatchesOf(jobs))
    ensures AttemptsOf(RedeemBatches(jobs[j]), attempts, StartOf(jobs, j))
  {
    BatchesOfJob(jobs, j);
    AttemptsOfSlice(BatchesOf(jobs), RedeemBatches(jobs[j]), attempts, chain, StartOf(jobs, j));
  }

  lemma AttemptsOfSlice(all: seq<seq<Tx>>, own: seq<seq<Tx>>, attempts: seq<Attempt>, chain: string, a: nat)
    requires SentUpTo(attempts, chain, all) && HasSlice(all, own, a)
    ensures AttemptsOf(own, attempts, a)
  {
  }

  /** A batch of just these instructions went out before attempt `p` was made, and went through. */
  predicate SentJustBefore(attempts: seq<Attempt>, p: nat, instructions: seq<Instruction>) {
    0 < p <= |attempts| && InstructionsOf(attempts[p - 1].batch) == instructions && attempts[p - 1].hashes.Some?
  }

  predicate BatchJustBefore(attempts: seq<Attempt>, p: nat, batch: seq<Tx>) {
    0 < p <= |attempts| && attempts[p - 1].batch == batch && attempts[p - 1].hashes.Some?
  }

  function InstructionsOf(txs: seq<Tx>): seq<Instruction> {
    Flatten(seq(|txs|, i requires 0 <= i < |txs| => txs[i].transaction))
  }

  /** The transactions of one verification batch hold all the instructions that verify the signatures. */
  lemma VerifyTxsHoldAll(job: Job)
    ensures InstructionsOf(VerifyTxs(job)) == job.verifySignatures
  {
    var txs := VerifyTxs(job);
    ChunksConcatenate(job.verifySignatures);
    assert seq(|txs|, i requires 0 <= i < |txs| => txs[i].transaction) == Chunks(job.verifySignatures);
  }

  /**
   * When the VAA of a job is posted, all its signature verifications have been sent just before, in one batch that
   * went through; and when its transfer is completed, posting it has.
   */
  predicate VerifiedThenPosted(job: Job, attempts: seq<Attempt>, start: nat) {
    && |RedeemBatches(job)| >= 2
    && var p := start + |RedeemBatches(job)| - 2;
       && (p < |attempts| ==> attempts[p].batch == [PostTx(job)])
       && (p < |attempts| && job.verifySignatures != [] ==> SentJustBefore(attempts, p, job.verifySignatures))
       && (p + 1 < |attempts| ==> attempts[p + 1].batch == [TransferTx(job)])
       && (p + 1 < |attempts| ==> SentJustBefore(attempts, p + 1, [PostVAA(job.vaa)]))
  }

  function AllInstructions(batches: seq<seq<Tx>>): seq<seq<Instruction>> {
    seq(|batches|, i requires 0 <= i < |batches| => InstructionsOf(batches[i]))
  }

  lemma AllInstructionsAppend(a: seq<seq<Tx>>, b: seq<seq<Tx>>)
    ensures AllInstructions(a + b) == AllInstructions(a) + AllInstructions(b)
  {
  }

  lemma OneBatch(batch: seq<Tx>, instructions: seq<Instruction>)
    requires InstructionsOf(batch) == instructions
    ensures AllInstructions([batch]) == [instructions]
  {
  }

  lemma VerifyInstructions(job: Job)
    ensures AllInstructions(VerifyBatches(job)) == if job.verifySignatures == [] then [] else [job.verifySignatures]
  {
    ChunksConcatenate(job.verifySignatures);
    VerifyTxsHoldAll(job);
    OneBatch(VerifyTxs(job), job.verifySignatures);
  }

  lemma CreateInstructions(job: Job)
    ensures AllInstructions(CreateBatches(job)) == if job.accountExists then [] else [[CreateATA(job.vaa)]]
  {
    OneInstruction(CreateTx(job), CreateATA(job.vaa));
    OneBatch([CreateTx(job)], [CreateATA(job.vaa)]);
  }

  /** The instructions of the batches of a job: an account if there is none, the signatures, posting, completing. */
  lemma BatchInstructions(job: Job)
    ensures AllInstructions(RedeemBatches(job)) ==
              (if job.accountExists then [] else [[CreateATA(job.vaa)]])
              + (if job.verifySignatures == [] then [] else [job.verifySignatures])
              + [[PostVAA(job.vaa)]] + [[CompleteTransfer(job.vaa)]]
  {
    var post, transfer := [[PostTx(job)]], [[TransferTx(job)]];
    AllInstructionsAppend(CreateBatches(job) + VerifyBatches(job) + post, transfer);
    AllInstructionsAppend(CreateBatches(job) + VerifyBatches(job), post);
    AllInstructionsAppend(CreateBatches(job), VerifyBatches(job));
    CreateInstructions(job);
    VerifyInstructions(job);
    OneInstruction(PostTx(job), PostVAA(job.vaa));
    OneBatch(post[0], [PostVAA(job.vaa)]);
    OneInstruction(TransferTx(job), CompleteTransfer(job.vaa));
    OneBatch(transfer[0], [CompleteTransfer(job.vaa)]);
  }

  /** Whatever fails on the way. (By AttemptsOfJob the premise holds of every job in one go of completeTransfer.) */
  lemma PostedOnlyAfterVerified(job: Job, attempts: seq<Attempt>, start: nat)
    requires AttemptsOf(RedeemBatches(job), attempts, start)
    ensures VerifiedThenPosted(job, attempts, start)
  {
    LastBatches(job);
    LastAttempts(RedeemBatches(job), attempts, start);
    VerifyTxsHoldAll(job);
    OneInstruction(PostTx(job), PostVAA(job.vaa));
  }

  lemma OneInstruction(tx: Tx, instruction: Instruction)
    requires tx.transaction == [instruction]
    ensures InstructionsOf([tx]) == [instruction]
  {
    var none: seq<seq<Instruction>> := [];
    assert seq(|[tx]|, i requires 0 <= i < |[tx]| => [tx][i].transaction) == none + [[instruction]];
    FlattenOne(none, [instruction]);
  }

  lemma LastAttempts(own: seq<seq<Tx>>, attempts: seq<Attempt>, start: nat)
    requires AttemptsOf(own, attempts, start) && |own| >= 2
    ensures var p := start + |own| - 2;
            && (p < |attempts| ==> attempts[p].batch == own[|own| - 2])
            && (p < |attempts| && |own| >= 3 ==> BatchJustBefore(attempts, p, own[|own| - 3]))
            && (p + 1 < |attempts| ==> attempts[p + 1].batch == own[|own| - 1])
            && (p + 1 < |attempts| ==> BatchJustBefore(attempts, p + 1, own[|own| - 2]))
  {
    var n := |own|;
    assert start + (n - 2) == start + n - 2 && start + (n - 1) == start + n - 1;
    if n >= 3 {
      assert start + (n - 3) == start + n - 3;
      assert start + n - 2 < |attempts| ==> attempts[start + (n - 3)].batch == own[n - 3];
    }
  }

  lemma LastBatches(job: Job)
    ensures var own, n := RedeemBatches(job), |RedeemBatches(job)|;
            && n >= 2 && own[n - 2] == [PostTx(job)] && own[n - 1] == [TransferTx(job)]
            && (job.verifySignatures != [] ==> n >= 3 && own[n - 3] == VerifyTxs(job))
  {
    ChunksConcatenate(job.verifySignatures);
  }
}
