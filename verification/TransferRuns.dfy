// wormholeTransfer.ts: the states of a transfer, what each call may do to them, and what therefore holds
// of every sequence of calls, whether they return or throw.
module TransferRuns {
  import opened Batching

  // TransferState
  const CREATED := 1
  const INITIATED := 2
  const ATTESTED := 3
  const COMPLETED := 4

  datatype Call = Initiate | Fetch | Complete | Query

  /** A transfer seen from outside: its state, whether it has the attestations to complete, and all sends. */
  datatype Snap = Snap(state: nat, ready: bool, log: seq<Attempt>)

  /** What a call may do; every method of the three transfer classes is proved to do no more. */
  predicate Allowed(pre: Snap, call: Call, post: Snap) {
    && (|| post.state == pre.state
        || (call.Initiate? && pre.state == CREATED && post.state == INITIATED)
        || (call.Fetch? && pre.state == INITIATED && post.state == ATTESTED)
        || (call.Query? && pre.state <= COMPLETED && post.state == COMPLETED))
    && pre.log <= post.log
    && (call.Initiate? && pre.state != CREATED ==> post == pre)
    && (call.Complete? ==> post.state == pre.state && (pre.state < ATTESTED ==> post == pre))
    && (call.Fetch? || call.Query? ==> post.log == pre.log)
  }

  /** Attested transfers have what completeTransfer needs, at every point of the run. */
  predicate ReadyWhenAttested(run: seq<Snap>) {
    forall i | 0 <= i < |run| :: run[i].state == ATTESTED ==> run[i].ready
  }

  /** A run: the snapshots before, between and after the calls. */
  ghost predicate IsRun(run: seq<Snap>, calls: seq<Call>) {
    && |run| == |calls| + 1
    && forall i | 0 <= i < |calls| :: Allowed(run[i], calls[i], run[i + 1])
  }

  lemma RunGoesOn(run: seq<Snap>, calls: seq<Call>, call: Call, post: Snap)
    requires IsRun(run, calls) && Allowed(run[|calls|], call, post)
    ensures IsRun(run + [post], calls + [call])
  {
    var run', calls' := run + [post], calls + [call];
    forall i | 0 <= i < |calls'|
      ensures Allowed(run'[i], calls'[i], run'[i + 1])
    {
      if i < |calls| {
        assert Allowed(run[i], calls[i], run[i + 1]);
      }
    }
  }

  /** The state never decreases, and what has been sent stays sent. */
  lemma {:induction false} StateNeverDecreases(run: seq<Snap>, calls: seq<Call>, i: nat, j: nat)
    requires IsRun(run, calls) && i <= j < |run|
    ensures run[i].state <= run[j].state && run[i].log <= run[j].log
    decreases j
  {
    if i < j {
      StateNeverDecreases(run, calls, i, j - 1);
      assert Allowed(run[j - 1], calls[j - 1], run[j]);
    }
  }

  /** Once a call has moved the state past Created, no later initiateTransfer sends or changes anything. */
  lemma InitiatedOnce(run: seq<Snap>, calls: seq<Call>, i: nat, j: nat)
    requires IsRun(run, calls) && i < j < |calls|
    requires run[i + 1].state > CREATED && calls[j] == Initiate
    ensures run[j + 1] == run[j]
  {
    StateNeverDecreases(run, calls, i + 1, j);
    assert Allowed(run[j], calls[j], run[j + 1]);
  }

  /** While the state is past Created and not yet Attested, nothing is sent. */
  lemma {:induction false} NothingSentBetween(run: seq<Snap>, calls: seq<Call>, i: nat, j: nat)
    requires IsRun(run, calls) && i <= j < |run|
    requires run[i].state > CREATED && run[j].state < ATTESTED
    ensures run[j].log == run[i].log
    decreases j
  {
    if i < j {
      StateNeverDecreases(run, calls, i, j - 1);
      assert Allowed(run[j - 1], calls[j - 1], run[j]);
      NothingSentBetween(run, calls, i, j - 1);
    }
  }

  /** completeTransfer sends only after an attestation was fetched (or the transfer began attested). */
  lemma {:induction false} CompletedOnlyAfterAttested(run: seq<Snap>, calls: seq<Call>, j: nat)
    requires IsRun(run, calls) && j < |calls| && calls[j] == Complete && run[j + 1].log != run[j].log
    requires run[0].state <= INITIATED
    ensures exists i | 0 <= i < j :: (calls[i] == Fetch || calls[i] == Query) && run[i].state < ATTESTED <= run[i + 1].state
  {
    assert Allowed(run[j], calls[j], run[j + 1]);
    var i := FirstAttested(run, calls, j);
  }

  lemma {:induction false} FirstAttested(run: seq<Snap>, calls: seq<Call>, j: nat) returns (i: nat)
    requires IsRun(run, calls) && j < |run| && run[0].state <= INITIATED && run[j].state >= ATTESTED
    ensures i < j && (calls[i] == Fetch || calls[i] == Query) && run[i].state < ATTESTED <= run[i + 1].state
    decreases j
  {
    assert Allowed(run[j - 1], calls[j - 1], run[j]);
    if run[j - 1].state >= ATTESTED {
      i := FirstAttested(run, calls, j - 1);
    } else {
      i := j - 1;
    }
  }
}
