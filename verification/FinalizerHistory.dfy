/** Everything a commit finalizer does from the first commit on, call by call, and why each transaction ends up
    finalized or rejected in its output. */
module FinalizerHistory {
  import opened Blocks
  import opened FinalizerState
  import opened FinalizerQueue
  import opened FinalizerFates
  import opened CommitFinalizers

  /** One call: what it went by, the queue with the new commit, what came out, and the queue that is left. */
  datatype Call = Call(rules: Rules, before: Queue, finalized: seq<CommittedSubDag>, after: Queue)

  /** What the finalizer promises about a call. */
  ghost predicate IsCall(x: Call) {
    && x.rules.received != [] && |x.before| <= |x.rules.received|
    && AreReceived(x.rules, |x.rules.received| - |x.before|, x.before)
    && QueueProgresses(x.rules, x.before, x.finalized, x.after)
  }

  /** The next call starts with what the last one left and one more commit. */
  ghost predicate Follows(received: seq<CommittedSubDag>, queue: Queue, x: Call) {
    && x.rules.received != [] && x.rules.received[..|x.rules.received| - 1] == received
    && x.before == queue + [NewCommitState(x.rules.received[|x.rules.received| - 1])]
  }

  ghost function Received(calls: seq<Call>): seq<CommittedSubDag> {
    if calls == [] then [] else calls[|calls| - 1].rules.received
  }

  ghost function Buffered(calls: seq<Call>): Queue {
    if calls == [] then [] else calls[|calls| - 1].after
  }

  ghost function Output(calls: seq<Call>): seq<CommittedSubDag> {
    if calls == [] then [] else Output(calls[..|calls| - 1]) + calls[|calls| - 1].finalized
  }

  /** All calls since the first commit, with the same garbage collection depth. */
  ghost predicate IsHistory(gcDepth: nat, calls: seq<Call>) {
    calls == [] ||
    (var n := |calls| - 1;
     && IsHistory(gcDepth, calls[..n]) && IsCall(calls[n]) && calls[n].rules.gcDepth == gcDepth
     && Follows(Received(calls[..n]), Buffered(calls[..n]), calls[n]))
  }

  ghost predicate HadReasonToReject(calls: seq<Call>, commit: CommittedSubDag, r: BlockRef, t: nat) {
    exists i :: 0 <= i < |calls| && commit in calls[i].rules.received && MayReject(calls[i].rules, commit, r, t)
  }

  ghost predicate HadReasonToFinalize(calls: seq<Call>, commit: CommittedSubDag, r: BlockRef, t: nat) {
    exists i :: 0 <= i < |calls| && commit in calls[i].rules.received && MayFinalize(calls[i].rules, commit, r, t)
  }

  /** Rejected transactions were rejected, and all others that are decided were finalized, for a reason. */
  ghost predicate IsExplained(gcDepth: nat, calls: seq<Call>, s: CommitState) {
    && NoEmptyEntry(s.rejectedTransactions)
    && (forall r, t :: Has(s.pendingTransactions, r, t) || Has(s.rejectedTransactions, r, t) ==>
          IsLookedAt(gcDepth, s.commit, r, t))
    && (forall r, t :: Has(s.rejectedTransactions, r, t) ==> HadReasonToReject(calls, s.commit, r, t))
    && (forall r, t :: IsDecidable(gcDepth, s.commit, r, t) && !IsUndecided(gcDepth, s, r, t) ==>
          Has(s.rejectedTransactions, r, t) || HadReasonToFinalize(calls, s.commit, r, t))
  }

  lemma NewCommitIsExplained(gcDepth: nat, calls: seq<Call>, commit: CommittedSubDag)
    ensures IsExplained(gcDepth, calls, NewCommitState(commit))
  {
    hide HadReasonToReject, HadReasonToFinalize;
  }

  lemma MoreReasons(calls: seq<Call>, x: Call, commit: CommittedSubDag, r: BlockRef, t: nat)
    ensures HadReasonToReject(calls, commit, r, t) ==> HadReasonToReject(calls + [x], commit, r, t)
    ensures HadReasonToFinalize(calls, commit, r, t) ==> HadReasonToFinalize(calls + [x], commit, r, t)
    ensures commit in x.rules.received && MayReject(x.rules, commit, r, t) ==>
              HadReasonToReject(calls + [x], commit, r, t)
    ensures commit in x.rules.received && MayFinalize(x.rules, commit, r, t) ==>
              HadReasonToFinalize(calls + [x], commit, r, t)
  {
    hide MayReject, MayFinalize;
    var all := calls + [x];
    assert all[|calls|] == x;
    if HadReasonToReject(calls, commit, r, t) {
      var i :| 0 <= i < |calls| && commit in calls[i].rules.received && MayReject(calls[i].rules, commit, r, t);
      assert all[i] == calls[i];
    }
    if HadReasonToFinalize(calls, commit, r, t) {
      var i :| 0 <= i < |calls| && commit in calls[i].rules.received && MayFinalize(calls[i].rules, commit, r, t);
      assert all[i] == calls[i];
    }
  }

  lemma ProgressIsExplained(calls: seq<Call>, x: Call, s: CommitState, s': CommitState)
    requires IsExplained(x.rules.gcDepth, calls, s) && Progresses(x.rules, s, s') && s.commit in x.rules.received
    ensures IsExplained(x.rules.gcDepth, calls + [x], s')
  {
    hide HadReasonToReject, HadReasonToFinalize, MayReject, MayFinalize, IsUndecided, Has, IsDecidable, IsLookedAt,
         NoEmptyEntry;
    var g := x.rules.gcDepth;
    forall r, t
      ensures Has(s'.rejectedTransactions, r, t) ==> HadReasonToReject(calls + [x], s'.commit, r, t)
      ensures IsDecidable(g, s'.commit, r, t) && !IsUndecided(g, s', r, t) && !Has(s'.rejectedTransactions, r, t) ==>
                HadReasonToFinalize(calls + [x], s'.commit, r, t)
    {
      MoreReasons(calls, x, s.commit, r, t);
    }
  }

  /** What comes out is the received commit with transactions rejected, and every transaction has its reason. */
  ghost predicate IsExplainedOutput(gcDepth: nat, calls: seq<Call>, commit: CommittedSubDag, out: CommittedSubDag) {
    && out == commit.(rejectedTransactions := out.rejectedTransactions)
    && (commit.rejectedTransactions == map[] ==> AreExplainedRejects(gcDepth, calls, commit, out.rejectedTransactions))
  }

  ghost predicate AreExplainedRejects(gcDepth: nat, calls: seq<Call>, commit: CommittedSubDag, rejected: Transactions) {
    && NoEmptyEntry(rejected)
    && (forall r, t :: Has(rejected, r, t) ==>
          IsLookedAt(gcDepth, commit, r, t) && HadReasonToReject(calls, commit, r, t))
    && (forall r, t :: IsDecidable(gcDepth, commit, r, t) && !Has(rejected, r, t) ==>
          HadReasonToFinalize(calls, commit, r, t))
  }

  lemma DoneIsExplained(gcDepth: nat, calls: seq<Call>, s: CommitState)
    requires IsExplained(gcDepth, calls, s) && s.IsDone()
    ensures IsExplainedOutput(gcDepth, calls, s.commit, Emit(s))
  {
    hide HadReasonToReject, HadReasonToFinalize, IsDecidable, IsLookedAt, NoEmptyEntry;
    assert s.commit.rejectedTransactions == map[] ==> Emit(s).rejectedTransactions == s.rejectedTransactions;
  }

  lemma OutputStaysExplained(gcDepth: nat, calls: seq<Call>, x: Call, commit: CommittedSubDag, out: CommittedSubDag)
    requires IsExplainedOutput(gcDepth, calls, commit, out)
    ensures IsExplainedOutput(gcDepth, calls + [x], commit, out)
  {
    hide HadReasonToReject, HadReasonToFinalize, MayReject, MayFinalize, Has, IsDecidable, IsLookedAt, NoEmptyEntry;
    forall r, t
      ensures HadReasonToReject(calls, commit, r, t) ==> HadReasonToReject(calls + [x], commit, r, t)
      ensures HadReasonToFinalize(calls, commit, r, t) ==> HadReasonToFinalize(calls + [x], commit, r, t)
    {
      MoreReasons(calls, x, commit, r, t);
    }
  }

  /** The received commits are the output followed by the buffer, all explained. */
  ghost predicate Accounts(gcDepth: nat, calls: seq<Call>, received: seq<CommittedSubDag>, output: seq<CommittedSubDag>,
                           queue: Queue)
  {
    && |received| == |output| + |queue|
    && (forall i :: 0 <= i < |output| ==> IsExplainedOutput(gcDepth, calls, received[i], output[i]))
    && (forall k :: 0 <= k < |queue| ==>
          queue[k].commit == received[|output| + k] && IsExplained(gcDepth, calls, queue[k]))
  }

  lemma {:induction false} HistoryIsExplained(gcDepth: nat, calls: seq<Call>)
    requires IsHistory(gcDepth, calls)
    ensures Accounts(gcDepth, calls, Received(calls), Output(calls), Buffered(calls))
  {
    hide Accounts, IsCall, Follows;
    if calls == [] {
      NothingIsExplained(gcDepth);
    } else {
      var n := |calls| - 1;
      HistoryIsExplained(gcDepth, calls[..n]);
      assert calls == calls[..n] + [calls[n]];
      NextCallIsExplained(gcDepth, calls[..n], calls[n]);
    }
  }

  lemma NothingIsExplained(gcDepth: nat)
    ensures Accounts(gcDepth, [], [], [], [])
  {
  }

  lemma NextCallIsExplained(gcDepth: nat, calls: seq<Call>, x: Call)
    requires IsCall(x) && x.rules.gcDepth == gcDepth && Follows(Received(calls), Buffered(calls), x)
    requires Accounts(gcDepth, calls, Received(calls), Output(calls), Buffered(calls))
    ensures Accounts(gcDepth, calls + [x], x.rules.received, Output(calls) + x.finalized, x.after)
  {
    hide IsExplainedOutput, IsExplained, NewCommitState, Output, Received, Buffered, Progresses, IsSettledAs;
    var output, received, output' := Output(calls), x.rules.received, Output(calls) + x.finalized;
    BeforeIsExplained(gcDepth, calls, x);
    forall i | 0 <= i < |output'|
      ensures IsExplainedOutput(gcDepth, calls + [x], received[i], output'[i])
    {
      if i < |output| {
        assert received[i] == Received(calls)[i];
        OutputStaysExplained(gcDepth, calls, x, received[i], output[i]);
      } else {
        SettledIsExplained(calls, x, x.before[i - |output|], output'[i]);
      }
    }
    forall k | 0 <= k < |x.after|
      ensures x.after[k].commit == received[|output'| + k] && IsExplained(gcDepth, calls + [x], x.after[k])
    {
      ProgressIsExplained(calls, x, x.before[|x.finalized| + k], x.after[k]);
      ProgressKeepsCommit(x.rules, x.before[|x.finalized| + k], x.after[k]);
    }
  }

  lemma BeforeIsExplained(gcDepth: nat, calls: seq<Call>, x: Call)
    requires IsCall(x) && x.rules.gcDepth == gcDepth && Follows(Received(calls), Buffered(calls), x)
    requires Accounts(gcDepth, calls, Received(calls), Output(calls), Buffered(calls))
    ensures |x.rules.received| == |Output(calls)| + |x.before|
    ensures forall k :: 0 <= k < |x.before| ==>
              x.before[k].commit == x.rules.received[|Output(calls)| + k] && IsExplained(gcDepth, calls, x.before[k])
  {
    hide IsExplainedOutput, IsExplained, Output, Received, Buffered, QueueProgresses, NumTransactions;
    NewCommitIsExplained(gcDepth, calls, x.rules.received[|x.rules.received| - 1]);
  }

  lemma ProgressKeepsCommit(x: Rules, s: CommitState, s': CommitState)
    requires Progresses(x, s, s')
    ensures s'.commit == s.commit
  {
  }

  lemma SettledIsExplained(calls: seq<Call>, x: Call, s: CommitState, out: CommittedSubDag)
    requires IsExplained(x.rules.gcDepth, calls, s) && IsSettledAs(x.rules, s, out) && s.commit in x.rules.received
    ensures IsExplainedOutput(x.rules.gcDepth, calls + [x], s.commit, out)
  {
    hide IsExplained, IsExplainedOutput, Progresses, Emit;
    var s' :| Progresses(x.rules, s, s') && s'.IsDone() && out == Emit(s');
    ProgressIsExplained(calls, x, s, s');
    ProgressKeepsCommit(x.rules, s, s');
    DoneIsExplained(x.rules.gcDepth, calls + [x], s');
  }
}
