/** The state of one commit that waits for finalization, and how its transactions move from
    pending to finalized or rejected. */
module FinalizerState {
  import opened Committees
  import opened Blocks
  import opened BlockIndex
  import opened VoteTraversal

  /** Sets of transaction indices by block. */
  type Transactions = map<BlockRef, set<nat>>

  /** Accumulated reject stake per transaction, by block; a transaction that is not listed has no
      reject votes. */
  type RejectStakes = map<BlockRef, map<nat, nat>>

  datatype CommittedSubDag = CommittedSubDag(
    index: nat,
    leader: BlockRef,
    blocks: seq<Block>,
    decidedWithLocalBlocks: bool,
    rejectedTransactions: Transactions)

  datatype CommitState = CommitState(
    commit: CommittedSubDag,
    pendingBlocks: map<BlockRef, nat>,
    pendingTransactions: Transactions,
    rejectedTransactions: Transactions)
  {
    /** Nothing is left to decide about the commit. */
    predicate IsDone() {
      pendingBlocks == map[] && pendingTransactions == map[]
    }
  }

  function NumTransactions(blocks: seq<Block>): map<BlockRef, nat> {
    if blocks == [] then map[]
    else
      var n := |blocks| - 1;
      NumTransactions(blocks[..n])[blocks[n].Ref() := blocks[n].numTransactions]
  }

  lemma {:induction false} NumTransactionsKeys(blocks: seq<Block>)
    ensures NumTransactions(blocks).Keys == Refs(blocks)
  {
    if blocks == [] {
      assert Refs(blocks) == {};
    } else {
      var n := |blocks| - 1;
      NumTransactionsKeys(blocks[..n]);
      assert blocks == blocks[..n] + [blocks[n]];
      RefsAppend(blocks[..n], [blocks[n]]);
      assert Refs([blocks[n]]) == {blocks[n].Ref()};
    }
  }

  function NewCommitState(commit: CommittedSubDag): CommitState {
    CommitState(commit, NumTransactions(commit.blocks), map[], map[])
  }

  predicate Has(m: Transactions, r: BlockRef, t: nat) {
    r in m && t in m[r]
  }

  ghost predicate NoEmptyEntry(m: Transactions) {
    forall r :: r in m ==> m[r] != {}
  }

  /** Before direct finalization nothing is known about transactions; after it, no transaction is
      both pending and rejected, and every pending block has a pending transaction. */
  ghost predicate StateFits(s: CommitState) {
    && (s.pendingBlocks != map[] ==> s == NewCommitState(s.commit))
    && NoEmptyEntry(s.pendingTransactions)
    && s.pendingTransactions.Keys <= Refs(s.commit.blocks)
    && s.rejectedTransactions.Keys <= Refs(s.commit.blocks)
    && (forall r, t :: Has(s.pendingTransactions, r, t) ==> !Has(s.rejectedTransactions, r, t))
  }

  lemma NewStateFits(commit: CommittedSubDag)
    requires commit.blocks != []
    ensures StateFits(NewCommitState(commit)) && !NewCommitState(commit).IsDone()
  {
    NumTransactionsKeys(commit.blocks);
    assert commit.blocks[0].Ref() in NumTransactions(commit.blocks);
  }

  // ----- updating sets of transactions

  function AddTransactions(m: Transactions, r: BlockRef, ts: set<nat>): Transactions {
    if ts == {} then m else m[r := (if r in m then m[r] else {}) + ts]
  }

  /** Removes transactions of a block, and the block when none is left. */
  function RemoveTransactions(m: Transactions, r: BlockRef, ts: set<nat>): Transactions {
    if r !in m then m
    else if m[r] - ts == {} then m - {r}
    else m[r := m[r] - ts]
  }

  lemma AddHas(m: Transactions, r: BlockRef, ts: set<nat>)
    ensures forall x, t :: Has(AddTransactions(m, r, ts), x, t) <==> Has(m, x, t) || (x == r && t in ts)
    ensures NoEmptyEntry(m) ==> NoEmptyEntry(AddTransactions(m, r, ts))
    ensures AddTransactions(m, r, ts).Keys <= m.Keys + {r}
  {
  }

  lemma RemoveHas(m: Transactions, r: BlockRef, ts: set<nat>)
    ensures forall x, t :: Has(RemoveTransactions(m, r, ts), x, t) <==> Has(m, x, t) && !(x == r && t in ts)
    ensures NoEmptyEntry(m) ==> NoEmptyEntry(RemoveTransactions(m, r, ts))
    ensures RemoveTransactions(m, r, ts).Keys <= m.Keys
  {
    forall x, t
      ensures Has(RemoveTransactions(m, r, ts), x, t) <==> Has(m, x, t) && !(x == r && t in ts)
    {
      if r in m && x == r && t in m[r] {
        assert t in m[r] - ts <==> t !in ts;
      }
    }
  }

  // ----- direct finalization

  /** A block at or below the vote garbage collection round leaves all its transactions pending. */
  predicate OutsideGcBound(r: BlockRef, numTransactions: nat, voteGcRound: Round) {
    r.round <= voteGcRound && numTransactions > 0
  }

  predicate StaysPending(c: Committee, voteGcRound: Round, stakes: RejectStakes, r: BlockRef, numTransactions: nat,
                         t: nat)
    requires r in stakes
  {
    if OutsideGcBound(r, numTransactions, voteGcRound) then t < numTransactions
    else t in stakes[r] && stakes[r][t] < c.quorumThreshold
  }

  predicate IsRejectedDirectly(c: Committee, voteGcRound: Round, stakes: RejectStakes, r: BlockRef,
                               numTransactions: nat, t: nat)
    requires r in stakes
  {
    !OutsideGcBound(r, numTransactions, voteGcRound) && t in stakes[r] && stakes[r][t] >= c.quorumThreshold
  }

  /** The outcome of direct finalization for the transactions of some of the blocks. */
  ghost predicate DirectOutcome(c: Committee, voteGcRound: Round, stakes: RejectStakes, blocks: map<BlockRef, nat>,
                                done: set<BlockRef>, pending: Transactions, rejected: Transactions)
    requires done <= blocks.Keys <= stakes.Keys
  {
    && (forall r, t :: Has(pending, r, t) <==> r in done && StaysPending(c, voteGcRound, stakes, r, blocks[r], t))
    && (forall r, t :: Has(rejected, r, t) <==>
          r in done && IsRejectedDirectly(c, voteGcRound, stakes, r, blocks[r], t))
    && NoEmptyEntry(pending) && NoEmptyEntry(rejected)
    && pending.Keys <= done && rejected.Keys <= done
  }

  /** Decides every transaction of a commit that has no reject votes, or a quorum of them. */
  method DirectlyFinalize(s: CommitState, c: Committee, voteGcRound: Round, stakes: RejectStakes)
    returns (s': CommitState)
    requires StateFits(s) && s.pendingBlocks != map[]
    requires s.pendingBlocks.Keys <= stakes.Keys
    ensures s'.commit == s.commit && s'.pendingBlocks == map[] && StateFits(s')
    ensures DirectOutcome(c, voteGcRound, stakes, s.pendingBlocks, s.pendingBlocks.Keys,
                          s'.pendingTransactions, s'.rejectedTransactions)
  {
    hide DirectOutcome, StateFits, StaysPending, IsRejectedDirectly, AddTransactions;
    var pending: Transactions, rejected: Transactions := map[], map[];
    var remaining := s.pendingBlocks.Keys;
    ghost var done: set<BlockRef> := {};
    DirectStart(c, voteGcRound, stakes, s.pendingBlocks);
    while remaining != {}
      invariant done + remaining == s.pendingBlocks.Keys && done !! remaining
      invariant DirectOutcome(c, voteGcRound, stakes, s.pendingBlocks, done, pending, rejected)
      decreases |remaining|
    {
      var r := First(remaining);
      var stays, goes := Sort(c, voteGcRound, stakes, r, s.pendingBlocks[r]);
      DirectStep(c, voteGcRound, stakes, s.pendingBlocks, done, pending, rejected, r, stays, goes);
      pending := AddTransactions(pending, r, stays);
      rejected := AddTransactions(rejected, r, goes);
      remaining, done := remaining - {r}, done + {r};
    }
    assert done == s.pendingBlocks.Keys;
    s' := CommitState(s.commit, map[], pending, rejected);
    DirectOutcomeFits(c, voteGcRound, stakes, s, s');
  }

  /** Which transactions of a block stay pending and which are rejected. */
  method Sort(c: Committee, voteGcRound: Round, stakes: RejectStakes, r: BlockRef, n: nat)
    returns (stays: set<nat>, goes: set<nat>)
    requires r in stakes
    ensures forall t: nat :: t in stays <==> StaysPending(c, voteGcRound, stakes, r, n, t)
    ensures forall t: nat :: t in goes <==> IsRejectedDirectly(c, voteGcRound, stakes, r, n, t)
  {
    stays, goes := {}, {};
    if OutsideGcBound(r, n, voteGcRound) {
      stays := UpTo(n);
    } else {
      stays := set t | t in stakes[r] && stakes[r][t] < c.quorumThreshold;
      goes := set t | t in stakes[r] && stakes[r][t] >= c.quorumThreshold;
    }
  }

  function UpTo(n: nat): (s: set<nat>)
    ensures forall t: nat :: t in s <==> t < n
  {
    if n == 0 then {} else UpTo(n - 1) + {n - 1}
  }

  lemma DirectStart(c: Committee, voteGcRound: Round, stakes: RejectStakes, blocks: map<BlockRef, nat>)
    requires blocks.Keys <= stakes.Keys
    ensures DirectOutcome(c, voteGcRound, stakes, blocks, {}, map[], map[])
  {
  }

  lemma DirectStep(c: Committee, voteGcRound: Round, stakes: RejectStakes, blocks: map<BlockRef, nat>,
                   done: set<BlockRef>, pending: Transactions, rejected: Transactions, r: BlockRef, stays: set<nat>,
                   goes: set<nat>)
    requires done <= blocks.Keys <= stakes.Keys && r !in done && r in blocks
    requires DirectOutcome(c, voteGcRound, stakes, blocks, done, pending, rejected)
    requires forall t: nat :: t in stays <==> StaysPending(c, voteGcRound, stakes, r, blocks[r], t)
    requires forall t: nat :: t in goes <==> IsRejectedDirectly(c, voteGcRound, stakes, r, blocks[r], t)
    ensures DirectOutcome(c, voteGcRound, stakes, blocks, done + {r}, AddTransactions(pending, r, stays),
                          AddTransactions(rejected, r, goes))
  {
    AddHas(pending, r, stays);
    AddHas(rejected, r, goes);
    hide AddTransactions, StaysPending, IsRejectedDirectly, Has;
  }

  lemma DirectOutcomeFits(c: Committee, voteGcRound: Round, stakes: RejectStakes, s: CommitState, s': CommitState)
    requires StateFits(s) && s.pendingBlocks != map[] && s.pendingBlocks.Keys <= stakes.Keys
    requires s'.commit == s.commit && s'.pendingBlocks == map[]
    requires DirectOutcome(c, voteGcRound, stakes, s.pendingBlocks, s.pendingBlocks.Keys,
                           s'.pendingTransactions, s'.rejectedTransactions)
    ensures StateFits(s')
  {
    NumTransactionsKeys(s.commit.blocks);
  }

  // ----- indirect finalization

  predicate IsRejectedByQuorum(c: Committee, stakes: RejectStakes, r: BlockRef, t: nat)
    requires r in stakes
  {
    t in stakes[r] && stakes[r][t] >= c.quorumThreshold
  }

  /** Blocks, links and garbage collection rounds that indirect finalization of a commit reads. */
  datatype Context = Context(committee: Committee, blocks: BlockMap, gcRounds: seq<(nat, Round)>) {

    function For(r: BlockRef): Query {
      Query(committee, blocks, gcRounds, r)
    }

    ghost predicate Covers(rs: set<BlockRef>) {
      forall r :: r in rs ==> For(r).Valid()
    }
  }

  /** The fate of each pending transaction, as far as the blocks in `late` have been checked for a
      quorum of rejects and those in `voted` for a quorum of accepts. */
  ghost predicate IndirectOutcome(x: Context, stakes: RejectStakes, s: CommitState, late: set<BlockRef>,
                                  voted: set<BlockRef>, s': CommitState)
    requires s.pendingTransactions.Keys <= stakes.Keys && x.Covers(s.pendingTransactions.Keys)
  {
    && s'.commit == s.commit && s'.pendingBlocks == s.pendingBlocks
    && (forall r, t :: Has(s'.pendingTransactions, r, t) <==>
          && Has(s.pendingTransactions, r, t)
          && !(r in late && IsRejectedByQuorum(x.committee, stakes, r, t))
          && !(r in voted && x.For(r).IsAccepted(t)))
    && (forall r, t :: Has(s'.rejectedTransactions, r, t) <==>
          || Has(s.rejectedTransactions, r, t)
          || (Has(s.pendingTransactions, r, t) && r in late && IsRejectedByQuorum(x.committee, stakes, r, t)))
    && NoEmptyEntry(s'.pendingTransactions)
    && (NoEmptyEntry(s.rejectedTransactions) ==> NoEmptyEntry(s'.rejectedTransactions))
    && s'.pendingTransactions.Keys <= s.pendingTransactions.Keys
    && s'.rejectedTransactions.Keys <= s.rejectedTransactions.Keys + s.pendingTransactions.Keys
  }

  lemma IndirectStart(x: Context, stakes: RejectStakes, s: CommitState)
    requires StateFits(s) && s.pendingTransactions.Keys <= stakes.Keys && x.Covers(s.pendingTransactions.Keys)
    ensures IndirectOutcome(x, stakes, s, {}, {}, s)
  {
    hide Context.Covers, StaysPending, Query.IsAccepted;
  }

  lemma LateStep(x: Context, stakes: RejectStakes, s: CommitState, late: set<BlockRef>, s1: CommitState, r: BlockRef,
                 rejected: set<nat>)
    requires s.pendingTransactions.Keys <= stakes.Keys && x.Covers(s.pendingTransactions.Keys)
    requires IndirectOutcome(x, stakes, s, late, {}, s1)
    requires r in s.pendingTransactions && r !in late
    requires forall t: nat :: t in rejected <==>
               Has(s.pendingTransactions, r, t) && IsRejectedByQuorum(x.committee, stakes, r, t)
    ensures IndirectOutcome(x, stakes, s, late + {r}, {},
              s1.(pendingTransactions := RemoveTransactions(s1.pendingTransactions, r, rejected),
                  rejectedTransactions := AddTransactions(s1.rejectedTransactions, r, rejected)))
  {
    RemoveHas(s1.pendingTransactions, r, rejected);
    AddHas(s1.rejectedTransactions, r, rejected);
    hide Context.Covers, Query.IsAccepted, RemoveTransactions, AddTransactions, Has, IsRejectedByQuorum;
  }

  lemma VotedStep(x: Context, stakes: RejectStakes, s: CommitState, late: set<BlockRef>, voted: set<BlockRef>,
                  s1: CommitState, r: BlockRef, finalized: set<nat>)
    requires s.pendingTransactions.Keys <= stakes.Keys && x.Covers(s.pendingTransactions.Keys)
    requires IndirectOutcome(x, stakes, s, late, voted, s1)
    requires r in s.pendingTransactions && r !in voted
    requires forall t: nat :: t in finalized <==> Has(s1.pendingTransactions, r, t) && x.For(r).IsAccepted(t)
    ensures IndirectOutcome(x, stakes, s, late, voted + {r},
              s1.(pendingTransactions := RemoveTransactions(s1.pendingTransactions, r, finalized)))
  {
    RemoveHas(s1.pendingTransactions, r, finalized);
    hide Context.Covers, Query.IsAccepted, RemoveTransactions, Has, IsRejectedByQuorum;
  }

  /** Rejects the pending transactions that a quorum rejects by now. */
  method CheckPendingTransactions(x: Context, stakes: RejectStakes, s: CommitState) returns (s': CommitState)
    requires StateFits(s) && s.pendingTransactions.Keys <= stakes.Keys && x.Covers(s.pendingTransactions.Keys)
    ensures IndirectOutcome(x, stakes, s, s.pendingTransactions.Keys, {}, s')
  {
    hide *;
    IndirectStart(x, stakes, s);
    s' := s;
    var remaining := s.pendingTransactions.Keys;
    ghost var late: set<BlockRef> := {};
    while remaining != {}
      invariant late + remaining == s.pendingTransactions.Keys && late !! remaining
      invariant IndirectOutcome(x, stakes, s, late, {}, s')
      decreases |remaining|
    {
      var r := First(remaining);
      var rejected := LateRejects(x.committee, stakes, s, r);
      LateStep(x, stakes, s, late, s', r, rejected);
      s' := s'.(pendingTransactions := RemoveTransactions(s'.pendingTransactions, r, rejected),
                rejectedTransactions := AddTransactions(s'.rejectedTransactions, r, rejected));
      remaining, late := remaining - {r}, late + {r};
    }
    assert late == s.pendingTransactions.Keys;
  }

  method LateRejects(c: Committee, stakes: RejectStakes, s: CommitState, r: BlockRef) returns (rejected: set<nat>)
    requires r in s.pendingTransactions && r in stakes
    ensures forall t: nat :: t in rejected <==> Has(s.pendingTransactions, r, t) && IsRejectedByQuorum(c, stakes, r, t)
  {
    rejected := set t | t in s.pendingTransactions[r] && IsRejectedByQuorum(c, stakes, r, t);
  }

  /** Finalizes the pending transactions that a quorum has accepted by now. */
  method FinalizePendingTransactions(x: Context, ghost stakes: RejectStakes, ghost s: CommitState, s1: CommitState)
    returns (s': CommitState)
    requires s.pendingTransactions.Keys <= stakes.Keys && x.Covers(s.pendingTransactions.Keys)
    requires IndirectOutcome(x, stakes, s, s.pendingTransactions.Keys, {}, s1)
    ensures IndirectOutcome(x, stakes, s, s.pendingTransactions.Keys, s1.pendingTransactions.Keys, s')
  {
    hide IndirectOutcome, RemoveTransactions, Query.IsAccepted, Query.Valid;
    s' := s1;
    OutcomeKeys(x, stakes, s, s.pendingTransactions.Keys, {}, s1);
    var remaining := s1.pendingTransactions.Keys;
    ghost var voted: set<BlockRef> := {};
    while remaining != {}
      invariant voted + remaining == s1.pendingTransactions.Keys && voted !! remaining
      invariant IndirectOutcome(x, stakes, s, s.pendingTransactions.Keys, voted, s')
      invariant forall r, t :: r in remaining ==>
                  (Has(s'.pendingTransactions, r, t) <==> t in s1.pendingTransactions[r])
      decreases |remaining|
    {
      var r := First(remaining);
      var finalized := TryIndirectFinalize(x.For(r), s1.pendingTransactions[r]);
      VotedStep(x, stakes, s, s.pendingTransactions.Keys, voted, s', r, finalized);
      RemoveHas(s'.pendingTransactions, r, finalized);
      s' := s'.(pendingTransactions := RemoveTransactions(s'.pendingTransactions, r, finalized));
      remaining, voted := remaining - {r}, voted + {r};
    }
    assert voted == s1.pendingTransactions.Keys;
  }

  lemma OutcomeKeys(x: Context, stakes: RejectStakes, s: CommitState, late: set<BlockRef>, voted: set<BlockRef>,
                    s': CommitState)
    requires s.pendingTransactions.Keys <= stakes.Keys && x.Covers(s.pendingTransactions.Keys)
    requires IndirectOutcome(x, stakes, s, late, voted, s')
    ensures s'.pendingTransactions.Keys <= s.pendingTransactions.Keys
  {
  }

  /** The whole indirect step on a commit: late rejects, then accepts, and when the commit has
      expired everything left is rejected. */
  ghost predicate FinalOutcome(x: Context, stakes: RejectStakes, expired: bool, s: CommitState, s': CommitState)
    requires s.pendingTransactions.Keys <= stakes.Keys && x.Covers(s.pendingTransactions.Keys)
  {
    && s'.commit == s.commit && s'.pendingBlocks == s.pendingBlocks
    && (forall r, t :: Has(s'.pendingTransactions, r, t) <==>
          && !expired && Has(s.pendingTransactions, r, t)
          && !IsRejectedByQuorum(x.committee, stakes, r, t) && !x.For(r).IsAccepted(t))
    && (forall r, t :: Has(s'.rejectedTransactions, r, t) <==>
          || Has(s.rejectedTransactions, r, t)
          || (&& Has(s.pendingTransactions, r, t)
              && (IsRejectedByQuorum(x.committee, stakes, r, t) || (expired && !x.For(r).IsAccepted(t)))))
    && (NoEmptyEntry(s.rejectedTransactions) ==> NoEmptyEntry(s'.rejectedTransactions))
  }

  /** Everything pending outside `remaining` has moved to rejected. */
  ghost predicate Moved(s: CommitState, remaining: set<BlockRef>, rejected: Transactions) {
    && (forall r, t :: Has(rejected, r, t) <==>
          Has(s.rejectedTransactions, r, t) || (Has(s.pendingTransactions, r, t) && r !in remaining))
    && rejected.Keys <= s.rejectedTransactions.Keys + s.pendingTransactions.Keys
    && (NoEmptyEntry(s.rejectedTransactions) ==> NoEmptyEntry(rejected))
  }

  lemma MoveStep(s: CommitState, remaining: set<BlockRef>, rejected: Transactions, r: BlockRef)
    requires Moved(s, remaining, rejected) && r in remaining && r in s.pendingTransactions
    ensures Moved(s, remaining - {r}, AddTransactions(rejected, r, s.pendingTransactions[r]))
  {
    AddHas(rejected, r, s.pendingTransactions[r]);
    hide AddTransactions;
  }

  /** Moves everything still pending to rejected. */
  method RejectPendingTransactions(s: CommitState) returns (s': CommitState)
    ensures s' == s.(pendingTransactions := map[], rejectedTransactions := s'.rejectedTransactions)
    ensures Moved(s, {}, s'.rejectedTransactions)
  {
    var rejected := s.rejectedTransactions;
    var remaining := s.pendingTransactions.Keys;
    assert Moved(s, remaining, rejected);
    hide AddTransactions, Moved, Has;
    while remaining != {}
      invariant remaining <= s.pendingTransactions.Keys
      invariant Moved(s, remaining, rejected)
      decreases |remaining|
    {
      var r := First(remaining);
      MoveStep(s, remaining, rejected, r);
      rejected := AddTransactions(rejected, r, s.pendingTransactions[r]);
      remaining := remaining - {r};
    }
    s' := s.(pendingTransactions := map[], rejectedTransactions := rejected);
  }

  /** The indirect step on the first pending commit. */
  method IndirectlyFinalize(x: Context, stakes: RejectStakes, expired: bool, s: CommitState) returns (s': CommitState)
    requires StateFits(s) && s.pendingBlocks == map[]
    requires s.pendingTransactions.Keys <= stakes.Keys && x.Covers(s.pendingTransactions.Keys)
    ensures FinalOutcome(x, stakes, expired, s, s') && StateFits(s')
    ensures expired ==> s'.IsDone()
  {
    hide IndirectOutcome, FinalOutcome, StateFits, Context.Covers, Moved;
    var s1 := CheckPendingTransactions(x, stakes, s);
    var s2 := FinalizePendingTransactions(x, stakes, s, s1);
    if expired {
      s' := RejectPendingTransactions(s2);
      ExpiredOutcome(x, stakes, s, s1, s2, s');
    } else {
      s' := s2;
      UnexpiredOutcome(x, stakes, s, s1, s2);
    }
    OutcomeFits(x, stakes, expired, s, s1, s2, s');
  }

  lemma UnexpiredOutcome(x: Context, stakes: RejectStakes, s: CommitState, s1: CommitState, s2: CommitState)
    requires s.pendingTransactions.Keys <= stakes.Keys && x.Covers(s.pendingTransactions.Keys)
    requires IndirectOutcome(x, stakes, s, s.pendingTransactions.Keys, {}, s1)
    requires IndirectOutcome(x, stakes, s, s.pendingTransactions.Keys, s1.pendingTransactions.Keys, s2)
    ensures FinalOutcome(x, stakes, false, s, s2)
  {
    hide Context.Covers, Query.IsAccepted, IsRejectedByQuorum;
  }

  lemma ExpiredOutcome(x: Context, stakes: RejectStakes, s: CommitState, s1: CommitState, s2: CommitState,
                       s': CommitState)
    requires s.pendingTransactions.Keys <= stakes.Keys && x.Covers(s.pendingTransactions.Keys)
    requires IndirectOutcome(x, stakes, s, s.pendingTransactions.Keys, {}, s1)
    requires IndirectOutcome(x, stakes, s, s.pendingTransactions.Keys, s1.pendingTransactions.Keys, s2)
    requires s' == s2.(pendingTransactions := map[], rejectedTransactions := s'.rejectedTransactions)
    requires Moved(s2, {}, s'.rejectedTransactions)
    ensures FinalOutcome(x, stakes, true, s, s')
  {
    UnexpiredOutcome(x, stakes, s, s1, s2);
    hide Context.Covers, Query.IsAccepted, IsRejectedByQuorum, IndirectOutcome;
    assert forall r, t :: !Has(map[], r, t);
  }

  lemma OutcomeFits(x: Context, stakes: RejectStakes, expired: bool, s: CommitState, s1: CommitState, s2: CommitState,
                    s': CommitState)
    requires StateFits(s) && s.pendingBlocks == map[]
    requires s.pendingTransactions.Keys <= stakes.Keys && x.Covers(s.pendingTransactions.Keys)
    requires IndirectOutcome(x, stakes, s, s.pendingTransactions.Keys, s1.pendingTransactions.Keys, s2)
    requires if expired then
               && s' == s2.(pendingTransactions := map[], rejectedTransactions := s'.rejectedTransactions)
               && Moved(s2, {}, s'.rejectedTransactions)
             else s' == s2
    ensures StateFits(s') && s'.pendingBlocks == map[]
    ensures expired ==> s'.IsDone()
  {
    hide Context.Covers, Query.IsAccepted;
  }
}
