# A verified model of the consensus engine

This project models the Mysticeti consensus engine in `crates/consensus/src` in Dafny and proves its
central promises. Authorities with stake propose blocks that link to blocks of lower rounds. In every
round a block of the elected leader may be committed, from what a validator happens to hold up to two
rounds later or through a later leader. Committed leaders are linearized into sub-dags, and the
transactions of each commit are finalized or rejected from votes that later blocks cast implicitly.

## What is proved

**Agreement on output.** Every two validators of a run output the same commits: under each index the
same leader, the same blocks in the same order, and the same rejected transactions
(`ValidatorsOutputTheSame`). The one exception are reject votes on blocks that have no transactions, see
below. The theorem covers the whole way from views to output. It rests on the three results that follow.

**Agreement on leaders.** Validators decide leader slots on different, growing views, directly or through
later anchors. If two of them decide a slot, they decide it identically (`Agreement`). Over whole runs
with any number of validators, schedule changes, catch-up with certified commits and restarts, decided
sequences are prefixes of one another (`RunsAreConsistent`), and equal commit indices hold equal
sequences of blocks (`RunsCommitTheSameBlocks`). A validator that catches up records exactly the
certified commits when it linearizes their leaders (`CertifiedIsRecorded`).

**Optimistic finalization.** A validator finalizes a transaction directly when its tracker has counted no
reject vote and the commit is local or a wave old. At every other validator the traversal of votes then
reaches a quorum of accepts no later than the first commit a wave later
(`OptimisticFinalizationIsSafe`). This holds across leader schedule changes: the deciding view either
has its leader certificate below the leader committed a wave later, or holds that leader
(`LocalCommitIsKnown`).

**No clash of reasons.** Whatever one call of one finalizer may finalize, directly or by a quorum of
accepts, no call of any finalizer may reject, neither by a quorum of rejects nor on expiry
(`DecisionsDoNotClash`).

**The commit finalizer.** Linking, origin descendants, direct and indirect finalization and emission
keep an exact block map over the buffered commits. Inputs are outputs followed by the buffer, the
buffer is less than a wave deep, decided transactions stay decided, and each decision has a reason
(`ProcessCommit`). The traversal with its ignored marks, pruning and early exit returns exactly what a
set definition of first, fresh, non-rejecting votes says (`TryIndirectFinalize`). The vote tracker keeps
the entry of every buffered block, so no lookup fails (`FinalizerTask.Run`).

**The block manager.** The three mutable maps stay consistent through every operation, and the
accepted blocks are exactly the causal closure of what was received, in whatever order and batches
(`OrderDoesNotMatter`, `ManagersAgree`). A batch has its turns by ascending rounds, each block followed by
what it completes (`TryAcceptBlocks`). What is accepted is a view that the commit rule can decide on
(`AcceptedIsView`), and certified commits bring the history they need (`CommitsBringHistory`).

**Leader scores and schedules.** The sliding window equals recomputation from scratch, and recovery by
partial replay equals live processing for all lengths, windows and intervals (`RecoveryEqualsLive`).
Swap tables come from adjacent ranges of equal size. Good and bad nodes are disjoint.

**Commit sync.** Pending, in-flight and fetched ranges partition the scheduled indices in every
reachable state, batches never leave a gap at the core, and commits certified by one quorum of votes
are the agreed ones through their digest chain (`CertifiedCommitsAreAgreed`, `CatchUpKeepsBacked`).

**Stake thresholds.** Ancestor exclusion conserves stake within its limit; the quorum commit index and
the network quorum round are the order statistics they are meant to be.

## How the model is built

`World` holds all blocks that ever passed verification, the committee and the Byzantine authorities.
An honest authority has at most one block per round, and two quorums overlap in more than the Byzantine
stake; the latter is proved for both ways the committee computes its thresholds. A view is a part of
the world that is closed above a garbage collection round. Pure rules are functions and lemmas. Parts
that update state are classes and methods with loops, each tied to a specification by its contract:
`StakeAggregator`, `BlockManager`, `Linearizer`, `TransactionVoteTracker`, `CommitFinalizer`,
`LeaderScheduleV3`, `ScoringSubdag`, `Core`, `CommitSyncer`, `CommitVoteMonitor` and
`AncestorStateManager`. Views that methods only need for their specification are ghost parameters.
`ChainWorld` gives a world with one authority, a run and a finalizer with output that meet all
assumptions of the agreement on output; `PendingCase` has four authorities and pending transactions, of
which one is accepted by later blocks and one expires.

## Assumptions

- Digests identify blocks and commits; signatures and hashing are not modelled.
- One leader per round and a wave of three rounds, as configured in `crates/consensus/src/commit.rs:37-40`.
- The schedule in use is any function of the committed leaders at the last schedule change; weighted
  random choice and shuffles are arbitrary deterministic functions.
- Honest authors build one chain of own blocks and vote on a block once, when they first include it
  (`HonestVoting`); this is needed only to rule out a quorum of rejects.
- A validator decides leaders while its garbage collection round is below the rounds it decides; the code
  computes that round from the last committed leader.
- Honest authors vote only for commits that were made (`VotesForChain`, `AreHonestVotes`).
- The input of a finalizer (`IsInput`): blocks are counted by the vote tracker before they enter the view,
  commits come from the linearizer in order, a commit is marked as local only when the validator decided
  its leader on its own view, and the reject votes of each block are read at some time since the call
  began, anew for the indirect step.
- Integers are unbounded; overflow of 32-bit rounds and 64-bit stakes is not modelled.

## Where code and documentation differ

The model follows the code.

- `crates/consensus/src/block_manager.rs:78` promises accepted blocks in ascending round order. That fails whenever a
  block waits only for one of the batch and another ready block of the batch lies in between (`WaitingOvertakes`), and
  generally whenever a turn completes a block above one that only a later turn completes (`TurnsOutOfOrder`). With
  four authorities and verified blocks, a batch of rounds 1 and 2 comes out as rounds 1, 3, 2 (`RoundsNeedNotAscend`,
  `InstanceIsVerified`). The order is ascending when no block of the batch is waited for at the call (`NoneIsAwaited`
  in `TryAcceptBlocks`). That condition is not necessary: the order may also be ascending when one is
  (`RoundsMayAscend`).
- `crates/consensus/src/commit_finalizer.rs:310-368` looks at reject votes on a block without transactions even when
  votes on it may have been garbage collected. A vote can name an index that the block does not have, and one validator
  may reject it on expiry while another has never seen it (`RejectsCanDiffer`). Outputs agree on all indices of all
  other blocks (`IsCovered` in `ValidatorsOutputTheSame`).
- `crates/consensus/src/commit_vote_monitor.rs:59` speaks of the smallest index; the code finds the largest one backed by a
  quorum.
- `crates/consensus/src/commit_finalizer.rs:699-703` says that of two blocks of one origin the later one's votes count; the
  code counts the earlier one's and ignores the later one's.
- `crates/consensus/src/commit_finalizer.rs:183-190` expects a certificate of a leader among the committed blocks once a
  leader a wave later is committed. That is so in all cases exactly when the leader schedule does not change between
  the two commits (`CertificateIsCommittedExactly`, from `NextWaveHasCertificate` and `ChangeCanLoseCertificate`), also
  among the cases that a run reaches. What holds in general, and suffices, is stated by `LocalCommitIsKnown` and
  `RemoteCommitIsKnown`.
- `crates/consensus/src/leader_schedule.rs:351` expects a good node to swap with. That fails exactly when the worst ranked
  authority fits into the cutoff and the best ranked one does not (`ElectionSucceeds`, `SwapCanFindNobody`).
- Reject votes of one block on another count from its last entry in the finalizer and from all entries
  in the vote tracker; the theorems hold for this combination.

## Model

| member | source | states |
|---|---|---|
| `Committees.ClassicCommitteeToleratesFaults` | crates/config/consensus/src/committee.rs:40-70 | with total stake 3f+1 the thresholds the committee computes tolerate Byzantine stake up to f, and the quorum is positive and reachable |
| `Committees.HybridCommitteeToleratesFaults` | crates/config/consensus/src/committee.rs:86-140 | for all malicious and crash budgets the scaled thresholds tolerate the malicious stake, and both threshold assertions hold |
| `Committees.QuorumsShareHonest` | crates/config/consensus/src/committee.rs:55-58 | two quorums always share an authority that is not Byzantine |
| `StakeAggregators.StakeAggregator.Add` | crates/consensus/src/stake_aggregator.rs:70-88 | a vote counts once per authority; the answer is whether the distinct voters hold a quorum |
| `BlockVerifier.VerifyBlock` | crates/consensus/src/block_verifier.rs:67-152 | passes exactly the well-formed blocks: own ancestor first, distinct authors, lower rounds, genuine genesis, a quorum of parents |
| `Dags.ViewReaches` | crates/consensus/src/dag_state.rs:580-614 | above the garbage collection round, causal history in a validator's view is causal history among all blocks |
| `Dags.HistoryHasQuorum` | crates/consensus/src/block_verifier.rs:104-147 | the parent quorum repeats all the way down: every block has a quorum of authors at each lower round of its history |
| `CommitRule.CertifiedIsUnique` | crates/consensus/src/base_committer.rs:231-279 | at most one block per leader slot is ever certified, in whatever views |
| `CommitRule.BlamedIsNeverCertified` | crates/consensus/src/base_committer.rs:337-366 | a quorum of blames in one view rules out a certificate for the slot in every view |
| `CommitRule.SupportedIsUnique` | crates/consensus/src/base_committer.rs:108-112 | two quorums of certificates for one slot, in any two views, are for the same block, so the panic on several committed leaders is unreachable |
| `CommitRule.DirectCommitIsVisible` | crates/consensus/src/base_committer.rs:284-334 | a directly committed leader has a certificate, held by the deciding view, below every block at least a wave later |
| `CommitRule.CertifiedIsInHistory` | crates/consensus/src/base_committer.rs:231-279 | a certificate has the certified leader in its causal history |
| `CommitRule.DirectAgreesWithDirect` | crates/consensus/src/base_committer.rs:86-117 | direct decisions of two views agree |
| `CommitRule.DirectAgreesWithAnchor` | crates/consensus/src/base_committer.rs:122-145 | a direct decision of one view is what any later anchor of another view forces |
| `BaseCommitter.PipelineCoversEveryRound` | crates/consensus/src/base_committer.rs:170-190 | over all pipeline offsets the waves give each round exactly one leader wave |
| `BaseCommitter.SupportIsStable` | crates/consensus/src/base_committer.rs:193-217 | along an author's own chain, once a block supports a block of the slot all later ones support the same |
| `BaseCommitter.VoteMeansDirectLink` | crates/consensus/src/base_committer.rs:219-229 | in the voting round, being a vote is linking to the leader block |
| `BaseCommitter.IsCertificate` | crates/consensus/src/base_committer.rs:231-279 | true exactly when the votes among the ancestors reach a quorum, and the cache of votes stays right |
| `BaseCommitter.EnoughLeaderBlame` | crates/consensus/src/base_committer.rs:337-366 | true exactly when the voting-round blocks without a link to the leader's authority hold a quorum |
| `BaseCommitter.EnoughLeaderSupport` | crates/consensus/src/base_committer.rs:370-401 | true exactly when the certifying authors hold a quorum; the early exit on total stake changes nothing |
| `BaseCommitter.TryDirectDecide` | crates/consensus/src/base_committer.rs:86-117 | computes the direct status of the slot in the view |
| `BaseCommitter.AncestorsAtRound` | crates/consensus/src/dag_state.rs:580-614 | the traversal returns exactly the blocks of the round in the causal history |
| `BaseCommitter.DecideLeaderFromAnchor` | crates/consensus/src/base_committer.rs:284-334 | computes the status the anchor forces, which mentions no view; two certified blocks never occur |
| `BaseCommitter.TryIndirectDecide` | crates/consensus/src/base_committer.rs:122-145 | computes the status forced by the first later committed leader with no undecided one before it |
| `UniversalCommitter.IndirectDecisionHasAnchor` | crates/consensus/src/base_committer.rs:122-145 | behind an indirect decision there is an anchor with only skipped leaders in between |
| `UniversalCommitter.Agreement` | crates/consensus/src/base_committer.rs:86-145 | if two validators both decide a slot, directly or indirectly, each on its own view, they decide it identically |
| `UniversalCommitter.TryDecide` | crates/consensus/src/universal_committer.rs:42-111 | returns the longest decided prefix of the statuses after the last decided leader |
| `CommitRuns.ScheduleIsStable` | crates/consensus/src/core.rs:608-638 | before the number of commits per schedule is used up the leader schedule stays the same |
| `CommitRuns.LocalDecisionIsBacked` | crates/consensus/src/core.rs:606-719 | every decision a pass keeps was taken in some view under the schedule that belongs to its round |
| `CommitRuns.BackedAgree` | crates/consensus/src/core.rs:579-719 | two sequences of backed decisions extend one another |
| `CommitRuns.RunsAreConsistent` | crates/consensus/src/core.rs:579-719 | in every run, through schedule changes, catch-up with certified commits and restarts, the decisions of any two validators at any two moments are prefixes of one another |
| `CommitRuns.CertifiedIsCommitted` | crates/consensus/src/commit_syncer.rs:797-880 | commits that pass verification are commits that some validator has made under the same indices |
| `CommitRuns.CatchUpKeepsBacked` | crates/consensus/src/core.rs:521-555 | taking over certified commits, skipping what lies between their leaders, gives decisions that the commit rule takes as well |
| `CommitRuns.CatchUpReproduces` | crates/consensus/src/core.rs:521-555 | after catching up, the commits that follow from the decided leaders are the certified ones under their indices |
| `CommitRuns.DecisionsAreReachable` | crates/consensus/src/core.rs:606-719 | what the rule decides on a view, through all schedule changes, some validator decides in some run |
| `CommitRuns.CommittedAt` | crates/consensus/src/core.rs:680-700 | each committed leader has the round in which it was decided, after exactly the leaders committed before it |
| `CommitRuns.DecidedLeaderIsOfRound` | crates/consensus/src/commit.rs:510-530 | the leader decided for a round is a block of that round |
| `Linearizers.HistoryIsCommitted` | crates/consensus/src/linearizer.rs:156-218 | complete: what is in a leader's history above the garbage collection round is committed with it or earlier |
| `Linearizers.CommittedOnce` | crates/consensus/src/linearizer.rs:172-199 | no block is in two sub-dags |
| `Linearizers.HistoryIsNotLater` | crates/consensus/src/linearizer.rs:156-218 | a block is never committed before what it descends from, unless that was garbage collected |
| `Linearizers.SubDagsAgree` | crates/consensus/src/linearizer.rs:156-218 | validators with the same leaders commit the same blocks in the same order with each of them, whatever their views |
| `Linearizers.SlotOrderIsKept` | crates/consensus/src/commit.rs:403-409 | sorting is stable: several blocks of one slot stay in the order in which the traversal reaches them |
| `Linearizers.Linearizer.constructor` | crates/consensus/src/linearizer.rs:52-61 | nothing is committed at first |
| `Linearizers.Linearizer.LinearizeSubDag` | crates/consensus/src/linearizer.rs:156-218 | returns exactly the uncommitted history above the garbage collection round, each block once, in order of round and author and then of the traversal, which depends on no view; no block is marked twice |
| `Linearizers.Linearizer.CollectSubDag` | crates/consensus/src/linearizer.rs:65-120 | the next commit is the sub-dag of the next leader, marked as local or not, and the committed set stays exact |
| `Linearizers.Linearizer.HandleCommit` | crates/consensus/src/linearizer.rs:223-243 | commits the leaders in order, with the garbage collection round moving along |
| `Linearizers.SortBySlot` | crates/consensus/src/commit.rs:403-409 | the stable sort by round and author: a permutation, in order |
| `BlockIndex.AcceptedIsClosure` | crates/consensus/src/block_manager.rs:109-181 | the accepted blocks are exactly those received whose whole history above the garbage collection round is received |
| `BlockIndex.OrderDoesNotMatter` | crates/consensus/src/block_manager.rs:109-181 | two managers that received the same blocks, in any order and batching, accepted and suspended the same |
| `BlockIndex.FirstIsNotSuspended` | crates/consensus/src/block_manager.rs:459-529 | the smallest missing reference is never itself suspended |
| `BlockIndex.ReleaseIsConsistent` | crates/consensus/src/block_manager.rs:383-455 | releasing blocks keeps the two maps mirrored and every suspended block waiting for exactly its unaccepted ancestors |
| `BlockManagers.BlockManager.constructor` | crates/consensus/src/block_manager.rs:65-76 | the empty index is consistent |
| `BlockManagers.BlockManager.TryUnsuspendBlock` | crates/consensus/src/block_manager.rs:433-455 | the parent is struck off, and the block comes out exactly when nothing is missing any more; the lookups never fail |
| `BlockManagers.BlockManager.TryUnsuspendChildrenBlocks` | crates/consensus/src/block_manager.rs:383-430 | releases exactly the blocks that waited for nothing but the root and each other, in causal order |
| `BlockManagers.BlockManager.FindMissingAncestors` | crates/consensus/src/block_manager.rs:308-354 | finds exactly the ancestors that are not accepted and registers the block with each of them |
| `BlockManagers.BlockManager.TryAcceptOneBlock` | crates/consensus/src/block_manager.rs:279-380 | skips, accepts or suspends, keeping the index valid |
| `BlockManagers.BlockManager.TryAcceptBlocks` | crates/consensus/src/block_manager.rs:81-181 | accepts everything that has become acceptable, once, in causal order; the batch has its turns by ascending rounds, each block followed by what it completes; rounds ascend when nothing waits for a block of the batch |
| `BlockManagers.BlockManager.TryAcceptOneCommittedBlock` | crates/consensus/src/block_manager.rs:183-211 | accepts a committed block with whatever it releases, withdrawing it from the index first if it was suspended |
| `BlockManagers.BlockManager.TryAcceptCommittedBlocks` | crates/consensus/src/block_manager.rs:92-107 | all given blocks are accepted; the index stays valid and the block store closed when the batch brings its history |
| `BlockManagers.BlockManager.TryFindBlocks` | crates/consensus/src/block_manager.rs:213-274 | reports exactly the references that are neither accepted, suspended nor garbage collected, and keeps the set of missing blocks exact |
| `BlockManagers.BlockManager.TryUnsuspendBlocksForLatestGcRound` | crates/consensus/src/block_manager.rs:459-529 | terminates with no key at or below the garbage collection round and the index valid for it; the block store is closed above the new round if it was closed above the old or the new one |
| `BlockManagers.ManagerHoldsClosure` | crates/consensus/src/block_manager.rs:44-60 | between calls the accepted blocks are the causal closure of what was received, and the suspended ones are the rest |
| `BlockManagers.ManagersAgree` | crates/consensus/src/block_manager.rs:109-181 | two valid managers with the same received blocks hold the same accepted and suspended blocks |
| `AcceptanceOrder.TurnsOutOfOrder` | crates/consensus/src/block_manager.rs:77-87 | the documented order fails whenever a turn makes a block acceptable that is above one which only a later turn makes acceptable |
| `AcceptanceOrder.WaitingOvertakes` | crates/consensus/src/block_manager.rs:77-87 | in terms of what a caller sees: the order fails whenever a block waits only for one of the batch and another ready block of the batch lies in between |
| `AcceptanceOrder.InstanceIsVerified` | crates/consensus/src/block_verifier.rs:67-152 | every block of the failing instance passes block verification |
| `AcceptanceOrder.RoundsNeedNotAscend` | crates/consensus/src/block_manager.rs:77-87 | such a case with four authorities: a batch of rounds 1 and 2 comes out with the waiting block of round 3 in between |
| `AcceptanceOrder.RoundsMayAscend` | crates/consensus/src/block_manager.rs:77-87 | being waited for does not by itself break the order: the accepted blocks ascend although the batch is waited for |
| `VoteTraversal.GcedStaysGced` | crates/consensus/src/commit_finalizer.rs:787-812 | votes lost to garbage collection stay lost in later commits |
| `VoteTraversal.TryIndirectFinalize` | crates/consensus/src/commit_finalizer.rs:652-768 | returns a requested transaction exactly when the authors of the first, fresh, non-rejecting descendants hold a quorum; ignored marks, pruning and the early exit lose nothing |
| `FinalizerLinks.LinkKeepsLinked` | crates/consensus/src/commit_finalizer.rs:372-399 | after linking a block, children and origin descendants are again exactly what the causal links say |
| `FinalizerLinks.RecordKeepsLinked` | crates/consensus/src/commit_finalizer.rs:421-458 | recording a block along its own chain completes the origin descendants |
| `FinalizerLinks.RemoveKeepsLinked` | crates/consensus/src/commit_finalizer.rs:815-856 | when the earliest commit leaves, no link dangles and no own chain between remaining blocks breaks |
| `FinalizerState.DirectlyFinalize` | crates/consensus/src/commit_finalizer.rs:274-368 | a transaction stays pending, is rejected or is finalized exactly by its reject stake and the vote garbage collection round |
| `FinalizerState.CheckPendingTransactions` | crates/consensus/src/commit_finalizer.rs:477-523 | moves exactly the pending transactions with a reject quorum to rejected |
| `FinalizerState.FinalizePendingTransactions` | crates/consensus/src/commit_finalizer.rs:525-618 | removes exactly the pending transactions with an accept quorum |
| `FinalizerState.RejectPendingTransactions` | crates/consensus/src/commit_finalizer.rs:620-647 | everything still pending becomes rejected |
| `FinalizerState.IndirectlyFinalize` | crates/consensus/src/commit_finalizer.rs:461-475 | the outcome of the three indirect stages for every transaction; an expired commit is settled |
| `FinalizerState.RemoveHas` | crates/consensus/src/commit_finalizer.rs:905-919 | removing transactions leaves no empty entry behind |
| `FinalizerQueue.QueriesAreValid` | crates/consensus/src/commit_finalizer.rs:787-812 | every lookup of a traversal for the first commit is in range |
| `FinalizerQueue.PopRemovesCommit` | crates/consensus/src/commit_finalizer.rs:835-839 | the blocks removed with a commit are exactly those filed under its index |
| `FinalizerQueue.BoundedQueueIsShort` | crates/consensus/src/commit_finalizer.rs:620-647 | with leaders in ever higher rounds at most three commits are buffered |
| `FinalizerFates.ProgressIsTransitive` | crates/consensus/src/commit_finalizer.rs:874-919 | moving forward with reasons composes over calls |
| `FinalizerFates.DirectStepProgresses` | crates/consensus/src/commit_finalizer.rs:274-368 | direct finalization only moves forward and every decision has a reason |
| `FinalizerFates.IndirectStepProgresses` | crates/consensus/src/commit_finalizer.rs:461-647 | indirect finalization only moves forward and every decision has a reason |
| `CommitFinalizers.CommitFinalizer.constructor` | crates/consensus/src/commit_finalizer.rs:83-98 | the empty finalizer is valid |
| `CommitFinalizers.CommitFinalizer.FinalizeDirectly` | crates/consensus/src/commit_finalizer.rs:191-210 | commits go through direct finalization in order, up to the first remote one less than a wave old |
| `CommitFinalizers.CommitFinalizer.LinkBlocksInLastCommit` | crates/consensus/src/commit_finalizer.rs:372-399 | the map holds exactly the blocks of the queue, with exact links |
| `CommitFinalizers.CommitFinalizer.RecordOrigin` | crates/consensus/src/commit_finalizer.rs:421-458 | the walk down the own chain records the block with exactly its buffered origin ancestors |
| `CommitFinalizers.CommitFinalizer.AppendOriginDescendants` | crates/consensus/src/commit_finalizer.rs:421-458 | afterwards origin descendants are exact for all blocks |
| `CommitFinalizers.CommitFinalizer.IndirectlyFinalizeFirst` | crates/consensus/src/commit_finalizer.rs:461-475 | the first commit is decided against the buffered votes; an expired one is done |
| `CommitFinalizers.CommitFinalizer.FinalizeIndirectly` | crates/consensus/src/commit_finalizer.rs:234-254 | repeated from the front until no commit comes out; what stays is less than a wave old |
| `CommitFinalizers.CommitFinalizer.PopFinalizedCommits` | crates/consensus/src/commit_finalizer.rs:815-856 | exactly the settled commits at the front leave, in order, with their blocks |
| `CommitFinalizers.CommitFinalizer.ProcessCommit` | crates/consensus/src/commit_finalizer.rs:154-264 | inputs are outputs followed by the buffer, in order; the buffer is less than a wave deep and at most three commits when leader rounds increase; decided transactions stay decided and every decision has a reason, from reject stakes read anew for direct and for indirect finalization |
| `VoteTrackers.TransactionVoteTracker.constructor` | crates/consensus/src/transaction_vote_tracker.rs:222-228 | no votes at first |
| `VoteTrackers.TransactionVoteTracker.AddVotedBlock` | crates/consensus/src/transaction_vote_tracker.rs:236-283 | each block counts once; tallies stay exactly the rejecting authors with their stake |
| `VoteTrackers.TransactionVoteTracker.UpdateGcRound` | crates/consensus/src/transaction_vote_tracker.rs:286-300 | exactly the entries at or below the round go; the counts stay exact unless the round goes back |
| `VoteTrackers.TransactionVoteTracker.GetRejectVotes` | crates/consensus/src/transaction_vote_tracker.rs:172-187 | lists exactly the transactions somebody rejects, with the stake of the distinct rejecting authors |
| `FinalizerTask.ReadStakes` | crates/consensus/src/commit_finalizer.rs:330-350 | the stakes read for the buffered blocks are the counted ones, and no lookup fails |
| `FinalizerTask.CountArrivals` | crates/consensus/src/transaction_vote_tracker.rs:236-283 | blocks that arrive between the two readings are counted and no entry is lost |
| `FinalizerTask.Run` | crates/consensus/src/commit_finalizer.rs:113-152 | one turn of the loop, with blocks arriving while it is at work: every buffered block keeps its vote entry when the tracker drops what finalized commits leave behind, so the missing vote info panics are unreachable; the call keeps all that the finalizer promises |
| `FinalizerHistory.HistoryIsExplained` | crates/consensus/src/commit_finalizer.rs:154-264 | over all calls since the first commit, the received commits are the output followed by the buffer, and every rejected or finalized transaction was so for a reason of some call |
| `CommitPipeline.CommitsCanFollow` | crates/consensus/src/commit_finalizer.rs:154-168 | linearized commits, in order, meet what the finalizer asks of its next commit |
| `CommitPipeline.CommitsAreHistory` | crates/consensus/src/leader_schedule_v3.rs:248-283 | linearized commits meet what the sliding-window scorer asserts |
| `CommitPipeline.CommitCanBeScored` | crates/consensus/src/leader_scoring.rs:104-166 | linearized commits meet what vote scoring asserts: new leader round, no earlier link to it, causal order |
| `CommitPipeline.CommittedLeadersAreLeaders` | crates/consensus/src/core.rs:680-700 | decided leaders are in ever higher rounds, so they can be linearized |
| `CommitPipeline.RunsCommitTheSameBlocks` | crates/consensus/src/core.rs:579-719 | in every run any two validators commit the same leader and the same blocks in the same order under the same commit index |
| `CertifiedCommits.RecordedIsChain` | crates/consensus/src/linearizer.rs:65-120 | the commits recorded for linearized sub-dags, each with the digest of the one before it, follow from the leaders alone |
| `CertifiedCommits.CertifiedIsRecorded` | crates/consensus/src/core.rs:721-729 | in every run, linearizing the leaders of certified commits records exactly these commits, so the closing assertion holds |
| `AcceptedViews.AcceptedIsView` | crates/consensus/src/block_manager.rs:109-181 | what a block manager has accepted is a view of the world on which leaders can be decided |
| `AcceptedViews.CommitsBringHistory` | crates/consensus/src/core.rs:336-352 | linearized commits that follow the accepted ones bring the history that accepting committed blocks asks for |
| `CommittedVotes.CommittedBetween` | crates/consensus/src/commit_finalizer.rs:652-768 | what lies between a committed block and a later leader is committed between the two, as long as the block is not garbage collected |
| `CommittedVotes.AboveDescends` | crates/consensus/src/commit_finalizer.rs:372-399 | causal history among these commits is what the finalizer's links say |
| `CommittedVotes.FirstAboveVotes` | crates/consensus/src/commit_finalizer.rs:693-768 | the lowest block of an own chain above the pending block is a fresh, first vote in every validator's buffer |
| `CommittedVotes.VoterIsFirstAbove` | crates/consensus/src/commit_finalizer.rs:693-768 | conversely, a block whose vote counts is the lowest of its own chain above the pending block, committed before that is garbage collected |
| `LeaderCertificates.CommittedIsCertified` | crates/consensus/src/commit_finalizer.rs:173-190 | every committed leader is certified |
| `LeaderCertificates.LocalCommitIsCertified` | crates/consensus/src/commit_finalizer.rs:173-190 | who commits a leader on its own view holds a certificate of it |
| `LeaderCertificates.TopAnchor` | crates/consensus/src/base_committer.rs:122-145 | above every leader a view commits there is one it commits directly |
| `LeaderCertificates.LocalCommitIsKnown` | crates/consensus/src/commit_finalizer.rs:173-190 | who commits a leader locally holds a certificate, and any leader committed a wave later has it below or is in the view, whatever the schedules in between |
| `LeaderCertificates.RemoteCommitIsKnown` | crates/consensus/src/commit_finalizer.rs:186-191 | who holds a leader committed a wave later: the earlier leader is certified, and every block of its decision round in the view has it in its history |
| `LeaderCertificates.NextWaveHasCertificate` | crates/consensus/src/commit_finalizer.rs:183-190 | while the leader schedule stays, the first leader committed a wave later has a certificate of the earlier one in its history |
| `ScheduleChange.ChangeCanLoseCertificate` | crates/consensus/src/commit_finalizer.rs:183-190 | for every point at which a schedule can change between the two, a case with four honest authorities, reached by a run, in which no certificate is in the history of any leader committed so far |
| `ScheduleChange.CommitsInBetween` | crates/consensus/src/commit_finalizer.rs:183-190 | one to three leaders are committed from a leader on before the next one a wave later |
| `ScheduleChange.CertificateIsCommittedExactly` | crates/consensus/src/commit_finalizer.rs:183-190 | the certificate is among the committed blocks in all cases, and in all cases that a run reaches, exactly when the schedule does not change between the two commits |
| `OptimisticFinalization.SupportingIsQuorum` | crates/consensus/src/commit_finalizer.rs:173-190 | a quorum of authors has a block above the committed one that the finalizing validator has seen |
| `OptimisticFinalization.OptimisticFinalizationIsSafe` | crates/consensus/src/commit_finalizer.rs:173-210 | a transaction finalized without reject votes has an accept quorum in every validator's buffer that reaches the first commit a wave later |
| `OptimisticFinalization.AcceptanceCarriesOver` | crates/consensus/src/commit_finalizer.rs:652-768 | a quorum of accepts in one validator's buffer is one in every buffer that reaches as far |
| `OptimisticFinalization.AcceptedIsNotRejectedByQuorum` | crates/consensus/src/commit_finalizer.rs:693-768 | a transaction with a quorum of accepts in some buffer never collects a quorum of rejects |
| `OptimisticFinalization.NeverRejectedByQuorum` | crates/consensus/src/transaction_vote_tracker.rs:27-29 | such a transaction never collects a quorum of rejects anywhere |
| `OutputAgreement.DirectNeverRejectedByQuorum` | crates/consensus/src/commit_finalizer.rs:173-210 | what a validator may finalize directly, from the reject votes its tracker has counted, never collects a quorum of rejects |
| `OutputAgreement.DirectKnowsNextWave` | crates/consensus/src/commit_finalizer.rs:173-210 | and its view knows enough for every validator to find a quorum of accepts at the first commit a wave later |
| `OutputAgreement.DecisionsDoNotClash` | crates/consensus/src/commit_finalizer.rs:620-647 | what any call of any validator may finalize, directly or by accepts, no call of any validator may reject, neither by a quorum of rejects nor on expiry |
| `OutputAgreement.CallsAgree` | crates/consensus/src/commit_finalizer.rs:154-264 | any two calls of two finalizers of a run agree on the commits both received and never give clashing reasons |
| `OutputAgreement.RejectedByAll` | crates/consensus/src/commit_finalizer.rs:815-856 | an index that one validator rejects in a covered block is rejected in every other validator's output of the commit |
| `OutputAgreement.ValidatorsOutputTheSame` | crates/consensus/src/commit_finalizer.rs:113-152 | every two validators output, under each index, the same leader, the same blocks in the same order and the same rejects of covered blocks; when all blocks are covered the maps of rejects are equal |
| `UncoveredBlocks.RejectsCanDiffer` | crates/consensus/src/commit_finalizer.rs:310-368 | a block without transactions at or below the vote garbage collection round is not covered: who has seen a vote on it rejects a non-existent index on expiry, who has not settles it without rejects |
| `PendingCase.PendingIsSettled` | crates/consensus/src/commit_finalizer.rs:274-368 | among four authorities, of two pending transactions one is settled by a quorum of later blocks and one is rejected on expiry |
| `ChainWorld.OutputIsPossible` | crates/consensus/src/commit_finalizer.rs:113-152 | a world, a run and a finalizer with output that meet all assumptions of the agreement on output |
| `LeaderScores.ScanEndsAbove` | crates/consensus/src/leader_schedule_v3.rs:453-473 | the scan ends on a commit above the bound whenever the last one is |
| `LeaderScores.ScanUntilLeaderAbove` | crates/consensus/src/leader_schedule_v3.rs:453-473 | the loop computes the scan and its closing assertion holds |
| `LeaderScores.GroupByAuthor` | crates/consensus/src/leader_schedule_v3.rs:311-323 | groups blocks by author, in order |
| `LeaderScores.ScoreIsBounded` | crates/consensus/src/leader_schedule_v3.rs:504-515 | no score exceeds the stake of the leader blocks times the total stake |
| `LeaderScores.ScoreCommit` | crates/consensus/src/leader_schedule_v3.rs:265-385 | the entry of a commit: for each authority the product of the stake its only vote supports and the stake that supports that vote |
| `Ranking.RankedIsSorted` | crates/consensus/src/leader_schedule_v3.rs:218-221 | the ranking is a permutation by descending score |
| `LeaderSchedulesV3.AllowedLeadersAreGood` | crates/consensus/src/leader_schedule_v3.rs:187-237 | nobody excluded scores better than anybody allowed, the excluded stake is within the threshold, and below 100 percent somebody is allowed |
| `LeaderSchedulesV3.SelectAllowedLeaders` | crates/consensus/src/leader_schedule_v3.rs:187-237 | drops as many of the worst as fit into the cutoff and no more |
| `LeaderSchedulesV3.LeaderScheduleV3.constructor` | crates/consensus/src/leader_schedule_v3.rs:108-122 | the state of a history of which nothing was processed |
| `LeaderSchedulesV3.LeaderScheduleV3.AddCommit` | crates/consensus/src/leader_schedule_v3.rs:248-428 | the state stays the one that belongs to the history; every total is at most the leader stakes times the total stake |
| `LeaderSchedulesV3.LeaderScheduleV3.Evict` | crates/consensus/src/leader_schedule_v3.rs:387-406 | makes room for one entry; subtraction never underflows and totals stay the sum over the window |
| `LeaderSchedulesV3.LeaderScheduleV3.Refresh` | crates/consensus/src/leader_schedule_v3.rs:430-448 | allowed leaders change exactly at interval boundaries |
| `LeaderSchedulesV3.TotalIsBounded` | crates/consensus/src/leader_schedule_v3.rs:504-515 | a total over the window is at most the summed leader stakes times the total stake |
| `LeaderSchedulesV3.ReplayCoversWindow` | crates/consensus/src/leader_schedule_v3.rs:153-164 | the replay starts early enough for the window at the last boundary and at the end |
| `LeaderSchedulesV3.RecoveryEqualsLive` | crates/consensus/src/leader_schedule_v3.rs:83-106 | replaying only the last commits gives exactly the state of processing all of them |
| `LeaderSchedulesV3.FromStore` | crates/consensus/src/leader_schedule_v3.rs:83-106 | the recovered schedule is the live one |
| `LeaderSwapTables.RetrieveFirstNodes` | crates/consensus/src/leader_schedule.rs:370-394 | the longest run from the front whose stake is within the cutoff |
| `LeaderSwapTables.NewTable` | crates/consensus/src/leader_schedule.rs:243-316 | good nodes are the first and bad nodes the last of the ranking within the cutoff |
| `LeaderSwapTables.GoodAndBadAreDisjoint` | crates/consensus/src/leader_schedule.rs:253-256 | with a threshold of at most 33 no authority is both good and bad |
| `LeaderSwapTables.GoodNodeExists` | crates/consensus/src/leader_schedule.rs:348-351 | there is a good node exactly when the best ranked authority fits into the cutoff, and a bad one exactly when the worst ranked does |
| `LeaderSwapTables.ElectionSucceeds` | crates/consensus/src/leader_schedule.rs:331-361 | every election succeeds exactly when the worst ranked authority exceeds the cutoff or the best ranked one does not |
| `LeaderSwapTables.NoElectedLeaderIsBad` | crates/consensus/src/leader_schedule.rs:132-146 | when no authority exceeds the cutoff, every election succeeds and elects nobody bad |
| `LeaderSwapTables.SwapCanFindNobody` | crates/consensus/src/leader_schedule.rs:348-351 | an instance where a bad leader finds no good node, so the expectation fails |
| `ScoringSubdags.ScoringSubdag.constructor` | crates/consensus/src/leader_scoring.rs:95-102 | nothing is scored at first |
| `ScoringSubdags.ScoringSubdag.AddBlock` | crates/consensus/src/leader_scoring.rs:128-165 | votes and their supporters stay exact; no vote is recorded twice |
| `ScoringSubdags.ScoringSubdag.AddSubdag` | crates/consensus/src/leader_scoring.rs:104-166 | the range of commits grows by one and the votes stay exact |
| `ScoringSubdags.ScoringSubdag.DistributedVotesScores` | crates/consensus/src/leader_scoring.rs:188-209 | an authority's score is the stake of the supporters of its votes, summed over its votes |
| `ScoringSubdags.ScoringSubdag.Clear` | crates/consensus/src/leader_scoring.rs:224-228 | back to nothing scored |
| `CommitRanges.ApartMeansNoCommonIndex` | crates/consensus/src/commit.rs:617-680 | ranges are apart exactly when they share no index |
| `Cores.FilterNewCommits` | crates/consensus/src/core.rs:521-555 | keeps exactly the commits after the last one, and fails exactly when the first of them is not next in line |
| `Cores.NewOfConsecutive` | crates/consensus/src/core.rs:521-555 | for consecutive commits the new ones are a suffix, and there is a gap exactly when the first commit of all is too late |
| `Cores.Core.constructor` | crates/consensus/src/leader_schedule.rs:39-45 | a new schedule has the default range |
| `Cores.Core.UpdateLeaderSchedule` | crates/consensus/src/leader_schedule.rs:178-200 | a new swap table comes from the adjacent range of the same size |
| `Cores.Core.HandleCommit` | crates/consensus/src/leader_scoring.rs:104-123 | commits never exceed the schedule length and the scored range follows them |
| `Cores.Core.TryCommit` | crates/consensus/src/core.rs:579-719 | commits all certified commits in order and then exactly what the successive runs of the commit rule decide, cut at each schedule change |
| `Cores.Core.CommitCertified` | crates/consensus/src/core.rs:810-845 | every certified commit is consumed, a schedule at a time |
| `Cores.Core.Prepare` | crates/consensus/src/core.rs:608-638 | after an update if one is due, the limit is positive and is what is left of the schedule |
| `Cores.Core.AddCertifiedCommits` | crates/consensus/src/core.rs:409-437 | a batch without a gap never fails, and afterwards all of it is committed under its own indices |
| `CommitVerification.VerifyCommits` | crates/consensus/src/commit_syncer.rs:797-880 | accepts exactly when the commits chain by digest from the start of the range, the votes are well formed and the last commit has a quorum of votes |
| `CommitVerification.CertifiedCommitsAreAgreed` | crates/consensus/src/commit_syncer.rs:797-880 | commits certified by a quorum are the agreed ones, all of them, through the digest chain |
| `CommitVerification.ChainIsVouchedFor` | crates/consensus/src/commit_syncer.rs:797-880 | when the last of chained commits is in a chain, all of them are |
| `CommitSyncers.IndexIsInOnePlace` | crates/consensus/src/commit_syncer.rs:96-103 | an index is in at most one pending, in-flight or fetched range |
| `CommitSyncers.SplitKeepsPartition` | crates/consensus/src/commit_syncer.rs:297-301 | replacing a range by its fetched and its re-queued part loses and duplicates nothing |
| `CommitSyncers.CommitSyncer.constructor` | crates/consensus/src/commit_syncer.rs:117-151 | nothing is scheduled at first |
| `CommitSyncers.CommitSyncer.TryScheduleOnce` | crates/consensus/src/commit_syncer.rs:198-254 | schedules full batches until too few commits are left or the handler lags; the partition stays exact |
| `CommitSyncers.CommitSyncer.TryStartFetches` | crates/consensus/src/commit_syncer.rs:393-451 | moves the first pending ranges to in-flight up to the limit |
| `CommitSyncers.CommitSyncer.HandleFetchResult` | crates/consensus/src/commit_syncer.rs:256-391 | partial results are split, synced ranges dropped, and the partition stays exact; nothing that follows the synced commits is left behind |
| `CommitSyncers.CommitSyncer.ProcessFetched` | crates/consensus/src/commit_syncer.rs:308-380 | hands ranges to the core as long as they follow the synced commits |
| `CommitSyncers.CommitSyncer.HandOver` | crates/consensus/src/commit_syncer.rs:312-380 | a handed-over batch starts at most one after the core's last commit |
| `CommitSyncers.CommitSyncer.CommitLocally` | crates/consensus/src/core.rs:606-719 | local progress of the core keeps the syncer in order |
| `QuorumStatistics.HighestOfQuorum` | crates/consensus/src/commit_vote_monitor.rs:61-80 | the largest value that a quorum reaches |
| `QuorumStatistics.LowestOfQuorum` | crates/consensus/src/ancestor.rs:283-307 | the lowest value that a quorum does not exceed |
| `QuorumStatistics.CommitVoteMonitor.constructor` | crates/consensus/src/commit_vote_monitor.rs:39-45 | no votes at first |
| `QuorumStatistics.CommitVoteMonitor.ObserveBlock` | crates/consensus/src/commit_vote_monitor.rs:48-55 | keeps the highest commit each authority has voted for |
| `QuorumStatistics.CommitVoteMonitor.QuorumCommitIndex` | crates/consensus/src/commit_vote_monitor.rs:61-80 | the largest index for which a quorum has voted, counting later votes |
| `Ancestors.AncestorStateManager.constructor` | crates/consensus/src/ancestor.rs:84-105 | all included, with two thirds of the bad-node threshold as limit |
| `Ancestors.AncestorStateManager.UpdateAllAncestorsState` | crates/consensus/src/ancestor.rs:116-221 | the excluded stake is the stake of the excluded authorities and within its limit; who is locked stays; who may be excluded stays only if those with no better score leave no room |
| `Ancestors.AncestorStateManager.ApplyStateChange` | crates/consensus/src/ancestor.rs:223-252 | the subtraction never underflows and only real transitions are applied |
| `Ancestors.LockedIsUnchanged` | crates/consensus/src/ancestor.rs:39-45 | no authority changes state while it is locked |

## Left out

- BlockVerifier.VerifyBlock: does not cover the epoch, the signature, transaction contents and commit vote limits, which need foreign code.
- Linearizers.Linearizer.CollectSubDag: leaves out the timestamp and the digest of the commit.
- BlockManagers.BlockManager.TryAcceptBlocks: gives one direction for ascending rounds, since within a turn the order follows the stack of released blocks; when the order fails is stated by AcceptanceOrder.TurnsOutOfOrder for blocks of different turns.
- CommitVerification.VerifyCommits: states when commits are accepted, not which error is reported first, and starts from parsed commits.
- Cores.Core.TryCommit: takes the outcomes of successive runs of the commit rule as given and does not model the acceptance of the commits' blocks, which the block manager covers.
- Ancestors.AncestorStateManager.UpdateAllAncestorsState: leaves open which of several candidates with equal scores is excluded first.
- OutputAgreement.ValidatorsOutputTheSame: is about finalizers that run from the first commit on; output that a restarted finalizer repeats from storage is not covered.
- FinalizerTask.Run: leaves out the branch for commits that need no finalization, because voting is disabled or they were finalized before a restart.
- UncoveredBlocks.RejectsCanDiffer: leaves out the metric at crates/consensus/src/commit_finalizer.rs:339, a subtraction that presumes no more rejected indices than transactions.
- PendingCase.PendingIsSettled: shows the states of one commit, not a whole run; the whole run with output has a single authority.
- Networking, subscriptions, fetch retries and timeouts, shutdown and channels: input and output, not rules.
- Proposing blocks, propagation delay, round probing and leader timeouts: they decide when blocks appear, not what is committed.
- Caching, eviction and flushing of the block store, and recovery of components other than the sliding-window schedule: persistence, with a block store that forgets nothing in its place.
- Own proposed blocks, which enter the block store without passing the block manager.
- Commit timestamps: a stake-weighted median that no decision depends on.
- Several leaders per round and longer waves: the swap table and the skip rule support one leader and a wave of three only.
- Parallel chunks of the indirect traversal: results per block are independent reads, so blocks are processed in sequence.
- Metrics, logging and normalized scores; the integer bound behind normalization is proved.
