/** A world with a single authority, with a run in which a commit is decided, linearized and finalized. It meets all
    assumptions of the theorem about the output of validators. */
module ChainWorld {
  import opened Committees
  import opened Blocks
  import opened BlockVerifier
  import opened Dags
  import opened CommitRule
  import opened BaseCommitter
  import opened UniversalCommitter
  import opened CommitRuns
  import opened BlockIndex
  import opened FinalizerState
  import opened FinalizerQueue
  import opened FinalizerFates
  import opened CommitFinalizers
  import opened FinalizerHistory
  import opened Linearizers
  import opened CommittedVotes
  import opened OptimisticFinalization
  import opened VoteTrackers
  import opened OutputAgreement

  function RefAt(round: Round): BlockRef {
    BlockRef(round, 0, 0)
  }

  function BlockAt(round: Round): Block {
    Block(round, 0, 0, if round == 0 then [] else [RefAt(round - 1)], 1, [], [])
  }

  function Chain(n: nat): map<BlockRef, Block> {
    if n == 0 then map[] else Chain(n - 1)[RefAt(n - 1) := BlockAt(n - 1)]
  }

  lemma {:induction false} ChainHoldsAt(n: nat, r: BlockRef)
    ensures r in Chain(n) <==> r.round < n && r.author == 0 && r.digest == 0
    ensures r in Chain(n) ==> Chain(n)[r] == BlockAt(r.round)
  {
    if n == 0 {
    } else {
      ChainHoldsAt(n - 1, r);
    }
  }

  lemma ChainHolds(n: nat)
    ensures forall r :: r in Chain(n) <==> r.round < n && r.author == 0 && r.digest == 0
    ensures forall r :: r in Chain(n) ==> Chain(n)[r] == BlockAt(r.round)
  {
    hide Chain;
    forall r
      ensures r in Chain(n) <==> r.round < n && r.author == 0 && r.digest == 0
      ensures r in Chain(n) ==> Chain(n)[r] == BlockAt(r.round)
    {
      ChainHoldsAt(n, r);
    }
  }

  function WorldOf(n: nat): World {
    World(Committee([1], 1), {RefAt(0)}, Chain(n), {})
  }

  lemma OneIsQuorum(c: Committee, s: set<Authority>)
    requires c == Committee([1], 1) && 0 in s
    ensures c.IsQuorum(s)
  {
    assert SumUpto([1], s, 1) == SumUpto([1], s, 0) + 1;
  }

  lemma WorldIsValid(n: nat)
    ensures WorldOf(n).Valid() && ClosedAbove(Chain(n), 0)
  {
    hide Chain, WellFormed, Committee.ToleratesFaults;
    var w := WorldOf(n);
    FaultsAreTolerated(w.committee);
    ChainIsClosed(n);
    forall r | r in w.blocks
      ensures w.blocks[r].Ref() == r && (r.round == GENESIS_ROUND ==> w.blocks[r].ancestors == [])
      ensures r.round > 0 ==> WellFormed(w.committee, w.genesis, w.blocks[r])
    {
      ChainHoldsAt(n, r);
      if r.round > 0 {
        BlockIsWellFormed(r.round);
      }
    }
    forall r, s | r in w.blocks && s in w.blocks && w.InSameHonestSlot(r, s)
      ensures r == s
    {
      ChainHoldsAt(n, r);
      ChainHoldsAt(n, s);
    }
  }

  lemma ChainIsClosed(n: nat)
    ensures ClosedAbove(Chain(n), 0) && forall r :: r in Chain(n) ==> r.round <= n
  {
    hide Chain;
    forall r | r in Chain(n)
      ensures r.round <= n && forall a :: a in Chain(n)[r].ancestors ==> a in Chain(n)
    {
      ChainHoldsAt(n, r);
      if r.round > 0 {
        ChainHoldsAt(n, RefAt(r.round - 1));
      }
    }
  }

  lemma BlockIsWellFormed(round: Round)
    requires round > 0
    ensures WellFormed(Committee([1], 1), {RefAt(0)}, BlockAt(round))
  {
    var b := BlockAt(round);
    assert RefAt(round - 1) in b.ancestors;
    assert 0 in ParentAuthors(b);
    OneIsQuorum(Committee([1], 1), ParentAuthors(b));
  }

  lemma FaultsAreTolerated(c: Committee)
    requires c == Committee([1], 1)
    ensures c.ToleratesFaults({})
  {
    assert c.IsMember(0);
    assert c.AllMembers() == {0};
    assert SumUpto([1], {0}, 1) == SumUpto([1], {0}, 0) + 1;
    StakeEmpty(c);
  }

  lemma {:induction false} LaterReachesEarlier(n: nat, i: Round, j: Round)
    requires i <= j < n
    ensures Reaches(Chain(n), RefAt(j), RefAt(i))
    decreases j
  {
    hide Chain, Reaches;
    ReachesItself(WorldOf(n), RefAt(i));
    if i < j {
      ChainHoldsAt(n, RefAt(j));
      LaterReachesEarlier(n, i, j - 1);
      StepReaches(Chain(n), RefAt(j), RefAt(j - 1));
      ReachesTransitive(Chain(n), RefAt(j), RefAt(j - 1), RefAt(i));
    }
  }

  lemma VotingIsHonest(n: nat)
    ensures HonestVoting(WorldOf(n))
  {
    hide Chain, Reaches, IsFirstAbove;
    var w := WorldOf(n);
    forall x, y | x in w.blocks && y in w.blocks && x.round < y.round
      ensures w.blocks[y].ancestors != [] && Reaches(w.blocks, w.blocks[y].ancestors[0], x)
    {
      ChainHoldsAt(n, x);
      ChainHoldsAt(n, y);
      assert x == RefAt(x.round);
      LaterReachesEarlier(n, x.round, y.round - 1);
    }
    forall x | x in w.blocks
      ensures w.blocks[x].transactionVotes == []
    {
      ChainHoldsAt(n, x);
    }
  }

  lemma IsCertifiedInChain(w: World)
    requires w == WorldOf(4)
    ensures Certifies(w, RefAt(3), RefAt(1))
  {
    hide Chain;
    ChainHolds(4);
    assert RefAt(2) in w.blocks[RefAt(3)].ancestors && RefAt(1) in w.blocks[RefAt(2)].ancestors;
    assert 0 in Voters(w, RefAt(3), RefAt(1));
    OneIsQuorum(w.committee, Voters(w, RefAt(3), RefAt(1)));
  }

  // ----- a run with output

  const Rounds: Protocol := Protocol((leaders: seq<BlockRef>) => (round: Round) => 0, 10, leaders => [], commit => 0)

  function View(): DagState {
    DagState(Chain(4), 0, 3)
  }

  function OneStep(): seq<seq<Validator>> {
    [[Validator(View(), [])], [Validator(View(), [LeaderStatus.Commit(RefAt(1))])]]
  }

  lemma ViewIsView(round: Round)
    requires round > 0
    ensures ViewOf(WorldOf(4), View(), round)
  {
    hide Chain;
    WorldIsValid(4);
    ChainHolds(4);
  }

  /** The leader of the first round is committed directly. */
  lemma FirstIsCommitted()
    ensures DirectStatus(WorldOf(4), View(), SlotAt(1, 0)) == LeaderStatus.Commit(RefAt(1))
  {
    hide Chain, Certifies, DirectStatus, World.Valid, World.HasView;
    var w, d := WorldOf(4), View();
    ViewIsView(1);
    ChainHolds(4);
    IsCertifiedInChain(w);
    assert RefAt(3) in d.blocks;
    assert 0 in Certifiers(w, d, RefAt(1));
    OneIsQuorum(w.committee, Certifiers(w, d, RefAt(1)));
    DirectStatusIs(w, d, SlotAt(1, 0), RefAt(1));
  }

  lemma FirstStatuses(schedule: Schedule)
    requires schedule(1) == 0
    ensures Statuses(WorldOf(4), View(), schedule, 1, 1) == [LeaderStatus.Commit(RefAt(1))]
  {
    hide WorldOf, View, DirectStatus, Statuses, StatusAt;
    FirstIsCommitted();
    DirectDecides(WorldOf(4), View(), schedule, 1, 1);
    StatusesAreByRound(WorldOf(4), View(), schedule, 1, 1, 0);
  }

  lemma NothingDecided()
    ensures Rounds.Valid() && Rounds.Current([])(1) == 0
    ensures CommittedLeaders([]) == [] && Rounds.CommitsUntilUpdate(0) == 10 && LastDecidable(View()) == 1
  {
  }

  lemma OutcomeIsOne()
    ensures Rounds.Valid() && Outcome(WorldOf(4), Rounds, Validator(View(), [])) == [LeaderStatus.Commit(RefAt(1))]
  {
    hide WorldOf, View, Statuses, DecidedPrefix, CommittedLeaders, LastDecidable, Protocol.Current,
         Protocol.CommitsUntilUpdate, Protocol.Valid;
    NothingDecided();
    FirstStatuses(Rounds.Current([]));
    OnePrefix(LeaderStatus.Commit(RefAt(1)));
  }

  lemma OneStepIsRun()
    ensures Rounds.Valid() && DecideLocally(WorldOf(4), Rounds, OneStep()[0][0], OneStep()[1][0])
    ensures IsRun(WorldOf(4), Rounds, OneStep())
  {
    hide WorldOf, View, ViewOf, Outcome, UpdateView, Restart, CatchesUp;
    ViewIsView(1);
    OutcomeIsOne();
    var v := OneStep()[0][0];
    assert v.decided + Outcome(WorldOf(4), Rounds, v) == OneStep()[1][0].decided;
    assert DecideLocally(WorldOf(4), Rounds, v, OneStep()[1][0]);
    hide DecideLocally;
    assert Moves(WorldOf(4), Rounds, OneStep()[0], OneStep()[1], 0);
    hide Moves;
    assert Next(WorldOf(4), Rounds, OneStep()[0], OneStep()[1]);
  }

  lemma OnePrefix(s: LeaderStatus)
    requires s.IsDecided()
    ensures DecidedPrefix([s]) == [s]
  {
    assert [s][1..] == [];
  }

  const FirstCommit: CommittedSubDag := CommittedSubDag(1, RefAt(1), [BlockAt(1)], true, map[])

  const FirstRules: Rules := Rules(Committee([1], 1), 10, map[RefAt(1) := map[]], map[RefAt(1) := map[]], [FirstCommit])

  const FirstCall: Call :=
    Call(FirstRules, [NewCommitState(FirstCommit)], [FirstCommit], [])

  lemma FirstIsSubDag()
    ensures IsSubDag(WorldOf(4), 10, [RefAt(1)], 0, FirstCommit)
  {
    hide Chain;
    var w, leaders := WorldOf(4), [RefAt(1)];
    ChainHolds(4);
    var b := BlockAt(1);
    assert b.Ref() == RefAt(1) && Refs([b]) == {b.Ref()};
    forall r
      ensures r in Refs([BlockAt(1)]) <==> InSubDag(w, 10, leaders, 0, r)
    {
      OnlyItself(r);
    }
    hide InSubDag;
    FirstIsInOrder();
  }

  lemma OnlyItself(r: BlockRef)
    ensures InSubDag(WorldOf(4), 10, [RefAt(1)], 0, r) <==> r == RefAt(1)
  {
    hide Chain;
    var w := WorldOf(4);
    ChainHolds(4);
    if Reaches(w.blocks, RefAt(1), r) && r.round > 0 && r != RefAt(1) {
      ReachesDescends(w.blocks, RefAt(1), r);
    }
  }

  lemma FirstIsInOrder()
    ensures InOrder(WorldOf(4), 10, [RefAt(1)], 0, [BlockAt(1)])
  {
    hide Chain, Reaches;
    var w := WorldOf(4);
    ChainHolds(4);
    var before := CommittedBefore(w, 10, [RefAt(1)], 0);
    assert BlockAt(1).ancestors[..0] == [];
    assert Uncommitted(BlockAt(1).ancestors, 0, before + {RefAt(1)}) == [];
    VisitStep(w.blocks, 0, [], [BlockAt(1)], before + {RefAt(1)}, []);
    assert [] + [BlockAt(1)] == [BlockAt(1)];
    assert [BlockAt(1)][..0] + Lookup(w.blocks, []) == [];
    VisitEnd(w.blocks, 0, [BlockAt(1)], before + {RefAt(1)} + RefSet([]));
    assert Traversal(w.blocks, 0, RefAt(1), before) == [BlockAt(1)];
    hide Traversal, Visit;
    assert [BlockAt(1)][..0] == [];
    assert SlotSorted([BlockAt(1)]) == [BlockAt(1)];
  }

  lemma NothingIsRejected()
    ensures AreReads(WorldOf(4), Now(), FirstRules)
  {
    hide Chain;
    ChainHolds(4);
    var seen := WorldOf(4).blocks.Values;
    forall t: nat
      ensures Rejecters(seen, RefAt(1), t) == {}
    {
    }
    assert IsTrackedStake(Committee([1], 1), seen, RefAt(1), map[]);
    assert IsReadBetween(Committee([1], 1), seen, seen, RefAt(1), map[]);
  }

  function Now(): Moment {
    Moment(1, WorldOf(4).blocks.Values, 0)
  }

  lemma ViewIsCounted()
    ensures IsCounted(View(), Now().seen, 0) && WorldOf(4).HasView(View()) && RefAt(1) in View().blocks
    ensures View().gcRound == 0
  {
    hide Chain;
    ViewIsView(1);
    ChainHolds(4);
  }

  lemma FirstIsLinearized()
    ensures IsLinearized(WorldOf(4), 10, OneStep(), 0, Now(), [RefAt(1)], 0)
  {
    hide WorldOf, World.HasView, IsCounted, View;
    ViewIsCounted();
    assert LinearizesAt(WorldOf(4), 10, OneStep(), 0, Now(), [RefAt(1)], 0, 1);
  }

  lemma FirstIsDecidedLocally()
    ensures Rounds.Valid() && IsDecidedLocally(WorldOf(4), Rounds, 10, OneStep(), 0, Now(), RefAt(1))
  {
    hide WorldOf, World.HasView, IsCounted, View, DecideLocally, IsRun;
    OneStepIsRun();
    ViewIsCounted();
    DecidedIsNew();
    assert DecidesAt(WorldOf(4), Rounds, 10, OneStep(), 0, Now(), RefAt(1), 0);
  }

  lemma FirstIsGoneBy()
    ensures Rounds.Valid() && GoesBy(WorldOf(4), Rounds, 10, OneStep(), 0, Now(), [RefAt(1)], FirstRules)
  {
    hide Chain, IsLinearized, IsDecidedLocally, IsSubDag, AreReads;
    FirstIsLinearized();
    FirstIsDecidedLocally();
    FirstIsSubDag();
    NothingIsRejected();
    ChainHoldsAt(4, RefAt(1));
  }

  lemma DecidedIsNew()
    ensures LeaderStatus.Commit(RefAt(1)) in OneStep()[1][0].decided[|OneStep()[0][0].decided|..]
    ensures View().gcRound <= GcRound(LastCommitted(OneStep()[0][0].decided), 10)
    ensures CommittedLeaders(OneStep()[1][0].decided) == [RefAt(1)]
  {
    var decided := [LeaderStatus.Commit(RefAt(1))];
    assert decided[0..] == decided && decided[..0] == [];
  }

  lemma FirstIsInput()
    ensures Rounds.Valid() && IsInput(WorldOf(4), Rounds, 10, OneStep(), 0, Now(), FirstRules)
  {
    hide GoesBy, WorldOf;
    FirstIsGoneBy();
    DecidedIsNew();
  }

  lemma FirstCallIsHistory()
    ensures IsHistory(10, [FirstCall]) && Output([FirstCall]) == [FirstCommit]
  {
    var s := NewCommitState(FirstCommit);
    var s' := CommitState(FirstCommit, map[], map[], map[]);
    assert FirstCommit.blocks[..0] == [];
    assert s.pendingBlocks == map[RefAt(1) := 1];
    forall r, t | IsUndecided(10, s, r, t)
      ensures MayFinalize(FirstRules, FirstCommit, r, t)
    {
      assert MayFinalizeDirectly(FirstRules, FirstCommit, r, t);
    }
    hide MayFinalize, MayReject;
    assert Progresses(FirstRules, s, s');
    assert Emit(s') == FirstCommit;
    assert IsSettledAs(FirstRules, s, FirstCommit);
    assert [FirstCall][..0] == [];
    assert FirstRules.received[..0] == [];
    assert IsCall(FirstCall);
  }

  /** There are worlds, runs and finalizers with output that meet all assumptions. */
  lemma OutputIsPossible()
    returns (w: World, e: Protocol, run: seq<seq<Validator>>, calls: seq<Call>, moments: seq<Moment>)
    ensures w.Valid() && HonestVoting(w) && e.Valid() && IsRun(w, e, run)
    ensures IsHistoryOf(w, e, 10, run, 0, calls, moments) && Output(calls) == [FirstCommit]
    ensures RefAt(1) in NumTransactions(FirstCommit.blocks)
  {
    hide Chain, World.Valid, HonestVoting, IsRun, IsHistory, IsInput, Output, Protocol.Valid;
    w, e, run, calls, moments := WorldOf(4), Rounds, OneStep(), [FirstCall], [Now()];
    WorldIsValid(4);
    VotingIsHonest(4);
    OneStepIsRun();
    FirstIsInput();
    FirstCallIsHistory();
    assert FirstCommit.blocks[..0] == [];
  }
}
