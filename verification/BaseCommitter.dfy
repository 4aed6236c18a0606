/** The commit rule as a validator runs it on its own view of the DAG. Each method is shown
    to compute the view-independent meaning given in CommitRule. */
module BaseCommitter {
  import opened Division
  import opened Committees
  import opened StakeAggregators
  import opened Blocks
  import opened BlockVerifier
  import opened Dags
  import opened CommitRule

  // ----- wave arithmetic

  datatype Options = Options(waveLength: nat, roundOffset: Round) {

    function LeaderRound(wave: nat): Round {
      wave * waveLength + roundOffset
    }

    function DecisionRound(wave: nat): Round
      requires waveLength > 0
    {
      wave * waveLength + waveLength - 1 + roundOffset
    }

    function WaveNumber(round: Round): nat
      requires waveLength > 0
    {
      (if round >= roundOffset then round - roundOffset else 0) / waveLength
    }

    /** Whether this committer has a leader in the round. */
    predicate LeadsRound(round: Round)
      requires waveLength > 0
    {
      LeaderRound(WaveNumber(round)) == round
    }
  }

  /** In a pipeline of wave-length many committers exactly one leads each round, and it
      decides that round wave-length minus one rounds later. */
  lemma PipelineCoversEveryRound(waveLength: nat, round: Round)
    requires waveLength > 0
    ensures Options(waveLength, round % waveLength).LeadsRound(round)
    ensures forall offset: nat :: offset < waveLength && Options(waveLength, offset).LeadsRound(round)
                                  ==> offset == round % waveLength
    ensures forall offset: nat :: offset < waveLength && Options(waveLength, offset).LeadsRound(round) ==>
              Options(waveLength, offset).DecisionRound(Options(waveLength, offset).WaveNumber(round))
                == round + waveLength - 1
  {
    var q, m := round / waveLength, round % waveLength;
    assert round == q * waveLength + m;
    MultipleDivides(q, waveLength);
    forall offset: nat | offset < waveLength && Options(waveLength, offset).LeadsRound(round)
      ensures offset == m
    {
      var wave := Options(waveLength, offset).WaveNumber(round);
      RemainderIsUnique(waveLength, wave, offset, q, m);
    }
  }

  // ----- votes

  /** The blocks a search for support may need to look up. */
  ghost predicate CanSearch(d: DagState, slot: Slot, from: Block) {
    && IndexedByRef(d.blocks)
    && ClosedAbove(d.blocks, slot.round)
    && (forall r, a :: r in d.blocks && a in d.blocks[r].ancestors ==> a.round < r.round)
    && (forall a :: a in from.ancestors ==> a.round < from.round)
    && (forall a :: a in from.ancestors && a.round > slot.round ==> a in d.blocks)
  }

  /** The one block of the slot that `from` supports: the first that a depth-first search
      through its ancestors, in their order, comes across. */
  function FindSupportedBlock(d: DagState, slot: Slot, from: Block): Option<BlockRef>
    requires CanSearch(d, slot, from)
    decreases from.round, |from.ancestors| + 1
  {
    if from.round < slot.round then None else SearchAncestors(d, slot, from, 0)
  }

  function SearchAncestors(d: DagState, slot: Slot, from: Block, i: nat): Option<BlockRef>
    requires CanSearch(d, slot, from)
    requires i <= |from.ancestors|
    decreases from.round, |from.ancestors| - i
  {
    if i == |from.ancestors| then None
    else
      var a := from.ancestors[i];
      if a.Slot() == slot then Some(a)
      else if a.round <= slot.round then SearchAncestors(d, slot, from, i + 1)
      else
        var support := FindSupportedBlock(d, slot, d.blocks[a]);
        if support.Some? then support else SearchAncestors(d, slot, from, i + 1)
  }

  /** A run of blocks in the view, each with the one before it as its first ancestor. */
  ghost predicate IsOwnChain(d: DagState, chain: seq<Block>) {
    && (forall k :: 0 <= k < |chain| ==> chain[k].Ref() in d.blocks && d.blocks[chain[k].Ref()] == chain[k])
    && (forall k :: 0 < k < |chain| ==> chain[k].ancestors != [] && chain[k].ancestors[0] == chain[k - 1].Ref())
  }

  /** Along an author's own chain of blocks support never changes: once a block supports a block of the
      slot, all later ones support the same. */
  lemma {:induction false} SupportIsStable(d: DagState, slot: Slot, chain: seq<Block>, k: nat)
    requires IsOwnChain(d, chain) && k < |chain| && forall i :: 0 <= i < |chain| ==> CanSearch(d, slot, chain[i])
    requires FindSupportedBlock(d, slot, chain[0]).Some?
    ensures FindSupportedBlock(d, slot, chain[k]) == FindSupportedBlock(d, slot, chain[0])
  {
    hide CanSearch;
    if k == 0 {
    } else {
      SupportIsStable(d, slot, chain, k - 1);
      SupportIsInherited(d, slot, chain[k - 1], chain[k]);
    }
  }

  lemma SupportIsInherited(d: DagState, slot: Slot, earlier: Block, later: Block)
    requires CanSearch(d, slot, earlier) && CanSearch(d, slot, later)
    requires later.ancestors != [] && later.ancestors[0] == earlier.Ref()
    requires earlier.Ref() in d.blocks && d.blocks[earlier.Ref()] == earlier
    requires FindSupportedBlock(d, slot, earlier).Some?
    ensures FindSupportedBlock(d, slot, later) == FindSupportedBlock(d, slot, earlier)
  {
    SupportIsBelow(d, slot, earlier, 0);
  }

  /** Only a block above the slot's round supports a block of the slot. */
  lemma {:induction false} SupportIsBelow(d: DagState, slot: Slot, from: Block, i: nat)
    requires CanSearch(d, slot, from) && i <= |from.ancestors|
    requires SearchAncestors(d, slot, from, i).Some?
    ensures from.round > slot.round
    ensures SearchAncestors(d, slot, from, i).value.Slot() == slot
    decreases from.round, |from.ancestors| - i
  {
    var a := from.ancestors[i];
    if a.Slot() == slot {
    } else if a.round <= slot.round {
      SupportIsBelow(d, slot, from, i + 1);
    } else if FindSupportedBlock(d, slot, d.blocks[a]).Some? {
      SupportIsBelow(d, slot, d.blocks[a], 0);
    } else {
      SupportIsBelow(d, slot, from, i + 1);
    }
  }

  /** In the round after the slot only a direct link is support. */
  lemma {:induction false} DirectLinkIsSupport(d: DagState, slot: Slot, from: Block, i: nat, leader: BlockRef)
    requires CanSearch(d, slot, from) && i <= |from.ancestors|
    requires from.round <= slot.round + 1
    requires DistinctAuthors(from.ancestors)
    requires leader.Slot() == slot
    ensures SearchAncestors(d, slot, from, i) == Some(leader) <==> leader in from.ancestors[i..]
    decreases |from.ancestors| - i
  {
    if i < |from.ancestors| {
      DirectLinkIsSupport(d, slot, from, i + 1, leader);
      assert from.ancestors[i..] == [from.ancestors[i]] + from.ancestors[i + 1..];
    }
  }

  ghost predicate ViewOf(w: World, d: DagState, round: Round) {
    w.Valid() && w.HasView(d) && d.gcRound < round
  }

  lemma ViewCanSearch(w: World, d: DagState, slot: Slot, r: BlockRef)
    requires ViewOf(w, d, slot.round) && r in d.blocks
    ensures CanSearch(d, slot, d.blocks[r])
  {
    forall x, a | x in d.blocks && a in d.blocks[x].ancestors
      ensures a.round < x.round
    {
      assert d.blocks[x] == w.blocks[x];
      GenesisHasNoAncestors(w, x);
    }
  }

  /** A block that passed no verification is a genesis block; those have no ancestors. */
  lemma GenesisHasNoAncestors(w: World, r: BlockRef)
    requires w.Valid() && r in w.blocks
    ensures forall a :: a in w.blocks[r].ancestors ==> a.round < r.round
  {
  }

  /** Whether the block is a vote for the leader block. */
  predicate IsVote(d: DagState, vote: Block, leader: BlockRef)
    requires CanSearch(d, leader.Slot(), vote)
  {
    FindSupportedBlock(d, leader.Slot(), vote) == Some(leader)
  }

  /** What a look at a block of the view may rely on. */
  lemma BlockFacts(w: World, d: DagState, r: BlockRef)
    requires w.Valid() && w.HasView(d) && r in d.blocks
    ensures w.committee.quorumThreshold > 0
    ensures r in w.blocks && d.blocks[r] == w.blocks[r] && d.blocks[r].Ref() == r
    ensures forall a :: a in d.blocks[r].ancestors ==>
              && a.round < r.round
              && w.committee.IsMember(a.author)
              && (a.round > d.gcRound ==> a in d.blocks)
    ensures r.round > 0 ==> w.committee.IsMember(r.author)
  {
  }

  lemma FaultToleranceMakesQuorumPositiveIn(w: World)
    requires w.Valid()
    ensures w.committee.quorumThreshold > 0
  {
  }

  ghost predicate VotesFor(w: World, v: BlockRef, leader: BlockRef) {
    v in w.blocks && v.round == leader.round + 1 && leader in w.blocks[v].ancestors
  }

  /** For the ancestors of a decision-round block the search amounts to a direct link. */
  lemma VoteMeansDirectLink(w: World, d: DagState, v: BlockRef, leader: BlockRef)
    requires ViewOf(w, d, leader.round) && v in d.blocks && v.round <= leader.round + 1
    ensures CanSearch(d, leader.Slot(), d.blocks[v])
    ensures IsVote(d, d.blocks[v], leader) <==> VotesFor(w, v, leader)
  {
    ViewCanSearch(w, d, leader.Slot(), v);
    var b := d.blocks[v];
    assert b == w.blocks[v] && b.round == v.round;
    assert DistinctAuthors(b.ancestors);
    DirectLinkIsSupport(d, leader.Slot(), b, 0, leader);
    assert b.ancestors[0..] == b.ancestors;
  }

  // ----- certificates

  ghost predicate CacheIsRight(w: World, leader: BlockRef, allVotes: map<BlockRef, bool>) {
    forall r :: r in allVotes ==> (allVotes[r] <==> VotesFor(w, r, leader))
  }

  ghost function VotersUpto(w: World, ancestors: seq<BlockRef>, n: nat, leader: BlockRef): set<Authority>
    requires n <= |ancestors|
  {
    set i | 0 <= i < n && VotesFor(w, ancestors[i], leader) :: ancestors[i].author
  }

  lemma VotersAreAll(w: World, cert: BlockRef, leader: BlockRef)
    requires cert in w.blocks
    ensures VotersUpto(w, w.blocks[cert].ancestors, |w.blocks[cert].ancestors|, leader) == Voters(w, cert, leader)
  {
    var ancestors := w.blocks[cert].ancestors;
    forall x | x in Voters(w, cert, leader)
      ensures x in VotersUpto(w, ancestors, |ancestors|, leader)
    {
      var v :| v in ancestors && VotesFor(w, v, leader) && v.author == x;
      var i :| 0 <= i < |ancestors| && ancestors[i] == v;
    }
  }

  lemma VotersUptoMonotone(w: World, ancestors: seq<BlockRef>, n: nat, leader: BlockRef)
    requires n <= |ancestors|
    ensures VotersUpto(w, ancestors, n, leader) <= VotersUpto(w, ancestors, |ancestors|, leader)
  {
  }

  /** Decides on the local view whether a block is a certificate for a leader block; the cache
      remembers which blocks vote for that leader. */
  method IsCertificate(ghost w: World, d: DagState, c: Committee, cert: BlockRef, leader: BlockRef,
                       allVotes: map<BlockRef, bool>)
    returns (certifies: bool, allVotes': map<BlockRef, bool>)
    requires ViewOf(w, d, leader.round) && c == w.committee
    requires cert in d.blocks && cert.round == leader.round + 2
    requires CacheIsRight(w, leader, allVotes)
    ensures certifies <==> Certifies(w, cert, leader)
    ensures CacheIsRight(w, leader, allVotes')
  {
    hide World.Valid;
    var aggregator := new StakeAggregator(c);
    var ancestors := d.blocks[cert].ancestors;
    allVotes' := allVotes;
    BlockFacts(w, d, cert);
    StakeEmpty(c);
    VotersAreAll(w, cert, leader);
    for i := 0 to |ancestors|
      invariant aggregator.Valid() && aggregator.committee == c && fresh(aggregator)
      invariant aggregator.votes == VotersUpto(w, ancestors, i, leader)
      invariant !c.IsQuorum(aggregator.votes)
      invariant CacheIsRight(w, leader, allVotes')
    {
      var reference := ancestors[i];
      var isVote;
      if reference in allVotes' {
        isVote := allVotes'[reference];
      } else {
        if reference in d.blocks {
          VoteMeansDirectLink(w, d, reference, leader);
          isVote := IsVote(d, d.blocks[reference], leader);
        } else {
          assert reference.round <= d.gcRound;
          isVote := false;
        }
        allVotes' := allVotes'[reference := isVote];
      }
      assert isVote <==> VotesFor(w, reference, leader);
      if isVote {
        assert VotersUpto(w, ancestors, i + 1, leader) == VotersUpto(w, ancestors, i, leader) + {reference.author};
        var reached := aggregator.Add(reference.author);
        if reached {
          VotersUptoMonotone(w, ancestors, i + 1, leader);
          StakeMonotone(c, VotersUpto(w, ancestors, i + 1, leader), Voters(w, cert, leader));
          return true, allVotes';
        }
      } else {
        assert VotersUpto(w, ancestors, i + 1, leader) == VotersUpto(w, ancestors, i, leader);
      }
    }
    certifies := false;
  }

  // ----- the direct rule

  function BlocksAtRound(d: DagState, round: Round): set<BlockRef> {
    set r | r in d.blocks && r.round == round
  }

  function BlocksAtSlot(d: DagState, slot: Slot): set<BlockRef> {
    set r | r in d.blocks && r.Slot() == slot
  }

  /** Whether a quorum of voting-round blocks has no link to the leader's authority. */
  method EnoughLeaderBlame(ghost w: World, d: DagState, c: Committee, slot: Slot) returns (blamed: bool)
    requires ViewOf(w, d, slot.round) && c == w.committee
    ensures blamed <==> c.IsQuorum(Blamers(d, slot))
  {
    hide World.Valid, World.HasView;
    var aggregator := new StakeAggregator(c);
    var remaining := BlocksAtRound(d, slot.round + 1);
    FaultToleranceMakesQuorumPositiveIn(w);
    StakeEmpty(c);
    while remaining != {}
      invariant aggregator.Valid() && aggregator.committee == c && fresh(aggregator)
      invariant remaining <= BlocksAtRound(d, slot.round + 1)
      invariant aggregator.votes == BlamersAmong(d, slot, BlocksAtRound(d, slot.round + 1) - remaining)
      invariant !c.IsQuorum(aggregator.votes)
      decreases |remaining|
    {
      var r := First(remaining);
      ghost var before := BlocksAtRound(d, slot.round + 1) - remaining;
      remaining := remaining - {r};
      assert BlocksAtRound(d, slot.round + 1) - remaining == before + {r};
      if IsBlame(d.blocks[r], slot.authority) {
        BlockFacts(w, d, r);
        assert BlamersAmong(d, slot, before + {r}) == BlamersAmong(d, slot, before) + {r.author};
        var reached := aggregator.Add(r.author);
        if reached {
          StakeMonotone(c, aggregator.votes, Blamers(d, slot));
          return true;
        }
      } else {
        assert BlamersAmong(d, slot, before + {r}) == BlamersAmong(d, slot, before);
      }
    }
    assert BlamersAmong(d, slot, BlocksAtRound(d, slot.round + 1)) == Blamers(d, slot);
    assert BlocksAtRound(d, slot.round + 1) - {} == BlocksAtRound(d, slot.round + 1);
    blamed := false;
  }

  ghost function BlamersAmong(d: DagState, slot: Slot, refs: set<BlockRef>): set<Authority>
    requires refs <= BlocksAtRound(d, slot.round + 1)
  {
    set r | r in refs && IsBlame(d.blocks[r], slot.authority) :: r.author
  }

  ghost function AuthorsOf(refs: set<BlockRef>): set<Authority> {
    set r | r in refs :: r.author
  }

  /** An upper bound of the stake behind the authors of some blocks, as a plain sum over the
      blocks: equivocating authors are counted several times. */
  method TotalBlockStake(c: Committee, refs: set<BlockRef>) returns (total: nat)
    requires forall r :: r in refs ==> c.IsMember(r.author)
    ensures total >= c.StakeOf(AuthorsOf(refs))
  {
    total := 0;
    var remaining := refs;
    StakeEmpty(c);
    assert AuthorsOf(refs - remaining) == {};
    while remaining != {}
      invariant remaining <= refs
      invariant total >= c.StakeOf(AuthorsOf(refs - remaining))
      decreases |remaining|
    {
      var r := First(remaining);
      ghost var before := refs - remaining;
      remaining := remaining - {r};
      assert refs - remaining == before + {r};
      assert AuthorsOf(before + {r}) == AuthorsOf(before) + {r.author};
      StakeInsert(c, AuthorsOf(before), r.author);
      total := total + c.Stake(r.author);
    }
    assert refs - remaining == refs;
  }

  ghost function CertifiersAmong(w: World, refs: set<BlockRef>, leader: BlockRef): set<Authority> {
    set k | k in refs && Certifies(w, k, leader) :: k.author
  }

  lemma CertifiersAreAmong(w: World, d: DagState, leader: BlockRef)
    ensures CertifiersAmong(w, BlocksAtRound(d, leader.round + 2), leader) == Certifiers(w, d, leader)
  {
  }

  lemma CertifiersAmongMore(w: World, refs: set<BlockRef>, k: BlockRef, leader: BlockRef)
    ensures CertifiersAmong(w, refs + {k}, leader)
         == CertifiersAmong(w, refs, leader) + if Certifies(w, k, leader) then {k.author} else {}
  {
    hide Certifies;
  }

  lemma CertifiersAmongFewer(w: World, refs: set<BlockRef>, all: set<BlockRef>, leader: BlockRef)
    requires refs <= all
    ensures CertifiersAmong(w, refs, leader) <= CertifiersAmong(w, all, leader) <= AuthorsOf(all)
  {
    hide Certifies;
  }

  lemma CertifiersAmongNone(w: World, leader: BlockRef)
    ensures CertifiersAmong(w, {}, leader) == {}
  {
  }

  lemma EmptyCacheIsRight(w: World, leader: BlockRef)
    ensures CacheIsRight(w, leader, map[])
  {
  }

  /** Whether a quorum of decision-round blocks certifies the leader block. The early exit on
      the total stake of the decision round never changes the answer. */
  method EnoughLeaderSupport(ghost w: World, d: DagState, c: Committee, leader: BlockRef) returns (supported: bool)
    requires ViewOf(w, d, leader.round) && c == w.committee
    ensures supported <==> c.IsQuorum(Certifiers(w, d, leader))
  {
    ViewMembers(w, d);
    CertifiersAreAmong(w, d, leader);
    var decisionBlocks := BlocksAtRound(d, leader.round + 2);
    assert forall r :: r in decisionBlocks ==> c.IsMember(r.author) && r in d.blocks && r.round == leader.round + 2;
    hide World.Valid, World.HasView, CertifiersAmong, Certifiers, AuthorsOf, BlocksAtRound;
    var total := TotalBlockStake(c, decisionBlocks);
    if total < c.quorumThreshold {
      CertifiersAmongFewer(w, decisionBlocks, decisionBlocks, leader);
      StakeMonotone(c, CertifiersAmong(w, decisionBlocks, leader), AuthorsOf(decisionBlocks));
      return false;
    }
    supported := CertifiedByQuorum(w, d, c, leader, decisionBlocks);
  }

  /** Adds up the certificates among blocks of the decision round until they reach a quorum. */
  method CertifiedByQuorum(ghost w: World, d: DagState, c: Committee, leader: BlockRef, refs: set<BlockRef>)
    returns (supported: bool)
    requires ViewOf(w, d, leader.round) && c == w.committee && c.quorumThreshold > 0
    requires forall r :: r in refs ==> c.IsMember(r.author) && r in d.blocks && r.round == leader.round + 2
    ensures supported <==> c.IsQuorum(CertifiersAmong(w, refs, leader))
  {
    hide World.Valid, World.HasView, Certifies, BlockRef.Less, CacheIsRight, CertifiersAmong;
    EmptyCacheIsRight(w, leader);
    CertifiersAmongNone(w, leader);
    StakeEmpty(c);
    var aggregator := new StakeAggregator(c);
    var allVotes, remaining := map[], refs;
    ghost var done: set<BlockRef> := {};
    while remaining != {}
      invariant aggregator.Valid() && aggregator.committee == c && fresh(aggregator)
      invariant done + remaining == refs
      invariant CacheIsRight(w, leader, allVotes)
      invariant aggregator.votes == CertifiersAmong(w, done, leader) && !c.IsQuorum(aggregator.votes)
      decreases |remaining|
    {
      var k := First(remaining);
      CertifiersAmongMore(w, done, k, leader);
      remaining, done := remaining - {k}, done + {k};
      var certifies;
      certifies, allVotes := IsCertificate(w, d, c, k, leader, allVotes);
      if certifies {
        var reached := aggregator.Add(k.author);
        if reached {
          CertifiersAmongFewer(w, done, refs, leader);
          StakeMonotone(c, aggregator.votes, CertifiersAmong(w, refs, leader));
          return true;
        }
      }
    }
    supported := false;
  }

  lemma ViewMembers(w: World, d: DagState)
    requires w.Valid() && w.HasView(d)
    ensures w.committee.quorumThreshold > 0
    ensures forall r :: r in d.blocks && r.round > 0 ==> w.committee.IsMember(r.author)
  {
    forall r | r in d.blocks && r.round > 0
      ensures w.committee.IsMember(r.author)
    {
      BlockFacts(w, d, r);
    }
  }

  lemma SizeOfSingleton<T>(s: set<T>)
    requires forall x, y :: x in s && y in s ==> x == y
    ensures |s| <= 1
  {
    if s != {} {
      var x :| x in s;
      assert s == {x};
    }
  }

  /** The direct rule. The panic on more than one supported block is unreachable. */
  method TryDirectDecide(ghost w: World, d: DagState, c: Committee, slot: Slot) returns (status: LeaderStatus)
    requires ViewOf(w, d, slot.round) && c == w.committee
    ensures status == DirectStatus(w, d, slot)
  {
    hide World.Valid, World.HasView, DirectStatus;
    var blamed := EnoughLeaderBlame(w, d, c, slot);
    if blamed {
      DirectStatusIsSkip(w, d, slot);
      return Skip(slot);
    }
    var remaining := BlocksAtSlot(d, slot);
    var supported: set<BlockRef> := {};
    while remaining != {}
      invariant remaining <= BlocksAtSlot(d, slot)
      invariant forall l :: l in supported <==>
                  l in BlocksAtSlot(d, slot) - remaining && DirectlySupported(w, d, slot, l)
      decreases |remaining|
    {
      var l := First(remaining);
      remaining := remaining - {l};
      var enough := EnoughLeaderSupport(w, d, c, l);
      if enough {
        supported := supported + {l};
      }
    }
    forall l, m | l in supported && m in supported
      ensures l == m
    {
      SupportedIsUnique(w, d, d, slot, l, m);
    }
    SizeOfSingleton(supported);
    assert |supported| <= 1;
    if supported == {} {
      DirectStatusIsUndecided(w, d, slot);
      return Undecided(slot);
    }
    var l :| l in supported;
    DirectStatusIs(w, d, slot, l);
    status := Commit(l);
  }

  lemma DirectStatusIsSkip(w: World, d: DagState, slot: Slot)
    requires w.committee.IsQuorum(Blamers(d, slot))
    ensures DirectStatus(w, d, slot) == Skip(slot)
  {
  }

  lemma DirectStatusIsUndecided(w: World, d: DagState, slot: Slot)
    requires !w.committee.IsQuorum(Blamers(d, slot))
    requires forall l :: !DirectlySupported(w, d, slot, l)
    ensures DirectStatus(w, d, slot) == Undecided(slot)
  {
  }

  // ----- the indirect rule

  ghost predicate ProperlyReaches(blocks: map<BlockRef, Block>, from: BlockRef, to: BlockRef) {
    from != to && Reaches(blocks, from, to)
  }

  /** The blocks at an earlier round in the causal history of a block, found by expanding the
      latest reference first. */
  method AncestorsAtRound(ghost w: World, d: DagState, later: BlockRef, round: Round) returns (found: set<BlockRef>)
    requires ViewOf(w, d, round) && later in d.blocks && later.round > round
    ensures found == set r | r in d.blocks && r.round == round && Reaches(w.blocks, later, r)
  {
    hide World.Valid, World.HasView, Reaches;
    var linked := set a | a in d.blocks[later].ancestors;
    ghost var expanded: set<BlockRef> := {};
    StartTraversal(w, d, later, round, linked);
    while exists r :: r in linked && r.round > round
      invariant expanded <= d.blocks.Keys && expanded !! linked
      invariant forall x, y :: x in linked && y in expanded ==> x.Less(y)
      invariant Frontier(w, d, later, round, linked)
      decreases d.blocks.Keys - expanded
    {
      var r := Last(linked);
      ExpandTraversal(w, d, later, round, linked, r);
      BlockFacts(w, d, r);
      ghost var before := expanded;
      linked := linked - {r} + set a | a in d.blocks[r].ancestors;
      expanded := expanded + {r};
      assert r in d.blocks.Keys - before && r !in d.blocks.Keys - expanded;
    }
    found := set r | r in linked && r.round >= round;
    FinishTraversal(w, d, later, round, linked);
  }

  /** The traversal has reached only history, and everything of the round is still behind it. */
  ghost predicate Frontier(w: World, d: DagState, later: BlockRef, round: Round, linked: set<BlockRef>) {
    && (forall x :: x in linked && x.round >= round ==> x in d.blocks && ProperlyReaches(w.blocks, later, x))
    && (forall y :: y in w.blocks && y.round == round && Reaches(w.blocks, later, y) ==> BehindFrontier(w, linked, y))
  }

  ghost predicate BehindFrontier(w: World, linked: set<BlockRef>, y: BlockRef) {
    exists x :: x in linked && Reaches(w.blocks, x, y)
  }

  lemma StartTraversal(w: World, d: DagState, later: BlockRef, round: Round, linked: set<BlockRef>)
    requires ViewOf(w, d, round) && later in d.blocks && later.round > round
    requires linked == set a | a in d.blocks[later].ancestors
    ensures Frontier(w, d, later, round, linked)
  {
    BlockFacts(w, d, later);
    forall x | x in linked && x.round >= round
      ensures x in d.blocks && ProperlyReaches(w.blocks, later, x)
    {
      assert Reaches(w.blocks, x, x);
    }
  }

  lemma ExpandTraversal(w: World, d: DagState, later: BlockRef, round: Round, linked: set<BlockRef>, r: BlockRef)
    requires ViewOf(w, d, round) && later in d.blocks && later.round > round
    requires Frontier(w, d, later, round, linked)
    requires r in linked && r.round > round
    ensures r in d.blocks
    ensures Frontier(w, d, later, round, linked - {r} + set a | a in d.blocks[r].ancestors)
  {
    hide World.Valid, World.HasView;
    BlockFacts(w, d, r);
    var linked' := linked - {r} + set a | a in d.blocks[r].ancestors;
    forall x | x in linked' && x.round >= round
      ensures x in d.blocks && ProperlyReaches(w.blocks, later, x)
    {
      if x !in linked {
        assert Reaches(w.blocks, x, x);
        ReachesTransitive(w.blocks, later, r, x);
        ReachesDescends(w.blocks, later, r);
      }
    }
    forall y | y in w.blocks && y.round == round && Reaches(w.blocks, later, y)
      ensures BehindFrontier(w, linked', y)
    {
      assert BehindFrontier(w, linked, y);
      var x :| x in linked && Reaches(w.blocks, x, y);
      if x == r {
        var a :| a in w.blocks[r].ancestors && a.round < r.round && Reaches(w.blocks, a, y);
        assert a in linked';
      } else {
        assert x in linked';
      }
    }
  }

  lemma FinishTraversal(w: World, d: DagState, later: BlockRef, round: Round, linked: set<BlockRef>)
    requires ViewOf(w, d, round) && later in d.blocks && later.round > round
    requires Frontier(w, d, later, round, linked)
    requires forall x :: x in linked ==> x.round <= round
    ensures (set r | r in linked && r.round >= round)
         == set r | r in d.blocks && r.round == round && Reaches(w.blocks, later, r)
  {
    forall y | y in d.blocks && y.round == round && Reaches(w.blocks, later, y)
      ensures y in linked
    {
      BlockFacts(w, d, y);
      assert BehindFrontier(w, linked, y);
      var x :| x in linked && Reaches(w.blocks, x, y);
      ReachesDescends(w.blocks, x, y);
    }
  }

  /** A block certified below an anchor, and the certificate, are in every view that has the anchor. */
  lemma CertifiedBelowIsInView(w: World, d: DagState, anchor: BlockRef, k: BlockRef, l: BlockRef)
    requires ViewOf(w, d, l.round) && anchor in d.blocks
    requires Reaches(w.blocks, anchor, k) && Certifies(w, k, l)
    ensures k in d.blocks && l in d.blocks
  {
    ViewReaches(w, d, anchor, k);
    CertifiedIsInHistory(w, k, l);
    ViewReaches(w, d, k, l);
  }

  /** Decides an earlier slot from a committed anchor. The panic on more than one certified
      block is unreachable. */
  method DecideLeaderFromAnchor(ghost w: World, d: DagState, c: Committee, anchor: BlockRef, slot: Slot)
    returns (status: LeaderStatus)
    requires ViewOf(w, d, slot.round) && c == w.committee
    requires anchor in d.blocks && anchor.round >= slot.round + WAVE_LENGTH
    ensures status == AnchorStatus(w, anchor, slot)
  {
    hide World.Valid, World.HasView, AnchorStatus, Certifies;
    var potentialCertificates := AncestorsAtRound(w, d, anchor, slot.round + 2);
    var remaining := BlocksAtSlot(d, slot);
    var certified: set<BlockRef> := {};
    while remaining != {}
      invariant remaining <= BlocksAtSlot(d, slot)
      invariant forall l :: l in certified <==> l in BlocksAtSlot(d, slot) - remaining && CertifiedBelow(w, anchor, l)
      decreases |remaining|
    {
      var l := First(remaining);
      remaining := remaining - {l};
      var found := AnyCertificate(w, d, c, anchor, potentialCertificates, l);
      if found {
        certified := certified + {l};
      }
    }
    forall l, m | l in certified && m in certified
      ensures l == m
    {
      CertifiedBelowIsUnique(w, anchor, l, m);
    }
    SizeOfSingleton(certified);
    assert |certified| <= 1;
    if certified == {} {
      AnchorStatusIsSkip(w, d, anchor, slot);
      return Skip(slot);
    }
    var l :| l in certified;
    AnchorStatusIs(w, anchor, l);
    status := Commit(l);
  }

  lemma CertifiedBelowIsUnique(w: World, anchor: BlockRef, l: BlockRef, m: BlockRef)
    requires w.Valid() && l.Slot() == m.Slot()
    requires CertifiedBelow(w, anchor, l) && CertifiedBelow(w, anchor, m)
    ensures l == m
  {
    var k :| Reaches(w.blocks, anchor, k) && Certifies(w, k, l);
    var k' :| Reaches(w.blocks, anchor, k') && Certifies(w, k', m);
    CertifiedIsUnique(w, k, l, k', m);
  }

  lemma AnchorStatusIsSkip(w: World, d: DagState, anchor: BlockRef, slot: Slot)
    requires ViewOf(w, d, slot.round) && anchor in d.blocks
    requires forall l :: l in BlocksAtSlot(d, slot) ==> !CertifiedBelow(w, anchor, l)
    ensures AnchorStatus(w, anchor, slot) == Skip(slot)
  {
    forall l: BlockRef | l.Slot() == slot
      ensures !CertifiedBelow(w, anchor, l)
    {
      if CertifiedBelow(w, anchor, l) {
        var k :| Reaches(w.blocks, anchor, k) && Certifies(w, k, l);
        CertifiedBelowIsInView(w, d, anchor, k, l);
        assert false;
      }
    }
  }

  /** Whether one of the potential certificates below the anchor certifies the block. */
  method AnyCertificate(ghost w: World, d: DagState, c: Committee, anchor: BlockRef,
                        potentialCertificates: set<BlockRef>, l: BlockRef)
    returns (found: bool)
    requires ViewOf(w, d, l.round) && c == w.committee
    requires anchor in d.blocks
    requires potentialCertificates ==
      set r | r in d.blocks && r.round == l.round + 2 && Reaches(w.blocks, anchor, r)
    ensures found <==> CertifiedBelow(w, anchor, l)
  {
    hide World.Valid, World.HasView, Reaches;
    var allVotes := map[];
    var remaining := potentialCertificates;
    while remaining != {}
      invariant remaining <= potentialCertificates
      invariant CacheIsRight(w, l, allVotes)
      invariant forall k :: k in potentialCertificates - remaining ==> !Certifies(w, k, l)
      decreases |remaining|
    {
      var k := First(remaining);
      remaining := remaining - {k};
      var certifies;
      certifies, allVotes := IsCertificate(w, d, c, k, l, allVotes);
      if certifies {
        return true;
      }
    }
    if CertifiedBelow(w, anchor, l) {
      ghost var k :| Reaches(w.blocks, anchor, k) && Certifies(w, k, l);
      CertifiedBelowIsInView(w, d, anchor, k, l);
      assert false;
    }
    found := false;
  }

  /** The decision of the indirect rule, given the statuses of the later leaders in order: the
      first committed leader at least a wave later decides, unless an undecided one comes first. */
  ghost function IndirectStatus(w: World, slot: Slot, later: seq<LeaderStatus>): LeaderStatus {
    if later == [] then Undecided(slot)
    else if later[0].Round() < slot.round + WAVE_LENGTH then IndirectStatus(w, slot, later[1..])
    else
      match later[0]
      case Commit(anchor) => AnchorStatus(w, anchor, slot)
      case Skip(_) => IndirectStatus(w, slot, later[1..])
      case Undecided(_) => Undecided(slot)
  }

  method TryIndirectDecide(ghost w: World, d: DagState, c: Committee, slot: Slot, later: seq<LeaderStatus>)
    returns (status: LeaderStatus)
    requires ViewOf(w, d, slot.round) && c == w.committee
    requires forall s :: s in later && s.Commit? ==> s.block in d.blocks
    ensures status == IndirectStatus(w, slot, later)
  {
    hide World.Valid, World.HasView, AnchorStatus;
    assert later[0..] == later;
    for i := 0 to |later|
      invariant IndirectStatus(w, slot, later) == IndirectStatus(w, slot, later[i..])
    {
      assert later[i..][1..] == later[i + 1..];
      if later[i].Round() >= slot.round + WAVE_LENGTH {
        match later[i] {
          case Commit(anchor) =>
            assert later[i] in later;
            status := DecideLeaderFromAnchor(w, d, c, anchor, slot);
            return;
          case Skip(_) =>
          case Undecided(_) =>
            return Undecided(slot);
        }
      }
    }
    status := Undecided(slot);
  }
}
