/** Why it is safe to finalize a transaction as soon as its block is committed and no reject vote
    has been seen: every other validator finds a quorum of accepts in the commits that follow. */
module OptimisticFinalization {
  import opened Committees
  import opened Blocks
  import opened Dags
  import opened CommitRule
  import opened VoteTraversal
  import opened FinalizerLinks
  import opened FinalizerState
  import opened FinalizerQueue
  import opened Linearizers
  import opened CommitPipeline
  import opened CommittedVotes
  import opened LeaderCertificates
  import opened VoteTrackers

  // ----- the validator that finalizes

  /** No later block of the view rejects the transaction. */
  ghost predicate NoRejectSeen(d: DagState, b: BlockRef, t: nat) {
    forall x, v :: x in d.blocks && x.round > b.round && v in d.blocks[x].transactionVotes && v.blockRef == b ==>
      t !in v.rejects
  }

  lemma {:induction false} NoRejectVote(votes: seq<TransactionVotes>, b: BlockRef, t: nat)
    requires forall v :: v in votes && v.blockRef == b ==> t !in v.rejects
    ensures b in RejectVotes(votes) ==> t !in RejectVotes(votes)[b]
  {
    if votes == [] {
    } else {
      NoRejectVote(votes[..|votes| - 1], b, t);
    }
  }

  /** The votes of all blocks of the view above a round have been counted. */
  ghost predicate IsCounted(d: DagState, seen: set<Block>, gcRound: Round) {
    forall r :: r in d.blocks && r.round > gcRound ==> d.blocks[r] in seen
  }

  /** A transaction without reject stake is not rejected by any block that has been counted. */
  lemma NoRejectStakeMeansNoReject(seen: set<Block>, gcRound: Round, d: DagState, b: BlockRef, t: nat)
    requires Rejecters(seen, b, t) == {} && IsCounted(d, seen, gcRound) && b.round > gcRound
    ensures NoRejectSeen(d, b, t)
  {
    forall x, v | x in d.blocks && x.round > b.round && v in d.blocks[x].transactionVotes && v.blockRef == b
      ensures t !in v.rejects
    {
      var block := d.blocks[x];
      assert RejectsIn(block.transactionVotes, b, t) ==> block.author in Rejecters(seen, b, t);
    }
  }

  /** A view that knows a certificate behind the c-th leader, below a later block, has not seen the transaction
      rejected. */
  ghost predicate IsOptimistic(w: World, gcDepth: nat, leaders: seq<BlockRef>, c: nat, d: DagState, later: BlockRef,
                               k: BlockRef, b: BlockRef, t: nat)
  {
    && c < |leaders| && InSubDag(w, gcDepth, leaders, c, b)
    && w.HasView(d) && d.gcRound < b.round && IsKnown(w, d, later, k, leaders[c])
    && NoRejectSeen(d, b, t)
  }

  // ----- supporters

  /** A block above the committed one, below a later one, that the view has seen. */
  ghost predicate IsSupporter(w: World, d: DagState, later: BlockRef, b: BlockRef, v: BlockRef) {
    && v in w.blocks && IsAbove(w, v, b) && Reaches(w.blocks, later, v)
    && exists root :: root in d.blocks && Reaches(w.blocks, root, v)
  }

  ghost function Supporting(w: World, d: DagState, later: BlockRef, b: BlockRef): set<Authority> {
    set v | v in w.blocks && IsSupporter(w, d, later, b, v) :: v.author
  }

  /** The vote of an author for the leader is above every block in the history of the leader. */
  lemma VoterAbove(w: World, k: BlockRef, l: BlockRef, b: BlockRef, a: Authority) returns (v: BlockRef)
    requires w.Valid() && Reaches(w.blocks, l, b) && k in w.blocks && a in Voters(w, k, l)
    ensures v in w.blocks && v.author == a && Reaches(w.blocks, k, v) && IsAbove(w, v, b)
  {
    hide World.Valid, Reaches;
    v :| v in w.blocks[k].ancestors && v in w.blocks && v.round == l.round + 1 && l in w.blocks[v].ancestors
      && v.author == a;
    AncestorIsReached(w, k, v);
    AncestorIsReached(w, v, l);
    ReachesTransitive(w.blocks, v, l, b);
    ReachesDescends(w.blocks, l, b);
  }

  /** The voters behind a certificate that the view holds, below a later block, support. */
  lemma VotersSupport(w: World, d: DagState, later: BlockRef, k: BlockRef, l: BlockRef, b: BlockRef)
    requires w.Valid() && w.HasView(d) && Reaches(w.blocks, l, b)
    requires Certifies(w, k, l) && k in d.blocks && Reaches(w.blocks, later, k)
    ensures w.committee.IsQuorum(Supporting(w, d, later, b))
  {
    hide World.Valid, Reaches, IsAbove, Voters;
    forall a | a in Voters(w, k, l)
      ensures a in Supporting(w, d, later, b)
    {
      var v := VoterAbove(w, k, l, b, a);
      ReachesTransitive(w.blocks, later, k, v);
      assert IsSupporter(w, d, later, b, v);
    }
    StakeMonotone(w.committee, Voters(w, k, l), Supporting(w, d, later, b));
  }

  /** When the view holds the later block, the decision round below that block supports. */
  lemma DecisionRoundSupports(w: World, d: DagState, later: BlockRef, k: BlockRef, l: BlockRef, b: BlockRef)
    requires w.Valid() && w.HasView(d) && Reaches(w.blocks, l, b) && d.gcRound < b.round
    requires Certifies(w, k, l) && later in d.blocks && later.round >= l.round + WAVE_LENGTH
    ensures w.committee.IsQuorum(Supporting(w, d, later, b))
  {
    ReachesDescends(w.blocks, l, b);
    hide World.Valid, World.HasView, Reaches, IsAbove, Certifies;
    var round := l.round + 2;
    HistoryHasQuorum(w, d, later, round);
    forall a | a in HistoryAuthors(w, later, round)
      ensures a in Supporting(w, d, later, b)
    {
      var x :| x in w.blocks && x.round == round && Reaches(w.blocks, later, x) && x.author == a;
      ViewReaches(w, d, later, x);
      var y := ParentReachesLeader(w, d, k, l, x);
      ReachesTransitive(w.blocks, x, y, l);
      ReachesTransitive(w.blocks, x, l, b);
      IsAboveLower(w, x, b);
      assert IsSupporter(w, d, later, b, x);
    }
    StakeMonotone(w.committee, HistoryAuthors(w, later, round), Supporting(w, d, later, b));
  }

  lemma IsAboveLower(w: World, x: BlockRef, b: BlockRef)
    requires Reaches(w.blocks, x, b) && b.round < x.round
    ensures IsAbove(w, x, b)
  {
  }

  lemma SupportingIsQuorum(w: World, gcDepth: nat, leaders: seq<BlockRef>, c: nat, d: DagState, later: BlockRef,
                           k: BlockRef, b: BlockRef, t: nat)
    requires w.Valid() && IsOptimistic(w, gcDepth, leaders, c, d, later, k, b, t)
    ensures w.committee.IsQuorum(Supporting(w, d, later, b))
  {
    SubDagIsIncluded(w, gcDepth, leaders, c, b);
    hide World.Valid, World.HasView, InSubDag, Reaches, Supporting, NoRejectSeen, Certifies;
    if k in d.blocks && Reaches(w.blocks, later, k) {
      VotersSupport(w, d, later, k, leaders[c], b);
    } else {
      DecisionRoundSupports(w, d, later, k, leaders[c], b);
    }
  }

  /** The lowest block of a supporter's own chain above the committed block: the validator has seen it, and
      it does not reject the transaction. */
  lemma FirstOfSupporter(w: World, d: DagState, later: BlockRef, b: BlockRef, v: BlockRef) returns (f: BlockRef)
    requires w.Valid() && w.HasView(d) && d.gcRound < b.round && IsSupporter(w, d, later, b, v)
    ensures f in w.blocks && f.author == v.author && Reaches(w.blocks, later, f) && IsFirstAbove(w, f, b)
    ensures f in d.blocks && d.blocks[f] == w.blocks[f] && f.round > b.round
  {
    f := FirstAbove(w, v, b);
    hide World.Valid, World.HasView, Reaches;
    ReachesTransitive(w.blocks, later, v, f);
    var root :| root in d.blocks && Reaches(w.blocks, root, v);
    ReachesTransitive(w.blocks, root, v, f);
    FirstIsSeen(w, d, root, b, f);
  }

  lemma FirstIsSeen(w: World, d: DagState, k: BlockRef, b: BlockRef, f: BlockRef)
    requires w.Valid() && w.HasView(d) && k in d.blocks && Reaches(w.blocks, k, f) && IsAbove(w, f, b)
    requires d.gcRound < b.round
    ensures f in d.blocks && d.blocks[f] == w.blocks[f] && f.round > b.round
  {
    ReachesDescends(w.blocks, f, b);
    ViewReaches(w, d, k, f);
  }

  // ----- the quorum of accepts

  /** Each supporter below the m-th leader gives an accept in the buffer of any validator that reaches so far. */
  lemma SupporterAccepts(w: World, gcDepth: nat, leaders: seq<BlockRef>, commits: seq<CommittedSubDag>, c: nat, m: nat,
                         queue: Queue, blocks: BlockMap, d: DagState, b: BlockRef, t: nat, v: BlockRef)
    requires m < |leaders| && w.Valid() && IsBuffer(w, gcDepth, leaders, commits, c, m, queue, blocks)
    requires IsVotedOn(w, gcDepth, leaders, c, m, b) && Query(w.committee, blocks, GcRounds(queue, gcDepth), b).Valid()
    requires w.HasView(d) && d.gcRound < b.round && NoRejectSeen(d, b, t) && IsSupporter(w, d, leaders[m], b, v)
    ensures v.author in Query(w.committee, blocks, GcRounds(queue, gcDepth), b).Acceptors(t)
  {
    hide World.Valid, World.HasView, IsBuffer, IsVotedOn, Reaches, Query.Valid, Descends, Query.Votes, Query.Acceptors,
         GcRounds, RejectVotes, IsSupporter;
    var f := FirstOfSupporter(w, d, leaders[m], b, v);
    NoRejectVote(w.blocks[f].transactionVotes, b, t);
    FirstAboveAccepts(w, gcDepth, leaders, commits, c, m, queue, blocks, b, t, f);
  }

  /** The first block of a chain above the pending one gives an accept unless it rejects. */
  lemma FirstAboveAccepts(w: World, gcDepth: nat, leaders: seq<BlockRef>, commits: seq<CommittedSubDag>, c: nat, m: nat,
                          queue: Queue, blocks: BlockMap, b: BlockRef, t: nat, f: BlockRef)
    requires w.Valid() && IsBuffer(w, gcDepth, leaders, commits, c, m, queue, blocks)
    requires IsVotedOn(w, gcDepth, leaders, c, m, b)
    requires Query(w.committee, blocks, GcRounds(queue, gcDepth), b).Valid()
    requires IsFirstAbove(w, f, b) && Reaches(w.blocks, leaders[m], f)
    requires var votes := RejectVotes(w.blocks[f].transactionVotes); b in votes ==> t !in votes[b]
    ensures f.author in Query(w.committee, blocks, GcRounds(queue, gcDepth), b).Acceptors(t)
  {
    hide World.Valid, IsBuffer, IsVotedOn, Reaches, Query.Valid, Descends, Query.Votes, Query.Acceptors, GcRounds,
         RejectVotes;
    FirstAboveVotes(w, gcDepth, leaders, commits, c, m, queue, blocks, b, f);
    VotesAsRecorded(w, gcDepth, leaders, commits, c, m, queue, blocks, f);
    AcceptedBy(Query(w.committee, blocks, GcRounds(queue, gcDepth), b), f, t);
  }

  /** A transaction that one validator finalizes optimistically has a quorum of accepts at every validator whose
      buffer reaches the later leader. */
  lemma OptimisticFinalizationIsSafe(w: World, gcDepth: nat, leaders: seq<BlockRef>, commits: seq<CommittedSubDag>,
                                     c: nat, m: nat, d: DagState, k: BlockRef, b: BlockRef, t: nat, queue: Queue,
                                     blocks: BlockMap)
    requires m < |leaders| && w.Valid() && IsVotedOn(w, gcDepth, leaders, c, m, b)
    requires IsOptimistic(w, gcDepth, leaders, c, d, leaders[m], k, b, t)
    requires IsBuffer(w, gcDepth, leaders, commits, c, m, queue, blocks)
    requires Query(w.committee, blocks, GcRounds(queue, gcDepth), b).Valid()
    ensures Query(w.committee, blocks, GcRounds(queue, gcDepth), b).IsAccepted(t)
  {
    SupportingIsQuorum(w, gcDepth, leaders, c, d, leaders[m], k, b, t);
    hide World.Valid, World.HasView, IsBuffer, IsVotedOn, InSubDag, Reaches, Query.Valid, Query.Acceptors, NoRejectSeen,
         IsSupporter, IsKnown, GcRounds;
    var q := Query(w.committee, blocks, GcRounds(queue, gcDepth), b);
    forall a | a in Supporting(w, d, leaders[m], b)
      ensures a in q.Acceptors(t)
    {
      var v :| v in w.blocks && IsSupporter(w, d, leaders[m], b, v) && v.author == a;
      SupporterAccepts(w, gcDepth, leaders, commits, c, m, queue, blocks, d, b, t, v);
    }
    StakeMonotone(w.committee, Supporting(w, d, leaders[m], b), q.Acceptors(t));
  }

  /** A quorum of accepts in one validator's buffer is a quorum of accepts in every other one that reaches as far. */
  lemma AcceptanceCarriesOver(w: World, gcDepth: nat, leaders: seq<BlockRef>, c: nat, b: BlockRef, t: nat,
                              commits: seq<CommittedSubDag>, queue: Queue, blocks: BlockMap,
                              commits': seq<CommittedSubDag>, queue': Queue, blocks': BlockMap)
    requires w.Valid() && c < |leaders| && InSubDag(w, gcDepth, leaders, c, b)
    requires IsBuffer(w, gcDepth, leaders, commits, c, c, queue, blocks)
    requires IsBuffer(w, gcDepth, leaders, commits', c, c, queue', blocks') && |queue| <= |queue'|
    requires Query(w.committee, blocks, GcRounds(queue, gcDepth), b).Valid()
    requires Query(w.committee, blocks', GcRounds(queue', gcDepth), b).Valid()
    requires Query(w.committee, blocks, GcRounds(queue, gcDepth), b).IsAccepted(t)
    ensures Query(w.committee, blocks', GcRounds(queue', gcDepth), b).IsAccepted(t)
  {
    hide World.Valid, IsBuffer, InSubDag, Reaches, Query.Valid, GcRounds, Query.Votes, Query.Rejects;
    var q := Query(w.committee, blocks, GcRounds(queue, gcDepth), b);
    var q' := Query(w.committee, blocks', GcRounds(queue', gcDepth), b);
    forall a | a in q.Acceptors(t)
      ensures a in q'.Acceptors(t)
    {
      var f :| f in blocks && q.Votes(f) && t !in q.Rejects(f) && f.author == a;
      AcceptCarriesOver(w, gcDepth, leaders, c, b, t, commits, queue, blocks, commits', queue', blocks', f);
    }
    StakeMonotone(w.committee, q.Acceptors(t), q'.Acceptors(t));
  }

  lemma AcceptCarriesOver(w: World, gcDepth: nat, leaders: seq<BlockRef>, c: nat, b: BlockRef, t: nat,
                          commits: seq<CommittedSubDag>, queue: Queue, blocks: BlockMap,
                          commits': seq<CommittedSubDag>, queue': Queue, blocks': BlockMap, f: BlockRef)
    requires w.Valid() && c < |leaders| && InSubDag(w, gcDepth, leaders, c, b)
    requires IsBuffer(w, gcDepth, leaders, commits, c, c, queue, blocks)
    requires IsBuffer(w, gcDepth, leaders, commits', c, c, queue', blocks') && |queue| <= |queue'|
    requires Query(w.committee, blocks, GcRounds(queue, gcDepth), b).Valid()
    requires Query(w.committee, blocks', GcRounds(queue', gcDepth), b).Valid()
    requires f in blocks && Query(w.committee, blocks, GcRounds(queue, gcDepth), b).Votes(f)
    requires t !in Query(w.committee, blocks, GcRounds(queue, gcDepth), b).Rejects(f)
    ensures f.author in Query(w.committee, blocks', GcRounds(queue', gcDepth), b).Acceptors(t)
  {
    hide World.Valid, Mapped, Linked, AreCommits, IsWindow, InSubDag, Reaches, Query.Valid, GcRounds, Query.Votes,
         Query.Acceptors, IsVotedOn, RejectVotes;
    var j := VoterIsFirstAbove(w, gcDepth, leaders, commits, c, c, queue, blocks, b, f);
    VotesAsRecorded(w, gcDepth, leaders, commits, c, c, queue, blocks, f);
    FirstAboveAccepts(w, gcDepth, leaders, commits', c, j, queue', blocks', b, t, f);
  }

  // ----- no quorum of rejects

  /** No two of the votes are on the same block. */
  ghost predicate AreDistinctVotes(votes: seq<TransactionVotes>) {
    forall i, j :: 0 <= i < j < |votes| ==> votes[i].blockRef != votes[j].blockRef
  }

  /** Honest authors build one chain of own blocks, and vote on a block once, when they first include it. */
  ghost predicate HonestVoting(w: World) {
    && (forall x, y ::
          x in w.blocks && y in w.blocks && x.author == y.author && y.author !in w.byzantine && x.round < y.round ==>
            w.blocks[y].ancestors != [] && Reaches(w.blocks, w.blocks[y].ancestors[0], x))
    && (forall x, b, t :: x in w.blocks && x.author !in w.byzantine && RejectsIn(w.blocks[x].transactionVotes, b, t)
          ==> IsFirstAbove(w, x, b))
    && (forall x :: x in w.blocks && x.author !in w.byzantine ==> AreDistinctVotes(w.blocks[x].transactionVotes))
  }

  lemma FirstAboveIsUnique(w: World, f: BlockRef, x: BlockRef, b: BlockRef)
    requires w.Valid() && HonestVoting(w) && IsFirstAbove(w, f, b) && IsFirstAbove(w, x, b)
    requires f.author == x.author && f.author !in w.byzantine
    ensures f == x
  {
    if f.round == x.round {
      HonestBlockIsUnique(w, f, x);
    } else if f.round < x.round {
      LaterIsNotFirst(w, f, x, b);
    } else {
      LaterIsNotFirst(w, x, f, b);
    }
  }

  lemma LaterIsNotFirst(w: World, x: BlockRef, y: BlockRef, b: BlockRef)
    requires IsAbove(w, x, b) && y in w.blocks && w.blocks[y].ancestors != []
    requires Reaches(w.blocks, w.blocks[y].ancestors[0], x)
    ensures IsAbove(w, w.blocks[y].ancestors[0], b)
  {
    var p := w.blocks[y].ancestors[0];
    ReachesTransitive(w.blocks, p, x, b);
    ReachesDescends(w.blocks, p, x);
    ReachesDescends(w.blocks, x, b);
  }

  /** No honest supporter ever rejects the transaction. */
  lemma HonestSupporterNeverRejects(w: World, d: DagState, later: BlockRef, b: BlockRef, t: nat, v: BlockRef)
    requires w.Valid() && HonestVoting(w) && w.HasView(d) && d.gcRound < b.round && NoRejectSeen(d, b, t)
    requires IsSupporter(w, d, later, b, v) && v.author !in w.byzantine
    ensures v.author !in Rejecters(w.blocks.Values, b, t)
  {
    if v.author in Rejecters(w.blocks.Values, b, t) {
      var x := RejectingBlock(w, b, t, v.author);
      var f := FirstOfSupporter(w, d, later, b, v);
      hide World.Valid, World.HasView, Reaches, IsSupporter;
      FirstAboveIsUnique(w, f, x, b);
      assert false;
    }
  }

  lemma RejectingBlock(w: World, b: BlockRef, t: nat, h: Authority) returns (x: BlockRef)
    requires w.Valid() && h in Rejecters(w.blocks.Values, b, t)
    ensures x in w.blocks && x.author == h && RejectsIn(w.blocks[x].transactionVotes, b, t)
  {
    var block :| block in w.blocks.Values && RejectsIn(block.transactionVotes, b, t) && block.author == h;
    x :| x in w.blocks && w.blocks[x] == block;
  }

  /** The transaction never collects a quorum of rejects, in whatever blocks. */
  lemma NeverRejectedByQuorum(w: World, gcDepth: nat, leaders: seq<BlockRef>, c: nat, d: DagState, later: BlockRef,
                              k: BlockRef, b: BlockRef, t: nat)
    requires w.Valid() && HonestVoting(w) && IsOptimistic(w, gcDepth, leaders, c, d, later, k, b, t)
    ensures !w.committee.IsQuorum(Rejecters(w.blocks.Values, b, t))
  {
    SupportingIsQuorum(w, gcDepth, leaders, c, d, later, k, b, t);
    hide World.HasView, InSubDag, Reaches, Rejecters, HonestVoting, NoRejectSeen, IsSupporter, IsKnown;
    if w.committee.IsQuorum(Rejecters(w.blocks.Values, b, t)) {
      var h := QuorumsShareHonest(w.committee, w.byzantine, Rejecters(w.blocks.Values, b, t),
                                  Supporting(w, d, later, b));
      var v :| v in w.blocks && IsSupporter(w, d, later, b, v) && v.author == h;
      HonestSupporterNeverRejects(w, d, later, b, t, v);
    }
  }

  lemma {:induction false} RejectVoteIsKept(votes: seq<TransactionVotes>, b: BlockRef, t: nat)
    requires AreDistinctVotes(votes) && RejectsIn(votes, b, t)
    ensures b in RejectVotes(votes) && t in RejectVotes(votes)[b]
  {
    var n := |votes| - 1;
    var v :| v in votes && v.blockRef == b && t in v.rejects;
    if votes[n] != v {
      assert v in votes[..n];
      RejectVoteIsKept(votes[..n], b, t);
    }
  }

  /** A transaction with a quorum of accepts in some buffer never collects a quorum of rejects either. */
  lemma AcceptedIsNotRejectedByQuorum(w: World, gcDepth: nat, leaders: seq<BlockRef>, commits: seq<CommittedSubDag>,
                                      c: nat, queue: Queue, blocks: BlockMap, b: BlockRef, t: nat)
    requires w.Valid() && HonestVoting(w) && c < |leaders| && InSubDag(w, gcDepth, leaders, c, b)
    requires IsBuffer(w, gcDepth, leaders, commits, c, c, queue, blocks)
    requires Query(w.committee, blocks, GcRounds(queue, gcDepth), b).Valid()
    requires Query(w.committee, blocks, GcRounds(queue, gcDepth), b).IsAccepted(t)
    ensures !w.committee.IsQuorum(Rejecters(w.blocks.Values, b, t))
  {
    hide InSubDag, Reaches, Rejecters, HonestVoting, IsBuffer, Query.Valid, GcRounds, Query.Votes, Query.Rejects;
    var q := Query(w.committee, blocks, GcRounds(queue, gcDepth), b);
    if w.committee.IsQuorum(Rejecters(w.blocks.Values, b, t)) {
      var h := QuorumsShareHonest(w.committee, w.byzantine, Rejecters(w.blocks.Values, b, t), q.Acceptors(t));
      var f :| f in blocks && q.Votes(f) && t !in q.Rejects(f) && f.author == h;
      HonestAcceptorNeverRejects(w, gcDepth, leaders, commits, c, queue, blocks, b, t, f);
    }
  }

  lemma HonestAcceptorNeverRejects(w: World, gcDepth: nat, leaders: seq<BlockRef>, commits: seq<CommittedSubDag>,
                                   c: nat, queue: Queue, blocks: BlockMap, b: BlockRef, t: nat, f: BlockRef)
    requires w.Valid() && HonestVoting(w) && c < |leaders| && InSubDag(w, gcDepth, leaders, c, b)
    requires IsBuffer(w, gcDepth, leaders, commits, c, c, queue, blocks)
    requires Query(w.committee, blocks, GcRounds(queue, gcDepth), b).Valid()
    requires f in blocks && Query(w.committee, blocks, GcRounds(queue, gcDepth), b).Votes(f)
    requires t !in Query(w.committee, blocks, GcRounds(queue, gcDepth), b).Rejects(f) && f.author !in w.byzantine
    ensures f.author !in Rejecters(w.blocks.Values, b, t)
  {
    hide World.Valid, InSubDag, Reaches, IsBuffer, Query.Valid, GcRounds, Query.Votes, IsVotedOn, RejectVotes,
         Rejecters, RejectsIn;
    var j := VoterIsFirstAbove(w, gcDepth, leaders, commits, c, c, queue, blocks, b, f);
    VotesAsRecorded(w, gcDepth, leaders, commits, c, c, queue, blocks, f);
    if f.author in Rejecters(w.blocks.Values, b, t) {
      var x := RejectingBlock(w, b, t, f.author);
      FirstAboveIsUnique(w, f, x, b);
      RejectVoteIsKept(w.blocks[f].transactionVotes, b, t);
    }
  }
}
