/** Indirect finalization: collecting the implicit accept votes on the transactions of a
    committed block from the blocks committed after it. */
module VoteTraversal {
  import opened Committees
  import opened Blocks

  /** What the finalizer keeps about a block of a pending commit. */
  datatype BlockState = BlockState(
    block: Block,
    children: set<BlockRef>,
    rejectVotes: map<BlockRef, set<nat>>,
    originDescendants: seq<BlockRef>,
    commitIndex: nat)

  type BlockMap = map<BlockRef, BlockState>

  /** Distinct voters and their total stake. */
  datatype Tally = Tally(votes: set<Authority>, stake: nat) {

    ghost predicate Valid(c: Committee) {
      stake == c.StakeOf(votes)
    }

    function Add(c: Committee, a: Authority): Tally
      requires c.IsMember(a)
    {
      if a in votes then this else Tally(votes + {a}, stake + c.Stake(a))
    }
  }

  lemma TallyAdd(t: Tally, c: Committee, a: Authority)
    requires t.Valid(c) && c.IsMember(a)
    ensures t.Add(c, a).Valid(c) && t.Add(c, a).votes == t.votes + {a}
  {
    StakeInsert(c, t.votes, a);
    if a in t.votes {
      assert t.votes + {a} == t.votes;
    }
  }

  // ----- meaning

  /** `x` is a descendant of `pending` through recorded links. */
  ghost predicate Descends(blocks: BlockMap, pending: BlockRef, x: BlockRef)
    decreases x.round
  {
    exists y :: y in blocks && y.round < x.round && x in blocks[y].children
      && (y == pending || Descends(blocks, pending, y))
  }

  /** The garbage collection round after each pending commit, with its index. */
  ghost predicate GcRoundsFrom(gcRounds: seq<(nat, Round)>, first: nat) {
    && (forall k :: 0 <= k < |gcRounds| ==> gcRounds[k].0 == first + k)
    && (forall k, l :: 0 <= k <= l < |gcRounds| ==> gcRounds[k].1 <= gcRounds[l].1)
  }

  /** Whether votes of a block in commit `current` on a block of the given round in commit
      `pending` may have been dropped by garbage collection at the voter. The lookup is in range. */
  function GcedTransactionVotes(gcRounds: seq<(nat, Round)>, pendingRound: Round, pending: nat, current: nat): bool
    requires GcRoundsFrom(gcRounds, pending)
    requires pending <= current <= pending + |gcRounds|
  {
    if pending == current then false
    else
      var (commitIndex, gcRound) := gcRounds[current - 1 - pending];
      assert commitIndex == current - 1;
      pendingRound <= gcRound
  }

  /** The map as the finalizer keeps it: links lead to later rounds and never to earlier commits,
      and origin descendants are transitive. */
  ghost predicate WellLinked(c: Committee, blocks: BlockMap) {
    && (forall x :: x in blocks ==> c.IsMember(x.author))
    && (forall x, y :: x in blocks && y in blocks[x].children ==> IsLater(blocks, x, y))
    && (forall x, y :: x in blocks && y in blocks[x].originDescendants ==> IsLater(blocks, x, y))
    && (forall x, y, z ::
          x in blocks && y in blocks[x].originDescendants && y in blocks && z in blocks[y].originDescendants ==>
            z in blocks[x].originDescendants)
  }

  ghost predicate IsLater(blocks: BlockMap, x: BlockRef, y: BlockRef)
    requires x in blocks
  {
    y in blocks && x.round < y.round && blocks[x].commitIndex <= blocks[y].commitIndex
  }

  /** Everything one traversal reads. */
  datatype Query = Query(committee: Committee, blocks: BlockMap, gcRounds: seq<(nat, Round)>, pending: BlockRef) {

    ghost predicate Valid() {
      && WellLinked(committee, blocks)
      && pending in blocks
      && GcRoundsFrom(gcRounds, Index(pending))
      && (forall x :: x in blocks ==> blocks[x].commitIndex <= Index(pending) + |gcRounds|)
      && committee.quorumThreshold > 0
    }

    ghost function Index(x: BlockRef): nat
      requires x in blocks
    {
      blocks[x].commitIndex
    }

    ghost predicate IsDescendant(x: BlockRef) {
      Descends(blocks, pending, x)
    }

    ghost predicate IsGced(x: BlockRef)
      requires Valid() && x in blocks && Index(pending) <= Index(x)
    {
      GcedTransactionVotes(gcRounds, pending.round, Index(pending), Index(x))
    }

    /** A descendant whose votes on the pending block are surely part of it. */
    ghost predicate IsFresh(x: BlockRef)
      requires Valid()
    {
      x in blocks && IsDescendant(x) && Index(pending) <= Index(x) && !IsGced(x)
    }

    /** No earlier block of the same origin descends from the pending block. */
    ghost predicate IsFirstOfOrigin(x: BlockRef) {
      forall y :: y in blocks && IsDescendant(y) ==> x !in blocks[y].originDescendants
    }

    ghost predicate Votes(x: BlockRef)
      requires Valid()
    {
      IsFresh(x) && IsFirstOfOrigin(x)
    }

    function Rejects(x: BlockRef): set<nat>
      requires x in blocks
    {
      if pending in blocks[x].rejectVotes then blocks[x].rejectVotes[pending] else {}
    }

    /** Authors that accept the transaction by voting and not rejecting it. */
    ghost function Acceptors(t: nat): set<Authority>
      requires Valid()
    {
      set x | x in blocks && Votes(x) && t !in Rejects(x) :: x.author
    }

    ghost predicate IsAccepted(t: nat)
      requires Valid()
    {
      committee.IsQuorum(Acceptors(t))
    }
  }

  // ----- structure of the descendants

  lemma {:induction false} DescendantsAreLater(q: Query, x: BlockRef)
    requires q.Valid() && q.IsDescendant(x)
    ensures x in q.blocks && q.pending.round < x.round && q.Index(q.pending) <= q.Index(x)
    decreases x.round
  {
    var y :| y in q.blocks && y.round < x.round && x in q.blocks[y].children && (y == q.pending || q.IsDescendant(y));
    assert IsLater(q.blocks, y, x);
    if y != q.pending {
      DescendantsAreLater(q, y);
    }
  }

  /** Votes that are lost to garbage collection stay lost in later commits. */
  lemma GcedStaysGced(q: Query, x: BlockRef, y: BlockRef)
    requires q.Valid() && x in q.blocks && y in q.blocks
    requires q.Index(q.pending) <= q.Index(x) <= q.Index(y)
    requires q.IsGced(x)
    ensures q.IsGced(y)
  {
  }

  lemma ChildIsDescendant(q: Query, x: BlockRef, y: BlockRef)
    requires q.Valid() && x in q.blocks && y in q.blocks[x].children
    requires x == q.pending || q.IsDescendant(x)
    ensures q.IsDescendant(y)
  {
    assert IsLater(q.blocks, x, y);
  }

  // ----- invariants of the traversal

  /** Visited blocks and blocks to visit: descendants only, visited strictly before unvisited in
      the order of references, and nothing fresh is left behind. */
  ghost predicate Frontier(q: Query, visited: set<BlockRef>, toVisit: set<BlockRef>)
    requires q.Valid()
  {
    && (forall x :: x in visited ==> q.IsDescendant(x))
    && (forall x :: x in toVisit ==> q.IsDescendant(x))
    && (forall v, t :: v in visited && t in toVisit ==> v.Less(t))
    && (forall y :: y in q.blocks[q.pending].children ==> y in visited || y in toVisit)
    && (forall v, y :: v in visited && q.IsFresh(v) && y in q.blocks[v].children ==> y in visited || y in toVisit)
  }

  lemma FrontierStart(q: Query)
    requires q.Valid()
    ensures Frontier(q, {}, q.blocks[q.pending].children)
  {
    forall x | x in q.blocks[q.pending].children
      ensures q.IsDescendant(x)
    {
      ChildIsDescendant(q, q.pending, x);
    }
  }

  /** A fresh descendant that was not visited is not before everything still to visit. */
  lemma {:induction false} UnvisitedIsAhead(q: Query, visited: set<BlockRef>, toVisit: set<BlockRef>, x: BlockRef)
    returns (t: BlockRef)
    requires q.Valid() && Frontier(q, visited, toVisit)
    requires q.IsFresh(x) && x !in visited
    ensures t in toVisit && (t == x || t.round < x.round)
    decreases x.round
  {
    hide Frontier, WellLinked;
    var y :| y in q.blocks && y.round < x.round && x in q.blocks[y].children && (y == q.pending || q.IsDescendant(y));
    if y == q.pending {
      FrontierHasChildren(q, visited, toVisit, x);
      t := x;
    } else {
      PredecessorIsFresh(q, y, x);
      if y in visited {
        FrontierHasChildrenOf(q, visited, toVisit, y, x);
        t := x;
      } else {
        t := UnvisitedIsAhead(q, visited, toVisit, y);
      }
    }
  }

  lemma FrontierHasChildren(q: Query, visited: set<BlockRef>, toVisit: set<BlockRef>, x: BlockRef)
    requires q.Valid() && Frontier(q, visited, toVisit) && x in q.blocks[q.pending].children
    ensures x in visited || x in toVisit
  {
  }

  lemma FrontierHasChildrenOf(q: Query, visited: set<BlockRef>, toVisit: set<BlockRef>, v: BlockRef, x: BlockRef)
    requires q.Valid() && Frontier(q, visited, toVisit) && v in visited && q.IsFresh(v) && x in q.blocks[v].children
    ensures x in visited || x in toVisit
  {
  }

  lemma PredecessorIsFresh(q: Query, y: BlockRef, x: BlockRef)
    requires q.Valid() && q.IsFresh(x) && q.IsDescendant(y) && y in q.blocks
    requires q.Index(y) <= q.Index(x) || x in q.blocks[y].children
    ensures q.IsFresh(y)
  {
    DescendantsAreLater(q, y);
    if x in q.blocks[y].children {
      assert IsLater(q.blocks, y, x);
    }
    if q.IsGced(y) {
      GcedStaysGced(q, y, x);
    }
  }

  /** When the least reference is taken, every fresh descendant before it has been visited. */
  lemma EarlierIsVisited(q: Query, visited: set<BlockRef>, toVisit: set<BlockRef>, current: BlockRef, x: BlockRef)
    requires q.Valid() && Frontier(q, visited, toVisit)
    requires current in toVisit && forall t :: t in toVisit && t != current ==> current.Less(t)
    requires q.IsFresh(x) && x.round < current.round
    ensures x in visited
  {
    hide Frontier, WellLinked;
    if x !in visited {
      var t := UnvisitedIsAhead(q, visited, toVisit, x);
      assert false;
    }
  }

  /** Visiting without expanding loses nothing when the votes of the block are lost anyway. */
  lemma VisitGced(q: Query, visited: set<BlockRef>, toVisit: set<BlockRef>, current: BlockRef)
    requires q.Valid() && Frontier(q, visited, toVisit)
    requires current in toVisit && forall t :: t in toVisit && t != current ==> current.Less(t)
    requires !q.IsFresh(current)
    ensures Frontier(q, visited + {current}, toVisit - {current})
  {
    hide WellLinked, Descends;
  }

  lemma VisitAndExpand(q: Query, visited: set<BlockRef>, toVisit: set<BlockRef>, current: BlockRef)
    requires q.Valid() && Frontier(q, visited, toVisit)
    requires current in toVisit && forall t :: t in toVisit && t != current ==> current.Less(t)
    requires current in q.blocks
    ensures var visited' := visited + {current};
            Frontier(q, visited', toVisit - {current} + (q.blocks[current].children - visited'))
  {
    hide Descends;
    var visited' := visited + {current};
    forall y | y in q.blocks[current].children
      ensures q.IsDescendant(y) && y.round > current.round
    {
      ChildIsDescendant(q, current, y);
      assert IsLater(q.blocks, current, y);
    }
    assert forall v :: v in visited ==> v.Less(current);
  }

  // ----- ignored blocks

  ghost predicate HasVisitedOrigin(q: Query, visited: set<BlockRef>, x: BlockRef) {
    exists y :: y in visited && y in q.blocks && x in q.blocks[y].originDescendants
  }

  ghost predicate IgnoredIs(q: Query, visited: set<BlockRef>, ignored: set<BlockRef>) {
    forall x :: x in ignored <==> x in visited || HasVisitedOrigin(q, visited, x)
  }

  /** Origin descendants of an ignored block are ignored already. */
  lemma IgnoreStep(q: Query, visited: set<BlockRef>, ignored: set<BlockRef>, current: BlockRef, ignored': set<BlockRef>)
    requires q.Valid() && IgnoredIs(q, visited, ignored) && current in q.blocks && current !in visited
    requires ignored' == if current in ignored then ignored
                         else ignored + {current} + (set x | x in q.blocks[current].originDescendants)
    ensures IgnoredIs(q, visited + {current}, ignored')
  {
    hide Descends;
    forall x
      ensures x in ignored' <==> x in visited + {current} || HasVisitedOrigin(q, visited + {current}, x)
    {
      assert HasVisitedOrigin(q, visited + {current}, x)
        <==> HasVisitedOrigin(q, visited, x) || x in q.blocks[current].originDescendants;
      if current in ignored && x in q.blocks[current].originDescendants {
        assert HasVisitedOrigin(q, visited, current);
        var y :| y in visited && y in q.blocks && current in q.blocks[y].originDescendants;
        assert x in q.blocks[y].originDescendants;
        assert HasVisitedOrigin(q, visited, x);
      }
    }
  }

  /** A fresh block is ignored exactly when it is not the first of its origin. */
  lemma IgnoredMeansNotFirst(q: Query, visited: set<BlockRef>, toVisit: set<BlockRef>, current: BlockRef)
    requires q.Valid() && Frontier(q, visited, toVisit)
    requires current in toVisit && forall t :: t in toVisit && t != current ==> current.Less(t)
    requires q.IsFresh(current)
    ensures HasVisitedOrigin(q, visited, current) <==> !q.IsFirstOfOrigin(current)
  {
    hide Frontier, Descends;
    if HasVisitedOrigin(q, visited, current) {
      var y :| y in visited && y in q.blocks && current in q.blocks[y].originDescendants;
      VisitedDescend(q, visited, toVisit, y);
    }
    if !q.IsFirstOfOrigin(current) {
      var y :| y in q.blocks && q.IsDescendant(y) && current in q.blocks[y].originDescendants;
      assert IsLater(q.blocks, y, current);
      PredecessorIsFresh(q, y, current);
      EarlierIsVisited(q, visited, toVisit, current, y);
    }
  }

  lemma VisitedDescend(q: Query, visited: set<BlockRef>, toVisit: set<BlockRef>, x: BlockRef)
    requires q.Valid() && Frontier(q, visited, toVisit) && (x in visited || x in toVisit)
    ensures q.IsDescendant(x)
    ensures x in toVisit ==> x !in visited
  {
  }

  // ----- tallies

  ghost function AcceptorsAmong(q: Query, visited: set<BlockRef>, t: nat): set<Authority>
    requires q.Valid()
  {
    set x | x in visited && x in q.blocks && q.Votes(x) && t !in q.Rejects(x) :: x.author
  }

  /** An open transaction has the accept votes of the visited blocks, short of a quorum. */
  ghost predicate IsOpen(q: Query, visited: set<BlockRef>, t: nat, tally: Tally)
    requires q.Valid()
  {
    && tally.Valid(q.committee)
    && tally.votes == AcceptorsAmong(q, visited, t)
    && !q.committee.IsQuorum(tally.votes)
  }

  /** Requested transactions are open, or finalized because they have reached a quorum. */
  ghost predicate TalliesAre(q: Query, visited: set<BlockRef>, requested: set<nat>, open: map<nat, Tally>,
                             finalized: set<nat>)
    requires q.Valid()
  {
    && (forall t :: t in requested <==> t in open || t in finalized)
    && (forall t :: t in open ==> t !in finalized && IsOpen(q, visited, t, open[t]))
    && (forall t :: t in finalized ==> q.IsAccepted(t))
  }

  lemma AcceptorsGrow(q: Query, visited: set<BlockRef>, current: BlockRef, t: nat)
    requires q.Valid() && current in q.blocks
    ensures AcceptorsAmong(q, visited + {current}, t)
         == if q.Votes(current) && t !in q.Rejects(current) then AcceptorsAmong(q, visited, t) + {current.author}
            else AcceptorsAmong(q, visited, t)
  {
    hide Query.Valid, Query.Votes;
  }

  lemma AcceptorsAreAmongAll(q: Query, visited: set<BlockRef>, t: nat)
    requires q.Valid() && q.committee.IsQuorum(AcceptorsAmong(q, visited, t))
    ensures q.IsAccepted(t)
  {
    hide Query.Valid, Query.Votes;
    StakeMonotone(q.committee, AcceptorsAmong(q, visited, t), q.Acceptors(t));
  }

  lemma NoVoteKeepsTallies(q: Query, visited: set<BlockRef>, current: BlockRef, requested: set<nat>,
                           open: map<nat, Tally>, finalized: set<nat>)
    requires q.Valid() && current in q.blocks && !q.Votes(current)
    requires TalliesAre(q, visited, requested, open, finalized)
    ensures TalliesAre(q, visited + {current}, requested, open, finalized)
  {
    hide Query.Valid, Query.Votes, AcceptorsAmong, Query.IsAccepted;
    forall t | t in open
      ensures IsOpen(q, visited + {current}, t, open[t])
    {
      AcceptorsGrow(q, visited, current, t);
    }
  }

  /** The effect of one voting block on one open transaction. */
  lemma CountVote(q: Query, visited: set<BlockRef>, current: BlockRef, t: nat, tally: Tally)
    requires q.Valid() && current in q.blocks && q.Votes(current) && q.committee.IsMember(current.author)
    requires IsOpen(q, visited, t, tally)
    ensures t in q.Rejects(current) ==> IsOpen(q, visited + {current}, t, tally)
    ensures t !in q.Rejects(current) ==>
      var tally' := tally.Add(q.committee, current.author);
      if tally'.stake >= q.committee.quorumThreshold then q.IsAccepted(t)
      else IsOpen(q, visited + {current}, t, tally')
  {
    hide Query.Valid, Query.Votes, AcceptorsAmong, Query.IsAccepted, Query.Rejects;
    AcceptorsGrow(q, visited, current, t);
    TallyAdd(tally, q.committee, current.author);
    if t !in q.Rejects(current) && tally.Add(q.committee, current.author).stake >= q.committee.quorumThreshold {
      AcceptorsAreAmongAll(q, visited + {current}, t);
    }
  }

  /** Adds the accept votes of one voting block. */
  method CountVotes(ghost q: Query, ghost visited: set<BlockRef>, ghost requested: set<nat>, c: Committee,
                    current: BlockRef, rejects: set<nat>, open: map<nat, Tally>, finalized: set<nat>)
    returns (open': map<nat, Tally>, finalized': set<nat>)
    requires q.Valid() && c == q.committee && c.IsMember(current.author)
    requires current in q.blocks && q.Votes(current) && rejects == q.Rejects(current)
    requires TalliesAre(q, visited, requested, open, finalized)
    ensures TalliesAre(q, visited + {current}, requested, open', finalized')
  {
    hide Query.Valid, Query.Votes, IsOpen, Query.IsAccepted, Query.Rejects;
    open', finalized' := map[], finalized;
    var remaining := open.Keys;
    while remaining != {}
      invariant remaining <= open.Keys
      invariant forall t :: t in requested <==> t in open' || t in finalized' || t in remaining
      invariant forall t :: t in open' ==> t in open && t !in finalized' && t !in remaining
      invariant forall t :: t in finalized' ==> t !in remaining && q.IsAccepted(t)
      invariant forall t :: t in open' ==> IsOpen(q, visited + {current}, t, open'[t])
      decreases |remaining|
    {
      var t :| t in remaining;
      CountVote(q, visited, current, t, open[t]);
      remaining := remaining - {t};
      if t in rejects {
        open' := open'[t := open[t]];
      } else {
        var tally := open[t].Add(c, current.author);
        if tally.stake >= c.quorumThreshold {
          finalized' := finalized' + {t};
        } else {
          open' := open'[t := tally];
        }
      }
    }
  }

  function NoVotesYet(requested: set<nat>): map<nat, Tally> {
    map t | t in requested :: Tally({}, 0)
  }

  lemma TalliesStart(q: Query, requested: set<nat>)
    requires q.Valid()
    ensures TalliesAre(q, {}, requested, NoVotesYet(requested), {})
  {
    StakeEmpty(q.committee);
    forall t | t in requested
      ensures IsOpen(q, {}, t, Tally({}, 0))
    {
      assert AcceptorsAmong(q, {}, t) == {};
    }
  }

  /** With nothing left to visit, what is still open has no quorum. */
  lemma OpenIsNotAccepted(q: Query, visited: set<BlockRef>, requested: set<nat>, open: map<nat, Tally>,
                          finalized: set<nat>, t: nat)
    requires q.Valid() && Frontier(q, visited, {})
    requires TalliesAre(q, visited, requested, open, finalized) && t in open
    ensures !q.IsAccepted(t)
  {
    hide Frontier, WellLinked, Descends;
    forall x | x in q.blocks && q.Votes(x)
      ensures x in visited
    {
      if x !in visited {
        var t' := UnvisitedIsAhead(q, visited, {}, x);
        assert false;
      }
    }
    assert IsOpen(q, visited, t, open[t]);
    assert AcceptorsAmong(q, visited, t) == q.Acceptors(t);
  }

  /** The requested transactions of the pending block that are indirectly finalized: exactly
      those accepted by a quorum of first-of-origin descendants whose votes surely count. */
  method TryIndirectFinalize(q: Query, requested: set<nat>) returns (finalized: set<nat>)
    requires q.Valid()
    ensures forall t :: t in finalized <==> t in requested && q.IsAccepted(t)
  {
    finalized := {};
    if requested == {} {
      return;
    }
    FrontierStart(q);
    TalliesStart(q, requested);
    hide Query.Valid, Frontier, IgnoredIs, TalliesAre, NoVotesYet, Query.IsFresh, Query.Votes, Query.IsAccepted,
      Query.IsFirstOfOrigin, Query.Rejects, HasVisitedOrigin, GcedTransactionVotes, WellLinked;
    QueryFacts(q);
    var open := NoVotesYet(requested);
    var toVisit := q.blocks[q.pending].children;
    var visited: set<BlockRef> := {};
    var ignored: set<BlockRef> := {};
    NothingIgnored(q);
    while toVisit != {}
      invariant Frontier(q, visited, toVisit) && IgnoredIs(q, visited, ignored)
      invariant visited <= q.blocks.Keys && toVisit !! visited
      invariant TalliesAre(q, visited, requested, open, finalized)
      decreases q.blocks.Keys - visited
    {
      var current := First(toVisit);
      VisitedDescend(q, visited, toVisit, current);
      DescendantsAreLater(q, current);
      VisitFacts(q, visited, toVisit, ignored, current);
      ghost var visited0, ignored0 := visited, ignored;
      visited := visited + {current};
      var votesGced := GcedTransactionVotes(q.gcRounds, q.pending.round, q.blocks[q.pending].commitIndex,
                                            q.blocks[current].commitIndex);
      var counts := current !in ignored;
      if counts {
        ignored := ignored + {current} + (set x | x in q.blocks[current].originDescendants);
      }
      IgnoreStep(q, visited0, ignored0, current, ignored);
      if counts && votesGced {
        VisitGced(q, visited0, toVisit, current);
        NoVoteKeepsTallies(q, visited0, current, requested, open, finalized);
        toVisit := toVisit - {current};
      } else {
        if counts {
          open, finalized :=
            CountVotes(q, visited0, requested, q.committee, current, q.Rejects(current), open, finalized);
          if open.Keys == {} {
            AllFinalized(q, visited, requested, open, finalized);
            return;
          }
        } else {
          NoVoteKeepsTallies(q, visited0, current, requested, open, finalized);
        }
        VisitAndExpand(q, visited0, toVisit, current);
        ChildrenAreInMap(q, current);
        toVisit := toVisit - {current} + (q.blocks[current].children - visited);
      }
    }
    Completed(q, visited, requested, open, finalized);
  }

  lemma QueryFacts(q: Query)
    requires q.Valid()
    ensures q.pending in q.blocks
    ensures GcRoundsFrom(q.gcRounds, q.Index(q.pending))
    ensures forall x :: x in q.blocks ==> q.Index(x) <= q.Index(q.pending) + |q.gcRounds|
    ensures forall x :: x in q.blocks ==> q.committee.IsMember(x.author)
    ensures forall x :: x in q.blocks[q.pending].children ==> x in q.blocks
  {
    forall x | x in q.blocks[q.pending].children
      ensures x in q.blocks
    {
      assert IsLater(q.blocks, q.pending, x);
    }
  }

  lemma ChildrenAreInMap(q: Query, x: BlockRef)
    requires q.Valid() && x in q.blocks
    ensures forall y :: y in q.blocks[x].children ==> y in q.blocks && y != x
  {
    forall y | y in q.blocks[x].children
      ensures y in q.blocks && y != x
    {
      assert IsLater(q.blocks, x, y);
    }
  }

  lemma NothingIgnored(q: Query)
    ensures IgnoredIs(q, {}, {})
  {
  }

  /** What taking the next block tells about its vote. */
  lemma VisitFacts(q: Query, visited: set<BlockRef>, toVisit: set<BlockRef>, ignored: set<BlockRef>, current: BlockRef)
    requires q.Valid() && Frontier(q, visited, toVisit) && IgnoredIs(q, visited, ignored)
    requires current in toVisit && forall t :: t in toVisit && t != current ==> current.Less(t)
    requires current in q.blocks && q.Index(q.pending) <= q.Index(current) && q.IsDescendant(current)
    ensures current !in visited
    ensures q.IsFresh(current) <==> !q.IsGced(current)
    ensures q.Votes(current) <==> current !in ignored && !q.IsGced(current)
  {
    hide Frontier, Descends, WellLinked, Query.IsFirstOfOrigin, HasVisitedOrigin;
    VisitedDescend(q, visited, toVisit, current);
    if q.IsFresh(current) {
      IgnoredMeansNotFirst(q, visited, toVisit, current);
    }
  }

  lemma AllFinalized(q: Query, visited: set<BlockRef>, requested: set<nat>, open: map<nat, Tally>, finalized: set<nat>)
    requires q.Valid() && TalliesAre(q, visited, requested, open, finalized) && open.Keys == {}
    ensures forall t :: t in finalized <==> t in requested && q.IsAccepted(t)
  {
    hide Query.IsAccepted, Query.Valid;
  }

  lemma Completed(q: Query, visited: set<BlockRef>, requested: set<nat>, open: map<nat, Tally>, finalized: set<nat>)
    requires q.Valid() && Frontier(q, visited, {}) && TalliesAre(q, visited, requested, open, finalized)
    ensures forall t :: t in finalized <==> t in requested && q.IsAccepted(t)
  {
    hide Query.IsAccepted, Query.Valid, Frontier, IsOpen;
    forall t | t in requested && q.IsAccepted(t)
      ensures t in finalized
    {
      if t in open {
        OpenIsNotAccepted(q, visited, requested, open, finalized, t);
      }
    }
  }
}
