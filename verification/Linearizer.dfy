/** From committed leaders to sub-dags: each leader commits what is left of its causal history
    above the garbage collection round of the leader before it. */
module Linearizers {
  import opened Blocks
  import opened BlockVerifier
  import opened Dags
  import opened BlockIndex
  import opened FinalizerState

  // ----- meaning

  ghost predicate AreLeaders(w: World, leaders: seq<BlockRef>) {
    && (forall k :: 0 <= k < |leaders| ==> leaders[k] in w.blocks && leaders[k].round > 0)
    && (forall j, k :: 0 <= j < k < |leaders| ==> leaders[j].round < leaders[k].round)
  }

  /** The garbage collection round when the k-th leader is linearized. */
  ghost function GcBefore(leaders: seq<BlockRef>, gcDepth: nat, k: nat): Round
    requires k <= |leaders|
  {
    if k == 0 then 0 else GcRound(leaders[k - 1].round, gcDepth)
  }

  /** The block is in the history of the k-th leader, above its garbage collection round. */
  ghost predicate Includes(w: World, gcDepth: nat, leaders: seq<BlockRef>, k: nat, r: BlockRef)
    requires k < |leaders|
  {
    Reaches(w.blocks, leaders[k], r) && r.round > GcBefore(leaders, gcDepth, k)
  }

  ghost predicate IsCommittedBefore(w: World, gcDepth: nat, leaders: seq<BlockRef>, n: nat, r: BlockRef)
    requires n <= |leaders|
  {
    exists k :: 0 <= k < n && Includes(w, gcDepth, leaders, k, r)
  }

  /** Exactly what the leaders commit. */
  ghost predicate IsCommittedSet(w: World, gcDepth: nat, leaders: seq<BlockRef>, committed: set<BlockRef>) {
    forall r :: r in committed <==> IsCommittedBefore(w, gcDepth, leaders, |leaders|, r)
  }

  /** The k-th sub-dag holds what no earlier leader includes. It depends on no view. */
  ghost predicate InSubDag(w: World, gcDepth: nat, leaders: seq<BlockRef>, k: nat, r: BlockRef)
    requires k < |leaders|
  {
    Includes(w, gcDepth, leaders, k, r) && !IsCommittedBefore(w, gcDepth, leaders, k, r)
  }

  ghost function CommittedBefore(w: World, gcDepth: nat, leaders: seq<BlockRef>, k: nat): set<BlockRef>
    requires k <= |leaders|
  {
    set r | r in w.blocks && IsCommittedBefore(w, gcDepth, leaders, k, r)
  }

  /** The blocks in the order of the k-th sub-dag: by slot, and within a slot as the traversal reaches them. */
  ghost predicate InOrder(w: World, gcDepth: nat, leaders: seq<BlockRef>, k: nat, blocks: seq<Block>)
    requires k < |leaders|
  {
    && leaders[k] in w.blocks
    && blocks == SlotSorted(Traversal(w.blocks, GcBefore(leaders, gcDepth, k), leaders[k],
                                      CommittedBefore(w, gcDepth, leaders, k)))
  }

  /** The k-th commit, counted from zero; commits are numbered from one. */
  ghost predicate IsSubDag(w: World, gcDepth: nat, leaders: seq<BlockRef>, k: nat, commit: CommittedSubDag)
    requires k < |leaders|
  {
    && commit.index == k + 1 && commit.leader == leaders[k]
    && DistinctRefs(commit.blocks) && SortedBySlot(commit.blocks) && InOrder(w, gcDepth, leaders, k, commit.blocks)
    && (forall b :: b in commit.blocks ==> b.Ref() in w.blocks && w.blocks[b.Ref()] == b)
    && (forall r :: r in Refs(commit.blocks) <==> InSubDag(w, gcDepth, leaders, k, r))
  }

  // ----- consequences

  lemma GcBeforeIsMonotone(w: World, gcDepth: nat, leaders: seq<BlockRef>, j: nat, k: nat)
    requires AreLeaders(w, leaders) && j <= k <= |leaders|
    ensures GcBefore(leaders, gcDepth, j) <= GcBefore(leaders, gcDepth, k)
  {
  }

  /** What the history of an included block holds above the garbage collection round is included
      as well. */
  lemma IncludesHistory(w: World, gcDepth: nat, leaders: seq<BlockRef>, k: nat, x: BlockRef, y: BlockRef)
    requires k < |leaders| && Includes(w, gcDepth, leaders, k, x)
    requires Reaches(w.blocks, x, y) && y.round > GcBefore(leaders, gcDepth, k)
    ensures Includes(w, gcDepth, leaders, k, y)
  {
    ReachesTransitive(w.blocks, leaders[k], x, y);
  }

  lemma {:induction false} FirstToInclude(w: World, gcDepth: nat, leaders: seq<BlockRef>, n: nat, r: BlockRef)
    returns (k: nat)
    requires n <= |leaders| && IsCommittedBefore(w, gcDepth, leaders, n, r)
    ensures k < n && InSubDag(w, gcDepth, leaders, k, r)
  {
    hide Includes;
    var j :| 0 <= j < n && Includes(w, gcDepth, leaders, j, r);
    if IsCommittedBefore(w, gcDepth, leaders, j, r) {
      k := FirstToInclude(w, gcDepth, leaders, j, r);
    } else {
      k := j;
    }
  }

  /** Complete: everything in the history of a leader above its garbage collection round is
      committed with it or earlier. */
  lemma HistoryIsCommitted(w: World, gcDepth: nat, leaders: seq<BlockRef>, k: nat, r: BlockRef) returns (j: nat)
    requires k < |leaders| && Includes(w, gcDepth, leaders, k, r)
    ensures j <= k && InSubDag(w, gcDepth, leaders, j, r)
  {
    j := FirstToInclude(w, gcDepth, leaders, k + 1, r);
  }

  /** Exclusive: no block is in two sub-dags. */
  lemma CommittedOnce(w: World, gcDepth: nat, leaders: seq<BlockRef>, j: nat, k: nat, r: BlockRef)
    requires j < |leaders| && k < |leaders|
    requires InSubDag(w, gcDepth, leaders, j, r) && InSubDag(w, gcDepth, leaders, k, r)
    ensures j == k
  {
    hide Includes;
  }

  /** Causal: a block is not committed before what it descends from, unless that was garbage
      collected. */
  lemma HistoryIsNotLater(w: World, gcDepth: nat, leaders: seq<BlockRef>, x: BlockRef, j: nat, y: BlockRef, k: nat)
    requires AreLeaders(w, leaders) && j < |leaders| && k < |leaders|
    requires InSubDag(w, gcDepth, leaders, j, x) && InSubDag(w, gcDepth, leaders, k, y) && Reaches(w.blocks, x, y)
    ensures k <= j
  {
    if j < k {
      GcBeforeIsMonotone(w, gcDepth, leaders, j, k);
      IncludesHistory(w, gcDepth, leaders, j, x, y);
      assert false;
    }
  }

  /** Deterministic: validators with the same leaders commit the same blocks in the same order with each of them,
      whatever their views were. */
  lemma SubDagsAgree(w: World, gcDepth: nat, leaders: seq<BlockRef>, k: nat, one: CommittedSubDag,
                     other: CommittedSubDag)
    requires k < |leaders|
    requires IsSubDag(w, gcDepth, leaders, k, one) && IsSubDag(w, gcDepth, leaders, k, other)
    ensures one.index == other.index && one.leader == other.leader && one.blocks == other.blocks
  {
  }

  // ----- the traversal

  /** The ancestors that the traversal goes on with. */
  function Uncommitted(ancestors: seq<BlockRef>, gcRound: Round, committed: set<BlockRef>): seq<BlockRef> {
    if ancestors == [] then []
    else
      var n := |ancestors| - 1;
      Uncommitted(ancestors[..n], gcRound, committed)
      + if ancestors[n].round > gcRound && ancestors[n] !in committed then [ancestors[n]] else []
  }

  lemma {:induction false} UncommittedHas(ancestors: seq<BlockRef>, gcRound: Round, committed: set<BlockRef>)
    ensures forall a :: a in Uncommitted(ancestors, gcRound, committed) <==>
              a in ancestors && a.round > gcRound && a !in committed
  {
    if ancestors == [] {
    } else {
      var n := |ancestors| - 1;
      UncommittedHas(ancestors[..n], gcRound, committed);
      assert ancestors == ancestors[..n] + [ancestors[n]];
    }
  }

  lemma {:induction false} UncommittedIsDistinct(ancestors: seq<BlockRef>, gcRound: Round, committed: set<BlockRef>)
    requires DistinctAuthors(ancestors)
    ensures NoDuplicates(Uncommitted(ancestors, gcRound, committed))
  {
    if ancestors == [] {
    } else {
      var n := |ancestors| - 1;
      UncommittedIsDistinct(ancestors[..n], gcRound, committed);
      UncommittedHas(ancestors[..n], gcRound, committed);
      var before := Uncommitted(ancestors[..n], gcRound, committed);
      assert ancestors[n] !in ancestors[..n];
      assert forall i :: 0 <= i < |before| ==> before[i] in before;
    }
  }

  ghost function Lookup(blocks: map<BlockRef, Block>, refs: seq<BlockRef>): seq<Block>
    requires forall r :: r in refs ==> r in blocks
  {
    seq(|refs|, i requires 0 <= i < |refs| => blocks[refs[i]])
  }

  ghost function RefSet(refs: seq<BlockRef>): set<BlockRef> {
    set r | r in refs
  }

  /** What the depth-first traversal takes out, given what it has taken out and what is on the stack. */
  ghost function Visit(blocks: map<BlockRef, Block>, gcRound: Round, done: seq<Block>, stack: seq<Block>,
                       committed: set<BlockRef>): seq<Block>
    decreases |blocks.Keys - committed|, |stack|
  {
    if stack == [] then done
    else
      var x := stack[|stack| - 1];
      var next := Uncommitted(x.ancestors, gcRound, committed);
      if exists a :: a in next && a !in blocks then done
      else
        UncommittedHas(x.ancestors, gcRound, committed);
        TraversalShrinks(blocks.Keys, committed, committed + RefSet(next), next);
        Visit(blocks, gcRound, done + [x], stack[..|stack| - 1] + Lookup(blocks, next), committed + RefSet(next))
  }

  ghost function Traversal(blocks: map<BlockRef, Block>, gcRound: Round, leader: BlockRef,
                           committed: set<BlockRef>): seq<Block>
    requires leader in blocks
  {
    Visit(blocks, gcRound, [], [blocks[leader]], committed + {leader})
  }

  lemma VisitStep(blocks: map<BlockRef, Block>, gcRound: Round, done: seq<Block>, stack: seq<Block>,
                  committed: set<BlockRef>, ancestors: seq<BlockRef>)
    requires stack != [] && ancestors == Uncommitted(stack[|stack| - 1].ancestors, gcRound, committed)
    requires forall a :: a in ancestors ==> a in blocks
    ensures Visit(blocks, gcRound, done, stack, committed)
         == Visit(blocks, gcRound, done + [stack[|stack| - 1]], stack[..|stack| - 1] + Lookup(blocks, ancestors),
                  committed + RefSet(ancestors))
  {
  }

  /** Committed blocks bring their history along, above the garbage collection round. */
  ghost predicate IsClosed(w: World, gcRound: Round, committed: set<BlockRef>) {
    forall y, a :: y in committed && y in w.blocks && a in w.blocks[y].ancestors && a.round > gcRound ==> a in committed
  }

  /** The traversal so far: blocks taken out (`done`) and blocks still on the stack. */
  ghost predicate Traversing(w: World, d: DagState, leader: BlockRef, committed0: set<BlockRef>,
                             done: seq<Block>, stack: seq<Block>, committed: set<BlockRef>)
  {
    && DistinctRefs(done + stack)
    && committed == committed0 + Refs(done + stack) && committed0 !! Refs(done + stack)
    && (forall b :: b in done + stack ==> IsFound(w, d, leader, b))
    && (forall b, a :: b in done && a in b.ancestors && a.round > d.gcRound ==> a in committed)
  }

  ghost predicate IsFound(w: World, d: DagState, leader: BlockRef, b: Block) {
    b.Ref() in d.blocks && d.blocks[b.Ref()] == b && b.round > d.gcRound && Reaches(w.blocks, leader, b.Ref())
  }

  lemma {:induction false} ClosedHoldsHistory(w: World, gcRound: Round, committed: set<BlockRef>, x: BlockRef,
                                              y: BlockRef)
    requires IsClosed(w, gcRound, committed) && x in committed && Reaches(w.blocks, x, y) && y.round > gcRound
    ensures y in committed
    decreases x.round
  {
    if x == y {
    } else {
      var a :| a in w.blocks[x].ancestors && a.round < x.round && Reaches(w.blocks, a, y);
      ReachesDescends(w.blocks, a, y);
      ClosedHoldsHistory(w, gcRound, committed, a, y);
    }
  }

  class Linearizer {
    const gcDepth: nat

    var lastCommitIndex: nat
    var lastCommitRound: Round
    var committed: set<BlockRef>

    ghost var leaders: seq<BlockRef>

    ghost predicate Valid(w: World)
      reads this
    {
      && AreLeaders(w, leaders)
      && lastCommitIndex == |leaders|
      && lastCommitRound == (if leaders == [] then 0 else leaders[|leaders| - 1].round)
      && IsCommittedSet(w, gcDepth, leaders, committed) && committed <= w.blocks.Keys
    }

    constructor (ghost w: World, gcDepth: nat)
      ensures Valid(w) && leaders == [] && this.gcDepth == gcDepth
    {
      this.gcDepth := gcDepth;
      lastCommitIndex, lastCommitRound, committed, leaders := 0, 0, {}, [];
    }

    function GcRoundNow(): Round
      reads this
    {
      GcRound(lastCommitRound, gcDepth)
    }

    /** The uncommitted ancestors of a block above the garbage collection round. */
    method UncommittedAncestors(b: Block, gcRound: Round) returns (refs: seq<BlockRef>)
      requires DistinctAuthors(b.ancestors)
      ensures refs == Uncommitted(b.ancestors, gcRound, committed)
      ensures forall a :: a in refs <==> a in b.ancestors && a.round > gcRound && a !in committed
      ensures NoDuplicates(refs)
    {
      refs := [];
      for i := 0 to |b.ancestors|
        invariant refs == Uncommitted(b.ancestors[..i], gcRound, committed)
      {
        var a := b.ancestors[i];
        assert b.ancestors[..i + 1][..i] == b.ancestors[..i];
        if a.round > gcRound && a !in committed {
          refs := refs + [a];
        }
      }
      assert b.ancestors[..|b.ancestors|] == b.ancestors;
      UncommittedHas(b.ancestors, gcRound, committed);
      UncommittedIsDistinct(b.ancestors, gcRound, committed);
    }

    /** Pushes the ancestors of a block that are not committed yet; none of them occurs twice. */
    method PushAncestors(ghost w: World, d: DagState, ghost leader: BlockRef, ghost committed0: set<BlockRef>,
                         ghost done: seq<Block>, stack: seq<Block>, ghost x: Block, ancestors: seq<BlockRef>)
      returns (stack': seq<Block>)
      requires w.Valid() && w.HasView(d) && Pushing(w, d, leader, committed0, done, stack, committed, x)
      requires forall a :: a in ancestors ==> a in x.ancestors && a.round > d.gcRound && a !in committed
      requires NoDuplicates(ancestors)
      modifies this`committed
      ensures Pushing(w, d, leader, committed0, done, stack', committed, x)
      ensures forall a :: a in ancestors ==> a in d.blocks && a in w.blocks
      ensures stack' == stack + Lookup(w.blocks, ancestors) && committed == old(committed) + RefSet(ancestors)
    {
      hide World.Valid, World.HasView, Pushing, Lookup, RefSet;
      stack' := stack;
      NothingPushed(w, stack, committed);
      assert ancestors[..0] == [];
      for i := 0 to |ancestors|
        invariant Pushing(w, d, leader, committed0, done, stack', committed, x)
        invariant forall a :: a in ancestors[..i] ==> a in d.blocks && a in w.blocks
        invariant stack' == stack + Lookup(w.blocks, ancestors[..i])
        invariant committed == old(committed) + RefSet(ancestors[..i])
        invariant forall j :: i <= j < |ancestors| ==> ancestors[j] !in committed
      {
        assert ancestors[i] in ancestors;
        PushNext(w, d, leader, committed0, done, stack', committed, x, ancestors[i]);
        PushedNext(w, d, stack, old(committed), ancestors, i);
        stack' := stack' + [d.blocks[ancestors[i]]];
        committed := committed + {ancestors[i]};
      }
      assert ancestors[..|ancestors|] == ancestors;
    }

    /** Depth first from the leader; blocks are marked as committed when they are pushed. */
    method LinearizeSubDag(ghost w: World, d: DagState, leader: BlockRef) returns (toCommit: seq<Block>)
      requires w.Valid() && w.HasView(d) && IsClosed(w, d.gcRound, committed)
      requires leader in d.blocks && leader.round > d.gcRound && leader !in committed
      modifies this`committed
      ensures DistinctRefs(toCommit) && SortedBySlot(toCommit)
      ensures forall b :: b in toCommit ==> b.Ref() in w.blocks && w.blocks[b.Ref()] == b
      ensures forall r :: r in Refs(toCommit)
                     <==> Reaches(w.blocks, leader, r) && r.round > d.gcRound && r !in old(committed)
      ensures committed == old(committed) + Refs(toCommit)
      ensures leader in w.blocks && toCommit == SlotSorted(Traversal(w.blocks, d.gcRound, leader, old(committed)))
    {
      hide World.Valid, World.HasView, Traversing, Pushing, Reaches, IsClosed, SortedBySlot, Refs, DistinctRefs, Visit,
           Uncommitted, SlotSorted, Lookup, RefSet;
      toCommit := [];
      ViewIsOfWorld(w, d, leader);
      var stack := [d.blocks[leader]];
      TraversalStart(w, d, leader, committed);
      committed := committed + {leader};
      while stack != []
        invariant Traversing(w, d, leader, old(committed), toCommit, stack, committed)
        invariant leader in committed
        invariant Visit(w.blocks, d.gcRound, toCommit, stack, committed)
               == Traversal(w.blocks, d.gcRound, leader, old(committed))
        decreases |d.blocks.Keys - committed|, |stack|
      {
        ghost var committed1, stack1, done1 := committed, stack, toCommit;
        var x := stack[|stack| - 1];
        TopIsFound(w, d, leader, old(committed), toCommit, stack, committed);
        var ancestors := UncommittedAncestors(x, d.gcRound);
        TakeTop(w, d, leader, old(committed), toCommit, stack, committed, x);
        toCommit, stack := toCommit + [x], stack[..|stack| - 1];
        stack := PushAncestors(w, d, leader, old(committed), toCommit, stack, x, ancestors);
        PushedSet(committed1, ancestors);
        PushedAll(w, d, leader, old(committed), toCommit, stack, committed, x, ancestors);
        TraversalShrinks(d.blocks.Keys, committed1, committed, ancestors);
        VisitStep(w.blocks, d.gcRound, done1, stack1, committed1, ancestors);
        PushedStack(stack1, w.blocks, ancestors);
      }
      VisitEnd(w.blocks, d.gcRound, toCommit, committed);
      TraversalEnd(w, d, leader, old(committed), toCommit, committed);
      ghost var found := toCommit;
      toCommit := SortBySlot(toCommit);
      SameRefs(found, toCommit);
      DistinctSorted(found, toCommit);
    }

    /** Commits the next leader. */
    method CollectSubDag(ghost w: World, d: DagState, leader: BlockRef, local: bool) returns (commit: CommittedSubDag)
      requires Valid(w) && w.Valid() && w.HasView(d) && d.gcRound == GcRoundNow()
      requires leader in d.blocks && leader.round > lastCommitRound
      modifies this
      ensures Valid(w) && leaders == old(leaders) + [leader]
      ensures IsSubDag(w, gcDepth, leaders, |old(leaders)|, commit) && leader in Refs(commit.blocks)
      ensures commit.decidedWithLocalBlocks == local && commit.rejectedTransactions == map[]
    {
      hide World.Valid, World.HasView, Reaches, IsClosed, SortedBySlot, Refs, DistinctRefs, IsCommittedBefore,
           IsCommittedSet, InSubDag, Traversal, SlotSorted;
      CommittedIsClosed(w, gcDepth, leaders, committed);
      LeaderIsNew(w, gcDepth, leaders, leader);
      IsCommittedSetAt(w, gcDepth, leaders, committed, leader);
      var toCommit := LinearizeSubDag(w, d, leader);
      commit := CommittedSubDag(lastCommitIndex + 1, leader, toCommit, local, map[]);
      NextSubDag(w, gcDepth, leaders, old(committed), leader, Refs(toCommit));
      CommittedIsBefore(w, gcDepth, leaders, old(committed), leader);
      RefsAreOfWorld(w, toCommit);
      lastCommitIndex, lastCommitRound := lastCommitIndex + 1, leader.round;
      ReachesItself(w, leader);
      ViewIsOfWorld(w, d, leader);
      leaders := leaders + [leader];
    }

    /** Commits the given leaders in order. The garbage collection round moves with each of them. */
    method HandleCommit(ghost w: World, d: DagState, newLeaders: seq<BlockRef>, local: bool)
      returns (commits: seq<CommittedSubDag>)
      requires Valid(w) && w.Valid() && w.HasView(d) && d.gcRound == GcRoundNow()
      requires forall l :: l in newLeaders ==> l in d.blocks && l.round > lastCommitRound
      requires forall i, j :: 0 <= i < j < |newLeaders| ==> newLeaders[i].round < newLeaders[j].round
      modifies this
      ensures Valid(w) && leaders == old(leaders) + newLeaders && |commits| == |newLeaders|
      ensures forall i :: 0 <= i < |commits| ==> IsSubDag(w, gcDepth, leaders, |old(leaders)| + i, commits[i])
      ensures forall i :: 0 <= i < |commits| ==>
                commits[i].decidedWithLocalBlocks == local && commits[i].rejectedTransactions == map[]
    {
      hide World.Valid, World.HasView, IsSubDag, IsCommittedBefore, AreLeaders;
      commits := [];
      var now := d;
      assert newLeaders[..0] == [];
      for i := 0 to |newLeaders|
        invariant Valid(w) && leaders == old(leaders) + newLeaders[..i] && |commits| == i
        invariant w.HasView(now) && now.blocks == d.blocks && now.gcRound == GcRoundNow()
        invariant forall j :: i <= j < |newLeaders| ==> newLeaders[j].round > lastCommitRound
        invariant forall j :: 0 <= j < i ==> IsSubDag(w, gcDepth, leaders, |old(leaders)| + j, commits[j])
        invariant forall j :: 0 <= j < i ==>
                    commits[j].decidedWithLocalBlocks == local && commits[j].rejectedTransactions == map[]
      {
        ghost var before := leaders;
        var commit := CollectSubDag(w, now, newLeaders[i], local);
        assert newLeaders[..i + 1] == newLeaders[..i] + [newLeaders[i]];
        forall j | 0 <= j < i
          ensures IsSubDag(w, gcDepth, leaders, |old(leaders)| + j, commits[j])
        {
          SubDagIsStable(w, gcDepth, before, newLeaders[i], |old(leaders)| + j, commits[j]);
        }
        ViewMovesOn(w, now, GcRoundNow());
        now := now.(gcRound := GcRoundNow());
        commits := commits + [commit];
      }
      assert newLeaders[..|newLeaders|] == newLeaders;
    }
  }

  /** Stack and committed blocks while the ancestors of `x` are being pushed. */
  ghost predicate Pushing(w: World, d: DagState, leader: BlockRef, committed0: set<BlockRef>,
                          done: seq<Block>, stack: seq<Block>, committed: set<BlockRef>, x: Block)
  {
    && DistinctRefs(done + stack)
    && committed == committed0 + Refs(done + stack) && committed0 !! Refs(done + stack)
    && (forall b :: b in done + stack ==> IsFound(w, d, leader, b))
    && x in done
    && (forall b, a :: b in done && b != x && a in b.ancestors && a.round > d.gcRound ==> a in committed)
  }

  lemma TraversalStart(w: World, d: DagState, leader: BlockRef, committed: set<BlockRef>)
    requires w.Valid() && w.HasView(d)
    requires leader in d.blocks && leader.round > d.gcRound && leader !in committed
    ensures Traversing(w, d, leader, committed, [], [d.blocks[leader]], committed + {leader})
  {
    assert [] + [d.blocks[leader]] == [d.blocks[leader]];
    assert Refs([d.blocks[leader]]) == {leader};
  }

  lemma TopIsFound(w: World, d: DagState, leader: BlockRef, committed0: set<BlockRef>, done: seq<Block>,
                   stack: seq<Block>, committed: set<BlockRef>)
    requires w.Valid() && w.HasView(d) && stack != [] && Traversing(w, d, leader, committed0, done, stack, committed)
    ensures DistinctAuthors(stack[|stack| - 1].ancestors)
  {
    hide DistinctRefs, Reaches;
    var x := stack[|stack| - 1];
    assert x in done + stack;
    assert IsFound(w, d, leader, x);
    assert WellFormed(w.committee, w.genesis, w.blocks[x.Ref()]);
  }

  lemma TakeTop(w: World, d: DagState, leader: BlockRef, committed0: set<BlockRef>, done: seq<Block>, stack: seq<Block>,
                committed: set<BlockRef>, x: Block)
    requires stack != [] && x == stack[|stack| - 1] && Traversing(w, d, leader, committed0, done, stack, committed)
    ensures Pushing(w, d, leader, committed0, done + [x], stack[..|stack| - 1], committed, x)
  {
    hide Reaches, IsFound;
    var stack' := stack[..|stack| - 1];
    assert stack == stack' + [x];
    var all, all' := done + stack, done + [x] + stack';
    assert multiset(all') == multiset(all);
    SameRefs(all, all');
    DistinctSorted(all, all');
  }

  lemma PushNext(w: World, d: DagState, leader: BlockRef, committed0: set<BlockRef>, done: seq<Block>,
                 stack: seq<Block>, committed: set<BlockRef>, x: Block, a: BlockRef)
    requires w.Valid() && w.HasView(d) && Pushing(w, d, leader, committed0, done, stack, committed, x)
    requires a in x.ancestors && a.round > d.gcRound && a !in committed
    ensures a in d.blocks
    ensures Pushing(w, d, leader, committed0, done, stack + [d.blocks[a]], committed + {a}, x)
  {
    hide World.Valid, World.HasView, Reaches, IsFound, DistinctRefs, Refs;
    AncestorIsFound(w, d, leader, done, stack, x, a);
    var all, y := done + stack, d.blocks[a];
    assert done + (stack + [y]) == all + [y];
    DistinctAppend(all, y);
  }

  lemma AncestorIsFound(w: World, d: DagState, leader: BlockRef, done: seq<Block>, stack: seq<Block>, x: Block,
                        a: BlockRef)
    requires w.Valid() && w.HasView(d) && x in done
    requires forall b :: b in done + stack ==> IsFound(w, d, leader, b)
    requires a in x.ancestors && a.round > d.gcRound
    ensures a in d.blocks && d.blocks[a].Ref() == a && IsFound(w, d, leader, d.blocks[a])
  {
    hide Reaches;
    assert x in done + stack;
    assert IsFound(w, d, leader, x);
    assert WellFormed(w.committee, w.genesis, w.blocks[x.Ref()]);
    StepReaches(w.blocks, x.Ref(), a);
    ReachesTransitive(w.blocks, leader, x.Ref(), a);
  }

  lemma StepReaches(blocks: map<BlockRef, Block>, x: BlockRef, a: BlockRef)
    requires x in blocks && a in blocks[x].ancestors && a.round < x.round
    ensures Reaches(blocks, x, a)
  {
    assert Reaches(blocks, a, a);
  }

  lemma PushedAll(w: World, d: DagState, leader: BlockRef, committed0: set<BlockRef>, done: seq<Block>,
                  stack: seq<Block>, committed: set<BlockRef>, x: Block, ancestors: seq<BlockRef>)
    requires Pushing(w, d, leader, committed0, done, stack, committed, x)
    requires forall j :: 0 <= j < |ancestors| ==> ancestors[j] in committed
    requires forall a :: a in x.ancestors && a.round > d.gcRound && a !in ancestors ==> a in committed
    ensures Traversing(w, d, leader, committed0, done, stack, committed)
  {
    hide Reaches, IsFound, DistinctRefs, Refs;
  }

  lemma NothingPushed(w: World, stack: seq<Block>, committed: set<BlockRef>)
    ensures stack + Lookup(w.blocks, []) == stack && committed + RefSet([]) == committed
  {
  }

  lemma PushedNext(w: World, d: DagState, stack: seq<Block>, committed: set<BlockRef>, ancestors: seq<BlockRef>, i: nat)
    requires w.HasView(d) && i < |ancestors| && ancestors[i] in d.blocks
    requires forall a :: a in ancestors[..i] ==> a in w.blocks
    ensures forall a :: a in ancestors[..i + 1] ==> a in ancestors[..i] || a == ancestors[i]
    ensures ancestors[i] in w.blocks && d.blocks[ancestors[i]] == w.blocks[ancestors[i]]
    ensures stack + Lookup(w.blocks, ancestors[..i + 1])
         == stack + Lookup(w.blocks, ancestors[..i]) + [d.blocks[ancestors[i]]]
    ensures committed + RefSet(ancestors[..i + 1]) == committed + RefSet(ancestors[..i]) + {ancestors[i]}
  {
    assert ancestors[..i + 1] == ancestors[..i] + [ancestors[i]];
  }

  lemma PushedSet(committed: set<BlockRef>, ancestors: seq<BlockRef>)
    ensures forall j :: 0 <= j < |ancestors| ==> ancestors[j] in committed + RefSet(ancestors)
  {
  }

  lemma PushedStack(stack: seq<Block>, blocks: map<BlockRef, Block>, ancestors: seq<BlockRef>)
    requires stack != [] && forall a :: a in ancestors ==> a in blocks
    ensures ancestors == [] ==> |stack[..|stack| - 1] + Lookup(blocks, ancestors)| < |stack|
  {
  }

  lemma VisitEnd(blocks: map<BlockRef, Block>, gcRound: Round, done: seq<Block>, committed: set<BlockRef>)
    ensures Visit(blocks, gcRound, done, [], committed) == done
  {
  }

  lemma TraversalShrinks(known: set<BlockRef>, before: set<BlockRef>, after: set<BlockRef>, ancestors: seq<BlockRef>)
    requires before <= after
    requires forall a :: a in ancestors ==> a in known && a !in before && a in after
    ensures |known - after| <= |known - before|
    ensures ancestors != [] ==> |known - after| < |known - before|
  {
    var left, left' := known - before, known - after;
    SubsetIsSmaller(left', left);
    if ancestors != [] {
      SubsetIsSmaller(left', left - {ancestors[0]});
    }
  }

  lemma {:induction false} SubsetIsSmaller(a: set<BlockRef>, b: set<BlockRef>)
    requires a <= b
    ensures |a| <= |b|
  {
    if a == {} {
    } else {
      var x :| x in a;
      SubsetIsSmaller(a - {x}, b - {x});
    }
  }

  lemma TraversalEnd(w: World, d: DagState, leader: BlockRef, committed0: set<BlockRef>, done: seq<Block>,
                     committed: set<BlockRef>)
    requires w.Valid() && w.HasView(d) && IsClosed(w, d.gcRound, committed0) && leader in committed
    requires Traversing(w, d, leader, committed0, done, [], committed)
    ensures DistinctRefs(done) && committed == committed0 + Refs(done)
    ensures forall b :: b in done ==> b.Ref() in w.blocks && w.blocks[b.Ref()] == b
    ensures forall r :: r in Refs(done) <==> Reaches(w.blocks, leader, r) && r.round > d.gcRound && r !in committed0
  {
    hide Reaches;
    assert done + [] == done;
    assert IsClosed(w, d.gcRound, committed) by {
      forall y, a | y in committed && y in w.blocks && a in w.blocks[y].ancestors && a.round > d.gcRound
        ensures a in committed
      {
        if y !in committed0 {
          var b :| b in done && b.Ref() == y;
          assert IsFound(w, d, leader, b);
        }
      }
    }
    forall r | Reaches(w.blocks, leader, r) && r.round > d.gcRound
      ensures r in committed
    {
      ClosedHoldsHistory(w, d.gcRound, committed, leader, r);
    }
    forall b | b in done
      ensures IsFound(w, d, leader, b)
    {
    }
  }

  lemma AncestorIsReached(w: World, y: BlockRef, a: BlockRef)
    requires w.Valid() && y in w.blocks && a in w.blocks[y].ancestors
    ensures Reaches(w.blocks, y, a)
  {
    assert y.round > 0 && WellFormed(w.committee, w.genesis, w.blocks[y]);
    StepReaches(w.blocks, y, a);
  }

  /** What is committed is closed. */
  lemma CommittedIsClosed(w: World, gcDepth: nat, leaders: seq<BlockRef>, committed: set<BlockRef>)
    requires w.Valid() && AreLeaders(w, leaders) && IsCommittedSet(w, gcDepth, leaders, committed)
    ensures IsClosed(w, GcBefore(leaders, gcDepth, |leaders|), committed)
  {
    hide World.Valid, AreLeaders, GcBefore;
    var gcRound := GcBefore(leaders, gcDepth, |leaders|);
    forall y, a | y in committed && y in w.blocks && a in w.blocks[y].ancestors && a.round > gcRound
      ensures a in committed
    {
      var k :| 0 <= k < |leaders| && Includes(w, gcDepth, leaders, k, y);
      GcBeforeIsMonotone(w, gcDepth, leaders, k, |leaders|);
      AncestorIsReached(w, y, a);
      IncludesHistory(w, gcDepth, leaders, k, y, a);
    }
  }

  /** A leader in a later round is not committed yet, and not garbage collected. */
  lemma LeaderIsNew(w: World, gcDepth: nat, leaders: seq<BlockRef>, leader: BlockRef)
    requires AreLeaders(w, leaders) && leader.round > (if leaders == [] then 0 else leaders[|leaders| - 1].round)
    ensures !IsCommittedBefore(w, gcDepth, leaders, |leaders|, leader)
    ensures leader.round > GcBefore(leaders, gcDepth, |leaders|)
  {
    if IsCommittedBefore(w, gcDepth, leaders, |leaders|, leader) {
      var k :| 0 <= k < |leaders| && Includes(w, gcDepth, leaders, k, leader);
      ReachesDescends(w.blocks, leaders[k], leader);
    }
  }

  lemma NextSubDag(w: World, gcDepth: nat, leaders: seq<BlockRef>, committed: set<BlockRef>, leader: BlockRef,
                   toCommit: set<BlockRef>)
    requires IsCommittedSet(w, gcDepth, leaders, committed)
    requires forall r :: r in toCommit <==>
               Reaches(w.blocks, leader, r) && r.round > GcBefore(leaders, gcDepth, |leaders|) && r !in committed
    ensures var leaders' := leaders + [leader];
            && (forall r :: r in toCommit <==> InSubDag(w, gcDepth, leaders', |leaders|, r))
            && IsCommittedSet(w, gcDepth, leaders', committed + toCommit)
  {
    hide Reaches;
    var n, leaders' := |leaders|, leaders + [leader];
    forall r
      ensures IsCommittedBefore(w, gcDepth, leaders', n, r) <==> r in committed
      ensures Includes(w, gcDepth, leaders', n, r) <==>
                Reaches(w.blocks, leader, r) && r.round > GcBefore(leaders, gcDepth, n)
      ensures IsCommittedBefore(w, gcDepth, leaders', n + 1, r) <==>
                r in committed || Includes(w, gcDepth, leaders', n, r)
    {
      CommittedBeforeIsStable(w, gcDepth, leaders, leader, n, r);
      CommittedBeforeStep(w, gcDepth, leaders', n, r);
    }
    hide IsCommittedBefore, Includes;
  }

  lemma CommittedIsBefore(w: World, gcDepth: nat, leaders: seq<BlockRef>, committed: set<BlockRef>, leader: BlockRef)
    requires IsCommittedSet(w, gcDepth, leaders, committed) && committed <= w.blocks.Keys
    ensures CommittedBefore(w, gcDepth, leaders + [leader], |leaders|) == committed
  {
    hide IsCommittedBefore;
    forall r
      ensures IsCommittedBefore(w, gcDepth, leaders + [leader], |leaders|, r) <==> r in committed
    {
      CommittedBeforeIsStable(w, gcDepth, leaders, leader, |leaders|, r);
    }
  }

  lemma RefsAreOfWorld(w: World, blocks: seq<Block>)
    requires forall b :: b in blocks ==> b.Ref() in w.blocks
    ensures Refs(blocks) <= w.blocks.Keys
  {
  }

  lemma IsCommittedSetAt(w: World, gcDepth: nat, leaders: seq<BlockRef>, committed: set<BlockRef>, r: BlockRef)
    requires IsCommittedSet(w, gcDepth, leaders, committed)
    ensures r in committed <==> IsCommittedBefore(w, gcDepth, leaders, |leaders|, r)
  {
    hide IsCommittedBefore;
  }

  lemma ReachesItself(w: World, r: BlockRef)
    ensures Reaches(w.blocks, r, r)
  {
  }

  lemma CommittedBeforeStep(w: World, gcDepth: nat, leaders: seq<BlockRef>, n: nat, r: BlockRef)
    requires n < |leaders|
    ensures IsCommittedBefore(w, gcDepth, leaders, n + 1, r)
       <==> IsCommittedBefore(w, gcDepth, leaders, n, r) || Includes(w, gcDepth, leaders, n, r)
  {
    hide Includes;
  }

  /** A further leader changes nothing about the leaders before it. */
  lemma CommittedBeforeIsStable(w: World, gcDepth: nat, leaders: seq<BlockRef>, leader: BlockRef, n: nat, r: BlockRef)
    requires n <= |leaders|
    ensures IsCommittedBefore(w, gcDepth, leaders + [leader], n, r) <==> IsCommittedBefore(w, gcDepth, leaders, n, r)
  {
    forall k | 0 <= k < n
      ensures Includes(w, gcDepth, leaders + [leader], k, r) <==> Includes(w, gcDepth, leaders, k, r)
    {
    }
    hide Includes;
  }

  lemma SubDagIsStable(w: World, gcDepth: nat, leaders: seq<BlockRef>, leader: BlockRef, k: nat,
                       commit: CommittedSubDag)
    requires k < |leaders| && IsSubDag(w, gcDepth, leaders, k, commit)
    ensures IsSubDag(w, gcDepth, leaders + [leader], k, commit)
  {
    forall r
      ensures InSubDag(w, gcDepth, leaders + [leader], k, r) <==> InSubDag(w, gcDepth, leaders, k, r)
    {
      CommittedBeforeIsStable(w, gcDepth, leaders, leader, k, r);
      hide Reaches;
    }
    forall r
      ensures IsCommittedBefore(w, gcDepth, leaders + [leader], k, r) <==> IsCommittedBefore(w, gcDepth, leaders, k, r)
    {
      CommittedBeforeIsStable(w, gcDepth, leaders, leader, k, r);
    }
    hide InSubDag, IsCommittedBefore, Traversal, SlotSorted;
    assert CommittedBefore(w, gcDepth, leaders + [leader], k) == CommittedBefore(w, gcDepth, leaders, k);
  }

  lemma ViewMovesOn(w: World, d: DagState, gcRound: Round)
    requires w.HasView(d) && gcRound >= d.gcRound
    ensures w.HasView(d.(gcRound := gcRound))
  {
  }

  // ----- order within a sub-dag

  predicate SortedBySlot(blocks: seq<Block>) {
    forall i, j :: 0 <= i < j < |blocks| ==> NotAfter(blocks[i], blocks[j])
  }

  /** By round, then by author. */
  predicate NotAfter(a: Block, b: Block) {
    a.round < b.round || (a.round == b.round && a.author <= b.author)
  }

  /** Insertion after everything that may stay before it. */
  function Inserted(sorted: seq<Block>, b: Block): seq<Block> {
    if sorted == [] || NotAfter(sorted[|sorted| - 1], b) then sorted + [b]
    else Inserted(sorted[..|sorted| - 1], b) + [sorted[|sorted| - 1]]
  }

  function SlotSorted(blocks: seq<Block>): seq<Block> {
    if blocks == [] then [] else Inserted(SlotSorted(blocks[..|blocks| - 1]), blocks[|blocks| - 1])
  }

  function AtSlot(blocks: seq<Block>, slot: Slot): seq<Block> {
    if blocks == [] then []
    else
      var n := |blocks| - 1;
      AtSlot(blocks[..n], slot) + if SlotAt(blocks[n].round, blocks[n].author) == slot then [blocks[n]] else []
  }

  lemma AtSlotNext(blocks: seq<Block>, b: Block, slot: Slot)
    ensures AtSlot(blocks + [b], slot) == AtSlot(blocks, slot) + if SlotAt(b.round, b.author) == slot then [b] else []
  {
    assert (blocks + [b])[..|blocks|] == blocks;
  }

  /** Sorting is stable: blocks of one slot stay in the order in which they come. */
  lemma {:induction false} SlotOrderIsKept(blocks: seq<Block>, slot: Slot)
    ensures AtSlot(SlotSorted(blocks), slot) == AtSlot(blocks, slot)
  {
    if blocks == [] {
    } else {
      var n := |blocks| - 1;
      SlotOrderIsKept(blocks[..n], slot);
      InsertedAtSlot(SlotSorted(blocks[..n]), blocks[n], slot);
    }
  }

  lemma {:induction false} InsertedAtSlot(sorted: seq<Block>, b: Block, slot: Slot)
    ensures AtSlot(Inserted(sorted, b), slot)
         == AtSlot(sorted, slot) + if SlotAt(b.round, b.author) == slot then [b] else []
  {
    if sorted == [] || NotAfter(sorted[|sorted| - 1], b) {
      AtSlotNext(sorted, b, slot);
    } else {
      var n := |sorted| - 1;
      InsertedAtSlot(sorted[..n], b, slot);
      AtSlotNext(Inserted(sorted[..n], b), sorted[n], slot);
    }
  }

  method SortBySlot(blocks: seq<Block>) returns (sorted: seq<Block>)
    ensures sorted == SlotSorted(blocks)
    ensures multiset(sorted) == multiset(blocks) && SortedBySlot(sorted)
  {
    hide NotAfter, Inserted;
    sorted := [];
    assert blocks[..0] == [];
    for n := 0 to |blocks|
      invariant sorted == SlotSorted(blocks[..n])
      invariant multiset(sorted) == multiset(blocks[..n]) && SortedBySlot(sorted)
    {
      assert blocks[..n + 1] == blocks[..n] + [blocks[n]];
      assert blocks[..n + 1][..n] == blocks[..n];
      sorted := InsertBySlot(sorted, blocks[n]);
    }
    assert blocks[..|blocks|] == blocks;
  }

  lemma {:induction false} InsertedAt(sorted: seq<Block>, b: Block, k: nat)
    requires k <= |sorted| && (k > 0 ==> NotAfter(sorted[k - 1], b))
    requires forall i :: k <= i < |sorted| ==> !NotAfter(sorted[i], b)
    ensures Inserted(sorted, b) == sorted[..k] + [b] + sorted[k..]
  {
    hide NotAfter;
    if k == |sorted| {
      assert sorted[..k] == sorted;
    } else {
      var n := |sorted| - 1;
      InsertedAt(sorted[..n], b, k);
      assert sorted[..n][..k] == sorted[..k] && sorted[..n][k..] + [sorted[n]] == sorted[k..];
    }
  }

  method InsertBySlot(sorted: seq<Block>, b: Block) returns (sorted': seq<Block>)
    requires SortedBySlot(sorted)
    ensures sorted' == Inserted(sorted, b)
    ensures multiset(sorted') == multiset(sorted) + multiset{b} && SortedBySlot(sorted')
  {
    hide Inserted;
    var k := |sorted|;
    while k > 0 && !NotAfter(sorted[k - 1], b)
      invariant 0 <= k <= |sorted|
      invariant forall i :: k <= i < |sorted| ==> !NotAfter(sorted[i], b)
    {
      k := k - 1;
    }
    sorted' := sorted[..k] + [b] + sorted[k..];
    InsertedAt(sorted, b, k);
    InsertKeepsSlotOrder(sorted, b, k);
    hide SortedBySlot;
    assert sorted == sorted[..k] + sorted[k..];
  }

  lemma InsertKeepsSlotOrder(sorted: seq<Block>, b: Block, k: nat)
    requires SortedBySlot(sorted) && k <= |sorted|
    requires forall i :: k <= i < |sorted| ==> NotAfter(b, sorted[i])
    requires k > 0 ==> NotAfter(sorted[k - 1], b)
    ensures SortedBySlot(sorted[..k] + [b] + sorted[k..])
  {
    forall i | 0 <= i < k
      ensures NotAfter(sorted[i], b)
    {
      assert i < k - 1 ==> NotAfter(sorted[i], sorted[k - 1]);
    }
    hide NotAfter;
  }
}
