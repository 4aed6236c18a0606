/** When accepted blocks come in ascending rounds and when they do not. */
module AcceptanceOrder {
  import opened Committees
  import opened FourAuthorities
  import opened Blocks
  import opened BlockVerifier
  import opened BlockIndex
  import opened BlockManagers

  // ----- a turn completes a block that is above a block of a later turn

  lemma {:induction false} FlattenIsPrefix(turns: seq<seq<Block>>, i: nat)
    requires i <= |turns|
    ensures Flatten(turns[..i]) <= Flatten(turns)
  {
    if i == |turns| {
      assert turns[..i] == turns;
    } else {
      var n := |turns| - 1;
      FlattenIsPrefix(turns[..n], i);
      assert turns[..n][..i] == turns[..i];
    }
  }

  lemma IndexOf(blocks: seq<Block>, r: BlockRef) returns (i: nat)
    requires r in Refs(blocks)
    ensures i < |blocks| && blocks[i].Ref() == r
  {
    var b :| b in blocks && b.Ref() == r;
    i :| 0 <= i < |blocks| && blocks[i] == b;
  }

  /** The order fails whenever some turn makes a block acceptable that is above one which only a later turn makes
      acceptable. */
  lemma TurnsOutOfOrder(genesis: set<BlockRef>, received: map<BlockRef, Block>, gcRound: Round,
                        dag: map<BlockRef, Block>, sorted: seq<Block>, turns: seq<seq<Block>>,
                        received': map<BlockRef, Block>, i: nat, x: BlockRef, y: BlockRef)
    requires InTurns(genesis, received, gcRound, dag, sorted, turns, |sorted|, received') && i <= |sorted|
    requires gcRound < y.round < x.round && x !in dag
    requires Acceptable(genesis, AddAll(received, sorted[..i]), gcRound, x)
    requires !Acceptable(genesis, AddAll(received, sorted[..i]), gcRound, y)
    requires Acceptable(genesis, received', gcRound, y)
    ensures !SortedByRound(Flatten(turns))
  {
    var early, all := Flatten(turns[..i]), Flatten(turns);
    assert HoldsClosure(genesis, AddAll(received, sorted[..i]), gcRound, AddAll(dag, early));
    assert HoldsClosure(genesis, AddAll(received, sorted[..|sorted|]), gcRound,
                        AddAll(dag, Flatten(turns[..|sorted|])));
    assert turns[..|sorted|] == turns;
    hide Acceptable, AddAll, InTurns, Flatten;
    AddAllKeys(dag, early);
    AddAllKeys(dag, all);
    FlattenIsPrefix(turns, i);
    assert x in AddAll(dag, early) && y !in AddAll(dag, early) && y in AddAll(dag, all);
    EarlierAndHigher(early, all, x, y);
  }

  lemma EarlierAndHigher(early: seq<Block>, all: seq<Block>, x: BlockRef, y: BlockRef)
    requires early <= all && x in Refs(early) && y in Refs(all) && y !in Refs(early) && y.round < x.round
    ensures !SortedByRound(all)
  {
    var k := IndexOf(early, x);
    var l := IndexOf(all, y);
    assert forall n :: 0 <= n < |early| ==> early[n] in early && all[n] == early[n];
    assert all[k].round == x.round && all[l].round == y.round;
  }

  // ----- the same in terms of what waits

  /** Nothing is known of the block yet, and all its history above the garbage collection round is accepted. */
  ghost predicate IsReady(genesis: set<BlockRef>, gcRound: Round, dag: map<BlockRef, Block>, suspended: Suspensions,
                          b: Block)
  {
    && b.round > gcRound && b.Ref() !in dag && b.Ref() !in suspended
    && Unaccepted(genesis + dag.Keys, gcRound, b.ancestors) == {}
  }

  lemma {:induction false} AcceptableIsMonotone(genesis: set<BlockRef>, received: map<BlockRef, Block>,
                                                received': map<BlockRef, Block>, gcRound: Round, r: BlockRef)
    requires forall k :: k in received ==> k in received' && received'[k] == received[k]
    requires Acceptable(genesis, received, gcRound, r)
    ensures Acceptable(genesis, received', gcRound, r)
    decreases r.round
  {
    forall a | a in received[r].ancestors && a.round > gcRound && a !in genesis
      ensures a.round < r.round && Acceptable(genesis, received', gcRound, a)
    {
      AcceptableIsMonotone(genesis, received, received', gcRound, a);
    }
  }

  /** Receiving blocks one by one. */
  lemma {:induction false} AddAllReceives(genesis: set<BlockRef>, received: map<BlockRef, Block>, blocks: seq<Block>)
    requires CanReceive(genesis, received, blocks)
    ensures Receives(received, blocks, AddAll(received, blocks))
  {
    if blocks == [] {
      assert Refs(blocks) == {};
    } else {
      var n := |blocks| - 1;
      AddAllReceives(genesis, received, blocks[..n]);
      CanReceiveNext(genesis, received, blocks, blocks, n, AddAll(received, blocks[..n]));
      ReceivesNext(received, blocks, n, AddAll(received, blocks[..n]), AddAll(received, blocks));
      assert blocks[..n + 1] == blocks;
    }
  }

  /** A block whose history is accepted is acceptable as soon as it is received. */
  lemma ReadyIsAcceptable(genesis: set<BlockRef>, received: map<BlockRef, Block>, gcRound: Round,
                          dag: map<BlockRef, Block>, suspended: Suspensions, waiting: Waiting,
                          received': map<BlockRef, Block>, b: Block)
    requires Settled(genesis, received, gcRound, dag, suspended, waiting) && IsVerified(genesis, b)
    requires forall k :: k in received ==> k in received' && received'[k] == received[k]
    requires b.Ref() in received' && received'[b.Ref()] == b && b.round > gcRound
    requires forall a :: a in b.ancestors && a.round > gcRound && a !in genesis + dag.Keys ==>
               Acceptable(genesis, received', gcRound, a)
    ensures Acceptable(genesis, received', gcRound, b.Ref())
  {
    hide Settled;
    forall a | a in b.ancestors && a.round > gcRound && a !in genesis
      ensures a.round < b.round && Acceptable(genesis, received', gcRound, a)
    {
      if a in dag {
        AcceptedIsClosure(genesis, received, gcRound, dag, suspended, waiting, a);
        AcceptableIsMonotone(genesis, received, received', gcRound, a);
      }
    }
  }

  /** The order fails whenever a block waits only for one block of the batch and overtakes another one: all three rounds
      differ, and the other one is in between. */
  lemma WaitingOvertakes(genesis: set<BlockRef>, received: map<BlockRef, Block>, gcRound: Round,
                         dag: map<BlockRef, Block>, suspended: Suspensions, waiting: Waiting, blocks: seq<Block>,
                         accepted: seq<Block>, a: Block, b: Block, x: BlockRef)
    requires Settled(genesis, received, gcRound, dag, suspended, waiting) && CanReceive(genesis, received, blocks)
    requires IsAcceptedInTurns(genesis, received, gcRound, dag, blocks, accepted)
    requires a in blocks && b in blocks && a.round < b.round < x.round
    requires IsReady(genesis, gcRound, dag, suspended, a) && IsReady(genesis, gcRound, dag, suspended, b)
    requires x in suspended && suspended[x].missing == {a.Ref()}
    ensures !SortedByRound(accepted)
  {
    hide Settled, InTurns, CanReceive, IsReady, Acceptable, AddAll, Unaccepted, Flatten;
    var sorted, turns :|
      && multiset(sorted) == multiset(blocks) && SortedByRound(sorted) && accepted == Flatten(turns)
      && InTurns(genesis, received, gcRound, dag, sorted, turns, |sorted|, AddAll(received, sorted));
    SameRefs(blocks, sorted);
    var k :| 0 <= k < |sorted| && sorted[k] == a;
    var i := k + 1;
    BeforeAndAfter(genesis, received, gcRound, dag, suspended, waiting, blocks, sorted, i, a, b, x);
    TurnsOutOfOrder(genesis, received, gcRound, dag, sorted, turns, AddAll(received, sorted), i, x, b.Ref());
  }

  /** With the one block the waiting one is acceptable, and with the whole batch the other one, but not before. */
  lemma BeforeAndAfter(genesis: set<BlockRef>, received: map<BlockRef, Block>, gcRound: Round,
                       dag: map<BlockRef, Block>, suspended: Suspensions, waiting: Waiting, blocks: seq<Block>,
                       sorted: seq<Block>, i: nat, a: Block, b: Block, x: BlockRef)
    requires Settled(genesis, received, gcRound, dag, suspended, waiting) && CanReceive(genesis, received, blocks)
    requires multiset(sorted) == multiset(blocks) && SortedByRound(sorted) && 0 < i <= |sorted| && sorted[i - 1] == a
    requires b in sorted && a.round < b.round < x.round
    requires IsReady(genesis, gcRound, dag, suspended, a) && IsReady(genesis, gcRound, dag, suspended, b)
    requires x in suspended && suspended[x].missing == {a.Ref()}
    ensures gcRound < b.round && x !in dag && Acceptable(genesis, AddAll(received, sorted[..i]), gcRound, x)
    ensures !Acceptable(genesis, AddAll(received, sorted[..i]), gcRound, b.Ref())
    ensures Acceptable(genesis, AddAll(received, sorted), gcRound, b.Ref())
  {
    hide Settled, CanReceive, AddAll, Unaccepted, SortedByRound, Receives, IsVerified;
    WaiterFacts(genesis, received, gcRound, dag, suspended, waiting, x, a.Ref(), b.Ref());
    ReceivedParts(genesis, received, blocks, sorted, i, a, b);
    HistoryIsAccepted(genesis, gcRound, dag, a);
    HistoryIsAccepted(genesis, gcRound, dag, b);
    hide IsReady;
    var early, all := AddAll(received, sorted[..i]), AddAll(received, sorted);
    ReadyIsAcceptable(genesis, received, gcRound, dag, suspended, waiting, early, a);
    ReadyIsAcceptable(genesis, received, gcRound, dag, suspended, waiting, early, suspended[x].block);
    ReadyIsAcceptable(genesis, received, gcRound, dag, suspended, waiting, all, b);
  }

  /** What has been received after the turn of the one block, and after all turns. */
  lemma ReceivedParts(genesis: set<BlockRef>, received: map<BlockRef, Block>, blocks: seq<Block>, sorted: seq<Block>,
                      i: nat, a: Block, b: Block)
    requires CanReceive(genesis, received, blocks) && multiset(sorted) == multiset(blocks) && SortedByRound(sorted)
    requires 0 < i <= |sorted| && sorted[i - 1] == a && b in sorted && a.round < b.round && b.Ref() !in received
    ensures IsVerified(genesis, a) && IsVerified(genesis, b)
    ensures var early, all := AddAll(received, sorted[..i]), AddAll(received, sorted);
            && (forall k :: k in received ==>
                  k in early && early[k] == received[k] && k in all && all[k] == received[k])
            && a.Ref() in early && early[a.Ref()] == a && b.Ref() !in early && b.Ref() in all && all[b.Ref()] == b
  {
    hide AddAll, IsVerified;
    CanReceivePart(genesis, received, blocks, sorted, i);
    CanReceivePart(genesis, received, blocks, sorted, |sorted|);
    assert sorted[..|sorted|] == sorted;
    AddAllReceives(genesis, received, sorted[..i]);
    AddAllReceives(genesis, received, sorted);
    assert sorted[..i][i - 1] == a && a in sorted[..i] && a in sorted;
    LaterIsNotIn(sorted, i, a, b);
  }

  lemma CanReceivePart(genesis: set<BlockRef>, received: map<BlockRef, Block>, blocks: seq<Block>, sorted: seq<Block>,
                       i: nat)
    requires CanReceive(genesis, received, blocks) && multiset(sorted) == multiset(blocks) && i <= |sorted|
    ensures CanReceive(genesis, received, sorted[..i])
    ensures forall b :: b in sorted ==> IsVerified(genesis, b)
  {
    SameRefs(blocks, sorted);
    assert forall b :: b in sorted[..i] ==> b in sorted;
  }

  lemma HistoryIsAccepted(genesis: set<BlockRef>, gcRound: Round, dag: map<BlockRef, Block>, b: Block)
    requires Unaccepted(genesis + dag.Keys, gcRound, b.ancestors) == {}
    ensures forall a :: a in b.ancestors && a.round > gcRound ==> a in genesis + dag.Keys
  {
    forall a | a in b.ancestors && a.round > gcRound
      ensures a in genesis + dag.Keys
    {
      assert a !in Unaccepted(genesis + dag.Keys, gcRound, b.ancestors);
    }
  }

  lemma WaiterFacts(genesis: set<BlockRef>, received: map<BlockRef, Block>, gcRound: Round, dag: map<BlockRef, Block>,
                    suspended: Suspensions, waiting: Waiting, x: BlockRef, a: BlockRef, b: BlockRef)
    requires Settled(genesis, received, gcRound, dag, suspended, waiting)
    requires x in suspended && suspended[x].missing == {a} && b !in dag && b !in suspended && b.round > gcRound
    ensures x !in dag && b !in received
    ensures x in received && received[x] == suspended[x].block && suspended[x].block.Ref() == x
    ensures IsVerified(genesis, suspended[x].block)
    ensures forall r :: r in suspended[x].block.ancestors && r.round > gcRound && r !in genesis + dag.Keys ==> r == a
  {
    assert WaitsExactly(genesis + dag.Keys, gcRound, suspended[x]);
  }

  lemma SuspensionFacts(genesis: set<BlockRef>, received: map<BlockRef, Block>, gcRound: Round,
                        dag: map<BlockRef, Block>, suspended: Suspensions, waiting: Waiting, x: BlockRef)
    requires Settled(genesis, received, gcRound, dag, suspended, waiting) && x in suspended
    ensures x in received && suspended[x].block == received[x]
    ensures forall a :: a in suspended[x].missing ==>
              a in received[x].ancestors && a !in genesis && a !in dag && a in waiting
    ensures forall a :: a in received[x].ancestors && a.round > gcRound && a !in genesis && a !in dag ==>
              a in suspended[x].missing
  {
    hide ClosedAt, DagIsVerified, IsGenesis, IsVerified;
    assert WaitsExactly(genesis + dag.Keys, gcRound, suspended[x]);
  }

  lemma LaterIsNotIn(sorted: seq<Block>, i: nat, a: Block, b: Block)
    requires SortedByRound(sorted) && 0 < i <= |sorted| && sorted[i - 1] == a && a.round < b.round
    ensures b.Ref() !in Refs(sorted[..i])
  {
    forall c | c in sorted[..i]
      ensures c.Ref() != b.Ref()
    {
      var k :| 0 <= k < i && sorted[..i][k] == c;
      assert k == i - 1 || sorted[k].round <= sorted[i - 1].round;
    }
  }

  // ----- an instance with verified blocks

  const Genesis := {BlockRef(0, 0, 0), BlockRef(0, 1, 0), BlockRef(0, 2, 0), BlockRef(0, 3, 0)}

  function BlockOver(round: Round, author: Authority, ancestors: seq<BlockRef>): Block {
    Block(round, author, 0, ancestors, 0, [], [])
  }

  function RefAt(round: Round, author: Authority): BlockRef {
    BlockRef(round, author, 0)
  }

  /** Links to the blocks of authorities 1 to 3 in the round below, the own one first. */
  function Among(round: Round, author: Authority): Block
    requires round > 0
  {
    BlockOver(round, author,
              if author == 1 then [RefAt(round - 1, 1), RefAt(round - 1, 2), RefAt(round - 1, 3)]
              else if author == 2 then [RefAt(round - 1, 2), RefAt(round - 1, 1), RefAt(round - 1, 3)]
              else [RefAt(round - 1, 3), RefAt(round - 1, 1), RefAt(round - 1, 2)])
  }

  /** The block that is held back, one of the next round that does not need it, and one of the third round that does. */
  const Held := BlockOver(1, 0, [RefAt(0, 0), RefAt(0, 1), RefAt(0, 2)])
  const Other := BlockOver(2, 0, [RefAt(0, 0), RefAt(1, 1), RefAt(1, 2), RefAt(1, 3)])
  const Waiter := BlockOver(3, 1, [RefAt(2, 1), RefAt(2, 2), RefAt(2, 3), RefAt(1, 0)])

  function Earlier(): seq<Block> {
    [Among(1, 1), Among(1, 2), Among(1, 3), Among(2, 1), Among(2, 2), Among(2, 3), Waiter]
  }

  /** Three parents are enough. */
  lemma HasParents(b: Block, i: nat, j: nat, k: nat)
    requires i < |b.ancestors| && j < |b.ancestors| && k < |b.ancestors| && b.round > 0
    requires b.ancestors[i].round == b.ancestors[j].round == b.ancestors[k].round == b.round - 1
    requires b.ancestors[i].author < b.ancestors[j].author < b.ancestors[k].author < 4
    ensures Four.IsQuorum(ParentAuthors(b))
  {
    hide Committee.IsQuorum;
    assert b.ancestors[i] in b.ancestors && b.ancestors[j] in b.ancestors && b.ancestors[k] in b.ancestors;
    QuorumIsThree(ParentAuthors(b));
  }

  lemma AmongIsVerified(round: Round, author: Authority)
    requires 1 <= round && 1 <= author <= 3
    ensures WellFormed(Four, Genesis, Among(round, author))
  {
    hide Committee.IsQuorum, ParentAuthors;
    if author == 1 {
      HasParents(Among(round, author), 0, 1, 2);
    } else if author == 2 {
      HasParents(Among(round, author), 1, 0, 2);
    } else {
      HasParents(Among(round, author), 1, 2, 0);
    }
  }

  lemma HeldIsVerified()
    ensures WellFormed(Four, Genesis, Held)
  {
    hide Committee.IsQuorum, ParentAuthors;
    HasParents(Held, 0, 1, 2);
  }

  lemma OtherIsVerified()
    ensures WellFormed(Four, Genesis, Other)
  {
    hide Committee.IsQuorum, ParentAuthors;
    HasParents(Other, 1, 2, 3);
  }

  lemma WaiterIsVerified()
    ensures WellFormed(Four, Genesis, Waiter)
  {
    hide Committee.IsQuorum, ParentAuthors;
    HasParents(Waiter, 0, 1, 2);
  }

  ghost predicate IsEarlier(b: Block) {
    b == Waiter || (1 <= b.round <= 2 && 1 <= b.author <= 3 && b == Among(b.round, b.author))
  }

  lemma EarlierAre(b: Block)
    ensures b in Earlier() <==> IsEarlier(b)
    ensures IsEarlier(b) ==> b.Ref() == RefAt(b.round, b.author) && b.Ref() != Held.Ref() && b.Ref() != Other.Ref()
  {
  }

  /** Every block of the instance passes verification. */
  lemma InstanceIsVerified(b: Block)
    requires b in Earlier() + [Held, Other]
    ensures WellFormed(Four, Genesis, b)
  {
    hide WellFormed;
    EarlierAre(b);
    HeldIsVerified();
    OtherIsVerified();
    WaiterIsVerified();
    hide Earlier;
    if b in Earlier() && b != Waiter {
      AmongIsVerified(b.round, b.author);
    }
  }

  lemma VerifiedForManager(b: Block)
    requires b in Earlier() + [Held, Other]
    ensures IsVerified(Genesis, b)
  {
    hide Earlier;
    InstanceIsVerified(b);
  }

  lemma SameRefSameBlock(b: Block, c: Block)
    requires IsEarlier(b) && IsEarlier(c) && b.Ref() == c.Ref()
    ensures b == c
  {
  }

  lemma CanReceiveEarlier()
    ensures CanReceive(Genesis, map[], Earlier())
  {
    hide Earlier, IsVerified, IsEarlier;
    forall b | b in Earlier()
      ensures IsVerified(Genesis, b)
    {
      VerifiedForManager(b);
    }
    forall b, c | b in Earlier() && c in Earlier() && b.Ref() == c.Ref()
      ensures b == c
    {
      EarlierAre(b);
      EarlierAre(c);
      SameRefSameBlock(b, c);
    }
  }

  lemma CanReceiveBatch(received: map<BlockRef, Block>, batch: seq<Block>)
    requires Receives(map[], Earlier(), received) && (batch == [Held, Other] || batch == [Held])
    ensures CanReceive(Genesis, received, batch)
  {
    hide Earlier, IsVerified, IsEarlier, Receives, Among;
    NotEarlier(received);
    VerifiedForManager(Held);
    VerifiedForManager(Other);
    DifferentRefs();
    hide Block.Ref;
  }

  lemma DifferentRefs()
    ensures Held.Ref() != Other.Ref()
  {
  }

  lemma NotEarlier(received: map<BlockRef, Block>)
    requires Receives(map[], Earlier(), received)
    ensures Held.Ref() !in received && Other.Ref() !in received && Waiter.Ref() in received
    ensures received[Waiter.Ref()] == Waiter
    ensures forall r :: r in received ==> IsEarlier(received[r]) && received[r].Ref() == r
    ensures forall r: Round, a: Authority :: 1 <= r <= 2 && 1 <= a <= 3 ==>
              RefAt(r, a) in received && received[RefAt(r, a)] == Among(r, a)
  {
    hide Earlier, IsEarlier, Among;
    forall r | r in received
      ensures IsEarlier(received[r]) && received[r].Ref() == r && r != Held.Ref() && r != Other.Ref()
    {
      var b :| b in Earlier() && b.Ref() == r;
      EarlierAre(b);
    }
    forall r: Round, a: Authority | 1 <= r <= 2 && 1 <= a <= 3
      ensures RefAt(r, a) in received && received[RefAt(r, a)] == Among(r, a)
    {
      AmongIsEarlier(r, a);
    }
    WaiterIsEarlier();
  }

  lemma AmongIsEarlier(round: Round, author: Authority)
    requires 1 <= round <= 2 && 1 <= author <= 3
    ensures Among(round, author) in Earlier() && Among(round, author).Ref() == RefAt(round, author)
  {
    EarlierAre(Among(round, author));
  }

  lemma WaiterIsEarlier()
    ensures Waiter in Earlier()
  {
    EarlierAre(Waiter);
  }

  lemma AmongIsAcceptable(received: map<BlockRef, Block>, round: Round, author: Authority)
    requires 1 <= round <= 2 && 1 <= author <= 3
    requires forall r: Round, a: Authority :: 1 <= r <= 2 && 1 <= a <= 3 ==>
               RefAt(r, a) in received && received[RefAt(r, a)] == Among(r, a)
    ensures Acceptable(Genesis, received, 0, RefAt(round, author))
  {
    if round == 2 {
      AmongIsAcceptable(received, 1, 1);
      AmongIsAcceptable(received, 1, 2);
      AmongIsAcceptable(received, 1, 3);
    }
  }

  /** The manager holds back the block of the third round until the held one arrives. */
  ghost predicate HoldsBack(m: BlockManager)
    reads m
  {
    && m.Valid() && m.ClosedAbove(0) && m.genesis == Genesis && m.gcRound == 0
    && Receives(map[], Earlier(), m.received)
  }

  /** What that state is. */
  lemma {:induction false} HeldBack(m: BlockManager)
    requires HoldsBack(m)
    ensures Settled(Genesis, m.received, 0, m.dag, m.suspended, m.waiting)
    ensures Waiter.Ref() in m.suspended && m.suspended[Waiter.Ref()].missing == {Held.Ref()} && Held.Ref() in m.waiting
    ensures IsReady(Genesis, 0, m.dag, m.suspended, Held) && IsReady(Genesis, 0, m.dag, m.suspended, Other)
  {
    hide Receives, Earlier, Acceptable;
    IsSettled(m);
    hide BlockManager.Valid, BlockManager.ClosedAbove;
    StateIs(m.received, m.dag, m.suspended, m.waiting);
  }

  lemma StateIs(received: map<BlockRef, Block>, dag: map<BlockRef, Block>, suspended: Suspensions, waiting: Waiting)
    requires Settled(Genesis, received, 0, dag, suspended, waiting) && Receives(map[], Earlier(), received)
    ensures Waiter.Ref() in suspended && suspended[Waiter.Ref()].missing == {Held.Ref()} && Held.Ref() in waiting
    ensures IsReady(Genesis, 0, dag, suspended, Held) && IsReady(Genesis, 0, dag, suspended, Other)
  {
    hide Settled, Receives, Among, Earlier, IsEarlier;
    NotEarlier(received);
    forall r: Round, a: Authority | 1 <= r <= 2 && 1 <= a <= 3
      ensures RefAt(r, a) in dag
    {
      AmongIsAcceptable(received, r, a);
      AcceptedIsClosure(Genesis, received, 0, dag, suspended, waiting, RefAt(r, a));
    }
    assert RefAt(1, 0) in Waiter.ancestors;
    assert !Acceptable(Genesis, received, 0, Waiter.Ref());
    AcceptedIsClosure(Genesis, received, 0, dag, suspended, waiting, Waiter.Ref());
    AcceptedIsClosure(Genesis, received, 0, dag, suspended, waiting, Held.Ref());
    AcceptedIsClosure(Genesis, received, 0, dag, suspended, waiting, Other.Ref());
    hide Acceptable;
    WaitsForHeld(received, dag, suspended, waiting);
  }

  lemma WaiterAncestors()
    ensures forall a :: a in Waiter.ancestors <==> a in {RefAt(2, 1), RefAt(2, 2), RefAt(2, 3), RefAt(1, 0)}
    ensures RefAt(1, 0).round > 0 && RefAt(1, 0) !in Genesis
  {
  }

  lemma WaitsForHeld(received: map<BlockRef, Block>, dag: map<BlockRef, Block>, suspended: Suspensions,
                     waiting: Waiting)
    requires Settled(Genesis, received, 0, dag, suspended, waiting)
    requires Waiter.Ref() in suspended && Waiter.Ref() in received && received[Waiter.Ref()] == Waiter
    requires RefAt(1, 0) !in dag
    requires RefAt(2, 1) in dag && RefAt(2, 2) in dag && RefAt(2, 3) in dag
    ensures suspended[Waiter.Ref()].missing == {RefAt(1, 0)} && RefAt(1, 0) in waiting
  {
    hide Settled, WaitsExactly;
    SuspensionFacts(Genesis, received, 0, dag, suspended, waiting, Waiter.Ref());
    WaiterAncestors();
    hide *;
    var missing := suspended[Waiter.Ref()].missing;
    assert RefAt(1, 0) in missing;
  }

  method Suspend() returns (m: BlockManager)
    ensures fresh(m) && HoldsBack(m)
  {
    hide BlockManager.Valid, BlockManager.ClosedAbove, CanReceive, Receives, Earlier, IsAcceptedInTurns, AddAll,
         CausallyOrdered, DistinctRefs, Refs, SortedByRound, NoneIsAwaited;
    CanReceiveEarlier();
    m := new BlockManager(Genesis);
    var accepted, missing := m.TryAcceptBlocks(Earlier());
  }

  /** What has come in is acceptable now. */
  lemma {:induction false} BatchIsAcceptable(received: map<BlockRef, Block>, dag: map<BlockRef, Block>,
                                             suspended: Suspensions, waiting: Waiting, batch: seq<Block>,
                                             received': map<BlockRef, Block>)
    requires Settled(Genesis, received, 0, dag, suspended, waiting) && Receives(map[], Earlier(), received)
    requires CanReceive(Genesis, received, batch) && Receives(received, batch, received') && Held in batch
    ensures Acceptable(Genesis, received', 0, Held.Ref()) && Acceptable(Genesis, received', 0, Waiter.Ref())
    ensures Other in batch ==> Acceptable(Genesis, received', 0, Other.Ref())
    ensures Waiter.Ref() !in dag && Held.Ref() !in dag && Other.Ref() !in dag
  {
    hide Settled, Earlier, Acceptable, AddAll, Unaccepted, IsEarlier, Among;
    NotEarlier(received);
    StateIs(received, dag, suspended, waiting);
    WaiterFacts(Genesis, received, 0, dag, suspended, waiting, Waiter.Ref(), Held.Ref(), Other.Ref());
    HistoryIsAccepted(Genesis, 0, dag, Held);
    HistoryIsAccepted(Genesis, 0, dag, Other);
    ReadyIsAcceptable(Genesis, received, 0, dag, suspended, waiting, received', Held);
    ReadyIsAcceptable(Genesis, received, 0, dag, suspended, waiting, received', Waiter);
    if Other in batch {
      ReadyIsAcceptable(Genesis, received, 0, dag, suspended, waiting, received', Other);
    }
  }

  lemma {:induction false} AcceptedAre(m: BlockManager, dag: map<BlockRef, Block>, accepted: seq<Block>, r: BlockRef)
    requires m.Valid() && m.ClosedAbove(m.gcRound) && m.dag == AddAll(dag, accepted) && r !in dag && r.round > m.gcRound
    requires Acceptable(m.genesis, m.received, m.gcRound, r)
    ensures r in Refs(accepted)
  {
    hide BlockManager.Valid, BlockManager.ClosedAbove, Acceptable, AddAll;
    ManagerHoldsClosure(m, r);
    AddAllKeys(dag, accepted);
  }

  /** The documented order fails: the batch brings rounds 1 and 2, and the block of round 3 comes before that of
      round 2. */
  method RoundsNeedNotAscend(m: BlockManager) returns (accepted: seq<Block>)
    requires HoldsBack(m)
    modifies m
    ensures m.Valid() && Receives(old(m.received), [Held, Other], m.received)
    ensures Held.Ref() in Refs(accepted) && Other.Ref() in Refs(accepted) && Waiter.Ref() in Refs(accepted)
    ensures !SortedByRound(accepted)
  {
    hide BlockManager.Valid, BlockManager.ClosedAbove, CanReceive, Receives, Earlier, IsAcceptedInTurns, AddAll,
         CausallyOrdered, DistinctRefs, Refs, SortedByRound, NoneIsAwaited, Settled, IsReady, Acceptable;
    HeldBack(m);
    ghost var batch, dag, suspended, waiting := [Held, Other], m.dag, m.suspended, m.waiting;
    CanReceiveBatch(m.received, batch);
    var missing;
    accepted, missing := m.TryAcceptBlocks([Held, Other]);
    BatchIsAcceptable(old(m.received), dag, suspended, waiting, batch, m.received);
    AcceptedAre(m, dag, accepted, Held.Ref());
    AcceptedAre(m, dag, accepted, Other.Ref());
    AcceptedAre(m, dag, accepted, Waiter.Ref());
    WaitingOvertakes(Genesis, old(m.received), 0, dag, suspended, waiting, batch, accepted, Held, Other, Waiter.Ref());
  }

  lemma {:induction false} AcceptedAreReceived(m: BlockManager, dag: map<BlockRef, Block>, accepted: seq<Block>)
    requires m.Valid() && m.dag == AddAll(dag, accepted) && DistinctRefs(accepted)
    ensures forall b :: b in accepted ==> b.Ref() in m.received && m.received[b.Ref()] == b
  {
    hide Consistent, DagIsVerified, AddAll;
    AddAllContents(dag, accepted);
  }

  lemma SixAreAccepted(received: map<BlockRef, Block>, dag: map<BlockRef, Block>, suspended: Suspensions,
                       waiting: Waiting)
    requires Settled(Genesis, received, 0, dag, suspended, waiting) && Receives(map[], Earlier(), received)
    ensures forall r: Round, a: Authority :: 1 <= r <= 2 && 1 <= a <= 3 ==> RefAt(r, a) in dag
  {
    hide Settled, Receives, Among, Earlier, IsEarlier, Acceptable;
    NotEarlier(received);
    forall r: Round, a: Authority | 1 <= r <= 2 && 1 <= a <= 3
      ensures RefAt(r, a) in dag
    {
      AmongIsAcceptable(received, r, a);
      AcceptedIsClosure(Genesis, received, 0, dag, suspended, waiting, RefAt(r, a));
    }
  }

  lemma HeldThenWaiter(received: map<BlockRef, Block>, received': map<BlockRef, Block>, dag: map<BlockRef, Block>,
                       accepted: seq<Block>)
    requires Receives(map[], Earlier(), received) && Receives(received, [Held], received')
    requires forall b :: b in accepted ==> b.Ref() in received' && received'[b.Ref()] == b
    requires DistinctRefs(accepted) && Refs(accepted) !! Genesis + dag.Keys && Held.Ref() !in Genesis + dag.Keys
    requires forall r: Round, a: Authority :: 1 <= r <= 2 && 1 <= a <= 3 ==> RefAt(r, a) in dag
    requires CausallyOrdered(Genesis + dag.Keys, 0, accepted)
    ensures SortedByRound(accepted)
  {
    hide Earlier, Among, Receives;
    forall b | b in accepted
      ensures b == Held || b == Waiter
    {
      OneOfTwo(received, received', b);
      assert b.Ref() in Refs(accepted);
    }
    hide IsEarlier;
    forall i, j | 0 <= i < j < |accepted|
      ensures accepted[i].round <= accepted[j].round
    {
      assert accepted[i] in accepted && accepted[j] in accepted;
      if accepted[i] == Waiter {
        HeldComesFirst(dag, accepted, i);
        var k := IndexOf(accepted[..i], Held.Ref());
      }
    }
  }

  lemma OneOfTwo(received: map<BlockRef, Block>, received': map<BlockRef, Block>, b: Block)
    requires Receives(map[], Earlier(), received) && Receives(received, [Held], received')
    requires b.Ref() in received' && received'[b.Ref()] == b
    ensures b == Held || (IsEarlier(b) && b.Ref() == RefAt(b.round, b.author))
  {
    hide Earlier, Among, IsEarlier;
    NotEarlier(received);
    EarlierAre(b);
    assert Refs([Held]) == {Held.Ref()};
  }

  lemma HeldComesFirst(dag: map<BlockRef, Block>, accepted: seq<Block>, i: nat)
    requires i < |accepted| && accepted[i] == Waiter && Held.Ref() !in Genesis + dag.Keys
    requires CausallyOrdered(Genesis + dag.Keys, 0, accepted)
    ensures Held.Ref() in Refs(accepted[..i])
  {
    assert HistoryIn(Genesis + dag.Keys + Refs(accepted[..i]), 0, accepted[i]);
    assert RefAt(1, 0) in Waiter.ancestors;
  }

  /** They may ascend although a block of the batch is waited for. */
  method RoundsMayAscend(m: BlockManager) returns (accepted: seq<Block>)
    requires HoldsBack(m)
    modifies m
    ensures m.Valid() && Receives(old(m.received), [Held], m.received) && !NoneIsAwaited(old(m.waiting), [Held])
    ensures Held.Ref() in Refs(accepted) && Waiter.Ref() in Refs(accepted) && SortedByRound(accepted)
  {
    hide BlockManager.Valid, BlockManager.ClosedAbove, CanReceive, Receives, Earlier, IsAcceptedInTurns, AddAll,
         CausallyOrdered, DistinctRefs, Refs, SortedByRound, Settled, IsReady, Acceptable;
    HeldBack(m);
    ghost var batch, dag, suspended, waiting := [Held], m.dag, m.suspended, m.waiting;
    CanReceiveBatch(m.received, batch);
    assert Held in batch;
    var missing;
    accepted, missing := m.TryAcceptBlocks([Held]);
    BatchIsAcceptable(old(m.received), dag, suspended, waiting, batch, m.received);
    AcceptedAre(m, dag, accepted, Held.Ref());
    AcceptedAre(m, dag, accepted, Waiter.Ref());
    AcceptedAreReceived(m, dag, accepted);
    SixAreAccepted(old(m.received), dag, suspended, waiting);
    HeldThenWaiter(old(m.received), m.received, dag, accepted);
  }
}
