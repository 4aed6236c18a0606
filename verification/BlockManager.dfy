/** Suspends incoming blocks until their history is connected, and releases them when it is. */
module BlockManagers {
  import opened Blocks
  import opened BlockIndex

  datatype TryAcceptResult =
    | Accepted
    | Suspended(ancestorsToFetch: set<BlockRef>)
    | Processed
    | Skipped

  class BlockManager {
    const genesis: set<BlockRef>

    // The block store and its garbage collection round.
    var dag: map<BlockRef, Block>
    var gcRound: Round

    var suspended: Suspensions
    var waiting: Waiting
    var missingBlocks: set<BlockRef>

    // Every block that was ever handed in.
    ghost var received: map<BlockRef, Block>

    /** References the block store contains. */
    function Accepted(): set<BlockRef>
      reads this`dag
    {
      genesis + dag.Keys
    }

    /** The invariant between calls. */
    ghost predicate Valid()
      reads this
    {
      ValidIndex(genesis, received, gcRound, dag, suspended, waiting, missingBlocks)
    }

    /** The history of accepted blocks above a round is accepted. */
    ghost predicate ClosedAbove(round: Round)
      reads this
    {
      ClosedAt(genesis, dag, round)
    }

    constructor (genesis: set<BlockRef>)
      requires IsGenesis(genesis)
      ensures Valid() && ClosedAbove(0) && this.genesis == genesis
      ensures dag == map[] && gcRound == 0 && suspended == map[] && received == map[]
    {
      this.genesis := genesis;
      dag, gcRound, suspended, waiting, missingBlocks, received := map[], 0, map[], map[], {}, map[];
    }

    /** Strikes a resolved reference off one block that waits for it. The lookup and the removal
        cannot fail. */
    method TryUnsuspendBlock(c: BlockRef, resolved: BlockRef) returns (freed: seq<Block>)
      requires c in suspended && resolved in suspended[c].missing
      modifies this`suspended
      ensures |freed| <= 1
      ensures freed != [] ==>
                old(suspended)[c] == SuspendedBlock(freed[0], {resolved}) && suspended == old(suspended) - {c}
      ensures freed == [] ==>
        && old(suspended)[c].missing - {resolved} != {}
        && suspended == old(suspended)[c :=
             SuspendedBlock(old(suspended)[c].block, old(suspended)[c].missing - {resolved})]
    {
      var entry := suspended[c];
      var missing := entry.missing - {resolved};
      if missing == {} {
        assert entry.missing == {resolved};
        suspended := suspended - {c};
        freed := [entry.block];
      } else {
        suspended := suspended[c := SuspendedBlock(entry.block, missing)];
        freed := [];
      }
    }

    /** Strikes a resolved reference off all blocks that wait for it. */
    method StrikeOff(resolved: BlockRef, children: set<BlockRef>) returns (freed: seq<Block>)
      requires forall c :: c in suspended ==> suspended[c].block.Ref() == c && suspended[c].missing != {}
      requires forall c :: c in children <==> c in suspended && resolved in suspended[c].missing
      modifies this`suspended
      ensures StruckOff(old(suspended), resolved, suspended, freed)
    {
      hide StruckOffBut;
      freed := [];
      var remaining := children;
      ghost var before := suspended;
      StrikeOffStart(before, resolved, children);
      while remaining != {}
        invariant remaining <= children
        invariant StruckOffBut(before, resolved, suspended, freed, remaining)
        decreases |remaining|
      {
        var c := First(remaining);
        ghost var after := suspended;
        StillWaits(before, resolved, suspended, freed, remaining, c);
        var now := TryUnsuspendBlock(c, resolved);
        StrikeOffStep(before, resolved, after, freed, remaining, c, suspended, now);
        remaining := remaining - {c};
        freed := freed + now;
      }
      StrikeOffEnd(before, resolved, suspended, freed);
    }

    /** Takes a resolved reference off the waiting list and off all blocks that wait for it. */
    method Resolve(r: BlockRef, ghost suspended0: Suspensions, ghost waiting0: Waiting, ghost root: BlockRef,
                   ghost processed: set<BlockRef>, ghost frontier: set<BlockRef>, ghost released: seq<Block>)
      returns (freed: seq<Block>)
      requires WellSuspended(genesis, suspended0) && Mirrored(suspended0, waiting0) && root !in suspended0
      requires Releasing(suspended0, root, suspended, processed, frontier, released) && r in frontier
      requires WaitingWithout(waiting0, waiting, processed)
      modifies this`suspended, this`waiting
      ensures Releasing(suspended0, root, suspended, processed + {r}, frontier - {r} + Refs(freed), released + freed)
      ensures WaitingWithout(waiting0, waiting, processed + {r})
      ensures DistinctRefs(freed) && Refs(freed) !! frontier
      ensures |suspended| + |freed| == |old(suspended)|
    {
      hide *;
      ghost var suspended1 := suspended;
      ReleasingFacts(suspended0, root, suspended, processed, frontier, released);
      ReleasingKeepsRefs(genesis, suspended0, root, suspended, processed, frontier, released);
      WaitingStep(waiting0, waiting, processed, r);
      var children := if r in waiting then waiting[r] else {};
      waiting := waiting - {r};
      ChildrenAreExact(suspended0, waiting0, root, suspended, processed, frontier, released, r, children);
      freed := StrikeOff(r, children);
      StruckOffFacts(suspended1, r, suspended, freed);
      ReleaseStep(suspended0, root, suspended1, processed, frontier, released, r, suspended, freed);
      SizeAfterRelease(suspended1, suspended, freed);
    }

    /** Releases every block whose missing history is resolved by `root`, in causal order. */
    method TryUnsuspendChildrenBlocks(root: BlockRef) returns (released: seq<Block>)
      requires WellSuspended(genesis, suspended) && Mirrored(suspended, waiting)
      requires root !in suspended
      modifies this`suspended, this`waiting
      ensures Released(old(suspended), old(waiting), root, suspended, waiting, released)
    {
      hide Releasing, Mirrored, NoDuplicates, Elements, Refs, RefSeq, DistinctRefs;
      released := [];
      var toProcess := [root];
      ghost var suspended0, waiting0 := suspended, waiting;
      ghost var processed: set<BlockRef> := {};
      ReleaseStart(suspended0, root);
      SingleElement(root);
      while toProcess != []
        invariant NoDuplicates(toProcess)
        invariant Releasing(suspended0, root, suspended, processed, Elements(toProcess), released)
        invariant WaitingWithout(waiting0, waiting, processed)
        decreases |suspended| + |toProcess|
      {
        var r := toProcess[|toProcess| - 1];
        PopLast(toProcess);
        var freed := Resolve(r, suspended0, waiting0, root, processed, Elements(toProcess), released);
        toProcess := toProcess[..|toProcess| - 1];
        PushAll(toProcess, freed);
        toProcess := toProcess + RefSeq(freed);
        released := released + freed;
        processed := processed + {r};
      }
      NoElements();
      ReleasingFacts(suspended0, root, suspended, processed, {}, released);
      assert processed == {root} + Refs(released);
    }

    // ----- accepting received blocks

    /** Registers the block as waiting for each of its ancestors that is not accepted. */
    method FindMissingAncestors(b: Block) returns (missing: set<BlockRef>, toFetch: set<BlockRef>)
      modifies this`waiting, this`missingBlocks
      ensures missing == Unaccepted(Accepted(), gcRound, b.ancestors)
      ensures toFetch == missing - suspended.Keys
      ensures waiting == AddWaiter(old(waiting), missing, b.Ref())
      ensures missingBlocks == old(missingBlocks) + toFetch
    {
      hide AddWaiter;
      missing, toFetch := {}, {};
      AddNoWaiter(waiting, b.Ref());
      for i := 0 to |b.ancestors|
        invariant missing == Unaccepted(Accepted(), gcRound, b.ancestors[..i])
        invariant toFetch == missing - suspended.Keys
        invariant waiting == AddWaiter(old(waiting), missing, b.Ref())
        invariant missingBlocks == old(missingBlocks) + toFetch
      {
        var a := b.ancestors[i];
        assert b.ancestors[..i + 1] == b.ancestors[..i] + [a];
        if (a.round == GENESIS_ROUND || a.round > gcRound) && a !in Accepted() {
          AddWaiterStep(old(waiting), missing, b.Ref(), a);
          missing := missing + {a};
          waiting := waiting[a := (if a in waiting then waiting[a] else {}) + {b.Ref()}];
          if a !in suspended {
            toFetch := toFetch + {a};
            missingBlocks := missingBlocks + {a};
          }
        }
      }
      assert b.ancestors[..|b.ancestors|] == b.ancestors;
    }

    /** Suspends the block, or finds that it can be accepted, or that there is nothing to do. */
    method TryAcceptOneBlock(b: Block) returns (result: TryAcceptResult)
      requires Valid() && IsVerified(genesis, b)
      requires b.Ref() in received ==> received[b.Ref()] == b
      modifies this`suspended, this`waiting, this`missingBlocks, this`received
      ensures result.Processed? <==> b.Ref() in old(suspended) || b.Ref() in Accepted()
      ensures result.Skipped? <==> b.Ref() !in old(suspended) && b.Ref() !in Accepted() && b.round <= gcRound
      ensures result.Accepted? ==>
        && Unaccepted(Accepted(), gcRound, b.ancestors) == {} && b.round > gcRound
        && suspended == old(suspended) && waiting == old(waiting)
        && missingBlocks == old(missingBlocks) - {b.Ref()} && received == old(received)
      ensures !result.Accepted? ==> Valid() && received == old(received)[b.Ref() := b]
      ensures result.Processed? || result.Skipped? ==>
        suspended == old(suspended) && waiting == old(waiting) && missingBlocks == old(missingBlocks)
      ensures result.Suspended? ==>
        && suspended == old(suspended)[b.Ref() := SuspendedBlock(b, Unaccepted(Accepted(), gcRound, b.ancestors))]
        && missingBlocks <= old(missingBlocks) + result.ancestorsToFetch
        && forall a :: a in waiting && a !in old(waiting) ==> a.round < b.round
    {
      hide ValidIndex, Unaccepted, IsVerified, AddWaiter;
      if b.Ref() in suspended || b.Ref() in Accepted() {
        SkipKeepsValid(genesis, received, gcRound, dag, suspended, waiting, missingBlocks, b);
        received := received[b.Ref() := b];
        return Processed;
      }
      if b.round <= gcRound {
        SkipKeepsValid(genesis, received, gcRound, dag, suspended, waiting, missingBlocks, b);
        received := received[b.Ref() := b];
        return Skipped;
      }
      var missing, toFetch := FindMissingAncestors(b);
      missingBlocks := missingBlocks - {b.Ref()};
      if missing != {} {
        NewKeysAreLower(genesis, Accepted(), gcRound, old(waiting), b);
        SuspendKeepsValid(genesis, received, gcRound, dag, suspended, old(waiting), old(missingBlocks), b, missing);
        suspended := suspended[b.Ref() := SuspendedBlock(b, missing)];
        received := received[b.Ref() := b];
        return Suspended(toFetch);
      }
      AddNoWaiter(old(waiting), b.Ref());
      result := TryAcceptResult.Accepted;
    }

    /** Accepts a block and everything that waited for nothing else. */
    method AcceptRoot(b: Block) returns (newly: seq<Block>)
      requires Consistent(genesis, Accepted(), gcRound, suspended, waiting)
      requires forall a :: a in waiting ==> a.round > gcRound
      requires missingBlocks == Missing(suspended, waiting) - {b.Ref()}
      requires b.Ref() !in suspended && b.Ref() !in Accepted()
      requires DagIsVerified(genesis, dag) && IsVerified(genesis, b) && IsGenesis(genesis)
      requires Tracks(received[b.Ref() := b], gcRound, dag[b.Ref() := b], suspended)
      modifies this`dag, this`suspended, this`waiting, this`received
      ensures Valid() && received == old(received)[b.Ref() := b]
      ensures newly != [] && newly[0] == b && DistinctRefs(newly)
      ensures Refs(newly) !! old(Accepted()) && dag == AddAll(old(dag), newly)
      ensures forall round :: round >= gcRound && HistoryIn(old(Accepted()), round, b) ==>
                CausallyOrdered(old(Accepted()), round, newly)
      ensures waiting.Keys <= old(waiting).Keys && (b.Ref() !in old(waiting) ==> newly == [b])
    {
      hide Consistent, Tracks, DagIsVerified, IsVerified, IsGenesis, Released, CausallyOrdered, HistoryIn, ValidIndex,
        AddAll, DistinctRefs;
      ghost var suspended0, waiting0 := suspended, waiting;
      ConsistentFacts(genesis, Accepted(), gcRound, suspended, waiting);
      var released := TryUnsuspendChildrenBlocks(b.Ref());
      newly := [b] + released;
      ReleasedFacts(suspended0, waiting0, b.Ref(), suspended, waiting, released);
      ReleasedOrder(suspended0, waiting0, b.Ref(), suspended, waiting, released);
      UnawaitedReleasesNothing(genesis, suspended0, waiting0, b.Ref(), suspended, waiting, released);
      RootWithReleased(genesis, Accepted(), gcRound, suspended0, waiting0, b, released);
      RootKeepsVerified(genesis, dag, b);
      received := received[b.Ref() := b];
      ReleaseKeepsValid(genesis, received, gcRound, dag, suspended0, waiting0, missingBlocks, b.Ref(),
                        suspended, waiting, released, dag[b.Ref() := b]);
      AddAllCons(dag, b, released);
      dag := AddAll(dag, newly);
    }

    /** Handles one received block: suspends it, or accepts it with all it releases. */
    method AcceptOne(b: Block) returns (newly: seq<Block>, toFetch: set<BlockRef>)
      requires Valid() && IsVerified(genesis, b)
      requires b.Ref() in received ==> received[b.Ref()] == b
      modifies this`dag, this`suspended, this`waiting, this`missingBlocks, this`received
      ensures Valid() && received == old(received)[b.Ref() := b]
      ensures DistinctRefs(newly) && Refs(newly) !! old(Accepted()) && dag == AddAll(old(dag), newly)
      ensures CausallyOrdered(old(Accepted()), gcRound, newly)
      ensures missingBlocks <= old(missingBlocks) + toFetch
      ensures forall a :: a in waiting && a !in old(waiting) ==> a.round < b.round
      ensures b.Ref() !in old(waiting) ==> newly == [] || newly == [b]
      ensures old(ClosedAbove(gcRound)) ==> ClosedAbove(gcRound)
    {
      newly, toFetch := [], {};
      NothingNew(dag, Accepted());
      hide Consistent, DagIsVerified, IsVerified, IsGenesis, CausallyOrdered, ValidIndex, AddAll, Tracks, DistinctRefs,
           ClosedAt;
      var result := TryAcceptOneBlock(b);
      match result {
        case Accepted =>
          BeforeRoot(genesis, old(received), gcRound, dag, suspended, waiting, old(missingBlocks), b);
          newly := AcceptRoot(b);
          if old(ClosedAbove(gcRound)) {
            OrderedKeepsClosed(genesis, old(dag), gcRound, newly);
          }
        case Suspended(ancestorsToFetch) =>
          toFetch := ancestorsToFetch;
        case Processed =>
        case Skipped =>
      }
    }

    /** Tries to accept a batch of blocks, lowest rounds first. Each block is followed by what it completes. When
        no block of the batch is waited for, nothing is completed and the rounds ascend. */
    method TryAcceptBlocks(blocks: seq<Block>) returns (accepted: seq<Block>, missing: set<BlockRef>)
      requires Valid() && CanReceive(genesis, received, blocks)
      modifies this`dag, this`suspended, this`waiting, this`missingBlocks, this`received
      ensures Valid() && Receives(old(received), blocks, received)
      ensures DistinctRefs(accepted) && Refs(accepted) !! old(Accepted()) && dag == AddAll(old(dag), accepted)
      ensures CausallyOrdered(old(Accepted()), gcRound, accepted)
      ensures old(ClosedAbove(gcRound)) ==>
                ClosedAbove(gcRound) && IsAcceptedInTurns(genesis, old(received), gcRound, old(dag), blocks, accepted)
      ensures missingBlocks <= old(missingBlocks) + missing
      ensures NoneIsAwaited(old(waiting), blocks) ==> SortedByRound(accepted)
    {
      hide IsVerified, CausallyOrdered, ValidIndex, AddAll, DistinctRefs, ClosedAt, CanReceive, Receives, Refs, InTurns,
           InRounds, NoneIsAwaited, SortedByRound, HoldsClosure, Flatten;
      var sorted := SortByRound(blocks);
      accepted, missing := [], {};
      ghost var turns: seq<seq<Block>> := [];
      NothingNew(dag, Accepted());
      NothingReceived(received);
      if ClosedAbove(gcRound) {
        IsClosure(this);
        FirstTurn(genesis, received, gcRound, dag, sorted);
      }
      FirstRounds(waiting, blocks, sorted);
      assert sorted[..0] == [];
      for i := 0 to |sorted|
        invariant Valid() && Receives(old(received), sorted[..i], received)
        invariant DistinctRefs(accepted) && Refs(accepted) !! old(Accepted()) && dag == AddAll(old(dag), accepted)
        invariant CausallyOrdered(old(Accepted()), gcRound, accepted)
        invariant missingBlocks <= old(missingBlocks) + missing
        invariant accepted == Flatten(turns)
        invariant old(ClosedAbove(gcRound)) ==>
                    ClosedAbove(gcRound)
                    && InTurns(genesis, old(received), gcRound, old(dag), sorted, turns, i, received)
        invariant NoneIsAwaited(old(waiting), blocks) ==> InRounds(sorted, i, waiting, accepted)
      {
        ghost var dag1, received1, waiting1 := dag, received, waiting;
        CanReceiveNext(genesis, old(received), blocks, sorted, i, received);
        var newly, toFetch := AcceptOne(sorted[i]);
        ReceivesNext(old(received), sorted, i, received1, received);
        AppendNewlyAt(genesis, old(dag), gcRound, accepted, newly, true);
        FlattenNext(turns, newly);
        if old(ClosedAbove(gcRound)) {
          IsClosure(this);
          NextTurn(genesis, old(received), gcRound, old(dag), sorted, turns, i, received1, newly, received);
        }
        if NoneIsAwaited(old(waiting), blocks) {
          NextRounds(sorted, i, waiting1, waiting, accepted, newly);
        }
        accepted := accepted + newly;
        missing := missing + toFetch;
        turns := turns + [newly];
      }
      ReceivesSorted(old(received), blocks, sorted, received);
      if old(ClosedAbove(gcRound)) {
        LastTurn(genesis, old(received), gcRound, old(dag), blocks, sorted, turns, received);
      }
      LastRounds(sorted, waiting, accepted);
    }

    // ----- accepting committed blocks

    /** Takes the block off the lists of everything it waits for. */
    method Withdraw(c: BlockRef)
      requires c in suspended
      modifies this`suspended, this`waiting
      ensures suspended == old(suspended) - {c}
      ensures waiting == RemoveWaiter(old(waiting), old(suspended)[c].missing, c)
    {
      hide RemoveWaiter;
      var missing := suspended[c].missing;
      suspended := suspended - {c};
      var remaining := missing;
      RemoveNoWaiter(waiting, c);
      assert missing - remaining == {};
      while remaining != {}
        invariant remaining <= missing
        invariant suspended == old(suspended) - {c}
        invariant waiting == RemoveWaiter(old(waiting), missing - remaining, c)
        decreases |remaining|
      {
        var a := First(remaining);
        RemoveWaiterStep(old(waiting), missing - remaining, c, a);
        assert missing - (remaining - {a}) == missing - remaining + {a};
        if a in waiting {
          waiting := waiting[a := waiting[a] - {c}];
        }
        remaining := remaining - {a};
      }
      assert missing - remaining == missing;
    }

    /** Accepts a committed block whether or not its history is there. */
    method TryAcceptOneCommittedBlock(b: Block) returns (newly: seq<Block>)
      requires Valid() && IsVerified(genesis, b)
      requires b.Ref() in received ==> received[b.Ref()] == b
      modifies this`dag, this`suspended, this`waiting, this`missingBlocks, this`received
      ensures Valid() && received == old(received)[b.Ref() := b]
      ensures DistinctRefs(newly) && Refs(newly) !! old(Accepted()) && dag == AddAll(old(dag), newly)
      ensures b.Ref() in Accepted()
      ensures forall round :: round >= gcRound && HistoryIn(old(Accepted()), round, b) ==>
                CausallyOrdered(old(Accepted()), round, newly)
    {
      newly := [];
      hide Consistent, DagIsVerified, IsVerified, IsGenesis, CausallyOrdered, ValidIndex, AddAll, Tracks, DistinctRefs,
        HistoryIn, RemoveWaiter, Missing, Refs;
      if b.Ref() in Accepted() {
        NothingNew(dag, Accepted());
        SkipKeepsValid(genesis, received, gcRound, dag, suspended, waiting, missingBlocks, b);
        received := received[b.Ref() := b];
        return;
      }
      WithdrawKeepsValid(genesis, received, gcRound, dag, suspended, waiting, missingBlocks, b);
      missingBlocks := missingBlocks - {b.Ref()};
      if b.Ref() in suspended {
        Withdraw(b.Ref());
      }
      newly := AcceptRoot(b);
      NewlyIsAccepted(old(dag), newly);
    }

    /** Accepts a batch of committed blocks. The block store stays closed above any round above
        which the batch brings its own history. */
    method TryAcceptCommittedBlocks(blocks: seq<Block>, ghost round: Round) returns (accepted: seq<Block>)
      requires Valid() && CanReceive(genesis, received, blocks)
      modifies this`dag, this`suspended, this`waiting, this`missingBlocks, this`received
      ensures Valid() && Receives(old(received), blocks, received)
      ensures DistinctRefs(accepted) && Refs(accepted) !! old(Accepted()) && dag == AddAll(old(dag), accepted)
      ensures Refs(blocks) <= Accepted()
      ensures old(ClosedAbove(round)) && round >= gcRound && BringsHistory(genesis, old(Accepted()), round, blocks) ==>
                ClosedAbove(round) && CausallyOrdered(old(Accepted()), round, accepted)
    {
      hide IsVerified, CausallyOrdered, ValidIndex, AddAll, DistinctRefs, ClosedAt, CanReceive, Receives, Refs,
        BringsHistory, HistoryIn, SortedByRound;
      var sorted := SortByRound(blocks);
      accepted := [];
      NothingNew(dag, Accepted());
      NothingReceived(received);
      assert sorted[..0] == [];
      ghost var closes := round >= gcRound && BringsHistory(genesis, Accepted(), round, blocks);
      for i := 0 to |sorted|
        invariant Valid() && Receives(old(received), sorted[..i], received)
        invariant DistinctRefs(accepted) && Refs(accepted) !! old(Accepted()) && dag == AddAll(old(dag), accepted)
        invariant old(Accepted()) <= Accepted()
        invariant forall j :: 0 <= j < i ==> sorted[j].Ref() in Accepted()
        invariant closes ==> CausallyOrdered(old(Accepted()), round, accepted)
      {
        ghost var dag1, received1 := dag, received;
        CanReceiveNext(genesis, old(received), blocks, sorted, i, received);
        if closes {
          BatchHasHistory(genesis, old(received), old(Accepted()), round, blocks, sorted, i, Accepted());
        }
        var newly := TryAcceptOneCommittedBlock(sorted[i]);
        ReceivesNext(old(received), sorted, i, received1, received);
        AddAllKeys(dag1, newly);
        AppendNewlyAt(genesis, old(dag), round, accepted, newly, closes);
        accepted := accepted + newly;
      }
      ReceivesSorted(old(received), blocks, sorted, received);
      AllAreAccepted(blocks, sorted, Accepted());
      if old(ClosedAbove(round)) && closes {
        OrderedKeepsClosed(genesis, old(dag), round, accepted);
      }
    }

    // ----- looking for blocks

    /** Reports which of the references are neither accepted nor suspended, and keeps them to be
        fetched. */
    method TryFindBlocks(refs: seq<BlockRef>) returns (missing: set<BlockRef>)
      requires Valid()
      modifies this`waiting, this`missingBlocks
      ensures Valid()
      ensures missing == set r | r in refs && r.round > gcRound && r !in Accepted() && r !in suspended
      ensures missingBlocks == old(missingBlocks) + missing
    {
      hide ValidIndex;
      missing := {};
      for i := 0 to |refs|
        invariant Valid()
        invariant missing == set r | r in refs[..i] && r.round > gcRound && r !in Accepted() && r !in suspended
        invariant missingBlocks == old(missingBlocks) + missing
      {
        var r := refs[i];
        assert refs[..i + 1] == refs[..i] + [r];
        if r.round > gcRound && r !in Accepted() && r !in suspended {
          missing := missing + {r};
          AskKeepsValid(genesis, received, gcRound, dag, suspended, waiting, missingBlocks, r);
          if r !in missingBlocks {
            missingBlocks := missingBlocks + {r};
            if r !in waiting {
              waiting := waiting[r := {}];
            }
          }
        }
      }
      assert refs[..|refs|] == refs;
    }

    // ----- garbage collection

    /** Gives up on ancestors at or below the new garbage collection round and accepts what waited
        only for them. The first waited-for reference is never suspended, and each turn shortens
        the waiting list. */
    method TryUnsuspendBlocksForLatestGcRound(newGcRound: Round)
      requires Valid() && newGcRound >= gcRound
      modifies this`gcRound, this`dag, this`suspended, this`waiting, this`missingBlocks
      ensures Valid() && gcRound == newGcRound
      ensures old(ClosedAbove(gcRound)) || old(ClosedAbove(newGcRound)) ==> ClosedAbove(newGcRound)
      ensures old(dag).Keys <= dag.Keys && suspended.Keys <= old(suspended).Keys
    {
      hide ValidIndex, Consistent, Tracks, DagIsVerified, IsGenesis, ClosedAt, Missing;
      GcStart(genesis, received, gcRound, newGcRound, dag, suspended, waiting, missingBlocks);
      gcRound := newGcRound;
      while waiting.Keys != {}
        invariant GcInvariant(genesis, received, gcRound, dag, suspended, waiting, missingBlocks)
        invariant old(ClosedAbove(gcRound)) || old(ClosedAbove(newGcRound)) ==> ClosedAbove(newGcRound)
        invariant gcRound == newGcRound
        invariant old(dag).Keys <= dag.Keys && suspended.Keys <= old(suspended).Keys
        decreases waiting.Keys
      {
        var first := First(waiting.Keys);
        if first.round > gcRound {
          GcEnd(genesis, received, gcRound, dag, suspended, waiting, missingBlocks);
          return;
        }
        FirstIsNotSuspended(genesis, Accepted(), gcRound, suspended, waiting, first);
        assert first !in suspended;
        missingBlocks := missingBlocks - {first};
        GcRelease(first);
      }
      GcEnd(genesis, received, gcRound, dag, suspended, waiting, missingBlocks);
    }

    method GcRelease(first: BlockRef)
      requires first !in suspended && first in waiting && first.round <= gcRound
      requires Consistent(genesis, Accepted(), gcRound, suspended, waiting)
      requires Tracks(received, gcRound, dag, suspended) && DagIsVerified(genesis, dag) && IsGenesis(genesis)
      requires missingBlocks == Missing(suspended, waiting) - {first}
      modifies this`dag, this`suspended, this`waiting
      ensures GcInvariant(genesis, received, gcRound, dag, suspended, waiting, missingBlocks)
      ensures waiting.Keys <= old(waiting).Keys - {first}
      ensures old(ClosedAbove(gcRound)) ==> ClosedAbove(gcRound)
      ensures old(dag).Keys <= dag.Keys && suspended.Keys <= old(suspended).Keys
    {
      hide Consistent, Tracks, DagIsVerified, IsGenesis, Released, ClosedAt, Missing, AddAll, DistinctRefs,
           CausallyOrdered;
      ConsistentFacts(genesis, Accepted(), gcRound, suspended, waiting);
      ghost var suspended0, waiting0 := suspended, waiting;
      var released := TryUnsuspendChildrenBlocks(first);
      ReleasedFacts(suspended0, waiting0, first, suspended, waiting, released);
      ReleasedOrder(suspended0, waiting0, first, suspended, waiting, released);
      GcReleaseIsConsistent(genesis, received, gcRound, dag, suspended0, waiting0, first, suspended, waiting, released);
      ReleasedAreOrdered(genesis, Accepted(), gcRound, suspended0, waiting0, first, released, Accepted(), gcRound);
      if ClosedAbove(gcRound) {
        OrderedKeepsClosed(genesis, dag, gcRound, released);
      }
      AddAllKeys(dag, released);
      dag := AddAll(dag, released);
    }
  }

  // ----- the order of accepted blocks

  lemma NewKeysAreLower(genesis: set<BlockRef>, accepted: set<BlockRef>, gcRound: Round, waiting: Waiting, b: Block)
    requires IsVerified(genesis, b)
    ensures forall a ::
              a in AddWaiter(waiting, Unaccepted(accepted, gcRound, b.ancestors), b.Ref()) && a !in waiting ==>
                a.round < b.round
  {
  }

  lemma UnawaitedReleasesNothing(genesis: set<BlockRef>, suspended0: Suspensions, waiting0: Waiting, root: BlockRef,
                                 suspended: Suspensions, waiting: Waiting, released: seq<Block>)
    requires WellSuspended(genesis, suspended0) && Mirrored(suspended0, waiting0)
    requires waiting.Keys == waiting0.Keys - ({root} + Refs(released)) && ReleasedInOrder(suspended0, root, released)
    ensures waiting.Keys <= waiting0.Keys && (root !in waiting0 ==> released == [])
  {
    hide Refs, DistinctRefs, IsVerified;
    if released != [] {
      FirstWaitsForRoot(genesis, suspended0, root, released);
    }
  }

  lemma FirstWaitsForRoot(genesis: set<BlockRef>, suspended0: Suspensions, root: BlockRef, released: seq<Block>)
    requires WellSuspended(genesis, suspended0) && ReleasedInOrder(suspended0, root, released) && released != []
    ensures released[0].Ref() in suspended0 && root in suspended0[released[0].Ref()].missing
  {
    hide DistinctRefs, IsVerified;
    assert ReleasedAfter(suspended0, {root} + Refs(released[..0]), released[0]);
    assert Refs(released[..0]) == {};
    var a :| a in suspended0[released[0].Ref()].missing;
  }

  ghost function Flatten(turns: seq<seq<Block>>): seq<Block> {
    if turns == [] then [] else Flatten(turns[..|turns| - 1]) + turns[|turns| - 1]
  }

  lemma FlattenNext(turns: seq<seq<Block>>, turn: seq<Block>)
    ensures Flatten(turns + [turn]) == Flatten(turns) + turn
  {
    assert (turns + [turn])[..|turns|] == turns;
  }

  /** Above the garbage collection round, the blocks are the closure of what was received. */
  ghost predicate HoldsClosure(genesis: set<BlockRef>, received: map<BlockRef, Block>, gcRound: Round,
                               dag: map<BlockRef, Block>)
  {
    forall r: BlockRef :: r.round > gcRound ==> (r in dag <==> Acceptable(genesis, received, gcRound, r))
  }

  /** After the turn of each block, what was accepted so far is the closure of what was received so far. */
  ghost predicate InTurns(genesis: set<BlockRef>, received: map<BlockRef, Block>, gcRound: Round,
                          dag: map<BlockRef, Block>, sorted: seq<Block>, turns: seq<seq<Block>>, n: nat,
                          received': map<BlockRef, Block>)
    requires n <= |sorted|
  {
    && |turns| == n && received' == AddAll(received, sorted[..n])
    && forall i :: 0 <= i <= n ==>
         HoldsClosure(genesis, AddAll(received, sorted[..i]), gcRound, AddAll(dag, Flatten(turns[..i])))
  }

  /** The accepted blocks are the batch by ascending rounds, each block with what it completes. */
  ghost predicate IsAcceptedInTurns(genesis: set<BlockRef>, received: map<BlockRef, Block>, gcRound: Round,
                                    dag: map<BlockRef, Block>, blocks: seq<Block>, accepted: seq<Block>)
  {
    exists sorted, turns ::
      && multiset(sorted) == multiset(blocks) && SortedByRound(sorted) && accepted == Flatten(turns)
      && InTurns(genesis, received, gcRound, dag, sorted, turns, |sorted|, AddAll(received, sorted))
  }

  lemma IsClosure(m: BlockManager)
    requires m.Valid() && m.ClosedAbove(m.gcRound)
    ensures HoldsClosure(m.genesis, m.received, m.gcRound, m.dag)
  {
    hide *;
    forall r: BlockRef | r.round > m.gcRound
      ensures r in m.dag <==> Acceptable(m.genesis, m.received, m.gcRound, r)
    {
      ManagerHoldsClosure(m, r);
    }
    ClosureFollows(m.genesis, m.received, m.gcRound, m.dag);
  }

  lemma ClosureFollows(genesis: set<BlockRef>, received: map<BlockRef, Block>, gcRound: Round,
                       dag: map<BlockRef, Block>)
    requires forall r: BlockRef :: r.round > gcRound ==> (r in dag <==> Acceptable(genesis, received, gcRound, r))
    ensures HoldsClosure(genesis, received, gcRound, dag)
  {
  }

  lemma FirstTurn(genesis: set<BlockRef>, received: map<BlockRef, Block>, gcRound: Round, dag: map<BlockRef, Block>,
                  sorted: seq<Block>)
    requires HoldsClosure(genesis, received, gcRound, dag)
    ensures InTurns(genesis, received, gcRound, dag, sorted, [], 0, received)
  {
    hide HoldsClosure;
    assert sorted[..0] == [];
  }

  lemma NextTurn(genesis: set<BlockRef>, received: map<BlockRef, Block>, gcRound: Round, dag: map<BlockRef, Block>,
                 sorted: seq<Block>, turns: seq<seq<Block>>, i: nat, received1: map<BlockRef, Block>, newly: seq<Block>,
                 received2: map<BlockRef, Block>)
    requires i < |sorted| && InTurns(genesis, received, gcRound, dag, sorted, turns, i, received1)
    requires received2 == received1[sorted[i].Ref() := sorted[i]]
    requires HoldsClosure(genesis, received2, gcRound, AddAll(dag, Flatten(turns + [newly])))
    ensures InTurns(genesis, received, gcRound, dag, sorted, turns + [newly], i + 1, received2)
  {
    hide HoldsClosure, Flatten;
    var turns' := turns + [newly];
    assert sorted[..i + 1][..i] == sorted[..i];
    forall k | 0 <= k <= i + 1
      ensures HoldsClosure(genesis, AddAll(received, sorted[..k]), gcRound, AddAll(dag, Flatten(turns'[..k])))
    {
      if k <= i {
        assert turns'[..k] == turns[..k];
      } else {
        assert turns'[..k] == turns';
      }
    }
  }

  lemma LastTurn(genesis: set<BlockRef>, received: map<BlockRef, Block>, gcRound: Round, dag: map<BlockRef, Block>,
                 blocks: seq<Block>, sorted: seq<Block>, turns: seq<seq<Block>>, received': map<BlockRef, Block>)
    requires multiset(sorted) == multiset(blocks) && SortedByRound(sorted)
    requires InTurns(genesis, received, gcRound, dag, sorted, turns, |sorted|, received')
    ensures IsAcceptedInTurns(genesis, received, gcRound, dag, blocks, Flatten(turns))
  {
    hide HoldsClosure, SortedByRound;
    assert sorted[..|sorted|] == sorted;
  }

  /** No block waits for a block of the batch. */
  ghost predicate NoneIsAwaited(waiting: Waiting, blocks: seq<Block>) {
    forall b :: b in blocks ==> b.Ref() !in waiting
  }

  /** The first n blocks of the batch have had their turn, in ascending rounds, and no other one is waited for. */
  ghost predicate InRounds(sorted: seq<Block>, n: nat, waiting: Waiting, accepted: seq<Block>)
    requires n <= |sorted|
  {
    && SortedByRound(accepted)
    && (forall j, b :: n <= j < |sorted| && b in accepted ==> b.round <= sorted[j].round)
    && (forall j :: n <= j < |sorted| ==> sorted[j].Ref() !in waiting)
  }

  lemma FirstRounds(waiting: Waiting, blocks: seq<Block>, sorted: seq<Block>)
    requires multiset(sorted) == multiset(blocks)
    ensures NoneIsAwaited(waiting, blocks) ==> InRounds(sorted, 0, waiting, [])
  {
    SameRefs(blocks, sorted);
  }

  lemma NextRounds(sorted: seq<Block>, i: nat, waiting: Waiting, waiting': Waiting, accepted: seq<Block>,
                   newly: seq<Block>)
    requires SortedByRound(sorted) && i < |sorted| && InRounds(sorted, i, waiting, accepted)
    requires sorted[i].Ref() !in waiting ==> newly == [] || newly == [sorted[i]]
    requires forall a :: a in waiting' && a !in waiting ==> a.round < sorted[i].round
    ensures InRounds(sorted, i + 1, waiting', accepted + newly)
  {
    forall k | 0 <= k < |accepted|
      ensures accepted[k].round <= sorted[i].round
    {
      assert accepted[k] in accepted;
    }
  }

  lemma LastRounds(sorted: seq<Block>, waiting: Waiting, accepted: seq<Block>)
    ensures InRounds(sorted, |sorted|, waiting, accepted) ==> SortedByRound(accepted)
  {
  }

  lemma NewlyIsAccepted(dag: map<BlockRef, Block>, newly: seq<Block>)
    requires newly != []
    ensures newly[0].Ref() in AddAll(dag, newly)
  {
    AddAllKeys(dag, newly);
    assert newly[0] in newly;
  }

  /** Taking a block out of the suspended ones leaves the index ready to accept it. */
  lemma WithdrawKeepsValid(genesis: set<BlockRef>, received: map<BlockRef, Block>, gcRound: Round,
                           dag: map<BlockRef, Block>, suspended: Suspensions, waiting: Waiting,
                           missingBlocks: set<BlockRef>, b: Block)
    requires ValidIndex(genesis, received, gcRound, dag, suspended, waiting, missingBlocks)
    ensures var suspended' := suspended - {b.Ref()};
            var waiting' := if b.Ref() in suspended then RemoveWaiter(waiting, suspended[b.Ref()].missing, b.Ref())
              else waiting;
      && Consistent(genesis, genesis + dag.Keys, gcRound, suspended', waiting')
      && (forall a :: a in waiting' ==> a.round > gcRound)
      && missingBlocks - {b.Ref()} == Missing(suspended', waiting') - {b.Ref()}
      && Tracks(received[b.Ref() := b], gcRound, dag[b.Ref() := b], suspended')
    ensures DagIsVerified(genesis, dag) && IsGenesis(genesis)
    ensures b.Ref() !in suspended ==> suspended - {b.Ref()} == suspended
  {
    hide Consistent, DagIsVerified, IsGenesis;
    if b.Ref() in suspended {
      WithdrawIsConsistent(genesis, genesis + dag.Keys, gcRound, suspended, waiting, b.Ref());
    } else {
      assert suspended - {b.Ref()} == suspended;
    }
    TracksRoot(received, gcRound, dag, suspended, b);
  }

  /** The history of the batch above the round is known, or part of the batch. */
  ghost predicate BringsHistory(genesis: set<BlockRef>, accepted: set<BlockRef>, round: Round, blocks: seq<Block>) {
    forall b :: b in blocks ==> HistoryIn(accepted + Refs(blocks), round, b)
  }

  lemma BatchHasHistory(genesis: set<BlockRef>, received0: map<BlockRef, Block>, accepted0: set<BlockRef>, round: Round,
                        blocks: seq<Block>, sorted: seq<Block>, i: nat, accepted: set<BlockRef>)
    requires CanReceive(genesis, received0, blocks) && BringsHistory(genesis, accepted0, round, blocks)
    requires multiset(sorted) == multiset(blocks) && SortedByRound(sorted) && i < |sorted|
    requires accepted0 <= accepted && forall j :: 0 <= j < i ==> sorted[j].Ref() in accepted
    ensures HistoryIn(accepted, round, sorted[i])
  {
    var b := sorted[i];
    assert b in multiset(sorted) && b in blocks;
    forall a | a in b.ancestors && a.round > round
      ensures a in accepted
    {
      if a !in accepted0 {
        assert HistoryIn(accepted0 + Refs(blocks), round, b);
        var c :| c in blocks && c.Ref() == a;
        assert c in multiset(blocks) && c in sorted;
        var j :| 0 <= j < |sorted| && sorted[j] == c;
        assert IsVerified(genesis, b) && c.round < b.round;
        assert j < i;
      }
    }
  }

  lemma AppendNewlyAt(genesis: set<BlockRef>, dag: map<BlockRef, Block>, round: Round, accepted: seq<Block>,
                      newly: seq<Block>, ordered: bool)
    requires DistinctRefs(accepted) && Refs(accepted) !! genesis + dag.Keys
    requires DistinctRefs(newly) && Refs(newly) !! genesis + AddAll(dag, accepted).Keys
    requires ordered ==> CausallyOrdered(genesis + dag.Keys, round, accepted)
    requires ordered ==> CausallyOrdered(genesis + AddAll(dag, accepted).Keys, round, newly)
    ensures DistinctRefs(accepted + newly) && Refs(accepted + newly) !! genesis + dag.Keys
    ensures AddAll(dag, accepted + newly) == AddAll(AddAll(dag, accepted), newly)
    ensures ordered ==> CausallyOrdered(genesis + dag.Keys, round, accepted + newly)
  {
    hide CausallyOrdered, AddAll;
    AddAllAppend(dag, accepted, newly);
    AddAllKeys(dag, accepted);
    assert genesis + AddAll(dag, accepted).Keys == genesis + dag.Keys + Refs(accepted);
    if ordered {
      OrderedAppend(genesis + dag.Keys, round, accepted, newly);
    }
    RefsAppend(accepted, newly);
    forall i, j | 0 <= i < j < |accepted + newly|
      ensures (accepted + newly)[i].Ref() != (accepted + newly)[j].Ref()
    {
      if i < |accepted| <= j {
        assert accepted[i] in accepted && newly[j - |accepted|] in newly;
        assert accepted[i].Ref() in Refs(accepted) && newly[j - |accepted|].Ref() in Refs(newly);
      }
    }
  }

  lemma AllAreAccepted(blocks: seq<Block>, sorted: seq<Block>, accepted: set<BlockRef>)
    requires multiset(sorted) == multiset(blocks)
    requires forall j :: 0 <= j < |sorted| ==> sorted[j].Ref() in accepted
    ensures Refs(blocks) <= accepted
  {
    forall b | b in blocks
      ensures b.Ref() in accepted
    {
      assert b in multiset(sorted);
    }
  }

  lemma AskKeepsValid(genesis: set<BlockRef>, received: map<BlockRef, Block>, gcRound: Round, dag: map<BlockRef, Block>,
                      suspended: Suspensions, waiting: Waiting, missingBlocks: set<BlockRef>, r: BlockRef)
    requires ValidIndex(genesis, received, gcRound, dag, suspended, waiting, missingBlocks)
    requires r.round > gcRound && r !in genesis + dag.Keys && r !in suspended
    ensures r in missingBlocks <==> r in waiting
    ensures r !in waiting ==>
              ValidIndex(genesis, received, gcRound, dag, suspended, waiting[r := {}], missingBlocks + {r})
  {
    hide DagIsVerified, IsGenesis, Tracks, WellSuspended, WaitsExactly;
  }

  /** The invariant while keys at or below the garbage collection round are worked off. */
  ghost predicate GcInvariant(genesis: set<BlockRef>, received: map<BlockRef, Block>, gcRound: Round,
                              dag: map<BlockRef, Block>, suspended: Suspensions, waiting: Waiting,
                              missingBlocks: set<BlockRef>)
  {
    && Consistent(genesis, genesis + dag.Keys, gcRound, suspended, waiting)
    && Tracks(received, gcRound, dag, suspended)
    && DagIsVerified(genesis, dag) && IsGenesis(genesis)
    && missingBlocks == Missing(suspended, waiting)
  }

  lemma GcStart(genesis: set<BlockRef>, received: map<BlockRef, Block>, gcRound: Round, newGcRound: Round,
                dag: map<BlockRef, Block>, suspended: Suspensions, waiting: Waiting, missingBlocks: set<BlockRef>)
    requires ValidIndex(genesis, received, gcRound, dag, suspended, waiting, missingBlocks) && gcRound <= newGcRound
    ensures GcInvariant(genesis, received, newGcRound, dag, suspended, waiting, missingBlocks)
    ensures ClosedAt(genesis, dag, gcRound) ==> ClosedAt(genesis, dag, newGcRound)
  {
    hide Consistent, DagIsVerified, IsGenesis;
    LaterGcIsConsistent(genesis, genesis + dag.Keys, gcRound, newGcRound, suspended, waiting);
  }

  lemma GcEnd(genesis: set<BlockRef>, received: map<BlockRef, Block>, gcRound: Round, dag: map<BlockRef, Block>,
              suspended: Suspensions, waiting: Waiting, missingBlocks: set<BlockRef>)
    requires GcInvariant(genesis, received, gcRound, dag, suspended, waiting, missingBlocks)
    requires forall a :: a in waiting ==> a.round > gcRound
    ensures ValidIndex(genesis, received, gcRound, dag, suspended, waiting, missingBlocks)
  {
    hide Consistent, DagIsVerified, IsGenesis, Tracks;
  }

  /** The blocks are verified, and a reference stands for one block only. */
  ghost predicate CanReceive(genesis: set<BlockRef>, received: map<BlockRef, Block>, blocks: seq<Block>) {
    && (forall b :: b in blocks ==> IsVerified(genesis, b))
    && (forall b :: b in blocks && b.Ref() in received ==> received[b.Ref()] == b)
    && (forall b, c :: b in blocks && c in blocks && b.Ref() == c.Ref() ==> b == c)
  }

  ghost predicate Receives(received0: map<BlockRef, Block>, blocks: seq<Block>, received: map<BlockRef, Block>) {
    && received.Keys == received0.Keys + Refs(blocks)
    && (forall r :: r in received0 ==> received[r] == received0[r])
    && (forall b :: b in blocks ==> received[b.Ref()] == b)
  }

  lemma NothingReceived(received: map<BlockRef, Block>)
    ensures Receives(received, [], received)
  {
  }

  lemma CanReceiveNext(genesis: set<BlockRef>, received0: map<BlockRef, Block>, blocks: seq<Block>, sorted: seq<Block>,
                       i: nat, received: map<BlockRef, Block>)
    requires CanReceive(genesis, received0, blocks) && multiset(sorted) == multiset(blocks) && i < |sorted|
    requires Receives(received0, sorted[..i], received)
    ensures IsVerified(genesis, sorted[i])
    ensures sorted[i].Ref() in received ==> received[sorted[i].Ref()] == sorted[i]
    ensures sorted[i].Ref() in received0 ==> received0[sorted[i].Ref()] == sorted[i]
  {
    assert sorted[i] in multiset(sorted);
    assert sorted[i] in blocks;
    if sorted[i].Ref() in received && sorted[i].Ref() !in received0 {
      var b :| b in sorted[..i] && b.Ref() == sorted[i].Ref();
      assert b in multiset(sorted) && b in blocks;
    }
  }

  lemma ReceivesNext(received0: map<BlockRef, Block>, sorted: seq<Block>, i: nat,
                     received: map<BlockRef, Block>, received': map<BlockRef, Block>)
    requires i < |sorted| && Receives(received0, sorted[..i], received)
    requires received' == received[sorted[i].Ref() := sorted[i]]
    requires sorted[i].Ref() in received ==> received[sorted[i].Ref()] == sorted[i]
    ensures Receives(received0, sorted[..i + 1], received')
  {
    assert sorted[..i + 1] == sorted[..i] + [sorted[i]];
    RefsAppend(sorted[..i], [sorted[i]]);
    assert Refs([sorted[i]]) == {sorted[i].Ref()};
  }

  lemma ReceivesSorted(received0: map<BlockRef, Block>, blocks: seq<Block>, sorted: seq<Block>,
                       received: map<BlockRef, Block>)
    requires multiset(sorted) == multiset(blocks)
    requires Receives(received0, sorted[..|sorted|], received)
    ensures Receives(received0, blocks, received)
  {
    assert sorted[..|sorted|] == sorted;
    assert forall b :: b in blocks <==> b in multiset(blocks);
    assert forall b :: b in sorted <==> b in multiset(sorted);
  }

  predicate SortedByRound(blocks: seq<Block>) {
    forall i, j :: 0 <= i < j < |blocks| ==> blocks[i].round <= blocks[j].round
  }

  /** Sorts blocks by round. */
  method SortByRound(blocks: seq<Block>) returns (sorted: seq<Block>)
    ensures multiset(sorted) == multiset(blocks)
    ensures SortedByRound(sorted)
  {
    hide SortedByRound;
    sorted := [];
    EmptyIsSorted();
    assert blocks[..0] == [];
    for n := 0 to |blocks|
      invariant multiset(sorted) == multiset(blocks[..n])
      invariant SortedByRound(sorted)
    {
      assert blocks[..n + 1] == blocks[..n] + [blocks[n]];
      sorted := InsertByRound(sorted, blocks[n]);
    }
    assert blocks[..|blocks|] == blocks;
  }

  lemma EmptyIsSorted()
    ensures SortedByRound([])
  {
  }

  method InsertByRound(sorted: seq<Block>, b: Block) returns (sorted': seq<Block>)
    requires SortedByRound(sorted)
    ensures SortedByRound(sorted')
    ensures multiset(sorted') == multiset(sorted) + multiset{b}
  {
    var k := |sorted|;
    while k > 0 && sorted[k - 1].round > b.round
      invariant 0 <= k <= |sorted|
      invariant forall i :: k <= i < |sorted| ==> sorted[i].round > b.round
    {
      k := k - 1;
    }
    sorted' := sorted[..k] + [b] + sorted[k..];
    InsertKeepsSorted(sorted, b, k);
    hide SortedByRound;
    assert sorted == sorted[..k] + sorted[k..];
  }

  lemma InsertKeepsSorted(sorted: seq<Block>, b: Block, k: nat)
    requires SortedByRound(sorted) && k <= |sorted|
    requires forall i :: k <= i < |sorted| ==> sorted[i].round > b.round
    requires k > 0 ==> sorted[k - 1].round <= b.round
    ensures SortedByRound(sorted[..k] + [b] + sorted[k..])
  {
  }

  lemma NothingNew(dag: map<BlockRef, Block>, accepted: set<BlockRef>)
    ensures DistinctRefs([]) && Refs([]) == {} && AddAll(dag, []) == dag && Flatten([]) == []
    ensures forall round :: CausallyOrdered(accepted, round, [])
  {
  }

  lemma ReleasedOrder(suspended0: Suspensions, waiting0: Waiting, root: BlockRef,
                      suspended: Suspensions, waiting: Waiting, released: seq<Block>)
    requires Released(suspended0, waiting0, root, suspended, waiting, released)
    ensures ReleasedInOrder(suspended0, root, released)
  {
  }

  /** A received block that waits for nothing is ready to be accepted. */
  lemma BeforeRoot(genesis: set<BlockRef>, received: map<BlockRef, Block>, gcRound: Round, dag: map<BlockRef, Block>,
                   suspended: Suspensions, waiting: Waiting, missingBlocks: set<BlockRef>, b: Block)
    requires ValidIndex(genesis, received, gcRound, dag, suspended, waiting, missingBlocks)
    requires b.Ref() !in suspended
    requires Unaccepted(genesis + dag.Keys, gcRound, b.ancestors) == {}
    ensures Consistent(genesis, genesis + dag.Keys, gcRound, suspended, waiting)
    ensures forall a :: a in waiting ==> a.round > gcRound
    ensures missingBlocks == Missing(suspended, waiting)
    ensures DagIsVerified(genesis, dag) && IsGenesis(genesis)
    ensures Tracks(received[b.Ref() := b], gcRound, dag[b.Ref() := b], suspended)
    ensures HistoryIn(genesis + dag.Keys, gcRound, b)
  {
    hide Consistent, DagIsVerified, IsGenesis;
    TracksRoot(received, gcRound, dag, suspended, b);
    assert suspended - {b.Ref()} == suspended;
    forall a | a in b.ancestors && a.round > gcRound
      ensures a in genesis + dag.Keys
    {
      assert a !in Unaccepted(genesis + dag.Keys, gcRound, b.ancestors);
    }
  }

  lemma SkipKeepsValid(genesis: set<BlockRef>, received: map<BlockRef, Block>, gcRound: Round,
                       dag: map<BlockRef, Block>, suspended: Suspensions, waiting: Waiting,
                       missingBlocks: set<BlockRef>, b: Block)
    requires ValidIndex(genesis, received, gcRound, dag, suspended, waiting, missingBlocks)
    requires b.Ref() in received ==> received[b.Ref()] == b
    requires b.Ref() in genesis || b.Ref() in dag || b.Ref() in suspended || b.round <= gcRound
    ensures ValidIndex(genesis, received[b.Ref() := b], gcRound, dag, suspended, waiting, missingBlocks)
  {
    hide Consistent, DagIsVerified;
    TracksSkipped(received, gcRound, dag, suspended, b);
  }

  ghost predicate WaitingWithout(waiting0: Waiting, waiting: Waiting, processed: set<BlockRef>) {
    && waiting.Keys == waiting0.Keys - processed
    && forall a :: a in waiting ==> waiting[a] == waiting0[a]
  }

  lemma WaitingStep(waiting0: Waiting, waiting: Waiting, processed: set<BlockRef>, r: BlockRef)
    requires WaitingWithout(waiting0, waiting, processed) && r !in processed
    ensures r in waiting <==> r in waiting0
    ensures r in waiting ==> waiting[r] == waiting0[r]
    ensures WaitingWithout(waiting0, waiting - {r}, processed + {r})
  {
  }

  lemma SingleElement(r: BlockRef)
    ensures NoDuplicates([r]) && Elements([r]) == {r}
  {
  }

  lemma NoElements()
    ensures Elements([]) == {}
  {
  }

  lemma PopLast(s: seq<BlockRef>)
    requires NoDuplicates(s) && s != []
    ensures NoDuplicates(s[..|s| - 1])
    ensures s[|s| - 1] in Elements(s)
    ensures Elements(s[..|s| - 1]) == Elements(s) - {s[|s| - 1]}
  {
  }

  ghost function Elements(s: seq<BlockRef>): set<BlockRef> {
    set r | r in s
  }

  lemma PushAll(toProcess: seq<BlockRef>, freed: seq<Block>)
    requires NoDuplicates(toProcess)
    requires DistinctRefs(freed) && Refs(freed) !! Elements(toProcess)
    ensures |RefSeq(freed)| == |freed|
    ensures Elements(toProcess + RefSeq(freed)) == Elements(toProcess) + Refs(freed)
    ensures NoDuplicates(toProcess + RefSeq(freed))
  {
    var all := toProcess + RefSeq(freed);
    forall x | x in Refs(freed)
      ensures x in all
    {
      var b :| b in freed && b.Ref() == x;
      var i :| 0 <= i < |freed| && freed[i] == b;
      assert all[|toProcess| + i] == x;
    }
    forall i, j | 0 <= i < j < |all|
      ensures all[i] != all[j]
    {
      if i < |toProcess| <= j {
        assert freed[j - |toProcess|] in freed;
        assert all[i] in Elements(toProcess);
      }
    }
  }

  lemma SizeAfterRelease(before: Suspensions, after: Suspensions, freed: seq<Block>)
    requires DistinctRefs(freed) && Refs(freed) <= before.Keys
    requires after.Keys == before.Keys - Refs(freed)
    ensures |after| + |freed| == |before|
  {
    RefsCount(freed);
    assert |after.Keys| == |after| && |before.Keys| == |before|;
    assert before.Keys == after.Keys + Refs(freed);
  }

  lemma ReleasingFacts(suspended0: Suspensions, root: BlockRef, suspended: Suspensions,
                       processed: set<BlockRef>, frontier: set<BlockRef>, released: seq<Block>)
    requires Releasing(suspended0, root, suspended, processed, frontier, released)
    ensures processed !! frontier && processed + frontier == {root} + Refs(released)
    ensures suspended.Keys <= suspended0.Keys
    ensures forall c :: c in suspended ==> suspended[c].block == suspended0[c].block && suspended[c].missing != {}
  {
  }

  lemma ReleasingKeepsRefs(genesis: set<BlockRef>, suspended0: Suspensions, root: BlockRef, suspended: Suspensions,
                           processed: set<BlockRef>, frontier: set<BlockRef>, released: seq<Block>)
    requires WellSuspended(genesis, suspended0)
    requires Releasing(suspended0, root, suspended, processed, frontier, released)
    ensures forall c :: c in suspended ==> suspended[c].block.Ref() == c
  {
    hide ReleasedInOrder, IsVerified;
  }

  lemma StruckOffFacts(before: Suspensions, r: BlockRef, after: Suspensions, freed: seq<Block>)
    requires StruckOff(before, r, after, freed)
    ensures DistinctRefs(freed) && Refs(freed) <= before.Keys && after.Keys == before.Keys - Refs(freed)
  {
  }

  lemma StillWaits(before: Suspensions, r: BlockRef, after: Suspensions, freed: seq<Block>,
                   remaining: set<BlockRef>, c: BlockRef)
    requires StruckOffBut(before, r, after, freed, remaining) && c in remaining
    requires c in before && r in before[c].missing
    ensures c in after && r in after[c].missing
  {
  }

  lemma StrikeOffEnd(before: Suspensions, r: BlockRef, after: Suspensions, freed: seq<Block>)
    requires StruckOffBut(before, r, after, freed, {})
    ensures StruckOff(before, r, after, freed)
  {
  }

  // ----- what a manager holds

  lemma IsSettled(m: BlockManager)
    requires m.Valid() && m.ClosedAbove(m.gcRound)
    ensures Settled(m.genesis, m.received, m.gcRound, m.dag, m.suspended, m.waiting)
  {
  }

  /** Between calls a manager has accepted exactly the closure of what it received. */
  lemma ManagerHoldsClosure(m: BlockManager, r: BlockRef)
    requires m.Valid() && m.ClosedAbove(m.gcRound) && r.round > m.gcRound
    ensures r in m.dag <==> Acceptable(m.genesis, m.received, m.gcRound, r)
    ensures r in m.suspended <==> r in m.received && r !in m.dag
  {
    IsSettled(m);
    hide *;
    AcceptedIsClosure(m.genesis, m.received, m.gcRound, m.dag, m.suspended, m.waiting, r);
  }

  /** The order and the batches in which blocks arrive do not matter. */
  lemma ManagersAgree(m: BlockManager, n: BlockManager, r: BlockRef)
    requires m.Valid() && m.ClosedAbove(m.gcRound) && n.Valid() && n.ClosedAbove(n.gcRound)
    requires m.genesis == n.genesis && m.received == n.received && m.gcRound == n.gcRound < r.round
    ensures (r in m.dag <==> r in n.dag) && (r in m.suspended <==> r in n.suspended)
  {
    IsSettled(m);
    IsSettled(n);
    hide *;
    OrderDoesNotMatter(m.genesis, m.received, m.gcRound, m.dag, m.suspended, m.waiting, n.dag, n.suspended, n.waiting,
                       r);
  }
}
