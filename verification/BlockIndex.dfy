/** The suspension index of the block manager as plain values: what its three maps mean and
    how they change when blocks are suspended, released or garbage collected. */
module BlockIndex {
  import opened Blocks

  /** A received block together with the ancestors it still waits for. */
  datatype SuspendedBlock = SuspendedBlock(block: Block, missing: set<BlockRef>)

  type Suspensions = map<BlockRef, SuspendedBlock>
  type Waiting = map<BlockRef, set<BlockRef>>

  function RefSeq(blocks: seq<Block>): seq<BlockRef> {
    seq(|blocks|, i requires 0 <= i < |blocks| => blocks[i].Ref())
  }

  function Refs(blocks: seq<Block>): set<BlockRef> {
    set b | b in blocks :: b.Ref()
  }

  predicate DistinctRefs(blocks: seq<Block>) {
    forall i, j :: 0 <= i < j < |blocks| ==> blocks[i].Ref() != blocks[j].Ref()
  }

  ghost predicate NoDuplicates(s: seq<BlockRef>) {
    forall i, j :: 0 <= i < j < |s| ==> s[i] != s[j]
  }

  lemma SameRefs(blocks: seq<Block>, sorted: seq<Block>)
    requires multiset(sorted) == multiset(blocks)
    ensures Refs(sorted) == Refs(blocks)
    ensures forall b :: b in sorted <==> b in blocks
  {
    forall b
      ensures b in sorted <==> b in blocks
    {
      assert b in sorted <==> b in multiset(sorted);
      assert b in blocks <==> b in multiset(blocks);
    }
  }

  lemma {:induction false} DistinctSorted(blocks: seq<Block>, sorted: seq<Block>)
    requires multiset(sorted) == multiset(blocks) && DistinctRefs(blocks)
    ensures DistinctRefs(sorted)
  {
    forall i, j | 0 <= i < j < |sorted|
      ensures sorted[i].Ref() != sorted[j].Ref()
    {
      if sorted[i].Ref() == sorted[j].Ref() {
        SameRefs(blocks, sorted);
        assert sorted[i] in blocks && sorted[j] in blocks;
        var k :| 0 <= k < |blocks| && blocks[k] == sorted[i];
        var l :| 0 <= l < |blocks| && blocks[l] == sorted[j];
        assert k == l;
        TwiceInSequence(sorted, i, j);
        OnceInSequence(blocks, k);
        assert false;
      }
    }
  }

  lemma TwiceInSequence(s: seq<Block>, i: nat, j: nat)
    requires i < j < |s| && s[i] == s[j]
    ensures multiset(s)[s[i]] >= 2
  {
    assert s == s[..j] + [s[j]] + s[j + 1..];
    assert s[i] in s[..j];
    assert multiset(s) == multiset(s[..j]) + multiset{s[j]} + multiset(s[j + 1..]);
  }

  lemma OnceInSequence(s: seq<Block>, k: nat)
    requires k < |s| && DistinctRefs(s)
    ensures multiset(s)[s[k]] == 1
  {
    assert s == s[..k] + [s[k]] + s[k + 1..];
    assert s[k] !in s[..k] && s[k] !in s[k + 1..];
    assert multiset(s) == multiset(s[..k]) + multiset{s[k]} + multiset(s[k + 1..]);
  }

  /** A verified block: ancestors lie in lower rounds, and genesis ancestors are genuine. */
  predicate IsVerified(genesis: set<BlockRef>, b: Block) {
    forall a :: a in b.ancestors ==> a.round < b.round && (a.round == GENESIS_ROUND ==> a in genesis)
  }

  /** The two maps mirror each other: `c` is listed as waiting for `a` exactly when `c` is
      suspended and `a` is among its missing ancestors. */
  ghost predicate Mirrored(suspended: Suspensions, waiting: Waiting) {
    && (forall a, c :: a in waiting && c in waiting[a] ==> c in suspended && a in suspended[c].missing)
    && (forall c, a :: c in suspended && a in suspended[c].missing ==> a in waiting && c in waiting[a])
  }

  /** Suspended blocks are verified, filed under their own reference, and wait for something. */
  ghost predicate WellSuspended(genesis: set<BlockRef>, suspended: Suspensions) {
    forall c :: c in suspended ==>
      && suspended[c].block.Ref() == c
      && IsVerified(genesis, suspended[c].block)
      && suspended[c].missing != {}
  }

  /** What a suspended block waits for is exactly its ancestors above the garbage collection
      round that are not accepted. */
  ghost predicate WaitsExactly(accepted: set<BlockRef>, gcRound: Round, s: SuspendedBlock) {
    && (forall a :: a in s.missing ==> a in s.block.ancestors && a !in accepted)
    && (forall a :: a in s.block.ancestors && a.round > gcRound && a !in accepted ==> a in s.missing)
  }

  /** The invariant of the index, except that keys at or below the garbage collection round
      may still be listed. */
  ghost predicate Consistent(genesis: set<BlockRef>, accepted: set<BlockRef>, gcRound: Round,
                             suspended: Suspensions, waiting: Waiting)
  {
    && genesis <= accepted
    && WellSuspended(genesis, suspended)
    && Mirrored(suspended, waiting)
    && suspended.Keys !! accepted
    && waiting.Keys !! accepted
    && (forall c :: c in suspended ==> WaitsExactly(accepted, gcRound, suspended[c]))
  }

  /** The references that still have to be fetched. */
  function Missing(suspended: Suspensions, waiting: Waiting): set<BlockRef> {
    waiting.Keys - suspended.Keys
  }

  // ----- releasing the blocks that wait for a resolved one

  /** The released blocks in causal order: each waited only for the root and earlier ones. */
  ghost predicate ReleasedInOrder(suspended0: Suspensions, root: BlockRef, released: seq<Block>) {
    && DistinctRefs(released)
    && forall i :: 0 <= i < |released| ==> ReleasedAfter(suspended0, {root} + Refs(released[..i]), released[i])
  }

  ghost predicate ReleasedAfter(suspended0: Suspensions, resolved: set<BlockRef>, b: Block) {
    && b.Ref() in suspended0
    && suspended0[b.Ref()].block == b
    && suspended0[b.Ref()].missing <= resolved
  }

  /** Progress of the release: `processed` references have been struck off everywhere, those in
      `frontier` are resolved but not yet struck off. */
  ghost predicate Releasing(suspended0: Suspensions, root: BlockRef, suspended: Suspensions,
                            processed: set<BlockRef>, frontier: set<BlockRef>, released: seq<Block>)
  {
    && processed !! frontier
    && processed + frontier == {root} + Refs(released)
    && ReleasedInOrder(suspended0, root, released)
    && (forall b :: b in released ==> b.Ref() in suspended0 && suspended0[b.Ref()].missing <= processed)
    && suspended.Keys == suspended0.Keys - Refs(released)
    && (forall c :: c in suspended ==>
          && suspended[c].block == suspended0[c].block
          && suspended[c].missing == suspended0[c].missing - processed
          && suspended[c].missing != {})
  }

  /** The outcome: exactly the blocks that depended on nothing but the root are gone. */
  ghost predicate Released(suspended0: Suspensions, waiting0: Waiting, root: BlockRef,
                           suspended: Suspensions, waiting: Waiting, released: seq<Block>)
  {
    && Releasing(suspended0, root, suspended, {root} + Refs(released), {}, released)
    && waiting.Keys == waiting0.Keys - ({root} + Refs(released))
    && (forall a :: a in waiting ==> waiting[a] == waiting0[a])
  }

  /** Striking off one reference: the blocks that waited only for it are released. */
  ghost predicate StruckOff(before: Suspensions, r: BlockRef, after: Suspensions, freed: seq<Block>) {
    && DistinctRefs(freed)
    && (forall b :: b in freed ==> b.Ref() in before && before[b.Ref()] == SuspendedBlock(b, {r}))
    && after.Keys == before.Keys - Refs(freed)
    && (forall c :: c in after ==> after[c] == SuspendedBlock(before[c].block, before[c].missing - {r}))
    && (forall c :: c in after ==> after[c].missing != {})
  }

  lemma RefsAppend(bs: seq<Block>, cs: seq<Block>)
    ensures Refs(bs + cs) == Refs(bs) + Refs(cs)
  {
    forall x | x in Refs(bs) + Refs(cs)
      ensures x in Refs(bs + cs)
    {
      if x in Refs(bs) {
        var b :| b in bs && b.Ref() == x;
        assert b in bs + cs;
      } else {
        var b :| b in cs && b.Ref() == x;
        assert b in bs + cs;
      }
    }
  }

  lemma {:induction false} RefsCount(blocks: seq<Block>)
    requires DistinctRefs(blocks)
    ensures |Refs(blocks)| == |blocks|
  {
    if blocks == [] {
      assert Refs(blocks) == {};
    } else {
      var n := |blocks| - 1;
      RefsCount(blocks[..n]);
      assert blocks == blocks[..n] + [blocks[n]];
      RefsAppend(blocks[..n], [blocks[n]]);
      assert Refs([blocks[n]]) == {blocks[n].Ref()};
      assert blocks[n].Ref() !in Refs(blocks[..n]);
    }
  }

  lemma DistinctAppend(blocks: seq<Block>, b: Block)
    requires DistinctRefs(blocks) && b.Ref() !in Refs(blocks)
    ensures DistinctRefs(blocks + [b]) && Refs(blocks + [b]) == Refs(blocks) + {b.Ref()}
  {
    RefsAppend(blocks, [b]);
    assert Refs([b]) == {b.Ref()};
    forall i | 0 <= i < |blocks|
      ensures blocks[i].Ref() != b.Ref()
    {
      assert blocks[i].Ref() in Refs(blocks);
    }
  }

  lemma DistinctPrepend(b: Block, blocks: seq<Block>)
    requires DistinctRefs(blocks) && b.Ref() !in Refs(blocks)
    ensures DistinctRefs([b] + blocks) && Refs([b] + blocks) == {b.Ref()} + Refs(blocks)
  {
    RefsAppend([b], blocks);
    assert Refs([b]) == {b.Ref()};
    forall i | 0 <= i < |blocks|
      ensures blocks[i].Ref() != b.Ref()
    {
      assert blocks[i].Ref() in Refs(blocks);
    }
  }

  /** One round of the release. */
  lemma ReleaseStep(suspended0: Suspensions, root: BlockRef, suspended: Suspensions, processed: set<BlockRef>,
                    frontier: set<BlockRef>, released: seq<Block>, r: BlockRef, suspended': Suspensions,
                    freed: seq<Block>)
    requires root !in suspended0
    requires Releasing(suspended0, root, suspended, processed, frontier, released)
    requires r in frontier
    requires StruckOff(suspended, r, suspended', freed)
    ensures Refs(freed) !! processed + frontier
    ensures Releasing(suspended0, root, suspended', processed + {r}, frontier - {r} + Refs(freed), released + freed)
  {
    RefsAppend(released, freed);
    assert Refs(freed) !! {root} + Refs(released) by {
      forall b | b in freed
        ensures b.Ref() !in {root} + Refs(released)
      {
        assert b.Ref() in suspended;
      }
    }
    ReleaseKeepsOrder(suspended0, root, suspended, processed, frontier, released, r, freed);
    forall c | c in suspended'
      ensures suspended'[c].missing == suspended0[c].missing - (processed + {r})
    {
      assert c in suspended;
    }
    forall b | b in released + freed
      ensures b.Ref() in suspended0 && suspended0[b.Ref()].missing <= processed + {r}
    {
      if b in freed {
        assert suspended0[b.Ref()].missing - processed == {r};
      }
    }
  }

  /** Nothing is resolved or released at the start but the root. */
  lemma ReleaseStart(suspended0: Suspensions, root: BlockRef)
    requires forall c :: c in suspended0 ==> suspended0[c].missing != {}
    ensures Releasing(suspended0, root, suspended0, {}, {root}, [])
  {
    assert Refs([]) == {};
  }

  /** The waiting list of a reference names exactly the suspended blocks that miss it. */
  lemma ChildrenAreExact(suspended0: Suspensions, waiting0: Waiting, root: BlockRef, suspended: Suspensions,
                         processed: set<BlockRef>, frontier: set<BlockRef>, released: seq<Block>,
                         r: BlockRef, children: set<BlockRef>)
    requires Mirrored(suspended0, waiting0)
    requires Releasing(suspended0, root, suspended, processed, frontier, released)
    requires r in frontier
    requires children == if r in waiting0 then waiting0[r] else {}
    ensures forall c :: c in children <==> c in suspended && r in suspended[c].missing
  {
    hide ReleasedInOrder;
    forall c | c in children
      ensures c in suspended && r in suspended[c].missing
    {
      assert c in suspended0 && r in suspended0[c].missing;
      assert c !in Refs(released);
    }
  }

  // ----- striking off one reference, child by child

  /** What is left of striking off when some children are still to be visited. */
  ghost predicate StruckOffBut(before: Suspensions, r: BlockRef, after: Suspensions, freed: seq<Block>,
                               remaining: set<BlockRef>)
  {
    && DistinctRefs(freed)
    && remaining <= after.Keys
    && (forall b :: b in freed ==> b.Ref() in before && before[b.Ref()] == SuspendedBlock(b, {r}))
    && after.Keys == before.Keys - Refs(freed)
    && (forall c :: c in after ==>
          && after[c].missing != {}
          && after[c].block == before[c].block
          && after[c].missing == (if c in remaining then before[c].missing else before[c].missing - {r}))
  }

  lemma StrikeOffStart(before: Suspensions, r: BlockRef, children: set<BlockRef>)
    requires forall c :: c in before ==> before[c].missing != {}
    requires forall c :: c in children <==> c in before && r in before[c].missing
    ensures StruckOffBut(before, r, before, [], children)
  {
    assert Refs([]) == {};
  }

  lemma StrikeOffStep(before: Suspensions, r: BlockRef, after: Suspensions, freed: seq<Block>,
                      remaining: set<BlockRef>, c: BlockRef, after': Suspensions, now: seq<Block>)
    requires forall x :: x in before ==> before[x].block.Ref() == x
    requires StruckOffBut(before, r, after, freed, remaining) && c in remaining
    requires if now == [] then
               && after[c].missing - {r} != {}
               && after' == after[c := SuspendedBlock(after[c].block, after[c].missing - {r})]
             else
               && |now| == 1
               && after[c] == SuspendedBlock(now[0], {r})
               && after' == after - {c}
    ensures StruckOffBut(before, r, after', freed + now, remaining - {c})
  {
    hide Refs, DistinctRefs;
    if now != [] {
      assert now[0].Ref() == c;
      assert now == [now[0]];
      DistinctAppend(freed, now[0]);
    } else {
      assert freed + now == freed;
    }
  }

  lemma ReleaseKeepsOrder(suspended0: Suspensions, root: BlockRef, suspended: Suspensions, processed: set<BlockRef>,
                          frontier: set<BlockRef>, released: seq<Block>, r: BlockRef, freed: seq<Block>)
    requires root !in suspended0
    requires Releasing(suspended0, root, suspended, processed, frontier, released)
    requires r in frontier
    requires DistinctRefs(freed)
    requires forall b :: b in freed ==> b.Ref() in suspended && suspended[b.Ref()] == SuspendedBlock(b, {r})
    ensures ReleasedInOrder(suspended0, root, released + freed)
  {
    var all := released + freed;
    var n := |released|;
    forall i, j | 0 <= i < j < |all|
      ensures all[i].Ref() != all[j].Ref()
    {
      if i < n <= j {
        assert all[j] in freed && all[i] in released;
        assert all[j].Ref() in suspended && all[i].Ref() in Refs(released);
      }
    }
    forall i | 0 <= i < |all|
      ensures ReleasedAfter(suspended0, {root} + Refs(all[..i]), all[i])
    {
      if i < n {
        assert all[..i] == released[..i];
      } else {
        var b := all[i];
        assert b in freed;
        assert suspended0[b.Ref()].missing - processed == {r};
        assert all[..i] == released + freed[..i - n];
        RefsAppend(released, freed[..i - n]);
        forall x | x in suspended0[b.Ref()].missing
          ensures x in {root} + Refs(all[..i])
        {
          assert x in processed || x in suspended0[b.Ref()].missing - processed;
          assert x in processed + frontier;
        }
      }
    }
  }

  // ----- consistency after the release

  /** Accepting the released blocks, and the root unless it was garbage collected, keeps the
      index consistent. */
  lemma ReleaseIsConsistent(genesis: set<BlockRef>, accepted: set<BlockRef>, gcRound: Round, suspended0: Suspensions,
                            waiting0: Waiting, root: BlockRef, suspended: Suspensions, waiting: Waiting,
                            released: seq<Block>, accepted': set<BlockRef>)
    requires WellSuspended(genesis, suspended0) && Mirrored(suspended0, waiting0)
    requires suspended0.Keys !! accepted && waiting0.Keys !! accepted && genesis <= accepted
    requires forall c :: c in suspended0 ==> WaitsExactly(accepted, gcRound, suspended0[c])
    requires root !in suspended0
    requires Released(suspended0, waiting0, root, suspended, waiting, released)
    requires accepted' == accepted + {root} + Refs(released)
          || (root.round <= gcRound && accepted' == accepted + Refs(released))
    ensures Consistent(genesis, accepted', gcRound, suspended, waiting)
  {
    var resolved := {root} + Refs(released);
    forall c | c in suspended
      ensures WaitsExactly(accepted', gcRound, suspended[c])
    {
      assert WaitsExactly(accepted, gcRound, suspended0[c]);
    }
    ReleaseKeepsMirror(suspended0, waiting0, root, suspended, waiting, released);
  }

  lemma ReleaseKeepsMirror(suspended0: Suspensions, waiting0: Waiting, root: BlockRef,
                           suspended: Suspensions, waiting: Waiting, released: seq<Block>)
    requires Mirrored(suspended0, waiting0)
    requires Released(suspended0, waiting0, root, suspended, waiting, released)
    ensures Mirrored(suspended, waiting)
  {
    hide Refs, ReleasedInOrder;
    forall a, c | a in waiting && c in waiting[a]
      ensures c in suspended && a in suspended[c].missing
    {
      assert c in suspended0 && a in suspended0[c].missing;
      if c in Refs(released) {
        ReleasedWaitedForResolved(suspended0, root, released, c);
      }
    }
  }

  lemma ReleasedWaitedForResolved(suspended0: Suspensions, root: BlockRef, released: seq<Block>, c: BlockRef)
    requires ReleasedInOrder(suspended0, root, released) && c in Refs(released)
    ensures c in suspended0 && suspended0[c].missing <= {root} + Refs(released)
  {
    var i := IndexOfRef(released, c);
    PrefixRefs(released, i);
    hide Refs;
    assert ReleasedAfter(suspended0, {root} + Refs(released[..i]), released[i]);
  }

  lemma IndexOfRef(blocks: seq<Block>, c: BlockRef) returns (i: nat)
    requires c in Refs(blocks)
    ensures i < |blocks| && blocks[i].Ref() == c
  {
    var b :| b in blocks && b.Ref() == c;
    i :| 0 <= i < |blocks| && blocks[i] == b;
  }

  lemma PrefixRefs(blocks: seq<Block>, i: nat)
    requires i <= |blocks|
    ensures Refs(blocks[..i]) <= Refs(blocks)
  {
  }

  // ----- suspending a block

  /** The ancestors of a block that must be accepted before it and are not. */
  function Unaccepted(accepted: set<BlockRef>, gcRound: Round, ancestors: seq<BlockRef>): set<BlockRef> {
    set a | a in ancestors && (a.round == GENESIS_ROUND || a.round > gcRound) && a !in accepted
  }

  /** Lists `c` as waiting for each of the missing references. */
  function AddWaiter(waiting: Waiting, missing: set<BlockRef>, c: BlockRef): Waiting {
    map a | a in waiting.Keys + missing ::
      (if a in waiting then waiting[a] else {}) + (if a in missing then {c} else {})
  }

  lemma AddWaiterStep(waiting: Waiting, missing: set<BlockRef>, c: BlockRef, a: BlockRef)
    ensures var now := AddWaiter(waiting, missing, c);
            AddWaiter(waiting, missing + {a}, c) == now[a := (if a in now then now[a] else {}) + {c}]
  {
    var now := AddWaiter(waiting, missing, c);
    var next := AddWaiter(waiting, missing + {a}, c);
    var set' := now[a := (if a in now then now[a] else {}) + {c}];
    assert next.Keys == set'.Keys;
    forall x | x in next
      ensures next[x] == set'[x]
    {
    }
  }

  lemma AddNoWaiter(waiting: Waiting, c: BlockRef)
    ensures AddWaiter(waiting, {}, c) == waiting
  {
    assert AddWaiter(waiting, {}, c).Keys == waiting.Keys;
    forall a | a in waiting
      ensures AddWaiter(waiting, {}, c)[a] == waiting[a]
    {
    }
  }

  lemma SuspendIsConsistent(genesis: set<BlockRef>, accepted: set<BlockRef>, gcRound: Round,
                            suspended: Suspensions, waiting: Waiting, b: Block, missing: set<BlockRef>)
    requires Consistent(genesis, accepted, gcRound, suspended, waiting)
    requires IsVerified(genesis, b) && b.Ref() !in suspended && b.Ref() !in accepted
    requires missing == Unaccepted(accepted, gcRound, b.ancestors) && missing != {}
    ensures Consistent(genesis, accepted, gcRound, suspended[b.Ref() := SuspendedBlock(b, missing)],
                       AddWaiter(waiting, missing, b.Ref()))
  {
    SuspendKeepsMirror(suspended, waiting, b, missing);
  }

  lemma SuspendKeepsMirror(suspended: Suspensions, waiting: Waiting, b: Block, missing: set<BlockRef>)
    requires Mirrored(suspended, waiting) && b.Ref() !in suspended
    ensures Mirrored(suspended[b.Ref() := SuspendedBlock(b, missing)], AddWaiter(waiting, missing, b.Ref()))
  {
    var c0 := b.Ref();
    var suspended', waiting' := suspended[c0 := SuspendedBlock(b, missing)], AddWaiter(waiting, missing, c0);
    forall a, c | a in waiting' && c in waiting'[a]
      ensures c in suspended' && a in suspended'[c].missing
    {
      if c == c0 {
        assert a in waiting && c0 in waiting[a] ==> c0 in suspended;
      }
    }
  }

  // ----- taking a suspended block out by force

  /** Removes `c` from the lists of the references it waits for. */
  function RemoveWaiter(waiting: Waiting, missing: set<BlockRef>, c: BlockRef): Waiting {
    map a | a in waiting :: if a in missing then waiting[a] - {c} else waiting[a]
  }

  lemma RemoveWaiterStep(waiting: Waiting, missing: set<BlockRef>, c: BlockRef, a: BlockRef)
    ensures var now := RemoveWaiter(waiting, missing, c);
            RemoveWaiter(waiting, missing + {a}, c) == if a in now then now[a := now[a] - {c}] else now
  {
    var now := RemoveWaiter(waiting, missing, c);
    var next := RemoveWaiter(waiting, missing + {a}, c);
    assert next.Keys == now.Keys;
    forall x | x in next
      ensures next[x] == (if a in now then now[a := now[a] - {c}] else now)[x]
    {
    }
  }

  lemma RemoveNoWaiter(waiting: Waiting, c: BlockRef)
    ensures RemoveWaiter(waiting, {}, c) == waiting
  {
    assert RemoveWaiter(waiting, {}, c).Keys == waiting.Keys;
  }

  lemma WithdrawKeepsMirror(suspended: Suspensions, waiting: Waiting, c: BlockRef)
    requires Mirrored(suspended, waiting) && c in suspended
    ensures Mirrored(suspended - {c}, RemoveWaiter(waiting, suspended[c].missing, c))
  {
    var suspended', waiting' := suspended - {c}, RemoveWaiter(waiting, suspended[c].missing, c);
    forall a, x | a in waiting' && x in waiting'[a]
      ensures x in suspended' && a in suspended'[x].missing
    {
      assert x in waiting[a];
    }
    forall x, a | x in suspended' && a in suspended'[x].missing
      ensures a in waiting' && x in waiting'[a]
    {
      assert a in waiting && x in waiting[a];
    }
  }

  // ----- garbage collection

  /** The first waited-for reference is never itself suspended: what it would wait for is
      listed too, and comes before it. */
  lemma FirstIsNotSuspended(genesis: set<BlockRef>, accepted: set<BlockRef>, gcRound: Round,
                            suspended: Suspensions, waiting: Waiting, first: BlockRef)
    requires Consistent(genesis, accepted, gcRound, suspended, waiting)
    requires first in waiting && forall x :: x in waiting && x != first ==> first.Less(x)
    ensures first !in suspended
  {
    hide *;
    if first in suspended {
      var a := WaitsForEarlier(genesis, accepted, gcRound, suspended, waiting, first);
    }
  }

  /** A suspended block waits for something of an earlier round that is listed as waited for. */
  lemma WaitsForEarlier(genesis: set<BlockRef>, accepted: set<BlockRef>, gcRound: Round,
                        suspended: Suspensions, waiting: Waiting, c: BlockRef) returns (a: BlockRef)
    requires Consistent(genesis, accepted, gcRound, suspended, waiting) && c in suspended
    ensures a in waiting && a in suspended[c].block.ancestors && a !in accepted
    ensures a.round < c.round && a.Less(c) && !c.Less(a)
  {
    a :| a in suspended[c].missing;
    assert WaitsExactly(accepted, gcRound, suspended[c]);
  }

  lemma LaterGcIsConsistent(genesis: set<BlockRef>, accepted: set<BlockRef>, gcRound: Round, gcRound': Round,
                            suspended: Suspensions, waiting: Waiting)
    requires Consistent(genesis, accepted, gcRound, suspended, waiting)
    requires gcRound <= gcRound'
    ensures Consistent(genesis, accepted, gcRound', suspended, waiting)
  {
    forall c | c in suspended
      ensures WaitsExactly(accepted, gcRound', suspended[c])
    {
      assert WaitsExactly(accepted, gcRound, suspended[c]);
    }
  }

  // ----- the closure that the index computes incrementally

  /** Received, above the garbage collection round, and with all history above it acceptable. */
  ghost predicate Acceptable(genesis: set<BlockRef>, received: map<BlockRef, Block>, gcRound: Round, r: BlockRef)
    decreases r.round
  {
    && r in received
    && r.round > gcRound
    && forall a :: a in received[r].ancestors && a.round > gcRound ==>
         a in genesis || (a.round < r.round && Acceptable(genesis, received, gcRound, a))
  }

  /** Received blocks above the garbage collection round are either accepted or suspended. */
  ghost predicate Tracks(received: map<BlockRef, Block>, gcRound: Round, dag: map<BlockRef, Block>,
                         suspended: Suspensions)
  {
    && (forall r :: r in received && r.round > gcRound ==> r in dag || r in suspended)
    && (forall r :: r in dag ==> r in received && received[r] == dag[r])
    && (forall r :: r in suspended ==> r in received && received[r] == suspended[r].block)
  }

  /** The history of accepted blocks above the garbage collection round is accepted. */
  ghost predicate ClosedAt(genesis: set<BlockRef>, dag: map<BlockRef, Block>, gcRound: Round) {
    forall r, a :: r in dag && a in dag[r].ancestors && a.round > gcRound ==> a in genesis || a in dag
  }

  /** The invariant between calls. */
  ghost predicate ValidIndex(genesis: set<BlockRef>, received: map<BlockRef, Block>, gcRound: Round,
                             dag: map<BlockRef, Block>, suspended: Suspensions, waiting: Waiting,
                             missingBlocks: set<BlockRef>)
  {
    && Consistent(genesis, genesis + dag.Keys, gcRound, suspended, waiting)
    && (forall a :: a in waiting ==> a.round > gcRound)
    && missingBlocks == Missing(suspended, waiting)
    && Tracks(received, gcRound, dag, suspended)
    && DagIsVerified(genesis, dag)
    && IsGenesis(genesis)
  }

  ghost predicate IsGenesis(genesis: set<BlockRef>) {
    forall g :: g in genesis ==> g.round == GENESIS_ROUND
  }

  ghost predicate DagIsVerified(genesis: set<BlockRef>, dag: map<BlockRef, Block>) {
    forall r :: r in dag ==> dag[r].Ref() == r && IsVerified(genesis, dag[r])
  }

  /** The invariant together with a closed block store. */
  ghost predicate Settled(genesis: set<BlockRef>, received: map<BlockRef, Block>, gcRound: Round,
                          dag: map<BlockRef, Block>, suspended: Suspensions, waiting: Waiting)
  {
    && ValidIndex(genesis, received, gcRound, dag, suspended, waiting, Missing(suspended, waiting))
    && ClosedAt(genesis, dag, gcRound)
  }

  lemma SettledAccepted(genesis: set<BlockRef>, received: map<BlockRef, Block>, gcRound: Round,
                        dag: map<BlockRef, Block>, suspended: Suspensions, waiting: Waiting, r: BlockRef)
    requires Settled(genesis, received, gcRound, dag, suspended, waiting) && r in dag
    ensures r in received && r !in suspended
    ensures forall a :: a in received[r].ancestors ==>
              a.round < r.round && (a.round > gcRound ==> a in genesis || a in dag)
  {
    hide Mirrored, WellSuspended, WaitsExactly;
    assert IsVerified(genesis, dag[r]);
  }

  lemma SettledSuspended(genesis: set<BlockRef>, received: map<BlockRef, Block>, gcRound: Round,
                         dag: map<BlockRef, Block>, suspended: Suspensions, waiting: Waiting, r: BlockRef)
    returns (a: BlockRef)
    requires Settled(genesis, received, gcRound, dag, suspended, waiting) && r in suspended
    ensures r in received && r !in dag && a in received[r].ancestors
    ensures gcRound < a.round < r.round && a !in dag && a !in genesis
  {
    hide Mirrored, WellSuspended, WaitsExactly, IsVerified, ClosedAt;
    a := WaitsForEarlier(genesis, genesis + dag.Keys, gcRound, suspended, waiting, r);
  }

  lemma SettledReceived(genesis: set<BlockRef>, received: map<BlockRef, Block>, gcRound: Round,
                        dag: map<BlockRef, Block>, suspended: Suspensions, waiting: Waiting, r: BlockRef)
    requires Settled(genesis, received, gcRound, dag, suspended, waiting)
    requires r in received && r.round > gcRound
    ensures r in dag || r in suspended
  {
    hide Consistent, ClosedAt, IsVerified;
  }

  /** Whatever the order and batching in which blocks arrived and rounds were garbage collected,
      the accepted and the suspended blocks are determined by what was received. */
  lemma {:induction false} AcceptedIsClosure(genesis: set<BlockRef>, received: map<BlockRef, Block>, gcRound: Round,
                                             dag: map<BlockRef, Block>, suspended: Suspensions, waiting: Waiting,
                                             r: BlockRef)
    requires Settled(genesis, received, gcRound, dag, suspended, waiting)
    requires r.round > gcRound
    ensures r in dag <==> Acceptable(genesis, received, gcRound, r)
    ensures r in suspended <==> r in received && !Acceptable(genesis, received, gcRound, r)
    decreases r.round
  {
    hide Settled;
    if r in dag {
      SettledAccepted(genesis, received, gcRound, dag, suspended, waiting, r);
      forall a | a in received[r].ancestors && a.round > gcRound
        ensures a in genesis || (a.round < r.round && Acceptable(genesis, received, gcRound, a))
      {
        AcceptedIsClosure(genesis, received, gcRound, dag, suspended, waiting, a);
      }
    } else if r in suspended {
      var a := SettledSuspended(genesis, received, gcRound, dag, suspended, waiting, r);
      AcceptedIsClosure(genesis, received, gcRound, dag, suspended, waiting, a);
    } else if r in received {
      SettledReceived(genesis, received, gcRound, dag, suspended, waiting, r);
      assert false;
    }
  }

  /** Two managers that received the same blocks and collected garbage up to the same round hold
      the same blocks above it, accepted and suspended. */
  lemma OrderDoesNotMatter(genesis: set<BlockRef>, received: map<BlockRef, Block>, gcRound: Round,
                           dag1: map<BlockRef, Block>, suspended1: Suspensions, waiting1: Waiting,
                           dag2: map<BlockRef, Block>, suspended2: Suspensions, waiting2: Waiting, r: BlockRef)
    requires Settled(genesis, received, gcRound, dag1, suspended1, waiting1)
    requires Settled(genesis, received, gcRound, dag2, suspended2, waiting2)
    requires r.round > gcRound
    ensures (r in dag1 <==> r in dag2) && (r in suspended1 <==> r in suspended2)
  {
    hide Settled;
    AcceptedIsClosure(genesis, received, gcRound, dag1, suspended1, waiting1, r);
    AcceptedIsClosure(genesis, received, gcRound, dag2, suspended2, waiting2, r);
  }

  // ----- the block store

  function AddAll(dag: map<BlockRef, Block>, blocks: seq<Block>): map<BlockRef, Block> {
    if blocks == [] then dag
    else
      var n := |blocks| - 1;
      AddAll(dag, blocks[..n])[blocks[n].Ref() := blocks[n]]
  }

  lemma {:induction false} AddAllKeys(dag: map<BlockRef, Block>, blocks: seq<Block>)
    ensures AddAll(dag, blocks).Keys == dag.Keys + Refs(blocks)
    ensures forall r :: r in dag && r !in Refs(blocks) ==> AddAll(dag, blocks)[r] == dag[r]
  {
    if blocks == [] {
      assert Refs(blocks) == {};
    } else {
      var n := |blocks| - 1;
      AddAllKeys(dag, blocks[..n]);
      assert blocks == blocks[..n] + [blocks[n]];
      RefsAppend(blocks[..n], [blocks[n]]);
      assert Refs([blocks[n]]) == {blocks[n].Ref()};
    }
  }

  lemma {:induction false} AddAllValue(dag: map<BlockRef, Block>, blocks: seq<Block>, i: nat)
    requires DistinctRefs(blocks) && i < |blocks|
    ensures blocks[i].Ref() in AddAll(dag, blocks) && AddAll(dag, blocks)[blocks[i].Ref()] == blocks[i]
  {
    var n := |blocks| - 1;
    if i < n {
      AddAllValue(dag, blocks[..n], i);
    }
  }

  lemma AddAllContents(dag: map<BlockRef, Block>, blocks: seq<Block>)
    requires DistinctRefs(blocks)
    ensures AddAll(dag, blocks).Keys == dag.Keys + Refs(blocks)
    ensures forall b :: b in blocks ==> AddAll(dag, blocks)[b.Ref()] == b
    ensures forall r :: r in dag && r !in Refs(blocks) ==> AddAll(dag, blocks)[r] == dag[r]
  {
    hide AddAll;
    AddAllKeys(dag, blocks);
    forall b | b in blocks
      ensures AddAll(dag, blocks)[b.Ref()] == b
    {
      var i :| 0 <= i < |blocks| && blocks[i] == b;
      AddAllValue(dag, blocks, i);
    }
  }

  // ----- the invariant is kept

  lemma SuspendKeepsValid(genesis: set<BlockRef>, received: map<BlockRef, Block>, gcRound: Round,
                          dag: map<BlockRef, Block>, suspended: Suspensions, waiting: Waiting,
                          missingBlocks: set<BlockRef>, b: Block, missing: set<BlockRef>)
    requires ValidIndex(genesis, received, gcRound, dag, suspended, waiting, missingBlocks)
    requires IsVerified(genesis, b) && b.Ref() !in suspended && b.Ref() !in genesis + dag.Keys
    requires missing == Unaccepted(genesis + dag.Keys, gcRound, b.ancestors) && missing != {}
    ensures ValidIndex(genesis, received[b.Ref() := b], gcRound, dag, suspended[b.Ref() := SuspendedBlock(b, missing)],
                       AddWaiter(waiting, missing, b.Ref()), missingBlocks + (missing - suspended.Keys) - {b.Ref()})
  {
    hide Consistent, Tracks, DagIsVerified, IsVerified, Mirrored, WellSuspended;
    ConsistentFacts(genesis, genesis + dag.Keys, gcRound, suspended, waiting);
    SuspendIsConsistent(genesis, genesis + dag.Keys, gcRound, suspended, waiting, b, missing);
    assert GENESIS_ROUND == 0;
    NoGenesisIsMissing(genesis, genesis + dag.Keys, gcRound, b);
    SuspendKeepsTracks(received, gcRound, dag, suspended, b, missing);
  }

  lemma NoGenesisIsMissing(genesis: set<BlockRef>, accepted: set<BlockRef>, gcRound: Round, b: Block)
    requires IsVerified(genesis, b) && genesis <= accepted
    ensures forall a :: a in Unaccepted(accepted, gcRound, b.ancestors) ==>
              a.round > gcRound && a !in accepted && a != b.Ref()
  {
  }

  lemma SuspendKeepsTracks(received: map<BlockRef, Block>, gcRound: Round, dag: map<BlockRef, Block>,
                           suspended: Suspensions, b: Block, missing: set<BlockRef>)
    requires Tracks(received, gcRound, dag, suspended) && b.Ref() !in suspended && b.Ref() !in dag
    ensures Tracks(received[b.Ref() := b], gcRound, dag, suspended[b.Ref() := SuspendedBlock(b, missing)])
  {
  }

  lemma ConsistentFacts(genesis: set<BlockRef>, accepted: set<BlockRef>, gcRound: Round,
                        suspended: Suspensions, waiting: Waiting)
    requires Consistent(genesis, accepted, gcRound, suspended, waiting)
    ensures genesis <= accepted && suspended.Keys !! accepted && waiting.Keys !! accepted
    ensures WellSuspended(genesis, suspended) && Mirrored(suspended, waiting)
  {
  }

  /** A root is accepted together with the blocks that depended on nothing else. `dag0` is the
      block store with the root. */
  lemma ReleaseKeepsValid(genesis: set<BlockRef>, received: map<BlockRef, Block>, gcRound: Round,
                          dag: map<BlockRef, Block>, suspended: Suspensions, waiting: Waiting,
                          missingBlocks: set<BlockRef>, root: BlockRef, suspended': Suspensions, waiting': Waiting,
                          released: seq<Block>, dag0: map<BlockRef, Block>)
    requires Consistent(genesis, genesis + dag.Keys, gcRound, suspended, waiting)
    requires forall a :: a in waiting ==> a.round > gcRound
    requires missingBlocks == Missing(suspended, waiting) - {root}
    requires root !in suspended
    requires Released(suspended, waiting, root, suspended', waiting', released)
    requires dag0.Keys == dag.Keys + {root}
    requires DagIsVerified(genesis, dag0) && Tracks(received, gcRound, dag0, suspended) && IsGenesis(genesis)
    ensures ValidIndex(genesis, received, gcRound, AddAll(dag0, released), suspended', waiting', missingBlocks)
  {
    hide Consistent, Tracks, DagIsVerified, Released, IsVerified, Mirrored, WellSuspended, AddAll, Refs, DistinctRefs,
      WaitsExactly;
    var accepted' := genesis + dag.Keys + {root} + Refs(released);
    ConsistentFacts(genesis, genesis + dag.Keys, gcRound, suspended, waiting);
    ConsistentWaits(genesis, genesis + dag.Keys, gcRound, suspended, waiting);
    ReleaseIsConsistent(genesis, genesis + dag.Keys, gcRound, suspended, waiting, root, suspended', waiting', released,
                        accepted');
    ReleasedFacts(suspended, waiting, root, suspended', waiting', released);
    AddAllContents(dag0, released);
    assert genesis + AddAll(dag0, released).Keys == accepted';
    ReleaseKeepsTracks(received, gcRound, dag0, suspended, suspended', released);
    ReleasedWereSuspended(suspended, released);
    ReleaseKeepsVerified(genesis, dag0, suspended, released);
    assert Missing(suspended', waiting') == missingBlocks;
  }

  lemma ConsistentWaits(genesis: set<BlockRef>, accepted: set<BlockRef>, gcRound: Round,
                        suspended: Suspensions, waiting: Waiting)
    requires Consistent(genesis, accepted, gcRound, suspended, waiting)
    ensures forall c :: c in suspended ==> WaitsExactly(accepted, gcRound, suspended[c])
  {
  }

  lemma RootKeepsVerified(genesis: set<BlockRef>, dag: map<BlockRef, Block>, b: Block)
    requires DagIsVerified(genesis, dag) && IsVerified(genesis, b)
    ensures DagIsVerified(genesis, dag[b.Ref() := b])
  {
  }

  lemma ReleasedWereSuspended(suspended: Suspensions, released: seq<Block>)
    requires forall b :: b in released ==> b.Ref() in suspended
    ensures Refs(released) <= suspended.Keys
  {
  }

  lemma TracksRoot(received: map<BlockRef, Block>, gcRound: Round, dag: map<BlockRef, Block>, suspended: Suspensions,
                   b: Block)
    requires Tracks(received, gcRound, dag, suspended)
    ensures Tracks(received[b.Ref() := b], gcRound, dag[b.Ref() := b], suspended - {b.Ref()})
  {
  }

  lemma TracksSkipped(received: map<BlockRef, Block>, gcRound: Round, dag: map<BlockRef, Block>, suspended: Suspensions,
                      b: Block)
    requires Tracks(received, gcRound, dag, suspended)
    requires b.Ref() in received ==> received[b.Ref()] == b
    requires b.Ref() in dag || b.Ref() in suspended || b.round <= gcRound
    ensures Tracks(received[b.Ref() := b], gcRound, dag, suspended)
  {
  }

  lemma WithdrawIsConsistent(genesis: set<BlockRef>, accepted: set<BlockRef>, gcRound: Round,
                             suspended: Suspensions, waiting: Waiting, c: BlockRef)
    requires Consistent(genesis, accepted, gcRound, suspended, waiting) && c in suspended
    ensures Consistent(genesis, accepted, gcRound, suspended - {c}, RemoveWaiter(waiting, suspended[c].missing, c))
  {
    WithdrawKeepsMirror(suspended, waiting, c);
  }

  lemma ReleasedFacts(suspended: Suspensions, waiting: Waiting, root: BlockRef,
                      suspended': Suspensions, waiting': Waiting, released: seq<Block>)
    requires Released(suspended, waiting, root, suspended', waiting', released)
    ensures DistinctRefs(released)
    ensures forall b :: b in released ==> b.Ref() in suspended && suspended[b.Ref()].block == b
    ensures suspended'.Keys == suspended.Keys - Refs(released)
    ensures forall c :: c in suspended' ==> suspended'[c].block == suspended[c].block
    ensures waiting'.Keys == waiting.Keys - ({root} + Refs(released))
  {
    forall b | b in released
      ensures b.Ref() in suspended && suspended[b.Ref()].block == b
    {
      var i :| 0 <= i < |released| && released[i] == b;
      assert ReleasedAfter(suspended, {root} + Refs(released[..i]), released[i]);
    }
  }

  lemma ReleaseKeepsTracks(received: map<BlockRef, Block>, gcRound: Round, dag: map<BlockRef, Block>,
                           suspended: Suspensions, suspended': Suspensions, released: seq<Block>)
    requires Tracks(received, gcRound, dag, suspended)
    requires DistinctRefs(released)
    requires forall b :: b in released ==> b.Ref() in suspended && suspended[b.Ref()].block == b
    requires suspended'.Keys == suspended.Keys - Refs(released)
    requires forall c :: c in suspended' ==> suspended'[c].block == suspended[c].block
    ensures Tracks(received, gcRound, AddAll(dag, released), suspended')
  {
    AddAllContents(dag, released);
    var dag' := AddAll(dag, released);
    forall r | r in dag'
      ensures r in received && received[r] == dag'[r]
    {
      if r in Refs(released) {
        var b :| b in released && b.Ref() == r;
      }
    }
  }

  lemma ReleaseKeepsVerified(genesis: set<BlockRef>, dag: map<BlockRef, Block>, suspended: Suspensions,
                             released: seq<Block>)
    requires DagIsVerified(genesis, dag) && WellSuspended(genesis, suspended)
    requires DistinctRefs(released)
    requires forall b :: b in released ==> b.Ref() in suspended && suspended[b.Ref()].block == b
    ensures DagIsVerified(genesis, AddAll(dag, released))
  {
    AddAllContents(dag, released);
    var dag' := AddAll(dag, released);
    forall r | r in dag'
      ensures dag'[r].Ref() == r && IsVerified(genesis, dag'[r])
    {
      if r in Refs(released) {
        var b :| b in released && b.Ref() == r;
      }
    }
  }

  // ----- causal order and closure of what is accepted

  /** Each block comes after its history above the round. */
  ghost predicate CausallyOrdered(accepted: set<BlockRef>, round: Round, blocks: seq<Block>) {
    forall i :: 0 <= i < |blocks| ==> HistoryIn(accepted + Refs(blocks[..i]), round, blocks[i])
  }

  ghost predicate HistoryIn(accepted: set<BlockRef>, round: Round, b: Block) {
    forall a :: a in b.ancestors && a.round > round ==> a in accepted
  }

  /** Released blocks come in causal order. The root is accepted, or at or below the round. */
  lemma ReleasedAreOrdered(genesis: set<BlockRef>, accepted: set<BlockRef>, gcRound: Round, suspended: Suspensions,
                           waiting: Waiting, root: BlockRef, released: seq<Block>, accepted0: set<BlockRef>,
                           round: Round)
    requires Consistent(genesis, accepted, gcRound, suspended, waiting)
    requires ReleasedInOrder(suspended, root, released)
    requires accepted <= accepted0 && gcRound <= round && (root in accepted0 || root.round <= round)
    ensures CausallyOrdered(accepted0, round, released)
  {
    ConsistentWaits(genesis, accepted, gcRound, suspended, waiting);
    hide Consistent;
    forall i | 0 <= i < |released|
      ensures HistoryIn(accepted0 + Refs(released[..i]), round, released[i])
    {
      var b := released[i];
      assert ReleasedAfter(suspended, {root} + Refs(released[..i]), b);
      assert WaitsExactly(accepted, gcRound, suspended[b.Ref()]);
    }
  }

  lemma OrderedAppend(accepted: set<BlockRef>, round: Round, bs: seq<Block>, cs: seq<Block>)
    requires CausallyOrdered(accepted, round, bs)
    requires CausallyOrdered(accepted + Refs(bs), round, cs)
    ensures CausallyOrdered(accepted, round, bs + cs)
  {
    var all := bs + cs;
    forall i | 0 <= i < |all|
      ensures HistoryIn(accepted + Refs(all[..i]), round, all[i])
    {
      if i < |bs| {
        assert all[..i] == bs[..i];
      } else {
        assert all[..i] == bs + cs[..i - |bs|];
        RefsAppend(bs, cs[..i - |bs|]);
        assert HistoryIn(accepted + Refs(bs) + Refs(cs[..i - |bs|]), round, cs[i - |bs|]);
      }
    }
  }

  /** Accepting blocks in causal order keeps the block store closed. */
  lemma OrderedKeepsClosed(genesis: set<BlockRef>, dag: map<BlockRef, Block>, round: Round, blocks: seq<Block>)
    requires ClosedAt(genesis, dag, round) && DistinctRefs(blocks)
    requires CausallyOrdered(genesis + dag.Keys, round, blocks)
    ensures ClosedAt(genesis, AddAll(dag, blocks), round)
  {
    AddAllContents(dag, blocks);
    var dag' := AddAll(dag, blocks);
    hide AddAll, Refs, DistinctRefs;
    forall r, a | r in dag' && a in dag'[r].ancestors && a.round > round
      ensures a in genesis || a in dag'
    {
      if r in Refs(blocks) {
        var i := IndexOfRef(blocks, r);
        PrefixRefs(blocks, i);
        assert HistoryIn(genesis + dag.Keys + Refs(blocks[..i]), round, blocks[i]);
      }
    }
  }

  /** A garbage-collected reference is struck off; nothing of the root itself is accepted. */
  lemma GcReleaseIsConsistent(genesis: set<BlockRef>, received: map<BlockRef, Block>, gcRound: Round,
                              dag: map<BlockRef, Block>, suspended: Suspensions, waiting: Waiting, root: BlockRef,
                              suspended': Suspensions, waiting': Waiting, released: seq<Block>)
    requires Consistent(genesis, genesis + dag.Keys, gcRound, suspended, waiting)
    requires Tracks(received, gcRound, dag, suspended) && DagIsVerified(genesis, dag)
    requires root !in suspended && root.round <= gcRound
    requires Released(suspended, waiting, root, suspended', waiting', released)
    ensures Consistent(genesis, genesis + AddAll(dag, released).Keys, gcRound, suspended', waiting')
    ensures Tracks(received, gcRound, AddAll(dag, released), suspended')
    ensures DagIsVerified(genesis, AddAll(dag, released))
    ensures Missing(suspended', waiting') == Missing(suspended, waiting) - {root}
    ensures waiting'.Keys <= waiting.Keys - {root}
  {
    hide Consistent, Tracks, DagIsVerified, Released, IsVerified, Mirrored, WellSuspended, AddAll, Refs, DistinctRefs,
      WaitsExactly;
    var accepted' := genesis + dag.Keys + Refs(released);
    ConsistentFacts(genesis, genesis + dag.Keys, gcRound, suspended, waiting);
    ConsistentWaits(genesis, genesis + dag.Keys, gcRound, suspended, waiting);
    ReleaseIsConsistent(genesis, genesis + dag.Keys, gcRound, suspended, waiting, root, suspended', waiting', released,
                        accepted');
    ReleasedFacts(suspended, waiting, root, suspended', waiting', released);
    AddAllContents(dag, released);
    assert genesis + AddAll(dag, released).Keys == accepted';
    ReleaseKeepsTracks(received, gcRound, dag, suspended, suspended', released);
    ReleasedWereSuspended(suspended, released);
    ReleaseKeepsVerified(genesis, dag, suspended, released);
  }

  lemma {:induction false} AddAllCons(dag: map<BlockRef, Block>, b: Block, blocks: seq<Block>)
    ensures AddAll(dag, [b] + blocks) == AddAll(dag[b.Ref() := b], blocks)
  {
    if blocks == [] {
      assert [b] + blocks == [b];
      assert [b][..0] == [];
    } else {
      var n := |blocks| - 1;
      AddAllCons(dag, b, blocks[..n]);
      assert ([b] + blocks)[..n + 1] == [b] + blocks[..n];
    }
  }

  lemma {:induction false} AddAllAppend(dag: map<BlockRef, Block>, bs: seq<Block>, cs: seq<Block>)
    ensures AddAll(dag, bs + cs) == AddAll(AddAll(dag, bs), cs)
  {
    if cs == [] {
      assert bs + cs == bs;
    } else {
      var n := |cs| - 1;
      AddAllAppend(dag, bs, cs[..n]);
      assert (bs + cs)[..|bs| + n] == bs + cs[..n];
    }
  }

  /** The root and what it releases, as one sequence of newly accepted blocks. */
  lemma RootWithReleased(genesis: set<BlockRef>, accepted: set<BlockRef>, gcRound: Round, suspended: Suspensions,
                         waiting: Waiting, b: Block, released: seq<Block>)
    requires Consistent(genesis, accepted, gcRound, suspended, waiting)
    requires b.Ref() !in suspended && b.Ref() !in accepted
    requires ReleasedInOrder(suspended, b.Ref(), released)
    requires forall x :: x in released ==> x.Ref() in suspended
    ensures DistinctRefs([b] + released)
    ensures Refs([b] + released) == {b.Ref()} + Refs(released)
    ensures Refs([b] + released) !! accepted
    ensures forall round :: round >= gcRound ==> CausallyOrdered(accepted + {b.Ref()}, round, released)
    ensures forall round :: round >= gcRound && HistoryIn(accepted, round, b) ==>
              CausallyOrdered(accepted, round, [b] + released)
  {
    ReleasedIsNew(suspended, b, released);
    DistinctPrepend(b, released);
    hide Refs, DistinctRefs;
    forall round: Round | round >= gcRound
      ensures CausallyOrdered(accepted + {b.Ref()}, round, released)
      ensures HistoryIn(accepted, round, b) ==> CausallyOrdered(accepted, round, [b] + released)
    {
      ReleasedAreOrdered(genesis, accepted, gcRound, suspended, waiting, b.Ref(), released, accepted + {b.Ref()},
                         round);
      if HistoryIn(accepted, round, b) {
        RootIsOrdered(accepted, round, b);
        OrderedAppend(accepted, round, [b], released);
      }
    }
    hide Consistent, CausallyOrdered;
    ConsistentFacts(genesis, accepted, gcRound, suspended, waiting);
    ReleasedIsUnaccepted(accepted, suspended, released);
  }

  lemma ReleasedIsNew(suspended: Suspensions, b: Block, released: seq<Block>)
    requires b.Ref() !in suspended && ReleasedInOrder(suspended, b.Ref(), released)
    requires forall x :: x in released ==> x.Ref() in suspended
    ensures DistinctRefs(released) && b.Ref() !in Refs(released)
  {
  }

  lemma RootIsOrdered(accepted: set<BlockRef>, round: Round, b: Block)
    requires HistoryIn(accepted, round, b)
    ensures CausallyOrdered(accepted, round, [b]) && Refs([b]) == {b.Ref()}
  {
    assert Refs([b][..0]) == {};
    assert accepted + {} == accepted;
  }

  lemma ReleasedIsUnaccepted(accepted: set<BlockRef>, suspended: Suspensions, released: seq<Block>)
    requires suspended.Keys !! accepted && forall x :: x in released ==> x.Ref() in suspended
    ensures Refs(released) !! accepted
  {
  }
}
