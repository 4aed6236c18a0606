/** The block map of the commit finalizer: links from committed blocks to their committed
    children and to later blocks of the same origin. */
module FinalizerLinks {
  import opened Committees
  import opened Blocks
  import opened VoteTraversal

  /** What verification guarantees about a committed block. */
  ghost predicate IsCommittable(c: Committee, b: Block) {
    && c.IsMember(b.author)
    && b.ancestors != []
    && b.ancestors[0].author == b.author
    && forall a :: a in b.ancestors ==> a.round < b.round
  }

  /** Reject votes by block; when a block is listed twice, the later entry counts. */
  function RejectVotes(votes: seq<TransactionVotes>): map<BlockRef, set<nat>> {
    if votes == [] then map[]
    else
      var n := |votes| - 1;
      RejectVotes(votes[..n])[votes[n].blockRef := votes[n].rejects]
  }

  function NewBlockState(b: Block, commitIndex: nat): BlockState {
    BlockState(b, {}, RejectVotes(b.transactionVotes), [], commitIndex)
  }

  /** `y` is `x` or on the chain of own ancestors of `x`, as far as the chain is in the map. */
  ghost predicate OwnReaches(blocks: BlockMap, x: BlockRef, y: BlockRef)
    decreases x.round
  {
    || x == y
    || (&& x in blocks
        && blocks[x].block.ancestors != []
        && blocks[x].block.ancestors[0] in blocks
        && blocks[x].block.ancestors[0].round < x.round
        && OwnReaches(blocks, blocks[x].block.ancestors[0], y))
  }

  /** Each entry describes its own block. */
  ghost predicate EntriesFit(c: Committee, blocks: BlockMap) {
    forall x :: x in blocks ==>
      && blocks[x].block.Ref() == x
      && IsCommittable(c, blocks[x].block)
      && blocks[x].rejectVotes == RejectVotes(blocks[x].block.transactionVotes)
  }

  /** Children are exactly the blocks of the map that link to a block. */
  ghost predicate ChildrenFit(blocks: BlockMap) {
    forall x, y :: x in blocks ==>
      (y in blocks[x].children <==> y in blocks && x in blocks[y].block.ancestors)
  }

  /** Ancestors are not committed after their descendants. */
  ghost predicate CommitsFit(blocks: BlockMap) {
    forall x, y :: y in blocks && x in blocks && x in blocks[y].block.ancestors ==>
      blocks[x].commitIndex <= blocks[y].commitIndex
  }

  /** Origin descendants are exactly the later blocks on a block's own chains, except those of
      the excluded blocks, which are still to be recorded. */
  ghost predicate OriginsFit(blocks: BlockMap, excluded: set<BlockRef>) {
    forall x, y :: x in blocks ==>
      (y in blocks[x].originDescendants <==> y in blocks && y !in excluded && y != x && OwnReaches(blocks, y, x))
  }

  ghost predicate Linked(c: Committee, blocks: BlockMap, excluded: set<BlockRef>) {
    EntriesFit(c, blocks) && ChildrenFit(blocks) && CommitsFit(blocks) && OriginsFit(blocks, excluded)
  }

  // ----- own chains

  lemma {:induction false} OwnReachesLater(c: Committee, blocks: BlockMap, x: BlockRef, y: BlockRef)
    requires EntriesFit(c, blocks) && CommitsFit(blocks)
    requires x in blocks && OwnReaches(blocks, x, y)
    ensures y in blocks && y.author == x.author
    ensures x != y ==> y.round < x.round && blocks[y].commitIndex <= blocks[x].commitIndex
    decreases x.round
  {
    if x == y {
    } else {
      OwnReachesLater(c, blocks, blocks[x].block.ancestors[0], y);
    }
  }

  lemma {:induction false} OwnReachesTransitive(blocks: BlockMap, x: BlockRef, y: BlockRef, z: BlockRef)
    requires OwnReaches(blocks, x, y) && OwnReaches(blocks, y, z)
    ensures OwnReaches(blocks, x, z)
    decreases x.round
  {
    if x == y {
    } else {
      OwnReachesTransitive(blocks, blocks[x].block.ancestors[0], y, z);
    }
  }

  /** The links are what the vote traversal expects. */
  lemma LinkedIsWellLinked(c: Committee, blocks: BlockMap)
    requires Linked(c, blocks, {})
    ensures WellLinked(c, blocks)
  {
    hide OwnReaches, RejectVotes;
    forall x, y | x in blocks && y in blocks[x].children
      ensures IsLater(blocks, x, y)
    {
      assert y in blocks && x in blocks[y].block.ancestors;
      assert blocks[y].block.Ref() == y && IsCommittable(c, blocks[y].block);
    }
    forall x, y | x in blocks && y in blocks[x].originDescendants
      ensures IsLater(blocks, x, y)
    {
      OwnReachesLater(c, blocks, y, x);
    }
    forall x, y, z | x in blocks && y in blocks[x].originDescendants && y in blocks && z in blocks[y].originDescendants
      ensures z in blocks[x].originDescendants
    {
      OwnReachesTransitive(blocks, z, y, x);
      OwnReachesLater(c, blocks, z, y);
      OwnReachesLater(c, blocks, y, x);
    }
  }

  // ----- adding a block

  /** Makes the ancestors of the block link to it and gives it an entry. */
  function LinkBlock(blocks: BlockMap, b: Block, commitIndex: nat): BlockMap {
    map r | r in blocks.Keys + {b.Ref()} ::
      if r == b.Ref() then (if r in blocks then blocks[r] else NewBlockState(b, commitIndex))
      else if r in b.ancestors then blocks[r].(children := blocks[r].children + {b.Ref()})
      else blocks[r]
  }

  ghost predicate CanLink(c: Committee, blocks: BlockMap, b: Block, commitIndex: nat) {
    && IsCommittable(c, b)
    && b.Ref() !in blocks
    && (forall x :: x in blocks ==> b.Ref() !in blocks[x].block.ancestors)
    && (forall x :: x in blocks ==> blocks[x].commitIndex <= commitIndex)
  }

  lemma {:induction false} LinkKeepsOwnChains(c: Committee, blocks: BlockMap, b: Block, commitIndex: nat, x: BlockRef,
                                              y: BlockRef)
    requires CanLink(c, blocks, b, commitIndex) && x in blocks
    ensures OwnReaches(LinkBlock(blocks, b, commitIndex), x, y) <==> OwnReaches(blocks, x, y)
    decreases x.round
  {
    var blocks' := LinkBlock(blocks, b, commitIndex);
    assert blocks'[x].block == blocks[x].block;
    if blocks[x].block.ancestors != [] {
      var f := blocks[x].block.ancestors[0];
      assert f in blocks[x].block.ancestors;
      if f in blocks && f.round < x.round {
        LinkKeepsOwnChains(c, blocks, b, commitIndex, f, y);
      }
    }
  }

  lemma LinkKeepsEntries(c: Committee, blocks: BlockMap, b: Block, commitIndex: nat)
    requires EntriesFit(c, blocks) && CanLink(c, blocks, b, commitIndex)
    ensures EntriesFit(c, LinkBlock(blocks, b, commitIndex))
  {
    hide RejectVotes, IsCommittable;
  }

  lemma LinkKeepsChildren(c: Committee, blocks: BlockMap, b: Block, commitIndex: nat)
    requires ChildrenFit(blocks) && CanLink(c, blocks, b, commitIndex)
    ensures ChildrenFit(LinkBlock(blocks, b, commitIndex))
  {
    hide RejectVotes;
    var blocks' := LinkBlock(blocks, b, commitIndex);
    forall x, y | x in blocks'
      ensures y in blocks'[x].children <==> y in blocks' && x in blocks'[y].block.ancestors
    {
      if x == b.Ref() {
        assert blocks'[x].children == {};
        if y in blocks {
          assert b.Ref() !in blocks[y].block.ancestors;
        }
      } else if y != b.Ref() {
        assert y in blocks[x].children <==> y in blocks && x in blocks[y].block.ancestors;
      }
    }
  }

  lemma LinkKeepsCommits(c: Committee, blocks: BlockMap, b: Block, commitIndex: nat)
    requires CommitsFit(blocks) && CanLink(c, blocks, b, commitIndex)
    ensures CommitsFit(LinkBlock(blocks, b, commitIndex))
  {
    hide RejectVotes;
    var blocks' := LinkBlock(blocks, b, commitIndex);
    forall x, y | y in blocks' && x in blocks' && x in blocks'[y].block.ancestors
      ensures blocks'[x].commitIndex <= blocks'[y].commitIndex
    {
      if y != b.Ref() {
        assert x in blocks[y].block.ancestors;
      }
    }
  }

  lemma LinkKeepsOrigins(c: Committee, blocks: BlockMap, b: Block, commitIndex: nat, excluded: set<BlockRef>)
    requires EntriesFit(c, blocks) && CommitsFit(blocks) && OriginsFit(blocks, excluded)
    requires CanLink(c, blocks, b, commitIndex)
    ensures OriginsFit(LinkBlock(blocks, b, commitIndex), excluded + {b.Ref()})
  {
    var blocks' := LinkBlock(blocks, b, commitIndex);
    forall x, y | x in blocks'
      ensures y in blocks'[x].originDescendants
         <==> y in blocks' && y !in excluded + {b.Ref()} && y != x && OwnReaches(blocks', y, x)
    {
      if y in blocks && y != b.Ref() {
        LinkKeepsOwnChains(c, blocks, b, commitIndex, y, x);
        hide OwnReaches;
        if x == b.Ref() && OwnReaches(blocks, y, x) {
          OwnReachesLater(c, blocks, y, x);
        }
      }
    }
  }

  lemma LinkKeepsLinked(c: Committee, blocks: BlockMap, b: Block, commitIndex: nat, excluded: set<BlockRef>)
    requires Linked(c, blocks, excluded) && CanLink(c, blocks, b, commitIndex)
    ensures Linked(c, LinkBlock(blocks, b, commitIndex), excluded + {b.Ref()})
  {
    hide EntriesFit, ChildrenFit, CommitsFit, OriginsFit, CanLink, LinkBlock;
    LinkKeepsEntries(c, blocks, b, commitIndex);
    LinkKeepsChildren(c, blocks, b, commitIndex);
    LinkKeepsCommits(c, blocks, b, commitIndex);
    LinkKeepsOrigins(c, blocks, b, commitIndex, excluded);
  }

  // ----- recording a block with its origin ancestors

  /** Records `x` with `y` and everything below `y` on its own chain. */
  ghost function RecordFrom(blocks: BlockMap, x: BlockRef, y: BlockRef): BlockMap {
    map r | r in blocks ::
      if OwnReaches(blocks, y, r) then blocks[r].(originDescendants := blocks[r].originDescendants + [x]) else blocks[r]
  }

  /** Recording changes no block, so own chains stay as they are. */
  ghost predicate SameBlocks(blocks: BlockMap, blocks': BlockMap) {
    blocks'.Keys == blocks.Keys && forall r :: r in blocks ==> blocks'[r].block == blocks[r].block
  }

  lemma {:induction false} SameOwnChains(blocks: BlockMap, blocks': BlockMap, x: BlockRef, y: BlockRef)
    requires SameBlocks(blocks, blocks')
    ensures OwnReaches(blocks', x, y) <==> OwnReaches(blocks, x, y)
    decreases x.round
  {
    if x in blocks && blocks[x].block.ancestors != [] && blocks[x].block.ancestors[0].round < x.round {
      SameOwnChains(blocks, blocks', blocks[x].block.ancestors[0], y);
    }
  }

  /** Nothing is recorded with a reference outside the map. */
  lemma RecordNothing(blocks: BlockMap, x: BlockRef, y: BlockRef)
    requires y !in blocks
    ensures RecordFrom(blocks, x, y) == blocks
  {
    assert RecordFrom(blocks, x, y).Keys == blocks.Keys;
  }

  /** One step of the walk down the chain. */
  lemma RecordStep(c: Committee, blocks: BlockMap, x: BlockRef, y: BlockRef)
    requires EntriesFit(c, blocks) && CommitsFit(blocks) && y in blocks
    ensures var now := blocks[y := blocks[y].(originDescendants := blocks[y].originDescendants + [x])];
            RecordFrom(blocks, x, y) == RecordFrom(now, x, blocks[y].block.ancestors[0])
  {
    var now := blocks[y := blocks[y].(originDescendants := blocks[y].originDescendants + [x])];
    var f := blocks[y].block.ancestors[0];
    assert f in blocks[y].block.ancestors;
    assert SameBlocks(blocks, now);
    forall r | r in blocks
      ensures RecordFrom(blocks, x, y)[r] == RecordFrom(now, x, f)[r]
    {
      SameOwnChains(blocks, now, f, r);
      if f in blocks && OwnReaches(blocks, f, r) {
        OwnReachesLater(c, blocks, f, r);
      }
    }
    assert RecordFrom(blocks, x, y).Keys == RecordFrom(now, x, f).Keys;
  }

  lemma RecordKeepsLinked(c: Committee, blocks: BlockMap, x: BlockRef, excluded: set<BlockRef>)
    requires Linked(c, blocks, excluded) && x in blocks && x in excluded
    ensures Linked(c, RecordFrom(blocks, x, blocks[x].block.ancestors[0]), excluded - {x})
  {
    var f := blocks[x].block.ancestors[0];
    var blocks' := RecordFrom(blocks, x, f);
    assert f in blocks[x].block.ancestors;
    assert SameBlocks(blocks, blocks');
    RecordKeepsEntries(c, blocks, blocks');
    forall z, y | z in blocks'
      ensures y in blocks'[z].originDescendants
         <==> y in blocks' && y !in excluded - {x} && y != z && OwnReaches(blocks', y, z)
    {
      SameOwnChains(blocks, blocks', y, z);
      if y == x {
        if f in blocks && OwnReaches(blocks, f, z) {
          OwnReachesLater(c, blocks, f, z);
        }
      }
    }
  }

  lemma RecordKeepsEntries(c: Committee, blocks: BlockMap, blocks': BlockMap)
    requires EntriesFit(c, blocks) && ChildrenFit(blocks) && CommitsFit(blocks)
    requires blocks'.Keys == blocks.Keys
    requires forall r :: r in blocks ==>
      exists od :: blocks'[r] == blocks[r].(originDescendants := od)
    ensures EntriesFit(c, blocks') && ChildrenFit(blocks') && CommitsFit(blocks')
  {
    hide OwnReaches, RejectVotes;
  }

  // ----- removing the blocks of the earliest commit

  ghost function WithoutCommit(blocks: BlockMap, index: nat): BlockMap {
    map r | r in blocks && blocks[r].commitIndex != index :: blocks[r]
  }

  lemma {:induction false} RemoveKeepsOwnChains(c: Committee, blocks: BlockMap, index: nat, x: BlockRef, y: BlockRef)
    requires EntriesFit(c, blocks) && CommitsFit(blocks)
    requires forall r :: r in blocks ==> blocks[r].commitIndex >= index
    requires x in blocks && y in blocks && blocks[y].commitIndex > index
    requires blocks[x].commitIndex > index
    ensures OwnReaches(WithoutCommit(blocks, index), x, y) <==> OwnReaches(blocks, x, y)
    decreases x.round
  {
    var blocks' := WithoutCommit(blocks, index);
    if x == y {
    } else {
      var f := blocks[x].block.ancestors[0];
      assert f in blocks[x].block.ancestors;
      if f in blocks {
        if blocks[f].commitIndex > index {
          RemoveKeepsOwnChains(c, blocks, index, f, y);
        } else if OwnReaches(blocks, f, y) {
          OwnReachesLater(c, blocks, f, y);
        }
      }
    }
  }

  /** When the earliest commit leaves, no link dangles and no chain between remaining blocks breaks. */
  lemma RemoveKeepsLinked(c: Committee, blocks: BlockMap, index: nat)
    requires Linked(c, blocks, {})
    requires forall r :: r in blocks ==> blocks[r].commitIndex >= index
    ensures Linked(c, WithoutCommit(blocks, index), {})
  {
    hide OwnReaches, IsCommittable, RejectVotes;
    RemoveKeepsChildren(c, blocks, index);
    RemoveKeepsOrigins(c, blocks, index);
  }

  lemma RemoveKeepsChildren(c: Committee, blocks: BlockMap, index: nat)
    requires ChildrenFit(blocks) && CommitsFit(blocks)
    requires forall r :: r in blocks ==> blocks[r].commitIndex >= index
    ensures ChildrenFit(WithoutCommit(blocks, index)) && CommitsFit(WithoutCommit(blocks, index))
  {
    var kept := WithoutCommit(blocks, index);
    forall x, y | x in kept
      ensures y in kept[x].children <==> y in kept && x in kept[y].block.ancestors
    {
      assert y in blocks[x].children <==> y in blocks && x in blocks[y].block.ancestors;
    }
  }

  lemma RemoveKeepsOrigins(c: Committee, blocks: BlockMap, index: nat)
    requires EntriesFit(c, blocks) && CommitsFit(blocks) && OriginsFit(blocks, {})
    requires forall r :: r in blocks ==> blocks[r].commitIndex >= index
    ensures OriginsFit(WithoutCommit(blocks, index), {})
  {
    hide OwnReaches;
    var kept := WithoutCommit(blocks, index);
    forall x, y | x in kept
      ensures y in kept[x].originDescendants <==> y in kept && y !in {} && y != x && OwnReaches(kept, y, x)
    {
      if y in blocks {
        if blocks[y].commitIndex > index {
          RemoveKeepsOwnChains(c, blocks, index, y, x);
        } else if OwnReaches(blocks, y, x) {
          OwnReachesLater(c, blocks, y, x);
        }
      }
    }
  }
}
