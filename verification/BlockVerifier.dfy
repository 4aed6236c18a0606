/** The structural checks a block passes before it may enter the DAG. */
module BlockVerifier {
  import opened Committees
  import opened Blocks

  datatype VerifyError =
    | UnexpectedGenesisBlock
    | InvalidAuthorityIndex(index: Authority)
    | TooManyAncestors
    | InvalidAncestorPosition(position: nat)
    | InvalidAncestorRound(ancestor: Round)
    | InvalidGenesisAncestor(genesisAncestor: BlockRef)
    | DuplicatedAncestorsAuthority(authority: Authority)
    | InsufficientParentStakes(parentStakes: nat)

  datatype Verdict = Pass | Fail(error: VerifyError)

  predicate DistinctAuthors(refs: seq<BlockRef>) {
    forall i, j :: 0 <= i < j < |refs| ==> refs[i].author != refs[j].author
  }

  /** Authors of the ancestors in the round just below the block. */
  ghost function ParentAuthors(b: Block): set<Authority> {
    set a | a in b.ancestors && a.round + 1 == b.round :: a.author
  }

  /** What the rest of the protocol relies on about a verified block. */
  ghost predicate WellFormed(c: Committee, genesis: set<BlockRef>, b: Block) {
    && b.round > 0
    && c.IsMember(b.author)
    && b.ancestors != []
    && b.ancestors[0].author == b.author
    && DistinctAuthors(b.ancestors)
    && (forall a :: a in b.ancestors ==> c.IsMember(a.author) && a.round < b.round)
    && (forall a :: a in b.ancestors && a.round == GENESIS_ROUND ==> a in genesis)
    && c.IsQuorum(ParentAuthors(b))
  }

  /** What the scan has established about the first n ancestors. */
  ghost predicate PrefixOk(c: Committee, genesis: set<BlockRef>, b: Block, n: nat)
    requires n <= |b.ancestors|
  {
    && (n > 0 ==> b.ancestors[0].author == b.author)
    && DistinctAuthors(b.ancestors[..n])
    && (forall i :: 0 <= i < n ==> c.IsMember(b.ancestors[i].author) && b.ancestors[i].round < b.round)
    && (forall i :: 0 <= i < n && b.ancestors[i].round == GENESIS_ROUND ==> b.ancestors[i] in genesis)
  }

  ghost function ParentAuthorsUpto(b: Block, n: nat): set<Authority>
    requires n <= |b.ancestors|
  {
    set i | 0 <= i < n && b.ancestors[i].round + 1 == b.round :: b.ancestors[i].author
  }

  lemma ParentAuthorsAll(b: Block)
    ensures ParentAuthorsUpto(b, |b.ancestors|) == ParentAuthors(b)
  {
    forall x | x in ParentAuthors(b)
      ensures x in ParentAuthorsUpto(b, |b.ancestors|)
    {
      var a :| a in b.ancestors && a.round + 1 == b.round && a.author == x;
      var i :| 0 <= i < |b.ancestors| && b.ancestors[i] == a;
    }
  }

  lemma ParentAuthorsStep(c: Committee, b: Block, n: nat)
    requires n < |b.ancestors|
    requires DistinctAuthors(b.ancestors[..n + 1])
    requires c.IsMember(b.ancestors[n].author)
    ensures c.StakeOf(ParentAuthorsUpto(b, n + 1)) == c.StakeOf(ParentAuthorsUpto(b, n))
              + (if b.ancestors[n].round + 1 == b.round then c.Stake(b.ancestors[n].author) else 0)
  {
    var a := b.ancestors[n];
    if a.round + 1 == b.round {
      assert ParentAuthorsUpto(b, n + 1) == ParentAuthorsUpto(b, n) + {a.author};
      assert a.author !in ParentAuthorsUpto(b, n) by {
        forall i | 0 <= i < n
          ensures b.ancestors[i].author != a.author
        {
          assert b.ancestors[..n + 1][i].author != b.ancestors[..n + 1][n].author;
        }
      }
      StakeInsert(c, ParentAuthorsUpto(b, n), a.author);
    } else {
      assert ParentAuthorsUpto(b, n + 1) == ParentAuthorsUpto(b, n);
    }
  }

  /** A set with as many distinct members as there are ancestors fits in the committee. */
  lemma {:induction false} DistinctAuthorsBound(c: Committee, refs: seq<BlockRef>)
    requires DistinctAuthors(refs)
    requires forall r :: r in refs ==> c.IsMember(r.author)
    ensures |refs| <= c.Size()
  {
    var authors := set i | 0 <= i < |refs| :: refs[i].author;
    DistinctImageSize(refs, authors);
    UpToSize(c.Size(), authors);
  }

  lemma {:induction false} DistinctImageSize(refs: seq<BlockRef>, authors: set<Authority>)
    requires DistinctAuthors(refs)
    requires authors == set i | 0 <= i < |refs| :: refs[i].author
    ensures |authors| == |refs|
  {
    if refs == [] {
    } else {
      var n := |refs| - 1;
      var fewer := set i | 0 <= i < n :: refs[..n][i].author;
      DistinctImageSize(refs[..n], fewer);
      assert authors == fewer + {refs[n].author};
    }
  }

  lemma {:induction false} UpToSize(n: nat, s: set<Authority>)
    requires forall x :: x in s ==> x < n
    ensures |s| <= n
  {
    if n == 0 {
      assert s == {};
    } else {
      UpToSize(n - 1, s - {n - 1});
    }
  }

  /** Accepts exactly the well-formed blocks. */
  method VerifyBlock(c: Committee, genesis: set<BlockRef>, b: Block) returns (v: Verdict)
    requires c.quorumThreshold > 0
    ensures v.Pass? <==> WellFormed(c, genesis, b)
  {
    assert ParentAuthorsUpto(b, 0) == {};
    hide Committee.StakeOf, ParentAuthors, ParentAuthorsUpto;
    if b.round == 0 {
      return Fail(UnexpectedGenesisBlock);
    }
    if !c.IsMember(b.author) {
      return Fail(InvalidAuthorityIndex(b.author));
    }
    if |b.ancestors| > c.Size() {
      if WellFormed(c, genesis, b) {
        DistinctAuthorsBound(c, b.ancestors);
      }
      return Fail(TooManyAncestors);
    }
    if b.ancestors == [] {
      return Fail(InsufficientParentStakes(0));
    }
    var seen := new bool[c.Size()](i => false);
    var parentStakes: nat := 0;
    StakeEmpty(c);
    for i := 0 to |b.ancestors|
      invariant PrefixOk(c, genesis, b, i)
      invariant forall x :: 0 <= x < c.Size() ==>
        (seen[x] <==> exists j :: 0 <= j < i && b.ancestors[j].author == x)
      invariant parentStakes == c.StakeOf(ParentAuthorsUpto(b, i))
    {
      var a := b.ancestors[i];
      if !c.IsMember(a.author) {
        return Fail(InvalidAuthorityIndex(a.author));
      }
      if (i == 0 && a.author != b.author) || (i > 0 && a.author == b.author) {
        return Fail(InvalidAncestorPosition(i));
      }
      if a.round >= b.round {
        return Fail(InvalidAncestorRound(a.round));
      }
      if a.round == GENESIS_ROUND && a !in genesis {
        return Fail(InvalidGenesisAncestor(a));
      }
      if seen[a.author] {
        return Fail(DuplicatedAncestorsAuthority(a.author));
      }
      seen[a.author] := true;
      assert b.ancestors[..i + 1] == b.ancestors[..i] + [a];
      ParentAuthorsStep(c, b, i);
      if a.round == b.round - 1 {
        parentStakes := parentStakes + c.Stake(a.author);
      }
    }
    ParentAuthorsAll(b);
    assert b.ancestors[..|b.ancestors|] == b.ancestors;
    if parentStakes < c.quorumThreshold {
      return Fail(InsufficientParentStakes(parentStakes));
    }
    return Pass;
  }
}
