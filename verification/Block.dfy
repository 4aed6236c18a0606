/** Blocks, references to blocks and the order on references. */
module Blocks {
  import opened Committees

  type Round = nat

  const GENESIS_ROUND: Round := 0

  datatype Option<+T> = None | Some(value: T)

  /** Uniquely identifies a block: the digest is an injective identifier of its content. */
  datatype BlockRef = BlockRef(round: Round, author: Authority, digest: nat) {

    function Slot(): Slot {
      SlotAt(round, author)
    }

    /** The derived lexicographic order: round, then author, then digest. */
    predicate Less(other: BlockRef) {
      || round < other.round
      || (round == other.round && author < other.author)
      || (round == other.round && author == other.author && digest < other.digest)
    }
  }

  /** A leader slot; it may hold several blocks of a Byzantine author. */
  datatype Slot = SlotAt(round: Round, authority: Authority)

  /** Explicit reject votes of a block on the transactions of another block. */
  datatype TransactionVotes = TransactionVotes(blockRef: BlockRef, rejects: set<nat>)

  datatype CommitRef = CommitRef(index: nat, digest: nat)

  datatype Block = Block(
    round: Round,
    author: Authority,
    digest: nat,
    ancestors: seq<BlockRef>,
    numTransactions: nat,
    transactionVotes: seq<TransactionVotes>,
    commitVotes: seq<CommitRef>)
  {
    function Ref(): BlockRef {
      BlockRef(round, author, digest)
    }
  }

  /** The garbage collection round that follows from a committed leader. */
  function GcRound(leaderRound: Round, gcDepth: nat): Round {
    if leaderRound >= gcDepth then leaderRound - gcDepth else 0
  }

  lemma {:induction false} LeastExists(s: set<BlockRef>) returns (least: BlockRef)
    requires s != {}
    ensures least in s && forall x :: x in s && x != least ==> least.Less(x)
  {
    var x :| x in s;
    if s == {x} {
      least := x;
    } else {
      var rest := LeastExists(s - {x});
      least := if rest.Less(x) then rest else x;
      forall y | y in s && y != least
        ensures least.Less(y)
      {
        assert y == x || y in s - {x};
      }
    }
  }

  lemma {:induction false} GreatestExists(s: set<BlockRef>) returns (greatest: BlockRef)
    requires s != {}
    ensures greatest in s && forall x :: x in s && x != greatest ==> x.Less(greatest)
  {
    var x :| x in s;
    if s == {x} {
      greatest := x;
    } else {
      var rest := GreatestExists(s - {x});
      greatest := if x.Less(rest) then rest else x;
      forall y | y in s && y != greatest
        ensures y.Less(greatest)
      {
        assert y == x || y in s - {x};
      }
    }
  }

  /** The first reference of a non-empty ordered set. */
  method First(s: set<BlockRef>) returns (least: BlockRef)
    requires s != {}
    ensures least in s && forall x :: x in s && x != least ==> least.Less(x)
  {
    ghost var w := LeastExists(s);
    least :| least in s && forall x :: x in s && x != least ==> least.Less(x);
  }

  /** The last reference of a non-empty ordered set. */
  method Last(s: set<BlockRef>) returns (greatest: BlockRef)
    requires s != {}
    ensures greatest in s && forall x :: x in s && x != greatest ==> x.Less(greatest)
  {
    ghost var w := GreatestExists(s);
    greatest :| greatest in s && forall x :: x in s && x != greatest ==> x.Less(greatest);
  }
}
