/** A validator that follows certified commits records the same commits as those that certified them. */
module CertifiedCommits {
  import opened Blocks
  import opened BlockIndex
  import opened Dags
  import opened FinalizerState
  import opened CommitVerification
  import opened CommitRuns
  import opened Linearizers
  import opened CommitPipeline

  /** What a commit records about its blocks. */
  ghost function CommitRefs(w: World, gcDepth: nat, leaders: seq<BlockRef>): seq<BlockRef>
    requires leaders != [] && AreLeaders(w, leaders)
  {
    var k := |leaders| - 1;
    RefSeq(SlotSorted(Traversal(w.blocks, GcBefore(leaders, gcDepth, k), leaders[k],
                                CommittedBefore(w, gcDepth, leaders, k))))
  }

  /** The blocks of a commit are what the linearizer finds for its leader. */
  ghost predicate RecordsLinearized(w: World, gcDepth: nat, e: Protocol) {
    forall leaders :: leaders != [] && AreLeaders(w, leaders) ==> e.blocksOf(leaders) == CommitRefs(w, gcDepth, leaders)
  }

  /** The commits that a validator records for the sub-dags it has linearized. */
  function RecordedCommits(hash: Hash, subdags: seq<CommittedSubDag>): (commits: seq<ChainedCommit>)
    ensures |commits| == |subdags|
  {
    if subdags == [] then []
    else
      var n := |subdags| - 1;
      var before := RecordedCommits(hash, subdags[..n]);
      var previous := if n == 0 then 0 else hash(before[n - 1]);
      before + [ChainedCommit(subdags[n].index, previous, subdags[n].leader, RefSeq(subdags[n].blocks))]
  }

  lemma {:induction false} RecordedIsChain(w: World, gcDepth: nat, e: Protocol, leaders: seq<BlockRef>,
                                           subdags: seq<CommittedSubDag>)
    requires RecordsLinearized(w, gcDepth, e) && AreCommits(w, gcDepth, leaders, subdags) && |subdags| == |leaders|
    ensures RecordedCommits(e.hash, subdags) == CommitChain(e, leaders)
  {
    hide InSubDag, SortedBySlot, Traversal, SlotSorted;
    if leaders == [] {
    } else {
      var n := |leaders| - 1;
      forall k | 0 <= k < n
        ensures IsSubDag(w, gcDepth, leaders[..n], k, subdags[..n][k])
      {
        assert IsSubDag(w, gcDepth, leaders, k, subdags[k]);
        SubDagIsLocal(w, gcDepth, leaders[..n], leaders, k, subdags[k]);
      }
      RecordedIsChain(w, gcDepth, e, leaders[..n], subdags[..n]);
      assert IsSubDag(w, gcDepth, leaders, n, subdags[n]);
      assert e.blocksOf(leaders) == CommitRefs(w, gcDepth, leaders);
    }
  }

  /** In every run, a validator that catches up with certified commits records exactly these commits when it
      linearizes their leaders. */
  lemma CertifiedIsRecorded(w: World, gcDepth: nat, e: Protocol, run: seq<seq<Validator>>, t: nat, i: nat,
                            v': Validator, start: nat, commits: seq<ChainedCommit>, votes: seq<Block>,
                            subdags: seq<CommittedSubDag>)
    requires e.Valid() && RecordsLinearized(w, gcDepth, e) && IsRun(w, e, run) && t < |run| && i < |run[t]|
    requires CatchUp(w, e, run[t], run[t][i], v', start, commits, votes)
    requires |subdags| == |CommittedLeaders(v'.decided)|
    requires AreCommits(w, gcDepth, CommittedLeaders(v'.decided), subdags)
    ensures |subdags| == start - 1 + |commits| && RecordedCommits(e.hash, subdags)[start - 1..] == commits
  {
    hide CatchUp, Backed, CommittedLeaders, AreCommits, RecordsLinearized, CommitChain, IsRun;
    RunsAreBacked(w, e, run, t);
    CatchUpReproduces(w, e, run[t], run[t][i], v', start, commits, votes);
    RecordedIsChain(w, gcDepth, e, CommittedLeaders(v'.decided), subdags);
  }
}
