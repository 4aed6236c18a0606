/** When a leader schedule changes between two commits, a certificate of the earlier leader need not be among the
    committed blocks. Four honest authorities suffice, for every point at which a schedule can change. */
module ScheduleChange {
  import opened Committees
  import opened FourAuthorities
  import opened Blocks
  import opened BlockVerifier
  import opened Dags
  import opened CommitRule
  import opened BaseCommitter
  import opened UniversalCommitter
  import opened CommitRuns
  import opened Linearizers
  import opened LeaderCertificates

  // ----- the blocks

  function RefAt(round: Round, author: Authority): BlockRef {
    BlockRef(round, author, 0)
  }

  /** Whose blocks a block links to. After p rounds of links to everyone, the leader of round p + 1 gets votes of
      three authorities, but only one block links to all three votes, and only its author links to that block. */
  function Parents(p: nat, round: Round, author: Authority): seq<Authority>
    requires author < 4
  {
    if round == p + 2 then
      if author == 0 then [0, 1, 2] else if author == 1 then [1, 0, 2] else if author == 2 then [2, 0, 1] else [3, 1, 2]
    else if round == p + 3 || round == p + 4 then
      if author == 0 then [0, 1, 2] else if author == 1 then [1, 2, 3] else if author == 2 then [2, 1, 3] else [3, 1, 2]
    else
      if author == 0 then [0, 1, 2, 3] else if author == 1 then [1, 0, 2, 3]
      else if author == 2 then [2, 0, 1, 3] else [3, 0, 1, 2]
  }

  function Links(p: nat, round: Round, author: Authority): seq<BlockRef>
    requires author < 4
  {
    if round == 0 then []
    else
      var parents := Parents(p, round, author);
      seq(|parents|, i requires 0 <= i < |parents| => RefAt(round - 1, parents[i]))
  }

  function BlockAt(p: nat, round: Round, author: Authority): Block
    requires author < 4
  {
    Block(round, author, 0, Links(p, round, author), 0, [], [])
  }

  predicate IsRef(p: nat, r: BlockRef) {
    r.round <= p + 6 && r.author < 4 && r.digest == 0
  }

  function Upto(p: nat, n: nat): map<BlockRef, Block> {
    if n == 0 then map[]
    else
      Upto(p, n - 1)[RefAt(n - 1, 0) := BlockAt(p, n - 1, 0)][RefAt(n - 1, 1) := BlockAt(p, n - 1, 1)]
      [RefAt(n - 1, 2) := BlockAt(p, n - 1, 2)][RefAt(n - 1, 3) := BlockAt(p, n - 1, 3)]
  }

  lemma {:induction false} UptoHolds(p: nat, n: nat, r: BlockRef)
    ensures r in Upto(p, n) <==> r.round < n && r.author < 4 && r.digest == 0
    ensures r in Upto(p, n) ==> Upto(p, n)[r] == BlockAt(p, r.round, r.author)
  {
    hide BlockAt;
    if n == 0 {
    } else {
      UptoHolds(p, n - 1, r);
    }
  }

  function WorldAt(p: nat): World {
    World(Four, {RefAt(0, 0), RefAt(0, 1), RefAt(0, 2), RefAt(0, 3)}, Upto(p, p + 7), {})
  }

  function FullView(p: nat): DagState {
    DagState(Upto(p, p + 7), 0, p + 6)
  }

  lemma Holds(p: nat, r: BlockRef)
    ensures r in WorldAt(p).blocks <==> IsRef(p, r)
    ensures r in WorldAt(p).blocks ==> WorldAt(p).blocks[r] == BlockAt(p, r.round, r.author)
  {
    UptoHolds(p, p + 7, r);
  }

  // ----- links and quorums

  /** What a block links to. */
  lemma LinksAre(p: nat, round: Round, author: Authority, a: BlockRef)
    requires author < 4
    ensures a in Links(p, round, author) <==>
              round > 0 && a == RefAt(round - 1, a.author) && a.author in Parents(p, round, author)
  {
    hide Parents;
    var parents, links := Parents(p, round, author), Links(p, round, author);
    if round > 0 && a == RefAt(round - 1, a.author) && a.author in parents {
      var i :| 0 <= i < |parents| && parents[i] == a.author;
      assert links[i] == a;
    }
  }

  lemma ParentsAreThree(p: nat, round: Round, author: Authority)
    requires author < 4
    ensures var parents := Parents(p, round, author);
            && |parents| >= 3 && parents[0] == author
            && (forall i :: 0 <= i < |parents| ==> parents[i] < 4)
            && (forall i, j :: 0 <= i < j < |parents| ==> parents[i] != parents[j])
  {
  }

  lemma ParentsAreQuorum(p: nat, round: Round, author: Authority, s: set<Authority>)
    requires author < 4 && forall a :: a in Parents(p, round, author) ==> a in s
    ensures Four.IsQuorum(s)
  {
    QuorumIsThree(s);
    hide Committee.IsQuorum;
    var parents := Parents(p, round, author);
    assert parents[0] in parents && parents[1] in parents && parents[2] in parents;
  }

  lemma IsWellFormed(p: nat, round: Round, author: Authority)
    requires author < 4 && round > 0
    ensures WellFormed(Four, WorldAt(p).genesis, BlockAt(p, round, author))
  {
    hide Upto, Committee.IsQuorum, Parents;
    var b, parents := BlockAt(p, round, author), Parents(p, round, author);
    ParentsAreThree(p, round, author);
    forall a | a in b.ancestors
      ensures a == RefAt(round - 1, a.author) && a.author in parents
    {
      LinksAre(p, round, author, a);
    }
    forall a | a in parents
      ensures a in ParentAuthors(b)
    {
      LinksAre(p, round, author, RefAt(round - 1, a));
      assert RefAt(round - 1, a) in b.ancestors;
    }
    ParentsAreQuorum(p, round, author, ParentAuthors(b));
    assert b.ancestors[0] == RefAt(round - 1, author);
  }

  lemma IsViewOf(p: nat, round: Round)
    requires round > 0
    ensures ViewOf(WorldAt(p), FullView(p), round)
  {
    hide Upto, WellFormed, Committee.ToleratesFaults, BlockAt;
    var w := WorldAt(p);
    FaultsAreTolerated();
    forall r | r in w.blocks
      ensures w.blocks[r].Ref() == r && r.round <= p + 6
      ensures r.round == GENESIS_ROUND ==> w.blocks[r].ancestors == []
      ensures r.round > 0 ==> WellFormed(w.committee, w.genesis, w.blocks[r])
      ensures forall a :: a in w.blocks[r].ancestors ==> a in w.blocks
    {
      Holds(p, r);
      BlockFacts(p, r);
      if r.round > 0 {
        IsWellFormed(p, r.round, r.author);
      }
    }
    forall r, s | r in w.blocks && s in w.blocks && w.InSameHonestSlot(r, s)
      ensures r == s
    {
      Holds(p, r);
      Holds(p, s);
    }
  }

  lemma BlockFacts(p: nat, r: BlockRef)
    requires IsRef(p, r)
    ensures BlockAt(p, r.round, r.author).Ref() == r
    ensures r.round == 0 ==> BlockAt(p, r.round, r.author).ancestors == []
    ensures forall a :: a in BlockAt(p, r.round, r.author).ancestors ==> a in WorldAt(p).blocks
  {
    hide Upto, Parents;
    forall a | a in BlockAt(p, r.round, r.author).ancestors
      ensures a in WorldAt(p).blocks
    {
      LinksAre(p, r.round, r.author, a);
      ParentsAreThree(p, r.round, r.author);
      Holds(p, a);
    }
  }

  // ----- direct decisions

  lemma LinksTo(p: nat, x: BlockRef, a: BlockRef)
    requires IsRef(p, x)
    ensures x in WorldAt(p).blocks
    ensures a in WorldAt(p).blocks[x].ancestors <==>
              x.round > 0 && a == RefAt(x.round - 1, a.author) && a.author in Parents(p, x.round, x.author)
  {
    hide Upto, Parents;
    Holds(p, x);
    LinksAre(p, x.round, x.author, a);
  }

  /** The author votes for the block of another in a round. */
  predicate IsVoter(p: nat, round: Round, author: Authority, to: Authority) {
    author < 4 && to in Parents(p, round + 1, author)
  }

  lemma VotersAre(p: nat, k: BlockRef, l: BlockRef, a: Authority)
    requires IsRef(p, k) && IsRef(p, l) && k.round == l.round + 2
    ensures k in WorldAt(p).blocks
    ensures a in Voters(WorldAt(p), k, l) <==> a in Parents(p, k.round, k.author) && IsVoter(p, l.round, a, l.author)
  {
    hide Upto, Parents;
    var w, v := WorldAt(p), RefAt(l.round + 1, a);
    LinksTo(p, k, v);
    ParentsAreThree(p, k.round, k.author);
    if a < 4 {
      LinksTo(p, v, l);
    }
    if a in Voters(w, k, l) {
      var x :| x in w.blocks[k].ancestors && x in w.blocks && x.round == l.round + 1 && l in w.blocks[x].ancestors
        && x.author == a;
      LinksTo(p, k, x);
    }
  }

  lemma CertifiesWhen(p: nat, k: BlockRef, l: BlockRef)
    requires IsRef(p, k) && IsRef(p, l) && k.round == l.round + 2
    requires forall a :: a in Parents(p, k.round, k.author) ==> IsVoter(p, l.round, a, l.author)
    ensures Certifies(WorldAt(p), k, l)
  {
    hide Upto, Parents, Voters, Committee.IsQuorum;
    Holds(p, k);
    ParentsAreThree(p, k.round, k.author);
    forall a | a in Parents(p, k.round, k.author)
      ensures a in Voters(WorldAt(p), k, l)
    {
      VotersAre(p, k, l, a);
    }
    ParentsAreQuorum(p, k.round, k.author, Voters(WorldAt(p), k, l));
  }

  /** A leader that everyone links to is committed directly. */
  lemma IsCommitted(p: nat, l: BlockRef)
    requires IsRef(p, l) && 0 < l.round <= p + 4
    requires forall a: Authority :: a < 4 ==> IsVoter(p, l.round, a, l.author)
    ensures DirectStatus(WorldAt(p), FullView(p), l.Slot()) == LeaderStatus.Commit(l)
  {
    hide Upto, Parents, Voters, Certifies, Committee.IsQuorum, DirectStatus;
    var w, d := WorldAt(p), FullView(p);
    forall a: Authority | a < 4
      ensures a in Certifiers(w, d, l)
    {
      var k := RefAt(l.round + 2, a);
      ParentsAreThree(p, k.round, k.author);
      CertifiesWhen(p, k, l);
      Holds(p, k);
      assert k in d.blocks && k.round == l.round + 2 && k.author == a;
    }
    QuorumIsThree(Certifiers(w, d, l));
    Holds(p, l);
    IsViewOf(p, 1);
    DirectStatusIs(w, d, l.Slot(), l);
  }

  /** A leader that only its own author links to is skipped. */
  lemma IsSkipped(p: nat, slot: Slot)
    requires slot.round + 1 <= p + 6
    requires forall a :: 1 <= a < 4 ==> !IsVoter(p, slot.round, a, slot.authority)
    ensures DirectStatus(WorldAt(p), FullView(p), slot) == Skip(slot)
  {
    hide Upto, Parents;
    var d := FullView(p);
    forall a | 1 <= a < 4
      ensures a in Blamers(d, slot)
    {
      var x := RefAt(slot.round + 1, a);
      Holds(p, x);
      forall y | y in d.blocks[x].ancestors
        ensures y.author != slot.authority
      {
        LinksTo(p, x, y);
        assert !IsVoter(p, slot.round, a, slot.authority);
      }
      assert x in d.blocks && x.round == slot.round + 1 && IsBlame(d.blocks[x], slot.authority) && x.author == a;
    }
    QuorumIsThree(Blamers(d, slot));
  }

  /** Only one block certifies the leader of round p + 1. */
  lemma OnlyCertificate(p: nat, k: BlockRef)
    ensures Certifies(WorldAt(p), k, RefAt(p + 1, 0)) <==> k == RefAt(p + 3, 0)
  {
    hide Upto, Voters, Committee.IsQuorum;
    Holds(p, k);
    if IsRef(p, k) && k.round == p + 3 {
      VotersAre(p, k, RefAt(p + 1, 0), 0);
      VotersAre(p, k, RefAt(p + 1, 0), 1);
      VotersAre(p, k, RefAt(p + 1, 0), 2);
      VotersAre(p, k, RefAt(p + 1, 0), 3);
      QuorumIsThree(Voters(WorldAt(p), k, RefAt(p + 1, 0)));
    }
  }

  /** The leader of round p + 1 is not decided directly. */
  lemma IsOpen(p: nat)
    ensures DirectStatus(WorldAt(p), FullView(p), SlotAt(p + 1, 0)) == Undecided(SlotAt(p + 1, 0))
  {
    hide Upto, Committee.IsQuorum, Certifies;
    var w, d, slot := WorldAt(p), FullView(p), SlotAt(p + 1, 0);
    forall a | a in Blamers(d, slot)
      ensures a == 3
    {
      var x :| x in d.blocks && x.round == p + 2 && IsBlame(d.blocks[x], 0) && x.author == a;
      Holds(p, x);
      LinksTo(p, x, RefAt(p + 1, 0));
    }
    QuorumIsThree(Blamers(d, slot));
    forall l | DirectlySupported(w, d, slot, l)
      ensures false
    {
      Holds(p, l);
      assert l == RefAt(p + 1, 0);
      forall a | a in Certifiers(w, d, l)
        ensures a == 0
      {
        var k :| k in d.blocks && k.round == p + 3 && Certifies(w, k, l) && k.author == a;
        OnlyCertificate(p, k);
      }
      QuorumIsThree(Certifiers(w, d, l));
    }
  }

  // ----- decisions

  /** The leaders: authority 0, except that the next two are committed when q asks for it, and that a schedule which
      is elected after the leader of round p + 1 names authority 1 for round p + 4. */
  function LeaderAt(p: nat, q: nat, changed: bool, round: Round): Authority {
    if round == p + 2 then (if q >= 2 then 1 else 0)
    else if round == p + 3 then (if q >= 3 then 1 else 0)
    else if round == p + 4 && changed then 1
    else 0
  }

  function ProtocolAt(p: nat, q: nat, n: nat): Protocol {
    Protocol((leaders: seq<BlockRef>) => (round: Round) => LeaderAt(p, q, |leaders| > p, round), n, leaders => [],
             commit => 0)
  }

  function Decision(p: nat, q: nat, round: Round): LeaderStatus {
    if (round == p + 2 && q < 2) || (round == p + 3 && q < 3) then Skip(SlotAt(round, 0))
    else LeaderStatus.Commit(RefAt(round, LeaderAt(p, q, true, round)))
  }

  function Decided(p: nat, q: nat): seq<LeaderStatus> {
    seq(p + 4, i requires 0 <= i < p + 4 => Decision(p, q, i + 1))
  }

  /** Direct decisions under either schedule. */
  lemma DecidedDirectly(p: nat, q: nat, changed: bool, round: Round)
    requires 0 < round <= p + 4 && round != p + 1
    ensures var author := LeaderAt(p, q, changed, round);
            var slot := SlotAt(round, author);
            var skipped := author == 0 && (round == p + 2 || round == p + 3);
            DirectStatus(WorldAt(p), FullView(p), slot)
            == if skipped then Skip(slot) else LeaderStatus.Commit(RefAt(round, author))
  {
    hide WorldAt, FullView, DirectStatus;
    var author := LeaderAt(p, q, changed, round);
    if author == 0 && (round == p + 2 || round == p + 3) {
      IsSkipped(p, SlotAt(round, author));
    } else {
      forall a: Authority | a < 4
        ensures IsVoter(p, round, a, author)
      {
      }
      IsCommitted(p, RefAt(round, author));
    }
  }

  /** The schedule in use depends on how many leaders were committed when it was elected. */
  lemma CurrentLeader(p: nat, q: nat, n: nat, decided: seq<LeaderStatus>, round: Round)
    requires n > 0
    ensures ProtocolAt(p, q, n).Current(decided)(round)
         == LeaderAt(p, q, LastUpdate(|CommittedLeaders(decided)|, n) > p, round)
  {
    hide LeaderAt, CommittedLeaders, LastUpdate;
    LastUpdateIsInRange(|CommittedLeaders(decided)|, n);
  }

  lemma {:induction false} CountsAre(p: nat, q: nat, m: nat)
    requires m <= p + 4
    ensures |CommittedLeaders(Decided(p, q)[..m])|
         == m - (if m >= p + 2 && q < 2 then 1 else 0) - (if m >= p + 3 && q < 3 then 1 else 0)
  {
    if m == 0 {
    } else {
      CountsAre(p, q, m - 1);
      assert Decided(p, q)[..m][..m - 1] == Decided(p, q)[..m - 1];
    }
  }

  /** The leader of round p + 1 is committed through the leader of round p + 4 under the first schedule. */
  lemma DecidedIndirectly(p: nat, q: nat, schedule: Schedule)
    requires forall round: Round :: schedule(round) == LeaderAt(p, q, false, round)
    ensures StatusAt(WorldAt(p), FullView(p), schedule, p + 1, p + 4) == LeaderStatus.Commit(RefAt(p + 1, 0))
  {
    hide WorldAt, FullView, DirectStatus, AnchorStatus, LeaderAt;
    var w, d := WorldAt(p), FullView(p);
    FirstLeaders(p, q);
    IsOpen(p);
    DecidedDirectly(p, q, false, p + 2);
    DecidedDirectly(p, q, false, p + 3);
    DecidedDirectly(p, q, false, p + 4);
    AnchorCommits(p);
    DirectDecides(w, d, schedule, p + 4, p + 4);
    DirectDecides(w, d, schedule, p + 3, p + 4);
    DirectDecides(w, d, schedule, p + 2, p + 4);
    UndecidedFallsBack(w, d, schedule, p + 1, p + 4);
    StatusesAreByRound(w, d, schedule, p + 2, p + 4, 0);
    StatusesAreByRound(w, d, schedule, p + 2, p + 4, 1);
    StatusesAreByRound(w, d, schedule, p + 2, p + 4, 2);
    var later := Statuses(w, d, schedule, p + 2, p + 4);
    hide Statuses, StatusAt;
    ThirdDecides(w, SlotAt(p + 1, 0), later);
  }

  lemma ThirdDecides(w: World, slot: Slot, later: seq<LeaderStatus>)
    requires |later| == 3 && later[2].Commit? && later[2].block.round == slot.round + 3
    requires later[0].Round() == slot.round + 1 && later[1].Round() == slot.round + 2
    ensures IndirectStatus(w, slot, later) == AnchorStatus(w, later[2].block, slot)
  {
    hide AnchorStatus;
    assert later[1..] == [later[1], later[2]];
    assert later[1..][1..] == [later[2]];
    assert IndirectStatus(w, slot, [later[2]]) == AnchorStatus(w, later[2].block, slot);
    assert IndirectStatus(w, slot, later[1..]) == IndirectStatus(w, slot, later[1..][1..]);
  }

  lemma FirstLeaders(p: nat, q: nat)
    ensures LeaderAt(p, q, false, p + 1) == 0 && LeaderAt(p, q, false, p + 4) == 0
    ensures LeaderAt(p, q, true, p + 1) == 0 && LeaderAt(p, q, true, p + 4) == 1
  {
  }

  lemma AnchorCommits(p: nat)
    ensures AnchorStatus(WorldAt(p), RefAt(p + 4, 0), SlotAt(p + 1, 0)) == LeaderStatus.Commit(RefAt(p + 1, 0))
  {
    hide Upto, Certifies, AnchorStatus;
    var w := WorldAt(p);
    OnlyCertificate(p, RefAt(p + 3, 0));
    LinksTo(p, RefAt(p + 4, 0), RefAt(p + 3, 0));
    IsViewOf(p, 1);
    AncestorIsReached(w, RefAt(p + 4, 0), RefAt(p + 3, 0));
    AnchorStatusIs(w, RefAt(p + 4, 0), RefAt(p + 1, 0));
  }

  lemma IsDecidedAt(p: nat, q: nat, n: nat, i: nat)
    requires n > 0 && 1 <= q <= 3 && i < p + 4 && LastUpdate(p, n) != LastUpdate(p + q, n)
    ensures ProtocolAt(p, q, n).Valid()
    ensures BackedBy(WorldAt(p), ProtocolAt(p, q, n), Decided(p, q), i, FullView(p), p + 4)
  {
    hide WorldAt, FullView, ProtocolAt, StatusAt, DirectStatus, CommittedLeaders, LastUpdate, ViewOf;
    var w, d, e, decided := WorldAt(p), FullView(p), ProtocolAt(p, q, n), Decided(p, q);
    ProtocolIsValid(p, q, n);
    var schedule := e.Current(decided[..i]);
    IsViewOf(p, i + 1);
    CountsAre(p, q, i);
    var changed := LastUpdate(|CommittedLeaders(decided[..i])|, n) > p;
    forall round: Round
      ensures schedule(round) == LeaderAt(p, q, changed, round)
    {
      CurrentLeader(p, q, n, decided[..i], round);
    }
    if i == p {
      LastUpdateIsInRange(p, n);
      DecidedIndirectly(p, q, schedule);
    } else {
      if i == p + 3 {
        LastUpdateIsMonotone(p, p + q, n);
      }
      DecidedDirectly(p, q, changed, i + 1);
      DirectDecides(w, d, schedule, i + 1, p + 4);
    }
  }

  lemma ProtocolIsValid(p: nat, q: nat, n: nat)
    ensures n > 0 ==> ProtocolAt(p, q, n).Valid()
    ensures ProtocolAt(p, q, n).commitsPerSchedule == n
  {
  }

  // ----- the certificate is lost

  lemma NotReached(p: nat, q: nat, m: nat)
    requires p <= m <= p + 3 && Decision(p, q, m + 1).Commit?
    ensures !Reaches(WorldAt(p).blocks, Decision(p, q, m + 1).block, RefAt(p + 3, 0))
  {
    hide Upto;
    var w, b, k := WorldAt(p), Decision(p, q, m + 1).block, RefAt(p + 3, 0);
    if Reaches(w.blocks, b, k) {
      ReachesDescends(w.blocks, b, k);
      Holds(p, b);
      var a :| a in w.blocks[b].ancestors && a.round < b.round && Reaches(w.blocks, a, k);
      LinksTo(p, b, a);
      ReachesDescends(w.blocks, a, k);
    }
  }

  /** The decisions are those of a validator that has seen all blocks. */
  lemma IsReached(p: nat, q: nat, n: nat)
    requires n > 0 && 1 <= q <= 3 && LastUpdate(p, n) != LastUpdate(p + q, n)
    ensures ProtocolAt(p, q, n).Valid()
    ensures Backed(WorldAt(p), ProtocolAt(p, q, n), Decided(p, q))
    ensures IsReachable(WorldAt(p), ProtocolAt(p, q, n), Decided(p, q))
  {
    hide WorldAt, Upto, ProtocolAt, LastUpdate, BackedBy;
    var w, e, decided, d := WorldAt(p), ProtocolAt(p, q, n), Decided(p, q), FullView(p);
    ProtocolIsValid(p, q, n);
    forall i | 0 <= i < |decided|
      ensures BackedBy(w, e, decided, i, d, LastDecidable(d))
    {
      IsDecidedAt(p, q, n, i);
    }
    BackedByView(w, e, d, decided);
    DecisionsAreReachable(w, e, d, decided);
  }

  /** Whenever the schedule changes between the leader after p commits and the leader q commits later, there is a case
      in which no certificate of the first is among the committed blocks, and a run comes to it. */
  lemma ChangeCanLoseCertificate(n: nat, p: nat, q: nat)
    returns (w: World, e: Protocol, decided: seq<LeaderStatus>, i: nat, j: nat, d: DagState)
    requires n > 0 && 1 <= q <= 3 && LastUpdate(p, n) != LastUpdate(p + q, n)
    ensures IsCase(n, p, q, w, e, decided, i, j, d) && IsReachable(w, e, decided)
    ensures !CertificateIsCommitted(w, decided, i, j)
  {
    hide Upto, ProtocolAt, CommittedLeaders, LastUpdate, StatusAt, Certifies, Reaches, ViewOf, Backed, IsReachable;
    w, e, decided, i, j, d := WorldAt(p), ProtocolAt(p, q, n), Decided(p, q), p, p + 3, FullView(p);
    ProtocolIsValid(p, q, n);
    IsReached(p, q, n);
    CountsAre(p, q, p);
    CountsAre(p, q, p + 3);
    IsViewOf(p, p + 1);
    Holds(p, decided[j].block);
    forall m, k | i <= m <= j && decided[m].Commit? && Certifies(w, k, decided[i].block)
      ensures !Reaches(w.blocks, decided[m].block, k)
    {
      OnlyCertificate(p, k);
      NotReached(p, q, m);
    }
  }

  // ----- exactly when it is there

  /** A leader committed after p others, and the first leader a wave later, committed after p + q others. */
  ghost predicate IsCase(n: nat, p: nat, q: nat, w: World, e: Protocol, decided: seq<LeaderStatus>, i: nat, j: nat,
                         d: DagState)
  {
    && e.Valid() && e.commitsPerSchedule == n
    && Backed(w, e, decided) && IsNextWave(decided, i, j)
    && |CommittedLeaders(decided[..i])| == p && |CommittedLeaders(decided[..j])| == p + q
    && ViewOf(w, d, i + 1) && decided[j].block in d.blocks
  }

  /** Between one and three leaders are committed from a leader on before the next one a wave later. */
  lemma CommitsInBetween(decided: seq<LeaderStatus>, i: nat, j: nat)
    requires IsNextWave(decided, i, j)
    ensures |CommittedLeaders(decided[..i])| + 1 <= |CommittedLeaders(decided[..j])|
    ensures |CommittedLeaders(decided[..j])| <= |CommittedLeaders(decided[..i])| + 3
  {
    NoMoreCommits(decided, i + WAVE_LENGTH, j);
    assert decided[..i + WAVE_LENGTH][..i] == decided[..i] && decided[..i + WAVE_LENGTH][..i + 1] == decided[..i + 1];
    assert decided[..i + 1][..i] == decided[..i];
    CommittedLeadersGrow(decided[..i + WAVE_LENGTH], i);
    CommittedLeadersGrow(decided[..i + WAVE_LENGTH], i + 1);
  }

  lemma {:induction false} NoMoreCommits(decided: seq<LeaderStatus>, m: nat, n: nat)
    requires m <= n <= |decided| && forall r :: m <= r < n ==> !decided[r].Commit?
    ensures CommittedLeaders(decided[..n]) == CommittedLeaders(decided[..m])
  {
    if m == n {
    } else {
      NoMoreCommits(decided, m, n - 1);
      assert decided[..n][..n - 1] == decided[..n - 1];
    }
  }

  /** A case that a run comes to. */
  ghost predicate IsReachableCase(n: nat, p: nat, q: nat, w: World, e: Protocol, decided: seq<LeaderStatus>, i: nat,
                                  j: nat, d: DagState)
  {
    IsCase(n, p, q, w, e, decided, i, j, d) && IsReachable(w, e, decided)
  }

  /** A certificate is among the committed blocks in all cases exactly when the schedule does not change in between,
      and also in all cases that a run comes to. */
  lemma CertificateIsCommittedExactly(n: nat, p: nat, q: nat)
    requires n > 0 && 1 <= q <= 3
    ensures (forall w, e, decided, i, j, d :: IsCase(n, p, q, w, e, decided, i, j, d) ==>
               CertificateIsCommitted(w, decided, i, j))
       <==> LastUpdate(p, n) == LastUpdate(p + q, n)
    ensures (forall w, e, decided, i, j, d :: IsReachableCase(n, p, q, w, e, decided, i, j, d) ==>
               CertificateIsCommitted(w, decided, i, j))
       <==> LastUpdate(p, n) == LastUpdate(p + q, n)
  {
    hide CommittedLeaders, LastUpdate, CertificateIsCommitted, Backed, ViewOf, IsReachable;
    if LastUpdate(p, n) == LastUpdate(p + q, n) {
      forall w, e, decided, i, j, d | IsCase(n, p, q, w, e, decided, i, j, d)
        ensures CertificateIsCommitted(w, decided, i, j)
      {
        NextWaveHasCertificate(w, e, decided, i, j, d);
      }
    } else {
      var w, e, decided, i, j, d := ChangeCanLoseCertificate(n, p, q);
      assert IsReachableCase(n, p, q, w, e, decided, i, j, d) && !CertificateIsCommitted(w, decided, i, j);
    }
  }
}
