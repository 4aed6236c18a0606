/** What a validator knows about the certificates behind a committed leader. */
module LeaderCertificates {
  import opened Division
  import opened Committees
  import opened Blocks
  import opened BlockVerifier
  import opened Dags
  import opened CommitRule
  import opened BaseCommitter
  import opened UniversalCommitter
  import opened CommitRuns
  import opened Linearizers

  /** The leader is certified. The view holds the certificate, which is below a later block, or it holds that
      block, which is at least a wave later. */
  ghost predicate IsKnown(w: World, d: DagState, later: BlockRef, k: BlockRef, leader: BlockRef) {
    && Certifies(w, k, leader)
    && (|| (k in d.blocks && Reaches(w.blocks, later, k))
        || (later in d.blocks && later.round >= leader.round + WAVE_LENGTH))
  }

  // ----- committed leaders

  lemma StatusIsInRange(w: World, d: DagState, schedule: Schedule, round: Round, high: Round)
    requires StatusAt(w, d, schedule, round, high).IsDecided()
    ensures round <= high
  {
    hide Statuses;
  }

  lemma DirectIsFinal(w: World, d: DagState, schedule: Schedule, round: Round, high: Round)
    requires StatusAt(w, d, schedule, round, high).IsDecided()
    requires DirectStatus(w, d, SlotAt(round, schedule(round))).IsDecided()
    ensures StatusAt(w, d, schedule, round, high) == DirectStatus(w, d, SlotAt(round, schedule(round)))
  {
    hide DirectStatus, AnchorStatus;
  }

  lemma DirectCommitIsSupported(w: World, d: DagState, slot: Slot)
    requires DirectStatus(w, d, slot).Commit?
    ensures DirectlySupported(w, d, slot, DirectStatus(w, d, slot).block)
  {
  }

  lemma AnchorHasCertificate(w: World, d: DagState, anchor: BlockRef, slot: Slot) returns (k: BlockRef)
    requires ViewOf(w, d, slot.round) && anchor in d.blocks && AnchorStatus(w, anchor, slot).Commit?
    ensures k in d.blocks && Certifies(w, k, AnchorStatus(w, anchor, slot).block) && Reaches(w.blocks, anchor, k)
  {
    hide World.Valid, World.HasView, Certifies, Reaches;
    var l := AnchorStatus(w, anchor, slot).block;
    assert l.Slot() == slot && CertifiedBelow(w, anchor, l);
    k :| Reaches(w.blocks, anchor, k) && Certifies(w, k, l);
    CertifiedBelowIsInView(w, d, anchor, k, l);
  }

  /** A validator that commits a leader on its own view holds a certificate. */
  lemma LocalCommitIsCertified(w: World, e: Protocol, decided: seq<LeaderStatus>, i: nat, d: DagState, high: Round)
    returns (k: BlockRef)
    requires e.Valid() && i < |decided| && decided[i].Commit? && BackedBy(w, e, decided, i, d, high)
    ensures k in d.blocks && Certifies(w, k, decided[i].block)
  {
    hide World.Valid, World.HasView, DirectStatus, AnchorStatus, Certifies, Reaches, Statuses;
    var schedule := e.Current(decided[..i]);
    var slot := SlotAt(i + 1, schedule(i + 1));
    if DirectStatus(w, d, slot).IsDecided() {
      DirectIsFinal(w, d, schedule, i + 1, high);
      DirectCommitIsSupported(w, d, slot);
      k := SupportedHasCertificate(w, d, slot, decided[i].block);
    } else {
      StatusIsInRange(w, d, schedule, i + 1, high);
      var r := AnchorRound(w, d, schedule, i + 1, high);
      k := AnchorHasCertificate(w, d, StatusAt(w, d, schedule, r, high).block, slot);
    }
  }

  /** A committed leader is certified. */
  lemma CommittedIsCertified(w: World, e: Protocol, decided: seq<LeaderStatus>, i: nat) returns (k: BlockRef)
    requires e.Valid() && Backed(w, e, decided) && i < |decided| && decided[i].Commit?
    ensures Certifies(w, k, decided[i].block)
  {
    assert IsBacked(w, e, decided, i);
    var d, high :| BackedBy(w, e, decided, i, d, high);
    k := LocalCommitIsCertified(w, e, decided, i, d, high);
  }

  /** Above every leader that a view commits, there is one that the view commits directly. */
  lemma {:induction false} TopAnchor(w: World, d: DagState, schedule: Schedule, round: Round, high: Round)
    returns (t: BlockRef)
    requires ViewOf(w, d, round) && StatusAt(w, d, schedule, round, high).Commit?
    ensures DirectlySupported(w, d, t.Slot(), t) && Reaches(w.blocks, t, StatusAt(w, d, schedule, round, high).block)
    decreases high + 1 - round
  {
    hide World.Valid, World.HasView, DirectStatus, AnchorStatus, Certifies, Reaches, Statuses;
    var slot, l := SlotAt(round, schedule(round)), StatusAt(w, d, schedule, round, high).block;
    StatusIsInRange(w, d, schedule, round, high);
    if DirectStatus(w, d, slot).IsDecided() {
      DirectIsFinal(w, d, schedule, round, high);
      DirectCommitIsSupported(w, d, slot);
      t := l;
      ReachesItself(w, l);
    } else {
      var r := AnchorRound(w, d, schedule, round, high);
      var anchor := StatusAt(w, d, schedule, r, high).block;
      var k := AnchorHasCertificate(w, d, anchor, slot);
      t := TopAnchor(w, d, schedule, r, high);
      CertifiedIsInHistory(w, k, l);
      ReachesTransitive(w.blocks, anchor, k, l);
      ReachesTransitive(w.blocks, t, anchor, l);
    }
  }

  // ----- quorums in a view

  ghost function AuthorsAt(d: DagState, round: Round): set<Authority> {
    set r | r in d.blocks && r.round == round :: r.author
  }

  /** A view that commits a block directly has a quorum of blocks at every round up to the certificates. */
  lemma ViewHasQuorumAt(w: World, d: DagState, t: BlockRef, round: Round)
    requires w.Valid() && w.HasView(d) && DirectlySupported(w, d, t.Slot(), t) && d.gcRound < round <= t.round + 2
    ensures w.committee.IsQuorum(AuthorsAt(d, round))
  {
    if round == t.round + 2 {
      hide World.Valid, World.HasView;
      StakeMonotone(w.committee, Certifiers(w, d, t), AuthorsAt(d, round));
    } else {
      var k := SupportedHasCertificate(w, d, t.Slot(), t);
      HistoryHasQuorum(w, d, k, round);
      forall a | a in HistoryAuthors(w, k, round)
        ensures a in AuthorsAt(d, round)
      {
        var r :| r in w.blocks && r.round == round && Reaches(w.blocks, k, r) && r.author == a;
        ViewReaches(w, d, k, r);
      }
      StakeMonotone(w.committee, HistoryAuthors(w, k, round), AuthorsAt(d, round));
    }
  }

  /** Such a view holds every certified block below the certificates. */
  lemma CertifiedIsInView(w: World, d: DagState, t: BlockRef, k: BlockRef, x: BlockRef)
    requires w.Valid() && w.HasView(d) && DirectlySupported(w, d, t.Slot(), t)
    requires Certifies(w, k, x) && d.gcRound < x.round <= t.round + 1
    ensures x in d.blocks
  {
    ViewHasQuorumAt(w, d, t, x.round + 1);
    var h := QuorumsShareHonest(w.committee, w.byzantine, AuthorsAt(d, x.round + 1), Voters(w, k, x));
    var r :| r in d.blocks && r.round == x.round + 1 && r.author == h;
    var v :| v in w.blocks[k].ancestors && v in w.blocks && v.round == x.round + 1 && x in w.blocks[v].ancestors
      && v.author == h;
    HonestBlockIsUnique(w, r, v);
  }

  /** Every block from two rounds on has it in its history. */
  lemma LaterReachesTop(w: World, d: DagState, t: BlockRef, d': DagState, x: BlockRef)
    requires w.Valid() && w.HasView(d) && DirectlySupported(w, d, t.Slot(), t)
    requires w.HasView(d') && x in d'.blocks && x.round >= t.round + 2 && d'.gcRound <= t.round
    ensures Reaches(w.blocks, x, t)
  {
    var k := SupportedHasCertificate(w, d, t.Slot(), t);
    HistoryHasQuorum(w, d', x, t.round + 1);
    var h := QuorumsShareHonest(w.committee, w.byzantine, HistoryAuthors(w, x, t.round + 1), Voters(w, k, t));
    var r :| r in w.blocks && r.round == t.round + 1 && Reaches(w.blocks, x, r) && r.author == h;
    var v :| v in w.blocks[k].ancestors && v in w.blocks && v.round == t.round + 1 && t in w.blocks[v].ancestors
      && v.author == h;
    HonestBlockIsUnique(w, r, v);
    hide Reaches;
    AncestorIsReached(w, v, t);
    ReachesTransitive(w.blocks, x, v, t);
  }

  // ----- what the deciding validator knows

  /** A validator that commits a leader on its own view holds a certificate. The next leader committed at
      least a wave later has it below itself, or is in the view. The schedule may change in between. */
  lemma LocalCommitIsKnown(w: World, e: Protocol, decided: seq<LeaderStatus>, i: nat, j: nat, d: DagState, high: Round,
                           d': DagState)
    returns (k: BlockRef)
    requires e.Valid() && Backed(w, e, decided) && i + WAVE_LENGTH <= j < |decided|
    requires decided[i].Commit? && decided[j].Commit? && BackedBy(w, e, decided, i, d, high)
    requires ViewOf(w, d', i + 1) && decided[j].block in d'.blocks
    ensures k in d.blocks && IsKnown(w, d, decided[j].block, k, decided[i].block)
  {
    hide World.Valid, World.HasView, DirectStatus, AnchorStatus, Certifies, Reaches, Statuses;
    var schedule := e.Current(decided[..i]);
    var slot := SlotAt(i + 1, schedule(i + 1));
    DecidedLeaderIsOfRound(w, e, decided, i);
    DecidedLeaderIsOfRound(w, e, decided, j);
    if DirectStatus(w, d, slot).IsDecided() {
      DirectIsFinal(w, d, schedule, i + 1, high);
      DirectCommitIsSupported(w, d, slot);
      k := DirectCommitIsVisible(w, d, d', slot, decided[i].block, decided[j].block);
    } else {
      StatusIsInRange(w, d, schedule, i + 1, high);
      var r := AnchorRound(w, d, schedule, i + 1, high);
      k := AnchorHasCertificate(w, d, StatusAt(w, d, schedule, r, high).block, slot);
      TopKnowsLater(w, e, decided, i, j, d, schedule, r, high, d', k);
    }
  }

  lemma TopKnowsLater(w: World, e: Protocol, decided: seq<LeaderStatus>, i: nat, j: nat, d: DagState,
                      schedule: Schedule, r: Round, high: Round, d': DagState, k: BlockRef)
    requires e.Valid() && Backed(w, e, decided) && i < j < |decided| && decided[j].Commit?
    requires decided[j].block.round == j + 1
    requires ViewOf(w, d, i + 1) && i + 1 <= r && StatusAt(w, d, schedule, r, high).Commit?
    requires Reaches(w.blocks, StatusAt(w, d, schedule, r, high).block, k)
    requires StatusAt(w, d, schedule, r, high).block.round == r
    requires ViewOf(w, d', i + 1) && decided[j].block in d'.blocks
    ensures Reaches(w.blocks, decided[j].block, k) || decided[j].block in d.blocks
  {
    hide World.Valid, World.HasView, DirectStatus, AnchorStatus, Certifies, Reaches, Statuses;
    var anchor, x := StatusAt(w, d, schedule, r, high).block, decided[j].block;
    var t := TopAnchor(w, d, schedule, r, high);
    ReachesDescends(w.blocks, t, anchor);
    if x.round >= t.round + 2 {
      LaterReachesTop(w, d, t, d', x);
      ReachesTransitive(w.blocks, x, t, anchor);
      ReachesTransitive(w.blocks, x, anchor, k);
    } else {
      var kx := CommittedIsCertified(w, e, decided, j);
      CertifiedIsInView(w, d, t, kx, x);
    }
  }

  /** A validator that holds a committed leader a wave later, however it got it, knows as much: the earlier leader
      is certified, and every block of its decision round in the view has it in its history. */
  lemma RemoteCommitIsKnown(w: World, e: Protocol, decided: seq<LeaderStatus>, i: nat, j: nat, d: DagState)
    returns (k: BlockRef)
    requires e.Valid() && Backed(w, e, decided) && i + WAVE_LENGTH <= j < |decided|
    requires decided[i].Commit? && decided[j].Commit? && ViewOf(w, d, i + 1) && decided[j].block in d.blocks
    ensures IsKnown(w, d, decided[j].block, k, decided[i].block)
    ensures forall x :: x in d.blocks && x.round == i + 3 ==> Reaches(w.blocks, x, decided[i].block)
  {
    hide World.Valid, World.HasView, Certifies, Reaches, StatusAt;
    k := CommittedIsCertified(w, e, decided, i);
    DecidedLeaderIsOfRound(w, e, decided, i);
    DecidedLeaderIsOfRound(w, e, decided, j);
    forall x | x in d.blocks && x.round == i + 3
      ensures Reaches(w.blocks, x, decided[i].block)
    {
      var a := ParentReachesLeader(w, d, k, decided[i].block, x);
      ReachesTransitive(w.blocks, x, a, decided[i].block);
    }
  }

  /** A block in the decision round has a voter for the certified leader among its parents. */
  lemma ParentReachesLeader(w: World, d: DagState, k: BlockRef, l: BlockRef, x: BlockRef) returns (a: BlockRef)
    requires w.Valid() && Certifies(w, k, l)
    requires w.HasView(d) && x in d.blocks && x.round == l.round + 2 && d.gcRound <= l.round
    ensures Reaches(w.blocks, x, a) && Reaches(w.blocks, a, l)
  {
    hide Reaches;
    var parents := ParentAuthors(w.blocks[x]);
    assert WellFormed(w.committee, w.genesis, w.blocks[x]);
    var h := QuorumsShareHonest(w.committee, w.byzantine, parents, Voters(w, k, l));
    a :| a in w.blocks[x].ancestors && a.round + 1 == x.round && a.author == h;
    assert a in d.blocks;
    var v :| v in w.blocks[k].ancestors && v in w.blocks && v.round == l.round + 1 && l in w.blocks[v].ancestors
      && v.author == h;
    HonestBlockIsUnique(w, a, v);
    AncestorIsReached(w, x, a);
    AncestorIsReached(w, a, l);
  }

  // ----- certificates among the committed blocks

  /** The j-th round has the first committed leader at least a wave after the i-th. */
  ghost predicate IsNextWave(decided: seq<LeaderStatus>, i: nat, j: nat) {
    && i + WAVE_LENGTH <= j < |decided| && decided[i].Commit? && decided[j].Commit?
    && forall n :: i + WAVE_LENGTH <= n < j ==> !decided[n].Commit?
  }

  /** Some leader committed from the i-th round up to the j-th has a certificate of the i-th leader in its history. */
  ghost predicate CertificateIsCommitted(w: World, decided: seq<LeaderStatus>, i: nat, j: nat)
    requires i <= j < |decided| && decided[i].Commit?
  {
    exists m, k :: i <= m <= j && decided[m].Commit? && Certifies(w, k, decided[i].block)
      && Reaches(w.blocks, decided[m].block, k)
  }

  /** The same schedule is in use from the i-th to the j-th round. */
  ghost predicate ScheduleStays(e: Protocol, decided: seq<LeaderStatus>, i: nat, j: nat)
    requires e.Valid() && i <= j <= |decided|
  {
    LastUpdate(|CommittedLeaders(decided[..i])|, e.commitsPerSchedule)
    == LastUpdate(|CommittedLeaders(decided[..j])|, e.commitsPerSchedule)
  }

  lemma LastUpdateIsMonotone(a: nat, b: nat, interval: nat)
    requires interval > 0 && a <= b
    ensures LastUpdate(a, interval) <= LastUpdate(b, interval)
    ensures LastUpdate(a, interval) != LastUpdate(b, interval) ==> a < LastUpdate(b, interval)
  {
    var p, q := a / interval, b / interval;
    assert a == p * interval + a % interval && b == q * interval + b % interval;
    if p < q {
      MultiplesAreApart(interval, p, q);
    } else if q < p {
      MultiplesAreApart(interval, q, p);
    }
  }

  lemma StaysThroughout(e: Protocol, decided: seq<LeaderStatus>, i: nat, n: nat, j: nat)
    requires e.Valid() && i <= n <= j <= |decided| && ScheduleStays(e, decided, i, j)
    ensures e.Current(decided[..n]) == e.Current(decided[..i])
  {
    assert decided[..n][..i] == decided[..i] && decided[..j][..n] == decided[..n];
    CommittedLeadersGrow(decided[..n], i);
    CommittedLeadersGrow(decided[..j], n);
    hide CommittedLeaders, LastUpdate;
    var a, b, c := |CommittedLeaders(decided[..i])|, |CommittedLeaders(decided[..n])|, |CommittedLeaders(decided[..j])|;
    LastUpdateIsMonotone(a, b, e.commitsPerSchedule);
    LastUpdateIsMonotone(b, c, e.commitsPerSchedule);
    LastUpdateIsInRange(a, e.commitsPerSchedule);
    var last := LastUpdate(a, e.commitsPerSchedule);
    assert CommittedLeaders(decided[..n])[..last] == CommittedLeaders(decided[..i])[..last];
  }

  /** While the schedule stays, the first leader committed a wave later has a certificate below itself. */
  lemma NextWaveHasCertificate(w: World, e: Protocol, decided: seq<LeaderStatus>, i: nat, j: nat, d': DagState)
    requires e.Valid() && Backed(w, e, decided) && IsNextWave(decided, i, j) && ScheduleStays(e, decided, i, j)
    requires ViewOf(w, d', i + 1) && decided[j].block in d'.blocks
    ensures CertificateIsCommitted(w, decided, i, j)
  {
    hide World.Valid, World.HasView, DirectStatus, AnchorStatus, Certifies, Reaches, Statuses, ScheduleStays;
    assert IsBacked(w, e, decided, i);
    var d, high :| BackedBy(w, e, decided, i, d, high);
    var schedule := e.Current(decided[..i]);
    var slot := SlotAt(i + 1, schedule(i + 1));
    var k;
    if DirectStatus(w, d, slot).IsDecided() {
      DirectIsFinal(w, d, schedule, i + 1, high);
      DirectCommitIsSupported(w, d, slot);
      DecidedLeaderIsOfRound(w, e, decided, j);
      k := DirectCommitIsVisible(w, d, d', slot, decided[i].block, decided[j].block);
    } else {
      StatusIsInRange(w, d, schedule, i + 1, high);
      var r := AnchorRound(w, d, schedule, i + 1, high);
      AnchorIsNext(w, e, decided, i, j, d, high, r);
      k := AnchorHasCertificate(w, d, decided[j].block, slot);
    }
    assert Certifies(w, k, decided[i].block) && Reaches(w.blocks, decided[j].block, k);
  }

  /** The anchor of the i-th leader is the next leader that is committed a wave later. */
  lemma AnchorIsNext(w: World, e: Protocol, decided: seq<LeaderStatus>, i: nat, j: nat, d: DagState, high: Round,
                     r: Round)
    requires e.Valid() && Backed(w, e, decided) && IsNextWave(decided, i, j) && ScheduleStays(e, decided, i, j)
    requires ViewOf(w, d, i + 1) && i + 1 + WAVE_LENGTH <= r <= high
    requires StatusAt(w, d, e.Current(decided[..i]), r, high).Commit?
    requires forall s: Round :: i + 1 + WAVE_LENGTH <= s < r ==> StatusAt(w, d, e.Current(decided[..i]), s, high).Skip?
    ensures r == j + 1 && StatusAt(w, d, e.Current(decided[..i]), r, high) == decided[j]
  {
    hide World.Valid, World.HasView, StatusAt, ScheduleStays;
    if r <= j {
      AgreesWithDecided(w, e, decided, i, j, d, high, r);
    } else {
      AgreesWithDecided(w, e, decided, i, j, d, high, j + 1);
    }
  }

  lemma AgreesWithDecided(w: World, e: Protocol, decided: seq<LeaderStatus>, i: nat, j: nat, d: DagState, high: Round,
                          r: Round)
    requires e.Valid() && Backed(w, e, decided) && j < |decided| && i < r <= j + 1 && ScheduleStays(e, decided, i, j)
    requires ViewOf(w, d, i + 1) && StatusAt(w, d, e.Current(decided[..i]), r, high).IsDecided()
    ensures StatusAt(w, d, e.Current(decided[..i]), r, high) == decided[r - 1]
  {
    hide World.Valid, World.HasView, StatusAt, ScheduleStays;
    assert IsBacked(w, e, decided, r - 1);
    var d1, high1 :| BackedBy(w, e, decided, r - 1, d1, high1);
    StaysThroughout(e, decided, i, r - 1, j);
    Agreement(w, d, d1, e.Current(decided[..i]), r, high, high1);
  }
}
