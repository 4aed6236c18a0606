/** What the commit rule means, independently of any validator's view, and why decisions
    taken in different views cannot contradict each other. */
module CommitRule {
  import opened Committees
  import opened Blocks
  import opened BlockVerifier
  import opened Dags

  /** Leader round, voting round, decision round. */
  const WAVE_LENGTH: Round := 3

  datatype LeaderStatus =
    | Commit(block: BlockRef)
    | Skip(slot: Slot)
    | Undecided(slot: Slot)
  {
    function Round(): Round {
      match this
      case Commit(b) => b.round
      case Skip(s) => s.round
      case Undecided(s) => s.round
    }

    predicate IsDecided() {
      !Undecided?
    }
  }

  /** Authors of the blocks that `cert` links to and that vote for `leader`. */
  ghost function Voters(w: World, cert: BlockRef, leader: BlockRef): set<Authority>
    requires cert in w.blocks
  {
    set v | v in w.blocks[cert].ancestors && v in w.blocks && v.round == leader.round + 1
            && leader in w.blocks[v].ancestors :: v.author
  }

  /** `cert` sits in the decision round of `leader` and links to a quorum of votes for it. */
  ghost predicate Certifies(w: World, cert: BlockRef, leader: BlockRef) {
    && cert in w.blocks
    && cert.round == leader.round + 2
    && w.committee.IsQuorum(Voters(w, cert, leader))
  }

  /** Authors in the view whose voting-round block links to no block of the slot's authority. */
  ghost function Blamers(d: DagState, slot: Slot): set<Authority> {
    set r | r in d.blocks && r.round == slot.round + 1 && IsBlame(d.blocks[r], slot.authority) :: r.author
  }

  predicate IsBlame(b: Block, authority: Authority) {
    forall a :: a in b.ancestors ==> a.author != authority
  }

  /** Authors in the view whose decision-round block certifies `leader`. */
  ghost function Certifiers(w: World, d: DagState, leader: BlockRef): set<Authority> {
    set k | k in d.blocks && k.round == leader.round + 2 && Certifies(w, k, leader) :: k.author
  }

  ghost predicate DirectlySupported(w: World, d: DagState, slot: Slot, leader: BlockRef) {
    && leader in d.blocks
    && leader.Slot() == slot
    && w.committee.IsQuorum(Certifiers(w, d, leader))
  }

  /** Some certificate for `leader` is in the causal history of `anchor`. */
  ghost predicate CertifiedBelow(w: World, anchor: BlockRef, leader: BlockRef) {
    exists k :: Reaches(w.blocks, anchor, k) && Certifies(w, k, leader)
  }

  ghost function DirectStatus(w: World, d: DagState, slot: Slot): LeaderStatus {
    if w.committee.IsQuorum(Blamers(d, slot)) then Skip(slot)
    else if exists l :: DirectlySupported(w, d, slot, l) then
      var l :| DirectlySupported(w, d, slot, l);
      Commit(l)
    else Undecided(slot)
  }

  /** The decision an anchor forces on an earlier slot. It mentions no view. */
  ghost function AnchorStatus(w: World, anchor: BlockRef, slot: Slot): LeaderStatus {
    if exists l: BlockRef :: l.Slot() == slot && CertifiedBelow(w, anchor, l) then
      var l: BlockRef :| l.Slot() == slot && CertifiedBelow(w, anchor, l);
      Commit(l)
    else Skip(slot)
  }

  // ----- safety of certificates

  /** At most one block of a slot is ever certified, in whatever views the certificates are. */
  lemma CertifiedIsUnique(w: World, k1: BlockRef, l1: BlockRef, k2: BlockRef, l2: BlockRef)
    requires w.Valid()
    requires Certifies(w, k1, l1) && Certifies(w, k2, l2)
    requires l1.Slot() == l2.Slot()
    ensures l1 == l2
  {
    var h := QuorumsShareHonest(w.committee, w.byzantine, Voters(w, k1, l1), Voters(w, k2, l2));
    var v1 :| v1 in w.blocks[k1].ancestors && v1 in w.blocks && v1.round == l1.round + 1
              && l1 in w.blocks[v1].ancestors && v1.author == h;
    var v2 :| v2 in w.blocks[k2].ancestors && v2 in w.blocks && v2.round == l2.round + 1
              && l2 in w.blocks[v2].ancestors && v2.author == h;
    HonestBlockIsUnique(w, v1, v2);
    SameAuthorSameAncestor(w, v1, l1, l2);
  }

  lemma HonestBlockIsUnique(w: World, r: BlockRef, s: BlockRef)
    requires w.Valid() && r in w.blocks && s in w.blocks
    requires r.Slot() == s.Slot() && r.author !in w.byzantine
    ensures r == s
  {
    assert w.InSameHonestSlot(r, s);
  }

  lemma SameAuthorSameAncestor(w: World, r: BlockRef, a1: BlockRef, a2: BlockRef)
    requires w.Valid() && r in w.blocks && r.round > 0
    requires a1 in w.blocks[r].ancestors && a2 in w.blocks[r].ancestors
    requires a1.author == a2.author
    ensures a1 == a2
  {
    var ancestors := w.blocks[r].ancestors;
    var i :| 0 <= i < |ancestors| && ancestors[i] == a1;
    var j :| 0 <= j < |ancestors| && ancestors[j] == a2;
    assert DistinctAuthors(ancestors);
  }

  /** A quorum of blames in one view rules out a certificate anywhere. */
  lemma BlamedIsNeverCertified(w: World, d: DagState, k: BlockRef, l: BlockRef)
    requires w.Valid() && w.HasView(d)
    requires w.committee.IsQuorum(Blamers(d, l.Slot()))
    ensures !Certifies(w, k, l)
  {
    if Certifies(w, k, l) {
      var h := QuorumsShareHonest(w.committee, w.byzantine, Blamers(d, l.Slot()), Voters(w, k, l));
      var b :| b in d.blocks && b.round == l.round + 1 && IsBlame(d.blocks[b], l.author) && b.author == h;
      var v :| v in w.blocks[k].ancestors && v in w.blocks && v.round == l.round + 1
               && l in w.blocks[v].ancestors && v.author == h;
      HonestBlockIsUnique(w, b, v);
      assert false;
    }
  }

  /** Two quorums of certificates, of the same slot and possibly in different views, agree. */
  lemma SupportedIsUnique(w: World, d1: DagState, d2: DagState, slot: Slot, l1: BlockRef, l2: BlockRef)
    requires w.Valid()
    requires DirectlySupported(w, d1, slot, l1) && DirectlySupported(w, d2, slot, l2)
    ensures l1 == l2
  {
    var k1 := SupportedHasCertificate(w, d1, slot, l1);
    var k2 := SupportedHasCertificate(w, d2, slot, l2);
    CertifiedIsUnique(w, k1, l1, k2, l2);
  }

  lemma SupportedHasCertificate(w: World, d: DagState, slot: Slot, l: BlockRef) returns (k: BlockRef)
    requires w.Valid() && DirectlySupported(w, d, slot, l)
    ensures k in d.blocks && Certifies(w, k, l)
  {
    var h := QuorumHasMember(w.committee, w.byzantine, Certifiers(w, d, l));
    k :| k in d.blocks && k.round == l.round + 2 && Certifies(w, k, l) && k.author == h;
  }

  /** A block directly committed in one view has a certificate, held by that view, in the causal
      history of every block at least a wave later, in every other view. */
  lemma DirectCommitIsVisible(w: World, d1: DagState, d2: DagState, slot: Slot, l: BlockRef, anchor: BlockRef)
    returns (k: BlockRef)
    requires w.Valid() && w.HasView(d1) && w.HasView(d2)
    requires DirectlySupported(w, d1, slot, l)
    requires anchor in d2.blocks && anchor.round >= slot.round + WAVE_LENGTH && d2.gcRound < slot.round
    ensures k in d1.blocks && Reaches(w.blocks, anchor, k) && Certifies(w, k, l)
  {
    var round := slot.round + 2;
    HistoryHasQuorum(w, d2, anchor, round);
    var h := QuorumsShareHonest(w.committee, w.byzantine, HistoryAuthors(w, anchor, round), Certifiers(w, d1, l));
    var r :| r in w.blocks && r.round == round && Reaches(w.blocks, anchor, r) && r.author == h;
    k :| k in d1.blocks && k.round == round && Certifies(w, k, l) && k.author == h;
    HonestBlockIsUnique(w, r, k);
  }

  /** A certified block is in the history of its certificate. */
  lemma CertifiedIsInHistory(w: World, k: BlockRef, l: BlockRef)
    requires w.Valid() && Certifies(w, k, l)
    ensures Reaches(w.blocks, k, l)
  {
    var h := QuorumHasMember(w.committee, w.byzantine, Voters(w, k, l));
    var v :| v in w.blocks[k].ancestors && v in w.blocks && v.round == l.round + 1
             && l in w.blocks[v].ancestors && v.author == h;
    assert Reaches(w.blocks, l, l);
    assert Reaches(w.blocks, v, l);
  }

  // ----- consistency of the two rules

  lemma DirectStatusIs(w: World, d: DagState, slot: Slot, l: BlockRef)
    requires w.Valid() && w.HasView(d)
    requires DirectlySupported(w, d, slot, l)
    ensures DirectStatus(w, d, slot) == Commit(l)
  {
    var k := SupportedHasCertificate(w, d, slot, l);
    if w.committee.IsQuorum(Blamers(d, slot)) {
      BlamedIsNeverCertified(w, d, k, l);
    }
    forall m | DirectlySupported(w, d, slot, m)
      ensures m == l
    {
      SupportedIsUnique(w, d, d, slot, m, l);
    }
  }

  lemma AnchorStatusIs(w: World, anchor: BlockRef, l: BlockRef)
    requires w.Valid() && CertifiedBelow(w, anchor, l)
    ensures AnchorStatus(w, anchor, l.Slot()) == Commit(l)
  {
    var k :| Reaches(w.blocks, anchor, k) && Certifies(w, k, l);
    forall m: BlockRef | m.Slot() == l.Slot() && CertifiedBelow(w, anchor, m)
      ensures m == l
    {
      var k' :| Reaches(w.blocks, anchor, k') && Certifies(w, k', m);
      CertifiedIsUnique(w, k', m, k, l);
    }
  }

  /** Direct decisions of two views agree. */
  lemma DirectAgreesWithDirect(w: World, d1: DagState, d2: DagState, slot: Slot)
    requires w.Valid() && w.HasView(d1) && w.HasView(d2)
    requires DirectStatus(w, d1, slot).IsDecided() && DirectStatus(w, d2, slot).IsDecided()
    ensures DirectStatus(w, d1, slot) == DirectStatus(w, d2, slot)
  {
    if DirectStatus(w, d1, slot).Commit? && DirectStatus(w, d2, slot).Commit? {
      SupportedIsUnique(w, d1, d2, slot, DirectStatus(w, d1, slot).block, DirectStatus(w, d2, slot).block);
    } else if DirectStatus(w, d1, slot).Commit? {
      var k := SupportedHasCertificate(w, d1, slot, DirectStatus(w, d1, slot).block);
      BlamedIsNeverCertified(w, d2, k, DirectStatus(w, d1, slot).block);
    } else if DirectStatus(w, d2, slot).Commit? {
      var k := SupportedHasCertificate(w, d2, slot, DirectStatus(w, d2, slot).block);
      BlamedIsNeverCertified(w, d1, k, DirectStatus(w, d2, slot).block);
    }
  }

  /** A direct decision of one view is the decision that any later anchor of another view forces. */
  lemma DirectAgreesWithAnchor(w: World, d1: DagState, d2: DagState, slot: Slot, anchor: BlockRef)
    requires w.Valid() && w.HasView(d1) && w.HasView(d2)
    requires DirectStatus(w, d1, slot).IsDecided()
    requires anchor in d2.blocks && anchor.round >= slot.round + WAVE_LENGTH && d2.gcRound < slot.round
    ensures AnchorStatus(w, anchor, slot) == DirectStatus(w, d1, slot)
  {
    if DirectStatus(w, d1, slot).Commit? {
      var l := DirectStatus(w, d1, slot).block;
      var k := DirectCommitIsVisible(w, d1, d2, slot, l, anchor);
      AnchorStatusIs(w, anchor, l);
    } else {
      forall l: BlockRef | l.Slot() == slot
        ensures !CertifiedBelow(w, anchor, l)
      {
        if CertifiedBelow(w, anchor, l) {
          var k :| Reaches(w.blocks, anchor, k) && Certifies(w, k, l);
          BlamedIsNeverCertified(w, d1, k, l);
        }
      }
    }
  }
}
