/** The pass over all leader rounds, from the latest down, and agreement of its outcomes. */
module UniversalCommitter {
  import opened Committees
  import opened Blocks
  import opened Dags
  import opened CommitRule
  import opened BaseCommitter

  /** The elected leader of each round. */
  type Schedule = Round -> Authority

  /** Direct rule first, then the indirect rule. */
  ghost function Decide(w: World, d: DagState, slot: Slot, later: seq<LeaderStatus>): LeaderStatus {
    var direct := DirectStatus(w, d, slot);
    if direct.IsDecided() then direct else IndirectStatus(w, slot, later)
  }

  /** Statuses of the leader slots of the rounds low..high in a view. */
  ghost function Statuses(w: World, d: DagState, leaders: Schedule, low: Round, high: Round): seq<LeaderStatus>
    decreases high + 1 - low
  {
    if low > high then []
    else
      var later := Statuses(w, d, leaders, low + 1, high);
      [Decide(w, d, SlotAt(low, leaders(low)), later)] + later
  }

  /** The status of one round. */
  ghost function StatusAt(w: World, d: DagState, leaders: Schedule, round: Round, high: Round): LeaderStatus {
    if round > high then Undecided(SlotAt(round, leaders(round)))
    else Statuses(w, d, leaders, round, high)[0]
  }

  lemma {:induction false} StatusesAreByRound(w: World, d: DagState, leaders: Schedule, low: Round, high: Round, i: nat)
    requires low + i <= high
    ensures |Statuses(w, d, leaders, low, high)| == high + 1 - low
    ensures Statuses(w, d, leaders, low, high)[i] == StatusAt(w, d, leaders, low + i, high)
    ensures Statuses(w, d, leaders, low, high)[i..] == Statuses(w, d, leaders, low + i, high)
    decreases high + 1 - low
  {
    var all := Statuses(w, d, leaders, low, high);
    if i == 0 {
      if low < high {
        StatusesAreByRound(w, d, leaders, low + 1, high, 0);
      }
    } else {
      StatusesAreByRound(w, d, leaders, low + 1, high, i - 1);
      assert all[i..] == Statuses(w, d, leaders, low + 1, high)[i - 1..];
    }
  }

  /** The direct rule comes first. */
  lemma DirectDecides(w: World, d: DagState, leaders: Schedule, round: Round, high: Round)
    requires round <= high && DirectStatus(w, d, SlotAt(round, leaders(round))).IsDecided()
    ensures StatusAt(w, d, leaders, round, high) == DirectStatus(w, d, SlotAt(round, leaders(round)))
  {
    hide DirectStatus, AnchorStatus;
  }

  /** A decided slot is decided on itself: a commit is a block of the slot that the view holds. */
  ghost predicate StatusFits(d: DagState, slot: Slot, status: LeaderStatus) {
    match status
    case Commit(b) => b.Slot() == slot && b in d.blocks
    case Skip(s) => s == slot
    case Undecided(s) => s == slot
  }

  lemma AnchorStatusFits(w: World, d: DagState, anchor: BlockRef, slot: Slot)
    requires ViewOf(w, d, slot.round) && anchor in d.blocks
    ensures StatusFits(d, slot, AnchorStatus(w, anchor, slot))
  {
    if AnchorStatus(w, anchor, slot).Commit? {
      var l := AnchorStatus(w, anchor, slot).block;
      assert CertifiedBelow(w, anchor, l);
      var k :| Reaches(w.blocks, anchor, k) && Certifies(w, k, l);
      CertifiedBelowIsInView(w, d, anchor, k, l);
    }
  }

  lemma {:induction false} IndirectStatusFits(w: World, d: DagState, slot: Slot, later: seq<LeaderStatus>)
    requires ViewOf(w, d, slot.round)
    requires forall s :: s in later && s.Commit? ==> s.block in d.blocks
    ensures StatusFits(d, slot, IndirectStatus(w, slot, later))
  {
    hide World.Valid, World.HasView, AnchorStatus;
    if later == [] {
    } else {
      assert forall s :: s in later[1..] ==> s in later;
      IndirectStatusFits(w, d, slot, later[1..]);
      if later[0].Commit? {
        AnchorStatusFits(w, d, later[0].block, slot);
      }
    }
  }

  lemma {:induction false} StatusesFit(w: World, d: DagState, leaders: Schedule, low: Round, high: Round)
    requires ViewOf(w, d, low)
    ensures forall s :: s in Statuses(w, d, leaders, low, high) && s.Commit? ==> s.block in d.blocks
    ensures low <= high ==> StatusFits(d, SlotAt(low, leaders(low)), StatusAt(w, d, leaders, low, high))
    decreases high + 1 - low
  {
    hide World.Valid, World.HasView, AnchorStatus;
    if low <= high {
      var later := Statuses(w, d, leaders, low + 1, high);
      StatusesFit(w, d, leaders, low + 1, high);
      IndirectStatusFits(w, d, SlotAt(low, leaders(low)), later);
    }
  }

  // ----- agreement

  /** An indirect decision comes from an anchor with only skipped leaders in between. */
  lemma {:induction false} IndirectDecisionHasAnchor(w: World, slot: Slot, later: seq<LeaderStatus>) returns (j: nat)
    requires IndirectStatus(w, slot, later).IsDecided()
    ensures j < |later| && later[j].Commit? && later[j].Round() >= slot.round + WAVE_LENGTH
    ensures IndirectStatus(w, slot, later) == AnchorStatus(w, later[j].block, slot)
    ensures forall i :: 0 <= i < j && later[i].Round() >= slot.round + WAVE_LENGTH ==> later[i].Skip?
  {
    if later[0].Round() >= slot.round + WAVE_LENGTH && later[0].Commit? {
      j := 0;
    } else {
      var j' := IndirectDecisionHasAnchor(w, slot, later[1..]);
      j := j' + 1;
      forall i | 0 <= i < j && later[i].Round() >= slot.round + WAVE_LENGTH
        ensures later[i].Skip?
      {
        if i > 0 {
          assert later[i] == later[1..][i - 1];
        }
      }
    }
  }

  /** The anchor round behind an indirect decision, told in terms of rounds. */
  lemma AnchorRound(w: World, d: DagState, leaders: Schedule, round: Round, high: Round) returns (anchorRound: Round)
    requires ViewOf(w, d, round) && round <= high
    requires !DirectStatus(w, d, SlotAt(round, leaders(round))).IsDecided()
    requires StatusAt(w, d, leaders, round, high).IsDecided()
    ensures round + WAVE_LENGTH <= anchorRound <= high
    ensures StatusAt(w, d, leaders, anchorRound, high).Commit?
    ensures StatusAt(w, d, leaders, anchorRound, high).block in d.blocks
    ensures StatusAt(w, d, leaders, anchorRound, high).block.round == anchorRound
    ensures StatusAt(w, d, leaders, round, high)
         == AnchorStatus(w, StatusAt(w, d, leaders, anchorRound, high).block, SlotAt(round, leaders(round)))
    ensures forall r: Round :: round + WAVE_LENGTH <= r < anchorRound ==> StatusAt(w, d, leaders, r, high).Skip?
  {
    hide World.Valid, World.HasView, AnchorStatus, DirectStatus, Statuses, StatusAt;
    var slot := SlotAt(round, leaders(round));
    var later := Statuses(w, d, leaders, round + 1, high);
    UndecidedFallsBack(w, d, leaders, round, high);
    var j := IndirectDecisionHasAnchor(w, slot, later);
    LaterStatus(w, d, leaders, round, high, j);
    anchorRound := round + 1 + j;
    forall r: Round | round + WAVE_LENGTH <= r < anchorRound
      ensures StatusAt(w, d, leaders, r, high).Skip?
    {
      LaterStatus(w, d, leaders, round, high, r - round - 1);
    }
  }

  lemma UndecidedFallsBack(w: World, d: DagState, leaders: Schedule, round: Round, high: Round)
    requires round <= high
    requires !DirectStatus(w, d, SlotAt(round, leaders(round))).IsDecided()
    ensures StatusAt(w, d, leaders, round, high)
         == IndirectStatus(w, SlotAt(round, leaders(round)), Statuses(w, d, leaders, round + 1, high))
    ensures |Statuses(w, d, leaders, round + 1, high)| == high - round
  {
    hide World.Valid, World.HasView, AnchorStatus, DirectStatus;
    if round < high {
      StatusesAreByRound(w, d, leaders, round + 1, high, 0);
    }
  }

  lemma LaterStatus(w: World, d: DagState, leaders: Schedule, round: Round, high: Round, i: nat)
    requires ViewOf(w, d, round) && round + 1 + i <= high
    ensures |Statuses(w, d, leaders, round + 1, high)| == high - round
    ensures Statuses(w, d, leaders, round + 1, high)[i] == StatusAt(w, d, leaders, round + 1 + i, high)
    ensures StatusAt(w, d, leaders, round + 1 + i, high).Round() == round + 1 + i
    ensures StatusAt(w, d, leaders, round + 1 + i, high).Commit? ==>
              StatusAt(w, d, leaders, round + 1 + i, high).block in d.blocks
  {
    hide World.Valid, World.HasView, AnchorStatus, DirectStatus, Statuses, StatusAt;
    StatusesAreByRound(w, d, leaders, round + 1, high, i);
    StatusesFit(w, d, leaders, round + 1 + i, high);
  }

  /** If two validators both decide a slot, each on its own view, they decide it identically. */
  lemma {:induction false} Agreement(w: World, d1: DagState, d2: DagState, leaders: Schedule,
                                     round: Round, high1: Round, high2: Round)
    requires ViewOf(w, d1, round) && ViewOf(w, d2, round)
    requires StatusAt(w, d1, leaders, round, high1).IsDecided()
    requires StatusAt(w, d2, leaders, round, high2).IsDecided()
    ensures StatusAt(w, d1, leaders, round, high1) == StatusAt(w, d2, leaders, round, high2)
    decreases high1 + high2 + 2 - 2 * round
  {
    hide World.Valid, World.HasView, AnchorStatus, DirectStatus;
    var slot := SlotAt(round, leaders(round));
    var direct1, direct2 := DirectStatus(w, d1, slot).IsDecided(), DirectStatus(w, d2, slot).IsDecided();
    if direct1 && direct2 {
      DirectAgreesWithDirect(w, d1, d2, slot);
    } else if direct1 {
      var r2 := AnchorRound(w, d2, leaders, round, high2);
      DirectAgreesWithAnchor(w, d1, d2, slot, StatusAt(w, d2, leaders, r2, high2).block);
    } else if direct2 {
      var r1 := AnchorRound(w, d1, leaders, round, high1);
      DirectAgreesWithAnchor(w, d2, d1, slot, StatusAt(w, d1, leaders, r1, high1).block);
    } else {
      var r1 := AnchorRound(w, d1, leaders, round, high1);
      var r2 := AnchorRound(w, d2, leaders, round, high2);
      var first := if r1 <= r2 then r1 else r2;
      assert StatusAt(w, d1, leaders, first, high1).IsDecided();
      assert StatusAt(w, d2, leaders, first, high2).IsDecided();
      Agreement(w, d1, d2, leaders, first, high1, high2);
      assert r1 == r2;
    }
  }

  // ----- the pass as it is run

  /** The longest prefix of decided statuses. */
  function DecidedPrefix(statuses: seq<LeaderStatus>): (prefix: seq<LeaderStatus>)
    ensures prefix <= statuses
    ensures forall s :: s in prefix ==> s.IsDecided()
    ensures |prefix| < |statuses| ==> !statuses[|prefix|].IsDecided()
  {
    if statuses == [] || !statuses[0].IsDecided() then []
    else [statuses[0]] + DecidedPrefix(statuses[1..])
  }

  /** Decides as many leaders after `lastDecided` as the view allows, in order, with one leader
      per round. */
  method TryDecide(ghost w: World, d: DagState, c: Committee, leaders: Schedule, lastDecided: Round)
    returns (decided: seq<LeaderStatus>)
    requires ViewOf(w, d, lastDecided + 1) && c == w.committee
    ensures decided == DecidedPrefix(Statuses(w, d, leaders, lastDecided + 1, LastDecidable(d)))
  {
    hide World.Valid, World.HasView, DirectStatus, AnchorStatus, DecidedPrefix;
    var low, high := lastDecided + 1, LastDecidable(d);
    var statuses: seq<LeaderStatus> := [];
    var round := high;
    if low <= high {
      while round >= low
        invariant low - 1 <= round <= high
        invariant statuses == Statuses(w, d, leaders, round + 1, high)
        decreases round
      {
        var slot := SlotAt(round, leaders(round));
        var status := TryDirectDecide(w, d, c, slot);
        if !status.IsDecided() {
          StatusesFit(w, d, leaders, round + 1, high);
          status := TryIndirectDecide(w, d, c, slot, statuses);
        }
        statuses := [status] + statuses;
        round := round - 1;
      }
    }
    decided := TakeDecided(statuses);
  }

  function LastDecidable(d: DagState): Round {
    if d.highestAcceptedRound >= 2 then d.highestAcceptedRound - 2 else 0
  }

  method TakeDecided(statuses: seq<LeaderStatus>) returns (decided: seq<LeaderStatus>)
    ensures decided == DecidedPrefix(statuses)
  {
    decided := [];
    assert statuses[0..] == statuses;
    for i := 0 to |statuses|
      invariant DecidedPrefix(statuses) == decided + DecidedPrefix(statuses[i..])
    {
      if !statuses[i].IsDecided() {
        return;
      }
      assert statuses[i..][1..] == statuses[i + 1..];
      decided := decided + [statuses[i]];
    }
  }
}
