/** Ordering authorities by score. */
module Ranking {
  import opened Committees

  predicate AreScored(scores: seq<nat>, list: seq<Authority>) {
    forall i :: 0 <= i < |list| ==> list[i] < |scores|
  }

  /** Puts an authority behind all with at least its score. */
  function Insert(scores: seq<nat>, ranked: seq<Authority>, a: Authority): (ranked': seq<Authority>)
    requires a < |scores| && AreScored(scores, ranked)
    ensures AreScored(scores, ranked')
  {
    if ranked == [] || scores[ranked[0]] < scores[a] then [a] + ranked
    else [ranked[0]] + Insert(scores, ranked[1..], a)
  }

  /** A stable sort by descending score. */
  function Ranked(scores: seq<nat>, list: seq<Authority>): (ranked: seq<Authority>)
    requires AreScored(scores, list)
    ensures AreScored(scores, ranked)
  {
    if list == [] then []
    else Insert(scores, Ranked(scores, list[..|list| - 1]), list[|list| - 1])
  }

  lemma {:induction false} InsertKeepsElements(scores: seq<nat>, ranked: seq<Authority>, a: Authority)
    requires a < |scores| && AreScored(scores, ranked)
    ensures multiset(Insert(scores, ranked, a)) == multiset(ranked) + multiset{a}
    ensures forall x :: x in Insert(scores, ranked, a) <==> x in ranked || x == a
  {
    if ranked != [] && scores[ranked[0]] >= scores[a] {
      InsertKeepsElements(scores, ranked[1..], a);
      assert ranked == [ranked[0]] + ranked[1..];
    }
  }

  ghost predicate Descends(scores: seq<nat>, ranked: seq<Authority>)
    requires AreScored(scores, ranked)
  {
    forall i, j :: 0 <= i < j < |ranked| ==> scores[ranked[i]] >= scores[ranked[j]]
  }

  lemma {:induction false} InsertKeepsOrder(scores: seq<nat>, ranked: seq<Authority>, a: Authority)
    requires a < |scores| && AreScored(scores, ranked) && Descends(scores, ranked)
    ensures Descends(scores, Insert(scores, ranked, a))
  {
    if ranked != [] && scores[ranked[0]] >= scores[a] {
      InsertKeepsElements(scores, ranked[1..], a);
      InsertKeepsOrder(scores, ranked[1..], a);
      var rest := Insert(scores, ranked[1..], a);
      forall j | 0 <= j < |rest|
        ensures scores[ranked[0]] >= scores[rest[j]]
      {
        assert rest[j] in rest;
      }
    }
  }

  /** The ranking holds the same authorities, best scores first. */
  lemma {:induction false} RankedIsSorted(scores: seq<nat>, list: seq<Authority>)
    requires AreScored(scores, list)
    ensures multiset(Ranked(scores, list)) == multiset(list)
    ensures Descends(scores, Ranked(scores, list))
  {
    if list == [] {
    } else {
      var n := |list| - 1;
      RankedIsSorted(scores, list[..n]);
      InsertKeepsElements(scores, Ranked(scores, list[..n]), list[n]);
      InsertKeepsOrder(scores, Ranked(scores, list[..n]), list[n]);
      assert list == list[..n] + [list[n]];
    }
  }

  lemma {:induction false} SameElementsAreEveryone(c: Committee, list: seq<Authority>, ranked: seq<Authority>)
    requires IsEveryone(c, list) && multiset(ranked) == multiset(list)
    ensures IsEveryone(c, ranked)
  {
    forall a
      ensures a in ranked <==> a in list
    {
      assert a in ranked <==> a in multiset(ranked);
      assert a in list <==> a in multiset(list);
    }
    forall i, j | 0 <= i < j < |ranked|
      ensures ranked[i] != ranked[j]
    {
      if ranked[i] == ranked[j] {
        TwiceInList(ranked, i, j);
        DistinctOccursOnce(list, ranked[i]);
        assert false;
      }
    }
  }

  lemma TwiceInList(list: seq<Authority>, i: nat, j: nat)
    requires i < j < |list| && list[i] == list[j]
    ensures multiset(list)[list[i]] >= 2
  {
    assert list == list[..j] + [list[j]] + list[j + 1..];
    assert list[i] in list[..j];
  }

  lemma DistinctOccursOnce(list: seq<Authority>, a: Authority)
    requires AreDistinct(list)
    ensures multiset(list)[a] <= 1
  {
    if a in list {
      var k :| 0 <= k < |list| && list[k] == a;
      assert list == list[..k] + [list[k]] + list[k + 1..];
      assert a !in list[..k] && a !in list[k + 1..];
    }
  }

  lemma RankedIsEveryone(c: Committee, scores: seq<nat>, list: seq<Authority>)
    requires IsEveryone(c, list) && |scores| == c.Size()
    ensures AreScored(scores, list)
    ensures IsEveryone(c, Ranked(scores, list)) && AreMembers(c, Ranked(scores, list))
    ensures Descends(scores, Ranked(scores, list))
  {
    ListedIsScored(c, scores, list);
    RankedIsSorted(scores, list);
    SameElementsAreEveryone(c, list, Ranked(scores, list));
  }

  lemma ListedIsScored(c: Committee, scores: seq<nat>, list: seq<Authority>)
    requires IsEveryone(c, list) && |scores| == c.Size()
    ensures AreScored(scores, list)
  {
    forall i | 0 <= i < |list|
      ensures list[i] < |scores|
    {
      assert list[i] in list;
    }
  }
}
