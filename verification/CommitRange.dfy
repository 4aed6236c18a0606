/** Ranges of commit indices, inclusive at both ends but stored with an exclusive end. */
module CommitRanges {

  datatype CommitRange = CommitRange(start: nat, endExclusive: nat) {

    /** The range of no commits that a brand new schedule starts with. */
    static function Default(): CommitRange {
      CommitRange(0, 0)
    }

    static function Inclusive(start: nat, end: nat): CommitRange {
      CommitRange(start, end + 1)
    }

    function End(): nat {
      if endExclusive == 0 then 0 else endExclusive - 1
    }

    predicate Contains(i: nat) {
      start <= i < endExclusive
    }

    function Size(): nat
      requires start <= endExclusive
    {
      endExclusive - start
    }

    function ExtendTo(index: nat): CommitRange
      requires endExclusive <= index + 1
    {
      CommitRange(start, index + 1)
    }

    predicate IsNextRange(other: CommitRange) {
      endExclusive == other.start
    }

    predicate IsEqualSize(other: CommitRange)
      requires start <= endExclusive && other.start <= other.endExclusive
    {
      Size() == other.Size()
    }

    predicate Less(other: CommitRange) {
      start < other.start || (start == other.start && End() < other.End())
    }

    predicate IsNonEmpty() {
      0 < start < endExclusive
    }
  }

  /** Two ranges without a common index. */
  predicate AreApart(r: CommitRange, s: CommitRange) {
    r.endExclusive <= s.start || s.endExclusive <= r.start
  }

  lemma ApartMeansNoCommonIndex(r: CommitRange, s: CommitRange)
    requires r.IsNonEmpty() && s.IsNonEmpty()
    ensures AreApart(r, s) <==> forall i :: r.Contains(i) ==> !s.Contains(i)
  {
    if !AreApart(r, s) {
      var i := if r.start <= s.start then s.start else r.start;
      assert r.Contains(i) && s.Contains(i);
    }
  }

  lemma {:induction false} FirstRangeExists(s: set<CommitRange>) returns (first: CommitRange)
    requires s != {} && forall r :: r in s ==> r.IsNonEmpty()
    ensures first in s && forall x :: x in s && x != first ==> first.Less(x)
  {
    var x :| x in s;
    if s == {x} {
      first := x;
    } else {
      var rest := FirstRangeExists(s - {x});
      first := if rest.Less(x) then rest else x;
      forall y | y in s && y != first
        ensures first.Less(y)
      {
        assert y == x || y in s - {x};
      }
    }
  }

  /** The first range of an ordered set. */
  method FirstRange(s: set<CommitRange>) returns (first: CommitRange)
    requires s != {} && forall r :: r in s ==> r.IsNonEmpty()
    ensures first in s && forall x :: x in s && x != first ==> first.Less(x)
  {
    ghost var w := FirstRangeExists(s);
    first :| first in s && forall x :: x in s && x != first ==> first.Less(x);
  }
}
