/**
 * The administrative listing: every stored inquiry, most recent first. The
 * sort is performed by the storage collaborator; it is modelled here as an
 * insertion sort on the submission time.
 */
module Listing {
  import opened Schema

  /** Submission times never increase from one entry to the next. */
  predicate NewestFirst(s: seq<Inquiry>) {
    forall i, j :: 0 <= i < j < |s| ==> s[i].submittedAt >= s[j].submittedAt
  }

  /** Places x in front of the first entry that is strictly older than it. */
  function Insert(x: Inquiry, s: seq<Inquiry>): (r: seq<Inquiry>)
    requires NewestFirst(s)
    ensures NewestFirst(r)
    ensures multiset(r) == multiset(s) + multiset{x}
    ensures |r| == |s| + 1
    ensures r[0] == x || (s != [] && r[0] == s[0])
  {
    if s == [] || x.submittedAt >= s[0].submittedAt then
      ConsNewestFirst(x, s);
      [x] + s
    else
      TailNewestFirst(s);
      var t := Insert(x, s[1..]);
      assert multiset(s) == multiset{s[0]} + multiset(s[1..]) by {
        assert s == [s[0]] + s[1..];
      }
      ConsNewestFirst(s[0], t);
      [s[0]] + t
  }

  lemma TailNewestFirst(s: seq<Inquiry>)
    requires NewestFirst(s) && s != []
    ensures NewestFirst(s[1..])
  {
    forall i, j | 0 <= i < j < |s| - 1
      ensures s[1..][i].submittedAt >= s[1..][j].submittedAt
    {
      assert s[1..][i] == s[i + 1] && s[1..][j] == s[j + 1];
    }
  }

  /** Prepending an entry no older than the current head keeps the order. */
  lemma ConsNewestFirst(y: Inquiry, t: seq<Inquiry>)
    requires NewestFirst(t)
    requires t != [] ==> y.submittedAt >= t[0].submittedAt
    ensures NewestFirst([y] + t)
  {
    forall i, j | 0 <= i < j < |[y] + t|
      ensures ([y] + t)[i].submittedAt >= ([y] + t)[j].submittedAt
    {
      if i == 0 {
        assert t[0].submittedAt >= t[j - 1].submittedAt;
      }
    }
  }

  /** The listing order: a permutation of the input with submission times non-increasing. */
  function SortNewestFirst(s: seq<Inquiry>): (r: seq<Inquiry>)
    ensures NewestFirst(r)
    ensures multiset(r) == multiset(s)
    ensures |r| == |s|
  {
    if s == [] then []
    else
      assert s == [s[0]] + s[1..];
      Insert(s[0], SortNewestFirst(s[1..]))
  }

  /** Submission times strictly decrease from one entry to the next. */
  predicate StrictlyNewestFirst(s: seq<Inquiry>) {
    forall i, j :: 0 <= i < j < |s| ==> s[i].submittedAt > s[j].submittedAt
  }

  /** Both orderings of the same entries begin with the newest one. */
  lemma SameHead(s: seq<Inquiry>, r: seq<Inquiry>)
    requires StrictlyNewestFirst(s) && NewestFirst(r) && multiset(r) == multiset(s)
    requires s != [] && r != []
    ensures r[0] == s[0]
  {
    assert r[0] in multiset(s) by { assert r[0] in multiset(r); }
    var k :| 0 <= k < |s| && s[k] == r[0];
    assert s[0] in multiset(r) by { assert s[0] in multiset(s); }
    var j :| 0 <= j < |r| && r[j] == s[0];
    if k != 0 {
      assert false;
    }
  }

  lemma TailStrictlyNewestFirst(s: seq<Inquiry>)
    requires StrictlyNewestFirst(s) && s != []
    ensures StrictlyNewestFirst(s[1..])
  {
    forall i, j | 0 <= i < j < |s| - 1
      ensures s[1..][i].submittedAt > s[1..][j].submittedAt
    {
      assert s[1..][i] == s[i + 1] && s[1..][j] == s[j + 1];
    }
  }

  /**
   * When no two records share a submission time, the order is fully
   * determined: the only newest-first permutation of a strictly newest-first
   * sequence is the sequence itself, whatever order ties would have taken.
   */
  lemma {:induction false} ListingDetermined(s: seq<Inquiry>, r: seq<Inquiry>)
    requires StrictlyNewestFirst(s) && NewestFirst(r) && multiset(r) == multiset(s)
    ensures r == s
  {
    assert |r| == |s| by {
      assert |multiset(r)| == |multiset(s)|;
    }
    if s != [] {
      SameHead(s, r);
      assert multiset(r[1..]) == multiset(s[1..]) by {
        assert r == [r[0]] + r[1..] && s == [s[0]] + s[1..];
        assert multiset(r) == multiset{r[0]} + multiset(r[1..]);
        assert multiset(s) == multiset{s[0]} + multiset(s[1..]);
        assert multiset(r[1..]) == multiset(r) - multiset{r[0]};
        assert multiset(s[1..]) == multiset(s) - multiset{s[0]};
      }
      TailNewestFirst(r);
      TailStrictlyNewestFirst(s);
      ListingDetermined(s[1..], r[1..]);
      assert r == [r[0]] + r[1..];
    }
  }
}
