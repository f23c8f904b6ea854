/** Ordering of the reported enclosures by number, and the facts that make the
    sorted list unique: a permutation keeps numbers distinct, and two strictly
    ascending lists with the same elements are the same list. */
module ReportOrder {
  import opened ZooData

  ghost predicate SortedByNumber(s: seq<Report>) {
    forall p, q :: 0 <= p < q < |s| ==> s[p].number <= s[q].number
  }

  ghost predicate StrictlyAscending(s: seq<Report>) {
    forall p, q :: 0 <= p < q < |s| ==> s[p].number < s[q].number
  }

  /** Removing the element at position `p` keeps the other numbers distinct,
      and none of them equals the removed one's. */
  lemma DistinctWithout(c: seq<Report>, p: int, d: seq<Report>)
    requires DistinctNumbers(c) && 0 <= p < |c| && d == c[..p] + c[p + 1..]
    ensures DistinctNumbers(d)
    ensures forall m :: 0 <= m < |d| ==> d[m].number != c[p].number
  {
    assert forall m :: 0 <= m < |d| ==> d[m] == if m < p then c[m] else c[m + 1];
  }

  /** When the rest of `s` is a reordering of `d`, whose numbers all differ
      from that of the head `x`, no later report repeats the head's number. */
  lemma HeadNumberUnique(s: seq<Report>, d: seq<Report>, x: Report)
    requires s != [] && s[0] == x && multiset(s[1..]) == multiset(d)
    requires forall m :: 0 <= m < |d| ==> d[m].number != x.number
    ensures forall q :: 0 < q < |s| ==> s[0].number != s[q].number
  {
    forall q | 0 < q < |s|
      ensures s[0].number != s[q].number
    {
      assert s[q] == s[1..][q - 1];
      assert s[q] in multiset(d);
    }
  }

  /** A reordering of a list with distinct numbers has distinct numbers. */
  lemma {:induction false} DistinctNumbersPermutation(s: seq<Report>, c: seq<Report>)
    requires multiset(s) == multiset(c) && DistinctNumbers(c)
    ensures DistinctNumbers(s)
  {
    if s != [] {
      var x := s[0];
      assert x in multiset(c);
      var p :| 0 <= p < |c| && c[p] == x;
      var d := c[..p] + c[p + 1..];
      assert c == c[..p] + [x] + c[p + 1..];
      assert multiset(d) == multiset(c) - multiset{x};
      assert s == [x] + s[1..];
      assert multiset(s[1..]) == multiset(d);
      DistinctWithout(c, p, d);
      DistinctNumbersPermutation(s[1..], d);
      HeadNumberUnique(s, d, x);
      forall p1, q1 | 0 < p1 < q1 < |s|
        ensures s[p1].number != s[q1].number
      {
        assert s[p1] == s[1..][p1 - 1] && s[q1] == s[1..][q1 - 1];
      }
    }
  }

  /** The head of a strictly ascending list is its unique smallest element,
      so two such lists with the same elements start alike. */
  lemma SameHead(s: seq<Report>, t: seq<Report>)
    requires StrictlyAscending(s) && StrictlyAscending(t)
    requires multiset(s) == multiset(t) && s != [] && t != []
    ensures s[0] == t[0]
  {
    assert s[0] in multiset(t) && t[0] in multiset(s);
    var j :| 0 <= j < |t| && t[j] == s[0];
    var i :| 0 <= i < |s| && s[i] == t[0];
    assert t[0].number <= t[j].number && s[0].number <= s[i].number;
    assert j == 0;
  }

  /** Two strictly ascending lists with the same elements are equal: the sorted
      result is determined by the set of reports alone. */
  lemma {:induction false} StrictlyAscendingUnique(s: seq<Report>, t: seq<Report>)
    requires StrictlyAscending(s) && StrictlyAscending(t)
    requires multiset(s) == multiset(t)
    ensures s == t
  {
    if s == [] || t == [] {
      assert |multiset(s)| == |s| && |multiset(t)| == |t|;
    } else {
      SameHead(s, t);
      assert s == [s[0]] + s[1..] && t == [t[0]] + t[1..];
      assert multiset(s[1..]) == multiset(s) - multiset{s[0]};
      assert multiset(t[1..]) == multiset(t) - multiset{t[0]};
      StrictlyAscendingUnique(s[1..], t[1..]);
    }
  }
}
