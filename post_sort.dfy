/** The order `posts.sort((a, b) => b.data.pubDate - a.data.pubDate)` produces:
    newest first, and, since the array sort is stable, posts with the same date
    keep their relative order. */
module PostSort {
  import opened Collections
  import opened Content

  /** Newest first: dates never increase along the sequence */
  predicate SortedByDateDesc(ps: seq<Post>) {
    forall i, j :: 0 <= i < j < |ps| ==> ps[i].pubDate >= ps[j].pubDate
  }

  function HasDate(d: int): Post -> bool {
    (p: Post) => p.pubDate == d
  }

  /** Puts `p` in front of the first post that is not newer than it */
  function InsertByDate(p: Post, sorted: seq<Post>): (r: seq<Post>)
    ensures multiset(r) == multiset(sorted) + multiset{p}
    ensures |r| == |sorted| + 1
  {
    if sorted == [] then [p]
    else if p.pubDate >= sorted[0].pubDate then [p] + sorted
    else
      assert sorted == [sorted[0]] + sorted[1..];
      [sorted[0]] + InsertByDate(p, sorted[1..])
  }

  lemma {:induction false} InsertKeepsSorted(p: Post, s: seq<Post>)
    requires SortedByDateDesc(s)
    ensures SortedByDateDesc(InsertByDate(p, s))
  {
    if s != [] && p.pubDate < s[0].pubDate {
      InsertKeepsSorted(p, s[1..]);
      var rest := InsertByDate(p, s[1..]);
      assert s == [s[0]] + s[1..];
      forall j | 0 <= j < |rest| ensures s[0].pubDate >= rest[j].pubDate {
        assert rest[j] in multiset(rest);
        assert rest[j] == p || rest[j] in multiset(s[1..]);
      }
    }
  }

  /** Insertion sort from the back: stable because each post goes in front of the
      later posts of its own date */
  function SortByDate(ps: seq<Post>): (r: seq<Post>)
    ensures SortedByDateDesc(r)
    ensures multiset(r) == multiset(ps)
    ensures |r| == |ps|
  {
    if ps == [] then []
    else
      assert ps == [ps[0]] + ps[1..];
      InsertKeepsSorted(ps[0], SortByDate(ps[1..]));
      InsertByDate(ps[0], SortByDate(ps[1..]))
  }

  /** Inserting a post adds it at the front of its own date group and leaves the
      other groups untouched */
  lemma {:induction false} InsertKeepsDateGroups(p: Post, s: seq<Post>, d: int)
    decreases |s|, 1
    ensures Filter(InsertByDate(p, s), HasDate(d)) ==
            if p.pubDate == d then [p] + Filter(s, HasDate(d)) else Filter(s, HasDate(d))
  {
    if s == [] {
      FilterCons(p, [], HasDate(d));
    } else if p.pubDate >= s[0].pubDate {
      FilterCons(p, s, HasDate(d));
    } else {
      InsertBehindNewer(p, s, d);
    }
  }

  lemma {:induction false} InsertBehindNewer(p: Post, s: seq<Post>, d: int)
    requires s != [] && p.pubDate < s[0].pubDate
    ensures Filter(InsertByDate(p, s), HasDate(d)) ==
            if p.pubDate == d then [p] + Filter(s, HasDate(d)) else Filter(s, HasDate(d))
    decreases |s|, 0
  {
    var rest := InsertByDate(p, s[1..]);
    var keep := HasDate(d);
    assert InsertByDate(p, s) == [s[0]] + rest;
    InsertKeepsDateGroups(p, s[1..], d);
    FilterCons(s[0], rest, keep);
    assert s == [s[0]] + s[1..];
    FilterCons(s[0], s[1..], keep);
    if keep(s[0]) {
      assert Filter(InsertByDate(p, s), keep) == [s[0]] + Filter(rest, keep);
      assert Filter(s, keep) == [s[0]] + Filter(s[1..], keep);
    } else {
      assert Filter(InsertByDate(p, s), keep) == Filter(rest, keep);
      assert Filter(s, keep) == Filter(s[1..], keep);
    }
  }

  /** Stability: within each date the sorted sequence keeps the input's order */
  lemma {:induction false} SortIsStable(ps: seq<Post>, d: int)
    ensures Filter(SortByDate(ps), HasDate(d)) == Filter(ps, HasDate(d))
  {
    if ps != [] {
      SortIsStable(ps[1..], d);
      InsertKeepsDateGroups(ps[0], SortByDate(ps[1..]), d);
      assert ps == [ps[0]] + ps[1..];
      FilterCons(ps[0], ps[1..], HasDate(d));
    }
  }

  lemma NoneOfDateAfterNewer(s: seq<Post>, d: int)
    requires SortedByDateDesc(s)
    requires s != [] && s[0].pubDate < d
    ensures Filter(s, HasDate(d)) == []
  {
    assert forall i :: 0 <= i < |s| ==> !HasDate(d)(s[i]);
  }

  /** A sequence's own first date group starts with its first post */
  lemma GroupOfFirst(s: seq<Post>)
    requires s != []
    ensures Filter(s, HasDate(s[0].pubDate)) == [s[0]] + Filter(s[1..], HasDate(s[0].pubDate))
  {
    assert s == [s[0]] + s[1..];
    FilterCons(s[0], s[1..], HasDate(s[0].pubDate));
  }

  /** Two newest-first sequences with the same date groups are equal, so the sort
      result is the only stable newest-first arrangement of its input */
  lemma {:induction false} DateGroupsDetermineSorted(a: seq<Post>, b: seq<Post>)
    requires SortedByDateDesc(a) && SortedByDateDesc(b)
    requires forall d :: Filter(a, HasDate(d)) == Filter(b, HasDate(d))
    ensures a == b
  {
    if a != [] && b == [] {
      GroupOfFirst(a);
      assert false;
    } else if a == [] && b != [] {
      GroupOfFirst(b);
      assert false;
    } else if a != [] && b != [] {
      var d := a[0].pubDate;
      GroupOfFirst(a);
      GroupOfFirst(b);
      if b[0].pubDate < d {
        NoneOfDateAfterNewer(b, d);
        assert false;
      } else if d < b[0].pubDate {
        NoneOfDateAfterNewer(a, b[0].pubDate);
        assert false;
      }
      assert Filter(a, HasDate(d)) == Filter(b, HasDate(d));
      assert a[0] == b[0];
      forall e
        ensures Filter(a[1..], HasDate(e)) == Filter(b[1..], HasDate(e))
      {
        assert a == [a[0]] + a[1..];
        assert b == [b[0]] + b[1..];
        FilterCons(a[0], a[1..], HasDate(e));
        FilterCons(b[0], b[1..], HasDate(e));
        assert Filter(a, HasDate(e)) == Filter(b, HasDate(e));
      }
      DateGroupsDetermineSorted(a[1..], b[1..]);
      assert a == [a[0]] + a[1..];
      assert b == [b[0]] + b[1..];
    }
  }

  /** Whatever stable newest-first arrangement of `ps` one takes, it is `SortByDate(ps)` */
  lemma SortIsTheStableSort(ps: seq<Post>, t: seq<Post>)
    requires SortedByDateDesc(t)
    requires forall d :: Filter(t, HasDate(d)) == Filter(ps, HasDate(d))
    ensures t == SortByDate(ps)
  {
    forall d ensures Filter(t, HasDate(d)) == Filter(SortByDate(ps), HasDate(d)) {
      SortIsStable(ps, d);
    }
    DateGroupsDetermineSorted(t, SortByDate(ps));
  }
}
