/** Sequence operations behind the array pipelines of the blog's query layer:
    `Array.prototype.filter`, `Array.from(new Set(xs))` and `slice(0, end)`. */
module Collections {
  import opened Wrappers

  /** `sub` is obtained from `xs` by deleting elements, keeping the order of the rest */
  predicate IsSubsequence<T(==)>(sub: seq<T>, xs: seq<T>)
    decreases |xs|
  {
    if sub == [] then true
    else if xs == [] then false
    else if sub[0] == xs[0] then IsSubsequence(sub[1..], xs[1..])
    else IsSubsequence(sub, xs[1..])
  }

  /** `xs.filter(keep)`: the elements satisfying `keep`, in their original order
      and with their original multiplicities */
  function Filter<T(==,!new)>(xs: seq<T>, keep: T -> bool): (r: seq<T>)
    ensures IsSubsequence(r, xs)
    ensures forall i :: 0 <= i < |r| ==> keep(r[i]) && r[i] in xs
    ensures forall x {:trigger multiset(r)[x]} :: multiset(r)[x] == if keep(x) then multiset(xs)[x] else 0
  {
    if xs == [] then []
    else
      assert xs == [xs[0]] + xs[1..];
      if keep(xs[0]) then [xs[0]] + Filter(xs[1..], keep) else Filter(xs[1..], keep)
  }

  lemma FilterCons<T(!new)>(x: T, xs: seq<T>, keep: T -> bool)
    ensures Filter([x] + xs, keep) == if keep(x) then [x] + Filter(xs, keep) else Filter(xs, keep)
  {
    assert ([x] + xs)[1..] == xs;
  }

  lemma {:induction false} FilterKeepsAll<T(!new)>(xs: seq<T>, keep: T -> bool)
    requires forall i :: 0 <= i < |xs| ==> keep(xs[i])
    ensures Filter(xs, keep) == xs
  {
    if xs != [] {
      FilterKeepsAll(xs[1..], keep);
    }
  }

  /** Filtering by two conditions gives the same result in either order */
  lemma {:induction false} FilterCommutes<T(!new)>(xs: seq<T>, f: T -> bool, g: T -> bool)
    ensures Filter(Filter(xs, f), g) == Filter(Filter(xs, g), f)
  {
    if xs != [] {
      FilterCommutes(xs[1..], f, g);
      var x, rest := xs[0], xs[1..];
      FilterCons(x, Filter(rest, f), g);
      FilterCons(x, Filter(rest, g), f);
    }
  }

  lemma {:induction false} FilterAppend<T(!new)>(a: seq<T>, b: seq<T>, keep: T -> bool)
    ensures Filter(a + b, keep) == Filter(a, keep) + Filter(b, keep)
  {
    if a == [] {
      assert a + b == b;
    } else {
      assert (a + b)[0] == a[0];
      assert (a + b)[1..] == a[1..] + b;
      FilterAppend(a[1..], b, keep);
    }
  }

  predicate NoDuplicates<T(==)>(xs: seq<T>) {
    forall i, j :: 0 <= i < j < |xs| ==> xs[i] != xs[j]
  }

  /** `Array.from(new Set(xs))`: a `Set` remembers insertion order, so every value
      is kept once, at the place where it first occurs */
  function Distinct<T(==,!new)>(xs: seq<T>): (r: seq<T>)
    ensures NoDuplicates(r)
    ensures forall x :: x in r <==> x in xs
    decreases |xs|
  {
    if xs == [] then []
    else
      var front, last := xs[..|xs| - 1], xs[|xs| - 1];
      assert xs == front + [last];
      var seen := Distinct(front);
      if last in seen then seen else seen + [last]
  }

  /** One step of the `Set.add` loop */
  lemma DistinctSnoc<T(!new)>(xs: seq<T>, x: T)
    ensures Distinct(xs + [x]) == if x in Distinct(xs) then Distinct(xs) else Distinct(xs) + [x]
  {
    assert (xs + [x])[..|xs|] == xs;
  }

  /** Position of the first occurrence of `x` in `xs` */
  function IndexOf<T(==)>(xs: seq<T>, x: T): (i: nat)
    requires x in xs
    ensures i < |xs| && xs[i] == x && x !in xs[..i]
  {
    if xs[0] == x then 0 else 1 + IndexOf(xs[1..], x)
  }

  lemma {:induction false} IndexOfAppend<T>(a: seq<T>, b: seq<T>, x: T)
    requires x in a
    ensures IndexOf(a + b, x) == IndexOf(a, x)
  {
    if a[0] != x {
      assert (a + b)[1..] == a[1..] + b;
      IndexOfAppend(a[1..], b, x);
    }
  }

  lemma IndexOfLast<T>(a: seq<T>, x: T)
    requires x !in a
    ensures IndexOf(a + [x], x) == |a|
  {
    assert (a + [x])[..|a|] == a;
  }

  /** The values of `Distinct(xs)` come in the order of their first occurrence in `xs` */
  lemma {:induction false} DistinctInFirstOccurrenceOrder<T(!new)>(xs: seq<T>)
    ensures forall i, j :: 0 <= i < j < |Distinct(xs)| ==>
              IndexOf(xs, Distinct(xs)[i]) < IndexOf(xs, Distinct(xs)[j])
  {
    if xs != [] {
      var front, last := xs[..|xs| - 1], xs[|xs| - 1];
      assert xs == front + [last];
      DistinctInFirstOccurrenceOrder(front);
      var seen := Distinct(front);
      forall x | x in front
        ensures IndexOf(xs, x) == IndexOf(front, x)
      {
        IndexOfAppend(front, [last], x);
      }
      if last !in seen {
        IndexOfLast(front, last);
        var d := Distinct(xs);
        assert d == seen + [last];
        forall i, j | 0 <= i < j < |d|
          ensures IndexOf(xs, d[i]) < IndexOf(xs, d[j])
        {
          assert d[i] == seen[i] && d[i] in front;
          if j < |seen| {
            assert d[j] == seen[j];
          }
        }
      }
    }
  }

  /** `xs.slice(0, end)`, with `end` undefined or an integer (a negative end counts
      back from the end of the array) */
  function SliceTo<T>(xs: seq<T>, end: Option<int>): (r: seq<T>)
    ensures |r| <= |xs| && r == xs[..|r|]
    ensures end.None? ==> r == xs
    ensures end.Some? && 0 <= end.value ==> |r| == if end.value < |xs| then end.value else |xs|
    ensures end.Some? && end.value < 0 ==> |r| == if |xs| + end.value < 0 then 0 else |xs| + end.value
  {
    match end
    case None => xs
    case Some(n) =>
      if n < 0 then (if |xs| + n < 0 then [] else xs[..|xs| + n])
      else if n < |xs| then xs[..n]
      else xs
  }
}
