/** Sequences of integers: ascending order, sorting, sums, counts, extremes.

    `Sort` stands for the natural-order `sorted()` the median applies to the
    prices, and `Sum` for the summation inside `average()`. `Count`, `MinOf`
    and `MaxOf` have no counterpart in the stream pipelines: they are the
    vocabulary in which the bounds and splits of the mean and the median are
    stated.
 */
module IntSeqs {

  import opened SeqLemmas

  predicate Sorted(s: seq<int>) {
    forall i, j :: 0 <= i < j < |s| ==> s[i] <= s[j]
  }

  /** Inserts `x` into an ascending sequence before the first element not below it. */
  function Insert(x: int, s: seq<int>): (r: seq<int>)
    requires Sorted(s)
    ensures Sorted(r)
    ensures multiset(r) == multiset(s) + multiset{x}
  {
    if s == [] || x <= s[0] then
      [x] + s
    else
      var tail := Insert(x, s[1..]);
      HeadBelowRest(s, x, tail);
      SortedCons(s[0], tail);
      assert s == [s[0]] + s[1..];
      [s[0]] + tail
  }

  /** The head of an ascending `s` is no greater than anything made of `x > s[0]` and the rest of `s`. */
  lemma HeadBelowRest(s: seq<int>, x: int, tail: seq<int>)
    requires Sorted(s) && s != [] && s[0] < x
    requires multiset(tail) == multiset(s[1..]) + multiset{x}
    ensures forall y :: y in tail ==> s[0] <= y
  {
    forall y | y in tail ensures s[0] <= y {
      assert y in multiset(tail);
      if y != x {
        assert y in multiset(s[1..]);
        var k :| 0 <= k < |s[1..]| && s[1..][k] == y;
        assert s[k + 1] == y;
      }
    }
  }

  lemma SortedCons(x: int, s: seq<int>)
    requires Sorted(s)
    requires forall y :: y in s ==> x <= y
    ensures Sorted([x] + s)
  {
    forall i, j | 0 <= i < j < |s| + 1 ensures ([x] + s)[i] <= ([x] + s)[j] {
      assert s[j - 1] in s;
    }
  }

  /** Ascending rearrangement: the natural-order `sorted()` of a list of prices. */
  function Sort(s: seq<int>): (r: seq<int>)
    ensures Sorted(r)
    ensures multiset(r) == multiset(s)
  {
    if s == [] then []
    else
      assert s == [s[0]] + s[1..];
      Insert(s[0], Sort(s[1..]))
  }

  /** An ascending sequence starts with its smallest element. */
  lemma SortedHeadIsLeast(a: seq<int>, x: int)
    requires Sorted(a) && x in multiset(a)
    ensures a[0] <= x
  {
    var k :| 0 <= k < |a| && a[k] == x;
  }

  /** Two rearrangements of each other with the same head: their tails are ascending rearrangements too. */
  lemma TailsAgree(a: seq<int>, b: seq<int>)
    requires Sorted(a) && Sorted(b) && a != [] && b != [] && a[0] == b[0]
    requires multiset(a) == multiset(b)
    ensures Sorted(a[1..]) && Sorted(b[1..])
    ensures multiset(a[1..]) == multiset(b[1..])
  {
    assert a == [a[0]] + a[1..] && b == [b[0]] + b[1..];
    assert multiset(a[1..]) == multiset(a) - multiset{a[0]};
    assert multiset(b[1..]) == multiset(b) - multiset{b[0]};
  }

  /** An ascending sequence is determined by its elements: any two sorts agree. */
  lemma {:induction false} SortedUnique(a: seq<int>, b: seq<int>)
    requires Sorted(a) && Sorted(b)
    requires multiset(a) == multiset(b)
    ensures a == b
  {
    if a == [] {
      assert |b| == |multiset(b)| == 0;
    } else {
      assert |b| == |multiset(b)| == |a| > 0;
      SortedHeadIsLeast(a, b[0]);
      SortedHeadIsLeast(b, a[0]);
      TailsAgree(a, b);
      SortedUnique(a[1..], b[1..]);
      assert a == [a[0]] + a[1..] && b == [b[0]] + b[1..];
    }
  }

  /** Sorting depends only on the elements, not on their order. */
  lemma SortPermutation(a: seq<int>, b: seq<int>)
    requires multiset(a) == multiset(b)
    ensures Sort(a) == Sort(b)
  {
    SortedUnique(Sort(a), Sort(b));
  }

  function Sum(s: seq<int>): int {
    if s == [] then 0 else s[0] + Sum(s[1..])
  }

  lemma {:induction false} SumConcat(a: seq<int>, b: seq<int>)
    ensures Sum(a + b) == Sum(a) + Sum(b)
  {
    if a == [] {
      assert a + b == b;
    } else {
      assert (a + b)[1..] == a[1..] + b;
      SumConcat(a[1..], b);
    }
  }

  /** The sum does not depend on the order of the summands. */
  lemma {:induction false} SumPermutation(a: seq<int>, b: seq<int>)
    requires multiset(a) == multiset(b)
    ensures Sum(a) == Sum(b)
  {
    if a == [] {
      assert |b| == |multiset(b)| == 0;
    } else {
      var j := RemoveHead(a, b);
      SumPermutation(a[1..], b[..j] + b[j + 1..]);
      SumConcat(b[..j] + [b[j]], b[j + 1..]);
      SumConcat(b[..j], [b[j]]);
      SumConcat(b[..j], b[j + 1..]);
      assert Sum([b[j]]) == b[j];
    }
  }

  /** The smallest element of a non-empty sequence. */
  function MinOf(s: seq<int>): (m: int)
    requires s != []
    ensures m in s
    ensures forall x :: x in s ==> m <= x
  {
    if |s| == 1 then s[0]
    else
      var rest := MinOf(s[1..]);
      assert forall x :: x in s ==> x == s[0] || x in s[1..];
      if s[0] <= rest then s[0] else rest
  }

  /** The largest element of a non-empty sequence. */
  function MaxOf(s: seq<int>): (m: int)
    requires s != []
    ensures m in s
    ensures forall x :: x in s ==> x <= m
  {
    if |s| == 1 then s[0]
    else
      var rest := MaxOf(s[1..]);
      assert forall x :: x in s ==> x == s[0] || x in s[1..];
      if rest <= s[0] then s[0] else rest
  }

  /** The ends of an ascending rearrangement are the extremes of the original. */
  lemma SortedExtremes(s: seq<int>, ps: seq<int>)
    requires Sorted(s) && multiset(s) == multiset(ps) && s != []
    ensures MinOf(ps) == s[0] && MaxOf(ps) == s[|s| - 1]
  {
    assert |s| == |multiset(s)| == |ps|;
    assert s[0] in multiset(ps) && s[|s| - 1] in multiset(ps);
    var lo, hi := MinOf(ps), MaxOf(ps);
    assert lo in multiset(s) && hi in multiset(s);
    var i :| 0 <= i < |s| && s[i] == lo;
    var j :| 0 <= j < |s| && s[j] == hi;
    assert s[0] <= s[i] && s[j] <= s[|s| - 1];
    assert s[0] in ps && s[|s| - 1] in ps;
  }

  /** Every element between `lo` and `hi` puts the sum between `|s| * lo` and `|s| * hi`. */
  lemma {:induction false} SumBounds(s: seq<int>, lo: int, hi: int)
    requires forall x :: x in s ==> lo <= x <= hi
    ensures |s| * lo <= Sum(s) <= |s| * hi
  {
    if s != [] {
      var n := |s| - 1;
      assert s[0] in s;
      assert forall x :: x in s[1..] ==> x in s;
      SumBounds(s[1..], lo, hi);
      assert (n + 1) * lo == n * lo + lo;
      assert (n + 1) * hi == n * hi + hi;
    }
  }

  /** How many elements satisfy `p`. */
  function Count(s: seq<int>, p: int -> bool): (n: nat)
    ensures n <= |s|
  {
    if s == [] then 0 else (if p(s[0]) then 1 else 0) + Count(s[1..], p)
  }

  lemma {:induction false} CountConcat(a: seq<int>, b: seq<int>, p: int -> bool)
    ensures Count(a + b, p) == Count(a, p) + Count(b, p)
  {
    if a == [] {
      assert a + b == b;
    } else {
      assert (a + b)[1..] == a[1..] + b;
      CountConcat(a[1..], b, p);
    }
  }

  /** The count does not depend on the order of the elements. */
  lemma {:induction false} CountPermutation(a: seq<int>, b: seq<int>, p: int -> bool)
    requires multiset(a) == multiset(b)
    ensures Count(a, p) == Count(b, p)
  {
    if a == [] {
      assert |b| == |multiset(b)| == 0;
    } else {
      var j := RemoveHead(a, b);
      CountPermutation(a[1..], b[..j] + b[j + 1..], p);
      CountConcat(b[..j] + [b[j]], b[j + 1..], p);
      CountConcat(b[..j], [b[j]], p);
      CountConcat(b[..j], b[j + 1..], p);
      assert [b[j]][1..] == [];
    }
  }

  /** If `p` holds on the positions `lo..hi` of `s`, at least `hi - lo` elements satisfy it. */
  lemma {:induction false} CountRange(s: seq<int>, p: int -> bool, lo: nat, hi: nat)
    requires lo <= hi <= |s|
    requires forall i :: lo <= i < hi ==> p(s[i])
    ensures Count(s, p) >= hi - lo
  {
    if lo < hi {
      assert s == [s[0]] + s[1..];
      if lo == 0 {
        assert p(s[0]);
        CountRange(s[1..], p, 0, hi - 1);
      } else {
        CountRange(s[1..], p, lo - 1, hi - 1);
      }
    }
  }
}
