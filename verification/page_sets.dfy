/** Page lists as the program builds them: inclusive `range(lo, hi + 1)`
    intervals and `sorted(set(pages))`, the ascending duplicate-free
    arrangement of a list of page numbers. */
module PageSets {

  predicate StrictlyAscending(xs: seq<int>) {
    forall i, j :: 0 <= i < j < |xs| ==> xs[i] < xs[j]
  }

  /** Whether two lists hold the same elements, as Python's
      `set(a) == set(b)`. */
  ghost predicate SameElements(a: seq<int>, b: seq<int>) {
    forall x :: x in a <==> x in b
  }

  /** `list(range(lo, hi + 1))`: the pages `lo..hi`, empty when `lo > hi`. */
  function Interval(lo: int, hi: int): (r: seq<int>)
    ensures |r| == if lo <= hi then hi - lo + 1 else 0
    ensures forall k :: 0 <= k < |r| ==> r[k] == lo + k
    decreases hi - lo
  {
    if lo > hi then [] else [lo] + Interval(lo + 1, hi)
  }

  /** Membership in an interval is being between its bounds. */
  lemma {:induction false} IntervalMembers(lo: int, hi: int)
    ensures forall n :: n in Interval(lo, hi) <==> lo <= n <= hi
  {
    var r := Interval(lo, hi);
    forall n | lo <= n <= hi ensures n in r {
      assert r[n - lo] == n;
    }
  }

  /** Two adjacent intervals concatenate to the interval they span. */
  lemma {:induction false} IntervalSplit(lo: int, mid: int, hi: int)
    requires lo - 1 <= mid <= hi
    ensures Interval(lo, mid) + Interval(mid + 1, hi) == Interval(lo, hi)
  {
    var a := Interval(lo, mid);
    var b := Interval(mid + 1, hi);
    var c := Interval(lo, hi);
    assert |a + b| == |c|;
    forall k | 0 <= k < |c| ensures (a + b)[k] == c[k] {
      if k < |a| {
        assert (a + b)[k] == a[k];
      } else {
        assert (a + b)[k] == b[k - |a|];
      }
    }
  }

  /** Inserting `x` into a strictly ascending list at its place, unless it
      is already there. */
  function Insert(xs: seq<int>, x: int): (r: seq<int>)
    requires StrictlyAscending(xs)
    ensures StrictlyAscending(r)
    ensures forall y :: y in r <==> y in xs || y == x
  {
    if xs == [] then [x]
    else if x < xs[0] then [x] + xs
    else if x == xs[0] then xs
    else
      var rest := Insert(xs[1..], x);
      assert forall y :: y in xs <==> y == xs[0] || y in xs[1..];
      assert forall k :: 0 <= k < |rest| ==> xs[0] < rest[k] by {
        forall k | 0 <= k < |rest| ensures xs[0] < rest[k] {
          assert rest[k] in rest;
        }
      }
      [xs[0]] + rest
  }

  /** `sorted(set(xs))`: the elements of `xs`, each once, ascending. */
  function SortedSet(xs: seq<int>): (r: seq<int>)
    ensures StrictlyAscending(r)
    ensures SameElements(r, xs)
  {
    if xs == [] then []
    else
      var init := xs[..|xs| - 1];
      assert xs == init + [xs[|xs| - 1]];
      Insert(SortedSet(init), xs[|xs| - 1])
  }

  /** `sorted(set(xs))` holds exactly the elements of `xs`. */
  lemma {:induction false} SortedSetMembers(xs: seq<int>)
    ensures forall n :: n in SortedSet(xs) <==> n in xs
  {
  }

  /** Only the empty list has the elements of the empty list. */
  lemma {:induction false} SameElementsEmpty(a: seq<int>, b: seq<int>)
    requires SameElements(a, b)
    ensures a == [] <==> b == []
  {
    if a != [] {
      var x := a[0];
      assert x in a;
      assert x in a <==> x in b;
    }
    if b != [] {
      var x := b[0];
      assert x in b;
      assert x in a <==> x in b;
    }
  }

  /** A strictly ascending list is determined by its elements: so any
      ascending duplicate-free arrangement of the same pages, Python's
      `sorted(set(...))` included, is `SortedSet`'s. */
  lemma {:induction false} AscendingUnique(a: seq<int>, b: seq<int>)
    requires StrictlyAscending(a) && StrictlyAscending(b)
    requires SameElements(a, b)
    ensures a == b
    decreases |a|
  {
    if a == [] || b == [] {
      SameElementsEmpty(a, b);
    } else {
      assert a[0] in a && b[0] in b;
      assert a[0] == b[0];
      assert SameElements(a[1..], b[1..]) by {
        forall x ensures x in a[1..] <==> x in b[1..] {
          assert x in a <==> x == a[0] || x in a[1..];
          assert x in b <==> x == b[0] || x in b[1..];
          assert a[0] !in a[1..];
          assert b[0] !in b[1..];
        }
      }
      AscendingUnique(a[1..], b[1..]);
    }
  }

  /** An ascending list is its own `sorted(set(...))`. */
  lemma {:induction false} SortedSetOfAscending(xs: seq<int>)
    requires StrictlyAscending(xs)
    ensures SortedSet(xs) == xs
  {
    AscendingUnique(SortedSet(xs), xs);
  }
}
