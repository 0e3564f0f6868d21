/** Sorting as the Go library does it, seen from outside: some sorted permutation.
    The lemmas show when the choice of algorithm, and the order in which a Go map
    was walked before the sort, cannot be seen in the result. */
module Order {

  ghost predicate TotalPreorder<T(!new)>(leq: (T, T) -> bool) {
    && (forall x, y :: leq(x, y) || leq(y, x))
    && (forall x, y, z :: leq(x, y) && leq(y, z) ==> leq(x, z))
  }

  /** Ties inside s are between equal elements only. */
  ghost predicate NoTies<T>(leq: (T, T) -> bool, s: seq<T>) {
    forall x, y :: x in s && y in s && leq(x, y) && leq(y, x) ==> x == y
  }

  ghost predicate Sorted<T>(leq: (T, T) -> bool, s: seq<T>) {
    forall i, j :: 0 <= i < j < |s| ==> leq(s[i], s[j])
  }

  ghost predicate Distinct<T>(s: seq<T>) {
    forall i, j :: 0 <= i < j < |s| ==> s[i] != s[j]
  }

  ghost function Elements<T>(s: seq<T>): set<T> {
    set x | x in s
  }

  lemma ElementsAppend<T>(s: seq<T>, x: T)
    ensures Elements(s + [x]) == Elements(s) + {x}
    ensures Distinct(s) && x !in Elements(s) ==> Distinct(s + [x])
  {
  }

  function Insert<T(!new)>(leq: (T, T) -> bool, x: T, s: seq<T>): (r: seq<T>)
    requires TotalPreorder(leq) && Sorted(leq, s)
    ensures Sorted(leq, r) && multiset(r) == multiset(s) + multiset{x}
  {
    if s == [] then [x]
    else if leq(x, s[0]) then
      HeadIsLeast(leq, x, s);
      PrependLeast(leq, x, s);
      [x] + s
    else
      var rest := Insert(leq, x, s[1..]);
      assert s == [s[0]] + s[1..];
      InsertedAbove(leq, s[0], x, s[1..], rest);
      PrependLeast(leq, s[0], rest);
      [s[0]] + rest
  }

  lemma HeadIsLeast<T(!new)>(leq: (T, T) -> bool, x: T, s: seq<T>)
    requires TotalPreorder(leq) && Sorted(leq, s) && s != [] && leq(x, s[0])
    ensures forall y :: y in s ==> leq(x, y)
  {
    forall k | 0 <= k < |s|
      ensures leq(x, s[k])
    {
      assert k == 0 || leq(s[0], s[k]);
    }
  }

  lemma InsertedAbove<T(!new)>(leq: (T, T) -> bool, least: T, x: T, s: seq<T>, r: seq<T>)
    requires multiset(r) == multiset(s) + multiset{x} && leq(least, x)
    requires forall k :: 0 <= k < |s| ==> leq(least, s[k])
    ensures forall y :: y in r ==> leq(least, y)
  {
    forall y | y in r
      ensures leq(least, y)
    {
      assert y in multiset(r);
      assert y == x || y in s;
    }
  }

  lemma PrependLeast<T>(leq: (T, T) -> bool, x: T, s: seq<T>)
    requires Sorted(leq, s) && forall y :: y in s ==> leq(x, y)
    ensures Sorted(leq, [x] + s)
  {
  }

  function Sort<T(!new)>(leq: (T, T) -> bool, s: seq<T>): (r: seq<T>)
    requires TotalPreorder(leq)
    ensures Sorted(leq, r) && multiset(r) == multiset(s)
  {
    if s == [] then []
    else
      assert s == [s[0]] + s[1..];
      Insert(leq, s[0], Sort(leq, s[1..]))
  }

  /** Any two sorted arrangements of the same elements agree where ties are harmless. */
  lemma {:induction false} SortedUnique<T(!new)>(leq: (T, T) -> bool, a: seq<T>, b: seq<T>)
    requires Sorted(leq, a) && Sorted(leq, b) && multiset(a) == multiset(b) && NoTies(leq, a)
    requires TotalPreorder(leq)
    ensures a == b
  {
    SameElements(a, b);
    if a != [] {
      assert a[0] == b[0] by {
        assert leq(a[0], a[0]);
        assert a[0] in b && b[0] in a;
      }
      SameTails(a, b);
      SortedUnique(leq, a[1..], b[1..]);
      assert a == [a[0]] + a[1..] && b == [b[0]] + b[1..];
    }
  }

  lemma SameTails<T>(a: seq<T>, b: seq<T>)
    requires a != [] && b != [] && a[0] == b[0] && multiset(a) == multiset(b)
    ensures multiset(a[1..]) == multiset(b[1..])
    ensures forall x :: x in a[1..] ==> x in a
  {
    assert a == [a[0]] + a[1..] && b == [b[0]] + b[1..];
    assert multiset(a[1..]) == multiset(a) - multiset{a[0]};
    assert multiset(b[1..]) == multiset(b) - multiset{b[0]};
  }

  /** Permuting the input of a sort does not change its output. */
  lemma {:induction false} SortPermutation<T(!new)>(leq: (T, T) -> bool, a: seq<T>, b: seq<T>)
    requires TotalPreorder(leq) && multiset(a) == multiset(b) && NoTies(leq, a)
    ensures Sort(leq, a) == Sort(leq, b)
  {
    SameElements(Sort(leq, a), a);
    SortedUnique(leq, Sort(leq, a), Sort(leq, b));
  }

  lemma SameElements<T>(a: seq<T>, b: seq<T>)
    requires multiset(a) == multiset(b)
    ensures Elements(a) == Elements(b) && |a| == |b|
    ensures forall x :: x in a <==> x in b
  {
    assert |multiset(a)| == |a| && |multiset(b)| == |b|;
    assert forall x :: x in a <==> x in multiset(a);
    assert forall x :: x in b <==> x in multiset(b);
  }

  /** The elements of a set in some order: what ranging over a Go map yields. */
  ghost function Listing<T(!new)>(s: set<T>): (r: seq<T>)
    ensures Distinct(r) && Elements(r) == s
  {
    if s == {} then [] else
      var x :| x in s;
      var rest := Listing(s - {x});
      assert forall y :: y in rest <==> y in Elements(rest);
      [x] + rest
  }

  lemma {:induction false} DistinctMultiset<T>(a: seq<T>, b: seq<T>)
    requires Distinct(a) && Distinct(b) && Elements(a) == Elements(b)
    ensures multiset(a) == multiset(b)
  {
    forall x
      ensures multiset(a)[x] == multiset(b)[x]
    {
      DistinctCount(a, x);
      DistinctCount(b, x);
      assert x in a <==> x in Elements(a);
      assert x in b <==> x in Elements(b);
    }
  }

  lemma {:induction false} DistinctCount<T>(a: seq<T>, x: T)
    requires Distinct(a)
    ensures multiset(a)[x] == if x in a then 1 else 0
  {
    if a != [] {
      assert a == [a[0]] + a[1..];
      DistinctCount(a[1..], x);
    }
  }

  /** The canonical sorted listing of a set. */
  ghost function SortedListing<T(!new)>(leq: (T, T) -> bool, s: set<T>): seq<T>
    requires TotalPreorder(leq)
  {
    Sort(leq, Listing(s))
  }

  /** Collect a set in any order without repeats, then sort: always the same list. */
  lemma {:induction false} CollectThenSort<T(!new)>(leq: (T, T) -> bool, collected: seq<T>, s: set<T>)
    requires TotalPreorder(leq)
    requires Distinct(collected) && Elements(collected) == s && NoTies(leq, collected)
    ensures Sort(leq, collected) == SortedListing(leq, s)
    ensures Elements(Sort(leq, collected)) == s && Distinct(Sort(leq, collected))
    ensures |Sort(leq, collected)| == |s|
  {
    DistinctMultiset(collected, Listing(s));
    SortPermutation(leq, collected, Listing(s));
    SameElements(Sort(leq, collected), collected);
    DistinctTransfer(collected, Sort(leq, collected));
    DistinctSize(collected);
  }

  lemma DistinctTransfer<T>(a: seq<T>, b: seq<T>)
    requires Distinct(a) && multiset(a) == multiset(b)
    ensures Distinct(b)
  {
    forall i, j | 0 <= i < j < |b|
      ensures b[i] != b[j]
    {
      DistinctCount(a, b[i]);
      assert b == b[..i] + [b[i]] + b[i + 1..j] + [b[j]] + b[j + 1..];
      assert multiset(b) == multiset(b[..i]) + multiset{b[i]} + multiset(b[i + 1..j]) + multiset{b[j]} + multiset(b[j + 1..]);
    }
  }

  lemma {:induction false} DistinctSize<T>(a: seq<T>)
    requires Distinct(a)
    ensures |a| == |Elements(a)|
  {
    if a != [] {
      assert a == [a[0]] + a[1..];
      DistinctSize(a[1..]);
      assert Elements(a) == {a[0]} + Elements(a[1..]);
    }
  }
}
