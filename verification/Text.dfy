/** Byte-wise string order, as sort.Strings uses it. */
module Text {
  import opened Order

  predicate Leq(a: string, b: string) {
    a == [] || (b != [] && (a[0] < b[0] || (a[0] == b[0] && Leq(a[1..], b[1..]))))
  }

  lemma {:induction false} LeqTotal(a: string, b: string)
    ensures Leq(a, b) || Leq(b, a)
    ensures Leq(a, b) && Leq(b, a) ==> a == b
  {
    if a != [] && b != [] && a[0] == b[0] {
      LeqTotal(a[1..], b[1..]);
      assert a == [a[0]] + a[1..] && b == [b[0]] + b[1..];
    }
  }

  lemma {:induction false} LeqTransitive(a: string, b: string, c: string)
    requires Leq(a, b) && Leq(b, c)
    ensures Leq(a, c)
  {
    if a != [] && a[0] == b[0] == c[0] {
      LeqTransitive(a[1..], b[1..], c[1..]);
    }
  }

  lemma LeqIsTotalOrder()
    ensures TotalPreorder(Leq)
    ensures forall a, b :: Leq(a, b) && Leq(b, a) ==> a == b
  {
    forall a: string, b: string
      ensures Leq(a, b) || Leq(b, a)
      ensures Leq(a, b) && Leq(b, a) ==> a == b
    {
      LeqTotal(a, b);
    }
    forall a: string, b: string, c: string | Leq(a, b) && Leq(b, c)
      ensures Leq(a, c)
    {
      LeqTransitive(a, b, c);
    }
  }

  /** The one ascending list of a set of strings. */
  ghost function SortedStrings(s: set<string>): seq<string> {
    LeqIsTotalOrder();
    SortedListing(Leq, s)
  }

  lemma SortedStringsListSet(s: set<string>)
    ensures var r := SortedStrings(s); Elements(r) == s && Distinct(r) && |r| == |s| && Sorted(Leq, r)
  {
    LeqIsTotalOrder();
    CollectThenSort(Leq, Listing(s), s);
  }

  function SortStrings(names: seq<string>): seq<string> {
    LeqIsTotalOrder();
    Sort(Leq, names)
  }

  /** Names collected from a map without repeats sort to the same list in any order. */
  lemma CollectStrings(names: seq<string>)
    requires Distinct(names)
    ensures SortStrings(names) == SortedStrings(Elements(names))
  {
    LeqIsTotalOrder();
    CollectThenSort(Leq, names, Elements(names));
  }
}
