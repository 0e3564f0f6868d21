/** Sums over finite sets, independent of the order in which they are formed. */
module Sums {
  import opened Order

  ghost function SetSum<T(!new)>(s: set<T>, f: T -> real): real {
    if s == {} then 0.0 else
      var x :| x in s;
      f(x) + SetSum(s - {x}, f)
  }

  /** Any element may be taken out first. */
  lemma {:induction false} SetSumRemove<T(!new)>(s: set<T>, f: T -> real, y: T)
    requires y in s
    ensures SetSum(s, f) == f(y) + SetSum(s - {y}, f)
  {
    var x :| x in s && SetSum(s, f) == f(x) + SetSum(s - {x}, f);
    if x != y {
      SetSumRemove(s - {x}, f, y);
      SetSumRemove(s - {y}, f, x);
      assert s - {x} - {y} == s - {y} - {x};
    }
  }

  lemma {:induction false} SetSumAdd<T(!new)>(s: set<T>, f: T -> real, y: T)
    requires y !in s
    ensures SetSum(s + {y}, f) == SetSum(s, f) + f(y)
  {
    SetSumRemove(s + {y}, f, y);
    assert s + {y} - {y} == s;
  }

  lemma {:induction false} SetSumAgree<T(!new)>(s: set<T>, f: T -> real, g: T -> real)
    requires forall x :: x in s ==> f(x) == g(x)
    ensures SetSum(s, f) == SetSum(s, g)
  {
    if s != {} {
      var x :| x in s;
      SetSumRemove(s, f, x);
      SetSumRemove(s, g, x);
      SetSumAgree(s - {x}, f, g);
    }
  }

  function Lookup<T>(m: map<T, real>): T -> real { (k: T) => if k in m then m[k] else 0.0 }

  ghost function MapSum<T(!new)>(m: map<T, real>): real {
    SetSum(m.Keys, Lookup(m))
  }

  /** Adding to one entry of a map adds to its sum. */
  lemma MapSumUpdate<T(!new)>(m: map<T, real>, k: T, x: real)
    ensures MapSum(m[k := Lookup(m)(k) + x]) == MapSum(m) + x
  {
    var n := m[k := Lookup(m)(k) + x];
    var rest := m.Keys - {k};
    SetSumAgree(rest, Lookup(m), Lookup(n));
    SetSumRemove(n.Keys, Lookup(n), k);
    assert n.Keys - {k} == rest;
    if k in m {
      SetSumRemove(m.Keys, Lookup(m), k);
    } else {
      assert rest == m.Keys;
    }
  }

  // ----- grouping

  /** The part of each item's amount that belongs to key k. */
  function Share<T, K(==)>(amount: T -> real, key: T -> K, k: K): T -> real {
    item => if key(item) == k then amount(item) else 0.0
  }

  ghost function KeysIn<T(!new), K>(items: set<T>, amount: T -> real, key: T -> K): set<K> {
    set item | item in items && amount(item) != 0.0 :: key(item)
  }

  /** The items' non-zero amounts, added in some order to the totals of their keys. */
  ghost predicate Accumulated<T(!new), K(!new)>(totals: map<K, real>, before: map<K, real>, items: set<T>,
                                                amount: T -> real, key: T -> K)
  {
    && totals.Keys == before.Keys + KeysIn(items, amount, key)
    && (forall k :: Lookup(totals)(k) == Lookup(before)(k) + SetSum(items, Share(amount, key, k)))
    && MapSum(totals) == MapSum(before) + SetSum(items, amount)
  }

  function AddTo<K>(totals: map<K, real>, k: K, x: real): map<K, real> {
    if x == 0.0 then totals else totals[k := Lookup(totals)(k) + x]
  }

  lemma KeysInAdd<T(!new), K>(items: set<T>, amount: T -> real, key: T -> K, item: T)
    ensures KeysIn(items + {item}, amount, key) ==
            KeysIn(items, amount, key) + if amount(item) != 0.0 then {key(item)} else {}
  {
  }

  lemma LookupAddTo<K(!new)>(totals: map<K, real>, k: K, x: real, j: K)
    ensures Lookup(AddTo(totals, k, x))(j) == Lookup(totals)(j) + if j == k then x else 0.0
    ensures AddTo(totals, k, x).Keys == totals.Keys + if x == 0.0 then {} else {k}
    ensures MapSum(AddTo(totals, k, x)) == MapSum(totals) + x
  {
    MapSumUpdate(totals, k, x);
  }

  lemma AccumulateOne<T(!new), K(!new)>(totals: map<K, real>, before: map<K, real>, items: set<T>,
                                        amount: T -> real, key: T -> K, item: T)
    requires Accumulated(totals, before, items, amount, key) && item !in items
    ensures Accumulated(AddTo(totals, key(item), amount(item)), before, items + {item}, amount, key)
  {
    var next := AddTo(totals, key(item), amount(item));
    KeysInAdd(items, amount, key, item);
    LookupAddTo(totals, key(item), amount(item), key(item));
    SetSumAdd(items, amount, item);
    forall k
      ensures Lookup(next)(k) == Lookup(before)(k) + SetSum(items + {item}, Share(amount, key, k))
    {
      ShareAdd(totals, before, items, amount, key, item, k);
    }
  }

  lemma {:induction false} ShareAdd<T(!new), K(!new)>(totals: map<K, real>, before: map<K, real>, items: set<T>,
                                   amount: T -> real, key: T -> K, item: T, k: K)
    requires Lookup(totals)(k) == Lookup(before)(k) + SetSum(items, Share(amount, key, k)) && item !in items
    ensures Lookup(AddTo(totals, key(item), amount(item)))(k) ==
            Lookup(before)(k) + SetSum(items + {item}, Share(amount, key, k))
  {
    LookupAddTo(totals, key(item), amount(item), k);
    SetSumAdd(items, Share(amount, key, k), item);
  }

  /** The items of a list, added one after the other. */
  ghost function AddInOrder<T(!new), K(!new)>(before: map<K, real>, order: seq<T>, amount: T -> real, key: T -> K): map<K, real> {
    if order == [] then before
    else
      var z := |order| - 1;
      AddTo(AddInOrder(before, order[..z], amount, key), key(order[z]), amount(order[z]))
  }

  lemma {:induction false} AddInOrderStep<T(!new), K(!new)>(before: map<K, real>, order: seq<T>, amount: T -> real, key: T -> K, item: T)
    ensures AddInOrder(before, order + [item], amount, key) ==
            AddTo(AddInOrder(before, order, amount, key), key(item), amount(item))
  {
    assert (order + [item])[..|order|] == order;
  }

  /** In whatever order the items are added, the result has the sums of all of them. */
  lemma {:induction false} AnyOrderAccumulates<T(!new), K(!new)>(before: map<K, real>, order: seq<T>,
                                                                 amount: T -> real, key: T -> K)
    requires Distinct(order)
    ensures Accumulated(AddInOrder(before, order, amount, key), before, Elements(order), amount, key)
  {
    if order == [] {
      assert Elements(order) == {} && KeysIn({}, amount, key) == {};
    } else {
      var z := |order| - 1;
      AnyOrderAccumulates(before, order[..z], amount, key);
      assert order == order[..z] + [order[z]];
      ElementsAppend(order[..z], order[z]);
      AccumulateOne(AddInOrder(before, order[..z], amount, key), before, Elements(order[..z]), amount, key, order[z]);
    }
  }
}
