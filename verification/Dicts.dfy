/** Python's dict: a finite map that remembers the order in which its keys were first put. */
module Dicts {
  datatype Dict<K(==), V> = Dict(keys: seq<K>, items: map<K, V>) {
    ghost predicate Valid() {
      && (forall i, j :: 0 <= i < j < |keys| ==> keys[i] != keys[j])
      && (forall k :: k in keys ==> k in items)
      && (forall k :: k in items ==> k in keys)
    }

    /** `d.setdefault(k, v)` */
    function SetDefault(k: K, v: V): (d: Dict<K, V>)
      requires Valid()
      ensures d.Valid()
      ensures d.items.Keys == items.Keys + {k}
      ensures forall x :: x in items ==> d.items[x] == items[x]
      ensures k !in items ==> d.items[k] == v
    {
      if k in items then this else Dict(keys + [k], items[k := v])
    }

    /** `d[k] = v` */
    function Put(k: K, v: V): (d: Dict<K, V>)
      requires Valid()
      ensures d.Valid()
      ensures d.items == items[k := v]
    {
      Dict(if k in items then keys else keys + [k], items[k := v])
    }

    /** `list(d.values())` */
    function Values(): (vs: seq<V>)
      requires Valid()
      ensures |vs| == |keys|
      ensures forall i :: 0 <= i < |keys| ==> vs[i] == items[keys[i]]
    {
      seq(|keys|, i requires 0 <= i < |keys| => items[keys[i]])
    }
  }

  function Empty<K, V>(): (d: Dict<K, V>)
    ensures d.Valid()
  {
    Dict([], map[])
  }

  /** Iteration over a Python set: every element once, in no order a caller may rely on. */
  method AnyOrder<T(==)>(s: set<T>) returns (order: seq<T>)
    ensures forall x :: x in s ==> x in order
    ensures forall x :: x in order ==> x in s
    ensures forall i, j :: 0 <= i < j < |order| ==> order[i] != order[j]
  {
    order := [];
    var left := s;
    while left != {}
      invariant left <= s
      invariant forall x :: x in s ==> x in left || x in order
      invariant forall x :: x in order ==> x in s && x !in left
      invariant forall i, j :: 0 <= i < j < |order| ==> order[i] != order[j]
      decreases left
    {
      var x :| x in left;
      left := left - {x};
      order := order + [x];
    }
  }
}
