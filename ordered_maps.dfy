/**
  PHP arrays with string keys, as the debugger uses them: a list of
  (key, value) entries in insertion order. `Set` is the assignment
  `$m[$k] = $v` and `Push` the append `$m[$k][] = $x`.
 */
module OrderedMaps {
  import opened Sequences

  datatype Option<T> = None | Some(value: T)

  type OrderedMap<K, V> = seq<(K, V)>

  /** The keys of `m`, in insertion order. */
  function Keys<K, V>(m: OrderedMap<K, V>): seq<K> {
    seq(|m|, i requires 0 <= i < |m| => m[i].0)
  }

  /** Every key occurs once, as in any PHP array. */
  predicate WellFormed<K(==, !new), V>(m: OrderedMap<K, V>) {
    Distinct(Keys(m))
  }

  /** `$m[$k]`: the value stored under `k`, if any. */
  function Lookup<K(==, !new), V>(m: OrderedMap<K, V>, k: K): (r: Option<V>)
    ensures r.Some? <==> k in Keys(m)
    ensures r.Some? ==> (k, r.value) in m
  {
    if m == [] then None
    else if m[0].0 == k then
      assert Keys(m)[0] == k;
      Some(m[0].1)
    else
      assert Keys(m) == [m[0].0] + Keys(m[1..]);
      Lookup(m[1..], k)
  }

  /**
    `$m[$k] = $v`: a key already present keeps its position and gets the new
    value; a new key is appended at the end.
   */
  function Set<K(==, !new), V>(m: OrderedMap<K, V>, k: K, v: V): (r: OrderedMap<K, V>)
    ensures Keys(r) == if k in Keys(m) then Keys(m) else Keys(m) + [k]
    ensures forall e :: e in r ==> e == (k, v) || e in m
  {
    if m == [] then [(k, v)]
    else if m[0].0 == k then
      assert Keys(m)[0] == k;
      assert Keys([(k, v)] + m[1..]) == Keys(m);
      [(k, v)] + m[1..]
    else
      var r := [m[0]] + Set(m[1..], k, v);
      assert Keys(m) == [m[0].0] + Keys(m[1..]);
      assert Keys(r) == [m[0].0] + Keys(Set(m[1..], k, v));
      r
  }

  /** `$m[$k][] = $x`: appends `x` to the list under `k`, creating an empty list first when `k` is absent. */
  function Push<K(==, !new), E>(m: OrderedMap<K, seq<E>>, k: K, x: E): (r: OrderedMap<K, seq<E>>)
    ensures Keys(r) == if k in Keys(m) then Keys(m) else Keys(m) + [k]
    ensures Lookup(r, k).Some?
    ensures Lookup(r, k).value == (if k in Keys(m) then Lookup(m, k).value else []) + [x]
    ensures forall e :: e in r ==> e.0 == k || e in m
  {
    var current := match Lookup(m, k) case Some(l) => l case None => [];
    SetLookup(m, k, current + [x], k);
    Set(m, k, current + [x])
  }

  /** After `$m[$k] = $v`, reading `k` gives `v` and reading any other key gives what it gave before. */
  lemma {:induction false} SetLookup<K(!new), V>(m: OrderedMap<K, V>, k: K, v: V, k': K)
    ensures Lookup(Set(m, k, v), k) == Some(v)
    ensures k' != k ==> Lookup(Set(m, k, v), k') == Lookup(m, k')
  {
    if m != [] && m[0].0 != k {
      SetLookup(m[1..], k, v, k');
      assert Set(m, k, v)[1..] == Set(m[1..], k, v);
    }
  }

  /** Assigning to a key that is absent appends one entry. */
  lemma {:induction false} SetAbsent<K(!new), V>(m: OrderedMap<K, V>, k: K, v: V)
    requires k !in Keys(m)
    ensures Set(m, k, v) == m + [(k, v)]
  {
    if m != [] {
      assert Keys(m) == [m[0].0] + Keys(m[1..]);
      assert m[0].0 != k;
      SetAbsent(m[1..], k, v);
      calc {
        Set(m, k, v);
        [m[0]] + Set(m[1..], k, v);
        [m[0]] + (m[1..] + [(k, v)]);
        { assert m == [m[0]] + m[1..]; }
        m + [(k, v)];
      }
    }
  }

  /** Appending to the list of the last entry, whose key occurs nowhere before it, changes only that list. */
  lemma PushLast<K(!new), E>(m: OrderedMap<K, seq<E>>, k: K, l: seq<E>, x: E)
    requires k !in Keys(m)
    ensures Push(m + [(k, l)], k, x) == m + [(k, l + [x])]
  {
    var m' := m + [(k, l)];
    assert Keys(m') == Keys(m) + [k];
    assert Lookup(m', k) == Some(l) by {
      LookupLast(m, k, l);
    }
    SetLast(m, k, l, l + [x]);
  }

  /** The last entry is found by its key when the key occurs nowhere before it. */
  lemma {:induction false} LookupLast<K(!new), V>(m: OrderedMap<K, V>, k: K, v: V)
    requires k !in Keys(m)
    ensures Lookup(m + [(k, v)], k) == Some(v)
  {
    if m != [] {
      assert Keys(m) == [m[0].0] + Keys(m[1..]);
      assert (m + [(k, v)])[1..] == m[1..] + [(k, v)];
      LookupLast(m[1..], k, v);
    }
  }

  /** Assigning to the key of the last entry, which occurs nowhere before it, replaces that entry's value. */
  lemma {:induction false} SetLast<K(!new), V>(m: OrderedMap<K, V>, k: K, v: V, w: V)
    requires k !in Keys(m)
    ensures Set(m + [(k, v)], k, w) == m + [(k, w)]
  {
    if m != [] {
      assert Keys(m) == [m[0].0] + Keys(m[1..]);
      assert (m + [(k, v)])[1..] == m[1..] + [(k, v)];
      SetLast(m[1..], k, v, w);
      assert m + [(k, w)] == [m[0]] + (m[1..] + [(k, w)]);
    }
  }
}
