/**
 * Python's insertion-ordered dict with string keys, as the list of its
 * items: `d[k]` looks a key up and `d[k] = v` replaces the value in place or
 * appends a new item at the end.
 */
module Dicts {
  import opened Wrappers

  type Dict<V> = seq<(string, V)>

  /** `d[k]`, or None where Python raises KeyError. */
  function Lookup<V>(d: Dict<V>, k: string): (r: Option<V>)
    ensures r.Some? <==> k in KeySet(d)
  {
    if d == [] then None
    else if d[0].0 == k then Some(d[0].1)
    else
      KeySetCons(d[0], d[1..]);
      assert d == [d[0]] + d[1..];
      Lookup(d[1..], k)
  }

  /** `d[k]` is the value of the first item whose key is `k`. */
  lemma {:induction false} LookupFirst<V>(d: Dict<V>, k: string)
    requires Lookup(d, k).Some?
    ensures exists i :: 0 <= i < |d| && d[i] == (k, Lookup(d, k).value) && forall j :: 0 <= j < i ==> d[j].0 != k
  {
    if d[0].0 == k {
      assert d[0] == (k, Lookup(d, k).value);
    } else {
      var v := Lookup(d, k).value;
      LookupFirst(d[1..], k);
      var i :| 0 <= i < |d[1..]| && d[1..][i] == (k, v) && forall j :: 0 <= j < i ==> d[1..][j].0 != k;
      assert d[i + 1] == (k, v);
      forall j | 0 <= j < i + 1 ensures d[j].0 != k {
        if j > 0 { assert d[j] == d[1..][j - 1]; }
      }
    }
  }

  /** The keys of `d`, in order. */
  function Keys<V>(d: Dict<V>): seq<string>
  {
    seq(|d|, i requires 0 <= i < |d| => d[i].0)
  }

  /** The keys of `d` as a set. */
  function KeySet<V>(d: Dict<V>): set<string>
  {
    set i | 0 <= i < |d| :: d[i].0
  }

  /** The keys of an item followed by a dict. */
  lemma KeySetCons<V>(x: (string, V), d: Dict<V>)
    ensures KeySet([x] + d) == {x.0} + KeySet(d)
  {
    var e := [x] + d;
    assert e[0] == x;
    forall k | k in KeySet(d) ensures k in KeySet(e) {
      var i :| 0 <= i < |d| && d[i].0 == k;
      assert e[i + 1] == d[i];
    }
    forall k | k in KeySet(e) ensures k in {x.0} + KeySet(d) {
      var i :| 0 <= i < |e| && e[i].0 == k;
      if i > 0 { assert e[i] == d[i - 1]; }
    }
  }

  /** No key occurs twice, as in every dict. */
  predicate Distinct<V>(d: Dict<V>)
  {
    d == [] || (d[0].0 !in KeySet(d[1..]) && Distinct(d[1..]))
  }

  /**
   * `d[k] = v`: afterwards `k` maps to `v` and every other key to what it
   * mapped to before; a key that was absent is appended at the end.
   */
  function Assign<V>(d: Dict<V>, k: string, v: V): (r: Dict<V>)
    ensures Lookup(r, k) == Some(v)
    ensures forall k' :: k' != k ==> Lookup(r, k') == Lookup(d, k')
    ensures KeySet(r) == KeySet(d) + {k}
    ensures Lookup(d, k).None? ==> r == d + [(k, v)]
  {
    if d == [] then [(k, v)]
    else if d[0].0 == k then
      KeySetCons(d[0], d[1..]);
      KeySetCons((k, v), d[1..]);
      assert d == [d[0]] + d[1..];
      [(k, v)] + d[1..]
    else
      var rest := Assign(d[1..], k, v);
      KeySetCons(d[0], d[1..]);
      KeySetCons(d[0], rest);
      assert d == [d[0]] + d[1..];
      [d[0]] + rest
  }

  /** Assigning to a key that is present keeps every key in its position. */
  lemma {:induction false} AssignKeepsKeys<V>(d: Dict<V>, k: string, v: V)
    requires Lookup(d, k).Some?
    ensures Keys(Assign(d, k, v)) == Keys(d)
  {
    assert d == [d[0]] + d[1..];
    KeysCons(d[0], d[1..]);
    if d[0].0 == k {
      KeysCons((k, v), d[1..]);
    } else {
      var rest := Assign(d[1..], k, v);
      AssignKeepsKeys(d[1..], k, v);
      KeysCons(d[0], rest);
    }
  }

  /** The keys of an item followed by a dict, in order. */
  lemma KeysCons<V>(x: (string, V), d: Dict<V>)
    ensures Keys([x] + d) == [x.0] + Keys(d)
  {
    var e := [x] + d;
    assert forall i :: 1 <= i < |e| ==> e[i] == d[i - 1];
  }

  /** Assigning never duplicates a key. */
  lemma {:induction false} AssignKeepsDistinct<V>(d: Dict<V>, k: string, v: V)
    requires Distinct(d)
    ensures Distinct(Assign(d, k, v))
  {
    var r := Assign(d, k, v);
    if d == [] {
      assert r[1..] == [];
    } else if d[0].0 == k {
      assert r == [(k, v)] + d[1..];
      assert r[1..] == d[1..];
    } else {
      var rest := Assign(d[1..], k, v);
      AssignKeepsDistinct(d[1..], k, v);
      assert r == [d[0]] + rest;
      assert r[1..] == rest;
      assert KeySet(rest) == KeySet(d[1..]) + {k};
    }
  }
}
