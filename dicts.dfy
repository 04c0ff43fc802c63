/**
 * Python `dict`s with string keys, as the list of their entries in insertion
 * order. Assigning to an existing key keeps its position; a new key goes last.
 */
module Dicts {
  import opened Wrappers

  /** The position of the entry for key `h`, or -1. */
  function IndexOfKey<V>(entries: seq<(string, V)>, h: string): (r: int)
    ensures -1 <= r < |entries|
    ensures r >= 0 ==> entries[r].0 == h
    ensures r < 0 ==> forall k :: 0 <= k < |entries| ==> entries[k].0 != h
    decreases |entries|
  {
    if entries == [] then -1
    else if entries[|entries| - 1].0 == h then |entries| - 1
    else IndexOfKey(entries[..|entries| - 1], h)
  }

  /** No key occurs twice: the entries of a Python `dict` in insertion order. */
  predicate KeysDistinct<V>(entries: seq<(string, V)>) {
    forall i, j :: 0 <= i < j < |entries| ==> entries[i].0 != entries[j].0
  }

  predicate HasKey<V>(d: seq<(string, V)>, k: string) {
    IndexOfKey(d, k) >= 0
  }

  /** `d.get(k)`. */
  function Get<V>(d: seq<(string, V)>, k: string): (r: Option<V>)
    ensures r.Some? <==> exists i :: 0 <= i < |d| && d[i].0 == k
  {
    var i := IndexOfKey(d, k);
    if i >= 0 then Some(d[i].1) else None
  }

  /** The entry appended last is the one found for its key; other keys look past it. */
  lemma GetSnoc<V>(d: seq<(string, V)>, x: (string, V), k: string)
    ensures Get(d + [x], k) == if k == x.0 then Some(x.1) else Get(d, k)
  {
    assert (d + [x])[..|d|] == d;
  }

  /** `d[k] = v`. */
  function Set<V>(d: seq<(string, V)>, k: string, v: V): seq<(string, V)> {
    var i := IndexOfKey(d, k);
    if i >= 0 then d[i := (k, v)] else d + [(k, v)]
  }

  /** `d.update(other)`: the entries of `other` assigned in order. */
  function Update<V>(d: seq<(string, V)>, other: seq<(string, V)>): seq<(string, V)>
    decreases |other|
  {
    if other == [] then d
    else
      var last := other[|other| - 1];
      Set(Update(d, other[..|other| - 1]), last.0, last.1)
  }

  /** The keys in order. */
  function Keys<V>(d: seq<(string, V)>): (r: seq<string>)
    ensures |r| == |d| && forall i :: 0 <= i < |d| ==> r[i] == d[i].0
  {
    seq(|d|, i requires 0 <= i < |d| => d[i].0)
  }

  /**
   * Assignment: the key then maps to the new value, every other key keeps its
   * value, the existing keys keep their order, and the keys stay distinct.
   */
  lemma SetSpec<V>(d: seq<(string, V)>, k: string, v: V)
    ensures Get(Set(d, k, v), k) == Some(v)
    ensures forall j :: j != k ==> Get(Set(d, k, v), j) == Get(d, j)
    ensures |Set(d, k, v)| >= |d| && forall i :: 0 <= i < |d| ==> Set(d, k, v)[i].0 == d[i].0
    ensures KeysDistinct(d) ==> KeysDistinct(Set(d, k, v))
  {
    var r := Set(d, k, v);
    var i := IndexOfKey(d, k);
    forall j | j != k
      ensures Get(r, j) == Get(d, j)
    {
      var a := IndexOfKey(r, j);
      var b := IndexOfKey(d, j);
      if i >= 0 {
        LastIndexAgree(d, r, j);
      } else {
        assert r[..|d|] == d;
        assert IndexOfKey(r, j) == IndexOfKey(d, j);
      }
    }
    if i >= 0 {
      LastIndexAgree(d, r, k);
    }
  }

  /** Two lists with the same keys at the same positions find a key at the same position. */
  lemma {:induction false} LastIndexAgree<V>(d: seq<(string, V)>, r: seq<(string, V)>, j: string)
    requires |d| == |r| && forall i :: 0 <= i < |d| ==> d[i].0 == r[i].0
    ensures IndexOfKey(d, j) == IndexOfKey(r, j)
    decreases |d|
  {
    if d != [] {
      var n := |d| - 1;
      if d[n].0 != j {
        LastIndexAgree(d[..n], r[..n], j);
      }
    }
  }

  /**
   * `d.update(other)`: each key of `other` maps to its value there, every other key
   * keeps its value in `d`, and the keys of `d` keep their order.
   */
  lemma {:induction false} UpdateSpec<V>(d: seq<(string, V)>, other: seq<(string, V)>)
    ensures forall k :: Get(Update(d, other), k) == if Get(other, k).Some? then Get(other, k) else Get(d, k)
    ensures |Update(d, other)| >= |d| && forall i :: 0 <= i < |d| ==> Update(d, other)[i].0 == d[i].0
    ensures KeysDistinct(d) ==> KeysDistinct(Update(d, other))
    decreases |other|
  {
    if other != [] {
      var init := other[..|other| - 1];
      var last := other[|other| - 1];
      UpdateSpec(d, init);
      SetSpec(Update(d, init), last.0, last.1);
      forall k
        ensures Get(Update(d, other), k) == if Get(other, k).Some? then Get(other, k) else Get(d, k)
      {
        if k != last.0 {
          assert IndexOfKey(other, k) == IndexOfKey(init, k);
        }
      }
    }
  }
}
