/**
 * The two ways the tokenizer builds a lookup table with `Object.fromEntries`:
 * from the positions of a list (entry `[v, i]` for each index `i`), and by
 * swapping the entries of an existing table. `fromEntries` lets a later entry
 * overwrite an earlier one with the same key, so a value listed twice keeps
 * its LAST position.
 */
module Tables {

  /** No two keys of `m` share a value. */
  ghost predicate Injective<K, V>(m: map<K, V>) {
    forall x, y :: x in m && y in m && m[x] == m[y] ==> x == y
  }

  /** No value occurs twice in `s`. */
  ghost predicate Distinct<T>(s: seq<T>) {
    forall i, j :: 0 <= i < j < |s| ==> s[i] != s[j]
  }

  /**
   * `Object.fromEntries(ks.map((k, i) => [k, vs[i]]))`: every key is present,
   * with the value paired with one of its occurrences; for a list whose keys
   * do not repeat, as the byte list of `bytesToUnicode`, that is the value
   * paired with it. (`IndexMap` states which occurrence wins.)
   */
  function FromEntries<K, V>(ks: seq<K>, vs: seq<V>): (m: map<K, V>)
    requires |ks| == |vs|
    ensures forall i :: 0 <= i < |ks| ==> ks[i] in m
    ensures forall k :: k in m ==> exists i :: 0 <= i < |ks| && ks[i] == k && m[k] == vs[i]
  {
    if |ks| == 0 then map[]
    else FromEntries(ks[..|ks| - 1], vs[..|vs| - 1])[ks[|ks| - 1] := vs[|vs| - 1]]
  }

  /**
   * `Object.fromEntries(s.map((v, i) => [v, i]))`: every element of `s` is a
   * key, mapped to the last index at which it occurs.
   */
  function IndexMap<T>(s: seq<T>): (m: map<T, int>)
    ensures m.Keys == set x | x in s
    ensures forall x :: x in m ==> 0 <= m[x] < |s| && s[m[x]] == x
    ensures forall x, j :: x in m && m[x] < j < |s| ==> s[j] != x
    ensures Injective(m)
  {
    if |s| == 0 then map[]
    else IndexMap(s[..|s| - 1])[s[|s| - 1] := |s| - 1]
  }

  /**
   * `Object.fromEntries(Object.entries(m).map(([k, v]) => [v, k]))` for a
   * table whose values are all different: the inverse table.
   */
  function Invert<K, V>(m: map<K, V>): (r: map<V, K>)
    requires Injective(m)
    ensures r.Keys == m.Values
    ensures forall k :: k in m ==> m[k] in r && r[m[k]] == k
    ensures forall v :: v in r ==> r[v] in m && m[r[v]] == v
  {
    map k | k in m :: m[k] := k
  }

  /**
   * When the list has no duplicates, the position table gives every element
   * its own index, and its inverse maps every index back to its element.
   */
  lemma IndexMapOfDistinct<T>(s: seq<T>)
    requires Distinct(s)
    ensures forall i :: 0 <= i < |s| ==> IndexMap(s)[s[i]] == i
    ensures forall i :: i in Invert(IndexMap(s)) <==> 0 <= i < |s|
    ensures forall i :: 0 <= i < |s| ==> Invert(IndexMap(s))[i] == s[i]
  {
    var m := IndexMap(s);
    forall i | 0 <= i < |s|
      ensures m[s[i]] == i
    {
      var k := m[s[i]];
      assert s[k] == s[i];
      assert !(k < i) && !(i < k);
    }
    var r := Invert(m);
    forall i | 0 <= i < |s|
      ensures i in r && r[i] == s[i]
    {
      assert m[s[i]] == i;
    }
  }

  /** An element that does not occur again later in the list gets its own index. */
  lemma IndexMapOfLast<T>(s: seq<T>, i: nat)
    requires i < |s|
    requires forall j :: i < j < |s| ==> s[j] != s[i]
    ensures s[i] in IndexMap(s) && IndexMap(s)[s[i]] == i
  {
    var p := IndexMap(s)[s[i]];
    assert !(p < i) && !(i < p);
  }

  /** Looking an element up and then its index up again gives the element back. */
  lemma LookupRoundTrip<T>(s: seq<T>, x: T)
    requires x in s
    ensures x in IndexMap(s) && IndexMap(s)[x] in Invert(IndexMap(s))
    ensures Invert(IndexMap(s))[IndexMap(s)[x]] == x
  {
  }
}
