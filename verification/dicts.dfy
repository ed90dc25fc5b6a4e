/**
 * Python's built-in dict, as far as the analysis relies on it: keys remember
 * the order in which they were first inserted, and assigning to an existing
 * key keeps that key in its place.
 */
module Dicts {

  predicate Distinct<T(==)>(s: seq<T>) {
    forall i, j :: 0 <= i < j < |s| ==> s[i] != s[j]
  }

  /** The elements of `s`, each once, in order of first occurrence. */
  function Dedup<T(==,!new)>(s: seq<T>): (r: seq<T>)
    ensures Distinct(r)
    ensures forall x :: x in r <==> x in s
    ensures |r| <= |s|
    ensures Distinct(s) ==> r == s
  {
    if s == [] then []
    else
      var prefix := s[..|s| - 1];
      var r := Dedup(prefix);
      assert s == prefix + [s[|s| - 1]];
      if s[|s| - 1] in r then r else r + [s[|s| - 1]]
  }

  /** `s[k]` occurs in `s` before `y` first does. */
  ghost predicate OccursBefore<T>(s: seq<T>, x: T, y: T) {
    exists k :: 0 <= k < |s| && s[k] == x && y !in s[..k + 1]
  }

  /**
   * `Dedup` keeps first occurrences in order: of two kept elements, the
   * earlier one occurs in `s` before the later one first does.
   */
  lemma {:induction false} DedupKeepsFirstOccurrenceOrder<T(!new)>(s: seq<T>)
    ensures forall i, j :: 0 <= i < j < |Dedup(s)| ==> OccursBefore(s, Dedup(s)[i], Dedup(s)[j])
  {
    if s == [] {
      assert |Dedup(s)| == 0;
    } else {
      var prefix := s[..|s| - 1];
      DedupKeepsFirstOccurrenceOrder(prefix);
      var r, r' := Dedup(s), Dedup(prefix);
      assert s == prefix + [s[|s| - 1]];
      assert r == r' || (r == r' + [s[|s| - 1]] && s[|s| - 1] !in prefix);
      forall i, j | 0 <= i < j < |r|
        ensures OccursBefore(s, r[i], r[j])
      {
        assert r[i] == r'[i] && r[i] in prefix;
        if j < |r'| {
          assert r[j] == r'[j] && OccursBefore(prefix, r'[i], r'[j]);
          OccursBeforeExtends(prefix, s[|s| - 1], r[i], r[j]);
        } else {
          var k :| 0 <= k < |prefix| && prefix[k] == r[i];
          assert s[..k + 1] == prefix[..k + 1];
        }
      }
    }
  }

  /** An order of first occurrences survives appending to the list. */
  lemma OccursBeforeExtends<T>(s: seq<T>, last: T, x: T, y: T)
    requires OccursBefore(s, x, y)
    ensures OccursBefore(s + [last], x, y)
  {
    var k :| 0 <= k < |s| && s[k] == x && y !in s[..k + 1];
    assert (s + [last])[..k + 1] == s[..k + 1];
  }

  datatype Dict<K(==,!new), V> = Dict(order: seq<K>, entries: map<K, V>)
  {
    /** `order` lists every key exactly once. */
    predicate Valid() {
      && Distinct(order)
      && (forall k :: k in entries ==> k in order)
      && (forall k :: k in order ==> k in entries)
    }

    /** `d[k] = v` */
    function Put(k: K, v: V): (d: Dict<K, V>)
      requires Valid()
      ensures d.Valid()
      ensures d.entries == entries[k := v]
      ensures k in entries ==> d.order == order
      ensures k !in entries ==> d.order == order + [k]
    {
      Dict(if k in entries then order else order + [k], entries[k := v])
    }

    /** `d.values()`, in key order */
    function Values(): (vs: seq<V>)
      requires Valid()
      ensures |vs| == |order|
      ensures forall i :: 0 <= i < |order| ==> vs[i] == entries[order[i]]
    {
      seq(|order|, i requires 0 <= i < |order| => entries[order[i]])
    }

    /** `d.items()`, in key order */
    function Items(): (kvs: seq<(K, V)>)
      requires Valid()
      ensures |kvs| == |order|
      ensures forall i :: 0 <= i < |order| ==> kvs[i] == (order[i], entries[order[i]])
    {
      seq(|order|, i requires 0 <= i < |order| => (order[i], entries[order[i]]))
    }
  }

  /** `{k: v for k in keys}` */
  function FromKeys<K(==,!new), V>(keys: seq<K>, v: V): (d: Dict<K, V>)
    ensures d.Valid()
    ensures d.order == Dedup(keys)
    ensures forall k :: k in d.entries <==> k in keys
    ensures forall k :: k in d.entries ==> d.entries[k] == v
  {
    if keys == [] then Dict([], map[])
    else
      var prefix := keys[..|keys| - 1];
      assert keys == prefix + [keys[|keys| - 1]];
      FromKeys(prefix, v).Put(keys[|keys| - 1], v)
  }
}
