/**
 * A JavaScript `Map` keyed by an integer code, as the sequence of its entries in insertion
 * order. The build keys stations by their dataset-local code this way.
 */
module CodeMap {
  import opened Js

  type Entries<V> = seq<(int, V)>

  function Keys<V>(m: Entries<V>): seq<int> {
    seq(|m|, i requires 0 <= i < |m| => m[i].0)
  }

  function Values<V>(m: Entries<V>): seq<V> {
    seq(|m|, i requires 0 <= i < |m| => m[i].1)
  }

  predicate NoDuplicates(s: seq<int>) {
    forall i, j :: 0 <= i < j < |s| ==> s[i] != s[j]
  }

  /** The position of the entry whose key is `k`, or `|m|` when there is none. */
  function IndexOf<V>(m: Entries<V>, k: int): (i: nat)
    ensures i <= |m|
    ensures i < |m| ==> m[i].0 == k
    ensures forall j :: 0 <= j < i ==> m[j].0 != k
  {
    if m == [] then 0
    else if m[0].0 == k then 0
    else 1 + IndexOf(m[1..], k)
  }

  /** `m.get(k)`: the value stored under `k`, or `undefined`. */
  function Get<V>(m: Entries<V>, k: int): (r: Option<V>)
    ensures r.None? <==> k !in Keys(m)
    ensures r.Some? ==> exists i :: 0 <= i < |m| && m[i].0 == k && m[i].1 == r.value
  {
    var i := IndexOf(m, k);
    if i < |m| then
      assert Keys(m)[i] == k;
      Some(m[i].1)
    else None
  }

  /** `m.set(k, v)`: a present key keeps its position and takes the new value; a new key goes last. */
  function Set<V>(m: Entries<V>, k: int, v: V): (r: Entries<V>)
    ensures Keys(r) == if k in Keys(m) then Keys(m) else Keys(m) + [k]
    ensures Get(r, k) == Some(v)
    ensures forall k' :: k' != k ==> Get(r, k') == Get(m, k')
    ensures forall i :: 0 <= i < |r| ==> r[i] == (k, v) || (i < |m| && r[i] == m[i])
  {
    var i := IndexOf(m, k);
    if i < |m| then
      var r := m[i := (k, v)];
      assert forall j :: 0 <= j < |r| ==> Keys(r)[j] == Keys(m)[j];
      assert Keys(r) == Keys(m) && Keys(m)[i] == k;
      IndexOfFirst(r, k, i);
      forall k' | k' != k ensures IndexOf(r, k') == IndexOf(m, k') {
        IndexOfFirst(r, k', IndexOf(m, k'));
      }
      r
    else
      var r := m + [(k, v)];
      assert Keys(r) == Keys(m) + [k];
      IndexOfFirst(r, k, i);
      forall k' | k' != k ensures IndexOf(r, k') == IndexOf(m, k') || IndexOf(r, k') == |r| {
        if IndexOf(m, k') < |m| {
          IndexOfFirst(r, k', IndexOf(m, k'));
        } else {
          IndexOfFirst(r, k', |r|);
        }
      }
      r
  }

  /** `IndexOf` is determined by its contract. */
  lemma IndexOfFirst<V>(m: Entries<V>, k: int, i: nat)
    requires i <= |m|
    requires i < |m| ==> m[i].0 == k
    requires forall j :: 0 <= j < i ==> m[j].0 != k
    ensures IndexOf(m, k) == i
  {
  }

  /** `new Map(pairs)`: every pair is `set` in turn, first to last. */
  function FromEntries<V>(pairs: seq<(int, V)>): (m: Entries<V>)
    ensures NoDuplicates(Keys(m))
    ensures forall i :: 0 <= i < |m| ==> exists j :: 0 <= j < |pairs| && m[i] == pairs[j]
  {
    if pairs == [] then []
    else
      var init := pairs[..|pairs| - 1];
      var last := pairs[|pairs| - 1];
      var m := FromEntries(init);
      var r := Set(m, last.0, last.1);
      assert forall i :: 0 <= i < |r| ==> exists j :: 0 <= j < |pairs| && r[i] == pairs[j] by {
        forall i | 0 <= i < |r| ensures exists j :: 0 <= j < |pairs| && r[i] == pairs[j] {
          if r[i] == (last.0, last.1) {
            assert r[i] == pairs[|pairs| - 1];
          } else {
            var j' :| 0 <= j' < |init| && m[i] == init[j'];
            assert r[i] == pairs[j'];
          }
        }
      }
      r
  }

  /** Reference definition: the codes of `s` in order of first occurrence, each once. */
  function FirstOccurrences(s: seq<int>): seq<int> {
    if s == [] then []
    else
      var init := FirstOccurrences(s[..|s| - 1]);
      if s[|s| - 1] in s[..|s| - 1] then init else init + [s[|s| - 1]]
  }

  /** Reference definition: the value of the last pair whose key is `k`. */
  function LastValue<V>(pairs: seq<(int, V)>, k: int): Option<V> {
    if pairs == [] then None
    else if pairs[|pairs| - 1].0 == k then Some(pairs[|pairs| - 1].1)
    else LastValue(pairs[..|pairs| - 1], k)
  }

  lemma {:induction false} FirstOccurrencesMembers(s: seq<int>)
    ensures forall x :: x in FirstOccurrences(s) <==> x in s
    ensures NoDuplicates(FirstOccurrences(s))
  {
    if s != [] {
      var init := s[..|s| - 1];
      FirstOccurrencesMembers(init);
      assert s == init + [s[|s| - 1]];
    }
  }

  /**
   * The keys of `new Map(pairs)` are the pairs' keys in order of first insertion, each once:
   * a repeated key keeps the position it was first given.
   */
  lemma {:induction false} FromEntriesKeys<V>(pairs: seq<(int, V)>)
    ensures Keys(FromEntries(pairs)) == FirstOccurrences(Keys(pairs))
  {
    if pairs != [] {
      var init := pairs[..|pairs| - 1];
      FromEntriesKeys(init);
      FirstOccurrencesMembers(Keys(init));
      assert Keys(pairs)[..|pairs| - 1] == Keys(init);
    }
  }

  /** Under a repeated key, `new Map(pairs)` holds the value of the last pair with that key. */
  lemma {:induction false} FromEntriesGet<V>(pairs: seq<(int, V)>, k: int)
    ensures Get(FromEntries(pairs), k) == LastValue(pairs, k)
  {
    if pairs != [] {
      FromEntriesGet(pairs[..|pairs| - 1], k);
    }
  }
}
