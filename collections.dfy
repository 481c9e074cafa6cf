/** Sequence and key-value helpers shared by the transformations. */
module Collections {

  predicate NoDup<T(==)>(s: seq<T>)
  {
    forall a, b :: 0 <= a < b < |s| ==> s[a] != s[b]
  }

  /** `array_distinct`: the elements of `s`, each once, in the order of
      their first occurrence. */
  function Dedup<T(==,!new)>(s: seq<T>): (r: seq<T>)
    ensures NoDup(r)
    ensures forall x :: x in r <==> x in s
    ensures |r| <= |s|
  {
    if s == [] then []
    else
      var d := Dedup(s[..|s| - 1]);
      var x := s[|s| - 1];
      assert forall y :: y in s <==> y in s[..|s| - 1] || y == x;
      if x in d then d else d + [x]
  }

  /** The keys of a sequence of key-value entries. */
  function KeysOf<K(==,!new), V>(es: seq<(K, V)>): (ks: set<K>)
    ensures forall k :: k in ks <==> exists n :: 0 <= n < |es| && es[n].0 == k
  {
    if es == [] then {}
    else
      var prefix := es[..|es| - 1];
      var ks := KeysOf(prefix) + {es[|es| - 1].0};
      assert forall n :: 0 <= n < |prefix| ==> prefix[n] == es[n];
      ks
  }

  predicate UniqueKeys<K(==), V>(es: seq<(K, V)>)
  {
    forall a, b :: 0 <= a < b < |es| ==> es[a].0 != es[b].0
  }

  /** Entry `n` is the last one with its key. */
  predicate LastWithKey<K(==), V>(es: seq<(K, V)>, n: int)
    requires 0 <= n < |es|
  {
    forall n' :: n < n' < |es| ==> es[n'].0 != es[n].0
  }

  /** The dictionary built from `es` by inserting its entries in order: a
      later entry for a key replaces an earlier one. */
  function AsMap<K(==,!new), V>(es: seq<(K, V)>): (m: map<K, V>)
  {
    if es == [] then map[] else AsMap(es[..|es| - 1])[es[|es| - 1].0 := es[|es| - 1].1]
  }

  /** The dictionary has exactly the entries' keys. */
  lemma {:induction false} AsMapKeys<K(!new), V>(es: seq<(K, V)>)
    ensures AsMap(es).Keys == KeysOf(es)
  {
    if es != [] {
      AsMapKeys(es[..|es| - 1]);
    }
  }

  /** The last entry with a key gives that key's value. */
  lemma {:induction false} AsMapLastWinsAt<K(!new), V>(es: seq<(K, V)>, n: int)
    requires 0 <= n < |es| && LastWithKey(es, n)
    ensures es[n].0 in AsMap(es) && AsMap(es)[es[n].0] == es[n].1
  {
    var prefix, last := es[..|es| - 1], es[|es| - 1];
    assert AsMap(es) == AsMap(prefix)[last.0 := last.1];
    if n < |prefix| {
      assert prefix[n] == es[n] && es[n].0 != last.0;
      assert LastWithKey(prefix, n) by {
        forall n' | n < n' < |prefix| ensures prefix[n'].0 != prefix[n].0 {
          assert prefix[n'] == es[n'];
        }
      }
      AsMapLastWinsAt(prefix, n);
    }
  }

  /** The dictionary has exactly the entries' keys, and each key maps to the
      value of its last entry. */
  lemma AsMapLastWins<K(!new), V>(es: seq<(K, V)>)
    ensures AsMap(es).Keys == KeysOf(es)
    ensures forall n :: 0 <= n < |es| && LastWithKey(es, n) ==> AsMap(es)[es[n].0] == es[n].1
  {
    AsMapKeys(es);
    forall n | 0 <= n < |es| && LastWithKey(es, n)
      ensures AsMap(es)[es[n].0] == es[n].1
    {
      AsMapLastWinsAt(es, n);
    }
  }

  /** `Dedup` of a repeated element keeps one copy. */
  lemma DedupOfRepeat<T(!new)>(x: T)
    ensures Dedup([x, x]) == [x]
  {
    assert [x, x][..1] == [x];
    assert Dedup([x]) == [x] by { assert [x][..0] == []; }
  }
}
