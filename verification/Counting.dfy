/** Cardinality facts about finite sets and maps that the counting arguments of the other modules share. */
module Counting {

  /** No two keys of `m` share a value. */
  ghost predicate Injective<K, V>(m: map<K, V>) {
    forall k, l :: k in m && l in m && m[k] == m[l] ==> k == l
  }

  lemma SubsetSize<T>(a: set<T>, b: set<T>)
    requires a <= b
    ensures |a| <= |b|
    ensures |a| == |b| ==> a == b
  {
    assert b == a + (b - a);
    assert |b| == |a| + |b - a|;
  }

  lemma UnionSize<T>(a: set<T>, b: set<T>)
    requires a !! b
    ensures |a + b| == |a| + |b|
  {
    assert a == a + b - b;
  }

  lemma KeysSize<K, V>(m: map<K, V>)
    ensures |m| == |m.Keys|
  {
  }

  /** Compares two sets by comparing what lies inside and outside `c`. */
  lemma SplitSize<T>(a: set<T>, b: set<T>, c: set<T>)
    requires |a * c| <= |b * c| && a - c <= b - c
    ensures |a| <= |b|
  {
    SubsetSize(a - c, b - c);
    assert a == a * c + (a - c) && b == b * c + (b - c);
  }

  ghost function Image<K, V>(m: map<K, V>, keys: set<K>): set<V>
    requires keys <= m.Keys
  {
    set k | k in keys :: m[k]
  }

  /** The pigeonhole principle: an injective map sends `keys` onto as many values. */
  lemma {:induction false} ImageSize<K, V>(m: map<K, V>, keys: set<K>)
    requires Injective(m) && keys <= m.Keys
    ensures |Image(m, keys)| == |keys|
    decreases keys
  {
    if keys == {} {
      assert Image(m, keys) == {};
    } else {
      var k :| k in keys;
      ImageSize(m, keys - {k});
      assert Image(m, keys) == Image(m, keys - {k}) + {m[k]};
      assert m[k] !in Image(m, keys - {k});
    }
  }

  lemma InjectionBound<K, V>(m: map<K, V>, keys: set<K>, target: set<V>)
    requires Injective(m) && keys <= m.Keys
    requires forall k :: k in keys ==> m[k] in target
    ensures |keys| <= |target|
  {
    ImageSize(m, keys);
    SubsetSize(Image(m, keys), target);
  }

  ghost predicate Distinct<T>(s: seq<T>) {
    forall i, j :: 0 <= i < j < |s| ==> s[i] != s[j]
  }

  ghost function Elements<T>(s: seq<T>): set<T> {
    set x | x in s
  }

  lemma {:induction false} DistinctSize<T>(s: seq<T>)
    requires Distinct(s)
    ensures |Elements(s)| == |s|
  {
    if s == [] {
      assert Elements(s) == {};
    } else {
      var last := |s| - 1;
      DistinctSize(s[..last]);
      assert s == s[..last] + [s[last]];
      assert Elements(s) == Elements(s[..last]) + {s[last]};
    }
  }
}
