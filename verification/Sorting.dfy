/** Python's stable sort by a key, and when it forgets the order it was given. */
module Sorting {
  import opened Ordering

  /** Tuples of strings, compared left to right. */
  type SortKey = seq<string>

  predicate KeyLe(a: SortKey, b: SortKey) {
    a == [] || (b != [] && (if a[0] == b[0] then KeyLe(a[1..], b[1..]) else Le(a[0], b[0])))
  }

  /** One tuple is a beginning of the other, or the first entry in which they differ decides. */
  lemma {:induction false} KeyLeMeans(a: SortKey, b: SortKey)
    ensures KeyLe(a, b) <==> a <= b || exists k :: 0 <= k < |a| && k < |b| && a[..k] == b[..k] && a[k] != b[k] && Le(a[k], b[k])
  {
    hide Le;
    if a != [] && b != [] && a[0] == b[0] {
      var s, t := a[1..], b[1..];
      KeyLeMeans(s, t);
      assert a == [a[0]] + s && b == [b[0]] + t;
      if k :| 0 <= k < |s| && k < |t| && s[..k] == t[..k] && s[k] != t[k] && Le(s[k], t[k]) {
        assert a[..k + 1] == [a[0]] + s[..k] && b[..k + 1] == [b[0]] + t[..k];
        assert a[k + 1] != b[k + 1] && Le(a[k + 1], b[k + 1]);
      }
      if k :| 0 <= k < |a| && k < |b| && a[..k] == b[..k] && a[k] != b[k] && Le(a[k], b[k]) {
        assert s[..k - 1] == a[..k][1..] && t[..k - 1] == b[..k][1..];
        assert s[k - 1] != t[k - 1] && Le(s[k - 1], t[k - 1]);
      }
    } else if a != [] && b != [] {
      assert a[..0] == b[..0];
      SameHead(a, b);
    }
  }

  lemma SameHead<T>(a: seq<T>, b: seq<T>)
    requires a != [] && b != []
    ensures forall k :: 0 < k <= |a| && k <= |b| && a[..k] == b[..k] ==> a[0] == b[0]
  {
    forall k | 0 < k <= |a| && k <= |b| && a[..k] == b[..k]
      ensures a[0] == b[0]
    {
      assert a[..k][0] == b[..k][0];
    }
  }

  lemma {:induction false} KeyLeTotal(a: SortKey, b: SortKey)
    ensures KeyLe(a, b) || KeyLe(b, a)
  {
    if a != [] && b != [] {
      LeTotal(a[0], b[0]);
      KeyLeTotal(a[1..], b[1..]);
    }
  }

  lemma {:induction false} KeyLeAntisymmetric(a: SortKey, b: SortKey)
    requires KeyLe(a, b) && KeyLe(b, a)
    ensures a == b
  {
    if a != [] {
      if a[0] == b[0] {
        KeyLeAntisymmetric(a[1..], b[1..]);
        assert a == [a[0]] + a[1..] && b == [b[0]] + b[1..];
      } else {
        LeAntisymmetric(a[0], b[0]);
      }
    }
  }

  lemma {:induction false} KeyLeTransitive(a: SortKey, b: SortKey, c: SortKey)
    requires KeyLe(a, b) && KeyLe(b, c)
    ensures KeyLe(a, c)
  {
    if a != [] {
      if a[0] == b[0] && b[0] == c[0] {
        KeyLeTransitive(a[1..], b[1..], c[1..]);
      } else if a[0] != b[0] && b[0] != c[0] {
        LeTransitive(a[0], b[0], c[0]);
        if a[0] == c[0] {
          LeAntisymmetric(a[0], b[0]);
        }
      }
    }
  }

  /** Places `x` after everything not above it. */
  function Insert<T>(key: T -> SortKey, sorted: seq<T>, x: T): seq<T> {
    if sorted == [] then [x]
    else
      var last := sorted[|sorted| - 1];
      if KeyLe(key(last), key(x)) then sorted + [x]
      else Insert(key, sorted[..|sorted| - 1], x) + [last]
  }

  /** `sorted(items, key=key)`. */
  function SortBy<T>(key: T -> SortKey, items: seq<T>): seq<T> {
    if items == [] then []
    else Insert(key, SortBy(key, items[..|items| - 1]), items[|items| - 1])
  }

  ghost predicate SortedBy<T>(key: T -> SortKey, s: seq<T>) {
    forall i, j :: 0 <= i < j < |s| ==> KeyLe(key(s[i]), key(s[j]))
  }

  lemma {:induction false} InsertKeeps<T>(key: T -> SortKey, sorted: seq<T>, x: T)
    requires SortedBy(key, sorted)
    ensures multiset(Insert(key, sorted, x)) == multiset(sorted) + multiset{x}
    ensures SortedBy(key, Insert(key, sorted, x))
  {
    if sorted != [] {
      var n := |sorted| - 1;
      var last := sorted[n];
      assert sorted == sorted[..n] + [last];
      KeyLeTotal(key(last), key(x));
      if KeyLe(key(last), key(x)) {
        forall i | 0 <= i <= n
          ensures KeyLe(key(sorted[i]), key(x))
        {
          if i < n {
            KeyLeTransitive(key(sorted[i]), key(last), key(x));
          }
        }
      } else {
        InsertKeeps(key, sorted[..n], x);
        var rest := Insert(key, sorted[..n], x);
        forall i | 0 <= i < |rest|
          ensures KeyLe(key(rest[i]), key(last))
        {
          assert rest[i] in multiset(rest);
          if rest[i] != x {
            assert rest[i] in sorted[..n];
          }
        }
      }
    }
  }

  lemma NothingSorted<T>(key: T -> SortKey)
    ensures SortedBy(key, [])
  {
  }

  lemma {:induction false} SortByKeeps<T>(key: T -> SortKey, items: seq<T>)
    ensures multiset(SortBy(key, items)) == multiset(items) && SortedBy(key, SortBy(key, items))
  {
    hide Insert, SortedBy;
    if items != [] {
      var n := |items| - 1;
      SortByKeeps(key, items[..n]);
      InsertKeeps(key, SortBy(key, items[..n]), items[n]);
      assert items == items[..n] + [items[n]];
    } else {
      NothingSorted(key);
    }
  }

  /** Different elements have different keys. */
  ghost predicate KeyDecides<T(!new)>(key: T -> SortKey, m: multiset<T>) {
    forall x, y :: x in m && y in m && key(x) == key(y) ==> x == y
  }

  lemma LastIsGreatest<T>(key: T -> SortKey, s: seq<T>, x: T)
    requires s != [] && SortedBy(key, s) && x in s
    ensures KeyLe(key(x), key(s[|s| - 1]))
  {
    KeyLeTotal(key(x), key(x));
    var i :| 0 <= i < |s| && s[i] == x;
  }

  lemma WithoutLast<T>(s: seq<T>)
    requires s != []
    ensures multiset(s) == multiset(s[..|s| - 1]) + multiset{s[|s| - 1]}
    ensures s == s[..|s| - 1] + [s[|s| - 1]]
  {
    assert s == s[..|s| - 1] + [s[|s| - 1]];
  }

  lemma Cancel<T>(a: multiset<T>, b: multiset<T>, x: T)
    requires a + multiset{x} == b + multiset{x}
    ensures a == b
  {
    assert a == a + multiset{x} - multiset{x};
    assert b == b + multiset{x} - multiset{x};
  }

  lemma SameLast<T(!new)>(key: T -> SortKey, s: seq<T>, t: seq<T>)
    requires s != [] && t != []
    requires multiset(s) == multiset(t) && SortedBy(key, s) && SortedBy(key, t) && KeyDecides(key, multiset(s))
    ensures s[|s| - 1] == t[|t| - 1]
  {
    var x, y := s[|s| - 1], t[|t| - 1];
    assert x in multiset(s) && y in multiset(t);
    assert x in multiset(t) && y in multiset(s);
    LastIsGreatest(key, s, y);
    LastIsGreatest(key, t, x);
    KeyLeAntisymmetric(key(x), key(y));
  }

  /** There is only one way to sort things whose keys tell them apart. */
  lemma {:induction false} OneOrder<T(!new)>(key: T -> SortKey, s: seq<T>, t: seq<T>)
    requires multiset(s) == multiset(t) && SortedBy(key, s) && SortedBy(key, t) && KeyDecides(key, multiset(s))
    ensures s == t
  {
    assert |s| == |multiset(s)| == |multiset(t)| == |t|;
    if s != [] {
      SameLast(key, s, t);
      var a, b := s[..|s| - 1], t[..|t| - 1];
      assert multiset(a) == multiset(b) && KeyDecides(key, multiset(a)) by {
        WithoutLast(s);
        WithoutLast(t);
        Cancel(multiset(a), multiset(b), s[|s| - 1]);
        assert forall x :: x in multiset(a) ==> x in multiset(s);
      }
      assert a == b by {
        OneOrder(key, a, b);
      }
      WithoutLast(s);
      WithoutLast(t);
    }
  }

  /** Sorting forgets the order it was given, when keys tell the items apart. */
  lemma SortForgets<T(!new)>(key: T -> SortKey, items: seq<T>, other: seq<T>)
    requires multiset(items) == multiset(other) && KeyDecides(key, multiset(items))
    ensures SortBy(key, items) == SortBy(key, other)
  {
    SortByKeeps(key, items);
    SortByKeeps(key, other);
    OneOrder(key, SortBy(key, items), SortBy(key, other));
  }
}
