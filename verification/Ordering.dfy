/** Python's ordering of strings and the sorted list of a set of identifiers. */
module Ordering {
  import opened Counting

  /** Lexicographic order by code point. */
  predicate Le(a: string, b: string) {
    a == "" || (b != "" && (a[0] < b[0] || (a[0] == b[0] && Le(a[1..], b[1..]))))
  }

  /** One string is a beginning of the other, or the first character in which they differ decides. */
  lemma {:induction false} LeMeans(a: string, b: string)
    ensures Le(a, b) <==> a <= b || exists k :: 0 <= k < |a| && k < |b| && a[..k] == b[..k] && a[k] < b[k]
  {
    if a != "" && b != "" && a[0] == b[0] {
      var s, t := a[1..], b[1..];
      LeMeans(s, t);
      assert a == [a[0]] + s && b == [b[0]] + t;
      if k :| 0 <= k < |s| && k < |t| && s[..k] == t[..k] && s[k] < t[k] {
        assert a[..k + 1] == [a[0]] + s[..k] && b[..k + 1] == [b[0]] + t[..k];
        assert a[k + 1] < b[k + 1];
      }
      if k :| 0 <= k < |a| && k < |b| && a[..k] == b[..k] && a[k] < b[k] {
        assert s[..k - 1] == a[..k][1..] && t[..k - 1] == b[..k][1..];
        assert s[k - 1] < t[k - 1];
      }
    } else if a != "" && b != "" {
      assert a[..0] == b[..0];
      if k :| 0 <= k < |a| && k < |b| && a[..k] == b[..k] && a[k] < b[k] {
        assert k > 0 ==> a[..k][0] == b[..k][0];
      }
    }
  }

  lemma {:induction false} LeTotal(a: string, b: string)
    ensures Le(a, b) || Le(b, a)
  {
    if a != "" && b != "" && a[0] == b[0] {
      LeTotal(a[1..], b[1..]);
    }
  }

  lemma {:induction false} LeAntisymmetric(a: string, b: string)
    requires Le(a, b) && Le(b, a)
    ensures a == b
  {
    if a != "" {
      LeAntisymmetric(a[1..], b[1..]);
      assert a == [a[0]] + a[1..] && b == [b[0]] + b[1..];
    }
  }

  lemma {:induction false} LeTransitive(a: string, b: string, c: string)
    requires Le(a, b) && Le(b, c)
    ensures Le(a, c)
  {
    if a != "" && a[0] == b[0] == c[0] {
      LeTransitive(a[1..], b[1..], c[1..]);
    }
  }

  ghost predicate Sorted(s: seq<string>) {
    forall i, j :: 0 <= i < j < |s| ==> Le(s[i], s[j])
  }

  predicate IsLeast(m: string, s: set<string>) {
    m in s && forall x :: x in s ==> Le(m, x)
  }

  lemma {:induction false} LeastExists(s: set<string>)
    requires s != {}
    ensures exists m :: IsLeast(m, s)
    ensures forall m, n :: IsLeast(m, s) && IsLeast(n, s) ==> m == n
    decreases s
  {
    var m :| m in s;
    LeTotal(m, m);
    if s == {m} {
      assert IsLeast(m, s);
    } else {
      LeastExists(s - {m});
      var rest :| IsLeast(rest, s - {m});
      LeTotal(m, rest);
      var least := if Le(m, rest) then m else rest;
      forall x | x in s
        ensures Le(least, x)
      {
        if x != m && Le(m, rest) {
          LeTransitive(m, rest, x);
        }
      }
      assert IsLeast(least, s);
    }
    forall m, n | IsLeast(m, s) && IsLeast(n, s)
      ensures m == n
    {
      LeAntisymmetric(m, n);
    }
  }

  /** `sorted(s)` for a set of identifiers. */
  function SortSet(s: set<string>): (r: seq<string>)
    ensures forall x :: x in r <==> x in s
  {
    if s == {} then [] else
      LeastExists(s);
      var m :| IsLeast(m, s);
      [m] + SortSet(s - {m})
  }

  lemma ConsSorted(m: string, rest: seq<string>)
    requires Sorted(rest) && Distinct(rest)
    requires forall x :: x in rest ==> Le(m, x) && m != x
    ensures Sorted([m] + rest) && Distinct([m] + rest)
  {
    var s := [m] + rest;
    forall i, j | 0 <= i < j < |s|
      ensures Le(s[i], s[j]) && s[i] != s[j]
    {
      assert s[j] == rest[j - 1] && s[j] in rest;
      assert i > 0 ==> s[i] == rest[i - 1];
    }
  }

  lemma {:induction false} SortSetSorted(s: set<string>)
    ensures Sorted(SortSet(s)) && Distinct(SortSet(s)) && |SortSet(s)| == |s|
    decreases s
  {
    if s != {} {
      LeastExists(s);
      var m :| IsLeast(m, s) && SortSet(s) == [m] + SortSet(s - {m});
      SortSetSorted(s - {m});
      ConsSorted(m, SortSet(s - {m}));
    }
  }
}
