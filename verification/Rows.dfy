/** Tables as lists of rows, looked up by a key and changed one row at a time. */
module Rows {

  /** The rows with key `x`, in order: one entry of an index built over the table. */
  function Matching<T, K(==)>(rows: seq<T>, key: T -> K, x: K): seq<T> {
    if rows == [] then []
    else
      var last := rows[|rows| - 1];
      Matching(rows[..|rows| - 1], key, x) + (if key(last) == x then [last] else [])
  }

  /** The first row with key `x`. */
  function First<T, K(==)>(rows: seq<T>, key: T -> K, x: K): seq<T> {
    if rows == [] then []
    else if key(rows[0]) == x then [rows[0]]
    else First(rows[1..], key, x)
  }

  /** Overwrites the rows with the key of `row`. */
  function Replace<T, K(==)>(rows: seq<T>, key: T -> K, row: T): seq<T> {
    if rows == [] then []
    else
      var last := rows[|rows| - 1];
      Replace(rows[..|rows| - 1], key, row) + [if key(last) == key(row) then row else last]
  }

  /** Drops the rows with key `x`. */
  function Without<T, K(==)>(rows: seq<T>, key: T -> K, x: K): seq<T> {
    if rows == [] then []
    else
      var last := rows[|rows| - 1];
      Without(rows[..|rows| - 1], key, x) + (if key(last) == x then [] else [last])
  }

  ghost predicate Unique<T, K>(rows: seq<T>, key: T -> K) {
    forall i, j :: 0 <= i < j < |rows| ==> key(rows[i]) != key(rows[j])
  }

  lemma UniqueMember<R(!new)>(rows: seq<R>, id: R -> nat, row: R)
    requires Unique(rows, id) && row in rows
    ensures forall r :: r in rows && id(r) == id(row) ==> r == row
  {
    forall r | r in rows && id(r) == id(row)
      ensures r == row
    {
      var i :| 0 <= i < |rows| && rows[i] == r;
      var j :| 0 <= j < |rows| && rows[j] == row;
    }
  }

  lemma {:induction false} MatchingMembers<T, K>(rows: seq<T>, key: T -> K, x: K)
    ensures forall row :: row in Matching(rows, key, x) <==> row in rows && key(row) == x
  {
    if rows != [] {
      var n := |rows| - 1;
      MatchingMembers(rows[..n], key, x);
      assert rows == rows[..n] + [rows[n]];
    }
  }

  lemma MatchingHead<T, K>(rows: seq<T>, key: T -> K, x: K)
    ensures Matching(rows, key, x) != [] ==> Matching(rows, key, x)[0] in rows && key(Matching(rows, key, x)[0]) == x
  {
    MatchingMembers(rows, key, x);
    var matches := Matching(rows, key, x);
    assert matches != [] ==> matches[0] in matches;
  }

  lemma {:induction false} MatchedAt<T, K>(rows: seq<T>, key: T -> K, x: K) returns (i: nat)
    requires Matching(rows, key, x) != []
    ensures i < |rows| && key(rows[i]) == x
  {
    i := |rows| - 1;
    if key(rows[i]) != x {
      i := MatchedAt(rows[..i], key, x);
    }
  }

  lemma {:induction false} MatchingUnique<T, K>(rows: seq<T>, key: T -> K, x: K)
    requires Unique(rows, key)
    ensures |Matching(rows, key, x)| <= 1
  {
    if rows != [] {
      var n := |rows| - 1;
      MatchingUnique(rows[..n], key, x);
      if Matching(rows[..n], key, x) != [] {
        var i := MatchedAt(rows[..n], key, x);
        assert key(rows[i]) != key(rows[n]);
      }
    }
  }

  lemma MatchingOne<T, K>(rows: seq<T>, key: T -> K, row: T)
    requires Unique(rows, key) && row in rows
    ensures Matching(rows, key, key(row)) == [row]
  {
    MatchingUnique(rows, key, key(row));
    MatchingMembers(rows, key, key(row));
    var matches := Matching(rows, key, key(row));
    assert row in matches;
  }

  lemma {:induction false} FirstUnique<T, K>(rows: seq<T>, key: T -> K, row: T)
    requires Unique(rows, key) && row in rows
    ensures First(rows, key, key(row)) == [row]
  {
    if rows[0] != row {
      assert row in rows[1..];
      FirstUnique(rows[1..], key, row);
    }
  }

  lemma {:induction false} FirstMember<T, K>(rows: seq<T>, key: T -> K, x: K)
    ensures |First(rows, key, x)| <= 1
    ensures First(rows, key, x) == [] <==> forall row :: row in rows ==> key(row) != x
    ensures First(rows, key, x) != [] ==> First(rows, key, x)[0] in rows && key(First(rows, key, x)[0]) == x
  {
    if rows != [] {
      FirstMember(rows[1..], key, x);
      assert rows == [rows[0]] + rows[1..];
    }
  }

  lemma MatchingAppend<T, K>(rows: seq<T>, key: T -> K, row: T, x: K)
    ensures Matching(rows + [row], key, x) == Matching(rows, key, x) + (if key(row) == x then [row] else [])
  {
    assert (rows + [row])[..|rows|] == rows;
  }

  lemma {:induction false} ReplaceShape<T, K>(rows: seq<T>, key: T -> K, row: T)
    ensures |Replace(rows, key, row)| == |rows|
    ensures forall i :: 0 <= i < |rows| ==> Replace(rows, key, row)[i] == if key(rows[i]) == key(row) then row else rows[i]
  {
    if rows != [] {
      ReplaceShape(rows[..|rows| - 1], key, row);
    }
  }

  /** Overwriting one row by another with the same lookup key changes just that entry of the index. */
  lemma {:induction false} MatchingReplace<T, I, K>(rows: seq<T>, id: T -> I, key: T -> K, row: T, x: K)
    requires forall r :: r in rows && id(r) == id(row) ==> key(r) == key(row)
    ensures Matching(Replace(rows, id, row), key, x) == if x == key(row) then Replace(Matching(rows, key, x), id, row) else Matching(rows, key, x)
  {
    if rows != [] {
      var n := |rows| - 1;
      assert rows == rows[..n] + [rows[n]];
      MatchingReplace(rows[..n], id, key, row, x);
      var rest := Replace(rows[..n], id, row);
      var last := if id(rows[n]) == id(row) then row else rows[n];
      assert rows[n] in rows;
      MatchingAppend(rest, key, last, x);
      ReplaceAppend(Matching(rows[..n], key, x), id, row, rows[n]);
    }
  }

  lemma ReplaceAppend<T, K>(rows: seq<T>, key: T -> K, row: T, last: T)
    ensures Replace(rows + [last], key, row) == Replace(rows, key, row) + [if key(last) == key(row) then row else last]
    ensures rows + [] == rows
  {
    assert (rows + [last])[..|rows|] == rows;
  }

  lemma {:induction false} NoneReplaced<T, K>(rows: seq<T>, key: T -> K, row: T)
    requires forall r :: r in rows ==> key(r) != key(row)
    ensures Replace(rows, key, row) == rows
  {
    if rows != [] {
      var n := |rows| - 1;
      assert rows == rows[..n] + [rows[n]];
      NoneReplaced(rows[..n], key, row);
    }
  }

  lemma {:induction false} NoneWithout<T, K>(rows: seq<T>, key: T -> K, x: K)
    requires forall r :: r in rows ==> key(r) != x
    ensures Without(rows, key, x) == rows
  {
    if rows != [] {
      var n := |rows| - 1;
      assert rows == rows[..n] + [rows[n]];
      NoneWithout(rows[..n], key, x);
    }
  }

  lemma {:induction false} WithoutMembers<T, K>(rows: seq<T>, key: T -> K, x: K)
    ensures forall row :: row in Without(rows, key, x) <==> row in rows && key(row) != x
  {
    if rows != [] {
      var n := |rows| - 1;
      WithoutMembers(rows[..n], key, x);
      assert rows == rows[..n] + [rows[n]];
    }
  }

  lemma {:induction false} LeftAt<T, K>(rows: seq<T>, key: T -> K, x: K, i: nat) returns (k: nat)
    requires i < |Without(rows, key, x)|
    ensures k < |rows| && rows[k] == Without(rows, key, x)[i]
  {
    k := |rows| - 1;
    if i < |Without(rows[..k], key, x)| {
      k := LeftAt(rows[..k], key, x, i);
    }
  }

  lemma {:induction false} WithoutUnique<T, I, K>(rows: seq<T>, id: T -> I, key: T -> K, x: I)
    requires Unique(rows, key)
    ensures Unique(Without(rows, id, x), key)
  {
    if rows != [] {
      var n := |rows| - 1;
      WithoutUnique(rows[..n], id, key, x);
      var rest := Without(rows[..n], id, x);
      forall i | 0 <= i < |rest|
        ensures key(rest[i]) != key(rows[n])
      {
        var k := LeftAt(rows[..n], id, x, i);
        assert key(rows[k]) != key(rows[n]);
      }
    }
  }
}
