/** Bookkeeping for writing a list of source records into a table, one index entry at a time. */
module Writes {
  import opened Rows

  /** `sources` have been written: each one not skipped has a single row, found in `rowOf`, that is as `written` demands,
    * and no other entry of the index changed. */
  ghost predicate Done<S(!new), R(!new), K(!new)>(sources: seq<S>, sid: S -> K, skip: S -> bool, written: (S, R) -> bool,
                                         key: R -> K, before: seq<R>, now: seq<R>, rowOf: map<K, R>)
  {
    && (forall s :: s in sources && skip(s) ==> sid(s) !in rowOf && Matching(now, key, sid(s)) == Matching(before, key, sid(s)))
    && (forall s :: s in sources && !skip(s) ==> sid(s) in rowOf && Matching(now, key, sid(s)) == [rowOf[sid(s)]] && written(s, rowOf[sid(s)]))
    && (forall x :: x in rowOf ==> exists s :: s in sources && sid(s) == x)
    && (forall x :: (forall s :: s in sources ==> sid(s) != x) ==> Matching(now, key, x) == Matching(before, key, x))
  }

  /** Rows are only overwritten in place, under the same key, or appended with new identifiers. */
  ghost predicate Grown<R(!new), K>(before: seq<R>, now: seq<R>, id: R -> nat, key: R -> K, floor: nat) {
    && |before| <= |now|
    && (forall i :: 0 <= i < |before| ==> id(now[i]) == id(before[i]) && key(now[i]) == key(before[i]))
    && (forall i :: |before| <= i < |now| ==> id(now[i]) >= floor)
  }

  lemma {:induction false} GrownTwice<R(!new), K>(before: seq<R>, now: seq<R>, next: seq<R>, id: R -> nat, key: R -> K, floor: nat)
    requires Grown(before, now, id, key, floor) && Grown(now, next, id, key, floor)
    ensures Grown(before, next, id, key, floor)
  {
    forall i | |before| <= i < |next|
      ensures id(next[i]) >= floor
    {
      if i < |now| {
        assert id(next[i]) == id(now[i]);
      }
    }
  }

  /** A row whose key was not there before is a new one. */
  lemma NewRow<R(!new), K(!new)>(before: seq<R>, now: seq<R>, id: R -> nat, key: R -> K, floor: nat, row: R)
    requires Grown(before, now, id, key, floor) && row in now && Matching(before, key, key(row)) == []
    ensures id(row) >= floor
  {
    var i :| 0 <= i < |now| && now[i] == row;
    MatchingMembers(before, key, key(row));
    assert forall k :: 0 <= k < |before| ==> before[k] in before;
  }

  /** `s` is written as `row`, and no other entry changes from `now` to `next`. */
  lemma OneMore<S(!new), R(!new), K(!new)>(sources: seq<S>, s: S, sid: S -> K, skip: S -> bool, written: (S, R) -> bool,
                                  key: R -> K, before: seq<R>, now: seq<R>, next: seq<R>, rowOf: map<K, R>, row: R)
    requires Done(sources, sid, skip, written, key, before, now, rowOf)
    requires forall t :: t in sources ==> sid(t) != sid(s)
    requires !skip(s) && written(s, row) && Matching(next, key, sid(s)) == [row]
    requires forall x :: x != sid(s) ==> Matching(next, key, x) == Matching(now, key, x)
    ensures Done(sources + [s], sid, skip, written, key, before, next, rowOf[sid(s) := row])
  {
    hide Matching;
    var all, rowOf' := sources + [s], rowOf[sid(s) := row];
    assert forall t :: t in all <==> t in sources || t == s;
    assert s in all;
    forall t | t in all && !skip(t)
      ensures sid(t) in rowOf' && Matching(next, key, sid(t)) == [rowOf'[sid(t)]] && written(t, rowOf'[sid(t)])
    {
    }
    forall x | x in rowOf'
      ensures exists t :: t in all && sid(t) == x
    {
      if x != sid(s) {
        var t :| t in sources && sid(t) == x;
        assert t in all;
      }
    }
    forall x | forall t :: t in all ==> sid(t) != x
      ensures Matching(next, key, x) == Matching(before, key, x)
    {
      assert sid(s) != x;
      assert forall t :: t in sources ==> t in all;
    }
  }

  lemma OneSkipped<S(!new), R(!new), K(!new)>(sources: seq<S>, s: S, sid: S -> K, skip: S -> bool, written: (S, R) -> bool,
                                     key: R -> K, before: seq<R>, now: seq<R>, rowOf: map<K, R>)
    requires Done(sources, sid, skip, written, key, before, now, rowOf)
    requires forall t :: t in sources ==> sid(t) != sid(s)
    requires skip(s)
    ensures Done(sources + [s], sid, skip, written, key, before, now, rowOf)
  {
    hide Matching;
    var all := sources + [s];
    assert forall t :: t in all <==> t in sources || t == s;
    forall x | x in rowOf
      ensures exists t :: t in all && sid(t) == x
    {
      var t :| t in sources && sid(t) == x;
      assert t in all;
    }
    forall x | forall t :: t in all ==> sid(t) != x
      ensures Matching(now, key, x) == Matching(before, key, x)
    {
      assert forall t :: t in sources ==> t in all;
    }
  }

  /** Appending a row changes the entry of its key only. */
  lemma Appended<R(!new), K(!new)>(now: seq<R>, id: R -> nat, key: R -> K, row: R)
    requires Unique(now, id) && forall r :: r in now ==> id(r) != id(row)
    ensures Unique(now + [row], id)
    ensures Matching(now + [row], key, key(row)) == Matching(now, key, key(row)) + [row]
    ensures forall x :: x != key(row) ==> Matching(now + [row], key, x) == Matching(now, key, x)
  {
    forall x
      ensures Matching(now + [row], key, x) == Matching(now, key, x) + (if key(row) == x then [row] else [])
    {
      MatchingAppend(now, key, row, x);
    }
    forall i | 0 <= i < |now|
      ensures id(now[i]) != id(row)
    {
      assert now[i] in now;
    }
  }

  /** Overwriting a row under the same key changes the entry of that key only. */
  lemma Overwritten<R(!new), K(!new)>(now: seq<R>, id: R -> nat, key: R -> K, current: R, row: R)
    requires Unique(now, id) && id(row) == id(current) && key(row) == key(current)
    requires Matching(now, key, key(current)) == [current]
    ensures Unique(Replace(now, id, row), id)
    ensures Matching(Replace(now, id, row), key, key(row)) == [row]
    ensures forall x :: x != key(row) ==> Matching(Replace(now, id, row), key, x) == Matching(now, key, x)
    ensures forall floor :: Grown(now, Replace(now, id, row), id, key, floor)
  {
    MatchingMembers(now, key, key(current));
    assert current in Matching(now, key, key(current));
    UniqueMember(now, id, current);
    ReplaceShape(now, id, row);
    forall x
      ensures Matching(Replace(now, id, row), key, x) == if x == key(row) then Replace(Matching(now, key, x), id, row) else Matching(now, key, x)
    {
      MatchingReplace(now, id, key, row, x);
    }
    assert [current][..0] == [];
    assert Replace([current], id, row) == [row];
    forall i | 0 <= i < |now|
      ensures key(Replace(now, id, row)[i]) == key(now[i])
    {
      assert now[i] in now;
    }
  }

  /** A person's row keeps being found by its identifier, under the same key. */
  lemma {:induction false} GrownFirst<R(!new), K>(before: seq<R>, now: seq<R>, id: R -> nat, key: R -> K, floor: nat, x: nat)
    requires Grown(before, now, id, key, floor) && First(before, id, x) != []
    ensures First(now, id, x) != [] && key(First(now, id, x)[0]) == key(First(before, id, x)[0])
  {
    if id(before[0]) != x {
      GrownFirst(before[1..], now[1..], id, key, floor, x);
    }
  }
}
