/** Previewing a committed document again. */
module RosterFixedPoint {
  import opened Contract
  import opened Counting
  import opened Rows
  import opened Roster
  import opened RosterPreview
  import opened Database
  import opened Writes
  import opened RosterCommit
  import opened RosterImport

  /** Nothing is left to import: conflicts stay, everything else is unchanged, and no edge of an imported adult would go. */
  ghost predicate Settled(doc: Document, st: Snapshot, after: Snapshot, adultOf: map<string, Adult>) {
    && (forall a :: a in doc.adults ==> AdultOutcome(after, a) == Settle(AdultOutcome(st, a)))
    && (forall s :: s in doc.students ==> StudentOutcome(after, s) == Settle(StudentOutcome(st, s)))
    && (forall e :: e in doc.edges ==> EdgeOutcome(doc, after, e) == Settle(EdgeOutcome(doc, st, e)))
    && (forall r :: r in after.relationships && Omitted(doc, after, r) ==> StoredKey(after, r).0 !in adultOf)
  }

  /** The last row of an edge's adult lists it. A document that gives an adult a second row without the edge does not. */
  ghost predicate Covered(doc: Document, e: SourceEdge) {
    SourceEdgeKey(e) in SourceEdges(doc.rows, e.adultId)
  }

  ghost predicate LiveCovered(doc: Document, st: Snapshot) {
    forall e :: e in doc.edges && EdgeOutcome(doc, st, e) != Conflict ==> Covered(doc, e)
  }

  lemma AdultSettles(doc: Document, st: Snapshot, after: Snapshot, rowOf: map<string, Adult>, a: SourceAdult)
    requires WellFormed(doc) && a in doc.adults && AdultOutcome(st, a) != Error
    requires AdultsDone(st, doc.adults, after.adults, rowOf)
    ensures AdultOutcome(after, a) == Settle(AdultOutcome(st, a))
    ensures a.id in rowOf ==> Matching(after.adults, AdultKey, a.id) == [rowOf[a.id]] && !rowOf[a.id].deleted
  {
    AdultCases(st, a);
    hide Matching, AdultKey;
  }

  lemma StudentSettles(doc: Document, st: Snapshot, after: Snapshot, rowOf: map<string, Student>, s: SourceStudent)
    requires WellFormed(doc) && s in doc.students && StudentOutcome(st, s) != Error
    requires StudentsDone(st, doc.students, after.students, rowOf) && after.homerooms == st.homerooms
    ensures StudentOutcome(after, s) == Settle(StudentOutcome(st, s))
    ensures s.id in rowOf ==> Matching(after.students, StudentKey, s.id) == [rowOf[s.id]] && !rowOf[s.id].deleted
  {
    StudentCases(st, s);
    hide Matching, StudentKey, ResolveHomeroom;
  }

  /** A stored edge between the people of a live edge carries that edge's key, before the commit and after. */
  lemma KeyOfPair(doc: Document, st: Snapshot, after: Snapshot, adultOf: map<string, Adult>, studentOf: map<string, Student>,
                  floor: nat, e: SourceEdge, r: Relationship)
    requires Consistent(st.adults, st.students, st.relationships, floor)
    requires PeopleDone(doc, st, after.adults, after.students, adultOf, studentOf, floor)
    requires e in doc.edges && EdgeOutcome(doc, st, e) != Conflict && EdgeIds(r) == PairOf(adultOf, studentOf, e)
    ensures StoredKey(after, r) == SourceEdgeKey(e)
    ensures r in st.relationships ==> StoredKey(st, r) == SourceEdgeKey(e)
  {
    hide EdgeOutcome, AdultsDone, StudentsDone, Grown, AdultKey, StudentKey, Matching, WellFormed, First;
    LiveEdge(doc, st, after.adults, after.students, adultOf, studentOf, floor, e);
    FirstUnique(after.adults, AdultId, adultOf[e.adultId]);
    FirstUnique(after.students, StudentId, studentOf[e.studentId]);
    if r in st.relationships {
      var a, s := EdgeEnds(doc, st, e);
      WrittenAdult(doc, st, after.adults, adultOf, floor, a);
      WrittenStudent(doc, st, after.students, studentOf, floor, s);
      MatchingHead(st.adults, AdultKey, a.id);
      MatchingHead(st.students, StudentKey, s.id);
      FirstUnique(st.adults, AdultId, Matching(st.adults, AdultKey, a.id)[0]);
      FirstUnique(st.students, StudentId, Matching(st.students, StudentKey, s.id)[0]);
    }
  }

  /** A stored edge that was there before keeps its key. */
  lemma KeyKept(st: Snapshot, after: Snapshot, floor: nat, r: Relationship)
    requires Grown(st.adults, after.adults, AdultId, AdultKey, floor) && Grown(st.students, after.students, StudentId, StudentKey, floor)
    requires r.adultId < floor && r.studentId < floor
    ensures StoredKey(after, r) == StoredKey(st, r)
  {
    hide AdultKey, StudentKey;
    OldFirst(st.adults, after.adults, AdultId, AdultKey, floor, r.adultId);
    OldFirst(st.students, after.students, StudentId, StudentKey, floor, r.studentId);
  }

  lemma OldFirst<R(!new)>(before: seq<R>, now: seq<R>, id: R -> nat, key: R -> string, floor: nat, x: nat)
    requires Grown(before, now, id, key, floor) && x < floor
    ensures First(now, id, x) == [] <==> First(before, id, x) == []
    ensures First(before, id, x) != [] ==> key(First(now, id, x)[0]) == key(First(before, id, x)[0])
  {
    FirstMember(before, id, x);
    FirstMember(now, id, x);
    if First(before, id, x) != [] {
      GrownFirst(before, now, id, key, floor, x);
    } else {
      forall row | row in now
        ensures id(row) != x
      {
        var i :| 0 <= i < |now| && now[i] == row;
        assert i < |before| ==> before[i] in before;
      }
    }
  }

  /** The written row of a live edge is still there after the removals exactly unless an omitted stored edge joined the
    * same people. */
  lemma RowSurvives(doc: Document, st: Snapshot, after: Snapshot, floor: nat, adultOf: map<string, Adult>, studentOf: map<string, Student>,
                    written: seq<Relationship>, rowOf: map<(nat, nat), Relationship>, e: SourceEdge)
    requires Consistent(st.adults, st.students, st.relationships, floor)
    requires Applied(doc, st, after, floor, adultOf, studentOf, written, rowOf)
    requires e in doc.edges && EdgeOutcome(doc, st, e) != Conflict
    ensures var pair := PairOf(adultOf, studentOf, e);
            pair in rowOf && EdgeIds(rowOf[pair]) == pair && rowOf[pair].kind == e.kind && rowOf[pair] in written
            && (Covered(doc, e) ==> rowOf[pair] in after.relationships)
            && (forall r :: r in after.relationships && EdgeIds(r) == pair ==> r == rowOf[pair])
  {
    hide EdgeOutcome, PeopleDone, Matching, PairOf, StoredKey, SourceEdges;
    var pair := PairOf(adultOf, studentOf, e);
    LiveMembers(doc, st, doc.edges);
    assert e in Live(doc, st, doc.edges);
    MatchingMembers(written, EdgeIds, pair);
    var row := rowOf[pair];
    assert row in Matching(written, EdgeIds, pair);
    if Covered(doc, e) {
      forall gone | Deleted(doc, st, adultOf, gone)
        ensures gone.id != row.id
      {
        StillThere(st, Live(doc, st, doc.edges), written, adultOf, studentOf, rowOf, gone);
        var there :| there in written && there.id == gone.id && EdgeIds(there) == EdgeIds(gone);
        UniqueMember(written, RelationshipId, row);
        if gone.id == row.id {
          KeyOfPair(doc, st, after, adultOf, studentOf, floor, e, gone);
        }
      }
    }
  }

  /** An edge of the document, previewed against the committed state. */
  lemma EdgeAfter(doc: Document, st: Snapshot, after: Snapshot, floor: nat, adultOf: map<string, Adult>, studentOf: map<string, Student>,
                  written: seq<Relationship>, rowOf: map<(nat, nat), Relationship>, e: SourceEdge)
    requires Consistent(st.adults, st.students, st.relationships, floor) && NoErrors(doc, st)
    requires Applied(doc, st, after, floor, adultOf, studentOf, written, rowOf) && Unique(after.relationships, EdgeIds)
    requires e in doc.edges
    ensures EdgeOutcome(doc, st, e) == Conflict ==> EdgeOutcome(doc, after, e) == Conflict
    ensures EdgeOutcome(doc, st, e) != Conflict ==>
      var pair := PairOf(adultOf, studentOf, e);
      pair in rowOf && EdgeOutcome(doc, after, e) == if rowOf[pair] in after.relationships then Unchanged else Create
  {
    hide AdultOutcome, StudentOutcome, Matching, AdultsDone, StudentsDone, EdgesDone, Grown, WellFormed, Covered, Deleted, AdultMap, StudentMap;
    var a, s := EdgeEnds(doc, st, e);
    AdultSettles(doc, st, after, adultOf, a);
    StudentSettles(doc, st, after, studentOf, s);
    AdultMapLooksUp(doc, after, a, s);
    WrittenAdult(doc, st, after.adults, adultOf, floor, a);
    WrittenStudent(doc, st, after.students, studentOf, floor, s);
    LiveEdge(doc, st, after.adults, after.students, adultOf, studentOf, floor, e);
    if EdgeOutcome(doc, st, e) != Conflict {
      RowSurvives(doc, st, after, floor, adultOf, studentOf, written, rowOf, e);
      var pair := PairOf(adultOf, studentOf, e);
      MatchingHead(after.relationships, EdgeIds, pair);
      MatchingUnique(after.relationships, EdgeIds, pair);
      if rowOf[pair] in after.relationships {
        MatchingOne(after.relationships, EdgeIds, rowOf[pair]);
      }
    }
  }

  lemma AdultMapLooksUp(doc: Document, st: Snapshot, a: SourceAdult, s: SourceStudent)
    requires WellFormed(doc) && a in doc.adults && s in doc.students
    ensures Lookup(AdultMap(st, doc.adults), a.id) == Some(AdultOutcome(st, a))
    ensures Lookup(StudentMap(st, doc.students), s.id) == Some(StudentOutcome(st, s))
  {
    AdultMapValues(st, doc.adults, a);
    StudentMapValues(st, doc.students, s);
  }

  /** When the live edges are covered, what the rows still omit belongs to adults in conflict. */
  lemma NothingToRemove(doc: Document, st: Snapshot, after: Snapshot, floor: nat, adultOf: map<string, Adult>, studentOf: map<string, Student>,
                        written: seq<Relationship>, rowOf: map<(nat, nat), Relationship>, r: Relationship)
    requires Consistent(st.adults, st.students, st.relationships, floor)
    requires Applied(doc, st, after, floor, adultOf, studentOf, written, rowOf) && LiveCovered(doc, st)
    requires r in after.relationships && Omitted(doc, after, r)
    ensures StoredKey(after, r).0 !in adultOf
  {
    hide EdgeOutcome, Matching, StoredKey, SourceEdges, AdultsDone, StudentsDone, Grown, PairOf, WellFormed, Represented;
    LiveMembers(doc, st, doc.edges);
    var pair := EdgeIds(r);
    if e :| e in Live(doc, st, doc.edges) && PairOf(adultOf, studentOf, e) == pair {
      KeyOfPair(doc, st, after, adultOf, studentOf, floor, e, r);
      assert Covered(doc, e);
    } else {
      MatchingMembers(written, EdgeIds, pair);
      MatchingMembers(st.relationships, EdgeIds, pair);
      assert r in Matching(written, EdgeIds, pair);
      assert r in Matching(st.relationships, EdgeIds, pair);
      KeyKept(st, after, floor, r);
      assert !Deleted(doc, st, adultOf, r);
    }
  }

  /** A live edge its adult's last row does not list is the very edge the second preview stumbles over. */
  lemma UncoveredUnsettles(doc: Document, st: Snapshot, after: Snapshot, floor: nat, adultOf: map<string, Adult>, studentOf: map<string, Student>,
                           written: seq<Relationship>, rowOf: map<(nat, nat), Relationship>, e: SourceEdge)
    requires Consistent(st.adults, st.students, st.relationships, floor) && NoErrors(doc, st) && Complete(doc)
    requires Applied(doc, st, after, floor, adultOf, studentOf, written, rowOf) && Unique(after.relationships, EdgeIds)
    requires e in doc.edges && EdgeOutcome(doc, st, e) != Conflict && !Covered(doc, e)
    ensures !Settled(doc, st, after, adultOf)
  {
    hide EdgeOutcome, Matching, StoredKey, SourceEdges, AdultsDone, StudentsDone, EdgesDone, Grown, AdultOutcome, StudentOutcome, AdultKey, StudentKey;
    EdgeAfter(doc, st, after, floor, adultOf, studentOf, written, rowOf, e);
    RowSurvives(doc, st, after, floor, adultOf, studentOf, written, rowOf, e);
    var row := rowOf[PairOf(adultOf, studentOf, e)];
    if row in after.relationships {
      KeyOfPair(doc, st, after, adultOf, studentOf, floor, e, row);
      LiveEdge(doc, st, after.adults, after.students, adultOf, studentOf, floor, e);
      var a, s := EdgeEnds(doc, st, e);
      assert AdultShown(doc, a.id);
      assert Omitted(doc, after, row);
    }
  }

  /** Previewing a committed document again finds nothing to do, exactly when the last row of every adult lists that
    * adult's edges. */
  lemma SettledIff(doc: Document, st: Snapshot, after: Snapshot, floor: nat, adultOf: map<string, Adult>, studentOf: map<string, Student>,
                   written: seq<Relationship>, rowOf: map<(nat, nat), Relationship>)
    requires Consistent(st.adults, st.students, st.relationships, floor) && NoErrors(doc, st) && Complete(doc)
    requires Applied(doc, st, after, floor, adultOf, studentOf, written, rowOf) && Unique(after.relationships, EdgeIds)
    ensures Settled(doc, st, after, adultOf) <==> LiveCovered(doc, st)
  {
    hide AdultOutcome, StudentOutcome, EdgeOutcome, AdultsDone, StudentsDone, EdgesDone, Grown, Covered, WellFormed, StoredKey, Omitted, Deleted, Complete, Unique;
    if LiveCovered(doc, st) {
      forall a | a in doc.adults
        ensures AdultOutcome(after, a) == Settle(AdultOutcome(st, a))
      {
        AdultSettles(doc, st, after, adultOf, a);
      }
      forall s | s in doc.students
        ensures StudentOutcome(after, s) == Settle(StudentOutcome(st, s))
      {
        StudentSettles(doc, st, after, studentOf, s);
      }
      forall e | e in doc.edges
        ensures EdgeOutcome(doc, after, e) == Settle(EdgeOutcome(doc, st, e))
      {
        EdgeAfter(doc, st, after, floor, adultOf, studentOf, written, rowOf, e);
        if EdgeOutcome(doc, st, e) != Conflict {
          RowSurvives(doc, st, after, floor, adultOf, studentOf, written, rowOf, e);
        }
      }
      forall r | r in after.relationships && Omitted(doc, after, r)
        ensures StoredKey(after, r).0 !in adultOf
      {
        NothingToRemove(doc, st, after, floor, adultOf, studentOf, written, rowOf, r);
      }
    } else {
      var e :| e in doc.edges && EdgeOutcome(doc, st, e) != Conflict && !Covered(doc, e);
      UncoveredUnsettles(doc, st, after, floor, adultOf, studentOf, written, rowOf, e);
    }
  }

  // ---- when the condition holds, and the counts ----

  /** Rows list their own adult's edges, and no adult has two rows. */
  ghost predicate OneRowEach(doc: Document) {
    && (forall row, e :: row in doc.rows && e in row.edges ==> e.adultId == row.adult)
    && (forall i, j :: 0 <= i < j < |doc.rows| ==> doc.rows[i].adult != doc.rows[j].adult)
  }

  lemma {:induction false} OnlyRow(rows: seq<SourceRow>, i: nat)
    requires i < |rows| && forall j :: i < j < |rows| ==> rows[j].adult != rows[i].adult
    ensures SourceEdges(rows, rows[i].adult) == set e | e in rows[i].edges :: SourceEdgeKey(e)
  {
    if i < |rows| - 1 {
      OnlyRow(rows[..|rows| - 1], i);
    }
  }

  /** With one row for each adult, a complete document always settles. */
  lemma OneRowCovers(doc: Document, st: Snapshot)
    requires OneRowEach(doc) && Complete(doc)
    ensures LiveCovered(doc, st)
  {
    hide EdgeOutcome;
    forall e | e in doc.edges
      ensures Covered(doc, e)
    {
      assert EdgeShown(doc, e);
      var row, f :| row in doc.rows && RetainedRow(doc, row) && f in row.edges && SourceEdgeKey(f) == SourceEdgeKey(e);
      var i :| 0 <= i < |doc.rows| && doc.rows[i] == row;
      OnlyRow(doc.rows, i);
    }
  }

  lemma SettledTally<K>(m: map<K, Outcome>, n: map<K, Outcome>)
    requires m.Keys == n.Keys && forall k :: k in m ==> m[k] != Error && n[k] == Settle(m[k])
    ensures Tally(n, Unchanged) == Tally(m, Create) + Tally(m, Update) + Tally(m, Unchanged)
    ensures Tally(n, Conflict) == Tally(m, Conflict) && Tally(n, Create) == Tally(n, Update) == Tally(n, Error) == 0
  {
    SettledSets(m, n);
    UnionSize(Having(m, Create), Having(m, Update));
    UnionSize(Having(m, Create) + Having(m, Update), Having(m, Unchanged));
    hide Settle;
    assert forall o :: Tally(m, o) == |Having(m, o)| && Tally(n, o) == |Having(n, o)|;
  }

  lemma SettledSets<K>(m: map<K, Outcome>, n: map<K, Outcome>)
    requires m.Keys == n.Keys && forall k :: k in m ==> m[k] != Error && n[k] == Settle(m[k])
    ensures Having(n, Unchanged) == Having(m, Create) + Having(m, Update) + Having(m, Unchanged)
    ensures Having(n, Conflict) == Having(m, Conflict)
    ensures Having(n, Create) == {} && Having(n, Update) == {} && Having(n, Error) == {}
  {
  }

  lemma {:induction false} AdultMapSettles(doc: Document, st: Snapshot, after: Snapshot)
    requires WellFormed(doc) && NoErrors(doc, st)
    requires forall a :: a in doc.adults ==> AdultOutcome(after, a) == Settle(AdultOutcome(st, a))
    requires forall s :: s in doc.students ==> StudentOutcome(after, s) == Settle(StudentOutcome(st, s))
    requires forall e :: e in doc.edges ==> EdgeOutcome(doc, after, e) == Settle(EdgeOutcome(doc, st, e))
    ensures var m, n := AdultMap(st, doc.adults), AdultMap(after, doc.adults);
            m.Keys == n.Keys && forall k :: k in m ==> m[k] != Error && n[k] == Settle(m[k])
    ensures var m, n := StudentMap(st, doc.students), StudentMap(after, doc.students);
            m.Keys == n.Keys && forall k :: k in m ==> m[k] != Error && n[k] == Settle(m[k])
    ensures var m, n := EdgeMap(doc, st, doc.edges), EdgeMap(doc, after, doc.edges);
            m.Keys == n.Keys && forall k :: k in m ==> m[k] != Error && n[k] == Settle(m[k])
  {
    hide AdultOutcome, StudentOutcome, EdgeOutcome, AdultMap, StudentMap, EdgeMap;
    AdultMapKeys(st, doc.adults);
    AdultMapKeys(after, doc.adults);
    StudentMapKeys(st, doc.students);
    StudentMapKeys(after, doc.students);
    EdgeMapKeys(doc, st, doc.edges);
    EdgeMapKeys(doc, after, doc.edges);
    forall a | a in doc.adults
      ensures a.id in AdultMap(st, doc.adults) && AdultMap(st, doc.adults)[a.id] == AdultOutcome(st, a)
      ensures a.id in AdultMap(after, doc.adults) && AdultMap(after, doc.adults)[a.id] == AdultOutcome(after, a)
    {
      AdultMapValues(st, doc.adults, a);
      AdultMapValues(after, doc.adults, a);
    }
    forall s | s in doc.students
      ensures s.id in StudentMap(st, doc.students) && StudentMap(st, doc.students)[s.id] == StudentOutcome(st, s)
      ensures s.id in StudentMap(after, doc.students) && StudentMap(after, doc.students)[s.id] == StudentOutcome(after, s)
    {
      StudentMapValues(st, doc.students, s);
      StudentMapValues(after, doc.students, s);
    }
    forall e | e in doc.edges
      ensures SourceEdgeKey(e) in EdgeMap(doc, st, doc.edges) && EdgeMap(doc, st, doc.edges)[SourceEdgeKey(e)] == EdgeOutcome(doc, st, e)
      ensures SourceEdgeKey(e) in EdgeMap(doc, after, doc.edges) && EdgeMap(doc, after, doc.edges)[SourceEdgeKey(e)] == EdgeOutcome(doc, after, e)
    {
      EdgeMapValues(doc, st, doc.edges, e);
      EdgeMapValues(doc, after, doc.edges, e);
    }
  }

  /** A settled preview counts as unchanged whatever the first one would create, update or leave. */
  lemma SettledCounts(doc: Document, st: Snapshot, after: Snapshot, adultOf: map<string, Adult>)
    requires WellFormed(doc) && NoErrors(doc, st) && Settled(doc, st, after, adultOf)
    ensures var c := AllCounts(doc, st); AllCounts(doc, after) == Counts(0, 0, c.created + c.updated + c.kept, c.conflicts, 0)
  {
    hide AdultOutcome, StudentOutcome, EdgeOutcome, AdultMap, StudentMap, EdgeMap, Tally, WellFormed, Omitted, StoredKey;
    AdultMapSettles(doc, st, after);
    SettledTally(AdultMap(st, doc.adults), AdultMap(after, doc.adults));
    SettledTally(StudentMap(st, doc.students), StudentMap(after, doc.students));
    SettledTally(EdgeMap(doc, st, doc.edges), EdgeMap(doc, after, doc.edges));
  }

  /** Committing a document and previewing it again: the whole round. */
  method CommitThenPreview(tx: Tx, doc: Document) returns (first: CommitResult, second: Preview, ghost adultOf: map<string, Adult>)
    requires tx.Valid() && WellFormed(doc)
    modifies tx
    ensures tx.Valid() && tx.hidden == old(tx.hidden)
    ensures first.Committed? <==> NoErrors(doc, old(tx.State())) && Complete(doc) && NoneBarred(doc, old(tx.State()))
    ensures second.counts == AllCounts(doc, tx.State()) && second.removals == Removals(doc, tx.State(), tx.relationships)
    ensures first.Committed? ==> (Settled(doc, old(tx.State()), tx.State(), adultOf) <==> LiveCovered(doc, old(tx.State())))
    ensures first.Committed? && LiveCovered(doc, old(tx.State())) ==>
              var c := first.preview.counts; second.counts == Counts(0, 0, c.created + c.updated + c.kept, c.conflicts, 0)
    ensures first.Committed? && OneRowEach(doc) ==> LiveCovered(doc, old(tx.State()))
  {
    hide NoErrors, Complete, NoneBarred, Applied, AllCounts, WellFormed, RowsShown, RowsList, Removals, Settled, LiveCovered, OneRowEach,
         Consistent, Parted, Registered;
    ghost var st, floor := tx.State(), tx.nextId;
    ghost var studentOf, written, rowOf;
    first, adultOf, studentOf, written, rowOf := Commit(tx, doc);
    second := ClassifyRoster(doc, tx.State());
    if first.Committed? {
      UniqueEdges(tx.adults, tx.students, tx.relationships, tx.hidden, tx.nextId);
      if OneRowEach(doc) {
        OneRowCovers(doc, st);
      }
      SettledIff(doc, st, tx.State(), floor, adultOf, studentOf, written, rowOf);
      if LiveCovered(doc, st) {
        SettledCounts(doc, st, tx.State(), adultOf);
      }
    }
  }
}
