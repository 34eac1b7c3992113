/** The whole roster import: edges, removals, and the commit that applies everything or nothing. */
module RosterImport {
  import opened Contract
  import opened Rows
  import opened Roster
  import opened RosterPreview
  import opened Database
  import opened Writes
  import opened RosterCommit
  import opened RosterKept

  // ---- edges ----

  /** The stored pair an edge stands for, once its people are written. */
  ghost function PairOf(adults: map<string, Adult>, students: map<string, Student>, e: SourceEdge): (nat, nat) {
    if e.adultId in adults && e.studentId in students then (adults[e.adultId].id, students[e.studentId].id) else (0, 0)
  }

  /** The edges that are not in conflict. */
  ghost function Live(doc: Document, st: Snapshot, edges: seq<SourceEdge>): seq<SourceEdge> {
    if edges == [] then []
    else
      var last := edges[|edges| - 1];
      Live(doc, st, edges[..|edges| - 1]) + (if EdgeOutcome(doc, st, last) == Conflict then [] else [last])
  }

  ghost predicate EdgeWritten(st: Snapshot, pair: (nat, nat), e: SourceEdge, row: Relationship) {
    var matches := Matching(st.relationships, EdgeIds, pair);
    row.kind == e.kind && EdgeIds(row) == pair && (matches != [] ==> matches[0].id == row.id)
  }

  ghost predicate EdgesDone(st: Snapshot, live: seq<SourceEdge>, now: seq<Relationship>, adults: map<string, Adult>,
                            students: map<string, Student>, rowOf: map<(nat, nat), Relationship>)
  {
    Done(live, e => PairOf(adults, students, e), e => false, (e, row) => EdgeWritten(st, PairOf(adults, students, e), e, row),
         EdgeIds, st.relationships, now, rowOf)
  }

  /** An adult not in conflict: their row, and how it relates to the snapshot. */
  lemma WrittenAdult(doc: Document, st: Snapshot, now: seq<Adult>, rowOf: map<string, Adult>, floor: nat, a: SourceAdult)
    requires WellFormed(doc) && a in doc.adults
    requires AdultsDone(st, doc.adults, now, rowOf) && Grown(st.adults, now, AdultId, AdultKey, floor)
    requires AdultOutcome(st, a) != Error
    ensures a.id in rowOf <==> AdultOutcome(st, a) != Conflict
    ensures a.id in rowOf ==> rowOf[a.id] in now && AdultKey(rowOf[a.id]) == a.id && !rowOf[a.id].deleted
    ensures a.id in rowOf ==> var matches := Matching(st.adults, AdultKey, a.id);
                              if matches == [] then rowOf[a.id].id >= floor else |matches| == 1 && matches[0].id == rowOf[a.id].id && !matches[0].deleted
  {
    AdultCases(st, a);
    hide AdultOutcome, Grown;
    if AdultOutcome(st, a) != Conflict {
      MatchingMembers(now, AdultKey, a.id);
      assert rowOf[a.id] in Matching(now, AdultKey, a.id);
      if Matching(st.adults, AdultKey, a.id) == [] {
        NewRow(st.adults, now, AdultId, AdultKey, floor, rowOf[a.id]);
      }
    }
  }

  lemma WrittenStudent(doc: Document, st: Snapshot, now: seq<Student>, rowOf: map<string, Student>, floor: nat, s: SourceStudent)
    requires WellFormed(doc) && s in doc.students
    requires StudentsDone(st, doc.students, now, rowOf) && Grown(st.students, now, StudentId, StudentKey, floor)
    requires StudentOutcome(st, s) != Error
    ensures s.id in rowOf <==> StudentOutcome(st, s) != Conflict
    ensures s.id in rowOf ==> rowOf[s.id] in now && StudentKey(rowOf[s.id]) == s.id && !rowOf[s.id].deleted
    ensures s.id in rowOf ==> var matches := Matching(st.students, StudentKey, s.id);
                              && (rowOf[s.id].placeholder <==> matches != [] && matches[0].placeholder)
                              && if matches == [] then rowOf[s.id].id >= floor else |matches| == 1 && matches[0].id == rowOf[s.id].id && !matches[0].deleted
  {
    StudentCases(st, s);
    hide StudentOutcome, Grown;
    if StudentOutcome(st, s) != Conflict {
      MatchingMembers(now, StudentKey, s.id);
      assert rowOf[s.id] in Matching(now, StudentKey, s.id);
      if Matching(st.students, StudentKey, s.id) == [] {
        NewRow(st.students, now, StudentId, StudentKey, floor, rowOf[s.id]);
      }
    }
  }

  /** The student an edge names is stored as a placeholder. */
  ghost predicate EndsAtPlaceholder(st: Snapshot, e: SourceEdge) {
    var matches := Matching(st.students, StudentKey, e.studentId);
    matches != [] && matches[0].placeholder
  }

  /** The preview would create the edge, and the store will not have it. */
  ghost predicate Barred(doc: Document, st: Snapshot, e: SourceEdge) {
    EdgeOutcome(doc, st, e) == Create && EndsAtPlaceholder(st, e)
  }

  ghost predicate NoneBarred(doc: Document, st: Snapshot) {
    forall e :: e in doc.edges ==> !Barred(doc, st, e)
  }

  /** The ends of an edge without error are records of the document. */
  lemma EdgeEnds(doc: Document, st: Snapshot, e: SourceEdge) returns (a: SourceAdult, s: SourceStudent)
    requires WellFormed(doc) && EdgeOutcome(doc, st, e) != Error
    ensures a in doc.adults && a.id == e.adultId && AdultOutcome(st, a) != Error
    ensures s in doc.students && s.id == e.studentId && StudentOutcome(st, s) != Error
    ensures EdgeOutcome(doc, st, e) == ClassifyEdge(e, Some(AdultOutcome(st, a)), Some(StudentOutcome(st, s)),
      Matching(st.adults, AdultKey, e.adultId), Matching(st.students, StudentKey, e.studentId), st.relationships)
  {
    hide AdultOutcome, StudentOutcome, AdultMap, StudentMap;
    AdultMapKeys(st, doc.adults);
    StudentMapKeys(st, doc.students);
    a :| a in doc.adults && a.id == e.adultId;
    s :| s in doc.students && s.id == e.studentId;
    AdultMapValues(st, doc.adults, a);
    StudentMapValues(st, doc.students, s);
  }

  /** What the preview knows about a live edge, in terms of the pair it stands for. */
  lemma LiveEdge(doc: Document, st: Snapshot, adults: seq<Adult>, students: seq<Student>, adultOf: map<string, Adult>,
                 studentOf: map<string, Student>, floor: nat, e: SourceEdge)
    requires WellFormed(doc) && EdgeOutcome(doc, st, e) != Error
    requires AdultsDone(st, doc.adults, adults, adultOf) && Grown(st.adults, adults, AdultId, AdultKey, floor)
    requires StudentsDone(st, doc.students, students, studentOf) && Grown(st.students, students, StudentId, StudentKey, floor)
    requires Unique(st.relationships, EdgeIds)
    requires forall r :: r in st.relationships ==> r.adultId < floor && r.studentId < floor
    ensures EdgeOutcome(doc, st, e) != Conflict <==> e.adultId in adultOf && e.studentId in studentOf
    ensures EdgeOutcome(doc, st, e) != Conflict ==>
      var matches := Matching(st.relationships, EdgeIds, PairOf(adultOf, studentOf, e));
      AdultKey(adultOf[e.adultId]) == e.adultId && StudentKey(studentOf[e.studentId]) == e.studentId
      && adultOf[e.adultId] in adults && studentOf[e.studentId] in students && |matches| <= 1
      && !adultOf[e.adultId].deleted && !studentOf[e.studentId].deleted
      && (studentOf[e.studentId].placeholder <==> EndsAtPlaceholder(st, e))
      && EdgeOutcome(doc, st, e) == if matches == [] then Create else if matches[0].kind == e.kind then Unchanged else Update
  {
    hide AdultOutcome, StudentOutcome, EdgeOutcome, AdultsDone, StudentsDone, Grown, WellFormed, Matching, AdultKey, StudentKey, Unique;
    var a, s := EdgeEnds(doc, st, e);
    WrittenAdult(doc, st, adults, adultOf, floor, a);
    WrittenStudent(doc, st, students, studentOf, floor, s);
    if e.adultId in adultOf && e.studentId in studentOf {
      var pair := PairOf(adultOf, studentOf, e);
      MatchingUnique(st.relationships, EdgeIds, pair);
      NoEdgeOfNewPeople(st.relationships, pair, floor);
    }
  }

  lemma NoEdgeOfNewPeople(relationships: seq<Relationship>, pair: (nat, nat), floor: nat)
    requires forall r :: r in relationships ==> r.adultId < floor && r.studentId < floor
    ensures pair.0 >= floor || pair.1 >= floor ==> Matching(relationships, EdgeIds, pair) == []
  {
    MatchingHead(relationships, EdgeIds, pair);
  }

  /** The facts about the written people that the edges rely on. */
  ghost predicate PeopleDone(doc: Document, st: Snapshot, adults: seq<Adult>, students: seq<Student>, adultOf: map<string, Adult>,
                             studentOf: map<string, Student>, floor: nat)
  {
    && WellFormed(doc)
    && AdultsDone(st, doc.adults, adults, adultOf) && Grown(st.adults, adults, AdultId, AdultKey, floor) && Unique(adults, AdultId)
    && StudentsDone(st, doc.students, students, studentOf) && Grown(st.students, students, StudentId, StudentKey, floor) && Unique(students, StudentId)
    && Unique(st.relationships, EdgeIds)
    && (forall r :: r in st.relationships ==> r.adultId < floor && r.studentId < floor)
    && (forall e :: e in doc.edges ==> EdgeOutcome(doc, st, e) != Error)
  }

  /** Different live edges stand for different pairs. */
  lemma PairsDiffer(doc: Document, st: Snapshot, adults: seq<Adult>, students: seq<Student>, adultOf: map<string, Adult>,
                    studentOf: map<string, Student>, floor: nat, e: SourceEdge, f: SourceEdge)
    requires PeopleDone(doc, st, adults, students, adultOf, studentOf, floor)
    requires e in doc.edges && f in doc.edges && EdgeOutcome(doc, st, e) != Conflict && EdgeOutcome(doc, st, f) != Conflict
    requires PairOf(adultOf, studentOf, e) == PairOf(adultOf, studentOf, f)
    ensures SourceEdgeKey(e) == SourceEdgeKey(f)
  {
    hide EdgeOutcome, AdultsDone, StudentsDone, Grown, AdultKey, StudentKey, Matching;
    LiveEdge(doc, st, adults, students, adultOf, studentOf, floor, e);
    LiveEdge(doc, st, adults, students, adultOf, studentOf, floor, f);
    UniqueMember(adults, AdultId, adultOf[e.adultId]);
    UniqueMember(students, StudentId, studentOf[e.studentId]);
  }

  lemma {:induction false} LiveMembers(doc: Document, st: Snapshot, edges: seq<SourceEdge>)
    ensures forall e :: e in Live(doc, st, edges) <==> e in edges && EdgeOutcome(doc, st, e) != Conflict
  {
    hide EdgeOutcome;
    if edges != [] {
      var n := |edges| - 1;
      LiveMembers(doc, st, edges[..n]);
      assert edges == edges[..n] + [edges[n]];
    }
  }

  lemma UnprocessedEdge(doc: Document, st: Snapshot, adults: seq<Adult>, students: seq<Student>, adultOf: map<string, Adult>,
                        studentOf: map<string, Student>, floor: nat, i: nat, now: seq<Relationship>, rowOf: map<(nat, nat), Relationship>)
    requires PeopleDone(doc, st, adults, students, adultOf, studentOf, floor)
    requires i < |doc.edges| && EdgeOutcome(doc, st, doc.edges[i]) != Conflict
    requires EdgesDone(st, Live(doc, st, doc.edges[..i]), now, adultOf, studentOf, rowOf)
    ensures forall t :: t in Live(doc, st, doc.edges[..i]) ==> PairOf(adultOf, studentOf, t) != PairOf(adultOf, studentOf, doc.edges[i])
    ensures Matching(now, EdgeIds, PairOf(adultOf, studentOf, doc.edges[i])) == Matching(st.relationships, EdgeIds, PairOf(adultOf, studentOf, doc.edges[i]))
  {
    hide EdgeOutcome, AdultsDone, StudentsDone, Grown, Matching;
    var e := doc.edges[i];
    assert e in doc.edges;
    LiveMembers(doc, st, doc.edges[..i]);
    forall t | t in Live(doc, st, doc.edges[..i])
      ensures PairOf(adultOf, studentOf, t) != PairOf(adultOf, studentOf, e)
    {
      var k :| 0 <= k < i && doc.edges[k] == t;
      assert SourceEdgeKey(t) != SourceEdgeKey(e);
      if PairOf(adultOf, studentOf, t) == PairOf(adultOf, studentOf, e) {
        PairsDiffer(doc, st, adults, students, adultOf, studentOf, floor, e, t);
      }
    }
  }

  /** One live edge written as `row`, from `now` to `next`. */
  lemma EdgeStep(doc: Document, st: Snapshot, adults: seq<Adult>, students: seq<Student>, adultOf: map<string, Adult>,
                 studentOf: map<string, Student>, floor: nat, i: nat, now: seq<Relationship>, next: seq<Relationship>,
                 rowOf: map<(nat, nat), Relationship>, row: Relationship)
    requires PeopleDone(doc, st, adults, students, adultOf, studentOf, floor)
    requires i < |doc.edges| && EdgeOutcome(doc, st, doc.edges[i]) != Conflict
    requires EdgesDone(st, Live(doc, st, doc.edges[..i]), now, adultOf, studentOf, rowOf)
    requires EdgeWritten(st, PairOf(adultOf, studentOf, doc.edges[i]), doc.edges[i], row)
    requires Matching(next, EdgeIds, EdgeIds(row)) == [row]
    requires forall x :: x != EdgeIds(row) ==> Matching(next, EdgeIds, x) == Matching(now, EdgeIds, x)
    ensures EdgesDone(st, Live(doc, st, doc.edges[..i + 1]), next, adultOf, studentOf, rowOf[EdgeIds(row) := row])
  {
    hide EdgeOutcome, PeopleDone, Matching, PairOf;
    UnprocessedEdge(doc, st, adults, students, adultOf, studentOf, floor, i, now, rowOf);
    assert doc.edges[..i + 1][..i] == doc.edges[..i];
    OneMore(Live(doc, st, doc.edges[..i]), doc.edges[i], e => PairOf(adultOf, studentOf, e), e => false,
            (e, r) => EdgeWritten(st, PairOf(adultOf, studentOf, e), e, r), EdgeIds, st.relationships, now, next, rowOf, row);
  }

  /** Writes the edges; the people they join are all there. It stops at the first one absent from the preview or barred
    * by the store; otherwise no check fails. */
  method WriteEdges(tx: Tx, doc: Document, st: Snapshot, records: map<(string, string), Outcome>, adultBySource: map<string, Adult>,
                    studentBySource: map<string, Student>, ghost floor: nat)
    returns (ok: bool, ghost rowOf: map<(nat, nat), Relationship>)
    requires tx.Valid() && tx.relationships == st.relationships && floor <= tx.nextId
    requires PeopleDone(doc, st, tx.adults, tx.students, adultBySource, studentBySource, floor)
    requires IndexOf(doc, st, records)
    modifies tx`relationships, tx`hidden, tx`nextId
    ensures tx.Valid() && tx.hidden == old(tx.hidden)
    ensures ok <==> (forall e :: e in doc.edges ==> EdgeShown(doc, e)) && NoneBarred(doc, st)
    ensures ok ==> EdgesDone(st, Live(doc, st, doc.edges), tx.relationships, adultBySource, studentBySource, rowOf)
  {
    hide EdgeOutcome, IndexOf, EdgeShown, EdgesDone, PeopleDone, Matching, PairOf, EndsAtPlaceholder;
    rowOf := map[];
    ok := true;
    EdgesStart(st, adultBySource, studentBySource);
    for i := 0 to |doc.edges|
      invariant tx.Valid() && floor <= tx.nextId && tx.hidden == old(tx.hidden)
      invariant EdgesDone(st, Live(doc, st, doc.edges[..i]), tx.relationships, adultBySource, studentBySource, rowOf)
      invariant forall k :: 0 <= k < i ==> EdgeShown(doc, doc.edges[k]) && !Barred(doc, st, doc.edges[k])
    {
      var source := doc.edges[i];
      assert source in doc.edges && doc.edges[..i + 1][..i] == doc.edges[..i];
      DoneWellFormed(doc, st, tx.adults, tx.students, adultBySource, studentBySource, floor);
      EdgeIndexed(doc, st, records, source);
      if SourceEdgeKey(source) !in records {
        return false, rowOf;
      }
      var outcome := records[SourceEdgeKey(source)];
      if outcome == Conflict {
        assert Live(doc, st, doc.edges[..i + 1]) == Live(doc, st, doc.edges[..i]);
        continue;
      }
      ok, rowOf := WriteEdge(tx, doc, st, outcome, i, adultBySource, studentBySource, floor, rowOf);
      if !ok {
        return;
      }
    }
    assert doc.edges[..|doc.edges|] == doc.edges;
    return true, rowOf;
  }

  lemma EdgesStart(st: Snapshot, adultOf: map<string, Adult>, studentOf: map<string, Student>)
    ensures EdgesDone(st, [], st.relationships, adultOf, studentOf, map[])
  {
  }

  lemma DoneWellFormed(doc: Document, st: Snapshot, adults: seq<Adult>, students: seq<Student>, adultOf: map<string, Adult>,
                       studentOf: map<string, Student>, floor: nat)
    requires PeopleDone(doc, st, adults, students, adultOf, studentOf, floor)
    ensures WellFormed(doc) && forall e :: e in doc.edges ==> EdgeOutcome(doc, st, e) != Error
  {
  }

  /** A pair of active people that no listed edge joins can be joined, and only its entry changes. */
  lemma ReadyToCreate(adults: seq<Adult>, students: seq<Student>, relationships: seq<Relationship>, hidden: seq<Relationship>, nextId: nat,
                      adult: Adult, student: Student, row: Relationship)
    requires Tables(adults, students, relationships, hidden, nextId)
    requires adult in adults && !adult.deleted && student in students && !student.deleted
    requires row.id == nextId && EdgeIds(row) == (adult.id, student.id) && Matching(relationships, EdgeIds, EdgeIds(row)) == []
    ensures Visible(adults, students, row) && (Placeholder(students, student.id) <==> student.placeholder)
    ensures forall r :: r in relationships || r in hidden ==> EdgeIds(r) != EdgeIds(row)
    ensures Matching(relationships + [row], EdgeIds, EdgeIds(row)) == [row]
    ensures forall x :: x != EdgeIds(row) ==> Matching(relationships + [row], EdgeIds, x) == Matching(relationships, EdgeIds, x)
  {
    hide Matching, StoredAdult, StoredStudent, Registered;
    StudentHolds(adults, students, relationships, hidden, nextId, student);
    hide Placeholder;
    assert Visible(adults, students, row);
    MatchingMembers(relationships, EdgeIds, EdgeIds(row));
    forall r | r in relationships
      ensures EdgeIds(r) != EdgeIds(row)
    {
      assert EdgeIds(r) == EdgeIds(row) ==> r in Matching(relationships, EdgeIds, EdgeIds(row));
    }
    hide ActiveAdults, ActiveStudents;
    forall h | h in hidden
      ensures EdgeIds(h) != EdgeIds(row)
    {
      assert !Visible(adults, students, h);
    }
    Appended(relationships, RelationshipId, EdgeIds, row);
  }

  /** The edge a live source edge finds is stored once, and overwriting it changes only its entry. */
  lemma ReadyToUpdate(adults: seq<Adult>, students: seq<Student>, relationships: seq<Relationship>, hidden: seq<Relationship>, nextId: nat,
                      current: Relationship, row: Relationship)
    requires Tables(adults, students, relationships, hidden, nextId)
    requires row == current.(kind := row.kind) && Matching(relationships, EdgeIds, EdgeIds(current)) == [current]
    ensures current in relationships && !Placeholder(students, current.studentId)
    ensures forall r :: (r in relationships || r in hidden) && r.id == current.id ==> r == current
    ensures Replace(hidden, RelationshipId, row) == hidden
    ensures Matching(Replace(relationships, RelationshipId, row), EdgeIds, EdgeIds(row)) == [row]
    ensures forall x :: x != EdgeIds(row) ==> Matching(Replace(relationships, RelationshipId, row), EdgeIds, x) == Matching(relationships, EdgeIds, x)
  {
    hide Matching, StoredAdult, StoredStudent, Visible, Replace, Registered, Placeholder;
    MatchingMembers(relationships, EdgeIds, EdgeIds(current));
    assert current in [current];
    OneRow(adults, students, relationships, hidden, nextId, current);
    NoneReplaced(hidden, RelationshipId, row);
    Overwritten(relationships, RelationshipId, EdgeIds, current, row);
  }

  /** All that writing a live edge relies on. */
  lemma EdgeReady(doc: Document, st: Snapshot, adults: seq<Adult>, students: seq<Student>, adultOf: map<string, Adult>,
                  studentOf: map<string, Student>, floor: nat, i: nat, now: seq<Relationship>, rowOf: map<(nat, nat), Relationship>)
    requires PeopleDone(doc, st, adults, students, adultOf, studentOf, floor)
    requires i < |doc.edges| && EdgeOutcome(doc, st, doc.edges[i]) != Conflict
    requires EdgesDone(st, Live(doc, st, doc.edges[..i]), now, adultOf, studentOf, rowOf)
    ensures var e := doc.edges[i];
            && e.kind in KINDS && e.adultId in adultOf && e.studentId in studentOf
            && adultOf[e.adultId] in adults && !adultOf[e.adultId].deleted
            && studentOf[e.studentId] in students && !studentOf[e.studentId].deleted
            && (studentOf[e.studentId].placeholder <==> EndsAtPlaceholder(st, e))
            && var pair := (adultOf[e.adultId].id, studentOf[e.studentId].id);
               var matches := Matching(st.relationships, EdgeIds, pair);
               && PairOf(adultOf, studentOf, e) == pair
               && Matching(now, EdgeIds, pair) == matches && |matches| <= 1 && (matches != [] ==> EdgeIds(matches[0]) == pair)
               && EdgeOutcome(doc, st, e) == if matches == [] then Create else if matches[0].kind == e.kind then Unchanged else Update
  {
    hide EdgeOutcome, EdgesDone, Matching, AdultsDone, StudentsDone, Grown, Live, AdultKey, StudentKey;
    var e := doc.edges[i];
    assert e in doc.edges;
    LiveEdge(doc, st, adults, students, adultOf, studentOf, floor, e);
    UnprocessedEdge(doc, st, adults, students, adultOf, studentOf, floor, i, now, rowOf);
    MatchingHead(st.relationships, EdgeIds, PairOf(adultOf, studentOf, e));
  }

  /** One edge that is not in conflict. It fails exactly if the edge is barred. */
  method WriteEdge(tx: Tx, doc: Document, st: Snapshot, outcome: Outcome, i: nat, adultBySource: map<string, Adult>,
                   studentBySource: map<string, Student>, ghost floor: nat, ghost rowOf0: map<(nat, nat), Relationship>)
    returns (ok: bool, ghost rowOf: map<(nat, nat), Relationship>)
    requires tx.Valid() && floor <= tx.nextId
    requires PeopleDone(doc, st, tx.adults, tx.students, adultBySource, studentBySource, floor)
    requires i < |doc.edges| && outcome == EdgeOutcome(doc, st, doc.edges[i]) && outcome != Conflict
    requires EdgesDone(st, Live(doc, st, doc.edges[..i]), tx.relationships, adultBySource, studentBySource, rowOf0)
    modifies tx`relationships, tx`hidden, tx`nextId
    ensures tx.Valid() && floor <= tx.nextId && tx.hidden == old(tx.hidden)
    ensures ok <==> !Barred(doc, st, doc.edges[i])
    ensures ok ==> EdgesDone(st, Live(doc, st, doc.edges[..i + 1]), tx.relationships, adultBySource, studentBySource, rowOf)
  {
    hide EdgeOutcome, EdgesDone, Matching, PeopleDone, Live, Tables, Replace, Visible, PairOf, EndsAtPlaceholder, Placeholder;
    ok, rowOf := true, rowOf0;
    var source := doc.edges[i];
    EdgeReady(doc, st, tx.adults, tx.students, adultBySource, studentBySource, floor, i, tx.relationships, rowOf0);
    var adult, student := adultBySource[source.adultId], studentBySource[source.studentId];
    var pair := (adult.id, student.id);
    ghost var now := tx.relationships;
    match outcome {
      case Unchanged =>
        ghost var row := Matching(st.relationships, EdgeIds, pair)[0];
        EdgeStep(doc, st, tx.adults, tx.students, adultBySource, studentBySource, floor, i, now, now, rowOf0, row);
        rowOf := rowOf0[pair := row];
      case Create =>
        ghost var row := Relationship(tx.nextId, adult.id, student.id, source.kind);
        ReadyToCreate(tx.adults, tx.students, now, tx.hidden, tx.nextId, adult, student, row);
        ok := tx.CreateRelationship(adult.id, student.id, source.kind);
        if !ok {
          return;
        }
        EdgeStep(doc, st, tx.adults, tx.students, adultBySource, studentBySource, floor, i, now, tx.relationships, rowOf0, row);
        rowOf := rowOf0[pair := row];
      case Update =>
        var matches := Matching(st.relationships, EdgeIds, pair);
        var current := matches[|matches| - 1];
        ghost var row := current.(kind := source.kind);
        ReadyToUpdate(tx.adults, tx.students, now, tx.hidden, tx.nextId, current, row);
        var updated := tx.UpdateRelationship(current.id, source.kind);
        EdgeStep(doc, st, tx.adults, tx.students, adultBySource, studentBySource, floor, i, now, tx.relationships, rowOf0, row);
        rowOf := rowOf0[pair := row];
    }
  }

  // ---- removals ----

  /** The stored edges the commit deletes: those omitted by the rows of an adult who was not in conflict. */
  ghost predicate Deleted(doc: Document, st: Snapshot, adults: map<string, Adult>, r: Relationship) {
    r in st.relationships && Omitted(doc, st, r) && StoredKey(st, r).0 in adults
  }

  lemma {:induction false} RemovalsMeaning(doc: Document, st: Snapshot, rows: seq<Relationship>)
    requires Unique(rows, RelationshipId)
    ensures forall r :: r in Removals(doc, st, rows) <==> r in rows && Omitted(doc, st, r)
    ensures Unique(Removals(doc, st, rows), RelationshipId)
  {
    hide Omitted;
    if rows != [] {
      var n := |rows| - 1;
      RemovalsMeaning(doc, st, rows[..n]);
      assert rows == rows[..n] + [rows[n]];
      var rest := Removals(doc, st, rows[..n]);
      forall k | 0 <= k < |rest|
        ensures rest[k].id != rows[n].id
      {
        assert rest[k] in rest;
        var j :| 0 <= j < n && rows[j] == rest[k];
        assert RelationshipId(rows[j]) != RelationshipId(rows[n]);
      }
    }
  }

  /** Every stored edge is still there, under its identifier, when the removals begin. */
  lemma StillThere(st: Snapshot, live: seq<SourceEdge>, now: seq<Relationship>, adultOf: map<string, Adult>,
                   studentOf: map<string, Student>, rowOf: map<(nat, nat), Relationship>, r: Relationship)
    requires EdgesDone(st, live, now, adultOf, studentOf, rowOf)
    requires Unique(st.relationships, EdgeIds) && r in st.relationships
    ensures exists row :: row in now && row.id == r.id && EdgeIds(row) == EdgeIds(r)
  {
    hide Matching, PairOf;
    MatchingOne(st.relationships, EdgeIds, r);
    var pair := EdgeIds(r);
    MatchingMembers(now, EdgeIds, pair);
    if e :| e in live && PairOf(adultOf, studentOf, e) == pair {
      assert rowOf[pair] in Matching(now, EdgeIds, pair);
    } else {
      assert r in Matching(now, EdgeIds, pair);
    }
  }

  /** What is left of `now` once the first `n` removals of written adults are gone. */
  ghost predicate LeftAfter(st: Snapshot, removals: seq<Relationship>, adults: map<string, Adult>, n: nat, now: seq<Relationship>, left: seq<Relationship>)
    requires n <= |removals|
  {
    forall row :: row in left <==>
      row in now && forall k :: 0 <= k < n && StoredKey(st, removals[k]).0 in adults ==> removals[k].id != row.id
  }

  lemma RemovalSkipped(st: Snapshot, removals: seq<Relationship>, adults: map<string, Adult>, n: nat, now: seq<Relationship>, left: seq<Relationship>)
    requires n < |removals| && LeftAfter(st, removals, adults, n, now, left) && StoredKey(st, removals[n]).0 !in adults
    ensures LeftAfter(st, removals, adults, n + 1, now, left)
  {
    hide StoredKey;
  }

  /** The next removal finds its row, and takes only that. */
  lemma RemovalFound(st: Snapshot, removals: seq<Relationship>, adults: map<string, Adult>, n: nat, now: seq<Relationship>, left: seq<Relationship>,
                     hidden: seq<Relationship>)
    requires n < |removals| && LeftAfter(st, removals, adults, n, now, left) && StoredKey(st, removals[n]).0 in adults
    requires Unique(removals, RelationshipId) && exists row :: row in now && row.id == removals[n].id
    requires forall r, h :: r in left && h in hidden ==> r.id != h.id
    ensures exists row :: row in left && row.id == removals[n].id
    ensures LeftAfter(st, removals, adults, n + 1, now, Without(left, RelationshipId, removals[n].id))
    ensures Without(hidden, RelationshipId, removals[n].id) == hidden
  {
    hide StoredKey, Without;
    var id := removals[n].id;
    var row :| row in now && row.id == id;
    assert forall k :: 0 <= k < n ==> RelationshipId(removals[k]) != RelationshipId(removals[n]);
    assert row in left;
    WithoutMembers(left, RelationshipId, id);
    NoneWithout(hidden, RelationshipId, id);
  }

  lemma AllRemoved(st: Snapshot, removals: seq<Relationship>, adults: map<string, Adult>, now: seq<Relationship>, left: seq<Relationship>)
    requires LeftAfter(st, removals, adults, |removals|, now, left)
    ensures forall row :: row in left <==> row in now && forall r :: r in removals && StoredKey(st, r).0 in adults ==> r.id != row.id
  {
    hide StoredKey;
  }

  method RemoveEdges(tx: Tx, removals: seq<Relationship>, st: Snapshot, adultBySource: map<string, Adult>)
    requires tx.Valid() && Unique(removals, RelationshipId)
    requires forall r :: r in removals ==> exists row :: row in tx.relationships && row.id == r.id
    modifies tx`relationships, tx`hidden
    ensures tx.Valid() && tx.hidden == old(tx.hidden)
    ensures forall row :: row in tx.relationships <==>
      row in old(tx.relationships) && forall r :: r in removals && StoredKey(st, r).0 in adultBySource ==> r.id != row.id
  {
    hide StoredKey, Consistent, Visible, Unique, LeftAfter, Without;
    ghost var now := tx.relationships;
    assert LeftAfter(st, removals, adultBySource, 0, now, now) by {
      NoneRemoved(st, removals, adultBySource, now);
    }
    for i := 0 to |removals|
      invariant tx.Valid() && tx.hidden == old(tx.hidden)
      invariant LeftAfter(st, removals, adultBySource, i, now, tx.relationships)
    {
      var removal := removals[i];
      if StoredKey(st, removal).0 !in adultBySource {
        RemovalSkipped(st, removals, adultBySource, i, now, tx.relationships);
        continue;
      }
      assert removal in removals;
      RemovalFound(st, removals, adultBySource, i, now, tx.relationships, tx.hidden);
      var deleted := tx.DeleteRelationship(removal.id);
      assert deleted;  // the row is found
    }
    AllRemoved(st, removals, adultBySource, now, tx.relationships);
  }

  lemma NoneRemoved(st: Snapshot, removals: seq<Relationship>, adults: map<string, Adult>, now: seq<Relationship>)
    ensures LeftAfter(st, removals, adults, 0, now, now)
  {
  }

  // ---- the commit ----

  /** What a successful commit leaves behind. */
  ghost predicate Applied(doc: Document, st: Snapshot, after: Snapshot, floor: nat, adultOf: map<string, Adult>, studentOf: map<string, Student>,
                          written: seq<Relationship>, rowOf: map<(nat, nat), Relationship>)
  {
    && PeopleDone(doc, st, after.adults, after.students, adultOf, studentOf, floor)
    && EdgesDone(st, Live(doc, st, doc.edges), written, adultOf, studentOf, rowOf) && Unique(written, RelationshipId)
    && (forall r :: r in after.relationships <==> r in written && forall gone :: Deleted(doc, st, adultOf, gone) ==> gone.id != r.id)
    && after.homerooms == st.homerooms
  }

  ghost predicate NoErrors(doc: Document, st: Snapshot) {
    && (forall a :: a in doc.adults ==> AdultOutcome(st, a) != Error)
    && (forall s :: s in doc.students ==> StudentOutcome(st, s) != Error)
    && (forall e :: e in doc.edges ==> EdgeOutcome(doc, st, e) != Error)
  }

  /** `WriterFailed`: a record absent from the preview, or an edge the store refused. */
  datatype CommitResult = Committed(preview: Preview) | HasErrors | WriterFailed

  /** Applies the document, or nothing. It succeeds exactly when no record is in error, every record appears in a
    * retained row, and no new edge ends at a placeholder; the writer's and the store's other checks never fail. */
  method Commit(tx: Tx, doc: Document)
    returns (result: CommitResult, ghost adultOf: map<string, Adult>, ghost studentOf: map<string, Student>,
             ghost written: seq<Relationship>, ghost rowOf: map<(nat, nat), Relationship>)
    requires tx.Valid() && WellFormed(doc)
    modifies tx
    ensures tx.Valid()
    ensures result.Committed? <==> NoErrors(doc, old(tx.State())) && Complete(doc) && NoneBarred(doc, old(tx.State()))
    ensures result.HasErrors? <==> !NoErrors(doc, old(tx.State()))
    ensures !result.Committed? ==> tx.State() == old(tx.State())
    ensures tx.hidden == old(tx.hidden)
    ensures result.Committed? ==> Applied(doc, old(tx.State()), tx.State(), old(tx.nextId), adultOf, studentOf, written, rowOf)
    ensures result.Committed? ==> AdultsKept(doc, old(tx.adults), tx.adults) && StudentsKept(doc, old(tx.State()), tx.students)
    ensures result.Committed? ==> result.preview.counts == AllCounts(doc, old(tx.State()))
  {
    hide AdultsKept, StudentsKept, NoErrors, Complete, NoneBarred, Applied, AllCounts, Tables, WellFormed, RowsShown, RowsList, Removals;
    adultOf, studentOf, written, rowOf := map[], map[], [], map[];
    var st := tx.State();
    var preview := ClassifyRoster(doc, st);
    ErrorCount(doc, st);
    assert preview.counts == AllCounts(doc, st);
    if preview.counts.errors > 0 {
      return HasErrors, adultOf, studentOf, written, rowOf;
    }
    var adults, students, relationships, hidden, nextId := tx.adults, tx.students, tx.relationships, tx.hidden, tx.nextId;
    var ok;
    ok, adultOf, studentOf, written, rowOf := WriteRoster(tx, doc, st, preview);
    if !ok {
      tx.adults, tx.students, tx.relationships, tx.hidden, tx.nextId := adults, students, relationships, hidden, nextId;
      return WriterFailed, adultOf, studentOf, written, rowOf;
    }
    AppliedKeepsPeople(doc, st, tx.State(), nextId, adultOf, studentOf, written, rowOf);
    return Committed(preview), adultOf, studentOf, written, rowOf;
  }

  lemma AppliedKeepsPeople(doc: Document, st: Snapshot, after: Snapshot, floor: nat, adultOf: map<string, Adult>, studentOf: map<string, Student>,
                           written: seq<Relationship>, rowOf: map<(nat, nat), Relationship>)
    requires NoErrors(doc, st) && Applied(doc, st, after, floor, adultOf, studentOf, written, rowOf)
    ensures AdultsKept(doc, st.adults, after.adults) && StudentsKept(doc, st, after.students)
  {
    hide AdultsKept, StudentsKept, AdultsDone, StudentsDone, EdgesDone, Grown, WellFormed, AdultOutcome, StudentOutcome, EdgeOutcome;
    ImportKeepsAdults(doc, st, after.adults, adultOf);
    ImportKeepsStudents(doc, st, after.students, studentOf);
  }

  method WriteRoster(tx: Tx, doc: Document, st: Snapshot, preview: Preview)
    returns (ok: bool, ghost adultOf: map<string, Adult>, ghost studentOf: map<string, Student>,
             ghost written: seq<Relationship>, ghost rowOf: map<(nat, nat), Relationship>)
    requires tx.Valid() && WellFormed(doc) && st == tx.State() && NoErrors(doc, st)
    requires RowsList(doc, st, preview.rows) && preview.removals == Removals(doc, st, st.relationships)
    modifies tx
    ensures tx.Valid()
    ensures ok <==> Complete(doc) && NoneBarred(doc, st)
    ensures tx.hidden == old(tx.hidden)
    ensures ok ==> Applied(doc, st, tx.State(), old(tx.nextId), adultOf, studentOf, written, rowOf)
  {
    hide AdultOutcome, StudentOutcome, EdgeOutcome, NoneBarred, IndexOf, AdultShown, StudentShown, EdgeShown, Removals, RowsList, Matching,
         AdultsDone, StudentsDone, EdgesDone, Grown, PairOf, Live, WellFormed, Unique, Omitted;
    ghost var floor := tx.nextId;
    adultOf, studentOf, written, rowOf := map[], map[], [], map[];
    var records := PreviewRecordIndex(preview, doc, st);
    var adultBySource, studentBySource;
    ok, adultBySource := WriteAdults(tx, doc, st, records);
    if !ok {
      return;
    }
    assert doc.adults[..|doc.adults|] == doc.adults;
    ok, studentBySource := WriteStudents(tx, doc, st, records);
    if !ok {
      return;
    }
    assert doc.students[..|doc.students|] == doc.students;
    adultOf, studentOf := adultBySource, studentBySource;
    PeopleReady(doc, st, tx, adultOf, studentOf, floor);
    ok, rowOf := WriteEdges(tx, doc, st, records, adultBySource, studentBySource, floor);
    if !ok {
      return;
    }
    written := tx.relationships;
    RemovalsReady(doc, st, tx, adultOf, studentOf, rowOf);
    RemoveEdges(tx, preview.removals, st, adultBySource);
    RemovalsAreDeletions(doc, st, adultOf);
  }

  lemma PeopleReady(doc: Document, st: Snapshot, tx: Tx, adultOf: map<string, Adult>, studentOf: map<string, Student>, floor: nat)
    requires tx.Valid() && WellFormed(doc) && NoErrors(doc, st)
    requires AdultsDone(st, doc.adults, tx.adults, adultOf) && Grown(st.adults, tx.adults, AdultId, AdultKey, floor)
    requires StudentsDone(st, doc.students, tx.students, studentOf)
    requires exists later :: later >= floor && Grown(st.students, tx.students, StudentId, StudentKey, later)
    requires Consistent(st.adults, st.students, st.relationships, floor)
    ensures PeopleDone(doc, st, tx.adults, tx.students, adultOf, studentOf, floor)
  {
    hide AdultsDone, StudentsDone, WellFormed, AdultOutcome, StudentOutcome, EdgeOutcome;
  }

  lemma RemovalsReady(doc: Document, st: Snapshot, tx: Tx, adultOf: map<string, Adult>, studentOf: map<string, Student>,
                      rowOf: map<(nat, nat), Relationship>)
    requires Unique(st.relationships, RelationshipId) && Unique(st.relationships, EdgeIds)
    requires EdgesDone(st, Live(doc, st, doc.edges), tx.relationships, adultOf, studentOf, rowOf)
    ensures Unique(Removals(doc, st, st.relationships), RelationshipId)
    ensures forall r :: r in Removals(doc, st, st.relationships) ==> exists row :: row in tx.relationships && row.id == r.id
  {
    hide EdgesDone, Omitted, Live;
    RemovalsMeaning(doc, st, st.relationships);
    forall r | r in Removals(doc, st, st.relationships)
      ensures exists row :: row in tx.relationships && row.id == r.id
    {
      StillThere(st, Live(doc, st, doc.edges), tx.relationships, adultOf, studentOf, rowOf, r);
    }
  }

  lemma RemovalsAreDeletions(doc: Document, st: Snapshot, adultOf: map<string, Adult>)
    requires Unique(st.relationships, RelationshipId)
    ensures forall r :: Deleted(doc, st, adultOf, r) <==> r in Removals(doc, st, st.relationships) && StoredKey(st, r).0 in adultOf
  {
    hide Omitted, StoredKey;
    RemovalsMeaning(doc, st, st.relationships);
  }

  lemma TallyZero<K>(m: map<K, Outcome>, o: Outcome)
    ensures Tally(m, o) == 0 <==> forall k :: k in m ==> m[k] != o
  {
    var found := set k | k in m && m[k] == o;
    if k :| k in m && m[k] == o {
      assert k in found;
    } else {
      assert found == {};
    }
  }

  /** The preview counts no error exactly if no record is in error. */
  lemma ErrorCount(doc: Document, st: Snapshot)
    requires WellFormed(doc)
    ensures AllCounts(doc, st).errors == 0 <==> NoErrors(doc, st)
  {
    hide AdultOutcome, StudentOutcome, EdgeOutcome, Tally, AdultMap, StudentMap, EdgeMap;
    TallyZero(AdultMap(st, doc.adults), Error);
    TallyZero(StudentMap(st, doc.students), Error);
    TallyZero(EdgeMap(doc, st, doc.edges), Error);
    AdultMapKeys(st, doc.adults);
    StudentMapKeys(st, doc.students);
    EdgeMapKeys(doc, st, doc.edges);
    forall a | a in doc.adults
      ensures a.id in AdultMap(st, doc.adults) && AdultMap(st, doc.adults)[a.id] == AdultOutcome(st, a)
    {
      AdultMapValues(st, doc.adults, a);
    }
    forall s | s in doc.students
      ensures s.id in StudentMap(st, doc.students) && StudentMap(st, doc.students)[s.id] == StudentOutcome(st, s)
    {
      StudentMapValues(st, doc.students, s);
    }
    forall e | e in doc.edges
      ensures SourceEdgeKey(e) in EdgeMap(doc, st, doc.edges) && EdgeMap(doc, st, doc.edges)[SourceEdgeKey(e)] == EdgeOutcome(doc, st, e)
    {
      EdgeMapValues(doc, st, doc.edges, e);
    }
  }
}
