/** What each outcome of an edge's preview tells about the stored rows, and which stored edges are up for removal. */
module RosterEdges {
  import opened Contract
  import opened Rows
  import opened Roster
  import opened RosterOutcomes
  import opened RosterPreview
  import opened RosterCommit
  import opened RosterFixedPoint

  /** A stored edge between people who bear the identifiers of the edge's ends. */
  ghost predicate Joins(st: Snapshot, r: Relationship, e: SourceEdge) {
    exists a, s :: a in st.adults && s in st.students && Bears(a.externalId, e.adultId) && Bears(s.externalId, e.studentId)
                   && r.adultId == a.id && r.studentId == s.id
  }

  ghost predicate AdultListed(doc: Document, st: Snapshot, id: string, outcome: Outcome) {
    exists a :: a in doc.adults && a.id == id && AdultJustified(st, a, outcome)
  }

  ghost predicate StudentListed(doc: Document, st: Snapshot, id: string, outcome: Outcome) {
    exists s :: s in doc.students && s.id == id && StudentJustified(st, s, outcome)
  }

  /** An end is missing from the document, or in error. */
  ghost predicate EndInError(doc: Document, st: Snapshot, e: SourceEdge) {
    || (forall a :: a in doc.adults ==> a.id != e.adultId) || AdultListed(doc, st, e.adultId, Error)
    || (forall s :: s in doc.students ==> s.id != e.studentId) || StudentListed(doc, st, e.studentId, Error)
  }

  ghost predicate EndInConflict(doc: Document, st: Snapshot, e: SourceEdge) {
    AdultListed(doc, st, e.adultId, Conflict) || StudentListed(doc, st, e.studentId, Conflict)
  }

  ghost predicate EdgeJustified(doc: Document, st: Snapshot, e: SourceEdge, outcome: Outcome) {
    if EndInError(doc, st, e) then outcome == Error
    else if EndInConflict(doc, st, e) then outcome == Conflict
    else match outcome
      case Create => forall r :: r in st.relationships ==> !Joins(st, r, e)
      case Update => exists r :: r in st.relationships && Joins(st, r, e) && r.kind != e.kind
      case Unchanged => exists r :: r in st.relationships && Joins(st, r, e) && r.kind == e.kind
      case Conflict => false
      case Error => false
  }

  lemma AdultListedIs(doc: Document, st: Snapshot, id: string)
    requires Unique(doc.adults, SourceAdultId)
    ensures forall o :: AdultListed(doc, st, id, o) <==> Lookup(AdultMap(st, doc.adults), id) == Some(o)
    ensures (forall a :: a in doc.adults ==> a.id != id) <==> Lookup(AdultMap(st, doc.adults), id).None?
  {
    hide AdultMap, AdultOutcome, AdultJustified, Unique;
    AdultMapKeys(st, doc.adults);
    forall a | a in doc.adults
      ensures a.id in AdultMap(st, doc.adults) && forall o :: AdultJustified(st, a, o) <==> o == AdultMap(st, doc.adults)[a.id]
    {
      AdultMapValues(st, doc.adults, a);
      forall o
        ensures AdultJustified(st, a, o) <==> o == AdultOutcome(st, a)
      {
        AdultOutcomeJustified(st, a, o);
      }
    }
  }

  lemma StudentListedIs(doc: Document, st: Snapshot, id: string)
    requires Unique(doc.students, SourceStudentId)
    ensures forall o :: StudentListed(doc, st, id, o) <==> Lookup(StudentMap(st, doc.students), id) == Some(o)
    ensures (forall s :: s in doc.students ==> s.id != id) <==> Lookup(StudentMap(st, doc.students), id).None?
  {
    hide StudentMap, StudentOutcome, StudentJustified, Unique;
    StudentMapKeys(st, doc.students);
    forall s | s in doc.students
      ensures s.id in StudentMap(st, doc.students) && forall o :: StudentJustified(st, s, o) <==> o == StudentMap(st, doc.students)[s.id]
    {
      StudentMapValues(st, doc.students, s);
      forall o
        ensures StudentJustified(st, s, o) <==> o == StudentOutcome(st, s)
      {
        StudentOutcomeJustified(st, s, o);
      }
    }
  }

  /** A record that is neither in error nor in conflict has at most one match, an active one. */
  lemma Uncontested(doc: Document, st: Snapshot, e: SourceEdge)
    requires Unique(doc.adults, SourceAdultId) && Unique(doc.students, SourceStudentId)
    requires !EndInError(doc, st, e) && !EndInConflict(doc, st, e)
    ensures e.adultId != "" && e.studentId != ""
    ensures var adults := Matching(st.adults, AdultKey, e.adultId); |adults| <= 1 && (adults != [] ==> !adults[0].deleted)
    ensures var students := Matching(st.students, StudentKey, e.studentId); |students| <= 1 && (students != [] ==> !students[0].deleted)
  {
    hide Matching, Trim, AdultJustified, StudentJustified, ResolveHomeroom;
    TrimBlank();
    var a :| a in doc.adults && a.id == e.adultId;
    var s :| s in doc.students && s.id == e.studentId;
    assert !AdultJustified(st, a, Error) && !AdultJustified(st, a, Conflict);
    assert !StudentJustified(st, s, Error) && !StudentJustified(st, s, Conflict);
    AdultOutcomeJustified(st, a, Error);
    AdultOutcomeJustified(st, a, Conflict);
    StudentOutcomeJustified(st, s, Error);
    StudentOutcomeJustified(st, s, Conflict);
  }

  /** The edges that join such ends are those of the one pair of stored people. */
  lemma JoinsPair(st: Snapshot, r: Relationship, e: SourceEdge)
    requires e.adultId != "" && e.studentId != ""
    requires |Matching(st.adults, AdultKey, e.adultId)| <= 1 && |Matching(st.students, StudentKey, e.studentId)| <= 1
    ensures var adults, students := Matching(st.adults, AdultKey, e.adultId), Matching(st.students, StudentKey, e.studentId);
            Joins(st, r, e) <==> adults != [] && students != [] && EdgeIds(r) == (adults[0].id, students[0].id)
  {
    hide Matching, Trim;
    var adults, students := Matching(st.adults, AdultKey, e.adultId), Matching(st.students, StudentKey, e.studentId);
    MatchingMembers(st.adults, AdultKey, e.adultId);
    MatchingMembers(st.students, StudentKey, e.studentId);
    assert forall a :: a in st.adults ==> (AdultKey(a) == e.adultId <==> Bears(a.externalId, e.adultId));
    assert forall s :: s in st.students ==> (StudentKey(s) == e.studentId <==> Bears(s.externalId, e.studentId));
    assert forall a :: a in adults <==> a in st.adults && Bears(a.externalId, e.adultId);
    assert forall s :: s in students <==> s in st.students && Bears(s.externalId, e.studentId);
    if adults != [] && students != [] {
      assert adults[0] in adults && students[0] in students;
    }
  }

  lemma EdgeOutcomeJustified(doc: Document, st: Snapshot, e: SourceEdge, outcome: Outcome)
    requires Unique(doc.adults, SourceAdultId) && Unique(doc.students, SourceStudentId) && Unique(st.relationships, EdgeIds)
    ensures EdgeJustified(doc, st, e, outcome) <==> outcome == EdgeOutcome(doc, st, e)
  {
    hide Matching, AdultMap, StudentMap, AdultListed, StudentListed, Joins, Unique, AdultKey, StudentKey;
    AdultListedIs(doc, st, e.adultId);
    StudentListedIs(doc, st, e.studentId);
    if !EndInError(doc, st, e) && !EndInConflict(doc, st, e) {
      Uncontested(doc, st, e);
      var adults, students := Matching(st.adults, AdultKey, e.adultId), Matching(st.students, StudentKey, e.studentId);
      forall r
        ensures Joins(st, r, e) <==> adults != [] && students != [] && EdgeIds(r) == (adults[0].id, students[0].id)
      {
        JoinsPair(st, r, e);
      }
      if adults != [] && students != [] {
        var pair := (adults[0].id, students[0].id);
        MatchingMembers(st.relationships, EdgeIds, pair);
        MatchingUnique(st.relationships, EdgeIds, pair);
        var matches := Matching(st.relationships, EdgeIds, pair);
        assert matches != [] ==> matches == [matches[0]] && matches[0] in matches;
      }
    }
  }

  // ---- removals ----

  /** The document's last row for the adult does not list the student. */
  ghost predicate LastRowLacks(rows: seq<SourceRow>, adult: string, student: string) {
    exists i :: 0 <= i < |rows| && rows[i].adult == adult && (forall j :: i < j < |rows| ==> rows[j].adult != adult)
                && forall e :: e in rows[i].edges ==> e.adultId != adult || e.studentId != student
  }

  lemma {:induction false} LastRow(rows: seq<SourceRow>, adult: string) returns (i: nat)
    requires exists row :: row in rows && row.adult == adult
    ensures i < |rows| && rows[i].adult == adult && forall j :: i < j < |rows| ==> rows[j].adult != adult
  {
    i := |rows| - 1;
    if rows[i].adult != adult {
      assert rows == rows[..i] + [rows[i]];
      i := LastRow(rows[..i], adult);
    }
  }

  lemma LastRowTells(rows: seq<SourceRow>, adult: string, student: string)
    ensures LastRowLacks(rows, adult, student) <==>
            (exists row :: row in rows && row.adult == adult) && (adult, student) !in SourceEdges(rows, adult)
  {
    hide SourceEdges;
    if exists row :: row in rows && row.adult == adult {
      var i := LastRow(rows, adult);
      OnlyRow(rows, i);
      assert forall k :: 0 <= k < |rows| && rows[k].adult == adult && (forall j :: k < j < |rows| ==> rows[j].adult != adult) ==> k == i by {
        assert rows[i].adult == adult;
      }
      EdgeListed(rows[i].edges, adult, student);
    } else {
      assert forall i :: 0 <= i < |rows| ==> rows[i] in rows;
    }
  }

  lemma EdgeListed(edges: seq<SourceEdge>, adult: string, student: string)
    ensures (adult, student) in (set e | e in edges :: SourceEdgeKey(e)) <==> exists e :: e in edges && e.adultId == adult && e.studentId == student
  {
  }

  /** The edge joins people who bear these identifiers. */
  ghost predicate JoinsBearers(st: Snapshot, r: Relationship, adult: string, student: string) {
    && adult != "" && student != ""
    && (exists a :: a in st.adults && a.id == r.adultId && Bears(a.externalId, adult))
    && (exists s :: s in st.students && s.id == r.studentId && Bears(s.externalId, student))
  }

  lemma StoredKeyTells(st: Snapshot, r: Relationship, adult: string, student: string)
    requires Unique(st.adults, AdultId) && Unique(st.students, StudentId)
    ensures JoinsBearers(st, r, adult, student) <==> StoredKey(st, r) == (adult, student) && adult != "" && student != ""
  {
    hide First, Trim, Unique;
    FirstMember(st.adults, AdultId, r.adultId);
    FirstMember(st.students, StudentId, r.studentId);
    forall a | a in st.adults && a.id == r.adultId
      ensures First(st.adults, AdultId, r.adultId) == [a]
    {
      FirstUnique(st.adults, AdultId, a);
    }
    forall s | s in st.students && s.id == r.studentId
      ensures First(st.students, StudentId, r.studentId) == [s]
    {
      FirstUnique(st.students, StudentId, s);
    }
  }

  /** A stored edge is up for removal exactly if both its people bear identifiers, the document retains the adult, and
    * the adult's last row does not list the student. */
  lemma OmittedTells(doc: Document, st: Snapshot, r: Relationship)
    requires Unique(st.adults, AdultId) && Unique(st.students, StudentId)
    ensures Omitted(doc, st, r) <==>
      exists adult, student :: JoinsBearers(st, r, adult, student) && (exists d :: d in doc.adults && d.id == adult)
                               && LastRowLacks(doc.rows, adult, student)
  {
    hide SourceEdges, LastRowLacks, StoredKey, JoinsBearers, Unique;
    var key := StoredKey(st, r);
    LastRowTells(doc.rows, key.0, key.1);
    forall adult, student
      ensures JoinsBearers(st, r, adult, student) <==> key == (adult, student) && adult != "" && student != ""
    {
      StoredKeyTells(st, r, adult, student);
    }
    if Omitted(doc, st, r) {
      assert JoinsBearers(st, r, key.0, key.1);
    }
  }
}
