/** What a roster import leaves of the people who were there, and makes of those who were not. */
module RosterKept {
  import opened Contract
  import opened Rows
  import opened Roster
  import opened RosterOutcomes
  import opened RosterCommit

  // ---- adults ----

  /** The row of an adult already there: names and email as the source gives them, if it does, and all else as it was. */
  ghost predicate AdultOverlaid(source: SourceAdult, before: Adult, after: Adult) {
    && after.id == before.id
    && after.given == (if source.given == "" then before.given else source.given)
    && after.family == (if source.family == "" then before.family else source.family)
    && after.email == (if source.email == "" then before.email else Some(source.email))
    && after.preferred == before.preferred && after.phone == before.phone && after.externalId == before.externalId
    && after.intent == before.intent && after.deleted == before.deleted
  }

  /** The row of an adult not there before. */
  ghost predicate AdultAnew(source: SourceAdult, after: Adult) {
    && after.given == source.given && after.family == source.family
    && after.email == (if source.email == "" then None else Some(source.email))
    && after.externalId == Some(source.id)
    && after.preferred.None? && after.phone.None? && after.intent.None? && !after.deleted
  }

  /** The one active row that bears the source's identifier. */
  ghost predicate OwnAdult(before: seq<Adult>, source: SourceAdult, row: Adult) {
    Alone(before, AdultBearing(source.id), row) && !row.deleted
  }

  /** Every row is still there, overlaid by the document's record of its adult if there is one. Other rows are those of
    * the adults nobody bore the identifier of, one for each. */
  ghost predicate AdultsKept(doc: Document, before: seq<Adult>, after: seq<Adult>) {
    && (forall b :: b in before && (forall a :: a in doc.adults ==> !OwnAdult(before, a, b)) ==> b in after)
    && (forall a, b :: a in doc.adults && OwnAdult(before, a, b) ==> exists row :: row in after && AdultOverlaid(a, b, row))
    && (forall a :: a in doc.adults && Nobody(before, AdultBearing(a.id)) ==> exists row :: row in after && AdultAnew(a, row))
    && (forall row :: row in after ==>
         || (exists b :: b in before && b.id == row.id)
         || (exists a :: a in doc.adults && Nobody(before, AdultBearing(a.id)) && AdultAnew(a, row)))
  }

  lemma BearingIsKey(a: Adult, id: string)
    requires id != ""
    ensures Bears(a.externalId, id) <==> AdultKey(a) == id
  {
    hide Trim;
  }

  /** How the preview and the index see an adult of the document. */
  lemma AdultSeen(st: Snapshot, source: SourceAdult)
    requires source.id != "" && Trimmed(source.id)
    ensures var matches := Matching(st.adults, AdultKey, source.id);
            && (matches == [] <==> Nobody(st.adults, AdultBearing(source.id)))
            && (forall b :: OwnAdult(st.adults, source, b) <==> matches == [b] && !b.deleted)
  {
    hide Matching, Trim, Alone, Several, Nobody, AdultKey;
    forall a | a in st.adults
      ensures AdultKey(a) == source.id <==> AdultBearing(source.id)(a)
    {
      BearingIsKey(a, source.id);
    }
    MatchingTells(st.adults, AdultKey, source.id, AdultBearing(source.id));
  }

  /** What the bookkeeping says of one adult of the document. */
  lemma AdultDone(doc: Document, st: Snapshot, now: seq<Adult>, rowOf: map<string, Adult>, a: SourceAdult)
    requires WellFormed(doc) && a in doc.adults && AdultsDone(st, doc.adults, now, rowOf)
    ensures a.id != "" && Trimmed(a.id) && Trimmed(a.given) && Trimmed(a.family)
    ensures AdultOutcome(st, a) == Conflict ==> Matching(now, AdultKey, a.id) == Matching(st.adults, AdultKey, a.id)
    ensures AdultOutcome(st, a) != Conflict ==>
      a.id in rowOf && rowOf[a.id] in now && Matching(now, AdultKey, a.id) == [rowOf[a.id]] && AdultWritten(st, a, rowOf[a.id])
  {
    hide Matching, Trim, AdultOutcome, AdultWritten, Unique, KeysApart, AdultKey;
    MatchingMembers(now, AdultKey, a.id);
    if AdultOutcome(st, a) != Conflict {
      assert rowOf[a.id] in Matching(now, AdultKey, a.id);
    }
  }

  lemma WrittenOverlays(st: Snapshot, a: SourceAdult, b: Adult)
    requires a.id != "" && Trimmed(a.id) && Trimmed(a.given) && Trimmed(a.family) && AdultOutcome(st, a) != Error
    requires Matching(st.adults, AdultKey, a.id) == [b] && !b.deleted
    ensures AdultOutcome(st, a) != Conflict
    ensures forall row :: AdultWritten(st, a, row) ==> AdultOverlaid(a, b, row)
  {
    hide Matching, Trim, AdultKey;
    AdultCases(st, a);
  }

  lemma WrittenAnew(st: Snapshot, a: SourceAdult)
    requires a.id != "" && Trimmed(a.id) && Trimmed(a.given) && Trimmed(a.family) && AdultOutcome(st, a) != Error
    requires Matching(st.adults, AdultKey, a.id) == []
    ensures AdultOutcome(st, a) != Conflict
    ensures forall row :: AdultWritten(st, a, row) ==> AdultAnew(a, row)
  {
    hide Matching, Trim, AdultKey;
    AdultCases(st, a);
  }

  lemma OwnAdultOverlaid(doc: Document, st: Snapshot, now: seq<Adult>, rowOf: map<string, Adult>, a: SourceAdult, b: Adult)
    requires WellFormed(doc) && a in doc.adults && AdultOutcome(st, a) != Error
    requires AdultsDone(st, doc.adults, now, rowOf) && OwnAdult(st.adults, a, b)
    ensures exists row :: row in now && AdultOverlaid(a, b, row)
  {
    hide WellFormed, AdultsDone, OwnAdult, Nobody, AdultWritten, AdultOutcome, AdultOverlaid, Trim, Matching;
    AdultDone(doc, st, now, rowOf, a);
    AdultSeen(st, a);
    WrittenOverlays(st, a, b);
  }

  lemma NewAdultAnew(doc: Document, st: Snapshot, now: seq<Adult>, rowOf: map<string, Adult>, a: SourceAdult)
    requires WellFormed(doc) && a in doc.adults && AdultOutcome(st, a) != Error
    requires AdultsDone(st, doc.adults, now, rowOf) && Nobody(st.adults, AdultBearing(a.id))
    ensures exists row :: row in now && AdultAnew(a, row)
  {
    hide WellFormed, AdultsDone, OwnAdult, Nobody, AdultWritten, AdultOutcome, AdultAnew, Trim, Matching;
    AdultDone(doc, st, now, rowOf, a);
    AdultSeen(st, a);
    WrittenAnew(st, a);
  }

  /** An entry of the index that no record of the document writes stays as it was. */
  lemma UntouchedAdults(doc: Document, st: Snapshot, now: seq<Adult>, rowOf: map<string, Adult>, x: string)
    requires AdultsDone(st, doc.adults, now, rowOf) && forall a :: a in doc.adults && a.id == x ==> AdultOutcome(st, a) == Conflict
    ensures Matching(now, AdultKey, x) == Matching(st.adults, AdultKey, x)
  {
    hide Matching, AdultOutcome, AdultWritten, AdultKey;
    if a :| a in doc.adults && a.id == x {
      assert SourceAdultId(a) == x;
    }
  }

  lemma OtherAdultStays(doc: Document, st: Snapshot, now: seq<Adult>, rowOf: map<string, Adult>, b: Adult)
    requires WellFormed(doc) && (forall a :: a in doc.adults ==> AdultOutcome(st, a) != Error)
    requires AdultsDone(st, doc.adults, now, rowOf) && b in st.adults && (forall a :: a in doc.adults ==> !OwnAdult(st.adults, a, b))
    ensures b in now
  {
    hide WellFormed, AdultsDone, Matching, Trim, OwnAdult, Nobody, Unique, AdultKey, AdultOutcome, AdultWritten;
    var x := AdultKey(b);
    MatchingMembers(st.adults, AdultKey, x);
    MatchingMembers(now, AdultKey, x);
    assert b in Matching(st.adults, AdultKey, x);
    forall a | a in doc.adults && a.id == x
      ensures AdultOutcome(st, a) == Conflict
    {
      AdultDone(doc, st, now, rowOf, a);
      AdultSeen(st, a);
      AdultCases(st, a);
      var matches := Matching(st.adults, AdultKey, x);
      assert |matches| == 1 ==> matches == [matches[0]] && b == matches[0];
      assert |matches| > 0;
    }
    UntouchedAdults(doc, st, now, rowOf, x);
  }

  lemma AdultAccounted(doc: Document, st: Snapshot, now: seq<Adult>, rowOf: map<string, Adult>, row: Adult)
    requires WellFormed(doc) && (forall a :: a in doc.adults ==> AdultOutcome(st, a) != Error)
    requires AdultsDone(st, doc.adults, now, rowOf) && row in now
    ensures || (exists b :: b in st.adults && b.id == row.id)
            || (exists a :: a in doc.adults && Nobody(st.adults, AdultBearing(a.id)) && AdultAnew(a, row))
  {
    hide WellFormed, AdultsDone, Matching, Trim, OwnAdult, Nobody, Unique, AdultKey, AdultOutcome, AdultWritten, AdultAnew, AdultOverlaid;
    var x := AdultKey(row);
    MatchingMembers(st.adults, AdultKey, x);
    MatchingMembers(now, AdultKey, x);
    assert row in Matching(now, AdultKey, x);
    if a :| a in doc.adults && a.id == x && AdultOutcome(st, a) != Conflict {
      AdultDone(doc, st, now, rowOf, a);
      AdultSeen(st, a);
      assert row == rowOf[x];
      var matches := Matching(st.adults, AdultKey, x);
      if matches == [] {
        WrittenAnew(st, a);
      } else {
        AdultCases(st, a);
        assert matches[0] in matches && matches == [matches[0]];
        WrittenOverlays(st, a, matches[0]);
        OverlaidSame(a, matches[0], row);
      }
    } else {
      UntouchedAdults(doc, st, now, rowOf, x);
    }
  }

  lemma OverlaidSame(a: SourceAdult, b: Adult, row: Adult)
    requires AdultOverlaid(a, b, row)
    ensures row.id == b.id
  {
  }

  lemma ImportKeepsAdults(doc: Document, st: Snapshot, now: seq<Adult>, rowOf: map<string, Adult>)
    requires WellFormed(doc) && (forall a :: a in doc.adults ==> AdultOutcome(st, a) != Error)
    requires AdultsDone(st, doc.adults, now, rowOf)
    ensures AdultsKept(doc, st.adults, now)
  {
    hide WellFormed, AdultsDone, OwnAdult, Nobody, AdultOverlaid, AdultAnew, AdultOutcome;
    forall b | b in st.adults && (forall a :: a in doc.adults ==> !OwnAdult(st.adults, a, b))
      ensures b in now
    {
      OtherAdultStays(doc, st, now, rowOf, b);
    }
    forall a, b | a in doc.adults && OwnAdult(st.adults, a, b)
      ensures exists row :: row in now && AdultOverlaid(a, b, row)
    {
      OwnAdultOverlaid(doc, st, now, rowOf, a, b);
    }
    forall a | a in doc.adults && Nobody(st.adults, AdultBearing(a.id))
      ensures exists row :: row in now && AdultAnew(a, row)
    {
      NewAdultAnew(doc, st, now, rowOf, a);
    }
    forall row | row in now
      ensures || (exists b :: b in st.adults && b.id == row.id)
              || (exists a :: a in doc.adults && Nobody(st.adults, AdultBearing(a.id)) && AdultAnew(a, row))
    {
      AdultAccounted(doc, st, now, rowOf, row);
    }
  }

  // ---- students ----

  /** The row of a student already there: names as the source gives them, if it does, the homeroom of its classroom, and
    * all else as it was. */
  ghost predicate StudentOverlaid(st: Snapshot, source: SourceStudent, before: Student, after: Student) {
    && after.id == before.id
    && after.given == (if source.given == "" then before.given else source.given)
    && after.family == (if source.family == "" then before.family else source.family)
    && SitsIn(st, source, after.homeroom)
    && after.preferred == before.preferred && after.gradeLevel == before.gradeLevel && after.externalId == before.externalId
    && after.placeholder == before.placeholder && after.deleted == before.deleted
  }

  ghost predicate StudentAnew(st: Snapshot, source: SourceStudent, after: Student) {
    && after.given == source.given && after.family == source.family
    && SitsIn(st, source, after.homeroom)
    && after.externalId == Some(source.id)
    && after.preferred.None? && after.gradeLevel.None? && !after.placeholder && !after.deleted
  }

  ghost predicate OwnStudent(before: seq<Student>, source: SourceStudent, row: Student) {
    Alone(before, StudentBearing(source.id), row) && !row.deleted
  }

  /** Likewise for students. */
  ghost predicate StudentsKept(doc: Document, st: Snapshot, after: seq<Student>) {
    && (forall b :: b in st.students && (forall s :: s in doc.students ==> !OwnStudent(st.students, s, b)) ==> b in after)
    && (forall s, b :: s in doc.students && OwnStudent(st.students, s, b) ==> exists row :: row in after && StudentOverlaid(st, s, b, row))
    && (forall s :: s in doc.students && Nobody(st.students, StudentBearing(s.id)) ==> exists row :: row in after && StudentAnew(st, s, row))
    && (forall row :: row in after ==>
         || (exists b :: b in st.students && b.id == row.id)
         || (exists s :: s in doc.students && Nobody(st.students, StudentBearing(s.id)) && StudentAnew(st, s, row)))
  }

  lemma StudentBearingIsKey(s: Student, id: string)
    requires id != ""
    ensures Bears(s.externalId, id) <==> StudentKey(s) == id
  {
    hide Trim;
  }

  /** How the preview and the index see a student of the document. */
  lemma StudentSeen(st: Snapshot, source: SourceStudent)
    requires source.id != "" && Trimmed(source.id)
    ensures var matches := Matching(st.students, StudentKey, source.id);
            && (matches == [] <==> Nobody(st.students, StudentBearing(source.id)))
            && (forall b :: OwnStudent(st.students, source, b) <==> matches == [b] && !b.deleted)
  {
    hide Matching, Trim, Alone, Several, Nobody, StudentKey;
    forall s | s in st.students
      ensures StudentKey(s) == source.id <==> StudentBearing(source.id)(s)
    {
      StudentBearingIsKey(s, source.id);
    }
    MatchingTells(st.students, StudentKey, source.id, StudentBearing(source.id));
  }

  /** What the bookkeeping says of one student of the document. */
  lemma StudentDone(doc: Document, st: Snapshot, now: seq<Student>, rowOf: map<string, Student>, s: SourceStudent)
    requires WellFormed(doc) && s in doc.students && StudentsDone(st, doc.students, now, rowOf)
    ensures s.id != "" && Trimmed(s.id) && Trimmed(s.given) && Trimmed(s.family)
    ensures StudentOutcome(st, s) == Conflict ==> Matching(now, StudentKey, s.id) == Matching(st.students, StudentKey, s.id)
    ensures StudentOutcome(st, s) != Conflict ==>
      s.id in rowOf && rowOf[s.id] in now && Matching(now, StudentKey, s.id) == [rowOf[s.id]] && StudentWritten(st, s, rowOf[s.id])
  {
    hide Matching, Trim, StudentOutcome, StudentWritten, Unique, KeysApart, StudentKey;
    MatchingMembers(now, StudentKey, s.id);
    if StudentOutcome(st, s) != Conflict {
      assert rowOf[s.id] in Matching(now, StudentKey, s.id);
    }
  }

  lemma StudentWrittenOverlays(st: Snapshot, s: SourceStudent, b: Student)
    requires s.id != "" && Trimmed(s.id) && Trimmed(s.given) && Trimmed(s.family) && StudentOutcome(st, s) != Error
    requires Matching(st.students, StudentKey, s.id) == [b] && !b.deleted
    ensures StudentOutcome(st, s) != Conflict
    ensures forall row :: StudentWritten(st, s, row) ==> StudentOverlaid(st, s, b, row)
  {
    hide Matching, Trim, StudentKey, ResolveHomeroom, SitsIn;
    StudentCases(st, s);
    forall homeroom: nat
      ensures ResolveHomeroom(s.classroom, st.homerooms) == Some(homeroom) <==> SitsIn(st, s, homeroom)
    {
      HomeroomNamed(st, s, homeroom);
    }
  }

  lemma StudentWrittenAnew(st: Snapshot, s: SourceStudent)
    requires s.id != "" && Trimmed(s.id) && Trimmed(s.given) && Trimmed(s.family) && StudentOutcome(st, s) != Error
    requires Matching(st.students, StudentKey, s.id) == []
    ensures StudentOutcome(st, s) != Conflict
    ensures forall row :: StudentWritten(st, s, row) ==> StudentAnew(st, s, row)
  {
    hide Matching, Trim, StudentKey, ResolveHomeroom, SitsIn;
    StudentCases(st, s);
    forall homeroom: nat
      ensures ResolveHomeroom(s.classroom, st.homerooms) == Some(homeroom) <==> SitsIn(st, s, homeroom)
    {
      HomeroomNamed(st, s, homeroom);
    }
  }

  lemma OwnStudentOverlaid(doc: Document, st: Snapshot, now: seq<Student>, rowOf: map<string, Student>, s: SourceStudent, b: Student)
    requires WellFormed(doc) && s in doc.students && StudentOutcome(st, s) != Error
    requires StudentsDone(st, doc.students, now, rowOf) && OwnStudent(st.students, s, b)
    ensures exists row :: row in now && StudentOverlaid(st, s, b, row)
  {
    hide WellFormed, StudentsDone, OwnStudent, Nobody, StudentWritten, StudentOutcome, StudentOverlaid, Trim, Matching;
    StudentDone(doc, st, now, rowOf, s);
    StudentSeen(st, s);
    StudentWrittenOverlays(st, s, b);
  }

  lemma NewStudentAnew(doc: Document, st: Snapshot, now: seq<Student>, rowOf: map<string, Student>, s: SourceStudent)
    requires WellFormed(doc) && s in doc.students && StudentOutcome(st, s) != Error
    requires StudentsDone(st, doc.students, now, rowOf) && Nobody(st.students, StudentBearing(s.id))
    ensures exists row :: row in now && StudentAnew(st, s, row)
  {
    hide WellFormed, StudentsDone, OwnStudent, Nobody, StudentWritten, StudentOutcome, StudentAnew, Trim, Matching;
    StudentDone(doc, st, now, rowOf, s);
    StudentSeen(st, s);
    StudentWrittenAnew(st, s);
  }

  /** An entry of the index that no record of the document writes stays as it was. */
  lemma UntouchedStudents(doc: Document, st: Snapshot, now: seq<Student>, rowOf: map<string, Student>, x: string)
    requires StudentsDone(st, doc.students, now, rowOf) && forall s :: s in doc.students && s.id == x ==> StudentOutcome(st, s) == Conflict
    ensures Matching(now, StudentKey, x) == Matching(st.students, StudentKey, x)
  {
    hide Matching, StudentOutcome, StudentWritten, StudentKey;
    if s :| s in doc.students && s.id == x {
      assert SourceStudentId(s) == x;
    }
  }

  lemma OtherStudentStays(doc: Document, st: Snapshot, now: seq<Student>, rowOf: map<string, Student>, b: Student)
    requires WellFormed(doc) && (forall s :: s in doc.students ==> StudentOutcome(st, s) != Error)
    requires StudentsDone(st, doc.students, now, rowOf) && b in st.students && (forall s :: s in doc.students ==> !OwnStudent(st.students, s, b))
    ensures b in now
  {
    hide WellFormed, StudentsDone, Matching, Trim, OwnStudent, Nobody, Unique, StudentKey, StudentOutcome, StudentWritten;
    var x := StudentKey(b);
    MatchingMembers(st.students, StudentKey, x);
    MatchingMembers(now, StudentKey, x);
    assert b in Matching(st.students, StudentKey, x);
    forall s | s in doc.students && s.id == x
      ensures StudentOutcome(st, s) == Conflict
    {
      StudentDone(doc, st, now, rowOf, s);
      StudentSeen(st, s);
      StudentCases(st, s);
      var matches := Matching(st.students, StudentKey, x);
      assert |matches| == 1 ==> matches == [matches[0]] && b == matches[0];
      assert |matches| > 0;
    }
    UntouchedStudents(doc, st, now, rowOf, x);
  }

  lemma StudentAccounted(doc: Document, st: Snapshot, now: seq<Student>, rowOf: map<string, Student>, row: Student)
    requires WellFormed(doc) && (forall s :: s in doc.students ==> StudentOutcome(st, s) != Error)
    requires StudentsDone(st, doc.students, now, rowOf) && row in now
    ensures || (exists b :: b in st.students && b.id == row.id)
            || (exists s :: s in doc.students && Nobody(st.students, StudentBearing(s.id)) && StudentAnew(st, s, row))
  {
    hide WellFormed, StudentsDone, Matching, Trim, OwnStudent, Nobody, Unique, StudentKey, StudentOutcome, StudentWritten, StudentAnew, StudentOverlaid;
    var x := StudentKey(row);
    MatchingMembers(st.students, StudentKey, x);
    MatchingMembers(now, StudentKey, x);
    assert row in Matching(now, StudentKey, x);
    if s :| s in doc.students && s.id == x && StudentOutcome(st, s) != Conflict {
      StudentDone(doc, st, now, rowOf, s);
      StudentSeen(st, s);
      assert row == rowOf[x];
      var matches := Matching(st.students, StudentKey, x);
      if matches == [] {
        StudentWrittenAnew(st, s);
      } else {
        StudentCases(st, s);
        assert matches[0] in matches && matches == [matches[0]];
        StudentWrittenOverlays(st, s, matches[0]);
        StudentOverlaidSame(st, s, matches[0], row);
      }
    } else {
      UntouchedStudents(doc, st, now, rowOf, x);
    }
  }

  lemma StudentOverlaidSame(st: Snapshot, s: SourceStudent, b: Student, row: Student)
    requires StudentOverlaid(st, s, b, row)
    ensures row.id == b.id
  {
  }

  lemma ImportKeepsStudents(doc: Document, st: Snapshot, now: seq<Student>, rowOf: map<string, Student>)
    requires WellFormed(doc) && (forall s :: s in doc.students ==> StudentOutcome(st, s) != Error)
    requires StudentsDone(st, doc.students, now, rowOf)
    ensures StudentsKept(doc, st, now)
  {
    hide WellFormed, StudentsDone, OwnStudent, Nobody, StudentOverlaid, StudentAnew, StudentOutcome;
    forall b | b in st.students && (forall s :: s in doc.students ==> !OwnStudent(st.students, s, b))
      ensures b in now
    {
      OtherStudentStays(doc, st, now, rowOf, b);
    }
    forall s, b | s in doc.students && OwnStudent(st.students, s, b)
      ensures exists row :: row in now && StudentOverlaid(st, s, b, row)
    {
      OwnStudentOverlaid(doc, st, now, rowOf, s, b);
    }
    forall s | s in doc.students && Nobody(st.students, StudentBearing(s.id))
      ensures exists row :: row in now && StudentAnew(st, s, row)
    {
      NewStudentAnew(doc, st, now, rowOf, s);
    }
    forall row | row in now
      ensures || (exists b :: b in st.students && b.id == row.id)
              || (exists s :: s in doc.students && Nobody(st.students, StudentBearing(s.id)) && StudentAnew(st, s, row))
    {
      StudentAccounted(doc, st, now, rowOf, row);
    }
  }
}
