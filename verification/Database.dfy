/** The tenant's stored people and edges, and the mutations an import makes. */
module Database {
  import opened Contract
  import opened Rows
  import opened Roster

  const KINDS := ["parent", "guardian", "grandparent", "other"]

  ghost predicate StoredText(s: Option<string>) {
    Nullable(s) == s
  }

  /** Names are stored trimmed and non-empty, other texts trimmed or absent. */
  ghost predicate StoredAdult(a: Adult) {
    && Trimmed(a.given) && a.given != "" && Trimmed(a.family) && a.family != ""
    && StoredText(a.preferred) && StoredText(a.email) && StoredText(a.phone) && StoredText(a.externalId)
  }

  /** A placeholder for a student still to be named always has a grade. */
  ghost predicate StoredStudent(s: Student) {
    && Trimmed(s.given) && s.given != "" && Trimmed(s.family) && s.family != ""
    && StoredText(s.preferred) && StoredText(s.externalId) && (s.placeholder ==> s.gradeLevel.Some?)
  }

  /** What the schema keeps: row identifiers are unique and below the next one, edges join people already there, and
    * a pair of people has one edge. */
  ghost predicate Consistent(adults: seq<Adult>, students: seq<Student>, relationships: seq<Relationship>, nextId: nat) {
    && Unique(adults, AdultId) && Unique(students, StudentId)
    && Unique(relationships, RelationshipId) && Unique(relationships, EdgeIds)
    && (forall a :: a in adults ==> a.id < nextId && StoredAdult(a))
    && (forall s :: s in students ==> s.id < nextId && StoredStudent(s))
    && (forall r :: r in relationships ==> r.id < nextId && r.adultId < nextId && r.studentId < nextId)
  }

  ghost function ActiveAdults(adults: seq<Adult>): set<nat> {
    set a | a in adults && !a.deleted :: a.id
  }

  ghost function ActiveStudents(students: seq<Student>): set<nat> {
    set s | s in students && !s.deleted :: s.id
  }

  ghost predicate Visible(adults: seq<Adult>, students: seq<Student>, r: Relationship) {
    r.adultId in ActiveAdults(adults) && r.studentId in ActiveStudents(students)
  }

  /** An active placeholder, who can have no edges. */
  predicate Placeholder(students: seq<Student>, id: nat) {
    exists s :: s in students && s.id == id && s.placeholder && !s.deleted
  }

  /** The table of edges falls apart into those between active people, which a listing shows, and the others. None of
    * the former ends at a placeholder. */
  ghost predicate Parted(adults: seq<Adult>, students: seq<Student>, relationships: seq<Relationship>, hidden: seq<Relationship>, nextId: nat) {
    && (forall r :: r in relationships ==> Visible(adults, students, r) && !Placeholder(students, r.studentId))
    && Unique(hidden, RelationshipId) && Unique(hidden, EdgeIds)
    && (forall h :: h in hidden ==> h.id < nextId && h.adultId < nextId && h.studentId < nextId && !Visible(adults, students, h))
    && (forall r, h :: r in relationships && h in hidden ==> r.id != h.id)
  }

  /** The external identifier a person holds. A soft-deleted one lets go of it. */
  function AdultHeld(a: Adult): Option<string> { if a.deleted then None else a.externalId }
  function StudentHeld(s: Student): Option<string> { if s.deleted then None else s.externalId }

  /** Someone other than `id` holds the external identifier. */
  predicate Taken<R(==)>(rows: seq<R>, idOf: R -> nat, held: R -> Option<string>, id: nat, external: Option<string>) {
    external.Some? && exists r :: r in rows && idOf(r) != id && held(r) == external
  }

  ghost predicate Registered<R(!new)>(rows: seq<R>, idOf: R -> nat, held: R -> Option<string>) {
    forall r :: r in rows ==> !Taken(rows, idOf, held, idOf(r), held(r))
  }

  ghost predicate Tables(adults: seq<Adult>, students: seq<Student>, relationships: seq<Relationship>, hidden: seq<Relationship>, nextId: nat) {
    && Consistent(adults, students, relationships, nextId) && Parted(adults, students, relationships, hidden, nextId)
    && Registered(adults, AdultId, AdultHeld) && Registered(students, StudentId, StudentHeld)
  }

  class Tx {
    var adults: seq<Adult>
    var students: seq<Student>
    var relationships: seq<Relationship>
    /** Edges of a soft-deleted person. They are stored, and no listing shows them. */
    var hidden: seq<Relationship>
    var nextId: nat
    const homerooms: seq<Homeroom>

    ghost predicate Valid()
      reads this
    {
      Tables(adults, students, relationships, hidden, nextId)
    }

    /** What an import reads: everyone, soft-deleted people too, and the edges between active people. */
    function State(): Snapshot
      reads this
    {
      Snapshot(adults, students, relationships, homerooms)
    }

    method CreateAdult(given: string, family: string, email: Option<string>, externalId: Option<string>) returns (created: Option<Adult>)
      requires Valid()
      modifies this`adults, this`nextId
      ensures Valid() && old(nextId) <= nextId
      ensures created.None? <==> Trim(given) == "" || Trim(family) == "" || Taken(old(adults), AdultId, AdultHeld, old(nextId), Nullable(externalId))
      ensures created.None? ==> adults == old(adults) && nextId == old(nextId)
      ensures created.Some? ==> adults == old(adults) + [created.value]
      ensures created.Some? ==> created.value == Adult(old(nextId), Trim(given), Trim(family), None, Nullable(email), None, Nullable(externalId), None, false)
    {
      hide Trim, Consistent, Parted, Taken, Registered;
      if Trim(given) == "" || Trim(family) == "" || Taken(adults, AdultId, AdultHeld, nextId, Nullable(externalId)) {
        return None;
      }
      TrimTwice(given);
      TrimTwice(family);
      NullableTwice(email);
      NullableTwice(externalId);
      var row := Adult(nextId, Trim(given), Trim(family), None, Nullable(email), None, Nullable(externalId), None, false);
      AdultAdded(adults, students, relationships, hidden, nextId, row);
      adults, nextId := adults + [row], nextId + 1;
      return Some(row);
    }

    method UpdateAdult(id: nat, given: string, family: string, preferred: Option<string>, email: Option<string>, phone: Option<string>,
                       externalId: Option<string>, intent: Option<string>) returns (updated: Option<Adult>)
      requires Valid()
      modifies this`adults
      ensures Valid()
      ensures updated.None? <==> Trim(given) == "" || Trim(family) == "" || (!exists a :: a in old(adults) && a.id == id && !a.deleted)
                                 || Taken(old(adults), AdultId, AdultHeld, id, Nullable(externalId))
      ensures updated.None? ==> adults == old(adults)
      ensures updated.Some? ==> adults == Replace(old(adults), AdultId, updated.value)
      ensures updated.Some? ==> updated.value == Adult(id, Trim(given), Trim(family), Nullable(preferred), Nullable(email), Nullable(phone), Nullable(externalId), intent, false)
    {
      hide Trim, Nullable, Consistent, Parted, Taken, Registered;
      if Trim(given) == "" || Trim(family) == "" || (!exists a :: a in adults && a.id == id && !a.deleted)
         || Taken(adults, AdultId, AdultHeld, id, Nullable(externalId))
      {
        return None;
      }
      TrimTwice(given);
      TrimTwice(family);
      NullableTwice(preferred);
      NullableTwice(email);
      NullableTwice(phone);
      NullableTwice(externalId);
      var row := Adult(id, Trim(given), Trim(family), Nullable(preferred), Nullable(email), Nullable(phone), Nullable(externalId), intent, false);
      AdultUpdated(adults, students, relationships, hidden, nextId, row);
      adults := Replace(adults, AdultId, row);
      return Some(row);
    }

    method CreateStudent(homeroom: nat, given: string, family: string, externalId: Option<string>) returns (created: Option<Student>)
      requires Valid()
      modifies this`students, this`nextId
      ensures Valid() && old(nextId) <= nextId
      ensures created.None? <==> Trim(given) == "" || Trim(family) == "" || Taken(old(students), StudentId, StudentHeld, old(nextId), Nullable(externalId))
      ensures created.None? ==> students == old(students) && nextId == old(nextId)
      ensures created.Some? ==> students == old(students) + [created.value]
      ensures created.Some? ==> created.value == Student(old(nextId), None, homeroom, Trim(given), Trim(family), None, Nullable(externalId), false, false)
    {
      hide Trim, Consistent, Parted, Taken, Registered;
      if Trim(given) == "" || Trim(family) == "" || Taken(students, StudentId, StudentHeld, nextId, Nullable(externalId)) {
        return None;
      }
      TrimTwice(given);
      TrimTwice(family);
      NullableTwice(externalId);
      var row := Student(nextId, None, homeroom, Trim(given), Trim(family), None, Nullable(externalId), false, false);
      StudentAdded(adults, students, relationships, hidden, nextId, row);
      students, nextId := students + [row], nextId + 1;
      return Some(row);
    }

    method UpdateStudent(id: nat, given: string, family: string, preferred: Option<string>, gradeLevel: Option<nat>, homeroom: nat,
                         externalId: Option<string>) returns (updated: Option<Student>)
      requires Valid()
      modifies this`students
      ensures Valid()
      ensures updated.None? <==> Trim(given) == "" || Trim(family) == "" || (!exists s :: s in old(students) && s.id == id && !s.deleted)
                                 || (gradeLevel.None? && Placeholder(old(students), id))
                                 || Taken(old(students), StudentId, StudentHeld, id, Nullable(externalId))
      ensures updated.None? ==> students == old(students)
      ensures updated.Some? ==> students == Replace(old(students), StudentId, updated.value)
      ensures updated.Some? ==> updated.value == Student(id, gradeLevel, homeroom, Trim(given), Trim(family), Nullable(preferred), Nullable(externalId),
                                                         Placeholder(old(students), id), false)
    {
      hide Trim, Nullable, Consistent, Parted, Taken, Registered, Placeholder;
      if Trim(given) == "" || Trim(family) == "" || (!exists s :: s in students && s.id == id && !s.deleted)
         || (gradeLevel.None? && Placeholder(students, id)) || Taken(students, StudentId, StudentHeld, id, Nullable(externalId))
      {
        return None;
      }
      TrimTwice(given);
      TrimTwice(family);
      NullableTwice(preferred);
      NullableTwice(externalId);
      var row := Student(id, gradeLevel, homeroom, Trim(given), Trim(family), Nullable(preferred), Nullable(externalId), Placeholder(students, id), false);
      StudentUpdated(adults, students, relationships, hidden, nextId, row);
      students := Replace(students, StudentId, row);
      return Some(row);
    }

    /** Refused for an unknown kind, a person who is not stored, a placeholder, or a pair already joined. */
    method CreateRelationship(adultId: nat, studentId: nat, kind: string) returns (created: bool)
      requires Valid()
      modifies this`relationships, this`hidden, this`nextId
      ensures Valid() && old(nextId) <= nextId
      ensures created <==> kind in KINDS && (exists a :: a in adults && a.id == adultId) && (exists s :: s in students && s.id == studentId)
                           && !Placeholder(students, studentId) && forall r :: r in old(relationships) || r in old(hidden) ==> EdgeIds(r) != (adultId, studentId)
      ensures var row := Relationship(old(nextId), adultId, studentId, kind);
              && relationships == (if created && Visible(adults, students, row) then old(relationships) + [row] else old(relationships))
              && hidden == (if created && !Visible(adults, students, row) then old(hidden) + [row] else old(hidden))
    {
      hide Consistent, Parted;
      created := kind in KINDS && (exists a :: a in adults && a.id == adultId) && (exists s :: s in students && s.id == studentId)
                 && !Placeholder(students, studentId) && !(exists r :: r in relationships && EdgeIds(r) == (adultId, studentId))
                 && !(exists r :: r in hidden && EdgeIds(r) == (adultId, studentId));
      if !created {
        return;
      }
      var row := Relationship(nextId, adultId, studentId, kind);
      var active := (exists a :: a in adults && a.id == adultId && !a.deleted) && (exists s :: s in students && s.id == studentId && !s.deleted);
      EdgeAdded(adults, students, relationships, hidden, nextId, row);
      assert active <==> Visible(adults, students, row);
      if active {
        relationships := relationships + [row];
      } else {
        hidden := hidden + [row];
      }
      nextId := nextId + 1;
    }

    /** Refused for an unknown kind or row, and for a row that ends at a placeholder. */
    method UpdateRelationship(id: nat, kind: string) returns (updated: Option<Relationship>)
      requires Valid()
      modifies this`relationships, this`hidden
      ensures Valid()
      ensures updated.Some? <==> kind in KINDS && exists r :: (r in old(relationships) || r in old(hidden)) && r.id == id && !Placeholder(students, r.studentId)
      ensures updated.Some? ==> exists r :: (r in old(relationships) || r in old(hidden)) && r.id == id && updated.value == r.(kind := kind)
      ensures updated.Some? ==> relationships == Replace(old(relationships), RelationshipId, updated.value)
                                && hidden == Replace(old(hidden), RelationshipId, updated.value)
      ensures updated.None? ==> relationships == old(relationships) && hidden == old(hidden)
    {
      hide Consistent, Parted, Tables, Placeholder;
      var all := relationships + hidden;
      assert forall r :: r in all <==> r in relationships || r in hidden;
      var found := First(all, RelationshipId, id);
      FirstMember(all, RelationshipId, id);
      if found != [] {
        OneRow(adults, students, relationships, hidden, nextId, found[0]);
      }
      if kind !in KINDS || found == [] || Placeholder(students, found[0].studentId) {
        return None;
      }
      var row := found[0].(kind := kind);
      EdgeReplaced(adults, students, relationships, hidden, nextId, found[0], kind);
      relationships, hidden := Replace(relationships, RelationshipId, row), Replace(hidden, RelationshipId, row);
      return Some(row);
    }

    method DeleteRelationship(id: nat) returns (deleted: bool)
      requires Valid()
      modifies this`relationships, this`hidden
      ensures Valid()
      ensures deleted <==> exists r :: (r in old(relationships) || r in old(hidden)) && r.id == id
      ensures relationships == Without(old(relationships), RelationshipId, id)
      ensures hidden == Without(old(hidden), RelationshipId, id)
    {
      hide Consistent, Parted, Tables;
      deleted := (exists r :: r in relationships && r.id == id) || exists r :: r in hidden && r.id == id;
      EdgeRemoved(adults, students, relationships, hidden, nextId, id);
      relationships, hidden := Without(relationships, RelationshipId, id), Without(hidden, RelationshipId, id);
    }
  }

  // ---- what the tables promise ----

  lemma UniquePeople(adults: seq<Adult>, students: seq<Student>, relationships: seq<Relationship>, hidden: seq<Relationship>, nextId: nat)
    requires Tables(adults, students, relationships, hidden, nextId)
    ensures Unique(adults, AdultId) && Unique(students, StudentId)
  {
  }

  /** What is stored of a student is stored again unchanged. */
  lemma StudentStored(adults: seq<Adult>, students: seq<Student>, relationships: seq<Relationship>, hidden: seq<Relationship>, nextId: nat, s: Student)
    requires Tables(adults, students, relationships, hidden, nextId) && s in students
    ensures Trim(s.given) == s.given != "" && Trim(s.family) == s.family != ""
    ensures Nullable(s.preferred) == s.preferred && Nullable(s.externalId) == s.externalId
  {
    hide Trim, Nullable, Unique;
    assert StoredStudent(s);
  }

  /** An active person's external identifier is theirs alone. */
  lemma AdultHolds(adults: seq<Adult>, students: seq<Student>, relationships: seq<Relationship>, hidden: seq<Relationship>, nextId: nat, a: Adult)
    requires Tables(adults, students, relationships, hidden, nextId) && a in adults && !a.deleted
    ensures !Taken(adults, AdultId, AdultHeld, a.id, a.externalId)
  {
    hide Consistent, Parted, Taken;
  }

  lemma StudentHolds(adults: seq<Adult>, students: seq<Student>, relationships: seq<Relationship>, hidden: seq<Relationship>, nextId: nat, s: Student)
    requires Tables(adults, students, relationships, hidden, nextId) && s in students && !s.deleted
    ensures !Taken(students, StudentId, StudentHeld, s.id, s.externalId)
    ensures (Placeholder(students, s.id) <==> s.placeholder) && (s.placeholder ==> s.gradeLevel.Some?)
  {
    hide Parted, Taken, Trimmed, StoredText, StoredAdult;
    assert StoredStudent(s);
    assert s.id == StudentId(s);
    UniqueMember(students, StudentId, s);
  }

  /** Nobody holds an identifier that no row is found under. */
  lemma NobodyHolds(adults: seq<Adult>, external: string, id: nat)
    requires Trimmed(external) && Matching(adults, AdultKey, external) == []
    ensures !Taken(adults, AdultId, AdultHeld, id, Some(external))
  {
    hide Trim;
    MatchingMembers(adults, AdultKey, external);
    assert forall a :: a in adults ==> AdultKey(a) != external;
  }

  lemma NoStudentHolds(students: seq<Student>, external: string, id: nat)
    requires Trimmed(external) && Matching(students, StudentKey, external) == []
    ensures !Taken(students, StudentId, StudentHeld, id, Some(external))
  {
    hide Trim;
    MatchingMembers(students, StudentKey, external);
    assert forall s :: s in students ==> StudentKey(s) != external;
  }

  // ---- what the mutations keep ----

  lemma RowAppended(rows: seq<Relationship>, row: Relationship)
    requires Unique(rows, RelationshipId) && Unique(rows, EdgeIds)
    requires forall r :: r in rows ==> r.id != row.id && EdgeIds(r) != EdgeIds(row)
    ensures Unique(rows + [row], RelationshipId) && Unique(rows + [row], EdgeIds)
    ensures forall r :: r in rows + [row] <==> r in rows || r == row
  {
    assert forall i :: 0 <= i < |rows| ==> rows[i] in rows;
  }

  /** Changing the kind of one row moves no row. */
  lemma KindReplaced(rows: seq<Relationship>, row: Relationship, kind: string)
    requires Unique(rows, RelationshipId) && Unique(rows, EdgeIds)
    requires forall r :: r in rows && r.id == row.id ==> r == row
    ensures var next := Replace(rows, RelationshipId, row.(kind := kind));
            Unique(next, RelationshipId) && Unique(next, EdgeIds)
            && forall r :: r in next ==> exists q :: q in rows && q.id == r.id && EdgeIds(q) == EdgeIds(r)
  {
    ReplaceShape(rows, RelationshipId, row.(kind := kind));
    var next := Replace(rows, RelationshipId, row.(kind := kind));
    forall i | 0 <= i < |next|
      ensures next[i].id == rows[i].id && EdgeIds(next[i]) == EdgeIds(rows[i])
    {
      assert rows[i] in rows;
    }
    forall r | r in next
      ensures exists q :: q in rows && q.id == r.id && EdgeIds(q) == EdgeIds(r)
    {
      var i :| 0 <= i < |next| && next[i] == r;
      assert rows[i] in rows;
    }
  }

  /** A new edge goes to its part of the table. */
  lemma EdgeAdded(adults: seq<Adult>, students: seq<Student>, relationships: seq<Relationship>, hidden: seq<Relationship>, nextId: nat,
                  row: Relationship)
    requires Tables(adults, students, relationships, hidden, nextId) && row.id == nextId
    requires (exists a :: a in adults && a.id == row.adultId) && (exists s :: s in students && s.id == row.studentId) && !Placeholder(students, row.studentId)
    requires forall r :: r in relationships || r in hidden ==> EdgeIds(r) != EdgeIds(row)
    ensures Visible(adults, students, row) ==> Tables(adults, students, relationships + [row], hidden, nextId + 1)
    ensures !Visible(adults, students, row) ==> Tables(adults, students, relationships, hidden + [row], nextId + 1)
  {
    assert row.adultId < nextId && row.studentId < nextId;
    assert forall r :: r in relationships || r in hidden ==> r.id != row.id;
    hide Placeholder, Registered, Visible, StoredAdult, StoredStudent;
    RowAppended(relationships, row);
    RowAppended(hidden, row);
    hide Unique;
  }

  /** Rows that change neither identifier nor people part as before. */
  lemma PartedStays(adults: seq<Adult>, students: seq<Student>, relationships: seq<Relationship>, hidden: seq<Relationship>, nextId: nat,
                    edges: seq<Relationship>, others: seq<Relationship>)
    requires Parted(adults, students, relationships, hidden, nextId)
    requires forall r :: r in edges ==> exists q :: q in relationships && q.id == r.id && EdgeIds(q) == EdgeIds(r)
    requires forall r :: r in others ==> exists q :: q in hidden && q.id == r.id && EdgeIds(q) == EdgeIds(r)
    requires Unique(others, RelationshipId) && Unique(others, EdgeIds)
    ensures Parted(adults, students, edges, others, nextId)
  {
    hide Unique, ActiveAdults, ActiveStudents, Placeholder;
    forall r | r in edges
      ensures Visible(adults, students, r) && !Placeholder(students, r.studentId)
    {
      var q :| q in relationships && q.id == r.id && EdgeIds(q) == EdgeIds(r);
    }
    forall r | r in others
      ensures r.id < nextId && r.adultId < nextId && r.studentId < nextId && !Visible(adults, students, r)
    {
      var q :| q in hidden && q.id == r.id && EdgeIds(q) == EdgeIds(r);
    }
    hide Visible, EdgeIds;
    forall r, h | r in edges && h in others
      ensures r.id != h.id
    {
      var q :| q in relationships && q.id == r.id && EdgeIds(q) == EdgeIds(r);
      var k :| k in hidden && k.id == h.id && EdgeIds(k) == EdgeIds(h);
    }
  }

  lemma ConsistentStays(adults: seq<Adult>, students: seq<Student>, relationships: seq<Relationship>, nextId: nat, edges: seq<Relationship>)
    requires Consistent(adults, students, relationships, nextId)
    requires forall r :: r in edges ==> exists q :: q in relationships && q.id == r.id && EdgeIds(q) == EdgeIds(r)
    requires Unique(edges, RelationshipId) && Unique(edges, EdgeIds)
    ensures Consistent(adults, students, edges, nextId)
  {
    hide StoredAdult, StoredStudent, Unique;
    forall r | r in edges
      ensures r.id < nextId && r.adultId < nextId && r.studentId < nextId
    {
      var q :| q in relationships && q.id == r.id && EdgeIds(q) == EdgeIds(r);
    }
  }

  lemma EdgeReplaced(adults: seq<Adult>, students: seq<Student>, relationships: seq<Relationship>, hidden: seq<Relationship>, nextId: nat,
                     row: Relationship, kind: string)
    requires Tables(adults, students, relationships, hidden, nextId) && (row in relationships || row in hidden)
    ensures var next := row.(kind := kind);
            Tables(adults, students, Replace(relationships, RelationshipId, next), Replace(hidden, RelationshipId, next), nextId)
  {
    hide Consistent, Parted, Registered, Replace, Unique;
    var next := row.(kind := kind);
    UniqueEdges(adults, students, relationships, hidden, nextId);
    OneRow(adults, students, relationships, hidden, nextId, row);
    KindReplaced(relationships, row, kind);
    KindReplaced(hidden, row, kind);
    PartedStays(adults, students, relationships, hidden, nextId, Replace(relationships, RelationshipId, next), Replace(hidden, RelationshipId, next));
    ConsistentStays(adults, students, relationships, nextId, Replace(relationships, RelationshipId, next));
  }

  lemma UniqueEdges(adults: seq<Adult>, students: seq<Student>, relationships: seq<Relationship>, hidden: seq<Relationship>, nextId: nat)
    requires Tables(adults, students, relationships, hidden, nextId)
    ensures Unique(relationships, RelationshipId) && Unique(relationships, EdgeIds)
    ensures Unique(hidden, RelationshipId) && Unique(hidden, EdgeIds)
  {
    hide Visible, Unique, Placeholder, Registered;
  }

  /** An identifier stands for one edge, visible or hidden. */
  lemma OneRow(adults: seq<Adult>, students: seq<Student>, relationships: seq<Relationship>, hidden: seq<Relationship>, nextId: nat, row: Relationship)
    requires Tables(adults, students, relationships, hidden, nextId) && (row in relationships || row in hidden)
    ensures forall r :: (r in relationships || r in hidden) && r.id == row.id ==> r == row
  {
    hide StoredAdult, StoredStudent, Visible, Placeholder, Registered;
    forall r | (r in relationships || r in hidden) && r.id == row.id
      ensures r == row
    {
      if r in relationships && row in relationships {
        UniqueMember(relationships, RelationshipId, row);
      } else if r in hidden && row in hidden {
        UniqueMember(hidden, RelationshipId, row);
      }
    }
  }

  lemma EdgeRemoved(adults: seq<Adult>, students: seq<Student>, relationships: seq<Relationship>, hidden: seq<Relationship>, nextId: nat, id: nat)
    requires Tables(adults, students, relationships, hidden, nextId)
    ensures Tables(adults, students, Without(relationships, RelationshipId, id), Without(hidden, RelationshipId, id), nextId)
  {
    hide Consistent, Parted, Registered, Without, Unique;
    UniqueEdges(adults, students, relationships, hidden, nextId);
    WithoutMembers(relationships, RelationshipId, id);
    WithoutUnique(relationships, RelationshipId, RelationshipId, id);
    WithoutUnique(relationships, RelationshipId, EdgeIds, id);
    WithoutMembers(hidden, RelationshipId, id);
    WithoutUnique(hidden, RelationshipId, RelationshipId, id);
    WithoutUnique(hidden, RelationshipId, EdgeIds, id);
    PartedStays(adults, students, relationships, hidden, nextId, Without(relationships, RelationshipId, id), Without(hidden, RelationshipId, id));
    ConsistentStays(adults, students, relationships, nextId, Without(relationships, RelationshipId, id));
  }

  lemma UniqueAppended<T(!new)>(rows: seq<T>, id: T -> nat, row: T)
    requires Unique(rows, id) && forall r :: r in rows ==> id(r) < id(row)
    ensures Unique(rows + [row], id) && forall r :: r in rows + [row] <==> r in rows || r == row
  {
    assert forall i :: 0 <= i < |rows| ==> rows[i] in rows;
  }

  lemma RegisteredAppended<R(!new)>(rows: seq<R>, idOf: R -> nat, held: R -> Option<string>, row: R)
    requires Registered(rows, idOf, held) && !Taken(rows, idOf, held, idOf(row), held(row))
    requires forall r :: r in rows ==> idOf(r) != idOf(row)
    ensures Registered(rows + [row], idOf, held)
  {
    var next := rows + [row];
    forall r | r in next
      ensures !Taken(next, idOf, held, idOf(r), held(r))
    {
      assert r in rows ==> !Taken(rows, idOf, held, idOf(r), held(r));
    }
  }

  lemma RegisteredReplaced<R(!new)>(rows: seq<R>, idOf: R -> nat, held: R -> Option<string>, row: R)
    requires Registered(rows, idOf, held) && !Taken(rows, idOf, held, idOf(row), held(row))
    ensures Registered(Replace(rows, idOf, row), idOf, held)
  {
    Replaced(rows, idOf, row);
    hide Replace;
    var next := Replace(rows, idOf, row);
    forall r | r in next
      ensures !Taken(next, idOf, held, idOf(r), held(r))
    {
      assert r in rows ==> !Taken(rows, idOf, held, idOf(r), held(r));
    }
  }

  /** A new person has no edges yet. */
  lemma AdultAdded(adults: seq<Adult>, students: seq<Student>, relationships: seq<Relationship>, hidden: seq<Relationship>, nextId: nat, row: Adult)
    requires Tables(adults, students, relationships, hidden, nextId) && row.id == nextId && StoredAdult(row)
    requires !Taken(adults, AdultId, AdultHeld, row.id, AdultHeld(row))
    ensures Tables(adults + [row], students, relationships, hidden, nextId + 1)
  {
    hide StoredAdult, StoredStudent, Placeholder, Taken, Registered, AdultHeld;
    RegisteredAppended(adults, AdultId, AdultHeld, row);
    UniqueAppended(adults, AdultId, row);
    assert forall id :: id != nextId ==> (id in ActiveAdults(adults + [row]) <==> id in ActiveAdults(adults));
    assert forall id :: id in ActiveAdults(adults) ==> id in ActiveAdults(adults + [row]);
    hide ActiveAdults, ActiveStudents, Unique;
  }

  /** Overwriting an active person leaves them active. */
  lemma AdultUpdated(adults: seq<Adult>, students: seq<Student>, relationships: seq<Relationship>, hidden: seq<Relationship>, nextId: nat, row: Adult)
    requires Tables(adults, students, relationships, hidden, nextId) && StoredAdult(row) && !row.deleted
    requires exists r :: r in adults && r.id == row.id && !r.deleted
    requires !Taken(adults, AdultId, AdultHeld, row.id, AdultHeld(row))
    ensures Tables(Replace(adults, AdultId, row), students, relationships, hidden, nextId)
  {
    hide StoredAdult, StoredStudent, Placeholder, Taken, Registered, AdultHeld;
    RegisteredReplaced(adults, AdultId, AdultHeld, row);
    Replaced(adults, AdultId, row);
    UniqueReplaced(adults, AdultId, row);
    StillAdults(adults, row);
    assert row.id < nextId;
    hide ActiveAdults, ActiveStudents, Unique, Replace;
  }

  lemma StillAdults(adults: seq<Adult>, row: Adult)
    requires !row.deleted && exists r :: r in adults && r.id == row.id && !r.deleted
    ensures ActiveAdults(Replace(adults, AdultId, row)) == ActiveAdults(adults)
  {
    var next := Replace(adults, AdultId, row);
    ReplaceShape(adults, AdultId, row);
    hide Replace;
    forall id
      ensures id in ActiveAdults(next) <==> id in ActiveAdults(adults)
    {
      if r :| r in next && !r.deleted && r.id == id {
        var i :| 0 <= i < |next| && next[i] == r;
        assert adults[i] in adults;
      }
      if r :| r in adults && !r.deleted && r.id == id {
        var i :| 0 <= i < |adults| && adults[i] == r;
        assert next[i] in next;
      }
    }
  }

  /** Likewise for students. */
  lemma StudentAdded(adults: seq<Adult>, students: seq<Student>, relationships: seq<Relationship>, hidden: seq<Relationship>, nextId: nat, row: Student)
    requires Tables(adults, students, relationships, hidden, nextId) && row.id == nextId && StoredStudent(row)
    requires !row.placeholder && !Taken(students, StudentId, StudentHeld, row.id, StudentHeld(row))
    ensures Tables(adults, students + [row], relationships, hidden, nextId + 1)
  {
    hide StoredAdult, StoredStudent, Taken, Registered, StudentHeld;
    RegisteredAppended(students, StudentId, StudentHeld, row);
    assert forall id :: Placeholder(students + [row], id) ==> Placeholder(students, id);
    hide Placeholder;
    UniqueAppended(students, StudentId, row);
    assert forall id :: id != nextId ==> (id in ActiveStudents(students + [row]) <==> id in ActiveStudents(students));
    assert forall id :: id in ActiveStudents(students) ==> id in ActiveStudents(students + [row]);
    hide ActiveAdults, ActiveStudents, Unique;
  }

  /** Overwriting an active person leaves them active. */
  lemma StudentUpdated(adults: seq<Adult>, students: seq<Student>, relationships: seq<Relationship>, hidden: seq<Relationship>, nextId: nat, row: Student)
    requires Tables(adults, students, relationships, hidden, nextId) && StoredStudent(row) && !row.deleted
    requires exists r :: r in students && r.id == row.id && !r.deleted
    requires row.placeholder == Placeholder(students, row.id) && !Taken(students, StudentId, StudentHeld, row.id, StudentHeld(row))
    ensures Tables(adults, Replace(students, StudentId, row), relationships, hidden, nextId)
  {
    hide StoredAdult, StoredStudent, Taken, Registered, StudentHeld, Placeholder, ActiveAdults, ActiveStudents, Unique, Replace, Parted;
    RegisteredReplaced(students, StudentId, StudentHeld, row);
    Replaced(students, StudentId, row);
    UniqueReplaced(students, StudentId, row);
    assert row.id < nextId;
    StillParted(adults, students, relationships, hidden, nextId, row);
  }

  lemma StillParted(adults: seq<Adult>, students: seq<Student>, relationships: seq<Relationship>, hidden: seq<Relationship>, nextId: nat, row: Student)
    requires Parted(adults, students, relationships, hidden, nextId) && !row.deleted && exists r :: r in students && r.id == row.id && !r.deleted
    requires row.placeholder == Placeholder(students, row.id)
    ensures Parted(adults, Replace(students, StudentId, row), relationships, hidden, nextId)
  {
    hide Placeholder, ActiveAdults, ActiveStudents, Unique, Replace;
    StillPlaceholders(students, row);
    StillStudents(students, row);
  }

  lemma StillStudents(students: seq<Student>, row: Student)
    requires !row.deleted && exists r :: r in students && r.id == row.id && !r.deleted
    ensures ActiveStudents(Replace(students, StudentId, row)) == ActiveStudents(students)
  {
    var next := Replace(students, StudentId, row);
    ReplaceShape(students, StudentId, row);
    hide Replace;
    forall id
      ensures id in ActiveStudents(next) <==> id in ActiveStudents(students)
    {
      if r :| r in next && !r.deleted && r.id == id {
        var i :| 0 <= i < |next| && next[i] == r;
        assert students[i] in students;
      }
      if r :| r in students && !r.deleted && r.id == id {
        var i :| 0 <= i < |students| && students[i] == r;
        assert next[i] in next;
      }
    }
  }

  lemma StillPlaceholders(students: seq<Student>, row: Student)
    requires row.placeholder == Placeholder(students, row.id)
    ensures forall id :: Placeholder(Replace(students, StudentId, row), id) ==> Placeholder(students, id)
  {
    Replaced(students, StudentId, row);
  }

  lemma Replaced<T(!new)>(rows: seq<T>, id: T -> nat, row: T)
    ensures forall r :: r in Replace(rows, id, row) ==> r == row || (r in rows && id(r) != id(row))
  {
    ReplaceShape(rows, id, row);
  }

  lemma UniqueReplaced<T>(rows: seq<T>, id: T -> nat, row: T)
    requires Unique(rows, id)
    ensures Unique(Replace(rows, id, row), id)
  {
    ReplaceShape(rows, id, row);
  }

  // ---- trimming ----

  lemma {:induction false} TrimLeftTwice(s: string)
    ensures TrimLeft(TrimLeft(s)) == TrimLeft(s)
    ensures TrimLeft(s) == "" || !IsSpace(TrimLeft(s)[0])
  {
    if s != "" && IsSpace(s[0]) {
      TrimLeftTwice(s[1..]);
    }
  }

  lemma {:induction false} TrimRightTwice(s: string)
    ensures TrimRight(TrimRight(s)) == TrimRight(s)
    ensures TrimRight(s) == "" || !IsSpace(TrimRight(s)[|TrimRight(s)| - 1])
    ensures TrimRight(s) <= s
  {
    if s != "" && IsSpace(s[|s| - 1]) {
      TrimRightTwice(s[..|s| - 1]);
    }
  }

  /** Trimming trimmed text changes nothing. */
  lemma TrimTwice(s: string)
    ensures Trim(Trim(s)) == Trim(s)
  {
    TrimLeftTwice(s);
    TrimRightTwice(TrimLeft(s));
  }

  ghost predicate Blank(s: string) {
    forall c :: c in s ==> c in {' ', '\t', '\n', '\r', '\U{0B}', '\U{0C}'}
  }

  lemma {:induction false} TrimLeftMeans(s: string) returns (left: string)
    ensures s == left + TrimLeft(s) && Blank(left)
  {
    if s != "" && IsSpace(s[0]) {
      var rest := TrimLeftMeans(s[1..]);
      left := [s[0]] + rest;
      assert s == [s[0]] + s[1..];
    } else {
      left := "";
    }
  }

  lemma {:induction false} TrimRightMeans(s: string) returns (right: string)
    ensures s == TrimRight(s) + right && Blank(right)
  {
    if s != "" && IsSpace(s[|s| - 1]) {
      var rest := TrimRightMeans(s[..|s| - 1]);
      right := rest + [s[|s| - 1]];
      assert s == s[..|s| - 1] + [s[|s| - 1]];
    } else {
      right := "";
    }
  }

  /** Trimming takes space off both ends and nothing else, and leaves none there. */
  lemma TrimMeans(s: string) returns (left: string, right: string)
    ensures s == left + Trim(s) + right && Blank(left) && Blank(right)
    ensures Trim(s) != "" ==> !Blank([Trim(s)[0]]) && !Blank([Trim(s)[|Trim(s)| - 1]])
  {
    left := TrimLeftMeans(s);
    right := TrimRightMeans(TrimLeft(s));
    TrimLeftTwice(s);
    TrimRightTwice(TrimLeft(s));
    forall c | !IsSpace(c)
      ensures !Blank([c])
    {
      assert c in [c];
    }
  }

  lemma NullableTwice(s: Option<string>)
    ensures Nullable(Nullable(s)) == Nullable(s)
  {
    if s.Some? {
      TrimTwice(s.value);
    }
  }
}
