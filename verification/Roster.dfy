/** Previewing a parsed roster against the stored people: every record classified, every omitted edge called out. */
module Roster {
  import opened Contract
  import opened Counting
  import opened Rows

  // ---- text ----

  predicate IsSpace(c: char) {
    c == ' ' || c == '\t' || c == '\n' || c == '\r' || c == '\U{0B}' || c == '\U{0C}'
  }

  function TrimLeft(s: string): string {
    if s != "" && IsSpace(s[0]) then TrimLeft(s[1..]) else s
  }

  function TrimRight(s: string): string {
    if s != "" && IsSpace(s[|s| - 1]) then TrimRight(s[..|s| - 1]) else s
  }

  function Trim(s: string): string {
    TrimRight(TrimLeft(s))
  }

  /** Text as it is stored: trimmed, and absent rather than blank. */
  function Nullable(s: Option<string>): Option<string> {
    if s.None? || Trim(s.value) == "" then None else Some(Trim(s.value))
  }

  ghost predicate Trimmed(s: string) {
    Trim(s) == s
  }

  // ---- stored rows ----

  datatype Adult = Adult(id: nat, given: string, family: string, preferred: Option<string>, email: Option<string>,
                         phone: Option<string>, externalId: Option<string>, intent: Option<string>, deleted: bool)
  datatype Student = Student(id: nat, gradeLevel: Option<nat>, homeroom: nat, given: string, family: string,
                             preferred: Option<string>, externalId: Option<string>, placeholder: bool, deleted: bool)
  datatype Relationship = Relationship(id: nat, adultId: nat, studentId: nat, kind: string)
  datatype Homeroom = Homeroom(id: nat, externalId: Option<string>)

  /** The snapshot a document is classified against. */
  datatype Snapshot = Snapshot(adults: seq<Adult>, students: seq<Student>, relationships: seq<Relationship>, homerooms: seq<Homeroom>)

  function ExternalIdentifier(id: Option<string>): string {
    if id.Some? then Trim(id.value) else ""
  }

  function AdultKey(a: Adult): string { ExternalIdentifier(a.externalId) }
  function StudentKey(s: Student): string { ExternalIdentifier(s.externalId) }
  function HomeroomKey(h: Homeroom): string { ExternalIdentifier(h.externalId) }
  function EdgeIds(r: Relationship): (nat, nat) { (r.adultId, r.studentId) }
  function AdultId(a: Adult): nat { a.id }
  function StudentId(s: Student): nat { s.id }
  function RelationshipId(r: Relationship): nat { r.id }

  // ---- the parsed document ----

  datatype SourceAdult = SourceAdult(id: string, given: string, family: string, email: string)
  datatype SourceStudent = SourceStudent(id: string, given: string, family: string, classroom: string)
  datatype SourceEdge = SourceEdge(adultId: string, studentId: string, kind: string)
  datatype SourceRow = SourceRow(adult: string, students: seq<string>, edges: seq<SourceEdge>)
  datatype Document = Document(adults: seq<SourceAdult>, students: seq<SourceStudent>, edges: seq<SourceEdge>, rows: seq<SourceRow>)

  function SourceAdultId(a: SourceAdult): string { a.id }
  function SourceStudentId(s: SourceStudent): string { s.id }
  function SourceEdgeKey(e: SourceEdge): (string, string) { (e.adultId, e.studentId) }

  // ---- classification ----

  datatype Outcome = Create | Update | Unchanged | Conflict | Error

  /** What becomes of an outcome once the document has been committed: conflicts stay, all else is done. */
  function Settle(o: Outcome): Outcome {
    if o == Conflict then Conflict else Unchanged
  }

  function ClassifyAdult(source: SourceAdult, matches: seq<Adult>): Outcome {
    if Trim(source.id) == "" then Error
    else if |matches| > 1 then Conflict
    else if |matches| == 1 && matches[0].deleted then Conflict
    else if matches == [] then
      if Trim(source.given) == "" || Trim(source.family) == "" then Error else Create
    else
      var current := matches[0];
      if (source.given != "" && source.given != current.given)
         || (source.family != "" && source.family != current.family)
         || (source.email != "" && (current.email.None? || source.email != current.email.value))
      then Update else Unchanged
  }

  /** The homeroom a classroom identifier names, if it names exactly one. */
  function ResolveHomeroom(classroom: string, homerooms: seq<Homeroom>): Option<nat> {
    var id := Trim(classroom);
    if id == "" then None
    else
      var matches := Matching(homerooms, HomeroomKey, id);
      if |matches| == 1 then Some(matches[0].id) else None
  }

  function ClassifyStudent(source: SourceStudent, matches: seq<Student>, homerooms: seq<Homeroom>): Outcome {
    if Trim(source.id) == "" then Error
    else if |matches| > 1 then Conflict
    else if |matches| == 1 && matches[0].deleted then Conflict
    else
      var homeroom := ResolveHomeroom(source.classroom, homerooms);
      if homeroom.None? then Error
      else if matches == [] then
        if Trim(source.given) == "" || Trim(source.family) == "" then Error else Create
      else
        var current := matches[0];
        if (source.given != "" && source.given != current.given)
           || (source.family != "" && source.family != current.family)
           || current.homeroom != homeroom.value
        then Update else Unchanged
  }

  /** `adult` and `student` are the previews of the edge's ends, if they are in the document. */
  function ClassifyEdge(source: SourceEdge, adult: Option<Outcome>, student: Option<Outcome>,
                        adults: seq<Adult>, students: seq<Student>, relationships: seq<Relationship>): Outcome
  {
    if adult.None? || student.None? then Error
    else if adult.value == Error || student.value == Error then Error
    else if adult.value == Conflict || student.value == Conflict then Conflict
    else if |adults| > 1 || |students| > 1 then Conflict
    else if |adults| == 1 && adults[0].deleted then Conflict
    else if |students| == 1 && students[0].deleted then Conflict
    else if |adults| == 1 && |students| == 1 then
      var matches := Matching(relationships, EdgeIds, (adults[0].id, students[0].id));
      if matches == [] then Create
      else if matches[|matches| - 1].kind == source.kind then Unchanged else Update
    else Create
  }

  function AdultOutcome(st: Snapshot, source: SourceAdult): Outcome {
    ClassifyAdult(source, Matching(st.adults, AdultKey, source.id))
  }

  function StudentOutcome(st: Snapshot, source: SourceStudent): Outcome {
    ClassifyStudent(source, Matching(st.students, StudentKey, source.id), st.homerooms)
  }

  /** The previews of the document's adults, by identifier. */
  function AdultMap(st: Snapshot, sources: seq<SourceAdult>): map<string, Outcome> {
    if sources == [] then map[]
    else AdultMap(st, sources[..|sources| - 1])[sources[|sources| - 1].id := AdultOutcome(st, sources[|sources| - 1])]
  }

  function StudentMap(st: Snapshot, sources: seq<SourceStudent>): map<string, Outcome> {
    if sources == [] then map[]
    else StudentMap(st, sources[..|sources| - 1])[sources[|sources| - 1].id := StudentOutcome(st, sources[|sources| - 1])]
  }

  function Lookup<K, V>(m: map<K, V>, k: K): Option<V> {
    if k in m then Some(m[k]) else None
  }

  function EdgeOutcome(doc: Document, st: Snapshot, source: SourceEdge): Outcome {
    ClassifyEdge(source, Lookup(AdultMap(st, doc.adults), source.adultId), Lookup(StudentMap(st, doc.students), source.studentId),
                 Matching(st.adults, AdultKey, source.adultId), Matching(st.students, StudentKey, source.studentId), st.relationships)
  }

  function EdgeMap(doc: Document, st: Snapshot, sources: seq<SourceEdge>): map<(string, string), Outcome> {
    if sources == [] then map[]
    else EdgeMap(doc, st, sources[..|sources| - 1])[SourceEdgeKey(sources[|sources| - 1]) := EdgeOutcome(doc, st, sources[|sources| - 1])]
  }

  // ---- rows and removals ----

  /** The edges the document's last row for `adult` lists; an earlier row of the same adult is forgotten. */
  function SourceEdges(rows: seq<SourceRow>, adult: string): set<(string, string)> {
    if rows == [] then {}
    else
      var last := rows[|rows| - 1];
      if last.adult == adult then set e | e in last.edges :: SourceEdgeKey(e)
      else SourceEdges(rows[..|rows| - 1], adult)
  }

  /** Some retained row belongs to `adult`. */
  ghost predicate Represented(doc: Document, adult: string) {
    (exists a :: a in doc.adults && a.id == adult) && exists row :: row in doc.rows && row.adult == adult
  }

  /** The key of a stored edge in source terms; blank where a person is missing or has no external identifier. */
  function StoredKey(st: Snapshot, r: Relationship): (string, string) {
    var adults, students := First(st.adults, AdultId, r.adultId), First(st.students, StudentId, r.studentId);
    (if adults == [] then "" else AdultKey(adults[0]), if students == [] then "" else StudentKey(students[0]))
  }

  /** The document's authoritative rows omit this stored edge. */
  ghost predicate Omitted(doc: Document, st: Snapshot, r: Relationship) {
    var key := StoredKey(st, r);
    key.0 != "" && key.1 != "" && Represented(doc, key.0) && key !in SourceEdges(doc.rows, key.0)
  }

  /** The stored edges to be removed, in stored order. */
  ghost function Removals(doc: Document, st: Snapshot, rows: seq<Relationship>): seq<Relationship> {
    if rows == [] then []
    else
      var last := rows[|rows| - 1];
      Removals(doc, st, rows[..|rows| - 1]) + (if Omitted(doc, st, last) then [last] else [])
  }

  /** One node of a row's preview. A person's key pairs the record type with their identifier, an edge's its two ends. */
  datatype Record = Record(key: (string, string), outcome: Outcome)

  function PersonKey(kind: string, id: string): (string, string) {
    (kind, Trim(id))
  }

  /** The entries of `s` without repetitions, in order of first appearance. */
  function Firsts<T(==)>(s: seq<T>): seq<T> {
    if s == [] then []
    else
      var front, last := s[..|s| - 1], s[|s| - 1];
      if last in front then Firsts(front) else Firsts(front) + [last]
  }

  function EdgeKeys(edges: seq<SourceEdge>): seq<(string, string)> {
    if edges == [] then [] else EdgeKeys(edges[..|edges| - 1]) + [SourceEdgeKey(edges[|edges| - 1])]
  }

  /** The records of those `ids` that the document carries. */
  function StudentRecords(ids: seq<string>, students: map<string, Outcome>): seq<Record> {
    if ids == [] then []
    else
      var last := ids[|ids| - 1];
      StudentRecords(ids[..|ids| - 1], students) + (if last in students then [Record(PersonKey("student", last), students[last])] else [])
  }

  function EdgeRecords(keys: seq<(string, string)>, edges: map<(string, string), Outcome>): seq<Record> {
    if keys == [] then []
    else
      var last := keys[|keys| - 1];
      EdgeRecords(keys[..|keys| - 1], edges) + (if last in edges then [Record(last, edges[last])] else [])
  }

  /** The records of one retained row, in order: the adult, then each student once, then each edge once. */
  function RowRecords(row: SourceRow, adults: map<string, Outcome>, students: map<string, Outcome>,
                      edges: map<(string, string), Outcome>): seq<Record>
    requires row.adult in adults
  {
    [Record(PersonKey("adult", row.adult), adults[row.adult])]
    + StudentRecords(Firsts(row.students), students)
    + EdgeRecords(Firsts(EdgeKeys(row.edges)), edges)
  }

  /** The rows whose adult the document carries. */
  function RetainedRows(adults: map<string, Outcome>, rows: seq<SourceRow>): (retained: seq<SourceRow>)
    ensures forall row :: row in retained ==> row.adult in adults
  {
    if rows == [] then []
    else
      var last := rows[|rows| - 1];
      RetainedRows(adults, rows[..|rows| - 1]) + (if last.adult in adults then [last] else [])
  }

  lemma {:induction false} FirstsOnce<T>(s: seq<T>)
    ensures Distinct(Firsts(s)) && forall x :: x in Firsts(s) <==> x in s
  {
    if s != [] {
      var n := |s| - 1;
      FirstsOnce(s[..n]);
      assert s == s[..n] + [s[n]];
      var before := Firsts(s[..n]);
      assert forall i :: 0 <= i < |before| ==> before[i] in before;
    }
  }

  lemma {:induction false} EdgeKeysMembers(edges: seq<SourceEdge>)
    ensures forall key :: key in EdgeKeys(edges) <==> exists e :: e in edges && SourceEdgeKey(e) == key
  {
    if edges != [] {
      var n := |edges| - 1;
      EdgeKeysMembers(edges[..n]);
      assert edges == edges[..n] + [edges[n]];
    }
  }

  lemma {:induction false} StudentRecordsMembers(ids: seq<string>, students: map<string, Outcome>)
    ensures forall r :: r in StudentRecords(ids, students) <==>
      exists s :: s in ids && s in students && r == Record(PersonKey("student", s), students[s])
  {
    hide PersonKey;
    if ids != [] {
      var n := |ids| - 1;
      StudentRecordsMembers(ids[..n], students);
      assert ids == ids[..n] + [ids[n]];
    }
  }

  lemma {:induction false} EdgeRecordsMembers(keys: seq<(string, string)>, edges: map<(string, string), Outcome>)
    ensures forall r :: r in EdgeRecords(keys, edges) <==> exists key :: key in keys && key in edges && r == Record(key, edges[key])
  {
    if keys != [] {
      var n := |keys| - 1;
      EdgeRecordsMembers(keys[..n], edges);
      assert keys == keys[..n] + [keys[n]];
    }
  }

  /** What a retained row shows: its adult, and those of its students and edges that the document carries. */
  ghost predicate Shows(doc: Document, st: Snapshot, row: SourceRow, record: Record) {
    var adults, students, edges := AdultMap(st, doc.adults), StudentMap(st, doc.students), EdgeMap(doc, st, doc.edges);
    && row.adult in adults
    && (|| record == Record(PersonKey("adult", row.adult), adults[row.adult])
        || (exists s :: s in row.students && s in students && record == Record(PersonKey("student", s), students[s]))
        || (exists e :: e in row.edges && SourceEdgeKey(e) in edges && record == Record(SourceEdgeKey(e), edges[SourceEdgeKey(e)])))
  }

  /** Some row shows the record. */
  ghost predicate Listed(doc: Document, st: Snapshot, record: Record) {
    exists row :: row in doc.rows && Shows(doc, st, row, record)
  }

  // ---- counts ----

  datatype Counts = Counts(created: nat, updated: nat, kept: nat, conflicts: nat, errors: nat)

  function AddCount(counts: Counts, outcome: Outcome): Counts {
    match outcome
    case Create => counts.(created := counts.created + 1)
    case Update => counts.(updated := counts.updated + 1)
    case Unchanged => counts.(kept := counts.kept + 1)
    case Conflict => counts.(conflicts := counts.conflicts + 1)
    case Error => counts.(errors := counts.errors + 1)
  }

  /** How many previews in `m` have outcome `o`. */
  ghost function Tally<K>(m: map<K, Outcome>, o: Outcome): nat {
    |set k | k in m && m[k] == o|
  }
}
