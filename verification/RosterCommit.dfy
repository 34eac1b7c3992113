/** Committing a roster: replay the preview as writes, or change nothing. */
module RosterCommit {
  import opened Contract
  import opened Rows
  import opened Roster
  import opened RosterPreview
  import opened Database
  import opened Writes

  /** The shape of a parsed document, and no edge whose key is also a person's. */
  ghost predicate WellFormed(doc: Document) {
    Parsed(doc) && KeysApart(doc)
  }

  /** Trimmed texts, non-empty identifiers, each record once, edges of a known kind. */
  ghost predicate Parsed(doc: Document) {
    && Unique(doc.adults, SourceAdultId) && Unique(doc.students, SourceStudentId) && Unique(doc.edges, SourceEdgeKey)
    && (forall a :: a in doc.adults ==> a.id != "" && Trimmed(a.id) && Trimmed(a.given) && Trimmed(a.family) && Trimmed(a.email))
    && (forall s :: s in doc.students ==> s.id != "" && Trimmed(s.id) && Trimmed(s.given) && Trimmed(s.family))
    && (forall e :: e in doc.edges ==> e.kind in KINDS)
    && (forall row :: row in doc.rows ==> Trimmed(row.adult) && forall s :: s in row.students ==> Trimmed(s))
  }

  /** The edge does not share its key in the preview's index with a person of the document. That takes an adult whose
    * identifier is the word "adult" or "student". */
  ghost predicate KeyApart(doc: Document, e: SourceEdge) {
    && (forall a :: a in doc.adults ==> SourceEdgeKey(e) != PersonKey("adult", a.id))
    && forall s :: s in doc.students ==> SourceEdgeKey(e) != PersonKey("student", s.id)
  }

  ghost predicate KeysApart(doc: Document) {
    && (forall e :: e in doc.edges ==> KeyApart(doc, e))
    && (forall row, e :: row in doc.rows && e in row.edges ==> KeyApart(doc, e))
  }

  // ---- what is written ----

  function NewAdult(source: SourceAdult, id: nat): Adult {
    Adult(id, source.given, source.family, None, if source.email == "" then None else Some(source.email), None, Some(source.id), None, false)
  }

  /** Names and email are taken over where the source gives them; everything else stays. */
  function MergedAdult(source: SourceAdult, current: Adult): Adult {
    current.(given := if source.given == "" then current.given else source.given,
             family := if source.family == "" then current.family else source.family,
             email := if source.email == "" then current.email else Some(source.email))
  }

  function NewStudent(source: SourceStudent, homeroom: nat, id: nat): Student {
    Student(id, None, homeroom, source.given, source.family, None, Some(source.id), false, false)
  }

  function MergedStudent(source: SourceStudent, homeroom: nat, current: Student): Student {
    current.(given := if source.given == "" then current.given else source.given,
             family := if source.family == "" then current.family else source.family,
             homeroom := homeroom)
  }

  ghost predicate AdultWritten(st: Snapshot, source: SourceAdult, row: Adult) {
    var matches := Matching(st.adults, AdultKey, source.id);
    match AdultOutcome(st, source)
    case Create => matches == [] && row == NewAdult(source, row.id)
    case Update => |matches| == 1 && row == MergedAdult(source, matches[0])
    case Unchanged => matches == [row]
    case Conflict => false
    case Error => false
  }

  ghost predicate StudentWritten(st: Snapshot, source: SourceStudent, row: Student) {
    var matches := Matching(st.students, StudentKey, source.id);
    var homeroom := ResolveHomeroom(source.classroom, st.homerooms);
    match StudentOutcome(st, source)
    case Create => homeroom.Some? && matches == [] && row == NewStudent(source, homeroom.value, row.id)
    case Update => homeroom.Some? && |matches| == 1 && row == MergedStudent(source, homeroom.value, matches[0])
    case Unchanged => matches == [row]
    case Conflict => false
    case Error => false
  }

  ghost predicate AdultsDone(st: Snapshot, sources: seq<SourceAdult>, now: seq<Adult>, rowOf: map<string, Adult>) {
    Done(sources, SourceAdultId, s => AdultOutcome(st, s) == Conflict, (s, row) => AdultWritten(st, s, row), AdultKey, st.adults, now, rowOf)
  }

  ghost predicate StudentsDone(st: Snapshot, sources: seq<SourceStudent>, now: seq<Student>, rowOf: map<string, Student>) {
    Done(sources, SourceStudentId, s => StudentOutcome(st, s) == Conflict, (s, row) => StudentWritten(st, s, row), StudentKey, st.students, now, rowOf)
  }

  // ---- the preview's index ----

  /** What the writer looks up: the outcome of every record some retained row shows, and nothing else. */
  ghost predicate IndexOf(doc: Document, st: Snapshot, records: map<(string, string), Outcome>) {
    && (forall key :: key in records ==> Listed(doc, st, Record(key, records[key])))
    && (forall r :: Listed(doc, st, r) ==> r.key in records)
  }

  method PreviewRecordIndex(preview: Preview, ghost doc: Document, ghost st: Snapshot) returns (records: map<(string, string), Outcome>)
    requires RowsList(doc, st, preview.rows)
    ensures IndexOf(doc, st, records)
  {
    hide Listed;
    records := map[];
    for i := 0 to |preview.rows|
      invariant forall key :: key in records ==> Holds(preview.rows, Record(key, records[key]))
      invariant forall k, r :: 0 <= k < i && r in preview.rows[k].records ==> r.key in records
    {
      var row := preview.rows[i];
      for j := 0 to |row.records|
        invariant forall key :: key in records ==> Holds(preview.rows, Record(key, records[key]))
        invariant forall k, r :: 0 <= k < i && r in preview.rows[k].records ==> r.key in records
        invariant forall r :: r in row.records[..j] ==> r.key in records
      {
        var r := row.records[j];
        assert row in preview.rows && r in row.records;
        assert Holds(preview.rows, Record(r.key, r.outcome));
        records := records[r.key := r.outcome];
      }
      assert row.records[..|row.records|] == row.records;
    }
    forall r | Listed(doc, st, r)
      ensures r.key in records
    {
      assert Holds(preview.rows, r);
    }
  }

  /** Some row of a retained adult names them. */
  ghost predicate AdultShown(doc: Document, id: string) {
    exists row :: row in doc.rows && RetainedRow(doc, row) && row.adult == id
  }

  ghost predicate StudentShown(doc: Document, id: string) {
    exists row :: row in doc.rows && RetainedRow(doc, row) && id in row.students
  }

  ghost predicate EdgeShown(doc: Document, e: SourceEdge) {
    exists row, f :: row in doc.rows && RetainedRow(doc, row) && f in row.edges && SourceEdgeKey(f) == SourceEdgeKey(e)
  }

  ghost predicate RetainedRow(doc: Document, row: SourceRow) {
    exists a :: a in doc.adults && a.id == row.adult
  }

  /** Every record of the document appears in some retained row. */
  ghost predicate Complete(doc: Document) {
    && (forall a :: a in doc.adults ==> AdultShown(doc, a.id))
    && (forall s :: s in doc.students ==> StudentShown(doc, s.id))
    && (forall e :: e in doc.edges ==> EdgeShown(doc, e))
  }

  lemma {:induction false} AdultMapValues(st: Snapshot, sources: seq<SourceAdult>, a: SourceAdult)
    requires Unique(sources, SourceAdultId) && a in sources
    ensures a.id in AdultMap(st, sources) && AdultMap(st, sources)[a.id] == AdultOutcome(st, a)
  {
    hide AdultOutcome;
    var n := |sources| - 1;
    if sources[n] != a {
      assert a in sources[..n];
      AdultMapValues(st, sources[..n], a);
      var i :| 0 <= i < n && sources[i] == a;
      assert SourceAdultId(sources[i]) != SourceAdultId(sources[n]);
    }
  }

  lemma {:induction false} StudentMapValues(st: Snapshot, sources: seq<SourceStudent>, s: SourceStudent)
    requires Unique(sources, SourceStudentId) && s in sources
    ensures s.id in StudentMap(st, sources) && StudentMap(st, sources)[s.id] == StudentOutcome(st, s)
  {
    hide StudentOutcome;
    var n := |sources| - 1;
    if sources[n] != s {
      assert s in sources[..n];
      StudentMapValues(st, sources[..n], s);
      var i :| 0 <= i < n && sources[i] == s;
      assert SourceStudentId(sources[i]) != SourceStudentId(sources[n]);
    }
  }

  lemma {:induction false} EdgeMapValues(doc: Document, st: Snapshot, sources: seq<SourceEdge>, e: SourceEdge)
    requires Unique(sources, SourceEdgeKey) && e in sources
    ensures SourceEdgeKey(e) in EdgeMap(doc, st, sources) && EdgeMap(doc, st, sources)[SourceEdgeKey(e)] == EdgeOutcome(doc, st, e)
  {
    hide EdgeOutcome;
    var n := |sources| - 1;
    if sources[n] != e {
      assert e in sources[..n];
      EdgeMapValues(doc, st, sources[..n], e);
      var i :| 0 <= i < n && sources[i] == e;
      assert SourceEdgeKey(sources[i]) != SourceEdgeKey(sources[n]);
    }
  }

  lemma {:induction false} StudentMapKeys(st: Snapshot, sources: seq<SourceStudent>)
    ensures forall id :: id in StudentMap(st, sources) ==> exists s :: s in sources && s.id == id
  {
    hide StudentOutcome;
    if sources != [] {
      var n := |sources| - 1;
      StudentMapKeys(st, sources[..n]);
      assert sources == sources[..n] + [sources[n]];
    }
  }

  lemma {:induction false} EdgeMapKeys(doc: Document, st: Snapshot, sources: seq<SourceEdge>)
    ensures forall key :: key in EdgeMap(doc, st, sources) ==> exists e :: e in sources && SourceEdgeKey(e) == key
  {
    hide EdgeOutcome;
    if sources != [] {
      var n := |sources| - 1;
      EdgeMapKeys(doc, st, sources[..n]);
      assert sources == sources[..n] + [sources[n]];
    }
  }

  lemma ShownIsRetained(doc: Document, st: Snapshot, row: SourceRow, r: Record)
    requires Shows(doc, st, row, r)
    ensures RetainedRow(doc, row)
  {
    AdultMapKeys(st, doc.adults);
  }

  /** A shown record with an adult's key is the adult's own. */
  lemma ShownAdult(doc: Document, st: Snapshot, row: SourceRow, r: Record, a: SourceAdult)
    requires WellFormed(doc) && a in doc.adults && row in doc.rows && Shows(doc, st, row, r) && r.key == PersonKey("adult", a.id)
    ensures row.adult == a.id && a.id in AdultMap(st, doc.adults) && r.outcome == AdultMap(st, doc.adults)[a.id]
  {
    hide AdultMap, StudentMap, EdgeMap, Trim, Unique;
    assert Trim(a.id) == a.id && Trim(row.adult) == row.adult;
    forall e | e in row.edges
      ensures SourceEdgeKey(e) != r.key
    {
      assert KeyApart(doc, e);
    }
  }

  lemma ShownStudent(doc: Document, st: Snapshot, row: SourceRow, r: Record, s: SourceStudent)
    requires WellFormed(doc) && s in doc.students && row in doc.rows && Shows(doc, st, row, r) && r.key == PersonKey("student", s.id)
    ensures s.id in row.students && s.id in StudentMap(st, doc.students) && r.outcome == StudentMap(st, doc.students)[s.id]
  {
    hide AdultMap, StudentMap, EdgeMap, Trim, Unique;
    assert Trim(s.id) == s.id;
    forall e | e in row.edges
      ensures SourceEdgeKey(e) != r.key
    {
      assert KeyApart(doc, e);
    }
  }

  lemma ShownEdge(doc: Document, st: Snapshot, row: SourceRow, r: Record, e: SourceEdge)
    requires WellFormed(doc) && e in doc.edges && row in doc.rows && Shows(doc, st, row, r) && r.key == SourceEdgeKey(e)
    ensures exists f :: f in row.edges && SourceEdgeKey(f) == r.key
    ensures r.key in EdgeMap(doc, st, doc.edges) && r.outcome == EdgeMap(doc, st, doc.edges)[r.key]
  {
    AdultMapKeys(st, doc.adults);
    StudentMapKeys(st, doc.students);
    hide AdultMap, StudentMap, EdgeMap, Trim, Unique, PersonKey;
    assert KeyApart(doc, e);
    ShownIsRetained(doc, st, row, r);
    var a :| a in doc.adults && a.id == row.adult;
    assert r.key != PersonKey("adult", row.adult);
    forall s | s in StudentMap(st, doc.students)
      ensures r.key != PersonKey("student", s)
    {
      var source :| source in doc.students && source.id == s;
    }
  }

  /** The index finds an adult exactly if some row of theirs is retained, and then with their outcome. */
  lemma AdultIndexed(doc: Document, st: Snapshot, records: map<(string, string), Outcome>, a: SourceAdult)
    requires WellFormed(doc) && IndexOf(doc, st, records) && a in doc.adults
    ensures PersonKey("adult", a.id) in records <==> AdultShown(doc, a.id)
    ensures AdultShown(doc, a.id) ==> records[PersonKey("adult", a.id)] == AdultOutcome(st, a)
  {
    hide AdultMap, StudentMap, EdgeMap, AdultOutcome, Trim, Unique, KeysApart;
    AdultMapKeys(st, doc.adults);
    AdultMapValues(st, doc.adults, a);
    var key := PersonKey("adult", a.id);
    var shown := Record(key, AdultMap(st, doc.adults)[a.id]);
    if AdultShown(doc, a.id) {
      var row :| row in doc.rows && RetainedRow(doc, row) && row.adult == a.id;
      assert Shows(doc, st, row, shown);
      assert Listed(doc, st, shown);
    }
    if key in records {
      var row :| row in doc.rows && Shows(doc, st, row, Record(key, records[key]));
      ShownIsRetained(doc, st, row, Record(key, records[key]));
      ShownAdult(doc, st, row, Record(key, records[key]), a);
    }
  }

  lemma StudentIndexed(doc: Document, st: Snapshot, records: map<(string, string), Outcome>, s: SourceStudent)
    requires WellFormed(doc) && IndexOf(doc, st, records) && s in doc.students
    ensures PersonKey("student", s.id) in records <==> StudentShown(doc, s.id)
    ensures StudentShown(doc, s.id) ==> records[PersonKey("student", s.id)] == StudentOutcome(st, s)
  {
    hide AdultMap, StudentMap, EdgeMap, StudentOutcome, Trim, Unique, KeysApart;
    AdultMapKeys(st, doc.adults);
    StudentMapValues(st, doc.students, s);
    var key := PersonKey("student", s.id);
    var shown := Record(key, StudentMap(st, doc.students)[s.id]);
    if StudentShown(doc, s.id) {
      var row :| row in doc.rows && RetainedRow(doc, row) && s.id in row.students;
      assert Shows(doc, st, row, shown);
      assert Listed(doc, st, shown);
    }
    if key in records {
      var row :| row in doc.rows && Shows(doc, st, row, Record(key, records[key]));
      ShownIsRetained(doc, st, row, Record(key, records[key]));
      ShownStudent(doc, st, row, Record(key, records[key]), s);
    }
  }

  lemma EdgeIndexed(doc: Document, st: Snapshot, records: map<(string, string), Outcome>, e: SourceEdge)
    requires WellFormed(doc) && IndexOf(doc, st, records) && e in doc.edges
    ensures SourceEdgeKey(e) in records <==> EdgeShown(doc, e)
    ensures EdgeShown(doc, e) ==> records[SourceEdgeKey(e)] == EdgeOutcome(doc, st, e)
  {
    hide AdultMap, StudentMap, EdgeMap, EdgeOutcome, Trim, Unique, KeysApart;
    AdultMapKeys(st, doc.adults);
    EdgeMapValues(doc, st, doc.edges, e);
    var key := SourceEdgeKey(e);
    var shown := Record(key, EdgeMap(doc, st, doc.edges)[key]);
    if EdgeShown(doc, e) {
      var row, f :| row in doc.rows && RetainedRow(doc, row) && f in row.edges && SourceEdgeKey(f) == key;
      assert Shows(doc, st, row, shown);
      assert Listed(doc, st, shown);
    }
    if key in records {
      var row :| row in doc.rows && Shows(doc, st, row, Record(key, records[key]));
      ShownIsRetained(doc, st, row, Record(key, records[key]));
      ShownEdge(doc, st, row, Record(key, records[key]), e);
    }
  }

  // ---- the writes ----

  lemma StoredExternal(id: string)
    requires Trimmed(id) && id != ""
    ensures Nullable(Some(id)) == Some(id) && ExternalIdentifier(Some(id)) == id
  {
  }

  /** What a clean preview says about an adult's matches. */
  lemma AdultCases(st: Snapshot, source: SourceAdult)
    requires source.id != "" && Trimmed(source.id) && Trimmed(source.given) && Trimmed(source.family)
    ensures var matches := Matching(st.adults, AdultKey, source.id);
            match AdultOutcome(st, source)
            case Create => matches == [] && source.given != "" && source.family != ""
            case Update => |matches| == 1 && !matches[0].deleted
            case Unchanged => |matches| == 1 && !matches[0].deleted
            case Conflict => |matches| > 1 || (|matches| == 1 && matches[0].deleted)
            case Error => true
  {
  }

  lemma StudentCases(st: Snapshot, source: SourceStudent)
    requires source.id != "" && Trimmed(source.id) && Trimmed(source.given) && Trimmed(source.family)
    ensures var matches := Matching(st.students, StudentKey, source.id);
            match StudentOutcome(st, source)
            case Create => matches == [] && source.given != "" && source.family != "" && ResolveHomeroom(source.classroom, st.homerooms).Some?
            case Update => |matches| == 1 && !matches[0].deleted && ResolveHomeroom(source.classroom, st.homerooms).Some?
            case Unchanged => |matches| == 1 && !matches[0].deleted && ResolveHomeroom(source.classroom, st.homerooms).Some?
            case Conflict => |matches| > 1 || (|matches| == 1 && matches[0].deleted)
            case Error => true
  {
  }

  /** The state of the adults' loop. */
  ghost predicate AdultsAt(tx: Tx, st: Snapshot, sources: seq<SourceAdult>, i: nat, rowOf: map<string, Adult>, floor: nat)
    requires i <= |sources|
    reads tx
  {
    && tx.Valid() && floor <= tx.nextId && AdultsDone(st, sources[..i], tx.adults, rowOf) && Grown(st.adults, tx.adults, AdultId, AdultKey, floor)
  }

  lemma UnprocessedAdult(st: Snapshot, sources: seq<SourceAdult>, i: nat, now: seq<Adult>, rowOf: map<string, Adult>)
    requires i < |sources| && Unique(sources, SourceAdultId) && AdultsDone(st, sources[..i], now, rowOf)
    ensures sources[..i + 1] == sources[..i] + [sources[i]]
    ensures forall t :: t in sources[..i] ==> SourceAdultId(t) != SourceAdultId(sources[i])
    ensures Matching(now, AdultKey, sources[i].id) == Matching(st.adults, AdultKey, sources[i].id)
  {
    forall t | t in sources[..i]
      ensures SourceAdultId(t) != SourceAdultId(sources[i])
    {
      var k :| 0 <= k < i && sources[k] == t;
    }
  }

  lemma AdultCreated(st: Snapshot, sources: seq<SourceAdult>, i: nat, now: seq<Adult>, rowOf: map<string, Adult>, row: Adult, floor: nat)
    requires i < |sources| && Unique(sources, SourceAdultId) && AdultsDone(st, sources[..i], now, rowOf) && Grown(st.adults, now, AdultId, AdultKey, floor)
    requires AdultOutcome(st, sources[i]) == Create && AdultWritten(st, sources[i], row) && AdultKey(row) == sources[i].id
    requires Unique(now, AdultId) && (forall a :: a in now ==> a.id != row.id) && row.id >= floor
    ensures AdultsDone(st, sources[..i + 1], now + [row], rowOf[sources[i].id := row])
    ensures Grown(st.adults, now + [row], AdultId, AdultKey, floor)
  {
    hide AdultWritten, Matching;
    UnprocessedAdult(st, sources, i, now, rowOf);
    assert Matching(now, AdultKey, sources[i].id) + [row] == [row];
    Appended(now, AdultId, AdultKey, row);
    OneMore(sources[..i], sources[i], SourceAdultId, s => AdultOutcome(st, s) == Conflict, (s, r) => AdultWritten(st, s, r),
            AdultKey, st.adults, now, now + [row], rowOf, row);
  }

  lemma AdultMerged(st: Snapshot, sources: seq<SourceAdult>, i: nat, now: seq<Adult>, rowOf: map<string, Adult>, row: Adult, floor: nat)
    requires i < |sources| && Unique(sources, SourceAdultId) && AdultsDone(st, sources[..i], now, rowOf) && Grown(st.adults, now, AdultId, AdultKey, floor)
    requires AdultOutcome(st, sources[i]) == Update && AdultWritten(st, sources[i], row)
    requires Unique(now, AdultId)
    ensures AdultsDone(st, sources[..i + 1], Replace(now, AdultId, row), rowOf[sources[i].id := row])
    ensures Grown(st.adults, Replace(now, AdultId, row), AdultId, AdultKey, floor)
  {
    hide AdultOutcome;
    UnprocessedAdult(st, sources, i, now, rowOf);
    var current := Matching(st.adults, AdultKey, sources[i].id)[0];
    assert Matching(now, AdultKey, sources[i].id) == [current];
    MatchingMembers(now, AdultKey, sources[i].id);
    assert current in Matching(now, AdultKey, sources[i].id);
    Overwritten(now, AdultId, AdultKey, current, row);
    GrownTwice(st.adults, now, Replace(now, AdultId, row), AdultId, AdultKey, floor);
    OneMore(sources[..i], sources[i], SourceAdultId, s => AdultOutcome(st, s) == Conflict, (s, r) => AdultWritten(st, s, r),
            AdultKey, st.adults, now, Replace(now, AdultId, row), rowOf, row);
  }

  lemma AdultKept(st: Snapshot, sources: seq<SourceAdult>, i: nat, now: seq<Adult>, rowOf: map<string, Adult>, row: Adult)
    requires i < |sources| && Unique(sources, SourceAdultId) && AdultsDone(st, sources[..i], now, rowOf)
    requires AdultOutcome(st, sources[i]) == Unchanged && AdultWritten(st, sources[i], row)
    ensures AdultsDone(st, sources[..i + 1], now, rowOf[sources[i].id := row])
  {
    hide AdultOutcome;
    UnprocessedAdult(st, sources, i, now, rowOf);
    OneMore(sources[..i], sources[i], SourceAdultId, s => AdultOutcome(st, s) == Conflict, (s, r) => AdultWritten(st, s, r),
            AdultKey, st.adults, now, now, rowOf, row);
  }

  lemma AdultSkipped(st: Snapshot, sources: seq<SourceAdult>, i: nat, now: seq<Adult>, rowOf: map<string, Adult>)
    requires i < |sources| && Unique(sources, SourceAdultId) && AdultsDone(st, sources[..i], now, rowOf)
    requires AdultOutcome(st, sources[i]) == Conflict
    ensures AdultsDone(st, sources[..i + 1], now, rowOf)
  {
    hide AdultOutcome;
    UnprocessedAdult(st, sources, i, now, rowOf);
    OneSkipped(sources[..i], sources[i], SourceAdultId, s => AdultOutcome(st, s) == Conflict, (s, r) => AdultWritten(st, s, r),
               AdultKey, st.adults, now, rowOf);
  }

  /** Writes the adults. It stops at the first one absent from the preview; otherwise no check fails. */
  method WriteAdults(tx: Tx, doc: Document, st: Snapshot, records: map<(string, string), Outcome>)
    returns (ok: bool, adultBySource: map<string, Adult>)
    requires WellFormed(doc) && tx.Valid() && tx.adults == st.adults
    requires IndexOf(doc, st, records) && forall a :: a in doc.adults ==> AdultOutcome(st, a) != Error
    modifies tx`adults, tx`nextId
    ensures tx.Valid() && old(tx.nextId) <= tx.nextId
    ensures ok <==> forall a :: a in doc.adults ==> AdultShown(doc, a.id)
    ensures ok ==> AdultsAt(tx, st, doc.adults, |doc.adults|, adultBySource, old(tx.nextId))
  {
    hide AdultOutcome, IndexOf, AdultShown, AdultsDone, Grown, AdultWritten, Matching;
    adultBySource := map[];
    AdultsStart(st, tx.nextId);
    for i := 0 to |doc.adults|
      invariant AdultsAt(tx, st, doc.adults, i, adultBySource, old(tx.nextId)) && old(tx.nextId) <= tx.nextId
      invariant tx.relationships == old(tx.relationships) && tx.students == old(tx.students)
      invariant forall k :: 0 <= k < i ==> AdultShown(doc, doc.adults[k].id)
    {
      var source := doc.adults[i];
      assert source in doc.adults;
      AdultIndexed(doc, st, records, source);
      if PersonKey("adult", source.id) !in records {
        return false, adultBySource;
      }
      var outcome := records[PersonKey("adult", source.id)];
      if outcome == Conflict {
        AdultSkipped(st, doc.adults, i, tx.adults, adultBySource);
        continue;
      }
      var row := WriteAdult(tx, st, source, outcome, doc.adults, i, adultBySource, old(tx.nextId));
      adultBySource := adultBySource[source.id := row];
    }
    return true, adultBySource;
  }

  lemma AdultsStart(st: Snapshot, floor: nat)
    ensures AdultsDone(st, [], st.adults, map[]) && Grown(st.adults, st.adults, AdultId, AdultKey, floor)
  {
  }

  /** One adult that is not in conflict. The matches are those of the snapshot, as the preview saw them. */
  method WriteAdult(tx: Tx, st: Snapshot, source: SourceAdult, outcome: Outcome,
                    ghost sources: seq<SourceAdult>, ghost i: nat, ghost rowOf: map<string, Adult>, ghost floor: nat) returns (row: Adult)
    requires i < |sources| && sources[i] == source && Unique(sources, SourceAdultId)
    requires AdultsAt(tx, st, sources, i, rowOf, floor)
    requires source.id != "" && Trimmed(source.id) && Trimmed(source.given) && Trimmed(source.family) && Trimmed(source.email)
    requires outcome == AdultOutcome(st, source) && outcome != Error && outcome != Conflict
    requires forall a :: a in st.adults ==> StoredAdult(a)
    modifies tx`adults, tx`nextId
    ensures old(tx.nextId) <= tx.nextId
    ensures AdultsAt(tx, st, sources, i + 1, rowOf[source.id := row], floor)
  {
    hide AdultOutcome, AdultsDone, Grown, Matching, Parted, Registered, Taken;
    AdultCases(st, source);
    StoredExternal(source.id);
    var matches := Matching(st.adults, AdultKey, source.id);
    match outcome {
      case Unchanged =>
        row := matches[0];
        AdultKept(st, sources, i, tx.adults, rowOf, row);
      case Create =>
        var email := if Trim(source.email) == "" then None else Some(Trim(source.email));
        ghost var now := tx.adults;
        UnprocessedAdult(st, sources, i, now, rowOf);
        NobodyHolds(now, source.id, tx.nextId);
        var created := tx.CreateAdult(source.given, source.family, email, Some(Trim(source.id)));
        row := created.value;
        AdultCreated(st, sources, i, now, rowOf, row, floor);
      case Update =>
        var current := matches[0];
        StoredCurrent(st, source);
        var given := if Trim(source.given) != "" then source.given else current.given;
        var family := if Trim(source.family) != "" then source.family else current.family;
        var email := if Trim(source.email) != "" then Some(Trim(source.email)) else current.email;
        ghost var now := tx.adults;
        UnprocessedAdult(st, sources, i, now, rowOf);
        MatchingMembers(now, AdultKey, source.id);
        assert current in Matching(now, AdultKey, source.id);
        AdultHolds(now, tx.students, tx.relationships, tx.hidden, tx.nextId, current);
        var updated := tx.UpdateAdult(current.id, given, family, current.preferred, email, current.phone, current.externalId, current.intent);
        row := updated.value;
        AdultMerged(st, sources, i, now, rowOf, row, floor);
    }
  }

  lemma StoredCurrent(st: Snapshot, source: SourceAdult)
    requires forall a :: a in st.adults ==> StoredAdult(a)
    requires Matching(st.adults, AdultKey, source.id) != []
    ensures Matching(st.adults, AdultKey, source.id)[0] in st.adults && StoredAdult(Matching(st.adults, AdultKey, source.id)[0])
  {
    MatchingMembers(st.adults, AdultKey, source.id);
    assert Matching(st.adults, AdultKey, source.id)[0] in Matching(st.adults, AdultKey, source.id);
  }

  /** The state of the students' loop. */
  ghost predicate StudentsAt(tx: Tx, st: Snapshot, sources: seq<SourceStudent>, i: nat, rowOf: map<string, Student>, floor: nat)
    requires i <= |sources|
    reads tx
  {
    && tx.Valid() && floor <= tx.nextId && StudentsDone(st, sources[..i], tx.students, rowOf) && Grown(st.students, tx.students, StudentId, StudentKey, floor)
  }

  lemma UnprocessedStudent(st: Snapshot, sources: seq<SourceStudent>, i: nat, now: seq<Student>, rowOf: map<string, Student>)
    requires i < |sources| && Unique(sources, SourceStudentId) && StudentsDone(st, sources[..i], now, rowOf)
    ensures sources[..i + 1] == sources[..i] + [sources[i]]
    ensures forall t :: t in sources[..i] ==> SourceStudentId(t) != SourceStudentId(sources[i])
    ensures Matching(now, StudentKey, sources[i].id) == Matching(st.students, StudentKey, sources[i].id)
  {
    forall t | t in sources[..i]
      ensures SourceStudentId(t) != SourceStudentId(sources[i])
    {
      var k :| 0 <= k < i && sources[k] == t;
    }
  }

  lemma StudentCreated(st: Snapshot, sources: seq<SourceStudent>, i: nat, now: seq<Student>, rowOf: map<string, Student>, row: Student, floor: nat)
    requires i < |sources| && Unique(sources, SourceStudentId) && StudentsDone(st, sources[..i], now, rowOf) && Grown(st.students, now, StudentId, StudentKey, floor)
    requires StudentOutcome(st, sources[i]) == Create && StudentWritten(st, sources[i], row) && StudentKey(row) == sources[i].id
    requires Unique(now, StudentId) && (forall a :: a in now ==> a.id != row.id) && row.id >= floor
    ensures StudentsDone(st, sources[..i + 1], now + [row], rowOf[sources[i].id := row])
    ensures Grown(st.students, now + [row], StudentId, StudentKey, floor)
  {
    hide StudentWritten, Matching;
    UnprocessedStudent(st, sources, i, now, rowOf);
    assert Matching(now, StudentKey, sources[i].id) + [row] == [row];
    Appended(now, StudentId, StudentKey, row);
    OneMore(sources[..i], sources[i], SourceStudentId, s => StudentOutcome(st, s) == Conflict, (s, r) => StudentWritten(st, s, r),
            StudentKey, st.students, now, now + [row], rowOf, row);
  }

  lemma StudentMerged(st: Snapshot, sources: seq<SourceStudent>, i: nat, now: seq<Student>, rowOf: map<string, Student>, row: Student, floor: nat)
    requires i < |sources| && Unique(sources, SourceStudentId) && StudentsDone(st, sources[..i], now, rowOf) && Grown(st.students, now, StudentId, StudentKey, floor)
    requires StudentOutcome(st, sources[i]) == Update && StudentWritten(st, sources[i], row)
    requires Unique(now, StudentId)
    ensures StudentsDone(st, sources[..i + 1], Replace(now, StudentId, row), rowOf[sources[i].id := row])
    ensures Grown(st.students, Replace(now, StudentId, row), StudentId, StudentKey, floor)
  {
    hide StudentOutcome;
    UnprocessedStudent(st, sources, i, now, rowOf);
    var current := Matching(st.students, StudentKey, sources[i].id)[0];
    assert Matching(now, StudentKey, sources[i].id) == [current];
    MatchingMembers(now, StudentKey, sources[i].id);
    assert current in Matching(now, StudentKey, sources[i].id);
    Overwritten(now, StudentId, StudentKey, current, row);
    GrownTwice(st.students, now, Replace(now, StudentId, row), StudentId, StudentKey, floor);
    OneMore(sources[..i], sources[i], SourceStudentId, s => StudentOutcome(st, s) == Conflict, (s, r) => StudentWritten(st, s, r),
            StudentKey, st.students, now, Replace(now, StudentId, row), rowOf, row);
  }

  lemma StudentKept(st: Snapshot, sources: seq<SourceStudent>, i: nat, now: seq<Student>, rowOf: map<string, Student>, row: Student)
    requires i < |sources| && Unique(sources, SourceStudentId) && StudentsDone(st, sources[..i], now, rowOf)
    requires StudentOutcome(st, sources[i]) == Unchanged && StudentWritten(st, sources[i], row)
    ensures StudentsDone(st, sources[..i + 1], now, rowOf[sources[i].id := row])
  {
    hide StudentOutcome;
    UnprocessedStudent(st, sources, i, now, rowOf);
    OneMore(sources[..i], sources[i], SourceStudentId, s => StudentOutcome(st, s) == Conflict, (s, r) => StudentWritten(st, s, r),
            StudentKey, st.students, now, now, rowOf, row);
  }

  lemma StudentSkipped(st: Snapshot, sources: seq<SourceStudent>, i: nat, now: seq<Student>, rowOf: map<string, Student>)
    requires i < |sources| && Unique(sources, SourceStudentId) && StudentsDone(st, sources[..i], now, rowOf)
    requires StudentOutcome(st, sources[i]) == Conflict
    ensures StudentsDone(st, sources[..i + 1], now, rowOf)
  {
    hide StudentOutcome;
    UnprocessedStudent(st, sources, i, now, rowOf);
    OneSkipped(sources[..i], sources[i], SourceStudentId, s => StudentOutcome(st, s) == Conflict, (s, r) => StudentWritten(st, s, r),
               StudentKey, st.students, now, rowOf);
  }

  /** Writes the students. It stops at the first one absent from the preview; otherwise no check fails. */
  method WriteStudents(tx: Tx, doc: Document, st: Snapshot, records: map<(string, string), Outcome>)
    returns (ok: bool, studentBySource: map<string, Student>)
    requires WellFormed(doc) && tx.Valid() && tx.students == st.students
    requires IndexOf(doc, st, records) && forall a :: a in doc.students ==> StudentOutcome(st, a) != Error
    modifies tx`students, tx`nextId
    ensures tx.Valid() && old(tx.nextId) <= tx.nextId
    ensures ok <==> forall a :: a in doc.students ==> StudentShown(doc, a.id)
    ensures ok ==> StudentsAt(tx, st, doc.students, |doc.students|, studentBySource, old(tx.nextId))
  {
    hide StudentOutcome, IndexOf, StudentShown, StudentsDone, Grown, StudentWritten, Matching;
    studentBySource := map[];
    StudentsStart(st, tx.nextId);
    for i := 0 to |doc.students|
      invariant StudentsAt(tx, st, doc.students, i, studentBySource, old(tx.nextId)) && old(tx.nextId) <= tx.nextId
      invariant forall k :: 0 <= k < i ==> StudentShown(doc, doc.students[k].id)
    {
      var source := doc.students[i];
      assert source in doc.students;
      StudentIndexed(doc, st, records, source);
      if PersonKey("student", source.id) !in records {
        return false, studentBySource;
      }
      var outcome := records[PersonKey("student", source.id)];
      if outcome == Conflict {
        StudentSkipped(st, doc.students, i, tx.students, studentBySource);
        continue;
      }
      var row := WriteStudent(tx, st, source, outcome, doc.students, i, studentBySource, old(tx.nextId));
      studentBySource := studentBySource[source.id := row];
    }
    return true, studentBySource;
  }

  lemma StudentsStart(st: Snapshot, floor: nat)
    ensures StudentsDone(st, [], st.students, map[]) && Grown(st.students, st.students, StudentId, StudentKey, floor)
  {
  }

  /** One student that is not in conflict. The matches are those of the snapshot, as the preview saw them. */
  method WriteStudent(tx: Tx, st: Snapshot, source: SourceStudent, outcome: Outcome,
                    ghost sources: seq<SourceStudent>, ghost i: nat, ghost rowOf: map<string, Student>, ghost floor: nat) returns (row: Student)
    requires i < |sources| && sources[i] == source && Unique(sources, SourceStudentId)
    requires StudentsAt(tx, st, sources, i, rowOf, floor)
    requires source.id != "" && Trimmed(source.id) && Trimmed(source.given) && Trimmed(source.family)
    requires outcome == StudentOutcome(st, source) && outcome != Error && outcome != Conflict
    requires forall a :: a in st.students ==> StoredStudent(a)
    modifies tx`students, tx`nextId
    ensures old(tx.nextId) <= tx.nextId
    ensures StudentsAt(tx, st, sources, i + 1, rowOf[source.id := row], floor)
  {
    hide StudentOutcome, StudentsDone, Grown, Matching, ResolveHomeroom, Parted, Registered, Taken, Placeholder;
    StudentCases(st, source);
    StoredExternal(source.id);
    var matches := Matching(st.students, StudentKey, source.id);
    var homeroom := ResolveHomeroom(source.classroom, st.homerooms);
    match outcome {
      case Unchanged =>
        row := matches[0];
        StudentKept(st, sources, i, tx.students, rowOf, row);
      case Create =>
        ghost var now := tx.students;
        UnprocessedStudent(st, sources, i, now, rowOf);
        NoStudentHolds(now, source.id, tx.nextId);
        var created := tx.CreateStudent(homeroom.value, source.given, source.family, Some(Trim(source.id)));
        row := created.value;
        StudentCreated(st, sources, i, now, rowOf, row, floor);
      case Update =>
        var current := matches[0];
        StoredCurrentStudent(st, source);
        var given := if Trim(source.given) != "" then source.given else current.given;
        var family := if Trim(source.family) != "" then source.family else current.family;
        ghost var now := tx.students;
        UnprocessedStudent(st, sources, i, now, rowOf);
        MatchingMembers(now, StudentKey, source.id);
        assert current in Matching(now, StudentKey, source.id);
        StudentHolds(tx.adults, now, tx.relationships, tx.hidden, tx.nextId, current);
        var updated := tx.UpdateStudent(current.id, given, family, current.preferred, current.gradeLevel, homeroom.value, current.externalId);
        row := updated.value;
        StudentMerged(st, sources, i, now, rowOf, row, floor);
    }
  }

  lemma StoredCurrentStudent(st: Snapshot, source: SourceStudent)
    requires forall s :: s in st.students ==> StoredStudent(s)
    requires Matching(st.students, StudentKey, source.id) != []
    ensures Matching(st.students, StudentKey, source.id)[0] in st.students && StoredStudent(Matching(st.students, StudentKey, source.id)[0])
  {
    MatchingMembers(st.students, StudentKey, source.id);
    assert Matching(st.students, StudentKey, source.id)[0] in Matching(st.students, StudentKey, source.id);
  }
}
