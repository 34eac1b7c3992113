/** The preview half of the import: classify every record, lay it out by row, and count. */
module RosterPreview {
  import opened Counting
  import opened Rows
  import opened Roster

  datatype RowPreview = RowPreview(adult: string, records: seq<Record>, outcome: Outcome)
  datatype Preview = Preview(rows: seq<RowPreview>, removals: seq<Relationship>, counts: Counts)

  const PRIORITY := [Error, Conflict, Update, Create, Unchanged]

  lemma InPriority(o: Outcome)
    ensures exists i :: 0 <= i < |PRIORITY| && PRIORITY[i] == o
  {
    var i := match o case Error => 0 case Conflict => 1 case Update => 2 case Create => 3 case Unchanged => 4;
    assert PRIORITY[i] == o;
  }

  /** The first outcome of the priority list that some record has. */
  ghost predicate RolledUp(records: seq<Record>, outcome: Outcome) {
    if records == [] then outcome == Unchanged
    else exists i, r :: 0 <= i < |PRIORITY| && r in records && r.outcome == PRIORITY[i] == outcome
                        && forall j, s :: 0 <= j < i && s in records ==> s.outcome != PRIORITY[j]
  }

  ghost predicate SomeRecord(records: seq<Record>, o: Outcome) {
    exists r :: r in records && r.outcome == o
  }

  /** An error outweighs a conflict, a conflict an update, an update a creation, and a creation what stays as it is. */
  ghost predicate Outweighs(records: seq<Record>, outcome: Outcome) {
    && (outcome == Error <==> SomeRecord(records, Error))
    && (outcome == Conflict <==> SomeRecord(records, Conflict) && !SomeRecord(records, Error))
    && (outcome == Update <==> SomeRecord(records, Update) && !SomeRecord(records, Conflict) && !SomeRecord(records, Error))
    && (outcome == Create <==>
          SomeRecord(records, Create) && !SomeRecord(records, Update) && !SomeRecord(records, Conflict) && !SomeRecord(records, Error))
  }

  lemma RolledUpOutweighs(records: seq<Record>, outcome: Outcome)
    requires RolledUp(records, outcome)
    ensures Outweighs(records, outcome)
  {
    if records != [] {
      var i, r :| 0 <= i < |PRIORITY| && r in records && r.outcome == PRIORITY[i] == outcome
                  && forall j, s :: 0 <= j < i && s in records ==> s.outcome != PRIORITY[j];
      assert PRIORITY[0] == Error && PRIORITY[1] == Conflict && PRIORITY[2] == Update && PRIORITY[3] == Create && PRIORITY[4] == Unchanged;
    }
  }

  method Rollup(records: seq<Record>) returns (outcome: Outcome)
    ensures RolledUp(records, outcome) && Outweighs(records, outcome)
  {
    hide Outweighs;
    if records != [] {
      InPriority(records[0].outcome);
      assert records[0] in records;
    }
    for i := 0 to |PRIORITY|
      invariant forall j, s :: 0 <= j < i && s in records ==> s.outcome != PRIORITY[j]
    {
      for k := 0 to |records|
        invariant forall s :: s in records[..k] ==> s.outcome != PRIORITY[i]
      {
        if records[k].outcome == PRIORITY[i] {
          assert records[k] in records;
          RolledUpOutweighs(records, PRIORITY[i]);
          return PRIORITY[i];
        }
      }
      assert records[..|records|] == records;
    }
    RolledUpOutweighs(records, Unchanged);
    return Unchanged;
  }

  method PreviewAdults(doc: Document, st: Snapshot) returns (previews: map<string, Outcome>)
    ensures previews == AdultMap(st, doc.adults)
  {
    previews := map[];
    for i := 0 to |doc.adults|
      invariant previews == AdultMap(st, doc.adults[..i])
    {
      var source := doc.adults[i];
      assert doc.adults[..i + 1][..i] == doc.adults[..i];
      previews := previews[source.id := ClassifyAdult(source, Matching(st.adults, AdultKey, source.id))];
    }
    assert doc.adults[..|doc.adults|] == doc.adults;
  }

  method PreviewStudents(doc: Document, st: Snapshot) returns (previews: map<string, Outcome>)
    ensures previews == StudentMap(st, doc.students)
  {
    previews := map[];
    for i := 0 to |doc.students|
      invariant previews == StudentMap(st, doc.students[..i])
    {
      var source := doc.students[i];
      assert doc.students[..i + 1][..i] == doc.students[..i];
      previews := previews[source.id := ClassifyStudent(source, Matching(st.students, StudentKey, source.id), st.homerooms)];
    }
    assert doc.students[..|doc.students|] == doc.students;
  }

  method PreviewEdges(doc: Document, st: Snapshot, adults: map<string, Outcome>, students: map<string, Outcome>)
    returns (previews: map<(string, string), Outcome>)
    requires adults == AdultMap(st, doc.adults) && students == StudentMap(st, doc.students)
    ensures previews == EdgeMap(doc, st, doc.edges)
  {
    hide AdultMap, StudentMap, ClassifyEdge;
    previews := map[];
    for i := 0 to |doc.edges|
      invariant previews == EdgeMap(doc, st, doc.edges[..i])
    {
      var source := doc.edges[i];
      assert doc.edges[..i + 1][..i] == doc.edges[..i];
      previews := previews[SourceEdgeKey(source) := ClassifyEdge(source, Lookup(adults, source.adultId), Lookup(students, source.studentId),
        Matching(st.adults, AdultKey, source.adultId), Matching(st.students, StudentKey, source.studentId), st.relationships)];
    }
    assert doc.edges[..|doc.edges|] == doc.edges;
  }

  /** One retained row: its records in order, and the outcome they roll up to. */
  ghost predicate RowShown(doc: Document, st: Snapshot, row: SourceRow, preview: RowPreview)
    requires row.adult in AdultMap(st, doc.adults)
  {
    && preview.adult == row.adult
    && preview.records == RowRecords(row, AdultMap(st, doc.adults), StudentMap(st, doc.students), EdgeMap(doc, st, doc.edges))
    && RolledUp(preview.records, preview.outcome) && Outweighs(preview.records, preview.outcome)
  }

  method PreviewRow(doc: Document, ghost st: Snapshot, row: SourceRow, adults: map<string, Outcome>, students: map<string, Outcome>,
                    edges: map<(string, string), Outcome>)
    returns (preview: RowPreview, sourceEdges: set<(string, string)>)
    requires adults == AdultMap(st, doc.adults) && students == StudentMap(st, doc.students) && edges == EdgeMap(doc, st, doc.edges)
    requires row.adult in adults
    ensures RowShown(doc, st, row, preview)
    ensures sourceEdges == set e | e in row.edges :: SourceEdgeKey(e)
  {
    hide AdultMap, StudentMap, EdgeMap, PersonKey, RolledUp, Outweighs, Firsts, StudentRecords, EdgeRecords, EdgeKeys;
    var records := [Record(PersonKey("adult", row.adult), adults[row.adult])];
    ghost var adult := records;
    var seenStudents: set<string> := {};
    NoRecords(students, edges);
    for i := 0 to |row.students|
      invariant seenStudents == Elements(row.students[..i])
      invariant records == adult + StudentRecords(Firsts(row.students[..i]), students)
    {
      var s := row.students[i];
      assert row.students[..i + 1] == row.students[..i] + [s];
      StudentAdded(row.students[..i], s, students);
      if s in seenStudents {
        continue;
      }
      seenStudents := seenStudents + {s};
      if s in students {
        records := records + [Record(PersonKey("student", s), students[s])];
      }
    }
    assert row.students[..|row.students|] == row.students;
    ghost var people := records;
    sourceEdges := {};
    for i := 0 to |row.edges|
      invariant sourceEdges == Elements(EdgeKeys(row.edges[..i]))
      invariant records == people + EdgeRecords(Firsts(EdgeKeys(row.edges[..i])), edges)
    {
      var key := SourceEdgeKey(row.edges[i]);
      assert row.edges[..i + 1] == row.edges[..i] + [row.edges[i]];
      EdgeAdded(row.edges[..i], row.edges[i], edges);
      if key in sourceEdges {
        continue;
      }
      if key in edges {
        records := records + [Record(key, edges[key])];
      }
      sourceEdges := sourceEdges + {key};
    }
    assert row.edges[..|row.edges|] == row.edges;
    EdgeKeysMembers(row.edges);
    var outcome := Rollup(records);
    preview := RowPreview(row.adult, records, outcome);
  }

  lemma NoRecords(students: map<string, Outcome>, edges: map<(string, string), Outcome>)
    ensures StudentRecords(Firsts([]), students) == [] && EdgeRecords(Firsts(EdgeKeys([])), edges) == [] && EdgeKeys([]) == []
  {
  }

  lemma StudentAdded(ids: seq<string>, s: string, students: map<string, Outcome>)
    ensures Elements(ids + [s]) == Elements(ids) + {s}
    ensures StudentRecords(Firsts(ids + [s]), students) == StudentRecords(Firsts(ids), students)
              + (if s in students && s !in ids then [Record(PersonKey("student", s), students[s])] else [])
  {
    assert (ids + [s])[..|ids|] == ids;
    var before := Firsts(ids);
    assert (before + [s])[..|before|] == before;
  }

  lemma EdgeAdded(sources: seq<SourceEdge>, source: SourceEdge, edges: map<(string, string), Outcome>)
    ensures var keys, key := EdgeKeys(sources), SourceEdgeKey(source);
            Elements(EdgeKeys(sources + [source])) == Elements(keys) + {key}
            && EdgeRecords(Firsts(EdgeKeys(sources + [source])), edges)
               == EdgeRecords(Firsts(keys), edges) + (if key in edges && key !in keys then [Record(key, edges[key])] else [])
  {
    assert (sources + [source])[..|sources|] == sources;
    KeyAdded(EdgeKeys(sources), SourceEdgeKey(source), edges);
  }

  lemma KeyAdded(keys: seq<(string, string)>, key: (string, string), edges: map<(string, string), Outcome>)
    ensures Elements(keys + [key]) == Elements(keys) + {key}
    ensures EdgeRecords(Firsts(keys + [key]), edges)
            == EdgeRecords(Firsts(keys), edges) + (if key in edges && key !in keys then [Record(key, edges[key])] else [])
  {
    assert (keys + [key])[..|keys|] == keys;
    var before := Firsts(keys);
    assert (before + [key])[..|before|] == before;
  }

  /** A retained row lists exactly what it shows. */
  lemma RowRecordsShow(doc: Document, st: Snapshot, row: SourceRow)
    requires row.adult in AdultMap(st, doc.adults)
    ensures forall r :: r in RowRecords(row, AdultMap(st, doc.adults), StudentMap(st, doc.students), EdgeMap(doc, st, doc.edges))
                        <==> Shows(doc, st, row, r)
  {
    hide AdultMap, StudentMap, EdgeMap, PersonKey;
    FirstsOnce(row.students);
    FirstsOnce(EdgeKeys(row.edges));
    EdgeKeysMembers(row.edges);
    StudentRecordsMembers(Firsts(row.students), StudentMap(st, doc.students));
    EdgeRecordsMembers(Firsts(EdgeKeys(row.edges)), EdgeMap(doc, st, doc.edges));
  }

  lemma {:induction false} AdultMapKeys(st: Snapshot, sources: seq<SourceAdult>)
    ensures AdultMap(st, sources).Keys == set a | a in sources :: a.id
  {
    hide AdultOutcome;
    if sources != [] {
      var n := |sources| - 1;
      AdultMapKeys(st, sources[..n]);
      assert sources == sources[..n] + [sources[n]];
    }
  }

  /** Counts one map of previews. */
  method CountOutcomes<K>(previews: map<K, Outcome>, from: Counts) returns (counts: Counts)
    ensures counts == Counts(from.created + Tally(previews, Create), from.updated + Tally(previews, Update),
                             from.kept + Tally(previews, Unchanged), from.conflicts + Tally(previews, Conflict),
                             from.errors + Tally(previews, Error))
  {
    counts := from;
    var todo := previews.Keys;
    ghost var done: map<K, Outcome> := map[];
    TallyNone<K>();
    while todo != {}
      invariant todo <= previews.Keys && done == previews - todo
      invariant counts == Counts(from.created + Tally(done, Create), from.updated + Tally(done, Update),
                                 from.kept + Tally(done, Unchanged), from.conflicts + Tally(done, Conflict),
                                 from.errors + Tally(done, Error))
    {
      var k :| k in todo;
      TallyOne(done, k, previews[k]);
      counts := AddCount(counts, previews[k]);
      todo := todo - {k};
      done := done[k := previews[k]];
    }
    assert done == previews;
  }

  lemma TallyNone<K>()
    ensures forall o :: Tally<K>(map[], o) == 0
  {
    forall o
      ensures Tally<K>(map[], o) == 0
    {
      NoKeys<K>(map[], o);
    }
  }

  lemma NoKeys<K>(m: map<K, Outcome>, o: Outcome)
    requires forall k :: k in m ==> m[k] != o
    ensures Tally(m, o) == 0
  {
    assert (set k | k in m && m[k] == o) == {};
  }

  ghost function Having<K>(m: map<K, Outcome>, o: Outcome): set<K> {
    set k | k in m && m[k] == o
  }

  lemma OutcomeAdded<K>(m: map<K, Outcome>, k: K, outcome: Outcome, o: Outcome)
    requires k !in m
    ensures Having(m[k := outcome], o) == if o == outcome then Having(m, o) + {k} else Having(m, o)
  {
  }

  lemma TallyOne<K>(m: map<K, Outcome>, k: K, outcome: Outcome)
    requires k !in m
    ensures forall o :: Tally(m[k := outcome], o) == Tally(m, o) + (if o == outcome then 1 else 0)
  {
    forall o
      ensures Tally(m[k := outcome], o) == Tally(m, o) + (if o == outcome then 1 else 0)
    {
      OutcomeAdded(m, k, outcome, o);
      assert k !in Having(m, o);
      assert Tally(m, o) == |Having(m, o)| && Tally(m[k := outcome], o) == |Having(m[k := outcome], o)|;
      hide Having, Tally;
    }
  }

  /** The counts of a whole preview. */
  ghost function AllCounts(doc: Document, st: Snapshot): Counts {
    var adults, students, edges := AdultMap(st, doc.adults), StudentMap(st, doc.students), EdgeMap(doc, st, doc.edges);
    Counts(Tally(adults, Create) + Tally(students, Create) + Tally(edges, Create),
           Tally(adults, Update) + Tally(students, Update) + Tally(edges, Update),
           Tally(adults, Unchanged) + Tally(students, Unchanged) + Tally(edges, Unchanged),
           Tally(adults, Conflict) + Tally(students, Conflict) + Tally(edges, Conflict),
           Tally(adults, Error) + Tally(students, Error) + Tally(edges, Error))
  }

  /** One preview for each retained row, in the document's order. */
  ghost predicate RowsShown(doc: Document, st: Snapshot, sources: seq<SourceRow>, rows: seq<RowPreview>) {
    var retained := RetainedRows(AdultMap(st, doc.adults), sources);
    |rows| == |retained| && forall i :: 0 <= i < |rows| ==> retained[i] in retained && RowShown(doc, st, retained[i], rows[i])
  }

  lemma RowAdded(doc: Document, st: Snapshot, sources: seq<SourceRow>, source: SourceRow, rows: seq<RowPreview>, row: RowPreview)
    requires RowsShown(doc, st, sources, rows)
    ensures source.adult !in AdultMap(st, doc.adults) ==> RowsShown(doc, st, sources + [source], rows)
    ensures source.adult in AdultMap(st, doc.adults) && RowShown(doc, st, source, row) ==> RowsShown(doc, st, sources + [source], rows + [row])
  {
    hide AdultMap, RowShown;
    assert (sources + [source])[..|sources|] == sources;
    var retained := RetainedRows(AdultMap(st, doc.adults), sources);
    assert forall i :: 0 <= i < |retained| ==> retained[i] in retained && (retained + [source])[i] == retained[i];
  }

  ghost predicate RowsList(doc: Document, st: Snapshot, rows: seq<RowPreview>) {
    forall r :: Holds(rows, r) <==> Listed(doc, st, r)
  }

  ghost predicate Holds(rows: seq<RowPreview>, r: Record) {
    exists row :: row in rows && r in row.records
  }

  lemma {:induction false} RetainedMembers(adults: map<string, Outcome>, rows: seq<SourceRow>)
    ensures forall row :: row in RetainedRows(adults, rows) <==> row in rows && row.adult in adults
  {
    if rows != [] {
      var n := |rows| - 1;
      RetainedMembers(adults, rows[..n]);
      assert rows == rows[..n] + [rows[n]];
    }
  }

  /** Rows are retained one by one, in the order they came. */
  lemma {:induction false} RetainedSplit(adults: map<string, Outcome>, first: seq<SourceRow>, second: seq<SourceRow>)
    ensures RetainedRows(adults, first + second) == RetainedRows(adults, first) + RetainedRows(adults, second)
  {
    hide RetainedRows;
    if second == [] {
      assert first + second == first;
      assert RetainedRows(adults, second) == [] by {
        NoneRetained(adults);
      }
    } else {
      var front, last := second[..|second| - 1], second[|second| - 1];
      RetainedSplit(adults, first, front);
      RowAdds(adults, first + front, last);
      RowAdds(adults, front, last);
      Associative(first, front, [last]);
      assert front + [last] == second;
      Associative(RetainedRows(adults, first), RetainedRows(adults, front), if last.adult in adults then [last] else []);
    }
  }

  lemma NoneRetained(adults: map<string, Outcome>)
    ensures RetainedRows(adults, []) == []
  {
  }

  lemma Associative<T>(a: seq<T>, b: seq<T>, c: seq<T>)
    ensures (a + b) + c == a + (b + c)
  {
  }

  lemma RowAdds(adults: map<string, Outcome>, rows: seq<SourceRow>, row: SourceRow)
    ensures RetainedRows(adults, rows + [row]) == RetainedRows(adults, rows) + (if row.adult in adults then [row] else [])
  {
    assert (rows + [row])[..|rows|] == rows;
  }

  /** The rows of a preview hold exactly the records that some row of the document shows. */
  lemma RowsShownList(doc: Document, st: Snapshot, rows: seq<RowPreview>)
    requires RowsShown(doc, st, doc.rows, rows)
    ensures RowsList(doc, st, rows)
  {
    hide AdultMap, StudentMap, EdgeMap, Shows, RolledUp, Outweighs, RowRecords, RetainedRows;
    var retained := RetainedRows(AdultMap(st, doc.adults), doc.rows);
    RetainedMembers(AdultMap(st, doc.adults), doc.rows);
    forall r
      ensures Holds(rows, r) <==> Listed(doc, st, r)
    {
      if Holds(rows, r) {
        var row :| row in rows && r in row.records;
        var i :| 0 <= i < |rows| && rows[i] == row;
        RowRecordsShow(doc, st, retained[i]);
        assert Shows(doc, st, retained[i], r);
      }
      if Listed(doc, st, r) {
        var source :| source in doc.rows && Shows(doc, st, source, r);
        ShownRetained(doc, st, source, r);
        var i :| 0 <= i < |retained| && retained[i] == source;
        RowRecordsShow(doc, st, source);
        assert rows[i] in rows && r in rows[i].records;
      }
    }
  }

  lemma ShownRetained(doc: Document, st: Snapshot, row: SourceRow, r: Record)
    requires Shows(doc, st, row, r)
    ensures row.adult in AdultMap(st, doc.adults)
  {
  }

  method ClassifyRoster(doc: Document, st: Snapshot) returns (preview: Preview)
    ensures RowsShown(doc, st, doc.rows, preview.rows) && RowsList(doc, st, preview.rows)
    ensures preview.removals == Removals(doc, st, st.relationships)
    ensures preview.counts == AllCounts(doc, st)
  {
    hide AdultMap, StudentMap, EdgeMap, Tally, Omitted, Shows, Removals, EdgeSets, RowsList, RowsShown;
    var adults := PreviewAdults(doc, st);
    var students := PreviewStudents(doc, st);
    var edges := PreviewEdges(doc, st, adults, students);
    var rows, sourceEdgesByAdult := PreviewRows(doc, st, adults, students, edges);
    RowsShownList(doc, st, rows);
    var removals := FindRemovals(doc, st, sourceEdgesByAdult);
    var counts := CountOutcomes(adults, Counts(0, 0, 0, 0, 0));
    counts := CountOutcomes(students, counts);
    counts := CountOutcomes(edges, counts);
    preview := Preview(rows, removals, counts);
  }

  lemma NoRowsShown(doc: Document, st: Snapshot)
    ensures RowsShown(doc, st, [], []) && EdgeSets(doc, [], map[])
  {
  }

  /** The edge sets of the rows so far, by adult. */
  ghost predicate EdgeSets(doc: Document, rows: seq<SourceRow>, m: map<string, set<(string, string)>>) {
    forall adult :: if (exists a :: a in doc.adults && a.id == adult) && exists row :: row in rows && row.adult == adult
                    then adult in m && m[adult] == SourceEdges(rows, adult) else adult !in m
  }

  lemma EdgeSetsAdded(doc: Document, rows: seq<SourceRow>, source: SourceRow, m: map<string, set<(string, string)>>)
    requires EdgeSets(doc, rows, m)
    ensures (exists a :: a in doc.adults && a.id == source.adult) ==>
              EdgeSets(doc, rows + [source], m[source.adult := set e | e in source.edges :: SourceEdgeKey(e)])
    ensures (forall a :: a in doc.adults ==> a.id != source.adult) ==> EdgeSets(doc, rows + [source], m)
  {
    assert (rows + [source])[..|rows|] == rows;
    assert forall row :: row in rows + [source] <==> row in rows || row == source;
    assert forall adult :: adult != source.adult ==> SourceEdges(rows + [source], adult) == SourceEdges(rows, adult);
  }

  method PreviewRows(doc: Document, ghost st: Snapshot, adults: map<string, Outcome>, students: map<string, Outcome>,
                     edges: map<(string, string), Outcome>)
    returns (rows: seq<RowPreview>, sourceEdgesByAdult: map<string, set<(string, string)>>)
    requires adults == AdultMap(st, doc.adults) && students == StudentMap(st, doc.students) && edges == EdgeMap(doc, st, doc.edges)
    ensures RowsShown(doc, st, doc.rows, rows)
    ensures EdgeSets(doc, doc.rows, sourceEdgesByAdult)
  {
    AdultMapKeys(st, doc.adults);
    hide AdultMap, StudentMap, EdgeMap, RowsShown, RowShown, EdgeSets;
    NoRowsShown(doc, st);
    rows, sourceEdgesByAdult := [], map[];
    for i := 0 to |doc.rows|
      invariant RowsShown(doc, st, doc.rows[..i], rows)
      invariant EdgeSets(doc, doc.rows[..i], sourceEdgesByAdult)
    {
      var source := doc.rows[i];
      assert doc.rows[..i + 1] == doc.rows[..i] + [source];
      EdgeSetsAdded(doc, doc.rows[..i], source, sourceEdgesByAdult);
      if source.adult !in adults {
        RowAdded(doc, st, doc.rows[..i], source, rows, RowPreview("", [], Unchanged));
        continue;
      }
      var row, sourceEdges := PreviewRow(doc, st, source, adults, students, edges);
      sourceEdgesByAdult := sourceEdgesByAdult[source.adult := sourceEdges];
      RowAdded(doc, st, doc.rows[..i], source, rows, row);
      rows := rows + [row];
    }
    assert doc.rows[..|doc.rows|] == doc.rows;
  }

  /** The edge sets the rows left behind decide which stored edges are omitted. */
  lemma OmittedByEdgeSets(doc: Document, st: Snapshot, m: map<string, set<(string, string)>>, r: Relationship)
    requires EdgeSets(doc, doc.rows, m)
    ensures var key := StoredKey(st, r);
            Omitted(doc, st, r) <==> key.0 != "" && key.1 != "" && key.0 in m && key !in m[key.0]
  {
    hide StoredKey, SourceEdges;
  }

  method FindRemovals(doc: Document, st: Snapshot, sourceEdgesByAdult: map<string, set<(string, string)>>) returns (removals: seq<Relationship>)
    requires EdgeSets(doc, doc.rows, sourceEdgesByAdult)
    ensures removals == Removals(doc, st, st.relationships)
  {
    hide Omitted, EdgeSets, StoredKey;
    removals := [];
    for i := 0 to |st.relationships|
      invariant removals == Removals(doc, st, st.relationships[..i])
    {
      var current := st.relationships[i];
      assert st.relationships[..i + 1][..i] == st.relationships[..i];
      var key := StoredKey(st, current);
      OmittedByEdgeSets(doc, st, sourceEdgesByAdult, current);
      if key.0 == "" || key.1 == "" {
        continue;
      }
      if key.0 !in sourceEdgesByAdult {
        continue;
      }
      if key in sourceEdgesByAdult[key.0] {
        continue;
      }
      removals := removals + [current];
    }
    assert st.relationships[..|st.relationships|] == st.relationships;
  }
}
