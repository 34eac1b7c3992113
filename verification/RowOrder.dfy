/** The order in which a row's preview lists its records. */
module RowOrder {
  import opened Roster
  import opened RosterPreview

  /** `records` are what `says` says of the places below `n`, in order. Some places say nothing. */
  ghost predicate InOrder(n: nat, says: (nat, Record) -> bool, records: seq<Record>) {
    if n == 0 then records == []
    else if records != [] && says(n - 1, records[|records| - 1]) then InOrder(n - 1, says, records[..|records| - 1])
    else Silent(says, n - 1) && InOrder(n - 1, says, records)
  }

  ghost predicate Silent(says: (nat, Record) -> bool, k: nat) {
    forall r :: !says(k, r)
  }

  /** The document carries the student, and the row names them here first. */
  ghost predicate StudentSays(ids: seq<string>, students: map<string, Outcome>, k: nat, r: Record) {
    k < |ids| && ids[k] in students && ids[k] !in ids[..k] && r == Record(("student", Trim(ids[k])), students[ids[k]])
  }

  ghost predicate EdgeSays(sources: seq<SourceEdge>, edges: map<(string, string), Outcome>, k: nat, r: Record) {
    k < |sources| && var key := (sources[k].adultId, sources[k].studentId);
    && key in edges && (forall j :: 0 <= j < k ==> (sources[j].adultId, sources[j].studentId) != key) && r == Record(key, edges[key])
  }

  /** First the adult, then the students, then the edges, each in the order the row first names them. */
  ghost predicate RowSays(row: SourceRow, adults: map<string, Outcome>, students: map<string, Outcome>,
                          edges: map<(string, string), Outcome>, k: nat, r: Record)
  {
    if k == 0 then row.adult in adults && r == Record(("adult", Trim(row.adult)), adults[row.adult])
    else if k - 1 < |row.students| then StudentSays(row.students, students, k - 1, r)
    else EdgeSays(row.edges, edges, k - 1 - |row.students|, r)
  }

  lemma {:induction false} SameSaid(n: nat, says: (nat, Record) -> bool, more: (nat, Record) -> bool, records: seq<Record>)
    requires InOrder(n, says, records) && forall k: nat, r :: k < n ==> (says(k, r) <==> more(k, r))
    ensures InOrder(n, more, records)
  {
    if n > 0 {
      if records != [] && says(n - 1, records[|records| - 1]) {
        SameSaid(n - 1, says, more, records[..|records| - 1]);
      } else {
        SameSaid(n - 1, says, more, records);
      }
    }
  }

  /** One place more, which says the record or nothing. */
  lemma OneAfter(n: nat, says: (nat, Record) -> bool, more: (nat, Record) -> bool, records: seq<Record>, last: seq<Record>)
    requires InOrder(n, says, records) && |last| <= 1
    requires forall k: nat, r :: k < n ==> (says(k, r) <==> more(k, r))
    requires forall r :: more(n, r) <==> last == [r]
    ensures InOrder(n + 1, more, records + last)
  {
    SameSaid(n, says, more, records);
    var all := records + last;
    if last == [] {
      assert all == records;
    } else {
      assert last == [last[0]] && all[|all| - 1] == last[0] && all[..|all| - 1] == records;
    }
  }

  lemma {:induction false} OneThenOther(n: nat, says: (nat, Record) -> bool, m: nat, other: (nat, Record) -> bool, both: (nat, Record) -> bool,
                                        first: seq<Record>, second: seq<Record>)
    requires InOrder(n, says, first) && InOrder(m, other, second)
    requires forall k: nat, r :: k < n ==> (says(k, r) <==> both(k, r))
    requires forall k: nat, r :: k < m ==> (other(k, r) <==> both(n + k, r))
    ensures InOrder(n + m, both, first + second)
  {
    if m == 0 {
      SameSaid(n, says, both, first);
      assert first + second == first;
    } else if second != [] && other(m - 1, second[|second| - 1]) {
      var front := second[..|second| - 1];
      OneThenOther(n, says, m - 1, other, both, first, front);
      assert (first + second)[..|first + second| - 1] == first + front;
      assert both(n + (m - 1), second[|second| - 1]);
    } else {
      OneThenOther(n, says, m - 1, other, both, first, second);
      var k: nat, j: nat := n + m - 1, m - 1;
      assert forall r :: both(k, r) <==> other(j, r);
    }
  }

  ghost function StudentsSay(ids: seq<string>, students: map<string, Outcome>): (nat, Record) -> bool {
    (k: nat, r) => StudentSays(ids, students, k, r)
  }

  ghost function EdgesSay(sources: seq<SourceEdge>, edges: map<(string, string), Outcome>): (nat, Record) -> bool {
    (k: nat, r) => EdgeSays(sources, edges, k, r)
  }

  lemma {:induction false} StudentsInOrder(ids: seq<string>, students: map<string, Outcome>)
    ensures InOrder(|ids|, StudentsSay(ids, students), StudentRecords(Firsts(ids), students))
  {
    hide InOrder, Firsts, StudentRecords;
    if ids == [] {
      NothingSaid(StudentsSay(ids, students));
      NoRecords(students, map[]);
    } else {
      var n := |ids| - 1;
      var front, last := ids[..n], ids[n];
      assert ids == front + [last];
      StudentsInOrder(front, students);
      StudentAdded(front, last, students);
      var more := if last in students && last !in front then [Record(PersonKey("student", last), students[last])] else [];
      forall k: nat, r | k < n
        ensures StudentSays(front, students, k, r) <==> StudentSays(ids, students, k, r)
      {
        assert front[..k] == ids[..k];
      }
      OneAfter(n, StudentsSay(front, students), StudentsSay(ids, students), StudentRecords(Firsts(front), students), more);
    }
  }

  lemma NothingSaid(says: (nat, Record) -> bool)
    ensures InOrder(0, says, [])
  {
  }

  lemma {:induction false} KeysBefore(sources: seq<SourceEdge>, key: (string, string))
    ensures key in EdgeKeys(sources) <==> exists j :: 0 <= j < |sources| && (sources[j].adultId, sources[j].studentId) == key
  {
    EdgeKeysMembers(sources);
    if j :| 0 <= j < |sources| && (sources[j].adultId, sources[j].studentId) == key {
      assert sources[j] in sources && SourceEdgeKey(sources[j]) == key;
    }
  }

  lemma {:induction false} EdgesInOrder(sources: seq<SourceEdge>, edges: map<(string, string), Outcome>)
    ensures InOrder(|sources|, EdgesSay(sources, edges), EdgeRecords(Firsts(EdgeKeys(sources)), edges))
  {
    hide InOrder, Firsts, EdgeRecords, EdgeKeys;
    if sources == [] {
      NothingSaid(EdgesSay(sources, edges));
      NoRecords(map[], edges);
    } else {
      var n := |sources| - 1;
      var front, last := sources[..n], sources[n];
      assert sources == front + [last];
      EdgesInOrder(front, edges);
      EdgeAdded(front, last, edges);
      var key := SourceEdgeKey(last);
      KeysBefore(front, key);
      var more := if key in edges && key !in EdgeKeys(front) then [Record(key, edges[key])] else [];
      assert forall k: nat, r :: k < n ==> (EdgeSays(front, edges, k, r) <==> EdgeSays(sources, edges, k, r));
      OneAfter(n, EdgesSay(front, edges), EdgesSay(sources, edges), EdgeRecords(Firsts(EdgeKeys(front)), edges), more);
    }
  }

  /** A row's preview is what its places say, in order. */
  lemma RecordsInOrder(row: SourceRow, adults: map<string, Outcome>, students: map<string, Outcome>, edges: map<(string, string), Outcome>)
    requires row.adult in adults
    ensures InOrder(1 + |row.students| + |row.edges|, (k: nat, r) => RowSays(row, adults, students, edges, k, r),
                    RowRecords(row, adults, students, edges))
  {
    hide InOrder, Firsts, StudentRecords, EdgeRecords, EdgeKeys;
    var says := (k: nat, r) => RowSays(row, adults, students, edges, k, r);
    var adult := [Record(PersonKey("adult", row.adult), adults[row.adult])];
    NothingSaid(says);
    OneAfter(0, says, says, [], adult);
    StudentsInOrder(row.students, students);
    var people := adult + StudentRecords(Firsts(row.students), students);
    OneThenOther(1, says, |row.students|, StudentsSay(row.students, students), says, adult, StudentRecords(Firsts(row.students), students));
    EdgesInOrder(row.edges, edges);
    OneThenOther(1 + |row.students|, says, |row.edges|, EdgesSay(row.edges, edges), says, people, EdgeRecords(Firsts(EdgeKeys(row.edges)), edges));
  }
}
