/** Small documents: two that preview cleanly and cannot be committed, one that is committed and never settles. */
module RosterExamples {
  import opened Contract
  import opened Rows
  import opened Roster
  import opened Database
  import opened RosterCommit
  import opened RosterImport
  import opened RosterFixedPoint

  /** A school with one homeroom and nobody on its roster. */
  const NEW_SCHOOL := Snapshot([], [], [], [Homeroom(0, Some("h"))])

  const CHILD := SourceStudent("s", "Ann", "Lee", "h")
  const PARENT := SourceAdult("p", "Bo", "Lee", "")
  const EDGE := SourceEdge("p", "s", "parent")

  /** A student in a classroom whose only adult was excluded, for want of a name say. The adult's row is not retained. */
  const LONE_CHILD := Document([], [CHILD], [], [SourceRow("x", ["s"], [SourceEdge("x", "s", "parent")])])

  /** An adult with two rows, the second of which lists nobody. */
  const TWO_ROWS := Document([PARENT], [CHILD], [EDGE], [SourceRow("p", ["s"], [EDGE]), SourceRow("p", [], [])])

  /** The same document with one row. */
  const ONE_ROW := Document([PARENT], [CHILD], [EDGE], [SourceRow("p", ["s"], [EDGE])])

  /** A placeholder that was given an external identifier, and the school that holds it. */
  const STAND_IN := Student(0, Some(0), 0, "Ann", "Lee", None, Some("s"), true, false)
  const STAND_IN_SCHOOL := Snapshot([], [STAND_IN], [], [Homeroom(0, Some("h"))])

  /** An adult whose identifier is the word the index marks adults with. */
  const NAMESAKE := SourceAdult("adult", "Al", "Lee", "")
  const NAMESAKE_EDGE := SourceEdge("adult", "s", "parent")
  const SAME_NAME := SourceAdult("s", "Bo", "Lee", "")
  const ONE_KEY := Document([NAMESAKE, SAME_NAME], [CHILD], [NAMESAKE_EDGE],
                            [SourceRow("adult", ["s"], [NAMESAKE_EDGE]), SourceRow("s", [], [])])
  const BO := Adult(0, "Bo", "Lee", None, None, None, Some("s"), None, false)
  const BO_SCHOOL := Snapshot([BO], [], [], [Homeroom(0, Some("h"))])

  lemma TrimPlain(s: string)
    requires s != "" && !IsSpace(s[0]) && !IsSpace(s[|s| - 1])
    ensures Trim(s) == s
  {
  }

  lemma PlainTexts()
    ensures Trim("s") == "s" && Trim("p") == "p" && Trim("h") == "h" && Trim("x") == "x"
    ensures Trim("Ann") == "Ann" && Trim("Bo") == "Bo" && Trim("Lee") == "Lee" && Trim("") == ""
  {
    hide Trim;
    TrimPlain("s");
    TrimPlain("p");
    TrimPlain("h");
    TrimPlain("x");
    TrimPlain("Ann");
    TrimPlain("Bo");
    TrimPlain("Lee");
    TrimEmpty();
  }

  lemma TrimEmpty()
    ensures Trim("") == ""
  {
  }

  lemma OneMatch<T, K>(row: T, key: T -> K, x: K)
    requires key(row) == x
    ensures Matching([row], key, x) == [row]
  {
    assert [row][..0] == [];
  }

  lemma ChildCreated()
    ensures StudentOutcome(NEW_SCHOOL, CHILD) == Create
  {
    hide Trim, Matching;
    PlainTexts();
    OneMatch(Homeroom(0, Some("h")), HomeroomKey, "h");
    NoMatch(StudentKey, "s");
  }

  lemma NoMatch<T, K>(key: T -> K, x: K)
    ensures Matching([], key, x) == []
  {
  }

  /** A preview without errors does not promise a commit. */
  lemma CleanPreviewMayNotCommit()
    ensures WellFormed(LONE_CHILD) && NoErrors(LONE_CHILD, NEW_SCHOOL) && !Complete(LONE_CHILD)
  {
    hide Trim, Matching, StudentOutcome;
    ChildCreated();
    PlainTexts();
    assert !StudentShown(LONE_CHILD, "s");
    assert CHILD in LONE_CHILD.students;
  }

  lemma ParentCreated()
    ensures AdultOutcome(NEW_SCHOOL, PARENT) == Create
  {
    hide Trim, Matching;
    PlainTexts();
    NoMatch(AdultKey, "p");
  }

  lemma EdgeCreated()
    ensures EdgeOutcome(TWO_ROWS, NEW_SCHOOL, EDGE) == Create
  {
    hide Trim, Matching, AdultMap, StudentMap, AdultOutcome, StudentOutcome;
    ChildCreated();
    ParentCreated();
    assert PARENT in TWO_ROWS.adults && CHILD in TWO_ROWS.students;
    AdultMapValues(NEW_SCHOOL, TWO_ROWS.adults, PARENT);
    StudentMapValues(NEW_SCHOOL, TWO_ROWS.students, CHILD);
    NoMatch(AdultKey, "p");
    NoMatch(StudentKey, "s");
  }

  lemma TwoRowsWellFormed()
    ensures WellFormed(TWO_ROWS)
  {
    hide Trim;
    PlainTexts();
  }

  lemma TwoRowsComplete()
    ensures Complete(TWO_ROWS)
  {
    var first := SourceRow("p", ["s"], [EDGE]);
    assert first == TWO_ROWS.rows[0] && first in TWO_ROWS.rows;
    assert PARENT == TWO_ROWS.adults[0] && PARENT in TWO_ROWS.adults;
    assert RetainedRow(TWO_ROWS, first);
    assert first.students[0] == "s" && first.edges[0] == EDGE;
    assert AdultShown(TWO_ROWS, "p") && StudentShown(TWO_ROWS, "s");
    assert EdgeShown(TWO_ROWS, EDGE) by {
      assert EDGE in first.edges && SourceEdgeKey(EDGE) == SourceEdgeKey(EDGE);
    }
  }

  lemma OneRowComplete()
    ensures WellFormed(ONE_ROW) && Complete(ONE_ROW)
  {
    hide Trim;
    PlainTexts();
    var row := SourceRow("p", ["s"], [EDGE]);
    assert row == ONE_ROW.rows[0] && row in ONE_ROW.rows;
    assert PARENT == ONE_ROW.adults[0] && PARENT in ONE_ROW.adults;
    assert RetainedRow(ONE_ROW, row);
    assert row.students[0] == "s" && row.edges[0] == EDGE;
    assert EdgeShown(ONE_ROW, EDGE) by {
      assert EDGE in row.edges && SourceEdgeKey(EDGE) == SourceEdgeKey(EDGE);
    }
  }

  lemma StandInStored()
    ensures Tables([], [STAND_IN], [], [], 1) && Matching([STAND_IN], StudentKey, "s") == [STAND_IN]
  {
    hide Trim, Matching;
    PlainTexts();
    OneMatch(STAND_IN, StudentKey, "s");
  }

  lemma StandInOutcomes()
    ensures AdultOutcome(STAND_IN_SCHOOL, PARENT) == Create && StudentOutcome(STAND_IN_SCHOOL, CHILD) == Unchanged
  {
    hide Trim, Matching;
    PlainTexts();
    StandInStored();
    NoMatch(AdultKey, "p");
    OneMatch(Homeroom(0, Some("h")), HomeroomKey, "h");
  }

  lemma StandInEdge()
    ensures EdgeOutcome(ONE_ROW, STAND_IN_SCHOOL, EDGE) == Create
  {
    hide Trim, Matching, AdultMap, StudentMap, AdultOutcome, StudentOutcome;
    StandInOutcomes();
    StandInStored();
    assert PARENT in ONE_ROW.adults && CHILD in ONE_ROW.students;
    AdultMapValues(STAND_IN_SCHOOL, ONE_ROW.adults, PARENT);
    StudentMapValues(STAND_IN_SCHOOL, ONE_ROW.students, CHILD);
    NoMatch(AdultKey, "p");
  }

  /** Nor does it when every record is in a retained row: a new edge may end at a placeholder. */
  lemma PlaceholderMayNotCommit()
    ensures Tables(STAND_IN_SCHOOL.adults, STAND_IN_SCHOOL.students, STAND_IN_SCHOOL.relationships, [], 1)
    ensures WellFormed(ONE_ROW) && NoErrors(ONE_ROW, STAND_IN_SCHOOL) && Complete(ONE_ROW) && !NoneBarred(ONE_ROW, STAND_IN_SCHOOL)
  {
    hide WellFormed, Complete, AdultOutcome, StudentOutcome, EdgeOutcome, Tables, Matching;
    OneRowComplete();
    StandInStored();
    StandInOutcomes();
    StandInEdge();
    assert ONE_ROW.edges[0] == EDGE && EDGE in ONE_ROW.edges;
  }

  /** The commit of a complete document may leave a second import with work to do. */
  lemma SecondRowForgetsEdges()
    ensures WellFormed(TWO_ROWS) && NoErrors(TWO_ROWS, NEW_SCHOOL) && Complete(TWO_ROWS) && !LiveCovered(TWO_ROWS, NEW_SCHOOL)
  {
    hide WellFormed, Complete, AdultOutcome, StudentOutcome, EdgeOutcome, SourceEdges;
    TwoRowsWellFormed();
    TwoRowsComplete();
    ChildCreated();
    ParentCreated();
    EdgeCreated();
    assert TWO_ROWS.edges[0] == EDGE;
    LastRowWins();
  }

  lemma LastRowWins()
    ensures SourceEdges(TWO_ROWS.rows, "p") == {}
  {
  }

  lemma OneKeyParsed()
    ensures Parsed(ONE_KEY)
  {
    hide Trim;
    PlainTexts();
    TrimPlain("adult");
    TrimPlain("Al");
  }

  lemma OneKeyOutcomes()
    ensures AdultOutcome(BO_SCHOOL, NAMESAKE) == Create && AdultOutcome(BO_SCHOOL, SAME_NAME) == Unchanged
    ensures StudentOutcome(BO_SCHOOL, CHILD) == Create
  {
    hide Trim, Matching;
    PlainTexts();
    TrimPlain("adult");
    TrimPlain("Al");
    OneMatch(BO, AdultKey, "s");
    NotMatched(BO, AdultKey, "adult");
    NoMatch(StudentKey, "s");
    OneMatch(Homeroom(0, Some("h")), HomeroomKey, "h");
  }

  lemma NotMatched<T, K>(row: T, key: T -> K, x: K)
    requires key(row) != x
    ensures Matching([row], key, x) == []
  {
    assert [row][..0] == [];
  }

  lemma OneKeyEdge()
    ensures EdgeOutcome(ONE_KEY, BO_SCHOOL, NAMESAKE_EDGE) == Create
  {
    hide Trim, Matching, AdultMap, StudentMap, AdultOutcome, StudentOutcome;
    OneKeyParsed();
    OneKeyOutcomes();
    PlainTexts();
    assert NAMESAKE == ONE_KEY.adults[0] && CHILD == ONE_KEY.students[0];
    AdultMapValues(BO_SCHOOL, ONE_KEY.adults, NAMESAKE);
    StudentMapValues(BO_SCHOOL, ONE_KEY.students, CHILD);
    NotMatched(BO, AdultKey, "adult");
    NoMatch(StudentKey, "s");
  }

  lemma OneKeyComplete()
    ensures Complete(ONE_KEY)
  {
    var row := SourceRow("adult", ["s"], [NAMESAKE_EDGE]);
    var last := SourceRow("s", [], []);
    assert row == ONE_KEY.rows[0] && last == ONE_KEY.rows[1];
    assert NAMESAKE == ONE_KEY.adults[0] && SAME_NAME == ONE_KEY.adults[1];
    assert NAMESAKE in ONE_KEY.adults && SAME_NAME in ONE_KEY.adults;
    assert RetainedRow(ONE_KEY, row) && RetainedRow(ONE_KEY, last);
    assert row in ONE_KEY.rows && last in ONE_KEY.rows;
    assert row.students[0] == "s" && row.edges[0] == NAMESAKE_EDGE;
    assert AdultShown(ONE_KEY, "adult") && AdultShown(ONE_KEY, "s") && StudentShown(ONE_KEY, "s");
    assert EdgeShown(ONE_KEY, NAMESAKE_EDGE) by {
      assert NAMESAKE_EDGE in row.edges && SourceEdgeKey(NAMESAKE_EDGE) == SourceEdgeKey(NAMESAKE_EDGE);
    }
  }

  lemma OneKeyListed()
    ensures Listed(ONE_KEY, BO_SCHOOL, Record(SourceEdgeKey(NAMESAKE_EDGE), Create))
  {
    hide AdultMap, StudentMap, EdgeMap, AdultOutcome, StudentOutcome, EdgeOutcome, PersonKey, Trim;
    OneKeyParsed();
    OneKeyEdge();
    var row := SourceRow("adult", ["s"], [NAMESAKE_EDGE]);
    assert row == ONE_KEY.rows[0] && row in ONE_KEY.rows;
    assert NAMESAKE == ONE_KEY.adults[0] && NAMESAKE_EDGE == ONE_KEY.edges[0];
    AdultMapValues(BO_SCHOOL, ONE_KEY.adults, NAMESAKE);
    EdgeMapValues(ONE_KEY, BO_SCHOOL, ONE_KEY.edges, NAMESAKE_EDGE);
    assert row.edges[0] == NAMESAKE_EDGE;
    assert Shows(ONE_KEY, BO_SCHOOL, row, Record(SourceEdgeKey(NAMESAKE_EDGE), Create));
  }

  /** No index can serve an edge and an adult that share a key and differ in outcome. */
  lemma OneKeyTwoRecords(records: map<(string, string), Outcome>)
    requires IndexOf(ONE_KEY, BO_SCHOOL, records)
    ensures Parsed(ONE_KEY) && Complete(ONE_KEY) && NoErrors(ONE_KEY, BO_SCHOOL)
    ensures SourceEdgeKey(NAMESAKE_EDGE) == PersonKey("adult", SAME_NAME.id) && SourceEdgeKey(NAMESAKE_EDGE) in records
    ensures records[PersonKey("adult", SAME_NAME.id)] != AdultOutcome(BO_SCHOOL, SAME_NAME)
            || records[SourceEdgeKey(NAMESAKE_EDGE)] != EdgeOutcome(ONE_KEY, BO_SCHOOL, NAMESAKE_EDGE)
  {
    hide AdultOutcome, StudentOutcome, EdgeOutcome, Listed, Parsed, Complete, Trim;
    OneKeyParsed();
    OneKeyComplete();
    OneKeyOutcomes();
    OneKeyEdge();
    OneKeyListed();
    PlainTexts();
  }
}
