/** The update-only grade import: match whole names, refuse contradictions, write each student once. */
module Grades {
  import opened Contract
  import opened Rows
  import opened Roster
  import opened Database

  datatype GradeRecord = GradeRecord(studentName: string, grade: string)
  datatype GradeLevel = GradeLevel(id: nat, code: string, title: string)

  function LevelId(l: GradeLevel): nat { l.id }

  /** How names and grades are compared. Which texts it identifies does not matter here. */
  type Normalize = string -> string

  // ---- matching ----

  predicate NameMatches(norm: Normalize, name: string, s: Student) {
    var key := norm(name);
    || key == norm(s.given + " " + s.family)
    || (s.preferred.Some? && var preferred := norm(s.preferred.value + " " + s.family); preferred != "" && key == preferred)
  }

  predicate LevelMatches(norm: Normalize, grade: string, l: GradeLevel) {
    norm(grade) == norm(l.code) || norm(grade) == norm(l.title)
  }

  function Candidates(norm: Normalize, name: string, students: seq<Student>): seq<Student> {
    if students == [] then []
    else
      var last := students[|students| - 1];
      Candidates(norm, name, students[..|students| - 1]) + (if NameMatches(norm, name, last) then [last] else [])
  }

  function Levels(norm: Normalize, grade: string, levels: seq<GradeLevel>): seq<GradeLevel> {
    if levels == [] then []
    else
      var last := levels[|levels| - 1];
      Levels(norm, grade, levels[..|levels| - 1]) + (if LevelMatches(norm, grade, last) then [last] else [])
  }

  /** The one level a grade names, if it is not blank and names just one. */
  function LevelOf(norm: Normalize, grade: string, levels: seq<GradeLevel>): Option<GradeLevel> {
    var matches := Levels(norm, grade, levels);
    if norm(grade) != "" && |matches| == 1 then Some(matches[0]) else None
  }

  method MatchingGradeStudents(norm: Normalize, name: string, students: seq<Student>) returns (result: seq<Student>)
    requires Unique(students, StudentId)
    ensures result == Candidates(norm, name, students)
  {
    result := [];
    var seen: set<nat> := {};
    for i := 0 to |students|
      invariant result == Candidates(norm, name, students[..i])
      invariant forall id :: id in seen ==> exists k :: 0 <= k < i && students[k].id == id
    {
      var student := students[i];
      assert students[..i + 1][..i] == students[..i];
      assert forall k :: 0 <= k < i ==> StudentId(students[k]) != StudentId(student);
      if !NameMatches(norm, name, student) {
        continue;
      }
      if student.id in seen {
        continue;
      }
      seen := seen + {student.id};
      result := result + [student];
    }
    assert students[..|students|] == students;
  }

  method ResolveGradeLevel(norm: Normalize, grade: string, levels: seq<GradeLevel>) returns (level: Option<GradeLevel>)
    requires Unique(levels, LevelId)
    ensures level == LevelOf(norm, grade, levels)
  {
    if norm(grade) == "" {
      return None;
    }
    var matches := [];
    var seen: set<nat> := {};
    for i := 0 to |levels|
      invariant matches == Levels(norm, grade, levels[..i])
      invariant forall id :: id in seen ==> exists k :: 0 <= k < i && levels[k].id == id
    {
      var l := levels[i];
      assert levels[..i + 1][..i] == levels[..i];
      assert forall k :: 0 <= k < i ==> LevelId(levels[k]) != LevelId(l);
      if !LevelMatches(norm, grade, l) {
        continue;
      }
      if l.id in seen {
        continue;
      }
      seen := seen + {l.id};
      matches := matches + [l];
    }
    assert levels[..|levels|] == levels;
    if |matches| != 1 {
      return None;
    }
    return Some(matches[0]);
  }

  // ---- classification ----

  function GradeOutcome(norm: Normalize, source: GradeRecord, students: seq<Student>, levels: seq<GradeLevel>): Outcome {
    var candidates := Candidates(norm, source.studentName, students);
    if norm(source.studentName) == "" then Error
    else if |candidates| != 1 || candidates[0].deleted then Conflict
    else
      var level := LevelOf(norm, source.grade, levels);
      if level.None? then Error
      else if candidates[0].gradeLevel == Some(level.value.id) then Unchanged
      else Update
  }

  /** The name is the student's legal name, or their preferred given name with the family name, as names are compared. */
  ghost predicate Called(norm: Normalize, name: string, s: Student) {
    || norm(name) == norm(s.given + " " + s.family)
    || (s.preferred.Some? && norm(name) != "" && norm(name) == norm(s.preferred.value + " " + s.family))
  }

  /** `s` is the one student the name finds, and active. */
  ghost predicate Finds(norm: Normalize, name: string, students: seq<Student>, s: Student) {
    s in students && Called(norm, name, s) && !s.deleted && forall t :: t in students && Called(norm, name, t) ==> t == s
  }

  /** `l` is the one level the grade names. */
  ghost predicate Names(norm: Normalize, grade: string, levels: seq<GradeLevel>, l: GradeLevel) {
    && norm(grade) != "" && l in levels && norm(grade) in {norm(l.code), norm(l.title)}
    && forall m :: m in levels && norm(grade) in {norm(m.code), norm(m.title)} ==> m == l
  }

  /** What each outcome of a row tells about the stored students and levels. */
  ghost predicate Justified(norm: Normalize, source: GradeRecord, students: seq<Student>, levels: seq<GradeLevel>, outcome: Outcome) {
    match outcome
    case Create => false
    case Conflict => norm(source.studentName) != "" && forall s :: !Finds(norm, source.studentName, students, s)
    case Error => norm(source.studentName) == ""
                  || ((exists s :: Finds(norm, source.studentName, students, s)) && forall l :: !Names(norm, source.grade, levels, l))
    case Update => norm(source.studentName) != ""
                   && exists s, l :: Finds(norm, source.studentName, students, s) && Names(norm, source.grade, levels, l)
                                     && s.gradeLevel != Some(l.id)
    case Unchanged => norm(source.studentName) != ""
                      && exists s, l :: Finds(norm, source.studentName, students, s) && Names(norm, source.grade, levels, l)
                                        && s.gradeLevel == Some(l.id)
  }

  lemma {:induction false} CandidatesAre(norm: Normalize, name: string, students: seq<Student>)
    ensures forall s :: s in Candidates(norm, name, students) <==> s in students && NameMatches(norm, name, s)
    ensures Unique(students, StudentId) ==> Unique(Candidates(norm, name, students), StudentId)
  {
    hide NameMatches;
    if students != [] {
      var n := |students| - 1;
      CandidatesAre(norm, name, students[..n]);
      assert students == students[..n] + [students[n]];
      var before := Candidates(norm, name, students[..n]);
      assert forall i :: 0 <= i < |before| ==> before[i] in before;
      assert Unique(students, StudentId) ==> forall s :: s in students[..n] ==> StudentId(s) != StudentId(students[n]);
    }
  }

  lemma {:induction false} LevelsAre(norm: Normalize, grade: string, levels: seq<GradeLevel>)
    ensures forall l :: l in Levels(norm, grade, levels) <==> l in levels && LevelMatches(norm, grade, l)
    ensures Unique(levels, LevelId) ==> Unique(Levels(norm, grade, levels), LevelId)
  {
    hide LevelMatches;
    if levels != [] {
      var n := |levels| - 1;
      LevelsAre(norm, grade, levels[..n]);
      assert levels == levels[..n] + [levels[n]];
      var before := Levels(norm, grade, levels[..n]);
      assert forall i :: 0 <= i < |before| ==> before[i] in before;
      assert Unique(levels, LevelId) ==> forall l :: l in levels[..n] ==> LevelId(l) != LevelId(levels[n]);
    }
  }

  /** A list with unique keys has one entry exactly when all its entries are equal. */
  lemma SingleIff<T, K>(rows: seq<T>, key: T -> K, row: T)
    requires Unique(rows, key) && row in rows
    ensures rows == [row] <==> forall r :: r in rows ==> r == row
  {
    assert rows[0] in rows;
    assert |rows| > 1 ==> rows[1] in rows && key(rows[0]) != key(rows[1]);
  }

  lemma FindsOne(norm: Normalize, name: string, students: seq<Student>, s: Student)
    requires Unique(students, StudentId)
    ensures Finds(norm, name, students, s) <==> Candidates(norm, name, students) == [s] && !s.deleted
  {
    assert forall t :: NameMatches(norm, name, t) <==> Called(norm, name, t);
    hide NameMatches, Called, Candidates;
    CandidatesAre(norm, name, students);
    var found := Candidates(norm, name, students);
    if s in found {
      SingleIff(found, StudentId, s);
    } else {
      assert found != [s];
    }
  }

  lemma NamesOne(norm: Normalize, grade: string, levels: seq<GradeLevel>, l: GradeLevel)
    requires Unique(levels, LevelId)
    ensures Names(norm, grade, levels, l) <==> LevelOf(norm, grade, levels) == Some(l)
  {
    assert forall m :: LevelMatches(norm, grade, m) <==> norm(grade) in {norm(m.code), norm(m.title)};
    hide LevelMatches, Levels;
    LevelsAre(norm, grade, levels);
    var named := Levels(norm, grade, levels);
    if l in named {
      SingleIff(named, LevelId, l);
    } else {
      assert |named| == 1 ==> named[0] in named;
    }
  }

  /** The classification is the one outcome that the stored rows justify. */
  lemma OutcomeJustified(norm: Normalize, source: GradeRecord, students: seq<Student>, levels: seq<GradeLevel>, outcome: Outcome)
    requires Unique(students, StudentId) && Unique(levels, LevelId)
    ensures Justified(norm, source, students, levels, outcome) <==> outcome == GradeOutcome(norm, source, students, levels)
  {
    hide Finds, Names, Candidates, LevelOf;
    forall s
      ensures Finds(norm, source.studentName, students, s) <==> Candidates(norm, source.studentName, students) == [s] && !s.deleted
    {
      FindsOne(norm, source.studentName, students, s);
    }
    forall l
      ensures Names(norm, source.grade, levels, l) <==> LevelOf(norm, source.grade, levels) == Some(l)
    {
      NamesOne(norm, source.grade, levels, l);
    }
    var found, level := Candidates(norm, source.studentName, students), LevelOf(norm, source.grade, levels);
    if |found| == 1 {
      assert found == [found[0]];
      assert !found[0].deleted ==> Finds(norm, source.studentName, students, found[0]);
    }
    if level.Some? {
      assert Names(norm, source.grade, levels, level.value);
    }
  }

  method ClassifyGrade(norm: Normalize, source: GradeRecord, students: seq<Student>, levels: seq<GradeLevel>) returns (outcome: Outcome)
    requires Unique(students, StudentId) && Unique(levels, LevelId)
    ensures outcome == GradeOutcome(norm, source, students, levels)
    ensures Justified(norm, source, students, levels, outcome)
  {
    OutcomeJustified(norm, source, students, levels, GradeOutcome(norm, source, students, levels));
    hide Justified;
    if norm(source.studentName) == "" {
      return Error;
    }
    var candidates := MatchingGradeStudents(norm, source.studentName, students);
    if |candidates| == 0 {
      return Conflict;
    }
    if |candidates| > 1 {
      return Conflict;
    }
    var student := candidates[0];
    if student.deleted {
      return Conflict;
    }
    var level := ResolveGradeLevel(norm, source.grade, levels);
    if level.None? {
      return Error;
    }
    if student.gradeLevel.Some? && student.gradeLevel.value == level.value.id {
      return Unchanged;
    }
    return Update;
  }

  /** Two rows give the name different grades, in whatever order. */
  ghost predicate Contradicted(norm: Normalize, rows: seq<GradeRecord>, name: string) {
    exists i, j :: 0 <= i < |rows| && 0 <= j < |rows| && norm(rows[i].studentName) == name == norm(rows[j].studentName)
                   && norm(rows[i].grade) != norm(rows[j].grade)
  }

  function RowOutcome(norm: Normalize, rows: seq<GradeRecord>, contradicted: set<string>, i: nat, students: seq<Student>, levels: seq<GradeLevel>): Outcome
    requires i < |rows|
  {
    if norm(rows[i].studentName) in contradicted then Conflict else GradeOutcome(norm, rows[i], students, levels)
  }

  ghost predicate IsContradicted(norm: Normalize, rows: seq<GradeRecord>, names: set<string>) {
    forall name :: name in names <==> Contradicted(norm, rows, name)
  }

  /** What the loop knows of the rows before `n`: the grade each name had last without contradiction, and the names that
    * were given another. */
  ghost predicate GradesSeen(norm: Normalize, rows: seq<GradeRecord>, n: nat, grades: map<string, string>, contradictory: set<string>)
    requires n <= |rows|
  {
    && (forall k :: 0 <= k < n ==> norm(rows[k].studentName) in grades)
    && (forall name :: name in grades ==>
         exists k :: 0 <= k < n && norm(rows[k].studentName) == name && norm(rows[k].grade) == grades[name])
    && contradictory <= grades.Keys
    && (forall name :: name in contradictory ==>
         exists k :: 0 <= k < n && norm(rows[k].studentName) == name && norm(rows[k].grade) != grades[name])
    && (forall k :: 0 <= k < n && norm(rows[k].studentName) !in contradictory ==> norm(rows[k].grade) == grades[norm(rows[k].studentName)])
  }

  lemma GradeContradicted(norm: Normalize, rows: seq<GradeRecord>, n: nat, grades: map<string, string>, contradictory: set<string>)
    requires n < |rows| && GradesSeen(norm, rows, n, grades, contradictory)
    requires norm(rows[n].studentName) in grades && grades[norm(rows[n].studentName)] != norm(rows[n].grade)
    ensures GradesSeen(norm, rows, n + 1, grades, contradictory + {norm(rows[n].studentName)})
  {
    forall name | name in grades
      ensures exists k :: 0 <= k < n + 1 && norm(rows[k].studentName) == name && norm(rows[k].grade) == grades[name]
    {
      var k :| 0 <= k < n && norm(rows[k].studentName) == name && norm(rows[k].grade) == grades[name];
    }
    forall name | name in contradictory
      ensures exists k :: 0 <= k < n + 1 && norm(rows[k].studentName) == name && norm(rows[k].grade) != grades[name]
    {
      var k :| 0 <= k < n && norm(rows[k].studentName) == name && norm(rows[k].grade) != grades[name];
    }
  }

  lemma GradeAgrees(norm: Normalize, rows: seq<GradeRecord>, n: nat, grades: map<string, string>, contradictory: set<string>)
    requires n < |rows| && GradesSeen(norm, rows, n, grades, contradictory)
    requires norm(rows[n].studentName) in grades ==> grades[norm(rows[n].studentName)] == norm(rows[n].grade)
    ensures GradesSeen(norm, rows, n + 1, grades[norm(rows[n].studentName) := norm(rows[n].grade)], contradictory)
  {
  }

  lemma AllSeen(norm: Normalize, rows: seq<GradeRecord>, grades: map<string, string>, contradictory: set<string>)
    requires GradesSeen(norm, rows, |rows|, grades, contradictory)
    ensures IsContradicted(norm, rows, contradictory)
  {
    forall name | name in contradictory
      ensures Contradicted(norm, rows, name)
    {
      var i :| 0 <= i < |rows| && norm(rows[i].studentName) == name && norm(rows[i].grade) == grades[name];
      var j :| 0 <= j < |rows| && norm(rows[j].studentName) == name && norm(rows[j].grade) != grades[name];
    }
  }

  method FindContradictions(norm: Normalize, rows: seq<GradeRecord>) returns (contradictory: set<string>)
    ensures IsContradicted(norm, rows, contradictory)
  {
    var duplicateGrades: map<string, string> := map[];
    contradictory := {};
    assert GradesSeen(norm, rows, 0, duplicateGrades, contradictory);
    hide GradesSeen, IsContradicted;
    for i := 0 to |rows|
      invariant GradesSeen(norm, rows, i, duplicateGrades, contradictory)
    {
      var name, grade := norm(rows[i].studentName), norm(rows[i].grade);
      if name in duplicateGrades && duplicateGrades[name] != grade {
        GradeContradicted(norm, rows, i, duplicateGrades, contradictory);
        contradictory := contradictory + {name};
        continue;
      }
      GradeAgrees(norm, rows, i, duplicateGrades, contradictory);
      duplicateGrades := duplicateGrades[name := grade];
    }
    AllSeen(norm, rows, duplicateGrades, contradictory);
  }

  /** How many rows have each outcome. */
  ghost function RowCounts(outcomes: seq<Outcome>): Counts {
    var m := multiset(outcomes);
    Counts(m[Create], m[Update], m[Unchanged], m[Conflict], m[Error])
  }

  lemma NothingCounted()
    ensures RowCounts([]) == Counts(0, 0, 0, 0, 0)
  {
  }

  lemma ErrorsCounted(outcomes: seq<Outcome>)
    ensures RowCounts(outcomes).errors == 0 <==> Error !in outcomes
  {
    assert Error in outcomes <==> Error in multiset(outcomes);
  }

  lemma RowCounted(outcomes: seq<Outcome>, outcome: Outcome)
    ensures RowCounts(outcomes + [outcome]) == AddCount(RowCounts(outcomes), outcome)
  {
    var m := multiset(outcomes);
    assert multiset(outcomes + [outcome]) == m + multiset{outcome};
  }

  method MatchGrades(norm: Normalize, rows: seq<GradeRecord>, students: seq<Student>, levels: seq<GradeLevel>)
    returns (outcomes: seq<Outcome>, counts: Counts, ghost contradicted: set<string>)
    requires Unique(students, StudentId) && Unique(levels, LevelId)
    ensures IsContradicted(norm, rows, contradicted)
    ensures |outcomes| == |rows| && forall i :: 0 <= i < |rows| ==> outcomes[i] == RowOutcome(norm, rows, contradicted, i, students, levels)
    ensures counts == RowCounts(outcomes)
  {
    hide GradeOutcome, Justified, RowCounts, AddCount, IsContradicted;
    var contradictory := FindContradictions(norm, rows);
    contradicted := contradictory;
    outcomes, counts := [], Counts(0, 0, 0, 0, 0);
    assert RowCounts([]) == counts by {
      NothingCounted();
    }
    for i := 0 to |rows|
      invariant |outcomes| == i && forall k :: 0 <= k < i ==> outcomes[k] == RowOutcome(norm, rows, contradicted, k, students, levels)
      invariant counts == RowCounts(outcomes)
    {
      var outcome := ClassifyGrade(norm, rows[i], students, levels);
      if norm(rows[i].studentName) in contradictory {
        outcome := Conflict;
      }
      RowCounted(outcomes, outcome);
      outcomes := outcomes + [outcome];
      counts := AddCount(counts, outcome);
    }
  }

  // ---- the commit ----

  /** Row `i` asks for `s` to be updated. */
  ghost predicate Asks(norm: Normalize, rows: seq<GradeRecord>, outcomes: seq<Outcome>, students: seq<Student>, i: nat, s: Student)
    requires i < |rows| == |outcomes|
  {
    outcomes[i] == Update && Candidates(norm, rows[i].studentName, students) == [s]
  }

  /** The level `s` gets: that of the first row that asks for them, if any. */
  ghost predicate Graded(norm: Normalize, rows: seq<GradeRecord>, outcomes: seq<Outcome>, students: seq<Student>, levels: seq<GradeLevel>,
                         n: nat, s: Student, after: Student)
    requires n <= |rows| == |outcomes|
  {
    || (after == s && forall i :: 0 <= i < n ==> !Asks(norm, rows, outcomes, students, i, s))
    || (exists i :: 0 <= i < n && Asks(norm, rows, outcomes, students, i, s)
                    && (forall k :: 0 <= k < i ==> !Asks(norm, rows, outcomes, students, k, s))
                    && LevelOf(norm, rows[i].grade, levels).Some?
                    && after == s.(gradeLevel := Some(LevelOf(norm, rows[i].grade, levels).value.id)))
  }

  /** Every student, in order, is as the first `n` rows leave them. */
  ghost predicate AllGraded(norm: Normalize, rows: seq<GradeRecord>, outcomes: seq<Outcome>, students: seq<Student>, levels: seq<GradeLevel>,
                            n: nat, now: seq<Student>)
    requires n <= |rows| == |outcomes|
  {
    |now| == |students| && forall j :: 0 <= j < |students| ==> Graded(norm, rows, outcomes, students, levels, n, students[j], now[j])
  }

  /** A row that asks for nobody changes nobody; one that asks for someone already graded neither. */
  lemma RowPasses(norm: Normalize, rows: seq<GradeRecord>, outcomes: seq<Outcome>, students: seq<Student>, levels: seq<GradeLevel>, n: nat,
                  now: seq<Student>, updated: set<nat>)
    requires n < |rows| == |outcomes| && AllGraded(norm, rows, outcomes, students, levels, n, now)
    requires UpdatedBy(norm, rows, outcomes, students, n, updated)
    requires outcomes[n] == Update ==> forall s :: s in students && Asks(norm, rows, outcomes, students, n, s) ==> s.id in updated
    ensures AllGraded(norm, rows, outcomes, students, levels, n + 1, now) && UpdatedBy(norm, rows, outcomes, students, n + 1, updated)
  {
    assert outcomes[n] != Update ==> forall s :: !Asks(norm, rows, outcomes, students, n, s);
    hide Asks, LevelOf;
    UpdatedSame(norm, rows, outcomes, students, n, updated);
    forall j | 0 <= j < |students|
      ensures Graded(norm, rows, outcomes, students, levels, n + 1, students[j], now[j])
    {
      assert Graded(norm, rows, outcomes, students, levels, n, students[j], now[j]);
      assert students[j] in students;
    }
  }

  /** One student before and after row `n`, which asks for `s` first. */
  lemma RowGradesOne(norm: Normalize, rows: seq<GradeRecord>, outcomes: seq<Outcome>, students: seq<Student>, levels: seq<GradeLevel>, n: nat,
                     t: Student, after: Student, s: Student)
    requires n < |rows| == |outcomes| && Graded(norm, rows, outcomes, students, levels, n, t, after)
    requires Asks(norm, rows, outcomes, students, n, s) && LevelOf(norm, rows[n].grade, levels).Some?
    requires forall i :: 0 <= i < n ==> !Asks(norm, rows, outcomes, students, i, s)
    ensures Graded(norm, rows, outcomes, students, levels, n + 1, t,
                   if t == s then s.(gradeLevel := Some(LevelOf(norm, rows[n].grade, levels).value.id)) else after)
  {
    assert Asks(norm, rows, outcomes, students, n, t) ==> t == s;
    hide Asks, LevelOf;
  }

  /** The first row that asks for a student gives them their level, and touches no one else. */
  lemma RowGrades(norm: Normalize, rows: seq<GradeRecord>, outcomes: seq<Outcome>, students: seq<Student>, levels: seq<GradeLevel>, n: nat,
                  now: seq<Student>, s: Student)
    requires n < |rows| == |outcomes| && AllGraded(norm, rows, outcomes, students, levels, n, now)
    requires Unique(students, StudentId) && s in students && Asks(norm, rows, outcomes, students, n, s)
    requires forall i :: 0 <= i < n ==> !Asks(norm, rows, outcomes, students, i, s)
    requires LevelOf(norm, rows[n].grade, levels).Some?
    ensures AllGraded(norm, rows, outcomes, students, levels, n + 1,
                      Replace(now, StudentId, s.(gradeLevel := Some(LevelOf(norm, rows[n].grade, levels).value.id))))
  {
    hide Asks, LevelOf, Replace, Graded;
    var row := s.(gradeLevel := Some(LevelOf(norm, rows[n].grade, levels).value.id));
    ReplaceShape(now, StudentId, row);
    UniqueMember(students, StudentId, s);
    forall j | 0 <= j < |students|
      ensures Graded(norm, rows, outcomes, students, levels, n + 1, students[j], Replace(now, StudentId, row)[j])
    {
      SameStudent(norm, rows, outcomes, students, levels, n, students[j], now[j]);
      RowGradesOne(norm, rows, outcomes, students, levels, n, students[j], now[j], s);
      assert students[j] in students;
    }
  }

  lemma SameStudent(norm: Normalize, rows: seq<GradeRecord>, outcomes: seq<Outcome>, students: seq<Student>, levels: seq<GradeLevel>, n: nat,
                    t: Student, after: Student)
    requires n <= |rows| == |outcomes| && Graded(norm, rows, outcomes, students, levels, n, t, after)
    ensures after.id == t.id
  {
    hide Asks, LevelOf;
  }

  /** Row `i` updates exactly one stored student, and its grade names a level. */
  lemma AsksOne(norm: Normalize, rows: seq<GradeRecord>, outcomes: seq<Outcome>, students: seq<Student>, levels: seq<GradeLevel>,
                contradicted: set<string>, i: nat)
    requires i < |rows| == |outcomes| && outcomes[i] == Update
    requires outcomes[i] == RowOutcome(norm, rows, contradicted, i, students, levels)
    ensures |Candidates(norm, rows[i].studentName, students)| == 1
    ensures var student := Candidates(norm, rows[i].studentName, students)[0];
            student in students && !student.deleted
            && forall s :: Asks(norm, rows, outcomes, students, i, s) <==> s == student
    ensures LevelOf(norm, rows[i].grade, levels).Some?
  {
    hide NameMatches, LevelOf;
    CandidatesAre(norm, rows[i].studentName, students);
    var found := Candidates(norm, rows[i].studentName, students);
    assert found == [found[0]] && found[0] in found;
  }

  /** `updated` holds the students whom one of the first `n` rows asked for. */
  ghost predicate UpdatedBy(norm: Normalize, rows: seq<GradeRecord>, outcomes: seq<Outcome>, students: seq<Student>, n: nat, updated: set<nat>)
    requires n <= |rows| == |outcomes|
  {
    forall s :: s in students ==> (s.id in updated <==> exists k :: 0 <= k < n && Asks(norm, rows, outcomes, students, k, s))
  }

  lemma UpdatedSame(norm: Normalize, rows: seq<GradeRecord>, outcomes: seq<Outcome>, students: seq<Student>, n: nat, updated: set<nat>)
    requires n < |rows| == |outcomes| && UpdatedBy(norm, rows, outcomes, students, n, updated)
    requires forall s :: s in students && Asks(norm, rows, outcomes, students, n, s) ==> s.id in updated
    ensures UpdatedBy(norm, rows, outcomes, students, n + 1, updated)
  {
    hide Asks;
  }

  lemma UpdatedMore(norm: Normalize, rows: seq<GradeRecord>, outcomes: seq<Outcome>, students: seq<Student>, n: nat, updated: set<nat>, student: Student)
    requires n < |rows| == |outcomes| && UpdatedBy(norm, rows, outcomes, students, n, updated)
    requires Unique(students, StudentId) && student in students
    requires forall s :: Asks(norm, rows, outcomes, students, n, s) <==> s == student
    ensures UpdatedBy(norm, rows, outcomes, students, n + 1, updated + {student.id})
  {
    hide Asks;
    UniqueMember(students, StudentId, student);
    assert Asks(norm, rows, outcomes, students, n, student);
  }

  /** Applies the grades, or nothing if some row is in error; no other check fails. Each student is written at most once. */
  method CommitGrades(tx: Tx, norm: Normalize, rows: seq<GradeRecord>, levels: seq<GradeLevel>)
    returns (ok: bool, outcomes: seq<Outcome>, ghost contradicted: set<string>)
    requires tx.Valid() && Unique(levels, LevelId)
    modifies tx`students
    ensures tx.Valid() && IsContradicted(norm, rows, contradicted)
    ensures |outcomes| == |rows| && forall i :: 0 <= i < |rows| ==> outcomes[i] == RowOutcome(norm, rows, contradicted, i, old(tx.students), levels)
    ensures ok <==> Error !in outcomes
    ensures !ok ==> tx.students == old(tx.students)
    ensures ok ==> AllGraded(norm, rows, outcomes, old(tx.students), levels, |rows|, tx.students)
  {
    hide GradeOutcome, AllGraded, LevelOf, Candidates, IsContradicted, RowOutcome, Asks, UpdatedBy, RowCounts, Tables, Taken, Placeholder, Trim, Nullable, Replace, Unique;
    var snapshot := tx.students;
    UniquePeople(tx.adults, tx.students, tx.relationships, tx.hidden, tx.nextId);
    var counts;
    outcomes, counts, contradicted := MatchGrades(norm, rows, snapshot, levels);
    ErrorsCounted(outcomes);
    if counts.errors > 0 {
      return false, outcomes, contradicted;
    }
    var updated: set<nat> := {};
    NoRows(norm, rows, outcomes, snapshot, levels);
    for i := 0 to |rows|
      invariant tx.Valid()
      invariant AllGraded(norm, rows, outcomes, snapshot, levels, i, tx.students)
      invariant UpdatedBy(norm, rows, outcomes, snapshot, i, updated)
    {
      var source := rows[i];
      if outcomes[i] != Update {
        RowPasses(norm, rows, outcomes, snapshot, levels, i, tx.students, updated);
        continue;
      }
      AsksOne(norm, rows, outcomes, snapshot, levels, contradicted, i);
      var candidates := MatchingGradeStudents(norm, source.studentName, snapshot);
      var student := candidates[0];
      if student.id in updated {
        RowPasses(norm, rows, outcomes, snapshot, levels, i, tx.students, updated);
        continue;
      }
      var level := ResolveGradeLevel(norm, source.grade, levels);
      Untouched(norm, rows, outcomes, snapshot, levels, i, tx.students, student, updated);
      ghost var now := tx.students;
      StudentStored(tx.adults, now, tx.relationships, tx.hidden, tx.nextId, student);
      StudentHolds(tx.adults, now, tx.relationships, tx.hidden, tx.nextId, student);
      var row := tx.UpdateStudent(student.id, student.given, student.family, student.preferred, Some(level.value.id), student.homeroom, student.externalId);
      RowGrades(norm, rows, outcomes, snapshot, levels, i, now, student);
      UpdatedMore(norm, rows, outcomes, snapshot, i, updated, student);
      updated := updated + {student.id};
    }
    return true, outcomes, contradicted;
  }

  lemma NoRows(norm: Normalize, rows: seq<GradeRecord>, outcomes: seq<Outcome>, students: seq<Student>, levels: seq<GradeLevel>)
    requires |rows| == |outcomes|
    ensures AllGraded(norm, rows, outcomes, students, levels, 0, students) && UpdatedBy(norm, rows, outcomes, students, 0, {})
  {
  }

  /** A student no row has asked for yet is stored as the snapshot has them. */
  lemma Untouched(norm: Normalize, rows: seq<GradeRecord>, outcomes: seq<Outcome>, students: seq<Student>, levels: seq<GradeLevel>, n: nat,
                  now: seq<Student>, s: Student, updated: set<nat>)
    requires n <= |rows| == |outcomes| && AllGraded(norm, rows, outcomes, students, levels, n, now) && s in students
    requires UpdatedBy(norm, rows, outcomes, students, n, updated) && s.id !in updated
    ensures s in now && forall i :: 0 <= i < n ==> !Asks(norm, rows, outcomes, students, i, s)
  {
    hide Asks, LevelOf;
    var j :| 0 <= j < |students| && students[j] == s;
    assert Graded(norm, rows, outcomes, students, levels, n, students[j], now[j]);
  }
}
