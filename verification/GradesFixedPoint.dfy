/** Matching a committed grade sheet again. */
module GradesFixedPoint {
  import opened Contract
  import opened Rows
  import opened Roster
  import opened Grades

  /** Rows that find the same student name the same level. Different rows find one student by different names. */
  ghost predicate Agreed(norm: Normalize, rows: seq<GradeRecord>, outcomes: seq<Outcome>, students: seq<Student>, levels: seq<GradeLevel>)
    requires |rows| == |outcomes|
  {
    forall i, j :: 0 <= i < |rows| && 0 <= j < |rows| && outcomes[i] != Conflict && outcomes[j] != Conflict
                   && Candidates(norm, rows[i].studentName, students) == Candidates(norm, rows[j].studentName, students) ==>
                   SameLevel(LevelOf(norm, rows[i].grade, levels), LevelOf(norm, rows[j].grade, levels))
  }

  predicate SameLevel(a: Option<GradeLevel>, b: Option<GradeLevel>) {
    a.Some? && b.Some? && a.value.id == b.value.id
  }

  /** Students who differ at most in their grade level. */
  ghost predicate SameButLevels(students: seq<Student>, now: seq<Student>) {
    |now| == |students| && forall j :: 0 <= j < |students| ==> now[j] == students[j].(gradeLevel := now[j].gradeLevel)
  }

  /** A new level moves nobody in or out of a name's candidates. */
  lemma {:induction false} CandidatesAfter(norm: Normalize, name: string, students: seq<Student>, now: seq<Student>)
    requires SameButLevels(students, now)
    ensures |Candidates(norm, name, now)| == |Candidates(norm, name, students)|
    ensures |Candidates(norm, name, students)| == 1 ==>
              exists j :: 0 <= j < |students| && Candidates(norm, name, students) == [students[j]] && Candidates(norm, name, now) == [now[j]]
  {
    if students != [] {
      var n := |students| - 1;
      CandidatesAfter(norm, name, students[..n], now[..n]);
      assert NameMatches(norm, name, students[n]) == NameMatches(norm, name, now[n]);
      if |Candidates(norm, name, students)| == 1 && !NameMatches(norm, name, students[n]) {
        var j :| 0 <= j < n && Candidates(norm, name, students[..n]) == [students[..n][j]] && Candidates(norm, name, now[..n]) == [now[..n][j]];
        assert students[..n][j] == students[j] && now[..n][j] == now[j];
      }
    }
  }

  lemma GradedSame(norm: Normalize, rows: seq<GradeRecord>, outcomes: seq<Outcome>, students: seq<Student>, levels: seq<GradeLevel>, now: seq<Student>)
    requires |rows| == |outcomes| && AllGraded(norm, rows, outcomes, students, levels, |rows|, now)
    ensures SameButLevels(students, now)
  {
    hide Asks, LevelOf;
    forall j | 0 <= j < |students|
      ensures now[j] == students[j].(gradeLevel := now[j].gradeLevel)
    {
      assert Graded(norm, rows, outcomes, students, levels, |rows|, students[j], now[j]);
    }
  }

  /** `outcomes` is the preview of `rows`, without errors. */
  ghost predicate Previewed(norm: Normalize, rows: seq<GradeRecord>, contradicted: set<string>, students: seq<Student>,
                            levels: seq<GradeLevel>, outcomes: seq<Outcome>)
  {
    && |outcomes| == |rows| && Error !in outcomes
    && forall i :: 0 <= i < |rows| ==> outcomes[i] == RowOutcome(norm, rows, contradicted, i, students, levels)
  }

  /** A row that is not in conflict finds its one student again, and is settled if they have its level. */
  lemma RowAfter(norm: Normalize, rows: seq<GradeRecord>, contradicted: set<string>, students: seq<Student>, levels: seq<GradeLevel>,
                 outcomes: seq<Outcome>, now: seq<Student>, i: nat) returns (j: nat)
    requires i < |rows| && Previewed(norm, rows, contradicted, students, levels, outcomes) && SameButLevels(students, now)
    ensures outcomes[i] == Conflict ==> RowOutcome(norm, rows, contradicted, i, now, levels) == Conflict
    ensures outcomes[i] != Conflict ==>
              && j < |students| && Candidates(norm, rows[i].studentName, students) == [students[j]]
              && LevelOf(norm, rows[i].grade, levels).Some?
              && (outcomes[i] == Update || students[j].gradeLevel == Some(LevelOf(norm, rows[i].grade, levels).value.id))
              && RowOutcome(norm, rows, contradicted, i, now, levels) ==
                 if now[j].gradeLevel == Some(LevelOf(norm, rows[i].grade, levels).value.id) then Unchanged else Update
  {
    hide NameMatches, LevelOf, Candidates;
    var name := rows[i].studentName;
    assert outcomes[i] in outcomes;
    CandidatesAfter(norm, name, students, now);
    j := 0;
    if |Candidates(norm, name, students)| == 1 {
      j :| 0 <= j < |students| && Candidates(norm, name, students) == [students[j]] && Candidates(norm, name, now) == [now[j]];
    }
  }

  lemma LevelKept(norm: Normalize, rows: seq<GradeRecord>, contradicted: set<string>, students: seq<Student>, levels: seq<GradeLevel>,
                  outcomes: seq<Outcome>, now: seq<Student>, i: nat, j: nat)
    requires Previewed(norm, rows, contradicted, students, levels, outcomes) && Agreed(norm, rows, outcomes, students, levels)
    requires AllGraded(norm, rows, outcomes, students, levels, |rows|, now)
    requires i < |rows| && outcomes[i] != Conflict && j < |students| && Candidates(norm, rows[i].studentName, students) == [students[j]]
    requires LevelOf(norm, rows[i].grade, levels).Some?
    requires outcomes[i] == Update || students[j].gradeLevel == Some(LevelOf(norm, rows[i].grade, levels).value.id)
    ensures now[j].gradeLevel == Some(LevelOf(norm, rows[i].grade, levels).value.id)
  {
    hide LevelOf, Candidates, RowOutcome, AllGraded;
    assert Graded(norm, rows, outcomes, students, levels, |rows|, students[j], now[j]) && |now| == |students| by {
      GradedAt(norm, rows, outcomes, students, levels, now, j);
    }
    if now[j] == students[j] && forall k :: 0 <= k < |rows| ==> !Asks(norm, rows, outcomes, students, k, students[j]) {
      assert !Asks(norm, rows, outcomes, students, i, students[j]);
    } else {
      var k :| 0 <= k < |rows| && Asks(norm, rows, outcomes, students, k, students[j])
               && LevelOf(norm, rows[k].grade, levels).Some?
               && now[j] == students[j].(gradeLevel := Some(LevelOf(norm, rows[k].grade, levels).value.id));
      assert SameLevel(LevelOf(norm, rows[i].grade, levels), LevelOf(norm, rows[k].grade, levels));
    }
  }

  lemma GradedAt(norm: Normalize, rows: seq<GradeRecord>, outcomes: seq<Outcome>, students: seq<Student>, levels: seq<GradeLevel>,
                 now: seq<Student>, j: nat)
    requires |rows| == |outcomes| && AllGraded(norm, rows, outcomes, students, levels, |rows|, now) && j < |students|
    ensures |now| == |students| && Graded(norm, rows, outcomes, students, levels, |rows|, students[j], now[j])
  {
  }

  lemma LevelsAgree(norm: Normalize, rows: seq<GradeRecord>, contradicted: set<string>, students: seq<Student>, levels: seq<GradeLevel>,
                    outcomes: seq<Outcome>, now: seq<Student>, i: nat, k: nat)
    requires Unique(students, StudentId) && Previewed(norm, rows, contradicted, students, levels, outcomes) && SameButLevels(students, now)
    requires i < |rows| && k < |rows| && outcomes[i] != Conflict && outcomes[k] != Conflict
    requires RowOutcome(norm, rows, contradicted, i, now, levels) == Unchanged && RowOutcome(norm, rows, contradicted, k, now, levels) == Unchanged
    requires Candidates(norm, rows[i].studentName, students) == Candidates(norm, rows[k].studentName, students)
    ensures SameLevel(LevelOf(norm, rows[i].grade, levels), LevelOf(norm, rows[k].grade, levels))
  {
    hide LevelOf, Candidates, RowOutcome, Previewed;
    var j := RowAfter(norm, rows, contradicted, students, levels, outcomes, now, i);
    var m := RowAfter(norm, rows, contradicted, students, levels, outcomes, now, k);
    assert [students[j]][0] == [students[m]][0];
    assert StudentId(students[j]) == StudentId(students[m]);
  }

  /** Matching a committed sheet again finds every grade in place, conflicts aside, exactly when the rows that find
    * one student agree. Otherwise the first row won, and another asks for its own level again. */
  lemma GradesSettleIff(norm: Normalize, rows: seq<GradeRecord>, contradicted: set<string>, students: seq<Student>, levels: seq<GradeLevel>,
                        outcomes: seq<Outcome>, now: seq<Student>)
    requires |outcomes| == |rows| && Unique(students, StudentId) && Previewed(norm, rows, contradicted, students, levels, outcomes)
    requires AllGraded(norm, rows, outcomes, students, levels, |rows|, now)
    ensures (forall i :: 0 <= i < |rows| ==> RowOutcome(norm, rows, contradicted, i, now, levels) == Settle(outcomes[i]))
            <==> Agreed(norm, rows, outcomes, students, levels)
  {
    hide LevelOf, Candidates, RowOutcome, AllGraded, Previewed, SameButLevels, SameLevel;
    GradedSame(norm, rows, outcomes, students, levels, now);
    if Agreed(norm, rows, outcomes, students, levels) {
      forall i | 0 <= i < |rows|
        ensures RowOutcome(norm, rows, contradicted, i, now, levels) == Settle(outcomes[i])
      {
        var j := RowAfter(norm, rows, contradicted, students, levels, outcomes, now, i);
        if outcomes[i] != Conflict {
          LevelKept(norm, rows, contradicted, students, levels, outcomes, now, i, j);
        }
      }
    }
    if forall i :: 0 <= i < |rows| ==> RowOutcome(norm, rows, contradicted, i, now, levels) == Settle(outcomes[i]) {
      forall i, k | 0 <= i < |rows| && 0 <= k < |rows| && outcomes[i] != Conflict && outcomes[k] != Conflict
                    && Candidates(norm, rows[i].studentName, students) == Candidates(norm, rows[k].studentName, students)
        ensures SameLevel(LevelOf(norm, rows[i].grade, levels), LevelOf(norm, rows[k].grade, levels))
      {
        LevelsAgree(norm, rows, contradicted, students, levels, outcomes, now, i, k);
      }
    }
  }

  // ---- a sheet that does not settle ----

  const ANN := Student(0, None, 0, "Ann", "Lee", Some("Annie"), None, false, false)
  const THIRD := GradeLevel(3, "3", "Third")
  const FOURTH := GradeLevel(4, "4", "Fourth")
  const ANN_TWICE := [GradeRecord("Ann Lee", "3"), GradeRecord("Annie Lee", "4")]

  function Verbatim(text: string): string { text }

  lemma AnnFound()
    ensures Candidates(Verbatim, "Ann Lee", [ANN]) == [ANN] && Candidates(Verbatim, "Annie Lee", [ANN]) == [ANN]
  {
    assert [ANN][..0] == [];
    assert NameMatches(Verbatim, "Ann Lee", ANN) by {
      assert "Ann" + " " + "Lee" == "Ann Lee";
    }
    assert NameMatches(Verbatim, "Annie Lee", ANN) by {
      assert "Annie" + " " + "Lee" == "Annie Lee";
    }
    hide NameMatches;
  }

  lemma LevelsFound()
    ensures LevelOf(Verbatim, "3", [THIRD, FOURTH]) == Some(THIRD) && LevelOf(Verbatim, "4", [THIRD, FOURTH]) == Some(FOURTH)
  {
    var levels := [THIRD, FOURTH];
    assert levels[..1] == [THIRD] && [THIRD][..0] == [];
    assert "3"[0] == '3' && "4"[0] == '4' && |"Third"| == 5 && |"Fourth"| == 6;
    assert LevelMatches(Verbatim, "3", THIRD) && !LevelMatches(Verbatim, "3", FOURTH);
    assert !LevelMatches(Verbatim, "4", THIRD) && LevelMatches(Verbatim, "4", FOURTH);
    hide LevelMatches;
    assert Levels(Verbatim, "3", []) == [] && Levels(Verbatim, "4", []) == [];
    assert Levels(Verbatim, "3", [THIRD]) == [THIRD] && Levels(Verbatim, "4", [THIRD]) == [];
  }

  /** Two names, one student, two grades: no contradiction is found, and the rows do not agree. */
  lemma TwoNamesOneStudent()
    ensures IsContradicted(Verbatim, ANN_TWICE, {})
    ensures Previewed(Verbatim, ANN_TWICE, {}, [ANN], [THIRD, FOURTH], [Update, Update])
    ensures !Agreed(Verbatim, ANN_TWICE, [Update, Update], [ANN], [THIRD, FOURTH])
  {
    hide Candidates, LevelOf;
    AnnFound();
    LevelsFound();
    assert |"Ann Lee"| == 7 && |"Annie Lee"| == 9;
    var rows := ANN_TWICE;
    assert rows[0].studentName == "Ann Lee" && rows[1].studentName == "Annie Lee" && rows[0].grade == "3" && rows[1].grade == "4";
    assert GradeOutcome(Verbatim, rows[0], [ANN], [THIRD, FOURTH]) == Update;
    assert GradeOutcome(Verbatim, rows[1], [ANN], [THIRD, FOURTH]) == Update;
    assert !SameLevel(LevelOf(Verbatim, rows[0].grade, [THIRD, FOURTH]), LevelOf(Verbatim, rows[1].grade, [THIRD, FOURTH]));
  }
}
