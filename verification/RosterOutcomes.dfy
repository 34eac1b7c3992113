/** What each outcome of a person's preview tells about the stored rows. */
module RosterOutcomes {
  import opened Contract
  import opened Rows
  import opened Roster

  /** The external identifier, as stored, names `id`. */
  ghost predicate Bears(external: Option<string>, id: string) {
    external.Some? && Trim(external.value) == id
  }

  ghost predicate Nobody<R(!new)>(rows: seq<R>, bears: R -> bool) {
    forall r :: r in rows ==> !bears(r)
  }

  /** `row` is the one entry of the list that bears the identifier. */
  ghost predicate Alone<R(!new)>(rows: seq<R>, bears: R -> bool, row: R) {
    exists i :: 0 <= i < |rows| && rows[i] == row && bears(row) && forall j :: 0 <= j < |rows| && j != i ==> !bears(rows[j])
  }

  ghost predicate Several<R(!new)>(rows: seq<R>, bears: R -> bool) {
    exists i, j :: 0 <= i < j < |rows| && bears(rows[i]) && bears(rows[j])
  }

  // ---- adults ----

  ghost function AdultBearing(id: string): Adult -> bool {
    (a: Adult) => Bears(a.externalId, id)
  }

  /** Several rows bear the identifier, or the one that does was deleted. */
  ghost predicate AdultContested(st: Snapshot, id: string) {
    Several(st.adults, AdultBearing(id)) || exists a :: Alone(st.adults, AdultBearing(id), a) && a.deleted
  }

  ghost predicate AdultDiffers(source: SourceAdult, a: Adult) {
    || (source.given != "" && source.given != a.given)
    || (source.family != "" && source.family != a.family)
    || (source.email != "" && a.email != Some(source.email))
  }

  ghost predicate AdultJustified(st: Snapshot, source: SourceAdult, outcome: Outcome) {
    var named := Trim(source.given) != "" && Trim(source.family) != "";
    if Trim(source.id) == "" then outcome == Error
    else match outcome
      case Conflict => AdultContested(st, source.id)
      case Create => Nobody(st.adults, AdultBearing(source.id)) && named
      case Error => Nobody(st.adults, AdultBearing(source.id)) && !named
      case Update => exists a :: Alone(st.adults, AdultBearing(source.id), a) && !a.deleted && AdultDiffers(source, a)
      case Unchanged => exists a :: Alone(st.adults, AdultBearing(source.id), a) && !a.deleted && !AdultDiffers(source, a)
  }

  // ---- students ----

  ghost function StudentBearing(id: string): Student -> bool {
    (s: Student) => Bears(s.externalId, id)
  }

  ghost function HomeroomBearing(id: string): Homeroom -> bool {
    (h: Homeroom) => Bears(h.externalId, id)
  }

  ghost predicate StudentContested(st: Snapshot, id: string) {
    Several(st.students, StudentBearing(id)) || exists s :: Alone(st.students, StudentBearing(id), s) && s.deleted
  }

  /** The classroom names exactly one homeroom. */
  ghost predicate SitsIn(st: Snapshot, source: SourceStudent, homeroom: nat) {
    Trim(source.classroom) != "" && exists h :: Alone(st.homerooms, HomeroomBearing(Trim(source.classroom)), h) && h.id == homeroom
  }

  ghost predicate StudentDiffers(source: SourceStudent, homeroom: nat, s: Student) {
    || (source.given != "" && source.given != s.given)
    || (source.family != "" && source.family != s.family)
    || homeroom != s.homeroom
  }

  ghost predicate StudentJustified(st: Snapshot, source: SourceStudent, outcome: Outcome) {
    var named := Trim(source.given) != "" && Trim(source.family) != "";
    if Trim(source.id) == "" then outcome == Error
    else match outcome
      case Conflict => StudentContested(st, source.id)
      case Create => Nobody(st.students, StudentBearing(source.id)) && named && exists h :: SitsIn(st, source, h)
      case Error => !StudentContested(st, source.id)
                    && ((forall h :: !SitsIn(st, source, h)) || (Nobody(st.students, StudentBearing(source.id)) && !named))
      case Update => exists s, h :: Alone(st.students, StudentBearing(source.id), s) && !s.deleted && SitsIn(st, source, h) && StudentDiffers(source, h, s)
      case Unchanged => exists s, h :: Alone(st.students, StudentBearing(source.id), s) && !s.deleted && SitsIn(st, source, h) && !StudentDiffers(source, h, s)
  }

  // ---- the classification is the one outcome the rows justify ----

  /** How many matches an index entry holds. */
  lemma {:induction false} MatchingTells<R(!new)>(rows: seq<R>, key: R -> string, id: string, bears: R -> bool)
    requires forall r :: r in rows ==> (key(r) == id <==> bears(r))
    ensures Matching(rows, key, id) == [] <==> Nobody(rows, bears)
    ensures forall r :: Matching(rows, key, id) == [r] <==> Alone(rows, bears, r)
    ensures |Matching(rows, key, id)| > 1 <==> Several(rows, bears)
  {
    if rows != [] {
      var n := |rows| - 1;
      assert rows == rows[..n] + [rows[n]];
      MatchingTells(rows[..n], key, id, bears);
      assert rows[n] in rows;
      LastTells(rows[..n], rows[n], bears);
      var rest := Matching(rows[..n], key, id);
      hide Nobody, Alone, Several;
      OneLonger(rest, rows[n]);
    }
  }

  lemma OneLonger<R(!new)>(rest: seq<R>, last: R)
    ensures forall r :: rest + [last] == [r] <==> rest == [] && r == last
  {
    assert (rest + [last])[|rest|] == last;
    forall r | rest + [last] == [r]
      ensures rest == []
    {
      assert |rest + [last]| == 1;
    }
  }

  lemma LastTells<R(!new)>(rows: seq<R>, last: R, bears: R -> bool)
    ensures Nobody(rows + [last], bears) <==> Nobody(rows, bears) && !bears(last)
    ensures Several(rows + [last], bears) <==> Several(rows, bears) || (bears(last) && !Nobody(rows, bears))
    ensures forall r :: Alone(rows + [last], bears, r) <==> if bears(last) then Nobody(rows, bears) && r == last else Alone(rows, bears, r)
  {
    var all := rows + [last];
    assert all[|rows|] == last && forall i :: 0 <= i < |rows| ==> all[i] == rows[i];
    if Several(all, bears) {
      var i, j :| 0 <= i < j < |all| && bears(all[i]) && bears(all[j]);
      assert rows[i] in rows;
    }
    if r :| r in rows && bears(r) && bears(last) {
      var i :| 0 <= i < |rows| && rows[i] == r;
      assert bears(all[i]) && bears(all[|rows|]);
    }
    if Several(rows, bears) {
      var i, j :| 0 <= i < j < |rows| && bears(rows[i]) && bears(rows[j]);
      assert bears(all[i]) && bears(all[j]);
    }
    forall r
      ensures Alone(all, bears, r) <==> if bears(last) then Nobody(rows, bears) && r == last else Alone(rows, bears, r)
    {
      AloneStep(rows, last, bears, r);
    }
  }

  lemma AloneStep<R(!new)>(rows: seq<R>, last: R, bears: R -> bool, r: R)
    ensures Alone(rows + [last], bears, r) <==> if bears(last) then Nobody(rows, bears) && r == last else Alone(rows, bears, r)
  {
    var all, n := rows + [last], |rows|;
    if Alone(all, bears, r) {
      var i :| 0 <= i < |all| && all[i] == r && bears(r) && forall j :: 0 <= j < |all| && j != i ==> !bears(all[j]);
      assert i < n ==> !bears(all[n]);
      assert forall j :: 0 <= j < n && j != i ==> !bears(all[j]) && all[j] == rows[j];
    }
    if bears(last) && Nobody(rows, bears) && r == last {
      assert forall j :: 0 <= j < |all| && j != n ==> all[j] == rows[j] && rows[j] in rows;
      assert all[n] == r;
    }
    if !bears(last) && Alone(rows, bears, r) {
      var i :| 0 <= i < n && rows[i] == r && bears(r) && forall j :: 0 <= j < n && j != i ==> !bears(rows[j]);
      assert all[i] == r && forall j :: 0 <= j < |all| && j != i ==> !bears(all[j]);
    }
  }

  lemma AdultOutcomeJustified(st: Snapshot, source: SourceAdult, outcome: Outcome)
    ensures AdultJustified(st, source, outcome) <==> outcome == AdultOutcome(st, source)
  {
    hide Matching, Trim, Alone, Several, Nobody;
    if Trim(source.id) != "" {
      TrimBlank();
      MatchingTells(st.adults, AdultKey, source.id, AdultBearing(source.id));
      var matches := Matching(st.adults, AdultKey, source.id);
      assert |matches| == 1 ==> matches == [matches[0]];
    }
  }

  lemma TrimBlank()
    ensures Trim("") == ""
  {
  }

  lemma HomeroomNamed(st: Snapshot, source: SourceStudent, homeroom: nat)
    ensures ResolveHomeroom(source.classroom, st.homerooms) == Some(homeroom) <==> SitsIn(st, source, homeroom)
  {
    hide Matching, Trim, Alone, Several, Nobody;
    var id := Trim(source.classroom);
    if id != "" {
      TrimBlank();
      MatchingTells(st.homerooms, HomeroomKey, id, HomeroomBearing(id));
      var matches := Matching(st.homerooms, HomeroomKey, id);
      assert |matches| == 1 ==> matches == [matches[0]];
    }
  }

  lemma StudentOutcomeJustified(st: Snapshot, source: SourceStudent, outcome: Outcome)
    ensures StudentJustified(st, source, outcome) <==> outcome == StudentOutcome(st, source)
  {
    hide Matching, Trim, Alone, Several, Nobody, ResolveHomeroom, SitsIn;
    if Trim(source.id) != "" {
      TrimBlank();
      MatchingTells(st.students, StudentKey, source.id, StudentBearing(source.id));
      var matches := Matching(st.students, StudentKey, source.id);
      assert |matches| == 1 ==> matches == [matches[0]];
      forall h: nat
        ensures ResolveHomeroom(source.classroom, st.homerooms) == Some(h) <==> SitsIn(st, source, h)
      {
        HomeroomNamed(st, source, h);
      }
      var homeroom := ResolveHomeroom(source.classroom, st.homerooms);
      assert homeroom.Some? ==> SitsIn(st, source, homeroom.value);
    }
  }
}
