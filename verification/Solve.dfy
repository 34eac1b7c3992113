/** The solve: build the model, minimise and freeze one quality level at a time, then keep prior placements. */
module Solve {
  import opened Contract
  import opened Counting
  import opened Ordering
  import opened Placing
  import opened Diagnostics
  import opened Constraints
  import opened Report
  import opened Infeasibility
  import opened CpModel
  import opened Solving

  // ---- what an optimal placement is ----

  /** How many people `a` places at quality `q`. */
  ghost function QualityCount(r: Request, a: map<string, string>, q: Quality): nat {
    |set p | p in a && QualityAt(r, (p, a[p])) == q|
  }

  /** The counts to be minimised, worst level first. */
  ghost function QualityVector(r: Request, a: map<string, string>): (counts: seq<nat>)
    ensures |counts| == |QUALITY_LEVELS|
  {
    [QualityCount(r, a, Unwanted), QualityCount(r, a, Neutral), QualityCount(r, a, Acceptable), QualityCount(r, a, High)]
  }

  /** Lexicographic order: the first level that differs decides. */
  ghost predicate LexLe(u: seq<nat>, v: seq<nat>) {
    u == [] || (v != [] && (u[0] < v[0] || (u[0] == v[0] && LexLe(u[1..], v[1..]))))
  }

  /** No placement does better on the first `n` levels. */
  ghost predicate OptimalThrough(r: Request, a: map<string, string>, n: nat)
    requires n <= 4
  {
    && Feasible(r, a)
    && forall b :: Feasible(r, b) ==> LexLe(QualityVector(r, a)[..n], QualityVector(r, b)[..n])
  }

  /** How many entries of `prior` the placement keeps, pinned participants aside. A repeated entry counts again. */
  ghost function Retained(r: Request, prior: seq<Placement>, a: map<string, string>): nat {
    if prior == [] then 0
    else
      var last := prior[|prior| - 1];
      Retained(r, prior[..|prior| - 1], a)
      + (if last.participantId !in PinnedParticipants(r) && last.participantId in a && a[last.participantId] == last.offeringId then 1 else 0)
  }

  /** The places of the list whose entry is kept by someone not pinned. */
  ghost function KeptPlaces(r: Request, prior: seq<Placement>, a: map<string, string>, n: nat): set<nat>
    requires n <= |prior|
  {
    set i: nat | i < n && (forall pin :: pin in r.pins ==> pin.participantId != prior[i].participantId)
                 && prior[i].participantId in a && a[prior[i].participantId] == prior[i].offeringId
  }

  lemma {:induction false} RetainedCounts(r: Request, prior: seq<Placement>, a: map<string, string>, n: nat)
    requires n <= |prior|
    ensures Retained(r, prior[..n], a) == |KeptPlaces(r, prior, a, n)|
  {
    if n > 0 {
      RetainedCounts(r, prior, a, n - 1);
      assert prior[..n][..n - 1] == prior[..n - 1];
      var before := KeptPlaces(r, prior, a, n - 1);
      assert n - 1 !in before;
      var entry := prior[n - 1];
      var keeps := entry.participantId !in PinnedParticipants(r) && entry.participantId in a && a[entry.participantId] == entry.offeringId;
      assert KeptPlaces(r, prior, a, n) == if keeps then before + {n - 1} else before;
    }
  }

  /** What an optimal answer promises: best quality, and among those the most prior placements kept. */
  ghost predicate Best(r: Request, a: map<string, string>) {
    && OptimalThrough(r, a, 4)
    && forall b :: OptimalThrough(r, b, 4) ==> Retained(r, r.priorPlacements, b) <= Retained(r, r.priorPlacements, a)
  }

  lemma {:induction false} LexLeExtend(u: seq<nat>, v: seq<nat>, s: nat, t: nat)
    requires |u| == |v| && LexLe(u, v) && (u == v ==> s <= t)
    ensures LexLe(u + [s], v + [t])
  {
    if u == [] {
      assert LexLe([s][1..], [t][1..]);
    } else {
      assert (u + [s])[1..] == u[1..] + [s] && (v + [t])[1..] == v[1..] + [t];
      if u[0] == v[0] {
        assert u == v <==> u[1..] == v[1..] by {
          assert u == [u[0]] + u[1..] && v == [v[0]] + v[1..];
        }
        LexLeExtend(u[1..], v[1..], s, t);
      }
    }
  }

  lemma {:induction false} LexLeAntisymmetric(u: seq<nat>, v: seq<nat>)
    requires |u| == |v| && LexLe(u, v) && LexLe(v, u)
    ensures u == v
  {
    if u != [] {
      LexLeAntisymmetric(u[1..], v[1..]);
      assert u == [u[0]] + u[1..] && v == [v[0]] + v[1..];
    }
  }

  // ---- objectives ----

  /** The variables of `keys` whose placement has quality `q`. */
  function LevelTerms(r: Request, keys: seq<Key>, q: Quality): seq<Key> {
    if keys == [] then []
    else
      var last := keys[|keys| - 1];
      LevelTerms(r, keys[..|keys| - 1], q) + (if QualityAt(r, last) == q then [last] else [])
  }

  /** The variables of the prior placements that still have one, of unpinned participants only. */
  function RetainedTerms(r: Request, keys: seq<Key>, prior: seq<Placement>): seq<Key> {
    if prior == [] then []
    else
      var last := prior[|prior| - 1];
      RetainedTerms(r, keys, prior[..|prior| - 1])
      + (if last.participantId !in PinnedParticipants(r) && (last.participantId, last.offeringId) in keys
         then [(last.participantId, last.offeringId)] else [])
  }

  lemma {:induction false} LevelTermsMeaning(r: Request, keys: seq<Key>, q: Quality)
    requires Distinct(keys)
    ensures forall k :: k in LevelTerms(r, keys, q) <==> k in keys && QualityAt(r, k) == q
    ensures Distinct(LevelTerms(r, keys, q))
  {
    hide QualityAt;
    if keys != [] {
      var n := |keys| - 1;
      LevelTermsMeaning(r, keys[..n], q);
      assert keys == keys[..n] + [keys[n]];
      var rest := LevelTerms(r, keys[..n], q);
      assert forall i :: 0 <= i < |rest| ==> rest[i] in rest;
    }
  }

  lemma LevelTotal(r: Request, a: map<string, string>, q: Quality)
    requires r.Valid() && Feasible(r, a)
    ensures Total(LevelTerms(r, AllKeys(r, r.participants), q), Chosen(a)) == QualityCount(r, a, q)
  {
    var keys := AllKeys(r, r.participants);
    hide AllKeys, LevelTerms, Total, QualityAt, Decision;
    DecisionKeys(r);
    LevelTermsMeaning(r, keys, q);
    TotalSize(LevelTerms(r, keys, q), Chosen(a));
    LevelSize(r, a, q, LevelTerms(r, keys, q));
  }

  lemma LevelSize(r: Request, a: map<string, string>, q: Quality, terms: seq<Key>)
    requires forall p :: p in a ==> ((p, a[p]) in terms <==> QualityAt(r, (p, a[p])) == q)
    ensures |Elements(terms) * Chosen(a)| == QualityCount(r, a, q)
  {
    hide QualityAt;
    var who := set p | p in a && QualityAt(r, (p, a[p])) == q;
    var m := map p | p in who :: (p, a[p]);
    ImageSize(m, who);
    forall k | k in Elements(terms) * Chosen(a)
      ensures k in Image(m, who)
    {
      assert m[k.0] == k;
    }
    assert Image(m, who) == Elements(terms) * Chosen(a);
  }

  lemma TotalAppend(terms: seq<Key>, k: Key, on: set<Key>)
    ensures Total(terms + [k], on) == Total(terms, on) + (if k in on then 1 else 0)
  {
    assert (terms + [k])[..|terms|] == terms;
  }

  /** A placement's choice is a decision of the model. */
  lemma ChosenKeys(r: Request, a: map<string, string>, k: Key)
    requires r.Valid() && Feasible(r, a)
    ensures k in Chosen(a) <==> k.0 in a && a[k.0] == k.1
    ensures k in Chosen(a) ==> k in AllKeys(r, r.participants)
  {
    DecisionKeys(r);
    hide AllKeys, Eligible, Decision;
    if k.0 in a && a[k.0] == k.1 {
      assert Decision(r, (k.0, a[k.0]));
    }
  }

  lemma {:induction false} RetainedTotal(r: Request, prior: seq<Placement>, a: map<string, string>)
    requires r.Valid() && Feasible(r, a)
    ensures Total(RetainedTerms(r, AllKeys(r, r.participants), prior), Chosen(a)) == Retained(r, prior, a)
  {
    hide AllKeys, Total, Feasible, Chosen, PinnedParticipants, Request.Valid;
    if prior != [] {
      var n := |prior| - 1;
      RetainedTotal(r, prior[..n], a);
      var k := (prior[n].participantId, prior[n].offeringId);
      ChosenKeys(r, a, k);
      var rest := RetainedTerms(r, AllKeys(r, r.participants), prior[..n]);
      TotalAppend(rest, k, Chosen(a));
      assert rest + [] == rest;
    } else {
      NothingTotal(Chosen(a));
    }
  }

  lemma NothingTotal(on: set<Key>)
    ensures Total([], on) == 0
  {
  }

  // ---- minimise, freeze, go on ----

  /** The model's solutions are the placements whose first quality counts are `counts`. */
  ghost predicate Frozen(r: Request, model: Model, counts: seq<nat>)
    requires |counts| <= 4
  {
    && (forall on :: Satisfies(model, on) ==> Satisfies(BaseModel(r), on))
    && (forall a :: Feasible(r, a) ==> (Satisfies(model, Chosen(a)) <==> QualityVector(r, a)[..|counts|] == counts))
  }

  /** No placement has first quality counts below `counts`. */
  ghost predicate LowerBound(r: Request, counts: seq<nat>)
    requires |counts| <= 4
  {
    forall a :: Feasible(r, a) ==> LexLe(counts, QualityVector(r, a)[..|counts|])
  }

  function Level(r: Request, i: nat): seq<Key>
    requires i < 4
  {
    LevelTerms(r, AllKeys(r, r.participants), QUALITY_LEVELS[i])
  }

  lemma LevelCount(r: Request, a: map<string, string>, i: nat)
    requires r.Valid() && Feasible(r, a) && i < 4
    ensures Total(Level(r, i), Chosen(a)) == QualityVector(r, a)[i]
  {
    hide Feasible, QualityCount, AllKeys, LevelTerms, Total;
    LevelTotal(r, a, QUALITY_LEVELS[i]);
  }

  /** Solutions of a frozen model are optimal on the frozen levels. */
  lemma FrozenOptimal(r: Request, model: Model, counts: seq<nat>, on: set<Key>) returns (a: map<string, string>)
    requires r.Valid() && |counts| <= 4 && Frozen(r, model, counts) && LowerBound(r, counts)
    requires Satisfies(model, on)
    ensures Chosen(a) == on && OptimalThrough(r, a, |counts|) && QualityVector(r, a)[..|counts|] == counts
  {
    a := ModelSound(r, on);
  }

  lemma NothingFrozen(r: Request)
    requires r.Valid()
    ensures Frozen(r, BaseModel(r), []) && LowerBound(r, [])
  {
    forall a | Feasible(r, a)
      ensures Satisfies(BaseModel(r), Chosen(a)) && LexLe([], QualityVector(r, a)[..0])
    {
      ModelComplete(r, a);
      assert QualityVector(r, a)[..0] == [];
    }
    hide BaseModel, Satisfies, Feasible;
    assert forall a :: QualityVector(r, a)[..0] == [];
  }

  /** Fixing a level at its minimum keeps the frozen model exact and its counts lowest. */
  lemma FreezeLevel(r: Request, model: Model, counts: seq<nat>, on: set<Key>)
    requires r.Valid() && |counts| < 4 && Frozen(r, model, counts) && LowerBound(r, counts)
    requires Honest(model, Minimize(Level(r, |counts|)), Optimal(on))
    ensures var n := Total(Level(r, |counts|), on);
            Frozen(r, model.Add(Equals(Level(r, |counts|), n)), counts + [n]) && LowerBound(r, counts + [n])
  {
    hide Level, BaseModel, Feasible, QualityVector, LexLe, Total, Satisfies, Model.Add, Honest;
    var n := Total(Level(r, |counts|), on);
    var frozen := model.Add(Equals(Level(r, |counts|), n));
    forall a | Feasible(r, a)
      ensures Satisfies(frozen, Chosen(a)) <==> QualityVector(r, a)[..|counts| + 1] == counts + [n]
      ensures LexLe(counts + [n], QualityVector(r, a)[..|counts| + 1])
    {
      FreezePlacement(r, model, counts, on, a);
    }
    FrozenBase(r, model, counts, Equals(Level(r, |counts|), n));
  }

  lemma FrozenBase(r: Request, model: Model, counts: seq<nat>, c: Constraint)
    requires |counts| <= 4 && Frozen(r, model, counts)
    ensures forall other :: Satisfies(model.Add(c), other) ==> Satisfies(BaseModel(r), other)
  {
    hide BaseModel, Feasible, QualityVector, Satisfies;
    forall other | Satisfies(model.Add(c), other)
      ensures Satisfies(BaseModel(r), other)
    {
      AddMeaning(model, c, other);
    }
  }

  lemma FrozenInstance(r: Request, model: Model, counts: seq<nat>, on: set<Key>, a: map<string, string>)
    requires r.Valid() && |counts| < 4 && Frozen(r, model, counts) && LowerBound(r, counts)
    requires Honest(model, Minimize(Level(r, |counts|)), Optimal(on))
    requires Feasible(r, a)
    ensures Satisfies(model, Chosen(a)) <==> QualityVector(r, a)[..|counts|] == counts
    ensures Satisfies(model, Chosen(a)) ==> Total(Level(r, |counts|), on) <= Total(Level(r, |counts|), Chosen(a))
    ensures LexLe(counts, QualityVector(r, a)[..|counts|])
  {
    hide Level, BaseModel, Feasible, QualityVector, LexLe, Total, Satisfies;
  }

  lemma FreezePlacement(r: Request, model: Model, counts: seq<nat>, on: set<Key>, a: map<string, string>)
    requires r.Valid() && |counts| < 4 && Frozen(r, model, counts) && LowerBound(r, counts)
    requires Honest(model, Minimize(Level(r, |counts|)), Optimal(on))
    requires Feasible(r, a)
    ensures var n := Total(Level(r, |counts|), on);
            (Satisfies(model.Add(Equals(Level(r, |counts|), n)), Chosen(a)) <==> QualityVector(r, a)[..|counts| + 1] == counts + [n])
            && LexLe(counts + [n], QualityVector(r, a)[..|counts| + 1])
  {
    var i := |counts|;
    var n := Total(Level(r, i), on);
    FrozenInstance(r, model, counts, on, a);
    hide Level, BaseModel, Feasible, QualityVector, LexLe, Total, Satisfies, Frozen, LowerBound, Honest;
    AddMeaning(model, Equals(Level(r, i), n), Chosen(a));
    LevelCount(r, a, i);
    ExtendCounts(counts, QualityVector(r, a), n);
  }

  lemma ExtendCounts(counts: seq<nat>, v: seq<nat>, n: nat)
    requires |counts| < |v| && LexLe(counts, v[..|counts|]) && (v[..|counts|] == counts ==> n <= v[|counts|])
    ensures v[..|counts| + 1] == counts + [n] <==> v[..|counts|] == counts && v[|counts|] == n
    ensures LexLe(counts + [n], v[..|counts| + 1])
  {
    var i := |counts|;
    assert v[..i + 1] == v[..i] + [v[i]];
    LexLeExtend(counts, v[..i], n, v[i]);
    if v[..i + 1] == counts + [n] {
      assert v[..i] == v[..i + 1][..i] == counts && v[i] == v[..i + 1][i];
    }
  }

  /** Once all four levels are frozen, the solutions are exactly the placements of best quality. */
  lemma FrozenBest(r: Request, model: Model, counts: seq<nat>, on: set<Key>) returns (a: map<string, string>)
    requires r.Valid() && |counts| == 4 && Frozen(r, model, counts) && LowerBound(r, counts)
    requires Honest(model, Maximize(RetainedTerms(r, AllKeys(r, r.participants), r.priorPlacements)), Optimal(on))
    ensures Chosen(a) == on && Best(r, a)
  {
    var terms := RetainedTerms(r, AllKeys(r, r.participants), r.priorPlacements);
    hide BaseModel, Feasible, QualityVector, LexLe, Total, Retained;
    a := FrozenOptimal(r, model, counts, on);
    RetainedTotal(r, r.priorPlacements, a);
    forall b | OptimalThrough(r, b, 4)
      ensures Retained(r, r.priorPlacements, b) <= Retained(r, r.priorPlacements, a)
    {
      LexLeAntisymmetric(QualityVector(r, a)[..4], QualityVector(r, b)[..4]);
      assert Satisfies(model, Chosen(b));
      RetainedTotal(r, r.priorPlacements, b);
    }
  }

  // ---- the solve itself ----

  datatype Status = OptimalStatus | FeasibleStatus | InfeasibleStatus | UnknownStatus | ModelInvalidStatus
  datatype Assignment = Assignment(participantId: string, offeringId: string, quality: Quality)
  datatype SolveResponse = SolveResponse(seed: int, status: Status, assignments: seq<Assignment>, diagnostics: seq<Diagnostic>)

  /** The response lists every participant once, in order, with the quality they got. */
  function Listing(r: Request, a: map<string, string>, ids: seq<string>): seq<Assignment>
    requires forall id :: id in ids ==> id in a
  {
    if ids == [] then []
    else
      var last := ids[|ids| - 1];
      Listing(r, a, ids[..|ids| - 1]) + [Assignment(last, a[last], QualityAt(r, (last, a[last])))]
  }

  /** Everyone placed is told their offering, once and in the order of their identifiers, and what it is worth to them. */
  ghost predicate Told(r: Request, a: map<string, string>, assignments: seq<Assignment>) {
    && (forall id :: id in a ==> exists e :: e in assignments && e.participantId == id)
    && (forall e :: e in assignments ==> e.participantId in a && e.offeringId == a[e.participantId])
    && (forall i, j :: 0 <= i < j < |assignments| ==>
         Le(assignments[i].participantId, assignments[j].participantId) && assignments[i].participantId != assignments[j].participantId)
    && (forall e, p, o :: e in assignments && p in r.participants && o in r.offerings && e.participantId == p.id && e.offeringId == o.id ==>
         e.quality == RealizedQuality(p, o, r.highRankMax))
  }

  lemma {:induction false} ListingAt(r: Request, a: map<string, string>, ids: seq<string>)
    requires forall id :: id in ids ==> id in a
    ensures |Listing(r, a, ids)| == |ids|
    ensures forall i :: 0 <= i < |ids| ==> Listing(r, a, ids)[i] == Assignment(ids[i], a[ids[i]], QualityAt(r, (ids[i], a[ids[i]])))
  {
    hide QualityAt;
    if ids != [] {
      ListingAt(r, a, ids[..|ids| - 1]);
    }
  }

  lemma QualityKnown(r: Request, p: Participant, o: Offering)
    requires r.Valid() && p in r.participants && o in r.offerings
    ensures QualityAt(r, (p.id, o.id)) == RealizedQuality(p, o, r.highRankMax)
  {
    FoundParticipant(r, p);
    FoundOffering(r, o);
  }

  lemma ListingEntries(r: Request, a: map<string, string>, ids: seq<string>)
    requires forall id :: id in ids <==> id in a
    ensures forall id :: id in a ==> exists e :: e in Listing(r, a, ids) && e.participantId == id
    ensures forall e :: e in Listing(r, a, ids) ==>
      e.participantId in a && e.offeringId == a[e.participantId] && e.quality == QualityAt(r, (e.participantId, e.offeringId))
  {
    hide QualityAt, Listing;
    var listing := Listing(r, a, ids);
    ListingAt(r, a, ids);
    forall id | id in a
      ensures exists e :: e in listing && e.participantId == id
    {
      var i :| 0 <= i < |ids| && ids[i] == id;
      assert listing[i] in listing;
    }
    forall e | e in listing
      ensures e.participantId in a && e.offeringId == a[e.participantId] && e.quality == QualityAt(r, (e.participantId, e.offeringId))
    {
      var i :| 0 <= i < |listing| && listing[i] == e;
      assert ids[i] in ids;
    }
  }

  lemma ListingTells(r: Request, a: map<string, string>)
    requires r.Valid()
    ensures Told(r, a, Listing(r, a, SortSet(a.Keys)))
  {
    hide QualityAt, Request.Valid, SortSet, Listing, RealizedQuality, Le;
    var ids := SortSet(a.Keys);
    var listing := Listing(r, a, ids);
    assert forall id :: id in ids <==> id in a.Keys;
    ListingEntries(r, a, ids);
    SortSetSorted(a.Keys);
    ListingAt(r, a, ids);
    forall e, p, o | e in listing && p in r.participants && o in r.offerings && e.participantId == p.id && e.offeringId == o.id
      ensures e.quality == RealizedQuality(p, o, r.highRankMax)
    {
      QualityKnown(r, p, o);
    }
  }

  // ---- the stages ----

  /** What is optimised at stage `i`: the four quality levels in turn, then the prior placements kept. */
  ghost function StageObjective(r: Request, i: nat): Objective
    requires i <= 4
  {
    if i < 4 then Minimize(Level(r, i)) else Maximize(RetainedTerms(r, AllKeys(r, r.participants), r.priorPlacements))
  }

  /** The model asked at stage `i`: every earlier level is fixed at the total that its own optimal answer had. */
  ghost function StageModel(r: Request, solver: Solver, i: nat): Model
    requires i <= 4
    decreases i, 0
  {
    if i == 0 then BaseModel(r)
    else
      var model, answer := StageModel(r, solver, i - 1), StageAnswer(r, solver, i - 1);
      if answer.Optimal? then model.Add(Equals(Level(r, i - 1), Total(Level(r, i - 1), answer.on))) else model
  }

  ghost function StageAnswer(r: Request, solver: Solver, i: nat): Answer
    requires i <= 4
    decreases i, 1
  {
    solver(i, StageModel(r, solver, i), StageObjective(r, i))
  }

  /** The stage whose answer is final, counting from `i`: the first that is not proved optimal, or the last one. */
  ghost function LastStage(r: Request, solver: Solver, i: nat): (level: nat)
    requires i <= 4
    ensures i <= level <= 4 && (level < 4 ==> !StageAnswer(r, solver, level).Optimal?)
    ensures forall j :: i <= j < level ==> StageAnswer(r, solver, j).Optimal?
    decreases 4 - i
  {
    if i < 4 && StageAnswer(r, solver, i).Optimal? then LastStage(r, solver, i + 1) else i
  }

  /** `level` is the number of leading optimal answers. */
  lemma LastStageIs(r: Request, solver: Solver, level: nat)
    requires level <= 4 && (level < 4 ==> !StageAnswer(r, solver, level).Optimal?)
    requires forall j :: 0 <= j < level ==> StageAnswer(r, solver, j).Optimal?
    ensures LastStage(r, solver, 0) == level
  {
    hide StageAnswer, LastStage;
    var last := LastStage(r, solver, 0);
  }

  lemma StageFrozen(r: Request, solver: Solver, i: nat, on: set<Key>)
    requires i < 4 && StageAnswer(r, solver, i) == Optimal(on)
    ensures StageModel(r, solver, i + 1) == StageModel(r, solver, i).Add(Equals(Level(r, i), Total(Level(r, i), on)))
  {
    hide StageAnswer, Level, Total, Model.Add;
  }

  ghost predicate Graded(r: Request, keys: seq<Key>, qualities: map<Key, Quality>) {
    forall k :: k in keys ==> k in qualities && qualities[k] == QualityAt(r, k)
  }

  /** One participant's variables, and the quality each would mean. */
  method VariablesOf(r: Request, p: Participant, known: map<Key, Quality>, ghost before: seq<Key>)
    returns (eligible: seq<Key>, qualities: map<Key, Quality>)
    requires r.Valid() && p in r.participants && Graded(r, before, known)
    ensures eligible == KeysOf(r, r.offerings, p)
    ensures Graded(r, before + eligible, qualities)
  {
    FoundParticipant(r, p);
    eligible, qualities := [], known;
    for j := 0 to |r.offerings|
      invariant eligible == KeysOf(r, r.offerings[..j], p)
      invariant Graded(r, before + eligible, qualities)
    {
      var o := r.offerings[j];
      assert r.offerings[..j + 1][..j] == r.offerings[..j];
      var gradeAllowed := o.minGrade <= p.grade <= o.maxGrade;
      var exclusionAllowed := (p.id, o.id) !in ExclusionPairs(r);
      if (!gradeAllowed && (p.id, o.id, GradeRule) !in ExceptionRules(r))
         || (!exclusionAllowed && (p.id, o.id, ExclusionRule) !in ExceptionRules(r)) {
        continue;
      }
      FoundOffering(r, o);
      qualities := qualities[(p.id, o.id) := RealizedQuality(p, o, r.highRankMax)];
      eligible := eligible + [(p.id, o.id)];
    }
    assert r.offerings[..|r.offerings|] == r.offerings;
  }

  /** Builds the decision variables and the hard constraints. Every pin has a variable, so the lookup is safe. */
  method BuildModel(r: Request) returns (model: Model, decisions: seq<Key>, qualities: map<Key, Quality>)
    requires r.Valid() && CleanPins(r)
    ensures model == BaseModel(r) && decisions == AllKeys(r, r.participants)
    ensures Graded(r, decisions, qualities)
  {
    hide KeysOf, AtOffering, Graded, PinCount, Decision, Eligible;
    DecisionKeys(r);
    decisions, qualities := [], map[];
    var exactly := [];
    assert Graded(r, [], map[]) by {
      NothingGraded(r);
    }
    for i := 0 to |r.participants|
      invariant decisions == AllKeys(r, r.participants[..i]) && exactly == ExactlyOnes(r, r.participants[..i])
      invariant Graded(r, decisions, qualities)
    {
      assert r.participants[..i + 1][..i] == r.participants[..i];
      var eligible;
      eligible, qualities := VariablesOf(r, r.participants[i], qualities, decisions);
      decisions := decisions + eligible;
      exactly := exactly + [ExactlyOne(eligible)];
    }
    assert r.participants[..|r.participants|] == r.participants;
    var bounds := [];
    for j := 0 to |r.offerings|
      invariant bounds == Bounds(r, decisions, r.offerings[..j])
    {
      var o := r.offerings[j];
      assert r.offerings[..j + 1][..j] == r.offerings[..j];
      bounds := bounds + [AtMost(AtOffering(decisions, o.id), Max(o.capacity, PinCount(r.pins, o.id)))];
    }
    assert r.offerings[..|r.offerings|] == r.offerings;
    var fixes := [];
    for j := 0 to |r.pins|
      invariant fixes == PinFixes(r.pins[..j])
    {
      var pin := r.pins[j];
      assert r.pins[..j + 1][..j] == r.pins[..j];
      assert pin in r.pins && (pin.participantId, pin.offeringId) in decisions;
      fixes := fixes + [Equals([(pin.participantId, pin.offeringId)], 1)];
    }
    assert r.pins[..|r.pins|] == r.pins;
    model := Model(decisions, exactly + bounds + fixes);
  }

  lemma NothingGraded(r: Request)
    ensures Graded(r, [], map[])
  {
  }

  /** The variables of one quality level. */
  method LevelObjective(r: Request, decisions: seq<Key>, qualities: map<Key, Quality>, quality: Quality) returns (terms: seq<Key>)
    requires Graded(r, decisions, qualities)
    ensures terms == LevelTerms(r, decisions, quality)
  {
    terms := [];
    for i := 0 to |decisions|
      invariant terms == LevelTerms(r, decisions[..i], quality)
    {
      assert decisions[..i + 1][..i] == decisions[..i];
      assert decisions[i] in decisions;
      if qualities[decisions[i]] == quality {
        terms := terms + [decisions[i]];
      }
    }
    assert decisions[..|decisions|] == decisions;
  }

  /** Reads the placement off the solver's values, sorted by participant. */
  method ReadAssignments(r: Request, decisions: seq<Key>, qualities: map<Key, Quality>, on: set<Key>, ghost a: map<string, string>)
    returns (assignments: seq<Assignment>)
    requires Graded(r, decisions, qualities)
    requires on == Chosen(a) && forall k :: k in on ==> k in decisions
    ensures assignments == Listing(r, a, SortSet(a.Keys))
    ensures r.Valid() ==> Told(r, a, assignments)
  {
    hide QualityAt, SortSet, Listing, Told, Request.Valid;
    var placed: map<string, Assignment> := map[];
    for i := 0 to |decisions|
      invariant Placed(r, a, placed)
      invariant forall p :: p in a && (p, a[p]) in decisions[..i] ==> p in placed
    {
      var k := decisions[i];
      if k in on {
        placed := placed[k.0 := Assignment(k.0, k.1, qualities[k])];
      }
    }
    forall p | p in a
      ensures p in placed
    {
      assert (p, a[p]) in Chosen(a);
    }
    assert placed.Keys == a.Keys;
    assignments := InOrder(r, a, placed, SortSet(placed.Keys));
    if r.Valid() {
      ListingTells(r, a);
    }
  }

  ghost predicate Placed(r: Request, a: map<string, string>, placed: map<string, Assignment>) {
    forall p :: p in placed ==> p in a && placed[p] == Assignment(p, a[p], QualityAt(r, (p, a[p])))
  }

  method InOrder(r: Request, ghost a: map<string, string>, placed: map<string, Assignment>, ids: seq<string>) returns (assignments: seq<Assignment>)
    requires Placed(r, a, placed) && forall id :: id in ids ==> id in placed
    ensures (forall id :: id in ids ==> id in a) && assignments == Listing(r, a, ids)
  {
    hide QualityAt;
    assignments := [];
    for i := 0 to |ids|
      invariant forall id :: id in ids[..i] ==> id in a
      invariant assignments == Listing(r, a, ids[..i])
    {
      assert ids[i] in ids;
      assert ids[..i + 1][..i] == ids[..i];
      assignments := assignments + [placed[ids[i]]];
    }
    assert ids[..|ids|] == ids;
  }

  /** Minimises the levels in turn, freezing each at its optimum, until one is not proved optimal. */
  method OptimiseLevels(r: Request, base: Model, decisions: seq<Key>, qualities: map<Key, Quality>, solver: Solver)
    returns (answer: Answer, model: Model, ghost counts: seq<nat>)
    requires r.Valid() && HonestSolver(solver)
    requires base == BaseModel(r) && decisions == AllKeys(r, r.participants)
    requires Graded(r, decisions, qualities)
    ensures |counts| == LastStage(r, solver, 0) && model == StageModel(r, solver, |counts|)
    ensures if |counts| == 4 then answer.Optimal? else answer == StageAnswer(r, solver, |counts|)
    ensures Frozen(r, model, counts) && LowerBound(r, counts)
    ensures |counts| < 4 ==> Honest(model, Minimize(Level(r, |counts|)), answer)
    ensures counts != [] ==> exists on :: Satisfies(model, on)
  {
    model, counts, answer := base, [], Unknown;
    NothingFrozen(r);
    hide Frozen, LowerBound, BaseModel, AllKeys, QualityAt, Honest, Satisfies, LevelTerms, Total, LastStage;
    var i := 0;
    ghost var last: set<Key> := {};
    while i < 4
      invariant 0 <= i <= 4 && |counts| == i && (i == 4 ==> answer.Optimal?)
      invariant model == StageModel(r, solver, i) && forall j :: 0 <= j < i ==> StageAnswer(r, solver, j).Optimal?
      invariant Frozen(r, model, counts) && LowerBound(r, counts)
      invariant i > 0 ==> Satisfies(model, last)
    {
      var objective := LevelObjective(r, decisions, qualities, QUALITY_LEVELS[i]);
      answer := solver(i, model, Minimize(objective));
      assert Honest(model, Minimize(objective), answer);
      assert answer == StageAnswer(r, solver, i);
      if !answer.Optimal? {
        break;
      }
      StageFrozen(r, solver, i, answer.on);
      FreezeLevel(r, model, counts, answer.on);
      StillSolved(model, objective, answer.on);
      last := answer.on;
      counts := counts + [Total(objective, answer.on)];
      model := model.Add(Equals(objective, Total(objective, answer.on)));
      i := i + 1;
    }
    LastStageIs(r, solver, i);
  }

  lemma StillSolved(model: Model, terms: seq<Key>, on: set<Key>)
    requires Honest(model, Minimize(terms), Optimal(on))
    ensures Satisfies(model.Add(Equals(terms, Total(terms, on))), on)
  {
    AddMeaning(model, Equals(terms, Total(terms, on)), on);
  }

  /** If the levels end in a denial, it was the first level's, and there is no placement at all. */
  lemma DenialIsFinal(r: Request, model: Model, counts: seq<nat>)
    requires r.Valid() && |counts| < 4 && Frozen(r, model, counts)
    requires Honest(model, Minimize(Level(r, |counts|)), NoSolution)
    requires counts != [] ==> exists on :: Satisfies(model, on)
    ensures !exists b :: Feasible(r, b)
  {
    if counts == [] {
      UnfrozenComplete(r, model);
    }
  }

  lemma UnfrozenComplete(r: Request, model: Model)
    requires Frozen(r, model, [])
    ensures forall b :: Feasible(r, b) ==> Satisfies(model, Chosen(b))
  {
    hide Satisfies, Feasible, QualityVector;
    forall b | Feasible(r, b)
      ensures Satisfies(model, Chosen(b))
    {
      assert QualityVector(r, b)[..0] == [];
    }
  }

  lemma SolutionKeys(r: Request, a: map<string, string>, n: nat)
    requires r.Valid() && n <= 4 && (OptimalThrough(r, a, n) || Best(r, a))
    ensures forall k :: k in Chosen(a) ==> k in AllKeys(r, r.participants)
  {
    DecisionKeys(r);
  }

  /** What the response to a clean request promises: it reports the answer of the last stage asked, all earlier stages
    * having been answered optimally. `a` is the placement returned, if any. */
  ghost predicate Answers(r: Request, solver: Solver, response: SolveResponse, a: map<string, string>) {
    var level := LastStage(r, solver, 0);
    var answer := StageAnswer(r, solver, level);
    match answer
    // All five stages are optimal: a placement of best quality that keeps the most prior placements.
    case Optimal(on) => response.status == OptimalStatus && Best(r, a) && Chosen(a) == on && Reports(r, response, a)
    // Cut short, the solve still answers with a placement that is best on every level finished.
    case FeasibleOnly(on) => response.status == FeasibleStatus && OptimalThrough(r, a, level) && Chosen(a) == on && Reports(r, response, a)
    // A denial is right, and explained.
    case NoSolution => response.status == InfeasibleStatus && (!exists b :: Feasible(r, b))
                       && response.assignments == [] && response.diagnostics != [] && Explained(r, response.diagnostics)
    case Unknown => response.status == UnknownStatus && response.assignments == [] && response.diagnostics == []
    case InvalidModel => response.status == ModelInvalidStatus && response.assignments == [] && response.diagnostics == []
  }

  ghost predicate Reports(r: Request, response: SolveResponse, a: map<string, string>) {
    response.assignments == Listing(r, a, SortSet(a.Keys)) && Told(r, a, response.assignments) && response.diagnostics == []
  }

  /** What the last answer of an honest solver means for the request. */
  ghost predicate Outcome(r: Request, answer: Answer, a: map<string, string>, level: nat)
    requires level <= 4
  {
    match answer
    case Optimal(on) => Best(r, a) && Chosen(a) == on
    case FeasibleOnly(on) => OptimalThrough(r, a, level) && Chosen(a) == on
    case NoSolution => !exists b :: Feasible(r, b)
    case Unknown => true
    case InvalidModel => true
  }

  /** The last stage: among the placements of best quality, keep as many prior placements as can be kept. It cannot
    * be denied, because the last level's solution is still there. */
  method KeepPlacements(r: Request, model: Model, decisions: seq<Key>, solver: Solver, ghost counts: seq<nat>)
    returns (answer: Answer, ghost a: map<string, string>)
    requires r.Valid() && HonestSolver(solver) && decisions == AllKeys(r, r.participants)
    requires model == StageModel(r, solver, 4)
    requires |counts| == 4 && Frozen(r, model, counts) && LowerBound(r, counts)
    requires exists on :: Satisfies(model, on)
    ensures answer == StageAnswer(r, solver, 4)
    ensures !answer.NoSolution? && Outcome(r, answer, a, 4)
  {
    hide Frozen, LowerBound, AllKeys, Satisfies, RetainedTerms, Best, OptimalThrough, Chosen, StageModel;
    a := map[];
    var retained := RetainedTerms(r, decisions, r.priorPlacements);
    answer := solver(4, model, Maximize(retained));
    assert Honest(model, Maximize(retained), answer);
    if answer.Optimal? {
      a := FrozenBest(r, model, counts, answer.on);
    } else if answer.FeasibleOnly? {
      a := FrozenOptimal(r, model, counts, answer.on);
    }
  }

  lemma LevelOutcome(r: Request, model: Model, counts: seq<nat>, answer: Answer) returns (a: map<string, string>)
    requires r.Valid() && |counts| < 4 && Frozen(r, model, counts) && LowerBound(r, counts)
    requires !answer.Optimal? && Honest(model, Minimize(Level(r, |counts|)), answer)
    requires counts != [] ==> exists on :: Satisfies(model, on)
    ensures Outcome(r, answer, a, |counts|)
  {
    a := map[];
    if answer.FeasibleOnly? {
      a := FrozenOptimal(r, model, counts, answer.on);
    } else if answer.NoSolution? {
      DenialIsFinal(r, model, counts);
    }
  }

  /** The explanation of an infeasible solve is never bare. */
  method Denial(r: Request) returns (diagnostics: seq<Diagnostic>)
    requires r.Valid() && CleanPins(r) && !exists b :: Feasible(r, b)
    ensures diagnostics != [] && Explained(r, diagnostics)
  {
    hide Explained, Feasible;
    var found, _, _ := InfeasibilityDiagnostics(r);
    diagnostics := found;
  }

  /** Builds, optimises and answers. */
  method SolveClean(r: Request, solver: Solver) returns (response: SolveResponse, ghost a: map<string, string>)
    requires r.Valid() && HonestSolver(solver) && CleanPins(r)
    ensures response.seed == r.seed && Answers(r, solver, response, a)
  {
    hide Frozen, LowerBound, BaseModel, AllKeys, QualityAt, Honest, Satisfies, Feasible, SortSet, Listing, Best, OptimalThrough,
         CleanPins, Level, Chosen, Graded, HonestSolver, Request.Valid, StageModel, StageAnswer, LastStage, Explained, Told;
    var base, decisions, qualities := BuildModel(r);
    var answer, model, counts := OptimiseLevels(r, base, decisions, qualities, solver);
    ghost var level := |counts|;
    if answer.Optimal? {
      answer, a := KeepPlacements(r, model, decisions, solver, counts);
    } else {
      a := LevelOutcome(r, model, counts, answer);
    }
    assert answer == StageAnswer(r, solver, level) && Outcome(r, answer, a, level);
    if answer.Optimal? || answer.FeasibleOnly? {
      SolutionKeys(r, a, level);
      var assignments := ReadAssignments(r, decisions, qualities, answer.on, a);
      response := SolveResponse(r.seed, if answer.Optimal? then OptimalStatus else FeasibleStatus, assignments, []);
    } else if answer.NoSolution? {
      var diagnostics := Denial(r);
      response := SolveResponse(r.seed, InfeasibleStatus, [], diagnostics);
    } else if answer.InvalidModel? {
      response := SolveResponse(r.seed, ModelInvalidStatus, [], []);
    } else {
      response := SolveResponse(r.seed, UnknownStatus, [], []);
    }
  }

  /** The whole solve against any honest solver. */
  method SolveRequest(r: Request, solver: Solver) returns (response: SolveResponse, ghost a: map<string, string>)
    requires r.Valid() && HonestSolver(solver)
    ensures response.seed == r.seed
    ensures Clean(r) ==> Answers(r, solver, response, a)
    ensures !Clean(r) ==> response.status == InfeasibleStatus && response.assignments == [] && response.diagnostics != []
    ensures !Clean(r) ==> forall d :: d in response.diagnostics <==> Stale(r, d)
    ensures !Clean(r) ==> forall d :: d in response.diagnostics <==> Reported(r, d)
  {
    hide Stale, Reported, Request.Valid, HonestSolver, Answers, CleanExclusions, CleanExceptions, CleanPins, CleanOverflow;
    forall d {
      StaleIsReported(r, d);
    }
    var diagnostics := ConstraintDiagnostics(r);
    if diagnostics != [] {
      return SolveResponse(r.seed, InfeasibleStatus, [], diagnostics), map[];
    }
    response, a := SolveClean(r, solver);
  }
}
