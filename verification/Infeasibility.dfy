/** The report for a request that no placement satisfies. */
module Infeasibility {
  import opened Contract
  import opened Counting
  import opened Ordering
  import opened Placing
  import opened Diagnostics
  import opened Constraints
  import opened Matching
  import opened SeatCounting
  import opened Shortage
  import opened Explanation

  /** What is reported about an unpinned participant who may sit nowhere. */
  ghost predicate Obstacle(r: Request, p: Participant, d: Diagnostic) {
    && p.id !in PinnedParticipants(r)
    && (forall o :: o in r.offerings ==> !Eligible(r, p, o))
    && (|| (d == Diagnostic(GradeEligibilityObstacle, OfferingObstacle, {p.id},
                            set o | o in r.offerings && !(o.minGrade <= p.grade <= o.maxGrade) :: o.id, None, None) && d.offeringIds != {})
        || (d == Diagnostic(ExclusionObstacle, OfferingObstacle, {p.id},
                            set o | o in r.offerings && Placement(p.id, o.id) in r.exclusions :: o.id, None, None) && d.offeringIds != {})
        || d == Diagnostic(NoEligibleOffering, OfferingObstacle, {p.id}, set o | o in r.offerings :: o.id, None, None))
  }

  function OutOfGrade(r: Request, p: Participant): set<string> {
    set o | o in r.offerings && !GradeAllowed(p, o) :: o.id
  }

  function ExcludedFrom(r: Request, p: Participant): set<string> {
    set o | o in r.offerings && (p.id, o.id) in ExclusionPairs(r) :: o.id
  }

  /** The free seats of `offerings`. */
  ghost function SeatsIn(g: Graph, offerings: set<string>): set<Slot> {
    set s | s in g.AllSlots() && s.0 in offerings
  }

  /** A capacity conflict names an irreducible infeasible group: its people cannot all be placed in the offerings
    * named, which are all they could use, and any fewer of them can. It is short by exactly one seat. */
  ghost predicate CapacityConflict(g: Graph, d: Diagnostic) {
    && d.code == CapacityShortage && d.scope == GlobalConflict
    && d.participantIds <= g.eligible.Keys
    && !Placeable(g, d.participantIds)
    && (forall part :: part < d.participantIds ==> Placeable(g, part))
    && (forall p, s :: p in d.participantIds && g.Usable(p, s) ==> s.0 in d.offeringIds)
    && (forall o :: o in d.offeringIds ==> exists p, s :: p in d.participantIds && g.Usable(p, s) && s.0 == o)
    && d.requiredCapacity == Some(|d.participantIds|)
    && d.availableCapacity == Some(|d.participantIds| - 1)
    && |d.participantIds| - 1 == |SeatsIn(g, d.offeringIds)|
  }

  function ShortageDiagnostic(group: set<string>, seats: set<Slot>): Diagnostic {
    Diagnostic(CapacityShortage, GlobalConflict, group, set s | s in seats :: s.0, Some(|group|), Some(|seats|))
  }

  lemma DeficientNotPlaceable(g: Graph, group: set<string>, seats: set<Slot>)
    requires g.Valid() && Deficient(g, group, seats)
    ensures !Placeable(g, group)
  {
    PlaceableSeating(g, group);
    if m :| g.Seating(m) && m.Keys == group {
      forall p | p in group
        ensures m[p] in seats
      {
        assert g.Usable(p, m[p]);
      }
      InjectionBound(m, group, seats);
    }
  }

  lemma ShortfallConflict(g: Graph, start: string, group: set<string>, seats: set<Slot>, seat: map<string, Slot>)
    requires g.Valid() && Shortfall(g, start, group, seats, seat)
    ensures CapacityConflict(g, ShortageDiagnostic(group, seats))
  {
    DeficientNotPlaceable(g, group, seats);
    ShortfallSeats(g, start, group, seats, seat);
    ShortfallOfferings(g, start, group, seats, seat);
    forall part | part < group
      ensures Placeable(g, part)
    {
      assert group - part != {};
      var p :| p in group - part;
      PlaceableSeating(g, group - {p});
      PlaceableSubset(g, group - {p}, part);
    }
    hide Placeable, SeatsIn, Graph.Usable, Injective, Graph.Confined;
  }

  lemma ShortfallOfferings(g: Graph, start: string, group: set<string>, seats: set<Slot>, seat: map<string, Slot>)
    requires g.Valid() && Shortfall(g, start, group, seats, seat)
    ensures forall p, s :: p in group && g.Usable(p, s) ==> s.0 in ShortageDiagnostic(group, seats).offeringIds
    ensures forall o :: o in ShortageDiagnostic(group, seats).offeringIds ==> exists p, s :: p in group && g.Usable(p, s) && s.0 == o
  {
    forall o | o in ShortageDiagnostic(group, seats).offeringIds
      ensures exists p, s :: p in group && g.Usable(p, s) && s.0 == o
    {
      var s :| s in seats && s.0 == o;
      var p :| p in group && g.Usable(p, s);
    }
  }

  /** A shortfall takes offerings whole: its seats are all the free seats of the offerings involved. */
  lemma ShortfallSeats(g: Graph, start: string, group: set<string>, seats: set<Slot>, seat: map<string, Slot>)
    requires g.Valid() && Shortfall(g, start, group, seats, seat)
    ensures seats == SeatsIn(g, set s | s in seats :: s.0)
  {
    var involved := set s | s in seats :: s.0;
    forall s | s in SeatsIn(g, involved)
      ensures s in seats
    {
      var t :| t in seats && t.0 == s.0;
      var p :| p in group && g.Usable(p, t);
      assert g.Usable(p, s);
    }
    forall s | s in seats
      ensures s in g.AllSlots()
    {
      var p :| p in group && g.Usable(p, s);
    }
  }

  /** One participant's turn in the eligibility loop. */
  method EligibilityOf(r: Request, p: Participant) returns (eligibleOfferings: seq<string>, obstacles: seq<Diagnostic>)
    requires p.id !in PinnedParticipants(r)
    ensures eligibleOfferings == EligibleOfferings(r, r.offerings, p)
    ensures forall d :: d in obstacles <==> Obstacle(r, p, d)
  {
    eligibleOfferings := [];
    var gradeObstacles, exclusionObstacles := {}, {};
    for i := 0 to |r.offerings|
      invariant eligibleOfferings == EligibleOfferings(r, r.offerings[..i], p)
      invariant gradeObstacles == set o | o in r.offerings[..i] && !GradeAllowed(p, o) :: o.id
      invariant exclusionObstacles == set o | o in r.offerings[..i] && (p.id, o.id) in ExclusionPairs(r) :: o.id
    {
      var offering := r.offerings[i];
      assert r.offerings[..i + 1] == r.offerings[..i] + [offering];
      assert r.offerings[..i + 1][..i] == r.offerings[..i];
      var gradeAllowed := offering.minGrade <= p.grade <= offering.maxGrade;
      var excluded := (p.id, offering.id) in ExclusionPairs(r);
      if !gradeAllowed {
        gradeObstacles := gradeObstacles + {offering.id};
      }
      if excluded {
        exclusionObstacles := exclusionObstacles + {offering.id};
      }
      if (!gradeAllowed && (p.id, offering.id, GradeRule) !in ExceptionRules(r))
         || (excluded && (p.id, offering.id, ExclusionRule) !in ExceptionRules(r)) {
        continue;
      }
      eligibleOfferings := eligibleOfferings + [offering.id];
    }
    assert r.offerings[..|r.offerings|] == r.offerings;
    obstacles := ObstaclesOf(r, p, eligibleOfferings, gradeObstacles, exclusionObstacles);
  }

  lemma ObstacleSets(r: Request, p: Participant)
    ensures OutOfGrade(r, p) == set o | o in r.offerings && !(o.minGrade <= p.grade <= o.maxGrade) :: o.id
    ensures ExcludedFrom(r, p) == set o | o in r.offerings && Placement(p.id, o.id) in r.exclusions :: o.id
    ensures OfferingIds(r) == set o | o in r.offerings :: o.id
  {
    forall o | o in r.offerings
      ensures (p.id, o.id) in ExclusionPairs(r) <==> Placement(p.id, o.id) in r.exclusions
    {
      ExclusionKnown(r, p.id, o.id);
    }
  }

  method ObstaclesOf(r: Request, p: Participant, eligibleOfferings: seq<string>, gradeObstacles: set<string>, exclusionObstacles: set<string>)
    returns (obstacles: seq<Diagnostic>)
    requires p.id !in PinnedParticipants(r) && eligibleOfferings == EligibleOfferings(r, r.offerings, p)
    requires gradeObstacles == OutOfGrade(r, p) && exclusionObstacles == ExcludedFrom(r, p)
    ensures forall d :: d in obstacles <==> Obstacle(r, p, d)
  {
    ObstacleSets(r, p);
    hide Eligible, OutOfGrade, ExcludedFrom, EligibleOfferings, OfferingIds;
    EligibleOfferingsMeaning(r, r.offerings, p);
    obstacles := [];
    if eligibleOfferings == [] {
      if gradeObstacles != {} {
        obstacles := obstacles + [Diagnostic(GradeEligibilityObstacle, OfferingObstacle, {p.id}, gradeObstacles, None, None)];
      }
      if exclusionObstacles != {} {
        obstacles := obstacles + [Diagnostic(ExclusionObstacle, OfferingObstacle, {p.id}, exclusionObstacles, None, None)];
      }
      obstacles := obstacles + [Diagnostic(NoEligibleOffering, OfferingObstacle, {p.id}, OfferingIds(r), None, None)];
      assert forall o :: o in r.offerings && Eligible(r, p, o) ==> o.id in eligibleOfferings;
    } else {
      assert eligibleOfferings[0] in eligibleOfferings;
    }
  }

  lemma PinnedNoObstacle(r: Request, p: Participant)
    requires p.id in PinnedParticipants(r)
    ensures forall d :: !Obstacle(r, p, d)
  {
  }

  method FreeSeats(r: Request) returns (g: Graph, obstacles: seq<Diagnostic>)
    ensures g == FreeGraph(r)
    ensures forall d :: d in obstacles <==> exists p :: p in r.participants && Obstacle(r, p, d)
  {
    hide Obstacle, PinCount, EligibleOfferings;
    var remaining: map<string, nat> := map[];
    for i := 0 to |r.offerings|
      invariant remaining == RemainingSeats(r, r.offerings[..i])
    {
      assert r.offerings[..i + 1][..i] == r.offerings[..i];
      var o := r.offerings[i];
      remaining := remaining[o.id := Max(0, o.capacity - PinCount(r.pins, o.id))];
    }
    var eligible: map<string, seq<string>> := map[];
    obstacles := [];
    for i := 0 to |r.participants|
      invariant eligible == FreeEligible(r, r.participants[..i])
      invariant forall d :: d in obstacles <==> exists k :: 0 <= k < i && Obstacle(r, r.participants[k], d)
    {
      assert r.participants[..i + 1][..i] == r.participants[..i];
      var p := r.participants[i];
      if p.id in PinnedParticipants(r) {
        PinnedNoObstacle(r, p);
        continue;
      }
      var eligibleOfferings, found := EligibilityOf(r, p);
      obstacles := obstacles + found;
      if eligibleOfferings == [] {
        continue;
      }
      eligible := eligible[p.id := eligibleOfferings];
    }
    assert r.offerings[..|r.offerings|] == r.offerings && r.participants[..|r.participants|] == r.participants;
    g := Graph(eligible, remaining);
  }

  /** Nobody is ever left out twice: the report's capacity conflicts count exactly the people whom every placement
    * of the free participants must leave out, at least. */
  ghost predicate FewestLeftOut(g: Graph, count: nat) {
    && count <= |g.eligible|
    && (exists f :: Fits(g, f) && |f| == |g.eligible| - count)
    && (forall f :: Fits(g, f) ==> |f| <= |g.eligible| - count)
  }

  lemma MaximumLeavesFewest(g: Graph, seat: map<string, Slot>, unmatched: set<string>)
    requires g.Valid() && g.Seating(seat) && forall other :: g.Seating(other) ==> |other| <= |seat|
    requires unmatched == g.eligible.Keys - seat.Keys
    ensures FewestLeftOut(g, |unmatched|)
  {
    hide Graph.Seating, Graph.Valid, Fits, Offerings;
    SeatedEligible(g, seat);
    SeatsFit(g, seat);
    AsLargeAsFits(g, seat);
    SizesAddUp(g.eligible, seat, Offerings(seat), unmatched);
  }

  lemma SizesAddUp<U, V, W>(eligible: map<string, U>, seat: map<string, V>, f: map<string, W>, unmatched: set<string>)
    requires seat.Keys <= eligible.Keys && unmatched == eligible.Keys - seat.Keys && f.Keys == seat.Keys
    ensures |eligible| == |seat| + |unmatched| && |f| == |seat|
  {
    KeysSize(eligible);
    KeysSize(seat);
    KeysSize(f);
    UnionSize(seat.Keys, unmatched);
    assert eligible.Keys == seat.Keys + unmatched;
  }

  lemma SeatedEligible(g: Graph, seat: map<string, Slot>)
    requires g.Seating(seat)
    ensures seat.Keys <= g.eligible.Keys
  {
    forall p | p in seat
      ensures p in g.eligible
    {
      assert g.Usable(p, seat[p]);
    }
  }

  lemma AsLargeAsFits(g: Graph, seat: map<string, Slot>)
    requires g.Valid() && forall other :: g.Seating(other) ==> |other| <= |seat|
    ensures forall f :: Fits(g, f) ==> |f| <= |seat|
  {
    hide Graph.Seating, Graph.Valid, Fits;
    forall f | Fits(g, f)
      ensures |f| <= |seat|
    {
      var m := FitSeats(g, f);
      assert m.Keys == Offerings(m).Keys;
      assert |m| == |m.Keys| && |f| == |f.Keys|;
    }
  }

  /** `d` is the capacity conflict found from the unseated `start`, who is the only unseated person in it. */
  ghost predicate ConflictOf(g: Graph, seat: map<string, Slot>, start: string, d: Diagnostic) {
    && CapacityConflict(g, d)
    && start in d.participantIds && forall p :: p in d.participantIds && p != start ==> p in seat
  }

  ghost predicate ConflictsOf(g: Graph, seat: map<string, Slot>, starts: seq<string>, conflicts: seq<Diagnostic>) {
    && |conflicts| <= |starts|
    && forall k :: 0 <= k < |conflicts| ==> ConflictOf(g, seat, starts[k], conflicts[k])
  }

  /** Conflicts found from different people name different groups. */
  lemma ConflictsDiffer(g: Graph, seat: map<string, Slot>, starts: seq<string>, conflicts: seq<Diagnostic>, group: set<string>, next: nat)
    requires Distinct(starts) && forall p :: p in starts ==> p !in seat
    requires ConflictsOf(g, seat, starts, conflicts)
    requires |conflicts| <= next < |starts| && starts[next] in group
    ensures forall k :: 0 <= k < |conflicts| ==> conflicts[k].participantIds != group
  {
    hide CapacityConflict;
    forall k | 0 <= k < |conflicts|
      ensures starts[next] !in conflicts[k].participantIds
    {
      assert ConflictOf(g, seat, starts[k], conflicts[k]);
      assert starts[next] in starts;
    }
  }

  lemma ConflictsExtend(g: Graph, seat: map<string, Slot>, starts: seq<string>, conflicts: seq<Diagnostic>,
                        group: set<string>, seats: set<Slot>)
    requires Distinct(starts) && forall p :: p in starts ==> p !in seat
    requires ConflictsOf(g, seat, starts, conflicts) && |conflicts| < |starts| && Distinct(conflicts)
    requires g.Valid() && Shortfall(g, starts[|conflicts|], group, seats, seat)
    ensures forall k :: 0 <= k < |conflicts| ==> conflicts[k].participantIds != group
    ensures ConflictsOf(g, seat, starts, conflicts + [ShortageDiagnostic(group, seats)])
    ensures Distinct(conflicts + [ShortageDiagnostic(group, seats)])
  {
    ShortfallConflict(g, starts[|conflicts|], group, seats, seat);
    ConflictsDiffer(g, seat, starts, conflicts, group, |conflicts|);
    hide CapacityConflict;
  }

  /** One capacity conflict for each person left unseated, in order. The guard against reporting a group twice
    * never fires. */
  method ConflictsFrom(g: Graph, seat: map<string, Slot>, slotOwner: map<Slot, string>, slotsByOffering: map<string, seq<Slot>>,
                       unmatched: seq<string>, ghost dead: set<Slot>)
    returns (conflicts: seq<Diagnostic>)
    requires g.Valid() && slotsByOffering == SlotTable(g.remaining)
    requires Certificate(g, seat, slotOwner, dead)
    requires Distinct(unmatched) && forall p :: p in unmatched ==> p in g.eligible && p !in seat
    ensures |conflicts| == |unmatched| && Distinct(conflicts)
    ensures ConflictsOf(g, seat, unmatched, conflicts)
  {
    conflicts := [];
    NoConflicts(g, seat, unmatched);
    var seenConflicts: set<(set<string>, set<string>)> := {};
    hide Distinct, ConflictsOf, Shortfall, Certificate, SlotTable, Graph.Valid;
    for i := 0 to |unmatched|
      invariant |conflicts| == i && ConflictsOf(g, seat, unmatched, conflicts) && Distinct(conflicts)
      invariant forall signature :: signature in seenConflicts ==> exists k :: 0 <= k < i && signature.0 == conflicts[k].participantIds
    {
      assert unmatched[i] in unmatched;
      var group, seats := ShortageFrom(g, unmatched[i], seat, slotOwner, slotsByOffering, dead);
      ConflictsExtend(g, seat, unmatched, conflicts, group, seats);
      var signature := (group, set s | s in seats :: s.0);
      if signature in seenConflicts {
        continue;
      }
      ghost var before := conflicts;
      seenConflicts := seenConflicts + {signature};
      conflicts := conflicts + [ShortageDiagnostic(group, seats)];
      assert forall k :: 0 <= k < i ==> conflicts[k] == before[k];
      assert conflicts[i].participantIds == signature.0;
    }
  }

  /** The first `n` diagnostics are exactly the obstacles. The others are distinct capacity conflicts, as many as the
    * eligible people whom any assignment to the remaining seats must leave out. */
  ghost predicate ExplainedAt(r: Request, diagnostics: seq<Diagnostic>, n: nat) {
    && n <= |diagnostics|
    && (forall d :: d in diagnostics[..n] <==> exists p :: p in r.participants && Obstacle(r, p, d))
    && (forall d :: d in diagnostics[n..] ==> CapacityConflict(FreeGraph(r), d))
    && Distinct(diagnostics[n..]) && FewestLeftOut(FreeGraph(r), |diagnostics| - n)
  }

  ghost predicate Explained(r: Request, diagnostics: seq<Diagnostic>) {
    exists n :: ExplainedAt(r, diagnostics, n)
  }

  lemma AllExplained(r: Request, obstacles: seq<Diagnostic>, conflicts: seq<Diagnostic>)
    requires forall d :: d in obstacles <==> exists p :: p in r.participants && Obstacle(r, p, d)
    requires forall d :: d in conflicts ==> CapacityConflict(FreeGraph(r), d)
    requires Distinct(conflicts) && FewestLeftOut(FreeGraph(r), |conflicts|)
    ensures Explained(r, obstacles + conflicts)
  {
    hide FreeGraph, FewestLeftOut, CapacityConflict, Obstacle, Distinct;
    var diagnostics := obstacles + conflicts;
    assert diagnostics[..|obstacles|] == obstacles && diagnostics[|obstacles|..] == conflicts;
    assert ExplainedAt(r, diagnostics, |obstacles|);
  }

  /** Explains why `r` cannot be placed: the people who may sit nowhere, then one capacity conflict for each person
    * the maximum matching leaves out. */
  method InfeasibilityDiagnostics(r: Request) returns (diagnostics: seq<Diagnostic>, ghost obstacles: seq<Diagnostic>, ghost conflicts: seq<Diagnostic>)
    requires r.Valid()
    ensures diagnostics == obstacles + conflicts
    ensures forall d :: d in obstacles <==> exists p :: p in r.participants && Obstacle(r, p, d)
    ensures forall d :: d in conflicts ==> CapacityConflict(FreeGraph(r), d)
    ensures Distinct(conflicts) && FewestLeftOut(FreeGraph(r), |conflicts|)
    ensures Explained(r, diagnostics)
    // The explanation and the placement rules agree: nothing to report means a placement exists, and conversely.
    ensures CleanPins(r) ==> (diagnostics == [] <==> exists a :: Feasible(r, a))
  {
    var g, found := FreeSeats(r);
    assert g.Valid() by {
      FreeGraphMeaning(r);
    }
    var seat, slotOwner, slotsByOffering, dead := MaximumCapacityMatching(g);
    var unmatchedIds := g.eligible.Keys - seat.Keys;
    var unmatched := SortSet(unmatchedIds);
    SortSetSorted(unmatchedIds);
    assert g.Seating(seat);
    MaximumLeavesFewest(g, seat, unmatchedIds);
    hide FreeGraph, FewestLeftOut, CapacityConflict, ConflictsOf, Certificate, Obstacle, Distinct, Explained, CleanPins,
         Graph.Seating, Graph.Valid, SortSet, SlotTable;
    var shortages := ConflictsFrom(g, seat, slotOwner, slotsByOffering, unmatched, dead);
    ConflictsFound(g, seat, unmatched, shortages);
    diagnostics, obstacles, conflicts := found + shortages, found, shortages;
    AllExplained(r, found, shortages);
    if CleanPins(r) {
      NothingToReport(r, found, |shortages|);
    }
  }

  /** Nobody is left out exactly when all the eligible fit together. */
  lemma NobodyLeftOut(g: Graph, count: nat)
    requires FewestLeftOut(g, count)
    ensures count == 0 <==> Placeable(g, g.eligible.Keys)
  {
    hide Fits;
    var f :| Fits(g, f) && |f| == |g.eligible| - count;
    FitsWithin(g, f);
    if count == 0 {
      SubsetSize(f.Keys, g.eligible.Keys);
    } else {
      forall f | Fits(g, f)
        ensures f.Keys != g.eligible.Keys
      {
        FitsWithin(g, f);
      }
    }
  }

  /** Without obstacles everyone unpinned may sit somewhere, and without conflicts they all fit together. */
  lemma NothingToReport(r: Request, obstacles: seq<Diagnostic>, shortages: nat)
    requires r.Valid() && CleanPins(r)
    requires forall d :: d in obstacles <==> exists p :: p in r.participants && Obstacle(r, p, d)
    requires FewestLeftOut(FreeGraph(r), shortages)
    ensures obstacles == [] && shortages == 0 <==> exists a :: Feasible(r, a)
  {
    hide FreeGraph, Obstacle, Feasible, FewestLeftOut, Placeable, CleanPins, Request.Valid, ParticipantIds, PinnedParticipants;
    FeasibleIff(r);
    NoObstacle(r, obstacles);
    NobodyLeftOut(FreeGraph(r), shortages);
  }

  lemma FitsWithin(g: Graph, f: map<string, string>)
    requires Fits(g, f)
    ensures f.Keys <= g.eligible.Keys && |f| == |f.Keys| && |g.eligible| == |g.eligible.Keys|
  {
  }

  lemma NoObstacle(r: Request, obstacles: seq<Diagnostic>)
    requires r.Valid()
    requires forall d :: d in obstacles <==> exists p :: p in r.participants && Obstacle(r, p, d)
    ensures obstacles == [] <==> FreeGraph(r).eligible.Keys == ParticipantIds(r) - PinnedParticipants(r)
  {
    hide FreeGraph, Eligible, GradeAllowed, Decision;
    FreeGraphMeaning(r);
    if obstacles != [] {
      assert obstacles[0] in obstacles;
      var p :| p in r.participants && Obstacle(r, p, obstacles[0]);
      SitsNowhere(r, p);
    }
    if id :| id in ParticipantIds(r) - PinnedParticipants(r) && id !in FreeGraph(r).eligible {
      var p :| p in r.participants && p.id == id;
      SitsNowhere(r, p);
      var d := Diagnostic(NoEligibleOffering, OfferingObstacle, {p.id}, OfferingIds(r), None, None);
      assert Obstacle(r, p, d);
      assert d in obstacles;
    }
  }

  lemma SitsNowhere(r: Request, p: Participant)
    requires r.Valid() && p in r.participants && p.id !in PinnedParticipants(r)
    ensures p.id !in FreeGraph(r).eligible <==> forall o :: o in r.offerings ==> !Eligible(r, p, o)
  {
    var i :| 0 <= i < |r.participants| && r.participants[i] == p;
    FreeEligibleAt(r, r.participants, i);
    EligibleOfferingsMeaning(r, r.offerings, p);
    var os := EligibleOfferings(r, r.offerings, p);
    hide Eligible;
    if o :| o in r.offerings && Eligible(r, p, o) {
      assert o.id in os;
    }
    if os != [] {
      assert os[0] in os;
    }
  }

  lemma NoConflicts(g: Graph, seat: map<string, Slot>, starts: seq<string>)
    ensures ConflictsOf(g, seat, starts, []) && Distinct<Diagnostic>([])
  {
  }

  lemma ConflictsFound(g: Graph, seat: map<string, Slot>, starts: seq<string>, conflicts: seq<Diagnostic>)
    requires ConflictsOf(g, seat, starts, conflicts)
    ensures forall d :: d in conflicts ==> CapacityConflict(g, d)
  {
    hide CapacityConflict;
    forall d | d in conflicts
      ensures CapacityConflict(g, d)
    {
      var k :| 0 <= k < |conflicts| && conflicts[k] == d;
      assert ConflictOf(g, seat, starts[k], conflicts[k]);
    }
  }
}
