/** Sending a result back: all of it as prior placements, and any part of it as pins. */
module Resubmission {
  import opened Contract
  import opened Documents
  import opened Ordering
  import opened Sorting
  import opened Parsing
  import opened WireForm
  import opened Placing
  import opened Constraints
  import opened Report
  import opened Explanation
  import opened Infeasibility
  import opened CpModel
  import opened Solving
  import opened Solve
  import opened Reading
  import opened Serving
  import opened Guarantees
  import opened Pinning

  // ---- pins keep the best placement ----

  /** Placements that share the new pins gain or lose the same prior placements by them. */
  lemma {:induction false} RetainedShift(r: Request, extra: seq<Placement>, pins: seq<Placement>, prior: seq<Placement>, a: map<string, string>, b: map<string, string>)
    requires Together(r, extra, pins) && Honours(extra, a) && Honours(extra, b)
    ensures Retained(r, prior, a) + Retained(Repinned(r, pins), prior, b) == Retained(r, prior, b) + Retained(Repinned(r, pins), prior, a)
  {
    if prior != [] {
      RetainedShift(r, extra, pins, prior[..|prior| - 1], a, b);
      PinnedPeople(r, extra, pins);
      hide Together, PinnedParticipants;
    }
  }

  lemma PinnedPeople(r: Request, extra: seq<Placement>, pins: seq<Placement>)
    requires Together(r, extra, pins)
    ensures forall id :: id in PinnedParticipants(Repinned(r, pins)) <==> id in PinnedParticipants(r) || exists pin :: pin in extra && pin.participantId == id
  {
    PinsFound(r, extra, pins);
    hide Together;
  }

  /** A placement that is best stays best when parts of it are pinned. */
  lemma PinnedBest(r: Request, a: map<string, string>, extra: seq<Placement>, pins: seq<Placement>)
    requires r.Valid() && Clean(r) && Best(r, a) && PinsOf(r, a, extra) && Together(r, extra, pins)
    ensures Best(Repinned(r, pins), a)
  {
    hide OptimalThrough, Retained, Clean, PinsOf, Together, Honours, Request.Valid;
    ExtraHonoured(r, a, extra);
    PinningResults(r, a, extra, pins, a);
    forall b | OptimalThrough(Repinned(r, pins), b, 4)
      ensures Retained(Repinned(r, pins), r.priorPlacements, b) <= Retained(Repinned(r, pins), r.priorPlacements, a)
    {
      PinningResults(r, a, extra, pins, b);
      RetainedShift(r, extra, pins, r.priorPlacements, a, b);
    }
  }

  // ---- a result as placements ----

  lemma {:induction false} PriorAt(r: Request, a: map<string, string>, ids: seq<string>)
    requires forall id :: id in ids ==> id in a
    ensures |AsPrior(Listing(r, a, ids))| == |ids|
    ensures forall i :: 0 <= i < |ids| ==> AsPrior(Listing(r, a, ids))[i] == Placement(ids[i], a[ids[i]])
  {
    hide QualityAt;
    if ids != [] {
      var n := |ids| - 1;
      PriorAt(r, a, ids[..n]);
      ListingAt(r, a, ids[..n]);
      assert Listing(r, a, ids)[..n] == Listing(r, a, ids[..n]);
    }
  }

  /** The result as placements names everyone once, in order, with their own offering. */
  lemma PriorFacts(r: Request, a: map<string, string>)
    ensures var own := AsPrior(Listing(r, a, SortSet(a.Keys)));
            && (forall pin :: pin in own ==> pin.participantId in a && a[pin.participantId] == pin.offeringId)
            && PeopleOnce(own) && forall i, j :: 0 <= i < j < |own| ==> Le(own[i].participantId, own[j].participantId)
  {
    hide AsPrior, Listing, SortSet, Le;
    var ids := SortSet(a.Keys);
    assert forall id :: id in ids <==> id in a.Keys;
    SortSetSorted(a.Keys);
    PriorAt(r, a, ids);
    var own := AsPrior(Listing(r, a, ids));
    forall pin | pin in own
      ensures pin.participantId in a && a[pin.participantId] == pin.offeringId
    {
      var i :| 0 <= i < |own| && own[i] == pin;
      assert ids[i] in ids;
    }
  }

  lemma KeysInOrder(x: Placement, y: Placement)
    requires x.participantId != y.participantId && Le(x.participantId, y.participantId)
    ensures KeyLe(PlacementKey(x), PlacementKey(y))
  {
    hide Le;
  }

  /** That is how the parser would leave it. */
  lemma PriorIsGood(r: Request, a: map<string, string>)
    requires Canonical(r) && Feasible(r, a)
    ensures GoodPlacements(AsPrior(Listing(r, a, SortSet(a.Keys))))
  {
    hide Canonical, Feasible, AsPrior, Listing, SortSet, Le, KeyLe, PlacementKey;
    PriorFacts(r, a);
    var own := AsPrior(Listing(r, a, SortSet(a.Keys)));
    forall pin | pin in own
      ensures GoodPlacement(pin)
    {
      GoodNames(r, a, pin.participantId);
    }
    forall i, j | 0 <= i < j < |own|
      ensures KeyLe(PlacementKey(own[i]), PlacementKey(own[j]))
    {
      KeysInOrder(own[i], own[j]);
    }
  }

  lemma GoodNames(r: Request, a: map<string, string>, id: string)
    requires Canonical(r) && Feasible(r, a) && id in a
    ensures id != "" && a[id] != ""
  {
    assert Decision(r, (id, a[id]));
    var p, o :| p in r.participants && o in r.offerings && (id, a[id]) == (p.id, o.id) && Eligible(r, p, o);
    assert GoodParticipant(p, Keys(OfferingId, r.offerings)) && GoodOffering(o);
  }

  /** The chosen entries, of people not pinned yet. */
  function Picked(r: Request, own: seq<Placement>, chosen: set<string>): seq<Placement> {
    if own == [] then []
    else
      var last := own[|own| - 1];
      Picked(r, own[..|own| - 1], chosen) + (if last.participantId in chosen && last.participantId !in PinnedParticipants(r) then [last] else [])
  }

  lemma {:induction false} PickedMembers(r: Request, own: seq<Placement>, chosen: set<string>)
    ensures forall pin :: pin in Picked(r, own, chosen) <==> pin in own && pin.participantId in chosen && pin.participantId !in PinnedParticipants(r)
  {
    hide PinnedParticipants;
    if own != [] {
      var n := |own| - 1;
      PickedMembers(r, own[..n], chosen);
      assert own == own[..n] + [own[n]];
    }
  }

  lemma {:induction false} PickedOnce(r: Request, own: seq<Placement>, chosen: set<string>)
    requires PeopleOnce(own)
    ensures PeopleOnce(Picked(r, own, chosen))
  {
    hide PinnedParticipants;
    if own != [] {
      var n := |own| - 1;
      PickedOnce(r, own[..n], chosen);
      PickedMembers(r, own[..n], chosen);
      var rest := Picked(r, own[..n], chosen);
      forall i | 0 <= i < |rest|
        ensures rest[i].participantId != own[n].participantId
      {
        assert rest[i] in rest;
        var j :| 0 <= j < n && own[j] == rest[i];
      }
    }
  }

  lemma PickedArePins(r: Request, a: map<string, string>, chosen: set<string>)
    ensures PinsOf(r, a, Picked(r, AsPrior(Listing(r, a, SortSet(a.Keys))), chosen))
  {
    hide AsPrior, Listing, SortSet, PinnedParticipants, Picked, Le;
    PriorFacts(r, a);
    PickedMembers(r, AsPrior(Listing(r, a, SortSet(a.Keys))), chosen);
    PickedOnce(r, AsPrior(Listing(r, a, SortSet(a.Keys))), chosen);
  }

  // ---- the request that is sent back ----

  /** The canonical request with the chosen part of a result pinned and all of it as prior placements. */
  function SentBack(r: Request, own: seq<Placement>, chosen: set<string>, seed: int): Request {
    Resubmitted(Repinned(r, SortBy(PlacementKey, r.pins + Picked(r, own, chosen))), seed, own)
  }

  lemma PinsAreGood(r: Request, a: map<string, string>, extra: seq<Placement>)
    requires Canonical(r) && Feasible(r, a) && PinsOf(r, a, extra)
    ensures GoodPlacements(SortBy(PlacementKey, r.pins + extra)) && Together(r, extra, SortBy(PlacementKey, r.pins + extra))
  {
    SortByKeeps(PlacementKey, r.pins + extra);
    var pins := SortBy(PlacementKey, r.pins + extra);
    assert Together(r, extra, pins);
    PinsFound(r, extra, pins);
    assert GoodPlacements(r.pins);
    hide Canonical, Feasible, SortBy, PinnedParticipants, Together, PlacementKey, SortedBy;
    forall pin | pin in pins
      ensures GoodPlacement(pin)
    {
      if pin in extra {
        GoodNames(r, a, pin.participantId);
      }
    }
  }

  lemma SentBackCanonical(r: Request, a: map<string, string>, chosen: set<string>, seed: int)
    requires Canonical(r) && Feasible(r, a) && -SEED_BOUND <= seed < SEED_BOUND
    ensures Canonical(SentBack(r, AsPrior(Listing(r, a, SortSet(a.Keys))), chosen, seed))
  {
    PriorIsGood(r, a);
    PickedArePins(r, a, chosen);
    hide Feasible, AsPrior, Listing, SortSet, Picked, PinsOf, GoodOfferings, GoodParticipants, GoodPlacements, GoodExceptions, Keys, SortBy;
    PinsAreGood(r, a, Picked(r, AsPrior(Listing(r, a, SortSet(a.Keys))), chosen));
  }

  lemma SameClean(r: Request, seed: int, prior: seq<Placement>)
    requires Clean(r)
    ensures Clean(Resubmitted(r, seed, prior))
  {
    hide Clean, CleanExclusions, CleanExceptions, CleanPins, CleanOverflow;
    CleanParts(r);
    SameCleanLists(r, seed, prior);
    SameCleanOverflow(r, seed, prior);
    CleanParts(Resubmitted(r, seed, prior));
  }

  lemma SameCleanLists(r: Request, seed: int, prior: seq<Placement>)
    ensures CleanExclusions(r) ==> CleanExclusions(Resubmitted(r, seed, prior))
    ensures CleanExceptions(r) ==> CleanExceptions(Resubmitted(r, seed, prior))
    ensures CleanPins(r) ==> CleanPins(Resubmitted(r, seed, prior))
  {
    hide Decision;
    forall k
      ensures Decision(Resubmitted(r, seed, prior), k) <==> Decision(r, k)
    {
      SameDecision(r, seed, prior, k);
    }
  }

  lemma SameCleanOverflow(r: Request, seed: int, prior: seq<Placement>)
    requires CleanOverflow(r)
    ensures CleanOverflow(Resubmitted(r, seed, prior))
  {
    hide CapacityExceptions, PinCount;
    forall o | o in r.offerings
      ensures CapacityExceptions(Resubmitted(r, seed, prior), r.exceptions, o.id) == CapacityExceptions(r, r.exceptions, o.id)
    {
      SameGrants(Resubmitted(r, seed, prior), r, r.exceptions, o.id);
    }
  }

  lemma {:induction false} SameListing(r: Request, q: Request, a: map<string, string>, ids: seq<string>)
    requires (forall id :: id in ids ==> id in a) && forall k :: QualityAt(q, k) == QualityAt(r, k)
    ensures Listing(q, a, ids) == Listing(r, a, ids)
  {
    hide QualityAt;
    if ids != [] {
      SameListing(r, q, a, ids[..|ids| - 1]);
    }
  }

  /** The request sent back is a clean canonical request, and the result is its one best placement. */
  lemma SentBackStands(r: Request, a: map<string, string>, chosen: set<string>, seed: int)
    requires Canonical(r) && r.Valid() && Clean(r) && Best(r, a) && -SEED_BOUND <= seed < SEED_BOUND
    ensures var sent := SentBack(r, AsPrior(Listing(r, a, SortSet(a.Keys))), chosen, seed);
            && Canonical(sent) && sent.seed == seed && Clean(sent) && Feasible(sent, a)
            && (forall b :: Best(sent, b) ==> b == a)
            && Listing(sent, a, SortSet(a.Keys)) == Listing(r, a, SortSet(a.Keys))
  {
    hide Canonical, Request.Valid, Clean, Best, Feasible, AsPrior, Listing, SortSet, Picked, PinsOf, Together, QualityAt, OptimalThrough;
    var own := AsPrior(Listing(r, a, SortSet(a.Keys)));
    var extra := Picked(r, own, chosen);
    BestPlaces(r, a);
    OptimalFeasible(r, a);
    SentBackCanonical(r, a, chosen, seed);
    PickedArePins(r, a, chosen);
    PinsAreGood(r, a, extra);
    var pins := SortBy(PlacementKey, r.pins + extra);
    hide SortBy;
    var pinned := Repinned(r, pins);
    PinnedBest(r, a, extra, pins);
    PinningResults(r, a, extra, pins, a);
    SameClean(pinned, seed, own);
    SameRules(pinned, seed, own, a);
    OptimalFeasible(pinned, a);
    forall k
      ensures QualityAt(pinned, k) == QualityAt(r, k) && QualityAt(Resubmitted(pinned, seed, own), k) == QualityAt(r, k)
    {
      SameDecision(pinned, seed, own, k);
      PinsKeepQuality(r, pins, k);
    }
    SameListing(r, pinned, a, SortSet(a.Keys));
    SameListing(r, Resubmitted(pinned, seed, own), a, SortSet(a.Keys));
    forall b | Best(Resubmitted(pinned, seed, own), b)
      ensures b == a
    {
      ResolveFixedPoint(pinned, seed, a, b);
    }
  }

  lemma PinsKeepQuality(r: Request, pins: seq<Placement>, k: Key)
    ensures QualityAt(Repinned(r, pins), k) == QualityAt(r, k)
  {
  }

  lemma OptimalFeasible(r: Request, a: map<string, string>)
    requires OptimalThrough(r, a, 4)
    ensures Feasible(r, a)
  {
  }

  /** What an answer says of the placement it found, or of a placement there is. */
  lemma AnswerFound(r: Request, solver: Solver, response: SolveResponse, a: map<string, string>)
    requires Answers(r, solver, response, a)
    ensures response.status == OptimalStatus ==> Best(r, a) && response.assignments == Listing(r, a, SortSet(a.Keys))
    ensures (exists b :: Feasible(r, b)) ==> response.status != InfeasibleStatus && response.diagnostics == []
  {
    hide Best, OptimalThrough, Feasible, Listing, SortSet, Explained, LastStage, StageAnswer, Chosen;
  }

  /** The request sent back differs from the first in its seed, its prior placements, which are the result, and its
    * pins, which the chosen part of the result joins. */
  ghost predicate SendsBack(r: Request, assignments: seq<Assignment>, chosen: set<string>, seed: int, sent: Request) {
    && sent == r.(seed := seed, pins := sent.pins, priorPlacements := sent.priorPlacements)
    && |sent.priorPlacements| == |assignments|
    && (forall i :: 0 <= i < |assignments| ==> sent.priorPlacements[i] == Placement(assignments[i].participantId, assignments[i].offeringId))
    && (forall pin :: pin in sent.pins <==>
         || pin in r.pins
         || (pin in sent.priorPlacements && pin.participantId in chosen && forall q :: q in r.pins ==> q.participantId != pin.participantId))
  }

  lemma {:induction false} AsPriorAt(assignments: seq<Assignment>)
    ensures |AsPrior(assignments)| == |assignments|
    ensures forall i :: 0 <= i < |assignments| ==> AsPrior(assignments)[i] == Placement(assignments[i].participantId, assignments[i].offeringId)
  {
    if assignments != [] {
      AsPriorAt(assignments[..|assignments| - 1]);
    }
  }

  lemma SentBackSends(r: Request, assignments: seq<Assignment>, chosen: set<string>, seed: int)
    ensures SendsBack(r, assignments, chosen, seed, SentBack(r, AsPrior(assignments), chosen, seed))
  {
    hide AsPrior, Picked, SortBy;
    AsPriorAt(assignments);
    var own := AsPrior(assignments);
    PickedMembers(r, own, chosen);
    var all := r.pins + Picked(r, own, chosen);
    SortByKeeps(PlacementKey, all);
    assert forall pin :: pin in SortBy(PlacementKey, all) <==> pin in multiset(SortBy(PlacementKey, all));
    assert forall pin :: pin in all <==> pin in multiset(all);
  }

  const EMPTY := Request(0, 1.0, 2, [], [], [], [], [], [])

  /** Solves a document and, if the answer is optimal, sends it back with any part of it pinned, all of it as prior
    * placements, and any seed. The answer stands: a second solve can fall short of optimal, but never contradicts it. */
  method SolveAgain(document: Json, chosen: set<string>, seed: int, solver: Solver, again: Solver)
    returns (first: Option<SolveResponse>, second: Option<SolveResponse>, ghost sent: Request, ghost b: map<string, string>)
    requires HonestSolver(solver) && HonestSolver(again) && -SEED_BOUND <= seed < SEED_BOUND
    ensures second.Some? <==> first.Some? && first.value.status == OptimalStatus
    ensures second.Some? ==> second.value.seed == seed && second.value.status != InfeasibleStatus && second.value.diagnostics == []
    ensures second.Some? ==> exists r :: Reads(document, r) && SendsBack(r, first.value.assignments, chosen, seed, sent)
    ensures second.Some? ==> Clean(sent) && Answers(sent, again, second.value, b)
    ensures second.Some? && second.value.status == OptimalStatus ==> second.value.assignments == first.value.assignments
  {
    hide Parsed, Canonical, Request.Valid, Clean, Best, Feasible, Answers, Listing, SortSet, AsPrior, SentBack, Render, Reported, Reads,
         SendsBack, HonestSolver;
    ghost var a;
    sent, b := EMPTY, map[];
    first, a := SolveDocument(document, solver);
    if first.None? || first.value.status != OptimalStatus {
      return first, None, sent, b;
    }
    var request := ParseRequest(document);
    var r := request.value;
    AnswerFound(r, solver, first.value, a);
    SentBackStands(r, a, chosen, seed);
    SentBackSends(r, first.value.assignments, chosen, seed);
    var resubmitted := SentBack(r, AsPrior(first.value.assignments), chosen, seed);
    RoundTrip(resubmitted);
    second, b := SolveDocument(Render(resubmitted), again);
    AnswerFound(resubmitted, again, second.value, b);
    sent := resubmitted;
  }
}
