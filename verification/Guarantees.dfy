/** What callers may rely on across solves, and what a clean request excludes. */
module Guarantees {
  import opened Contract
  import opened Counting
  import opened Ordering
  import opened Placing
  import opened Constraints
  import opened Explanation
  import opened Solving
  import opened Solve

  // ---- re-solving ----

  /** The request as it would be resubmitted with another seed and other prior placements. */
  function Resubmitted(r: Request, seed: int, prior: seq<Placement>): Request {
    r.(seed := seed, priorPlacements := prior)
  }

  /** A response's assignments, as prior placements of a later request. */
  function AsPrior(assignments: seq<Assignment>): seq<Placement> {
    if assignments == [] then []
    else
      var last := assignments[|assignments| - 1];
      AsPrior(assignments[..|assignments| - 1]) + [Placement(last.participantId, last.offeringId)]
  }

  lemma SameDecision(r: Request, seed: int, prior: seq<Placement>, k: Key)
    ensures Decision(Resubmitted(r, seed, prior), k) <==> Decision(r, k)
    ensures QualityAt(Resubmitted(r, seed, prior), k) == QualityAt(r, k)
  {
    assert forall p, o :: Eligible(Resubmitted(r, seed, prior), p, o) <==> Eligible(r, p, o);
    hide Eligible, RealizedQuality;
  }

  lemma SameRules(r: Request, seed: int, prior: seq<Placement>, a: map<string, string>)
    ensures Feasible(Resubmitted(r, seed, prior), a) <==> Feasible(r, a)
    ensures QualityVector(Resubmitted(r, seed, prior), a) == QualityVector(r, a)
    ensures PinnedParticipants(Resubmitted(r, seed, prior)) == PinnedParticipants(r)
  {
    hide Decision, QualityAt;
    var r' := Resubmitted(r, seed, prior);
    forall k
      ensures Decision(r', k) <==> Decision(r, k)
      ensures QualityAt(r', k) == QualityAt(r, k)
    {
      SameDecision(r, seed, prior, k);
    }
    forall q
      ensures QualityCount(r', a, q) == QualityCount(r, a, q)
    {
      assert (set p | p in a && QualityAt(r', (p, a[p])) == q) == (set p | p in a && QualityAt(r, (p, a[p])) == q);
    }
  }

  /** Quality never depends on the seed or on the prior placements. */
  lemma QualityIndependent(r: Request, seed: int, prior: seq<Placement>, a: map<string, string>, b: map<string, string>)
    requires OptimalThrough(r, a, 4) && OptimalThrough(Resubmitted(r, seed, prior), b, 4)
    ensures QualityVector(r, a) == QualityVector(r, b)
    ensures OptimalThrough(r, b, 4) && OptimalThrough(Resubmitted(r, seed, prior), a, 4)
  {
    hide Feasible, QualityVector, LexLe;
    forall c
      ensures Feasible(Resubmitted(r, seed, prior), c) <==> Feasible(r, c)
      ensures QualityVector(Resubmitted(r, seed, prior), c) == QualityVector(r, c)
    {
      SameRules(r, seed, prior, c);
    }
    LexLeAntisymmetric(QualityVector(r, a)[..4], QualityVector(r, b)[..4]);
  }

  /** Of all placements, `a` keeps the most of its own listing; one that keeps as much agrees with it. */
  lemma {:induction false} OwnListing(r: Request, seed: int, prior: seq<Placement>, a: map<string, string>, b: map<string, string>, ids: seq<string>)
    requires forall id :: id in ids ==> id in a && id in b
    ensures var r' := Resubmitted(r, seed, prior);
            var own := AsPrior(Listing(r, a, ids));
            Retained(r', own, b) <= Retained(r', own, a)
            && (Retained(r', own, b) == Retained(r', own, a) ==> forall id :: id in ids && id !in PinnedParticipants(r) ==> b[id] == a[id])
  {
    hide QualityAt, Feasible, QualityVector;
    if ids != [] {
      var n := |ids| - 1;
      OwnListing(r, seed, prior, a, b, ids[..n]);
      assert ids == ids[..n] + [ids[n]];
      SameRules(r, seed, prior, a);
      var own := AsPrior(Listing(r, a, ids));
      assert Listing(r, a, ids)[..n] == Listing(r, a, ids[..n]) by {
        ListingAt(r, a, ids[..n]);
      }
      ListingAt(r, a, ids[..n]);
      assert own == AsPrior(Listing(r, a, ids[..n])) + [Placement(ids[n], a[ids[n]])];
      assert own[..|own| - 1] == AsPrior(Listing(r, a, ids[..n]));
    }
  }

  /** Feeding an optimal answer back as prior placements returns exactly that answer, whatever the seed. */
  lemma ResolveFixedPoint(r: Request, seed: int, a: map<string, string>, b: map<string, string>)
    requires r.Valid() && Best(r, a)
    requires Best(Resubmitted(r, seed, AsPrior(Listing(r, a, SortSet(a.Keys)))), b)
    ensures b == a
  {
    hide Best, OptimalThrough, Listing, AsPrior, Retained, SortSet, ParticipantIds, PinnedParticipants;
    var own := AsPrior(Listing(r, a, SortSet(a.Keys)));
    var r' := Resubmitted(r, seed, own);
    BestPlaces(r, a);
    BestPlaces(r', b);
    QualityIndependent(r, seed, own, a, b);
    BestKeeps(r', b, a);
    SameIds(r, seed, own);
    OwnListing(r, seed, own, a, b, SortSet(a.Keys));
    forall id | id in a
      ensures b[id] == a[id]
    {
      PinDecides(r, a, b, id);
    }
  }

  lemma BestPlaces(r: Request, a: map<string, string>)
    requires Best(r, a)
    ensures OptimalThrough(r, a, 4) && a.Keys == ParticipantIds(r) && Honours(r.pins, a)
  {
  }

  lemma BestKeeps(r: Request, a: map<string, string>, b: map<string, string>)
    requires Best(r, a) && OptimalThrough(r, b, 4)
    ensures Retained(r, r.priorPlacements, b) <= Retained(r, r.priorPlacements, a)
  {
  }

  lemma SameIds(r: Request, seed: int, prior: seq<Placement>)
    ensures ParticipantIds(Resubmitted(r, seed, prior)) == ParticipantIds(r)
  {
  }

  lemma PinDecides(r: Request, a: map<string, string>, b: map<string, string>, id: string)
    requires Honours(r.pins, a) && Honours(r.pins, b)
    ensures id in PinnedParticipants(r) ==> id in a && id in b && a[id] == b[id]
  {
  }

  // ---- what a clean request excludes ----

  /** Exceptions excuse pins only: whoever is not pinned breaks no hard rule. */
  lemma UnpinnedObeyRules(r: Request, a: map<string, string>, p: Participant, o: Offering)
    requires r.Valid() && Clean(r) && Feasible(r, a)
    requires p in r.participants && o in r.offerings && p.id !in PinnedParticipants(r) && a[p.id] == o.id
    ensures GradeAllowed(p, o) && (p.id, o.id) !in ExclusionPairs(r)
  {
    assert Decision(r, (p.id, a[p.id]));
    var q, s :| q in r.participants && s in r.offerings && (p.id, o.id) == (q.id, s.id) && Eligible(r, q, s);
    FoundParticipant(r, p);
    FoundParticipant(r, q);
    FoundOffering(r, o);
    FoundOffering(r, s);
    assert forall e :: e in r.exceptions ==> e.participantId in PinnedParticipants(r);
  }

  /** An offering beyond its capacity holds its pins and nobody else, one authorised exception per person too many. */
  lemma OverflowOnlyPinned(r: Request, a: map<string, string>, o: Offering)
    requires r.Valid() && Clean(r) && Feasible(r, a)
    requires o in r.offerings && |Members(a, o.id)| > o.capacity
    ensures Members(a, o.id) == PinnedAt(r.pins, o.id)
    ensures |Members(a, o.id)| == o.capacity + |CapacityExceptions(r, r.exceptions, o.id)|
  {
    hide Clean, Feasible, CleanPins, CapacityExceptions, PinCount, Honours;
    PlacementFacts(r, a, o);
    GrantedExactly(r, o);
    MembersSplit(r, a, o.id);
    assert Members(Unpinned(r, a), o.id) == {};
  }

  /** The rules of a clean request in plain terms: pins are honoured; whoever is not pinned is in grade and not excluded;
    * and an offering beyond its capacity holds pinned people only. */
  ghost predicate Proper(r: Request, a: map<string, string>) {
    && a.Keys == (set p | p in r.participants :: p.id)
    && (forall pin :: pin in r.pins ==> pin.participantId in a && a[pin.participantId] == pin.offeringId)
    && (forall p :: p in r.participants && p.id in a && (forall pin :: pin in r.pins ==> pin.participantId != p.id) ==> InPlace(r, a, p))
    && (forall o :: o in r.offerings ==> WellFilled(r, a, o))
  }

  /** No more people than seats, unless all of them are pinned. */
  ghost predicate WellFilled(r: Request, a: map<string, string>, o: Offering) {
    |set id | id in a && a[id] == o.id| <= o.capacity || forall id :: id in a && a[id] == o.id ==> Placement(id, o.id) in r.pins
  }

  ghost predicate InPlace(r: Request, a: map<string, string>, p: Participant)
    requires p.id in a
  {
    exists o :: o in r.offerings && o.id == a[p.id] && o.minGrade <= p.grade <= o.maxGrade && Placement(p.id, o.id) !in r.exclusions
  }

  lemma UnpinnedInPlace(r: Request, a: map<string, string>, p: Participant)
    requires r.Valid() && Clean(r) && Feasible(r, a)
    requires p in r.participants && p.id in a && p.id !in PinnedParticipants(r)
    ensures InPlace(r, a, p)
  {
    var o := SeatOf(r, a, p);
    UnpinnedObeyRules(r, a, p, o);
    ExclusionKnown(r, p.id, o.id);
  }

  lemma SeatOf(r: Request, a: map<string, string>, p: Participant) returns (o: Offering)
    requires Feasible(r, a) && p in r.participants && p.id in a
    ensures o in r.offerings && o.id == a[p.id]
  {
    assert Decision(r, (p.id, a[p.id]));
    var q, s :| q in r.participants && s in r.offerings && (p.id, a[p.id]) == (q.id, s.id) && Eligible(r, q, s);
    o := s;
  }

  lemma InPlaceDecision(r: Request, a: map<string, string>, p: Participant)
    requires p in r.participants && p.id in a && InPlace(r, a, p)
    ensures Decision(r, (p.id, a[p.id]))
  {
    var o :| o in r.offerings && o.id == a[p.id] && o.minGrade <= p.grade <= o.maxGrade && Placement(p.id, o.id) !in r.exclusions;
    ExclusionKnown(r, p.id, o.id);
    assert Eligible(r, p, o);
  }

  lemma PinnedCrowd(r: Request, a: map<string, string>, o: Offering)
    requires CleanPins(r) && forall id :: id in a && a[id] == o.id ==> Placement(id, o.id) in r.pins
    ensures |Members(a, o.id)| <= PinCount(r.pins, o.id)
  {
    PinnedAtSize(r.pins, o.id);
    forall id | id in Members(a, o.id)
      ensures id in PinnedAt(r.pins, o.id)
    {
      assert Placement(id, o.id).participantId == id;
    }
    SubsetSize(Members(a, o.id), PinnedAt(r.pins, o.id));
  }

  lemma CrowdPinned(r: Request, a: map<string, string>, o: Offering)
    requires r.Valid() && Clean(r) && Feasible(r, a) && o in r.offerings && |Members(a, o.id)| > o.capacity
    ensures forall id :: id in a && a[id] == o.id ==> Placement(id, o.id) in r.pins
  {
    hide Clean, Feasible, Request.Valid;
    OverflowOnlyPinned(r, a, o);
    forall id | id in a && a[id] == o.id
      ensures Placement(id, o.id) in r.pins
    {
      assert id in Members(a, o.id);
      var pin :| pin in r.pins && pin.offeringId == o.id && pin.participantId == id;
    }
  }

  lemma ProperFeasible(r: Request, a: map<string, string>)
    requires r.Valid() && Clean(r) && Proper(r, a)
    ensures Feasible(r, a)
  {
    hide Decision, InPlace, Request.Valid, PinCount;
    assert CleanPins(r);
    hide Clean;
    forall id | id in a
      ensures Decision(r, (id, a[id]))
    {
      var p :| p in r.participants && p.id == id;
      if pin :| pin in r.pins && pin.participantId == id {
        assert Decision(r, (pin.participantId, pin.offeringId));
      } else {
        InPlaceDecision(r, a, p);
      }
    }
    forall o | o in r.offerings
      ensures |Members(a, o.id)| <= Max(o.capacity, PinCount(r.pins, o.id))
    {
      if |Members(a, o.id)| > o.capacity {
        PinnedCrowd(r, a, o);
      }
    }
  }

  lemma FeasibleFills(r: Request, a: map<string, string>, o: Offering)
    requires r.Valid() && Clean(r) && Feasible(r, a) && o in r.offerings
    ensures WellFilled(r, a, o)
  {
    hide Feasible, Clean, Request.Valid;
    if |Members(a, o.id)| > o.capacity {
      CrowdPinned(r, a, o);
    }
  }

  lemma FeasibleProper(r: Request, a: map<string, string>)
    requires r.Valid() && Clean(r) && Feasible(r, a)
    ensures Proper(r, a)
  {
    hide Feasible, Clean, Request.Valid, InPlace, WellFilled, PinnedParticipants;
    BasicPlacement(r, a);
    forall p | p in r.participants && p.id in a && (forall pin :: pin in r.pins ==> pin.participantId != p.id)
      ensures InPlace(r, a, p)
    {
      NotPinned(r, p.id);
      UnpinnedInPlace(r, a, p);
    }
    forall o | o in r.offerings
      ensures WellFilled(r, a, o)
    {
      FeasibleFills(r, a, o);
    }
  }

  lemma NotPinned(r: Request, id: string)
    requires forall pin :: pin in r.pins ==> pin.participantId != id
    ensures id !in PinnedParticipants(r)
  {
  }

  lemma BasicPlacement(r: Request, a: map<string, string>)
    requires Feasible(r, a)
    ensures a.Keys == (set p | p in r.participants :: p.id)
    ensures forall pin :: pin in r.pins ==> pin.participantId in a && a[pin.participantId] == pin.offeringId
  {
  }

  /** For a clean request the hard rules come to just that. */
  lemma ProperIff(r: Request, a: map<string, string>)
    requires r.Valid() && Clean(r)
    ensures Feasible(r, a) <==> Proper(r, a)
  {
    hide Feasible, Clean, Proper;
    if Feasible(r, a) {
      FeasibleProper(r, a);
    }
    if Proper(r, a) {
      ProperFeasible(r, a);
    }
  }

  lemma GrantedExactly(r: Request, o: Offering)
    requires Clean(r) && o in r.offerings
    ensures |CapacityExceptions(r, r.exceptions, o.id)| == Max(0, PinCount(r.pins, o.id) - o.capacity)
  {
  }

  lemma PlacementFacts(r: Request, a: map<string, string>, o: Offering)
    requires Clean(r) && Feasible(r, a) && o in r.offerings
    ensures CleanPins(r) && Honours(r.pins, a) && |Members(a, o.id)| <= Max(o.capacity, PinCount(r.pins, o.id))
  {
  }
}
