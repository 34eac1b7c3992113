/** Pinning parts of a placement. */
module Pinning {
  import opened Contract
  import opened Counting
  import opened Documents
  import opened Sorting
  import opened Parsing
  import opened Placing
  import opened Constraints
  import opened Explanation
  import opened Solving
  import opened Solve
  import opened Guarantees

  /** The request with other pins. */
  function Repinned(r: Request, pins: seq<Placement>): Request {
    r.(pins := pins)
  }

  /** Some of a placement's choices, of people not pinned before. */
  ghost predicate PinsOf(r: Request, a: map<string, string>, extra: seq<Placement>) {
    && Honours(extra, a)
    && (forall pin :: pin in extra ==> pin.participantId !in PinnedParticipants(r))
    && PeopleOnce(extra)
  }

  ghost predicate PeopleOnce(pins: seq<Placement>) {
    forall i, j :: 0 <= i < j < |pins| ==> pins[i].participantId != pins[j].participantId
  }

  /** The request's pins and `extra`, in any order. */
  ghost predicate Together(r: Request, extra: seq<Placement>, pins: seq<Placement>) {
    multiset(pins) == multiset(r.pins) + multiset(extra)
  }

  // ---- what pins do not touch ----

  lemma SameDecisions(r: Request, pins: seq<Placement>)
    ensures forall k :: Decision(Repinned(r, pins), k) <==> Decision(r, k)
    ensures ParticipantIds(Repinned(r, pins)) == ParticipantIds(r)
  {
    assert forall p, o :: Eligible(Repinned(r, pins), p, o) <==> Eligible(r, p, o);
    hide Eligible;
  }

  lemma SameQuality(r: Request, pins: seq<Placement>, a: map<string, string>)
    ensures QualityVector(Repinned(r, pins), a) == QualityVector(r, a)
  {
    var r' := Repinned(r, pins);
    assert forall k :: QualityAt(r', k) == QualityAt(r, k);
    hide QualityAt;
    forall q
      ensures QualityCount(r', a, q) == QualityCount(r, a, q)
    {
      assert (set p | p in a && QualityAt(r', (p, a[p])) == q) == (set p | p in a && QualityAt(r, (p, a[p])) == q);
    }
  }

  // ---- the order of pins ----

  lemma {:induction false} PinCountSum(pins: seq<Placement>, extra: seq<Placement>, o: string)
    ensures PinCount(pins + extra, o) == PinCount(pins, o) + PinCount(extra, o)
  {
    if extra == [] {
      assert pins + extra == pins;
    } else {
      PinCountSum(pins, extra[..|extra| - 1], o);
      assert (pins + extra)[..|pins + extra| - 1] == pins + extra[..|extra| - 1];
    }
  }

  lemma {:induction false} PinCountForgets(s: seq<Placement>, t: seq<Placement>, o: string)
    requires multiset(s) == multiset(t)
    ensures PinCount(s, o) == PinCount(t, o)
  {
    if s == [] {
      assert |t| == |multiset(t)| == 0;
    } else {
      var n := |s| - 1;
      WithoutLast(s);
      var k := TakeOut(s[..n], t, s[n]);
      PinCountForgets(s[..n], t[..k] + t[k + 1..], o);
      PinCountSum(t[..k], t[k + 1..], o);
      PinCountSum(t[..k], [s[n]], o);
      PinCountSum(t[..k] + [s[n]], t[k + 1..], o);
    }
  }

  lemma SamePinPairs(r: Request, s: seq<Placement>, t: seq<Placement>)
    requires multiset(s) == multiset(t)
    ensures PinPairs(Repinned(r, s)) == PinPairs(Repinned(r, t)) && forall pin :: pin in s <==> pin in t
  {
    assert forall pin :: pin in s <==> pin in multiset(s);
    assert forall pin :: pin in t <==> pin in multiset(t);
  }

  lemma {:induction false} SameGrants(r: Request, q: Request, exceptions: seq<PinnedException>, o: string)
    requires forall e :: e in exceptions ==>
               ((e.participantId, e.offeringId) in PinPairs(r) <==> (e.participantId, e.offeringId) in PinPairs(q))
    ensures CapacityExceptions(r, exceptions, o) == CapacityExceptions(q, exceptions, o)
  {
    hide PinPairs;
    if exceptions != [] {
      var n := |exceptions| - 1;
      SameGrants(r, q, exceptions[..n], o);
      assert exceptions[n] in exceptions;
    }
  }

  function PinnedPerson(pin: Placement): string { pin.participantId }

  lemma CleanPinsForget(r: Request, s: seq<Placement>, t: seq<Placement>)
    requires multiset(s) == multiset(t) && CleanPins(Repinned(r, s))
    ensures CleanPins(Repinned(r, t))
  {
    SameDecisions(r, s);
    SameDecisions(r, t);
    SamePinPairs(r, s, t);
    hide Decision;
    assert forall i :: 0 <= i < |s| ==> PinnedPerson(s[i]) == s[i].participantId;
    PositionsDistinct(PinnedPerson, s);
    DistinctPositions(PinnedPerson, t);
    assert forall i :: 0 <= i < |t| ==> PinnedPerson(t[i]) == t[i].participantId;
  }

  // ---- more pins ----

  /** The bound of an offering does not move: pins beyond the capacity were all there before. */
  lemma SameBound(r: Request, a: map<string, string>, extra: seq<Placement>, pins: seq<Placement>, o: Offering)
    requires r.Valid() && Clean(r) && Feasible(r, a) && PinsOf(r, a, extra) && Together(r, extra, pins) && o in r.offerings
    ensures Max(o.capacity, PinCount(pins, o.id)) == Max(o.capacity, PinCount(r.pins, o.id))
    ensures Max(0, PinCount(pins, o.id) - o.capacity) == Max(0, PinCount(r.pins, o.id) - o.capacity)
  {
    hide Clean, Feasible, PinCount, CleanPins, PinnedAt, PinnedParticipants, Honours, Members, PinsOf;
    PlacementFacts(r, a, o);
    PinCountForgets(pins, r.pins + extra, o.id);
    PinCountSum(r.pins, extra, o.id);
    MembersSplit(r, a, o.id);
    ExtraSize(r, a, extra, o.id);
  }

  lemma ExtraSize(r: Request, a: map<string, string>, extra: seq<Placement>, o: string)
    requires PinsOf(r, a, extra)
    ensures PinCount(extra, o) <= |Members(Unpinned(r, a), o)|
  {
    PinnedAtSize(extra, o);
    assert PinnedAt(extra, o) <= Members(Unpinned(r, a), o);
    SubsetSize(PinnedAt(extra, o), Members(Unpinned(r, a), o));
  }

  lemma PinsFound(r: Request, extra: seq<Placement>, pins: seq<Placement>)
    requires Together(r, extra, pins)
    ensures forall pin :: pin in pins <==> pin in r.pins || pin in extra
  {
    assert forall pin :: pin in pins <==> pin in multiset(pins);
    assert forall pin :: pin in r.pins <==> pin in multiset(r.pins);
    assert forall pin :: pin in extra <==> pin in multiset(extra);
  }

  lemma HonoursBoth(r: Request, extra: seq<Placement>, pins: seq<Placement>, b: map<string, string>)
    requires Together(r, extra, pins)
    ensures Honours(pins, b) <==> Honours(r.pins, b) && Honours(extra, b)
  {
    PinsFound(r, extra, pins);
    hide Together;
  }

  /** The part of `Feasible` that pins do not touch. */
  ghost predicate Seated(r: Request, b: map<string, string>) {
    b.Keys == ParticipantIds(r) && forall p :: p in b ==> Decision(r, (p, b[p]))
  }

  lemma FeasibleParts(r: Request, b: map<string, string>)
    ensures Feasible(r, b) <==>
      Seated(r, b) && Honours(r.pins, b) && forall o :: o in r.offerings ==> |Members(b, o.id)| <= Max(o.capacity, PinCount(r.pins, o.id))
  {
    hide Decision, PinCount, ParticipantIds, Members;
  }

  lemma PinnedFeasible(r: Request, a: map<string, string>, extra: seq<Placement>, pins: seq<Placement>, b: map<string, string>)
    requires r.Valid() && Clean(r) && Feasible(r, a) && PinsOf(r, a, extra) && Together(r, extra, pins)
    ensures Feasible(Repinned(r, pins), b) <==> Feasible(r, b) && Honours(extra, b)
  {
    var r' := Repinned(r, pins);
    FeasibleParts(r, b);
    FeasibleParts(r', b);
    HonoursBoth(r, extra, pins, b);
    SameDecisions(r, pins);
    hide Feasible, Decision, Clean, ParticipantIds, Together, PinCount, Honours, Members, PinsOf, Max;
    assert Seated(r', b) <==> Seated(r, b);
    hide Seated;
    forall o | o in r.offerings
      ensures Max(o.capacity, PinCount(pins, o.id)) == Max(o.capacity, PinCount(r.pins, o.id))
    {
      SameBound(r, a, extra, pins, o);
    }
  }

  lemma PinnedCleanExceptions(r: Request, extra: seq<Placement>, pins: seq<Placement>)
    requires CleanExceptions(r) && Together(r, extra, pins)
    ensures CleanExceptions(Repinned(r, pins))
    ensures forall e :: e in r.exceptions ==> (e.participantId, e.offeringId) in PinPairs(Repinned(r, pins))
  {
    PinsFound(r, extra, pins);
    hide Together;
    forall k | k in PinPairs(r)
      ensures k in PinPairs(Repinned(r, pins))
    {
      var pin :| pin in r.pins && (pin.participantId, pin.offeringId) == k;
      assert pin in pins;
    }
  }

  lemma OverflowStays(r: Request, a: map<string, string>, extra: seq<Placement>, pins: seq<Placement>, o: Offering)
    requires r.Valid() && Clean(r) && Feasible(r, a) && PinsOf(r, a, extra) && Together(r, extra, pins) && o in r.offerings
    ensures |CapacityExceptions(Repinned(r, pins), r.exceptions, o.id)| == Max(0, PinCount(pins, o.id) - o.capacity)
  {
    assert CleanExceptions(r);
    hide Clean, Feasible, PinsOf, PinCount, PinPairs, CapacityExceptions, Together, GradeAllowed, ExclusionPairs;
    PinnedCleanExceptions(r, extra, pins);
    GrantedExactly(r, o);
    SameBound(r, a, extra, pins, o);
    SameGrants(Repinned(r, pins), r, r.exceptions, o.id);
  }

  lemma AppendedCleanPins(r: Request, a: map<string, string>, extra: seq<Placement>)
    requires CleanPins(r) && Feasible(r, a) && PinsOf(r, a, extra)
    ensures CleanPins(Repinned(r, r.pins + extra))
  {
    SameDecisions(r, r.pins + extra);
    hide Decision;
    var pins := r.pins + extra;
    forall i, j | 0 <= i < j < |pins|
      ensures pins[i].participantId != pins[j].participantId
    {
      if j >= |r.pins| {
        assert pins[j] == extra[j - |r.pins|] && pins[j] in extra;
        assert i < |r.pins| ==> pins[i] in r.pins;
        assert i >= |r.pins| ==> pins[i] == extra[i - |r.pins|];
      }
    }
    forall pin | pin in pins
      ensures Decision(r, (pin.participantId, pin.offeringId))
    {
      if pin in extra {
        assert Decision(r, (pin.participantId, a[pin.participantId]));
      }
    }
  }

  lemma CleanParts(r: Request)
    ensures Clean(r) <==> CleanExclusions(r) && CleanExceptions(r) && CleanPins(r) && CleanOverflow(r)
  {
  }

  lemma ExclusionsStay(r: Request, pins: seq<Placement>)
    requires CleanExclusions(r)
    ensures CleanExclusions(Repinned(r, pins))
  {
  }

  lemma PinnedCleanOverflow(r: Request, a: map<string, string>, extra: seq<Placement>, pins: seq<Placement>)
    requires r.Valid() && Clean(r) && Feasible(r, a) && PinsOf(r, a, extra) && Together(r, extra, pins)
    ensures CleanOverflow(Repinned(r, pins))
  {
    hide Clean, Feasible, PinsOf, PinCount, CapacityExceptions, Together, Request.Valid;
    forall o | o in r.offerings
      ensures |CapacityExceptions(Repinned(r, pins), r.exceptions, o.id)| == Max(0, PinCount(pins, o.id) - o.capacity)
    {
      OverflowStays(r, a, extra, pins, o);
    }
  }

  /** Pinning parts of a placement keeps the request clean. */
  lemma PinnedClean(r: Request, a: map<string, string>, extra: seq<Placement>, pins: seq<Placement>)
    requires r.Valid() && Clean(r) && Feasible(r, a) && PinsOf(r, a, extra) && Together(r, extra, pins)
    ensures Clean(Repinned(r, pins))
  {
    hide Clean, Feasible, CleanExclusions, CleanExceptions, CleanPins, CleanOverflow, PinsOf, Request.Valid;
    CleanParts(r);
    ExclusionsStay(r, pins);
    PinnedCleanExceptions(r, extra, pins);
    AppendedCleanPins(r, a, extra);
    assert multiset(r.pins + extra) == multiset(pins);
    CleanPinsForget(r, r.pins + extra, pins);
    PinnedCleanOverflow(r, a, extra, pins);
    CleanParts(Repinned(r, pins));
  }

  /** Pinning any of an optimal answer's placements keeps the request clean, keeps that answer optimal, and leaves
    * the optimal quality counts unchanged, wherever the new pins are listed. */
  lemma PinningResults(r: Request, a: map<string, string>, extra: seq<Placement>, pins: seq<Placement>, b: map<string, string>)
    requires r.Valid() && Clean(r) && OptimalThrough(r, a, 4) && PinsOf(r, a, extra) && Together(r, extra, pins)
    ensures Repinned(r, pins).Valid() && Clean(Repinned(r, pins))
    ensures OptimalThrough(Repinned(r, pins), a, 4)
    ensures OptimalThrough(Repinned(r, pins), b, 4) <==> OptimalThrough(r, b, 4) && Honours(extra, b)
    ensures OptimalThrough(Repinned(r, pins), b, 4) ==> QualityVector(Repinned(r, pins), b) == QualityVector(r, a)
  {
    hide Feasible, Clean, QualityVector, LexLe, PinsOf, Honours, Together;
    var r' := Repinned(r, pins);
    PinnedClean(r, a, extra, pins);
    forall c
      ensures QualityVector(r', c) == QualityVector(r, c)
      ensures Feasible(r', c) <==> Feasible(r, c) && Honours(extra, c)
    {
      PinnedFeasible(r, a, extra, pins, c);
      SameQuality(r, pins, c);
    }
    ExtraHonoured(r, a, extra);
    if OptimalThrough(r', b, 4) || OptimalThrough(r, b, 4) {
      LexLeAntisymmetric(QualityVector(r, a)[..4], QualityVector(r, b)[..4]);
    }
  }

  lemma ExtraHonoured(r: Request, a: map<string, string>, extra: seq<Placement>)
    requires PinsOf(r, a, extra)
    ensures Honours(extra, a)
  {
  }
}
