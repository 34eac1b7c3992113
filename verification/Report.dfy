/** What each entry of the report on stale constraints says of the request, without the dictionaries that find it. */
module Report {
  import opened Contract
  import opened Placing
  import opened Diagnostics
  import opened Constraints

  // ---- who is meant ----

  ghost predicate About(d: Diagnostic, participantId: string, offeringId: string) {
    d.scope == GlobalConflict && d.participantIds == {participantId} && d.offeringIds == {offeringId}
    && d.requiredCapacity.None? && d.availableCapacity.None?
  }

  ghost predicate KnownPerson(r: Request, id: string) {
    exists p :: p in r.participants && p.id == id
  }

  ghost predicate KnownOffering(r: Request, id: string) {
    exists o :: o in r.offerings && o.id == id
  }

  ghost predicate HasPin(r: Request, participantId: string, offeringId: string) {
    Placement(participantId, offeringId) in r.pins
  }

  ghost predicate IsExcluded(r: Request, participantId: string, offeringId: string) {
    Placement(participantId, offeringId) in r.exclusions
  }

  ghost predicate IsExcepted(r: Request, participantId: string, offeringId: string, rule: Rule) {
    PinnedException(participantId, offeringId, rule) in r.exceptions
  }

  /** A known person's grade lies in a known offering's window. */
  ghost predicate GradeFits(r: Request, participantId: string, offeringId: string) {
    exists p, o :: p in r.participants && o in r.offerings && p.id == participantId && o.id == offeringId && o.minGrade <= p.grade <= o.maxGrade
  }

  /** The entry stands at two places of the list. */
  ghost predicate Twice<T>(items: seq<T>, x: T) {
    exists i, j :: 0 <= i < j < |items| && items[i] == x && items[j] == x
  }

  // ---- pins ----

  /** The pin names people and offerings there are, and breaks no rule without an exception. */
  ghost predicate Stands(r: Request, pin: Placement) {
    && KnownPerson(r, pin.participantId) && KnownOffering(r, pin.offeringId)
    && (GradeFits(r, pin.participantId, pin.offeringId) || IsExcepted(r, pin.participantId, pin.offeringId, GradeRule))
    && (!IsExcluded(r, pin.participantId, pin.offeringId) || IsExcepted(r, pin.participantId, pin.offeringId, ExclusionRule))
  }

  /** The places, below `n`, of the standing pins of one person. */
  ghost function StandingPins(r: Request, participantId: string, n: nat): set<nat>
    requires n <= |r.pins|
  {
    set i: nat | i < n && Stands(r, r.pins[i]) && r.pins[i].participantId == participantId
  }

  /** The places, below `n`, of the pins of one offering. */
  ghost function PinsAt(r: Request, offeringId: string, n: nat): set<nat>
    requires n <= |r.pins|
  {
    set i: nat | i < n && r.pins[i].offeringId == offeringId && KnownPerson(r, r.pins[i].participantId)
  }

  /** The places, below `n`, of the capacity exceptions on pins of one offering. */
  ghost function GrantsAt(r: Request, offeringId: string, n: nat): (places: set<nat>)
    requires n <= |r.exceptions|
    ensures forall i :: i in places ==> i < n
  {
    set i: nat | i < n && r.exceptions[i].offeringId == offeringId && r.exceptions[i].rule == CapacityRule
                 && HasPin(r, r.exceptions[i].participantId, offeringId)
  }

  ghost function OfferingsAt(r: Request, places: set<nat>): set<string> {
    set i | i in places && i < |r.pins| :: r.pins[i].offeringId
  }

  ghost function PeopleAt(r: Request, places: set<nat>): set<string> {
    set i | i in places && i < |r.pins| :: r.pins[i].participantId
  }

  // ---- the report ----

  /** Why an exception is refused: the first of these that holds. */
  ghost predicate Unneeded(r: Request, e: PinnedException, code: Code) {
    match code
    case PinnedExceptionPinNotFound => !HasPin(r, e.participantId, e.offeringId)
    case PinnedExceptionParticipantNotParticipating => HasPin(r, e.participantId, e.offeringId) && !KnownPerson(r, e.participantId)
    case PinnedExceptionOfferingNotFound =>
      HasPin(r, e.participantId, e.offeringId) && KnownPerson(r, e.participantId) && !KnownOffering(r, e.offeringId)
    case PinnedExceptionGradeNotNeeded =>
      HasPin(r, e.participantId, e.offeringId) && e.rule == GradeRule && GradeFits(r, e.participantId, e.offeringId)
    case PinnedExceptionExclusionNotNeeded =>
      HasPin(r, e.participantId, e.offeringId) && KnownPerson(r, e.participantId) && KnownOffering(r, e.offeringId)
      && e.rule == ExclusionRule && !IsExcluded(r, e.participantId, e.offeringId)
    case _ => false
  }

  /** Why a pin does not stand. Either end may be unknown, or both. */
  ghost predicate Unsound(r: Request, pin: Placement, code: Code) {
    match code
    case PinParticipantNotParticipating => !KnownPerson(r, pin.participantId)
    case PinOfferingNotFound => !KnownOffering(r, pin.offeringId)
    case PinGradeOutOfRange =>
      KnownPerson(r, pin.participantId) && KnownOffering(r, pin.offeringId)
      && !GradeFits(r, pin.participantId, pin.offeringId) && !IsExcepted(r, pin.participantId, pin.offeringId, GradeRule)
    case PinExcluded =>
      KnownPerson(r, pin.participantId) && KnownOffering(r, pin.offeringId)
      && (GradeFits(r, pin.participantId, pin.offeringId) || IsExcepted(r, pin.participantId, pin.offeringId, GradeRule))
      && IsExcluded(r, pin.participantId, pin.offeringId) && !IsExcepted(r, pin.participantId, pin.offeringId, ExclusionRule)
    case _ => false
  }

  /** The offering has more pins than seats and capacity exceptions. */
  ghost predicate ExceedsAt(r: Request, o: Offering, d: Diagnostic) {
    var pins, grants := PinsAt(r, o.id, |r.pins|), GrantsAt(r, o.id, |r.exceptions|);
    && |grants| < |pins| - o.capacity
    && d == Diagnostic(PinCapacityExceeded, GlobalConflict, PeopleAt(r, pins), {o.id}, Some(|pins|), Some(o.capacity + |grants|))
  }

  /** A capacity exception beyond those the offering's pins need; the earlier ones count first. */
  ghost predicate SurplusAt(r: Request, o: Offering, d: Diagnostic) {
    d.code == PinnedExceptionCapacityNotNeeded &&
    exists i :: i in GrantsAt(r, o.id, |r.exceptions|) && |GrantsAt(r, o.id, i)| >= |PinsAt(r, o.id, |r.pins|)| - o.capacity
                && About(d, r.exceptions[i].participantId, o.id)
  }

  /** Everything there is to report, code by code. */
  ghost predicate Reported(r: Request, d: Diagnostic) {
    match d.code
    case ExclusionParticipantNotParticipating =>
      exists e :: e in r.exclusions && About(d, e.participantId, e.offeringId) && !KnownPerson(r, e.participantId)
    case ExclusionOfferingNotFound =>
      exists e :: e in r.exclusions && About(d, e.participantId, e.offeringId) && !KnownOffering(r, e.offeringId)
    case ExclusionDuplicate =>
      exists e :: e in r.exclusions && About(d, e.participantId, e.offeringId) && Twice(r.exclusions, e)
    case PinnedExceptionDuplicate =>
      exists e :: e in r.exceptions && About(d, e.participantId, e.offeringId) && Twice(r.exceptions, e)
    case PinConflictingPlacement =>
      exists id :: |StandingPins(r, id, |r.pins|)| > 1
                   && d == Diagnostic(PinConflictingPlacement, GlobalConflict, {id}, OfferingsAt(r, StandingPins(r, id, |r.pins|)), None, None)
    case PinCapacityExceeded => exists o :: o in r.offerings && PinsAt(r, o.id, |r.pins|) != {} && ExceedsAt(r, o, d)
    case PinnedExceptionCapacityNotNeeded => exists o :: o in r.offerings && PinsAt(r, o.id, |r.pins|) != {} && SurplusAt(r, o, d)
    case _ =>
      || (exists e :: e in r.exceptions && About(d, e.participantId, e.offeringId) && Unneeded(r, e, d.code))
      || (exists pin :: pin in r.pins && About(d, pin.participantId, pin.offeringId) && Unsound(r, pin, d.code))
  }

  // ---- what the dictionaries find ----

  lemma PersonKnown(r: Request, id: string)
    ensures KnownPerson(r, id) <==> id in ParticipantIds(r)
    ensures KnownPerson(r, id) <==> FindParticipant(r.participants, id).Some?
  {
  }

  lemma OfferingKnown(r: Request, id: string)
    ensures KnownOffering(r, id) <==> id in OfferingIds(r)
    ensures KnownOffering(r, id) <==> FindOffering(r.offerings, id).Some?
  {
  }

  lemma PinKnown(r: Request, participantId: string, offeringId: string)
    ensures HasPin(r, participantId, offeringId) <==> (participantId, offeringId) in PinPairs(r)
  {
    if HasPin(r, participantId, offeringId) {
      var pin := Placement(participantId, offeringId);
      assert (pin.participantId, pin.offeringId) in PinPairs(r);
    }
  }

  lemma RulesKnown(r: Request, participantId: string, offeringId: string)
    ensures IsExcluded(r, participantId, offeringId) <==> (participantId, offeringId) in ExclusionPairs(r)
    ensures forall rule :: IsExcepted(r, participantId, offeringId, rule) <==> (participantId, offeringId, rule) in ExceptionRules(r)
  {
    ExclusionKnown(r, participantId, offeringId);
    forall rule
      ensures IsExcepted(r, participantId, offeringId, rule) <==> (participantId, offeringId, rule) in ExceptionRules(r)
    {
      ExceptionKnown(r, participantId, offeringId, rule);
    }
  }

  lemma GradeKnown(r: Request, participantId: string, offeringId: string)
    requires r.Valid() && FindParticipant(r.participants, participantId).Some? && FindOffering(r.offerings, offeringId).Some?
    ensures GradeFits(r, participantId, offeringId) <==>
            GradeAllowed(FindParticipant(r.participants, participantId).value, FindOffering(r.offerings, offeringId).value)
  {
    hide Request.Valid;
    forall p, o | p in r.participants && o in r.offerings && p.id == participantId && o.id == offeringId
      ensures FindParticipant(r.participants, participantId) == Some(p) && FindOffering(r.offerings, offeringId) == Some(o)
    {
      FoundParticipant(r, p);
      FoundOffering(r, o);
    }
  }

  lemma PinStands(r: Request, pin: Placement)
    requires r.Valid()
    ensures Stands(r, pin) <==> SoundPin(r, pin)
  {
    hide Request.Valid, KnownPerson, KnownOffering, GradeFits, IsExcluded, IsExcepted, GradeAllowed, ExclusionPairs, ExceptionRules, FindParticipant, FindOffering;
    PersonKnown(r, pin.participantId);
    OfferingKnown(r, pin.offeringId);
    RulesKnown(r, pin.participantId, pin.offeringId);
    if FindParticipant(r.participants, pin.participantId).Some? && FindOffering(r.offerings, pin.offeringId).Some? {
      GradeKnown(r, pin.participantId, pin.offeringId);
    }
  }

  lemma {:induction false} TwiceCounts<T>(items: seq<T>, x: T)
    ensures Twice(items, x) <==> multiset(items)[x] > 1
  {
    if items != [] {
      var n := |items| - 1;
      TwiceCounts(items[..n], x);
      assert items == items[..n] + [items[n]];
      assert multiset(items)[x] == multiset(items[..n])[x] + (if items[n] == x then 1 else 0);
      assert multiset(items[..n])[x] > 0 <==> x in items[..n];
      if items[n] == x && x in items[..n] {
        var i :| 0 <= i < n && items[..n][i] == x;
        assert items[i] == x && items[n] == x;
      }
      if Twice(items[..n], x) {
        var i, j :| 0 <= i < j < n && items[..n][i] == x && items[..n][j] == x;
        assert items[i] == x && items[j] == x;
      }
      if Twice(items, x) && !Twice(items[..n], x) {
        var i, j :| 0 <= i < j < |items| && items[i] == x && items[j] == x;
        assert j < n ==> items[..n][i] == x && items[..n][j] == x;
        assert items[..n][i] == x;
      }
    }
  }

  // ---- family by family ----

  lemma ExclusionReported(r: Request, d: Diagnostic)
    ensures (exists e :: e in r.exclusions && (StaleExclusion(r, e, d) || RepeatedExclusion(r, e, d))) <==>
            d.code in {ExclusionParticipantNotParticipating, ExclusionOfferingNotFound, ExclusionDuplicate} && Reported(r, d)
  {
    hide KnownPerson, KnownOffering, Twice, ParticipantIds, OfferingIds;
    forall e | e in r.exclusions
      ensures StaleExclusion(r, e, d) <==>
        || (d.code == ExclusionParticipantNotParticipating && About(d, e.participantId, e.offeringId) && !KnownPerson(r, e.participantId))
        || (d.code == ExclusionOfferingNotFound && About(d, e.participantId, e.offeringId) && !KnownOffering(r, e.offeringId))
      ensures RepeatedExclusion(r, e, d) <==>
        d.code == ExclusionDuplicate && About(d, e.participantId, e.offeringId) && Twice(r.exclusions, e)
    {
      PersonKnown(r, e.participantId);
      OfferingKnown(r, e.offeringId);
      TwiceCounts(r.exclusions, e);
    }
  }

  lemma FaultReported(r: Request, e: PinnedException, d: Diagnostic)
    requires r.Valid()
    ensures StaleException(r, e, d) <==> About(d, e.participantId, e.offeringId) && Unneeded(r, e, d.code)
  {
    PersonKnown(r, e.participantId);
    OfferingKnown(r, e.offeringId);
    PinKnown(r, e.participantId, e.offeringId);
    RulesKnown(r, e.participantId, e.offeringId);
    GradeFitsKnown(r, e.participantId, e.offeringId);
    if FindParticipant(r.participants, e.participantId).Some? && FindOffering(r.offerings, e.offeringId).Some? {
      GradeKnown(r, e.participantId, e.offeringId);
    }
    hide Request.Valid, KnownPerson, KnownOffering, HasPin, PinPairs, GradeFits, IsExcluded, IsExcepted, GradeAllowed, ExclusionPairs, ExceptionRules, FindParticipant, FindOffering,
         ParticipantIds, OfferingIds;
  }

  lemma GradeFitsKnown(r: Request, participantId: string, offeringId: string)
    ensures GradeFits(r, participantId, offeringId) ==> KnownPerson(r, participantId) && KnownOffering(r, offeringId)
  {
  }

  lemma ExceptionReported(r: Request, d: Diagnostic)
    requires r.Valid()
    ensures (exists e :: e in r.exceptions && (StaleException(r, e, d) || RepeatedException(r, e, d))) <==>
            d.code in {PinnedExceptionPinNotFound, PinnedExceptionParticipantNotParticipating, PinnedExceptionOfferingNotFound,
                       PinnedExceptionGradeNotNeeded, PinnedExceptionExclusionNotNeeded, PinnedExceptionDuplicate} && Reported(r, d)
  {
    hide Request.Valid, KnownPerson, KnownOffering, HasPin, GradeFits, IsExcluded, IsExcepted, Twice, StaleException, About;
    forall e | e in r.exceptions
      ensures RepeatedException(r, e, d) <==> d.code == PinnedExceptionDuplicate && About(d, e.participantId, e.offeringId) && Twice(r.exceptions, e)
    {
      TwiceCounts(r.exceptions, e);
      AboutIs(d, PinnedExceptionDuplicate, e.participantId, e.offeringId);
    }
    forall e | e in r.exceptions {
      FaultReported(r, e, d);
    }
  }

  lemma AboutIs(d: Diagnostic, code: Code, participantId: string, offeringId: string)
    ensures d == PlacementDiagnostic(code, participantId, offeringId) <==> d.code == code && About(d, participantId, offeringId)
  {
  }

  lemma PinFaultReported(r: Request, pin: Placement, d: Diagnostic)
    requires r.Valid()
    ensures StalePin(r, pin, d) <==> About(d, pin.participantId, pin.offeringId) && Unsound(r, pin, d.code)
  {
    hide Request.Valid, KnownPerson, KnownOffering, GradeFits, IsExcluded, IsExcepted, GradeAllowed, ExclusionPairs, ExceptionRules, FindParticipant, FindOffering,
         ParticipantIds, OfferingIds;
    PersonKnown(r, pin.participantId);
    OfferingKnown(r, pin.offeringId);
    RulesKnown(r, pin.participantId, pin.offeringId);
    if FindParticipant(r.participants, pin.participantId).Some? && FindOffering(r.offerings, pin.offeringId).Some? {
      GradeKnown(r, pin.participantId, pin.offeringId);
    }
  }

  lemma PinReported(r: Request, d: Diagnostic)
    requires r.Valid()
    ensures (exists pin :: pin in r.pins && StalePin(r, pin, d)) <==>
            d.code in {PinParticipantNotParticipating, PinOfferingNotFound, PinGradeOutOfRange, PinExcluded} && Reported(r, d)
  {
    hide Request.Valid, KnownPerson, KnownOffering, GradeFits, IsExcluded, IsExcepted, StalePin, About;
    forall pin | pin in r.pins {
      PinFaultReported(r, pin, d);
    }
  }

  lemma OneMorePin(r: Request, pins: seq<Placement>, places: set<nat>, n: nat)
    requires n < |r.pins|
    requires (set pin | pin in pins :: pin.offeringId) == OfferingsAt(r, places)
    requires (set pin | pin in pins :: pin.participantId) == PeopleAt(r, places)
    ensures (set pin | pin in pins + [r.pins[n]] :: pin.offeringId) == OfferingsAt(r, places + {n})
    ensures (set pin | pin in pins + [r.pins[n]] :: pin.participantId) == PeopleAt(r, places + {n})
  {
    var all, x := pins + [r.pins[n]], r.pins[n];
    assert forall pin :: pin in all <==> pin in pins || pin == x;
    assert x in all;
    assert (set pin | pin in all :: pin.offeringId) == (set pin | pin in pins :: pin.offeringId) + {x.offeringId};
    assert (set pin | pin in all :: pin.participantId) == (set pin | pin in pins :: pin.participantId) + {x.participantId};
    assert OfferingsAt(r, places + {n}) == OfferingsAt(r, places) + {x.offeringId};
    assert PeopleAt(r, places + {n}) == PeopleAt(r, places) + {x.participantId};
  }

  /** The pins listed are those at the places. */
  ghost predicate Gathered(r: Request, pins: seq<Placement>, places: set<nat>) {
    && |pins| == |places|
    && (set pin | pin in pins :: pin.offeringId) == OfferingsAt(r, places)
    && (set pin | pin in pins :: pin.participantId) == PeopleAt(r, places)
  }

  lemma GatherNone(r: Request)
    ensures Gathered(r, [], {})
  {
  }

  lemma GatherOne(r: Request, pins: seq<Placement>, places: set<nat>, n: nat)
    requires Gathered(r, pins, places) && n < |r.pins| && n !in places
    ensures Gathered(r, pins + [r.pins[n]], places + {n})
  {
    hide OfferingsAt, PeopleAt;
    OneMorePin(r, pins, places, n);
  }

  lemma {:induction false} StandingGathered(r: Request, participantId: string, n: nat)
    requires r.Valid() && n <= |r.pins|
    ensures Gathered(r, SoundPinsOf(r, r.pins[..n], participantId), StandingPins(r, participantId, n))
  {
    hide Request.Valid, Stands, SoundPin, Gathered;
    if n == 0 {
      GatherNone(r);
      assert StandingPins(r, participantId, 0) == {};
    } else {
      StandingGathered(r, participantId, n - 1);
      assert r.pins[..n][..n - 1] == r.pins[..n - 1];
      PinStands(r, r.pins[n - 1]);
      var before := StandingPins(r, participantId, n - 1);
      assert StandingPins(r, participantId, n) ==
             if Stands(r, r.pins[n - 1]) && r.pins[n - 1].participantId == participantId then before + {n - 1} else before;
      var rest := SoundPinsOf(r, r.pins[..n - 1], participantId);
      if Stands(r, r.pins[n - 1]) && r.pins[n - 1].participantId == participantId {
        GatherOne(r, rest, before, n - 1);
      } else {
        assert SoundPinsOf(r, r.pins[..n], participantId) == rest;
      }
    }
  }

  lemma TornReported(r: Request, d: Diagnostic)
    requires r.Valid()
    ensures (exists p :: Torn(r, p, d)) <==> d.code == PinConflictingPlacement && Reported(r, d)
  {
    hide Request.Valid, StandingPins, SoundPinsOf, OfferingsAt, PeopleAt;
    assert r.pins[..|r.pins|] == r.pins;
    forall p
      ensures Torn(r, p, d) <==>
        |StandingPins(r, p, |r.pins|)| > 1
        && d == Diagnostic(PinConflictingPlacement, GlobalConflict, {p}, OfferingsAt(r, StandingPins(r, p, |r.pins|)), None, None)
    {
      StandingGathered(r, p, |r.pins|);
    }
  }

  lemma {:induction false} PinsGathered(r: Request, offeringId: string, n: nat)
    requires KnownOffering(r, offeringId) && n <= |r.pins|
    ensures Gathered(r, KnownPinsOf(r, r.pins[..n], offeringId), PinsAt(r, offeringId, n))
  {
    hide KnownPerson, KnownOffering, ParticipantIds, OfferingIds, Gathered;
    if n == 0 {
      GatherNone(r);
      assert PinsAt(r, offeringId, 0) == {};
    } else {
      PinsGathered(r, offeringId, n - 1);
      assert r.pins[..n][..n - 1] == r.pins[..n - 1];
      PersonKnown(r, r.pins[n - 1].participantId);
      OfferingKnown(r, r.pins[n - 1].offeringId);
      var before := PinsAt(r, offeringId, n - 1);
      assert PinsAt(r, offeringId, n) ==
             if r.pins[n - 1].offeringId == offeringId && KnownPerson(r, r.pins[n - 1].participantId) then before + {n - 1} else before;
      var rest := KnownPinsOf(r, r.pins[..n - 1], offeringId);
      if r.pins[n - 1].offeringId == offeringId && KnownPerson(r, r.pins[n - 1].participantId) {
        GatherOne(r, rest, before, n - 1);
      } else {
        assert KnownPinsOf(r, r.pins[..n], offeringId) == rest;
      }
    }
  }

  ghost predicate Ranked(r: Request, offeringId: string, n: nat, k: nat)
    requires n <= |r.exceptions|
  {
    exists i :: i in GrantsAt(r, offeringId, n) && |GrantsAt(r, offeringId, i)| == k
  }

  /** Each of the exceptions listed stands at its rank among those at the places below `n`. */
  ghost predicate InRanks(r: Request, offeringId: string, n: nat, granted: seq<PinnedException>)
    requires n <= |r.exceptions|
  {
    && |granted| == |GrantsAt(r, offeringId, n)|
    && (forall i :: i in GrantsAt(r, offeringId, n) ==>
         |GrantsAt(r, offeringId, i)| < |granted| && granted[|GrantsAt(r, offeringId, i)|] == r.exceptions[i])
    && (forall k :: 0 <= k < |granted| ==> Ranked(r, offeringId, n, k))
  }

  lemma OneMoreRank(r: Request, offeringId: string, n: nat, granted: seq<PinnedException>)
    requires 0 < n <= |r.exceptions| && InRanks(r, offeringId, n - 1, granted)
    requires GrantsAt(r, offeringId, n) == GrantsAt(r, offeringId, n - 1) + {n - 1} && n - 1 !in GrantsAt(r, offeringId, n - 1)
    ensures InRanks(r, offeringId, n, granted + [r.exceptions[n - 1]])
  {
    hide GrantsAt;
    var all := granted + [r.exceptions[n - 1]];
    forall k | 0 <= k < |all|
      ensures Ranked(r, offeringId, n, k)
    {
      if k < |granted| {
        assert Ranked(r, offeringId, n - 1, k);
        var i :| i in GrantsAt(r, offeringId, n - 1) && |GrantsAt(r, offeringId, i)| == k;
        assert i in GrantsAt(r, offeringId, n);
      } else {
        assert n - 1 in GrantsAt(r, offeringId, n);
      }
    }
  }

  lemma SameRanks(r: Request, offeringId: string, n: nat, granted: seq<PinnedException>)
    requires 0 < n <= |r.exceptions| && InRanks(r, offeringId, n - 1, granted)
    requires GrantsAt(r, offeringId, n) == GrantsAt(r, offeringId, n - 1)
    ensures InRanks(r, offeringId, n, granted)
  {
    hide GrantsAt;
    forall k | 0 <= k < |granted|
      ensures Ranked(r, offeringId, n, k)
    {
      assert Ranked(r, offeringId, n - 1, k);
    }
  }

  lemma {:induction false} GrantsRanked(r: Request, offeringId: string, n: nat)
    requires n <= |r.exceptions|
    ensures InRanks(r, offeringId, n, CapacityExceptions(r, r.exceptions[..n], offeringId))
  {
    hide HasPin, PinPairs, InRanks;
    if n == 0 {
      NoRanks(r, offeringId);
    } else {
      GrantsRanked(r, offeringId, n - 1);
      assert r.exceptions[..n][..n - 1] == r.exceptions[..n - 1];
      var e := r.exceptions[n - 1];
      PinKnown(r, e.participantId, e.offeringId);
      var before, granted := GrantsAt(r, offeringId, n - 1), CapacityExceptions(r, r.exceptions[..n - 1], offeringId);
      if e.offeringId == offeringId && e.rule == CapacityRule && HasPin(r, e.participantId, offeringId) {
        assert GrantsAt(r, offeringId, n) == before + {n - 1};
        OneMoreRank(r, offeringId, n, granted);
      } else {
        assert GrantsAt(r, offeringId, n) == before;
        assert CapacityExceptions(r, r.exceptions[..n], offeringId) == granted;
        SameRanks(r, offeringId, n, granted);
      }
    }
  }

  lemma NoRanks(r: Request, offeringId: string)
    ensures InRanks(r, offeringId, 0, CapacityExceptions(r, r.exceptions[..0], offeringId))
  {
    assert GrantsAt(r, offeringId, 0) == {};
  }

  /** The surplus exceptions are those whose rank is not below what is required. */
  lemma SurplusRanked(r: Request, offeringId: string, granted: seq<PinnedException>, required: nat, e: PinnedException)
    requires InRanks(r, offeringId, |r.exceptions|, granted) && required <= |granted|
    ensures e in granted[required..] <==>
            exists i :: i in GrantsAt(r, offeringId, |r.exceptions|) && |GrantsAt(r, offeringId, i)| >= required && r.exceptions[i] == e
  {
    hide GrantsAt;
    if e in granted[required..] {
      var k :| required <= k < |granted| && granted[k] == e;
      assert Ranked(r, offeringId, |r.exceptions|, k);
    }
    if i :| i in GrantsAt(r, offeringId, |r.exceptions|) && |GrantsAt(r, offeringId, i)| >= required && r.exceptions[i] == e {
      var k := |GrantsAt(r, offeringId, i)|;
      assert granted[required..][k - required] == e;
    }
  }

  lemma GrantOf(r: Request, offeringId: string, i: nat)
    requires i in GrantsAt(r, offeringId, |r.exceptions|)
    ensures r.exceptions[i].offeringId == offeringId
  {
  }

  lemma SurplusReported(r: Request, o: Offering, granted: seq<PinnedException>, required: nat, d: Diagnostic)
    requires InRanks(r, o.id, |r.exceptions|, granted) && required <= |granted|
    requires required == Max(0, |PinsAt(r, o.id, |r.pins|)| - o.capacity)
    ensures (exists e :: e in granted[required..] && d == PlacementDiagnostic(PinnedExceptionCapacityNotNeeded, e.participantId, e.offeringId))
            <==> SurplusAt(r, o, d)
  {
    hide GrantsAt, PinsAt, InRanks, About;
    forall e
      ensures e in granted[required..] <==>
        exists i :: i in GrantsAt(r, o.id, |r.exceptions|) && |GrantsAt(r, o.id, i)| >= required && r.exceptions[i] == e
      ensures d == PlacementDiagnostic(PinnedExceptionCapacityNotNeeded, e.participantId, e.offeringId) <==>
        d.code == PinnedExceptionCapacityNotNeeded && About(d, e.participantId, e.offeringId)
    {
      SurplusRanked(r, o.id, granted, required, e);
      AboutIs(d, PinnedExceptionCapacityNotNeeded, e.participantId, e.offeringId);
    }
    forall i | i in GrantsAt(r, o.id, |r.exceptions|)
      ensures r.exceptions[i].offeringId == o.id
    {
      GrantOf(r, o.id, i);
    }
    if SurplusAt(r, o, d) {
      var i :| i in GrantsAt(r, o.id, |r.exceptions|) && |GrantsAt(r, o.id, i)| >= |PinsAt(r, o.id, |r.pins|)| - o.capacity
               && About(d, r.exceptions[i].participantId, o.id);
      assert r.exceptions[i] in granted[required..];
    }
  }

  lemma NoSurplus(r: Request, o: Offering, granted: seq<PinnedException>, d: Diagnostic)
    requires InRanks(r, o.id, |r.exceptions|, granted) && |granted| < |PinsAt(r, o.id, |r.pins|)| - o.capacity
    ensures !SurplusAt(r, o, d)
  {
    hide GrantsAt, PinsAt, About;
  }

  lemma OfferingReported(r: Request, o: Offering, d: Diagnostic)
    requires r.Valid() && o in r.offerings
    ensures Overcommitted(r, o.id, d) <==> PinsAt(r, o.id, |r.pins|) != {} && (ExceedsAt(r, o, d) || SurplusAt(r, o, d))
  {
    hide Request.Valid, PinsAt, GrantsAt, KnownPinsOf, CapacityExceptions, SurplusAt, PeopleAt, OfferingsAt, FindOffering;
    FoundOffering(r, o);
    assert KnownOffering(r, o.id);
    assert r.pins[..|r.pins|] == r.pins && r.exceptions[..|r.exceptions|] == r.exceptions;
    PinsGathered(r, o.id, |r.pins|);
    GrantsRanked(r, o.id, |r.exceptions|);
    var pins, granted := KnownPinsOf(r, r.pins, o.id), CapacityExceptions(r, r.exceptions, o.id);
    var required := Max(0, |pins| - o.capacity);
    assert pins != [] <==> PinsAt(r, o.id, |r.pins|) != {};
    if |granted| < required {
      NoSurplus(r, o, granted, d);
    } else {
      SurplusReported(r, o, granted, required, d);
    }
    hide InRanks;
  }

  lemma OverflowReported(r: Request, d: Diagnostic)
    requires r.Valid()
    ensures (exists o :: Overcommitted(r, o, d)) <==> d.code in {PinCapacityExceeded, PinnedExceptionCapacityNotNeeded} && Reported(r, d)
  {
    hide Request.Valid, Overcommitted, PinsAt, ExceedsAt, SurplusAt;
    forall o | o in r.offerings {
      OfferingReported(r, o, d);
    }
    forall o | Overcommitted(r, o, d)
      ensures KnownOffering(r, o)
    {
      OvercommittedKnown(r, o, d);
    }
    CodesOf(r, d);
  }

  lemma CodesOf(r: Request, d: Diagnostic)
    ensures forall o :: ExceedsAt(r, o, d) ==> d.code == PinCapacityExceeded
    ensures forall o :: SurplusAt(r, o, d) ==> d.code == PinnedExceptionCapacityNotNeeded
  {
  }

  /** The report holds exactly the diagnostics that the request itself bears out. */
  lemma StaleIsReported(r: Request, d: Diagnostic)
    requires r.Valid()
    ensures Stale(r, d) <==> Reported(r, d)
  {
    hide Request.Valid, StaleExclusion, RepeatedExclusion, StaleException, RepeatedException, StalePin, Torn, Overcommitted;
    ExclusionReported(r, d);
    ExceptionReported(r, d);
    PinReported(r, d);
    TornReported(r, d);
    OverflowReported(r, d);
    hide Reported;
  }
}
