/** The check of pins, exclusions and exceptions that runs before a solve. */
module Constraints {
  import opened Contract
  import opened Placing
  import opened Diagnostics

  /** Dictionary lookup by identifier. */
  function FindParticipant(ps: seq<Participant>, id: string): (r: Option<Participant>)
    ensures r.Some? ==> r.value in ps && r.value.id == id
    ensures r.None? ==> forall p :: p in ps ==> p.id != id
  {
    if ps == [] then None
    else if ps[|ps| - 1].id == id then Some(ps[|ps| - 1])
    else FindParticipant(ps[..|ps| - 1], id)
  }

  function FindOffering(os: seq<Offering>, id: string): (r: Option<Offering>)
    ensures r.Some? ==> r.value in os && r.value.id == id
    ensures r.None? ==> forall o :: o in os ==> o.id != id
  {
    if os == [] then None
    else if os[|os| - 1].id == id then Some(os[|os| - 1])
    else FindOffering(os[..|os| - 1], id)
  }

  lemma FoundParticipant(r: Request, p: Participant)
    requires r.Valid() && p in r.participants
    ensures FindParticipant(r.participants, p.id) == Some(p)
  {
    var found := FindParticipant(r.participants, p.id);
    var i :| 0 <= i < |r.participants| && r.participants[i] == p;
    var j :| 0 <= j < |r.participants| && r.participants[j] == found.value;
    assert i == j;
  }

  lemma FoundOffering(r: Request, o: Offering)
    requires r.Valid() && o in r.offerings
    ensures FindOffering(r.offerings, o.id) == Some(o)
  {
    var found := FindOffering(r.offerings, o.id);
    var i :| 0 <= i < |r.offerings| && r.offerings[i] == o;
    var j :| 0 <= j < |r.offerings| && r.offerings[j] == found.value;
    assert i == j;
  }

  // ---- exclusions ----

  ghost predicate StaleExclusion(r: Request, e: Placement, d: Diagnostic) {
    || (e.participantId !in ParticipantIds(r) && d == PlacementDiagnostic(ExclusionParticipantNotParticipating, e.participantId, e.offeringId))
    || (e.offeringId !in OfferingIds(r) && d == PlacementDiagnostic(ExclusionOfferingNotFound, e.participantId, e.offeringId))
  }

  ghost predicate RepeatedExclusion(r: Request, e: Placement, d: Diagnostic) {
    multiset(r.exclusions)[e] > 1 && d == PlacementDiagnostic(ExclusionDuplicate, e.participantId, e.offeringId)
  }

  method ExclusionDiagnostics(r: Request) returns (diagnostics: seq<Diagnostic>, exclusionsByPair: multiset<Placement>)
    ensures exclusionsByPair == multiset(r.exclusions)
    ensures forall d :: d in diagnostics <==>
      exists e :: e in r.exclusions && (StaleExclusion(r, e, d) || RepeatedExclusion(r, e, d))
  {
    diagnostics, exclusionsByPair := [], multiset{};
    for i := 0 to |r.exclusions|
      invariant exclusionsByPair == multiset(r.exclusions[..i])
      invariant forall d :: d in diagnostics <==> exists k :: 0 <= k < i && StaleExclusion(r, r.exclusions[k], d)
    {
      var e := r.exclusions[i];
      assert r.exclusions[..i + 1] == r.exclusions[..i] + [e];
      exclusionsByPair := exclusionsByPair + multiset{e};
      if e.participantId !in ParticipantIds(r) {
        diagnostics := diagnostics + [PlacementDiagnostic(ExclusionParticipantNotParticipating, e.participantId, e.offeringId)];
      }
      if e.offeringId !in OfferingIds(r) {
        diagnostics := diagnostics + [PlacementDiagnostic(ExclusionOfferingNotFound, e.participantId, e.offeringId)];
      }
    }
    assert r.exclusions[..|r.exclusions|] == r.exclusions;
    ghost var stale := diagnostics;
    var todo := set e | e in exclusionsByPair;
    ghost var all := todo;
    while todo != {}
      invariant todo <= all
      invariant forall d :: d in diagnostics <==> d in stale || exists e :: e in all - todo && RepeatedExclusion(r, e, d)
    {
      var e :| e in todo;
      assert all - (todo - {e}) == all - todo + {e};
      if exclusionsByPair[e] > 1 {
        diagnostics := diagnostics + [PlacementDiagnostic(ExclusionDuplicate, e.participantId, e.offeringId)];
      }
      todo := todo - {e};
    }
  }

  // ---- authorised exceptions ----

  /** Why an exception is refused, if it is. Only a pinned pair may carry one, and only where a rule is broken. */
  ghost function ExceptionFault(r: Request, e: PinnedException): Option<Code> {
    var participant := FindParticipant(r.participants, e.participantId);
    var offering := FindOffering(r.offerings, e.offeringId);
    if (e.participantId, e.offeringId) !in PinPairs(r) then Some(PinnedExceptionPinNotFound)
    else if participant.None? then Some(PinnedExceptionParticipantNotParticipating)
    else if offering.None? then Some(PinnedExceptionOfferingNotFound)
    else if e.rule == GradeRule && GradeAllowed(participant.value, offering.value) then Some(PinnedExceptionGradeNotNeeded)
    else if e.rule == ExclusionRule && (e.participantId, e.offeringId) !in ExclusionPairs(r) then Some(PinnedExceptionExclusionNotNeeded)
    else None
  }

  ghost predicate StaleException(r: Request, e: PinnedException, d: Diagnostic) {
    ExceptionFault(r, e).Some? && d == PlacementDiagnostic(ExceptionFault(r, e).value, e.participantId, e.offeringId)
  }

  ghost predicate RepeatedException(r: Request, e: PinnedException, d: Diagnostic) {
    multiset(r.exceptions)[e] > 1 && d == PlacementDiagnostic(PinnedExceptionDuplicate, e.participantId, e.offeringId)
  }

  method ExceptionDiagnostics(r: Request, exclusionsByPair: multiset<Placement>)
    returns (diagnostics: seq<Diagnostic>, exceptionsByPairRule: multiset<PinnedException>)
    requires exclusionsByPair == multiset(r.exclusions)
    ensures exceptionsByPairRule == multiset(r.exceptions)
    ensures forall d :: d in diagnostics <==>
      exists e :: e in r.exceptions && (StaleException(r, e, d) || RepeatedException(r, e, d))
  {
    var pinsByPair := PinPairs(r);
    diagnostics, exceptionsByPairRule := [], multiset{};
    for i := 0 to |r.exceptions|
      invariant exceptionsByPairRule == multiset(r.exceptions[..i])
      invariant forall d :: d in diagnostics <==> exists k :: 0 <= k < i && StaleException(r, r.exceptions[k], d)
    {
      var e := r.exceptions[i];
      assert r.exceptions[..i + 1] == r.exceptions[..i] + [e];
      exceptionsByPairRule := exceptionsByPairRule + multiset{e};
      if (e.participantId, e.offeringId) !in pinsByPair {
        diagnostics := diagnostics + [PlacementDiagnostic(PinnedExceptionPinNotFound, e.participantId, e.offeringId)];
        continue;
      }
      ExclusionKnown(r, e.participantId, e.offeringId);
      var participant := FindParticipant(r.participants, e.participantId);
      var offering := FindOffering(r.offerings, e.offeringId);
      if participant.None? {
        diagnostics := diagnostics + [PlacementDiagnostic(PinnedExceptionParticipantNotParticipating, e.participantId, e.offeringId)];
      } else if offering.None? {
        diagnostics := diagnostics + [PlacementDiagnostic(PinnedExceptionOfferingNotFound, e.participantId, e.offeringId)];
      } else if e.rule == GradeRule && offering.value.minGrade <= participant.value.grade <= offering.value.maxGrade {
        diagnostics := diagnostics + [PlacementDiagnostic(PinnedExceptionGradeNotNeeded, e.participantId, e.offeringId)];
      } else if e.rule == ExclusionRule && Placement(e.participantId, e.offeringId) !in exclusionsByPair {
        diagnostics := diagnostics + [PlacementDiagnostic(PinnedExceptionExclusionNotNeeded, e.participantId, e.offeringId)];
      }
    }
    assert r.exceptions[..|r.exceptions|] == r.exceptions;
    ghost var stale := diagnostics;
    var todo := set e | e in exceptionsByPairRule;
    ghost var all := todo;
    while todo != {}
      invariant todo <= all
      invariant forall d :: d in diagnostics <==> d in stale || exists e :: e in all - todo && RepeatedException(r, e, d)
    {
      var e :| e in todo;
      assert all - (todo - {e}) == all - todo + {e};
      if exceptionsByPairRule[e] > 1 {
        diagnostics := diagnostics + [PlacementDiagnostic(PinnedExceptionDuplicate, e.participantId, e.offeringId)];
      }
      todo := todo - {e};
    }
  }

  lemma ExclusionKnown(r: Request, p: string, o: string)
    ensures (p, o) in ExclusionPairs(r) <==> Placement(p, o) in multiset(r.exclusions)
  {
    if Placement(p, o) in r.exclusions {
      assert (Placement(p, o).participantId, Placement(p, o).offeringId) in ExclusionPairs(r);
    }
  }

  lemma ExceptionKnown(r: Request, p: string, o: string, rule: Rule)
    ensures (p, o, rule) in ExceptionRules(r) <==> PinnedException(p, o, rule) in multiset(r.exceptions)
  {
    var e := PinnedException(p, o, rule);
    if e in r.exceptions {
      assert (e.participantId, e.offeringId, e.rule) in ExceptionRules(r);
    }
  }

  // ---- pins ----

  /** `pin` names a known participant and offering and breaks no unexcepted rule. */
  ghost predicate SoundPin(r: Request, pin: Placement) {
    var participant := FindParticipant(r.participants, pin.participantId);
    var offering := FindOffering(r.offerings, pin.offeringId);
    participant.Some? && offering.Some? && Eligible(r, participant.value, offering.value)
  }

  ghost predicate StalePin(r: Request, pin: Placement, d: Diagnostic) {
    var participant := FindParticipant(r.participants, pin.participantId);
    var offering := FindOffering(r.offerings, pin.offeringId);
    if participant.Some? && offering.Some? then
      if !GradeAllowed(participant.value, offering.value) && (pin.participantId, pin.offeringId, GradeRule) !in ExceptionRules(r) then
        d == PlacementDiagnostic(PinGradeOutOfRange, pin.participantId, pin.offeringId)
      else
        && (pin.participantId, pin.offeringId) in ExclusionPairs(r)
        && (pin.participantId, pin.offeringId, ExclusionRule) !in ExceptionRules(r)
        && d == PlacementDiagnostic(PinExcluded, pin.participantId, pin.offeringId)
    else
      || (participant.None? && d == PlacementDiagnostic(PinParticipantNotParticipating, pin.participantId, pin.offeringId))
      || (offering.None? && d == PlacementDiagnostic(PinOfferingNotFound, pin.participantId, pin.offeringId))
  }

  /** The sound pins among `pins` of one participant, in order. */
  ghost function SoundPinsOf(r: Request, pins: seq<Placement>, participant: string): seq<Placement> {
    if pins == [] then []
    else
      var last := pins[|pins| - 1];
      SoundPinsOf(r, pins[..|pins| - 1], participant)
      + (if SoundPin(r, last) && last.participantId == participant then [last] else [])
  }

  ghost predicate Torn(r: Request, participant: string, d: Diagnostic) {
    var pins := SoundPinsOf(r, r.pins, participant);
    && |pins| > 1
    && d == Diagnostic(PinConflictingPlacement, GlobalConflict, {participant}, set pin | pin in pins :: pin.offeringId, None, None)
  }

  ghost predicate Grouped(m: map<string, seq<Placement>>, key: string, group: seq<Placement>) {
    if key in m then group != [] && m[key] == group else group == []
  }

  /** One pin's turn: what it is reported for, and whether it goes on to be counted for its participant. */
  method CheckPin(r: Request, pin: Placement, exclusionsByPair: multiset<Placement>, exceptionsByPairRule: multiset<PinnedException>)
    returns (found: seq<Diagnostic>, sound: bool)
    requires exclusionsByPair == multiset(r.exclusions) && exceptionsByPairRule == multiset(r.exceptions)
    ensures forall d :: d in found <==> StalePin(r, pin, d)
    ensures sound == SoundPin(r, pin)
  {
    ExclusionKnown(r, pin.participantId, pin.offeringId);
    ExceptionKnown(r, pin.participantId, pin.offeringId, GradeRule);
    ExceptionKnown(r, pin.participantId, pin.offeringId, ExclusionRule);
    found, sound := [], false;
    var participant := FindParticipant(r.participants, pin.participantId);
    var offering := FindOffering(r.offerings, pin.offeringId);
    if participant.None? {
      found := found + [PlacementDiagnostic(PinParticipantNotParticipating, pin.participantId, pin.offeringId)];
    }
    if offering.None? {
      found := found + [PlacementDiagnostic(PinOfferingNotFound, pin.participantId, pin.offeringId)];
    }
    if participant.None? || offering.None? {
      return;
    }
    if !(offering.value.minGrade <= participant.value.grade <= offering.value.maxGrade)
       && PinnedException(pin.participantId, pin.offeringId, GradeRule) !in exceptionsByPairRule {
      found := found + [PlacementDiagnostic(PinGradeOutOfRange, pin.participantId, pin.offeringId)];
      return;
    }
    if Placement(pin.participantId, pin.offeringId) in exclusionsByPair
       && PinnedException(pin.participantId, pin.offeringId, ExclusionRule) !in exceptionsByPairRule {
      found := found + [PlacementDiagnostic(PinExcluded, pin.participantId, pin.offeringId)];
      return;
    }
    sound := true;
  }

  lemma NoSoundPins(r: Request)
    ensures forall p :: Grouped(map[], p, SoundPinsOf(r, [], p))
  {
  }

  function Joined(m: map<string, seq<Placement>>, pin: Placement): map<string, seq<Placement>> {
    m[pin.participantId := (if pin.participantId in m then m[pin.participantId] else []) + [pin]]
  }

  /** A sound pin joins its participant's group, and no other group changes. */
  lemma SoundJoins(r: Request, pins: seq<Placement>, pin: Placement, m: map<string, seq<Placement>>, p: string)
    requires Grouped(m, p, SoundPinsOf(r, pins, p))
    ensures SoundPin(r, pin) ==> Grouped(Joined(m, pin), p, SoundPinsOf(r, pins + [pin], p))
    ensures !SoundPin(r, pin) ==> Grouped(m, p, SoundPinsOf(r, pins + [pin], p))
  {
    hide SoundPin;
    assert (pins + [pin])[..|pins|] == pins;
  }

  method PinDiagnostics(r: Request, exclusionsByPair: multiset<Placement>, exceptionsByPairRule: multiset<PinnedException>)
    returns (diagnostics: seq<Diagnostic>)
    requires exclusionsByPair == multiset(r.exclusions) && exceptionsByPairRule == multiset(r.exceptions)
    ensures forall d :: d in diagnostics <==>
      (exists pin :: pin in r.pins && StalePin(r, pin, d)) || (exists p :: Torn(r, p, d))
  {
    hide StalePin, SoundPin, Torn, SoundPinsOf, Grouped, Joined;
    diagnostics := [];
    NoSoundPins(r);
    var pinsByParticipant: map<string, seq<Placement>> := map[];
    for i := 0 to |r.pins|
      invariant forall d :: d in diagnostics <==> exists k :: 0 <= k < i && StalePin(r, r.pins[k], d)
      invariant forall p :: Grouped(pinsByParticipant, p, SoundPinsOf(r, r.pins[..i], p))
    {
      var pin := r.pins[i];
      assert r.pins[..i + 1] == r.pins[..i] + [pin];
      forall p
        ensures SoundPin(r, pin) ==> Grouped(Joined(pinsByParticipant, pin), p, SoundPinsOf(r, r.pins[..i] + [pin], p))
        ensures !SoundPin(r, pin) ==> Grouped(pinsByParticipant, p, SoundPinsOf(r, r.pins[..i] + [pin], p))
      {
        SoundJoins(r, r.pins[..i], pin, pinsByParticipant, p);
      }
      var found, sound := CheckPin(r, pin, exclusionsByPair, exceptionsByPairRule);
      diagnostics := diagnostics + found;
      if sound {
        pinsByParticipant := Joined(pinsByParticipant, pin);
      }
    }
    assert r.pins[..|r.pins|] == r.pins;
    var conflicts := ConflictingPins(r, pinsByParticipant);
    diagnostics := diagnostics + conflicts;
  }

  method ConflictingPins(r: Request, pinsByParticipant: map<string, seq<Placement>>) returns (diagnostics: seq<Diagnostic>)
    requires forall p :: Grouped(pinsByParticipant, p, SoundPinsOf(r, r.pins, p))
    ensures forall d :: d in diagnostics <==> exists p :: Torn(r, p, d)
  {
    hide SoundPinsOf;
    diagnostics := [];
    var todo := pinsByParticipant.Keys;
    while todo != {}
      invariant todo <= pinsByParticipant.Keys
      invariant forall d :: d in diagnostics <==> exists p :: p in pinsByParticipant.Keys - todo && Torn(r, p, d)
    {
      var p :| p in todo;
      assert pinsByParticipant.Keys - (todo - {p}) == pinsByParticipant.Keys - todo + {p};
      assert Grouped(pinsByParticipant, p, SoundPinsOf(r, r.pins, p));
      if |pinsByParticipant[p]| > 1 {
        diagnostics := diagnostics + [Diagnostic(PinConflictingPlacement, GlobalConflict, {p},
                                                 set pin | pin in pinsByParticipant[p] :: pin.offeringId, None, None)];
      }
      todo := todo - {p};
    }
    forall p, d | Torn(r, p, d)
      ensures p in pinsByParticipant
    {
      assert Grouped(pinsByParticipant, p, SoundPinsOf(r, r.pins, p));
    }
  }

  // ---- pinned overflow ----

  ghost predicate KnownPin(r: Request, pin: Placement) {
    pin.participantId in ParticipantIds(r) && pin.offeringId in OfferingIds(r)
  }

  ghost function KnownPinsOf(r: Request, pins: seq<Placement>, offering: string): seq<Placement> {
    if pins == [] then []
    else
      var last := pins[|pins| - 1];
      KnownPinsOf(r, pins[..|pins| - 1], offering)
      + (if KnownPin(r, last) && last.offeringId == offering then [last] else [])
  }

  /** The capacity exceptions granted to `offering` on pinned pairs, in order. */
  function CapacityExceptions(r: Request, exceptions: seq<PinnedException>, offering: string): seq<PinnedException> {
    if exceptions == [] then []
    else
      var last := exceptions[|exceptions| - 1];
      CapacityExceptions(r, exceptions[..|exceptions| - 1], offering)
      + (if last.offeringId == offering && last.rule == CapacityRule && (last.participantId, last.offeringId) in PinPairs(r) then [last] else [])
  }

  /** The pins of `offering` and its capacity exceptions disagree about how far it overflows. */
  ghost predicate Overcommitted(r: Request, offering: string, d: Diagnostic) {
    var pins := KnownPinsOf(r, r.pins, offering);
    var found := FindOffering(r.offerings, offering);
    pins != [] && found.Some? &&
    var required := Max(0, |pins| - found.value.capacity);
    var granted := CapacityExceptions(r, r.exceptions, offering);
    if |granted| < required then
      d == Diagnostic(PinCapacityExceeded, GlobalConflict, (set pin | pin in pins :: pin.participantId), {offering},
                      Some(|pins|), Some(found.value.capacity + |granted|))
    else
      exists e :: e in granted[required..] && d == PlacementDiagnostic(PinnedExceptionCapacityNotNeeded, e.participantId, e.offeringId)
  }

  /** One offering's turn. */
  method CheckOverflow(r: Request, o: string, offeringPins: seq<Placement>) returns (found: seq<Diagnostic>)
    requires offeringPins == KnownPinsOf(r, r.pins, o) && offeringPins != []
    ensures forall d :: d in found <==> Overcommitted(r, o, d)
  {
    hide KnownPinsOf, CapacityExceptions;
    KnownPinsKnown(r, r.pins, o);
    var capacity := FindOffering(r.offerings, o).value.capacity;
    var required := Max(0, |offeringPins| - capacity);
    var granted := CapacityExceptions(r, r.exceptions, o);
    if |granted| < required {
      return [Diagnostic(PinCapacityExceeded, GlobalConflict, (set pin | pin in offeringPins :: pin.participantId), {o},
                         Some(|offeringPins|), Some(capacity + |granted|))];
    }
    found := [];
    var surplus := granted[required..];
    for j := 0 to |surplus|
      invariant forall d :: d in found <==>
        exists k :: 0 <= k < j && d == PlacementDiagnostic(PinnedExceptionCapacityNotNeeded, surplus[k].participantId, surplus[k].offeringId)
    {
      found := found + [PlacementDiagnostic(PinnedExceptionCapacityNotNeeded, surplus[j].participantId, surplus[j].offeringId)];
    }
  }

  method OverflowDiagnostics(r: Request) returns (diagnostics: seq<Diagnostic>)
    ensures forall d :: d in diagnostics <==> exists o :: Overcommitted(r, o, d)
  {
    diagnostics := [];
    var pinsByOffering: map<string, seq<Placement>> := map[];
    for i := 0 to |r.pins|
      invariant forall o :: Grouped(pinsByOffering, o, KnownPinsOf(r, r.pins[..i], o))
    {
      var pin := r.pins[i];
      assert r.pins[..i + 1][..i] == r.pins[..i];
      if pin.participantId in ParticipantIds(r) && pin.offeringId in OfferingIds(r) {
        pinsByOffering := pinsByOffering[pin.offeringId :=
                                           (if pin.offeringId in pinsByOffering then pinsByOffering[pin.offeringId] else []) + [pin]];
      }
    }
    assert r.pins[..|r.pins|] == r.pins;
    forall o, d | Overcommitted(r, o, d)
      ensures o in pinsByOffering
    {
      assert Grouped(pinsByOffering, o, KnownPinsOf(r, r.pins, o));
    }
    var todo := pinsByOffering.Keys;
    while todo != {}
      invariant todo <= pinsByOffering.Keys
      invariant forall d :: d in diagnostics <==> exists o :: o in pinsByOffering.Keys - todo && Overcommitted(r, o, d)
    {
      var o :| o in todo;
      assert pinsByOffering.Keys - (todo - {o}) == pinsByOffering.Keys - todo + {o};
      assert Grouped(pinsByOffering, o, KnownPinsOf(r, r.pins, o));
      var found := CheckOverflow(r, o, pinsByOffering[o]);
      diagnostics := diagnostics + found;
      todo := todo - {o};
    }
  }

  lemma {:induction false} KnownPinsKnown(r: Request, pins: seq<Placement>, offering: string)
    ensures KnownPinsOf(r, pins, offering) != [] ==> FindOffering(r.offerings, offering).Some?
  {
    if pins != [] {
      KnownPinsKnown(r, pins[..|pins| - 1], offering);
      if FindOffering(r.offerings, offering).None? {
        assert offering !in OfferingIds(r);
      }
    }
  }

  /** Everything the check reports about `r`. */
  ghost predicate Stale(r: Request, d: Diagnostic) {
    || (exists e :: e in r.exclusions && (StaleExclusion(r, e, d) || RepeatedExclusion(r, e, d)))
    || (exists e :: e in r.exceptions && (StaleException(r, e, d) || RepeatedException(r, e, d)))
    || (exists pin :: pin in r.pins && StalePin(r, pin, d))
    || (exists p :: Torn(r, p, d))
    || (exists o :: Overcommitted(r, o, d))
  }

  method ConstraintDiagnostics(r: Request) returns (diagnostics: seq<Diagnostic>)
    requires r.Valid()
    ensures forall d :: d in diagnostics <==> Stale(r, d)
    ensures diagnostics == [] <==> Clean(r)
  {
    hide StaleExclusion, RepeatedExclusion, StaleException, RepeatedException, StalePin, Torn, Overcommitted, Clean;
    var aboutExclusions, exclusionsByPair := ExclusionDiagnostics(r);
    var aboutExceptions, exceptionsByPairRule := ExceptionDiagnostics(r, exclusionsByPair);
    var aboutPins := PinDiagnostics(r, exclusionsByPair, exceptionsByPairRule);
    var aboutOverflow := OverflowDiagnostics(r);
    diagnostics := aboutExclusions + aboutExceptions + aboutPins + aboutOverflow;
    NothingStale(r);
    assert diagnostics == [] <==> forall d :: d !in diagnostics by {
      if diagnostics != [] {
        assert diagnostics[0] in diagnostics;
      }
    }
  }

  // ---- what an empty report means ----

  ghost predicate CleanExclusions(r: Request) {
    forall e :: e in r.exclusions ==>
      e.participantId in ParticipantIds(r) && e.offeringId in OfferingIds(r) && multiset(r.exclusions)[e] == 1
  }

  /** Exceptions sit on pinned pairs only, once per rule, and never where the pin breaks no such rule. */
  ghost predicate CleanExceptions(r: Request) {
    forall e :: e in r.exceptions ==>
      && multiset(r.exceptions)[e] == 1
      && (e.participantId, e.offeringId) in PinPairs(r)
      && (e.rule == GradeRule ==> forall p, o :: p in r.participants && o in r.offerings && p.id == e.participantId && o.id == e.offeringId ==> !GradeAllowed(p, o))
      && (e.rule == ExclusionRule ==> (e.participantId, e.offeringId) in ExclusionPairs(r))
  }

  /** Every pin has a decision variable and nobody has two pins. */
  ghost predicate CleanPins(r: Request) {
    && (forall pin :: pin in r.pins ==> Decision(r, (pin.participantId, pin.offeringId)))
    && (forall i, j :: 0 <= i < j < |r.pins| ==> r.pins[i].participantId != r.pins[j].participantId)
  }

  /** Each offering has exactly as many capacity exceptions as pins beyond its capacity. */
  ghost predicate CleanOverflow(r: Request) {
    forall o :: o in r.offerings ==> |CapacityExceptions(r, r.exceptions, o.id)| == Max(0, PinCount(r.pins, o.id) - o.capacity)
  }

  ghost predicate Clean(r: Request) {
    CleanExclusions(r) && CleanExceptions(r) && CleanPins(r) && CleanOverflow(r)
  }

  lemma NoStaleExclusion(r: Request)
    ensures (forall e, d :: e in r.exclusions ==> !StaleExclusion(r, e, d) && !RepeatedExclusion(r, e, d)) <==> CleanExclusions(r)
  {
    forall e | e in r.exclusions
      ensures (forall d :: !StaleExclusion(r, e, d) && !RepeatedExclusion(r, e, d)) <==>
              e.participantId in ParticipantIds(r) && e.offeringId in OfferingIds(r) && multiset(r.exclusions)[e] == 1
    {
      var ds := [PlacementDiagnostic(ExclusionParticipantNotParticipating, e.participantId, e.offeringId),
                 PlacementDiagnostic(ExclusionOfferingNotFound, e.participantId, e.offeringId),
                 PlacementDiagnostic(ExclusionDuplicate, e.participantId, e.offeringId)];
      assert StaleExclusion(r, e, ds[0]) || e.participantId in ParticipantIds(r);
      assert StaleExclusion(r, e, ds[1]) || e.offeringId in OfferingIds(r);
      assert RepeatedExclusion(r, e, ds[2]) || multiset(r.exclusions)[e] <= 1;
      assert e in multiset(r.exclusions);
    }
  }

  lemma NoStaleException(r: Request)
    ensures (forall e, d :: e in r.exceptions ==> !StaleException(r, e, d) && !RepeatedException(r, e, d)) <==>
            (forall e :: e in r.exceptions ==> ExceptionFault(r, e).None? && multiset(r.exceptions)[e] == 1)
  {
    forall e | e in r.exceptions
      ensures (forall d :: !StaleException(r, e, d) && !RepeatedException(r, e, d)) <==>
              ExceptionFault(r, e).None? && multiset(r.exceptions)[e] == 1
    {
      if ExceptionFault(r, e).Some? {
        assert StaleException(r, e, PlacementDiagnostic(ExceptionFault(r, e).value, e.participantId, e.offeringId));
      }
      assert RepeatedException(r, e, PlacementDiagnostic(PinnedExceptionDuplicate, e.participantId, e.offeringId)) || multiset(r.exceptions)[e] <= 1;
      assert e in multiset(r.exceptions);
    }
  }

  lemma NoStalePin(r: Request)
    requires r.Valid()
    ensures (forall pin, d :: pin in r.pins ==> !StalePin(r, pin, d)) <==>
            (forall pin :: pin in r.pins ==> Decision(r, (pin.participantId, pin.offeringId)))
    ensures forall pin :: SoundPin(r, pin) <==> Decision(r, (pin.participantId, pin.offeringId))
  {
    forall pin
      ensures SoundPin(r, pin) <==> Decision(r, (pin.participantId, pin.offeringId))
      ensures (forall d :: !StalePin(r, pin, d)) <==> SoundPin(r, pin)
    {
      if Decision(r, (pin.participantId, pin.offeringId)) {
        var p, o :| p in r.participants && o in r.offerings && (pin.participantId, pin.offeringId) == (p.id, o.id) && Eligible(r, p, o);
        FoundParticipant(r, p);
        FoundOffering(r, o);
      }
      var codes := [PinParticipantNotParticipating, PinOfferingNotFound, PinGradeOutOfRange, PinExcluded];
      forall i | 0 <= i < 4
        ensures StalePin(r, pin, PlacementDiagnostic(codes[i], pin.participantId, pin.offeringId)) ==> !SoundPin(r, pin)
      {
      }
      assert SoundPin(r, pin) || exists i :: 0 <= i < 4 && StalePin(r, pin, PlacementDiagnostic(codes[i], pin.participantId, pin.offeringId)) by {
        var participant := FindParticipant(r.participants, pin.participantId);
        var offering := FindOffering(r.offerings, pin.offeringId);
        var i := if participant.None? then 0 else if offering.None? then 1
                 else if !GradeAllowed(participant.value, offering.value) && (pin.participantId, pin.offeringId, GradeRule) !in ExceptionRules(r) then 2 else 3;
        assert SoundPin(r, pin) || StalePin(r, pin, PlacementDiagnostic(codes[i], pin.participantId, pin.offeringId));
      }
    }
  }

  ghost predicate PinnedTwice(pins: seq<Placement>, p: string) {
    exists i, j :: 0 <= i < j < |pins| && pins[i].participantId == p && pins[j].participantId == p
  }

  /** Two sound pins of one participant are two entries of the list. */
  lemma {:induction false} TornPins(r: Request, pins: seq<Placement>, p: string)
    requires forall pin :: pin in pins ==> SoundPin(r, pin)
    ensures |SoundPinsOf(r, pins, p)| > 0 <==> exists i :: 0 <= i < |pins| && pins[i].participantId == p
    ensures |SoundPinsOf(r, pins, p)| > 1 <==> PinnedTwice(pins, p)
  {
    if pins != [] {
      var n := |pins| - 1;
      TornPins(r, pins[..n], p);
      assert pins[n] in pins;
    }
  }

  lemma NoTornPins(r: Request)
    requires forall pin :: pin in r.pins ==> SoundPin(r, pin)
    ensures (forall p, d :: !Torn(r, p, d)) <==>
            (forall i, j :: 0 <= i < j < |r.pins| ==> r.pins[i].participantId != r.pins[j].participantId)
  {
    forall p, d | Torn(r, p, d)
      ensures PinnedTwice(r.pins, p)
    {
      TornPins(r, r.pins, p);
    }
    forall p | PinnedTwice(r.pins, p)
      ensures exists d :: Torn(r, p, d)
    {
      TornPins(r, r.pins, p);
      var pins := SoundPinsOf(r, r.pins, p);
      assert Torn(r, p, Diagnostic(PinConflictingPlacement, GlobalConflict, {p}, set pin | pin in pins :: pin.offeringId, None, None));
    }
    forall i, j | 0 <= i < j < |r.pins| && r.pins[i].participantId == r.pins[j].participantId
      ensures PinnedTwice(r.pins, r.pins[i].participantId)
    {
    }
  }

  lemma {:induction false} AllKnownPins(r: Request, pins: seq<Placement>, o: string)
    requires forall pin :: pin in pins ==> KnownPin(r, pin)
    ensures |KnownPinsOf(r, pins, o)| == PinCount(pins, o)
  {
    if pins != [] {
      AllKnownPins(r, pins[..|pins| - 1], o);
      assert pins[|pins| - 1] in pins;
    }
  }

  lemma {:induction false} PinCountPositive(pins: seq<Placement>, o: string)
    ensures PinCount(pins, o) > 0 <==> exists pin :: pin in pins && pin.offeringId == o
  {
    if pins != [] {
      PinCountPositive(pins[..|pins| - 1], o);
      assert pins == pins[..|pins| - 1] + [pins[|pins| - 1]];
    }
  }

  lemma {:induction false} GrantedPinned(r: Request, exceptions: seq<PinnedException>, o: string)
    ensures CapacityExceptions(r, exceptions, o) != [] ==> exists pin :: pin in r.pins && pin.offeringId == o
  {
    if exceptions != [] {
      GrantedPinned(r, exceptions[..|exceptions| - 1], o);
    }
  }

  /** An offering is not overcommitted exactly when its capacity exceptions match its overflow. */
  lemma OfferingBalanced(r: Request, o: Offering)
    requires r.Valid() && o in r.offerings && forall pin :: pin in r.pins ==> KnownPin(r, pin)
    ensures (forall d :: !Overcommitted(r, o.id, d)) <==>
            |CapacityExceptions(r, r.exceptions, o.id)| == Max(0, PinCount(r.pins, o.id) - o.capacity)
  {
    hide KnownPinsOf, CapacityExceptions, PinCount, Request.Valid, KnownPin;
    FoundOffering(r, o);
    AllKnownPins(r, r.pins, o.id);
    PinCountPositive(r.pins, o.id);
    GrantedPinned(r, r.exceptions, o.id);
    var pins, granted := KnownPinsOf(r, r.pins, o.id), CapacityExceptions(r, r.exceptions, o.id);
    var required := Max(0, |pins| - o.capacity);
    if pins != [] && |granted| < required {
      assert Overcommitted(r, o.id, Diagnostic(PinCapacityExceeded, GlobalConflict, (set pin | pin in pins :: pin.participantId), {o.id},
                                               Some(|pins|), Some(o.capacity + |granted|)));
    } else if pins != [] && |granted| > required {
      var e := granted[required..][0];
      assert Overcommitted(r, o.id, PlacementDiagnostic(PinnedExceptionCapacityNotNeeded, e.participantId, e.offeringId));
    }
  }

  lemma OvercommittedKnown(r: Request, o: string, d: Diagnostic)
    requires r.Valid() && Overcommitted(r, o, d)
    ensures exists offering :: offering in r.offerings && offering.id == o
  {
    hide KnownPinsOf, CapacityExceptions;
  }

  lemma NoOverflow(r: Request)
    requires r.Valid() && forall pin :: pin in r.pins ==> KnownPin(r, pin)
    ensures (forall o, d :: !Overcommitted(r, o, d)) <==> CleanOverflow(r)
  {
    hide Overcommitted, CapacityExceptions, PinCount, KnownPin, Request.Valid;
    forall o | o in r.offerings
      ensures (forall d :: !Overcommitted(r, o.id, d)) <==>
              |CapacityExceptions(r, r.exceptions, o.id)| == Max(0, PinCount(r.pins, o.id) - o.capacity)
    {
      OfferingBalanced(r, o);
    }
    forall o, d | Overcommitted(r, o, d)
      ensures exists offering :: offering in r.offerings && offering.id == o
    {
      OvercommittedKnown(r, o, d);
    }
  }

  lemma CleanExceptionFaults(r: Request)
    requires r.Valid() && forall pin :: pin in r.pins ==> SoundPin(r, pin)
    ensures (forall e :: e in r.exceptions ==> ExceptionFault(r, e).None? && multiset(r.exceptions)[e] == 1) <==> CleanExceptions(r)
  {
    forall e | e in r.exceptions && (e.participantId, e.offeringId) in PinPairs(r)
      ensures ExceptionFault(r, e).None? <==>
              && (e.rule == GradeRule ==> forall p, o :: p in r.participants && o in r.offerings && p.id == e.participantId && o.id == e.offeringId ==> !GradeAllowed(p, o))
              && (e.rule == ExclusionRule ==> (e.participantId, e.offeringId) in ExclusionPairs(r))
    {
      var pin :| pin in r.pins && (pin.participantId, pin.offeringId) == (e.participantId, e.offeringId);
      assert SoundPin(r, pin);
      forall p, o | p in r.participants && o in r.offerings && p.id == e.participantId && o.id == e.offeringId
        ensures FindParticipant(r.participants, e.participantId) == Some(p) && FindOffering(r.offerings, e.offeringId) == Some(o)
      {
        FoundParticipant(r, p);
        FoundOffering(r, o);
      }
    }
  }

  /** The report is empty exactly for a clean request. */
  lemma NothingStale(r: Request)
    requires r.Valid()
    ensures (forall d :: !Stale(r, d)) <==> Clean(r)
  {
    NoStaleExclusion(r);
    NoStaleException(r);
    NoStalePin(r);
    if forall pin :: pin in r.pins ==> SoundPin(r, pin) {
      NoTornPins(r);
      CleanExceptionFaults(r);
      forall pin | pin in r.pins
        ensures KnownPin(r, pin)
      {
        assert SoundPin(r, pin);
      }
      NoOverflow(r);
    }
    SplitStale(r);
  }

  lemma SplitStale(r: Request)
    ensures (forall d :: !Stale(r, d)) <==>
            && (forall e, d :: e in r.exclusions ==> !StaleExclusion(r, e, d) && !RepeatedExclusion(r, e, d))
            && (forall e, d :: e in r.exceptions ==> !StaleException(r, e, d) && !RepeatedException(r, e, d))
            && (forall pin, d :: pin in r.pins ==> !StalePin(r, pin, d))
            && (forall p, d :: !Torn(r, p, d))
            && (forall o, d :: !Overcommitted(r, o, d))
  {
    hide StaleExclusion, RepeatedExclusion, StaleException, RepeatedException, StalePin, Torn, Overcommitted;
    if forall d :: !Stale(r, d) {
      forall e, d | e in r.exclusions
        ensures !StaleExclusion(r, e, d) && !RepeatedExclusion(r, e, d)
      {
        assert !Stale(r, d);
      }
      forall e, d | e in r.exceptions
        ensures !StaleException(r, e, d) && !RepeatedException(r, e, d)
      {
        assert !Stale(r, d);
      }
      forall pin, d | pin in r.pins
        ensures !StalePin(r, pin, d)
      {
        assert !Stale(r, d);
      }
      forall p, d
        ensures !Torn(r, p, d) && !Overcommitted(r, p, d)
      {
        assert !Stale(r, d);
      }
    }
  }
}
