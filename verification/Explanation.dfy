/** The seats left after pins, and why they decide whether a clean request can be placed at all. */
module Explanation {
  import opened Contract
  import opened Placing
  import opened Constraints
  import opened Matching
  import opened SeatCounting

  /** The offerings among `os` that `p` may take, in order. */
  function EligibleOfferings(r: Request, os: seq<Offering>, p: Participant): seq<string> {
    if os == [] then []
    else
      var last := os[|os| - 1];
      EligibleOfferings(r, os[..|os| - 1], p) + (if Eligible(r, p, last) then [last.id] else [])
  }

  /** The unpinned participants among `ps` that may sit anywhere at all, and where. */
  function FreeEligible(r: Request, ps: seq<Participant>): map<string, seq<string>> {
    if ps == [] then map[]
    else
      var last := ps[|ps| - 1];
      var rest := FreeEligible(r, ps[..|ps| - 1]);
      var eligible := EligibleOfferings(r, r.offerings, last);
      if last.id in PinnedParticipants(r) || eligible == [] then rest else rest[last.id := eligible]
  }

  /** What each offering has left once its pins are seated. A capacity exception adds no ordinary seat. */
  function RemainingSeats(r: Request, os: seq<Offering>): map<string, nat> {
    if os == [] then map[]
    else
      var last := os[|os| - 1];
      RemainingSeats(r, os[..|os| - 1])[last.id := Max(0, last.capacity - PinCount(r.pins, last.id))]
  }

  function FreeGraph(r: Request): Graph {
    Graph(FreeEligible(r, r.participants), RemainingSeats(r, r.offerings))
  }

  lemma {:induction false} EligibleOfferingsMeaning(r: Request, os: seq<Offering>, p: Participant)
    ensures forall id :: id in EligibleOfferings(r, os, p) <==> exists o :: o in os && o.id == id && Eligible(r, p, o)
  {
    if os != [] {
      var n := |os| - 1;
      EligibleOfferingsMeaning(r, os[..n], p);
      assert os == os[..n] + [os[n]];
    }
  }

  lemma {:induction false} RemainingSeatsKeys(r: Request, os: seq<Offering>)
    ensures RemainingSeats(r, os).Keys == set o | o in os :: o.id
  {
    if os != [] {
      var n := |os| - 1;
      RemainingSeatsKeys(r, os[..n]);
      assert os == os[..n] + [os[n]];
    }
  }

  lemma {:induction false} RemainingSeatsAt(r: Request, os: seq<Offering>, i: nat)
    requires i < |os| && forall j :: i < j < |os| ==> os[i].id != os[j].id
    ensures os[i].id in RemainingSeats(r, os)
    ensures RemainingSeats(r, os)[os[i].id] == Max(0, os[i].capacity - PinCount(r.pins, os[i].id))
  {
    if i < |os| - 1 {
      RemainingSeatsAt(r, os[..|os| - 1], i);
    }
  }

  lemma {:induction false} FreeEligibleKeys(r: Request, ps: seq<Participant>)
    ensures forall id :: id in FreeEligible(r, ps) ==> id !in PinnedParticipants(r) && exists p :: p in ps && p.id == id
  {
    if ps != [] {
      var n := |ps| - 1;
      FreeEligibleKeys(r, ps[..n]);
      assert ps == ps[..n] + [ps[n]];
    }
  }

  lemma {:induction false} FreeEligibleAt(r: Request, ps: seq<Participant>, i: nat)
    requires i < |ps| && forall j :: 0 <= j < |ps| && j != i ==> ps[i].id != ps[j].id
    ensures ps[i].id in FreeEligible(r, ps) <==> ps[i].id !in PinnedParticipants(r) && EligibleOfferings(r, r.offerings, ps[i]) != []
    ensures ps[i].id in FreeEligible(r, ps) ==> FreeEligible(r, ps)[ps[i].id] == EligibleOfferings(r, r.offerings, ps[i])
  {
    if i < |ps| - 1 {
      FreeEligibleAt(r, ps[..|ps| - 1], i);
    } else {
      FreeEligibleKeys(r, ps[..i]);
    }
  }

  lemma RemainingMeaning(r: Request)
    requires r.Valid()
    ensures FreeGraph(r).remaining.Keys == OfferingIds(r)
    ensures forall o :: o in r.offerings ==> FreeGraph(r).remaining[o.id] == Max(0, o.capacity - PinCount(r.pins, o.id))
  {
    RemainingSeatsKeys(r, r.offerings);
    forall o | o in r.offerings
      ensures FreeGraph(r).remaining[o.id] == Max(0, o.capacity - PinCount(r.pins, o.id))
    {
      var i :| 0 <= i < |r.offerings| && r.offerings[i] == o;
      RemainingSeatsAt(r, r.offerings, i);
    }
  }

  lemma EligibleMeaning(r: Request, p: Participant)
    requires r.Valid() && p in r.participants
    ensures forall o :: o in EligibleOfferings(r, r.offerings, p) <==> Decision(r, (p.id, o))
    ensures p.id in FreeGraph(r).eligible <==> p.id !in PinnedParticipants(r) && exists o :: Decision(r, (p.id, o))
    ensures p.id in FreeGraph(r).eligible ==> FreeGraph(r).eligible[p.id] == EligibleOfferings(r, r.offerings, p)
  {
    EligibleOfferingsMeaning(r, r.offerings, p);
    forall o | Decision(r, (p.id, o))
      ensures o in EligibleOfferings(r, r.offerings, p)
    {
      var q, offering :| q in r.participants && offering in r.offerings && (p.id, o) == (q.id, offering.id) && Eligible(r, q, offering);
      FoundParticipant(r, p);
      FoundParticipant(r, q);
    }
    var i :| 0 <= i < |r.participants| && r.participants[i] == p;
    FreeEligibleAt(r, r.participants, i);
    var os := EligibleOfferings(r, r.offerings, p);
    if os != [] {
      assert os[0] in os;
    }
  }

  lemma DecisionOffers(r: Request, id: string, o: string)
    requires Decision(r, (id, o))
    ensures o in OfferingIds(r)
  {
  }

  lemma FreeEligibleMeaning(r: Request)
    requires r.Valid()
    ensures FreeGraph(r).eligible.Keys <= ParticipantIds(r) - PinnedParticipants(r)
    ensures forall id, o :: id in FreeGraph(r).eligible ==>
      (o in FreeGraph(r).eligible[id] <==> Decision(r, (id, o)))
    ensures forall id :: id in ParticipantIds(r) && id !in PinnedParticipants(r) ==>
      (id in FreeGraph(r).eligible <==> exists o :: Decision(r, (id, o)))
  {
    hide Decision, FreeEligible, RemainingSeats, EligibleOfferings, PinnedParticipants, Request.Valid;
    FreeEligibleKeys(r, r.participants);
    forall p | p in r.participants
      ensures p.id in FreeGraph(r).eligible <==> p.id !in PinnedParticipants(r) && exists o :: Decision(r, (p.id, o))
      ensures forall o :: p.id in FreeGraph(r).eligible ==> (o in FreeGraph(r).eligible[p.id] <==> Decision(r, (p.id, o)))
    {
      EligibleMeaning(r, p);
    }
  }

  /** `id` is free to sit in `o`: unpinned, and allowed there. */
  lemma FreeGraphMeaning(r: Request)
    requires r.Valid()
    ensures FreeGraph(r).Valid()
    ensures FreeGraph(r).remaining.Keys == OfferingIds(r)
    ensures forall o :: o in r.offerings ==> FreeGraph(r).remaining[o.id] == Max(0, o.capacity - PinCount(r.pins, o.id))
    ensures FreeGraph(r).eligible.Keys <= ParticipantIds(r) - PinnedParticipants(r)
    ensures forall id, o :: id in FreeGraph(r).eligible ==>
      (o in FreeGraph(r).eligible[id] <==> Decision(r, (id, o)))
    ensures forall id :: id in ParticipantIds(r) && id !in PinnedParticipants(r) ==>
      (id in FreeGraph(r).eligible <==> exists o :: Decision(r, (id, o)))
  {
    hide Decision, FreeGraph, PinnedParticipants, ParticipantIds, OfferingIds, Request.Valid;
    RemainingMeaning(r);
    FreeEligibleMeaning(r);
    forall p, o | p in FreeGraph(r).eligible && o in FreeGraph(r).eligible[p]
      ensures o in FreeGraph(r).remaining
    {
      DecisionOffers(r, p, o);
    }
  }

  /** Who is pinned to `offering`. */
  ghost function PinnedAt(pins: seq<Placement>, offering: string): set<string> {
    set pin | pin in pins && pin.offeringId == offering :: pin.participantId
  }

  lemma {:induction false} PinnedAtSize(pins: seq<Placement>, offering: string)
    requires forall i, j :: 0 <= i < j < |pins| ==> pins[i].participantId != pins[j].participantId
    ensures |PinnedAt(pins, offering)| == PinCount(pins, offering)
  {
    if pins == [] {
      assert PinnedAt(pins, offering) == {};
    } else {
      var n := |pins| - 1;
      PinnedAtSize(pins[..n], offering);
      assert pins == pins[..n] + [pins[n]];
      assert pins[n].participantId !in PinnedAt(pins[..n], offering);
      assert PinnedAt(pins, offering) == PinnedAt(pins[..n], offering) + (if pins[n].offeringId == offering then {pins[n].participantId} else {});
    }
  }

  /** The placements of the pins alone. */
  ghost predicate Honours(pins: seq<Placement>, a: map<string, string>) {
    forall pin :: pin in pins ==> pin.participantId in a && a[pin.participantId] == pin.offeringId
  }

  /** The unpinned part of a placement. */
  ghost function Unpinned(r: Request, a: map<string, string>): map<string, string> {
    a - PinnedParticipants(r)
  }

  /** In any offering, a placement that honours the pins holds the pins and the unpinned, disjointly. */
  lemma MembersSplit(r: Request, a: map<string, string>, o: string)
    requires CleanPins(r) && Honours(r.pins, a)
    ensures |Members(a, o)| == |Members(Unpinned(r, a), o)| + PinCount(r.pins, o)
    ensures Members(a, o) == Members(Unpinned(r, a), o) + PinnedAt(r.pins, o)
  {
    PinnedAtSize(r.pins, o);
    var free, pinned := Members(Unpinned(r, a), o), PinnedAt(r.pins, o);
    forall p | p in Members(a, o)
      ensures p in free || p in pinned
    {
      if p in PinnedParticipants(r) {
        var pin :| pin in r.pins && pin.participantId == p;
        assert a[p] == pin.offeringId;
      }
    }
    assert Members(a, o) == free + pinned;
    assert free !! pinned;
  }

  /** A placement honouring the pins keeps every offering within bounds exactly when its unpinned part fits the
    * seats left. */
  lemma WithinBounds(r: Request, a: map<string, string>)
    requires r.Valid() && CleanPins(r) && Honours(r.pins, a)
    ensures (forall o :: o in r.offerings ==> |Members(a, o.id)| <= Max(o.capacity, PinCount(r.pins, o.id))) <==>
            (forall o :: o in FreeGraph(r).remaining ==> |Members(Unpinned(r, a), o)| <= FreeGraph(r).remaining[o])
  {
    FreeGraphMeaning(r);
    forall o | o in r.offerings
      ensures |Members(a, o.id)| <= Max(o.capacity, PinCount(r.pins, o.id)) <==> |Members(Unpinned(r, a), o.id)| <= FreeGraph(r).remaining[o.id]
    {
      MembersSplit(r, a, o.id);
    }
  }

  lemma FeasibleFits(r: Request, a: map<string, string>)
    requires r.Valid() && CleanPins(r) && Feasible(r, a)
    ensures Fits(FreeGraph(r), Unpinned(r, a))
    ensures Unpinned(r, a).Keys == ParticipantIds(r) - PinnedParticipants(r) == FreeGraph(r).eligible.Keys
  {
    FreeGraphMeaning(r);
    WithinBounds(r, a);
    forall p | p in Unpinned(r, a)
      ensures p in FreeGraph(r).eligible
    {
      assert Decision(r, (p, a[p]));
    }
  }

  /** Adds the pins to a placement of everyone else. */
  ghost function WithPins(pins: seq<Placement>, f: map<string, string>): map<string, string> {
    if pins == [] then f
    else WithPins(pins[..|pins| - 1], f)[pins[|pins| - 1].participantId := pins[|pins| - 1].offeringId]
  }

  lemma {:induction false} WithPinsKeys(pins: seq<Placement>, f: map<string, string>)
    ensures WithPins(pins, f).Keys == f.Keys + (set pin | pin in pins :: pin.participantId)
  {
    if pins != [] {
      WithPinsKeys(pins[..|pins| - 1], f);
      assert pins == pins[..|pins| - 1] + [pins[|pins| - 1]];
    }
  }

  lemma {:induction false} WithPinsAt(pins: seq<Placement>, f: map<string, string>, i: nat)
    requires i < |pins| && forall j :: i < j < |pins| ==> pins[j].participantId != pins[i].participantId
    ensures pins[i].participantId in WithPins(pins, f) && WithPins(pins, f)[pins[i].participantId] == pins[i].offeringId
  {
    if i < |pins| - 1 {
      WithPinsAt(pins[..|pins| - 1], f, i);
    }
  }

  lemma {:induction false} WithPinsElsewhere(pins: seq<Placement>, f: map<string, string>, p: string)
    requires p in f && forall pin :: pin in pins ==> pin.participantId != p
    ensures p in WithPins(pins, f) && WithPins(pins, f)[p] == f[p]
  {
    if pins != [] {
      var n := |pins| - 1;
      assert pins[n] in pins;
      assert forall pin :: pin in pins[..n] ==> pin in pins;
      WithPinsElsewhere(pins[..n], f, p);
    }
  }

  lemma WithPinsHonours(pins: seq<Placement>, f: map<string, string>)
    requires forall i, j :: 0 <= i < j < |pins| ==> pins[i].participantId != pins[j].participantId
    ensures Honours(pins, WithPins(pins, f))
    ensures WithPins(pins, f).Keys == f.Keys + (set pin | pin in pins :: pin.participantId)
    ensures forall p :: p in f && (forall pin :: pin in pins ==> pin.participantId != p) ==> WithPins(pins, f)[p] == f[p]
  {
    hide WithPins;
    WithPinsKeys(pins, f);
    forall pin | pin in pins
      ensures pin.participantId in WithPins(pins, f) && WithPins(pins, f)[pin.participantId] == pin.offeringId
    {
      var i :| 0 <= i < |pins| && pins[i] == pin;
      WithPinsAt(pins, f, i);
    }
    forall p | p in f && forall pin :: pin in pins ==> pin.participantId != p
      ensures WithPins(pins, f)[p] == f[p]
    {
      WithPinsElsewhere(pins, f, p);
    }
  }

  lemma WithPinsParts(r: Request, f: map<string, string>)
    requires CleanPins(r) && f.Keys == ParticipantIds(r) - PinnedParticipants(r)
    ensures WithPins(r.pins, f).Keys == ParticipantIds(r)
    ensures Honours(r.pins, WithPins(r.pins, f)) && Unpinned(r, WithPins(r.pins, f)) == f
  {
    WithPinsHonours(r.pins, f);
    hide WithPins, Eligible;
    forall pin | pin in r.pins
      ensures pin.participantId in ParticipantIds(r)
    {
      assert Decision(r, (pin.participantId, pin.offeringId));
    }
  }

  lemma FitsFeasible(r: Request, f: map<string, string>)
    requires r.Valid() && CleanPins(r)
    requires Fits(FreeGraph(r), f) && f.Keys == ParticipantIds(r) - PinnedParticipants(r)
    ensures Feasible(r, WithPins(r.pins, f))
  {
    hide FreeGraph, WithPins, Eligible, Decision, Members, PinCount;
    FreeGraphMeaning(r);
    WithPinsParts(r, f);
    var a := WithPins(r.pins, f);
    WithinBounds(r, a);
    forall p | p in a
      ensures Decision(r, (p, a[p]))
    {
      if p in PinnedParticipants(r) {
        var pin :| pin in r.pins && pin.participantId == p;
        assert Decision(r, (pin.participantId, pin.offeringId));
      } else {
        assert Unpinned(r, a)[p] == a[p];
      }
    }
  }

  /** A clean request can be placed exactly when every unpinned participant may sit somewhere and together they
    * fit the seats the pins leave. */
  lemma FeasibleIff(r: Request)
    requires r.Valid() && CleanPins(r)
    ensures (exists a :: Feasible(r, a)) <==>
            FreeGraph(r).eligible.Keys == ParticipantIds(r) - PinnedParticipants(r) && Placeable(FreeGraph(r), FreeGraph(r).eligible.Keys)
  {
    if a :| Feasible(r, a) {
      FeasibleFits(r, a);
    }
    if FreeGraph(r).eligible.Keys == ParticipantIds(r) - PinnedParticipants(r) && Placeable(FreeGraph(r), FreeGraph(r).eligible.Keys) {
      var f :| Fits(FreeGraph(r), f) && f.Keys == FreeGraph(r).eligible.Keys;
      FitsFeasible(r, f);
    }
  }
}
