/** What a placement must satisfy, stated without the solver: eligibility, pins and offering loads. */
module Placing {
  import opened Contract

  predicate GradeAllowed(p: Participant, o: Offering) {
    o.minGrade <= p.grade <= o.maxGrade
  }

  function ExceptionRules(r: Request): set<(string, string, Rule)> {
    set e | e in r.exceptions :: (e.participantId, e.offeringId, e.rule)
  }

  function ExclusionPairs(r: Request): set<Key> {
    set e | e in r.exclusions :: (e.participantId, e.offeringId)
  }

  function PinPairs(r: Request): set<Key> {
    set pin | pin in r.pins :: (pin.participantId, pin.offeringId)
  }

  function PinnedParticipants(r: Request): set<string> {
    set pin | pin in r.pins :: pin.participantId
  }

  /** `p` breaks no unexcepted hard rule by sitting in `o`. */
  predicate Eligible(r: Request, p: Participant, o: Offering) {
    && (GradeAllowed(p, o) || (p.id, o.id, GradeRule) in ExceptionRules(r))
    && ((p.id, o.id) !in ExclusionPairs(r) || (p.id, o.id, ExclusionRule) in ExceptionRules(r))
  }

  /** The (participant, offering) pairs that get a decision variable. */
  ghost predicate Decision(r: Request, k: Key) {
    exists p, o :: p in r.participants && o in r.offerings && k == (p.id, o.id) && Eligible(r, p, o)
  }

  function ParticipantIds(r: Request): set<string> {
    set p | p in r.participants :: p.id
  }

  function OfferingIds(r: Request): set<string> {
    set o | o in r.offerings :: o.id
  }

  /** How many pins name `offering`. */
  function PinCount(pins: seq<Placement>, offering: string): nat {
    if pins == [] then 0
    else PinCount(pins[..|pins| - 1], offering) + (if pins[|pins| - 1].offeringId == offering then 1 else 0)
  }

  function Max(a: int, b: int): int {
    if a < b then b else a
  }

  /** Who `a` places in `offering`. */
  ghost function Members(a: map<string, string>, offering: string): set<string> {
    set p | p in a && a[p] == offering
  }

  /** The hard rules: everyone is placed once, in an offering they may take, pins are honoured, and an offering
    * holds no more than its capacity, or its pins if those are more. */
  ghost predicate Feasible(r: Request, a: map<string, string>) {
    && a.Keys == ParticipantIds(r)
    && (forall p :: p in a ==> Decision(r, (p, a[p])))
    && (forall o :: o in r.offerings ==> |Members(a, o.id)| <= Max(o.capacity, PinCount(r.pins, o.id)))
    && (forall pin :: pin in r.pins ==> pin.participantId in a && a[pin.participantId] == pin.offeringId)
  }
}
