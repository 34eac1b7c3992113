/** The feasibility model handed to the solver, and the placements its solutions stand for. */
module Solving {
  import opened Contract
  import opened Counting
  import opened Placing
  import opened Constraints
  import opened CpModel

  // ---- the model ----

  /** The decision variables of one participant. */
  function KeysOf(r: Request, os: seq<Offering>, p: Participant): seq<Key> {
    if os == [] then []
    else
      var last := os[|os| - 1];
      KeysOf(r, os[..|os| - 1], p) + (if Eligible(r, p, last) then [(p.id, last.id)] else [])
  }

  function AllKeys(r: Request, ps: seq<Participant>): seq<Key> {
    if ps == [] then []
    else AllKeys(r, ps[..|ps| - 1]) + KeysOf(r, r.offerings, ps[|ps| - 1])
  }

  function AtOffering(keys: seq<Key>, offering: string): seq<Key> {
    if keys == [] then []
    else AtOffering(keys[..|keys| - 1], offering) + (if keys[|keys| - 1].1 == offering then [keys[|keys| - 1]] else [])
  }

  function ExactlyOnes(r: Request, ps: seq<Participant>): seq<Constraint> {
    if ps == [] then []
    else ExactlyOnes(r, ps[..|ps| - 1]) + [ExactlyOne(KeysOf(r, r.offerings, ps[|ps| - 1]))]
  }

  function Bounds(r: Request, keys: seq<Key>, os: seq<Offering>): seq<Constraint> {
    if os == [] then []
    else
      var last := os[|os| - 1];
      Bounds(r, keys, os[..|os| - 1]) + [AtMost(AtOffering(keys, last.id), Max(last.capacity, PinCount(r.pins, last.id)))]
  }

  function PinFixes(pins: seq<Placement>): seq<Constraint> {
    if pins == [] then []
    else PinFixes(pins[..|pins| - 1]) + [Equals([(pins[|pins| - 1].participantId, pins[|pins| - 1].offeringId)], 1)]
  }

  function BaseModel(r: Request): Model {
    var keys := AllKeys(r, r.participants);
    Model(keys, ExactlyOnes(r, r.participants) + Bounds(r, keys, r.offerings) + PinFixes(r.pins))
  }

  /** The quality of the placement a decision variable stands for. */
  function QualityAt(r: Request, k: Key): Quality {
    match (FindParticipant(r.participants, k.0), FindOffering(r.offerings, k.1))
    case (Some(p), Some(o)) => RealizedQuality(p, o, r.highRankMax)
    case _ => Neutral
  }

  // ---- its solutions ----

  /** The variables a placement makes true. */
  ghost function Chosen(a: map<string, string>): set<Key> {
    set p | p in a :: (p, a[p])
  }

  lemma {:induction false} KeysOfMeaning(r: Request, os: seq<Offering>, p: Participant)
    requires forall i, j :: 0 <= i < j < |os| ==> os[i].id != os[j].id
    ensures forall k :: k in KeysOf(r, os, p) <==> exists o :: o in os && Eligible(r, p, o) && k == (p.id, o.id)
    ensures Distinct(KeysOf(r, os, p))
  {
    hide Eligible;
    if os != [] {
      var n := |os| - 1;
      KeysOfMeaning(r, os[..n], p);
      assert os == os[..n] + [os[n]];
      var keys := KeysOf(r, os[..n], p);
      assert forall i :: 0 <= i < |keys| ==> keys[i] in keys && keys[i].1 != os[n].id;
    }
  }

  lemma {:induction false} AllKeysMeaning(r: Request, ps: seq<Participant>)
    ensures forall k :: k in AllKeys(r, ps) <==> exists p :: p in ps && k in KeysOf(r, r.offerings, p)
  {
    hide KeysOf;
    if ps != [] {
      var n := |ps| - 1;
      AllKeysMeaning(r, ps[..n]);
      assert forall p :: p in ps <==> p in ps[..n] || p == ps[n];
      forall k
        ensures k in AllKeys(r, ps) <==> exists p :: p in ps && k in KeysOf(r, r.offerings, p)
      {
        assert k in AllKeys(r, ps) <==> k in AllKeys(r, ps[..n]) || k in KeysOf(r, r.offerings, ps[n]);
        assert ps[n] in ps;
        if k in AllKeys(r, ps[..n]) {
          var p :| p in ps[..n] && k in KeysOf(r, r.offerings, p);
          assert p in ps;
        }
      }
    }
  }

  lemma {:induction false} AllKeysDistinct(r: Request, ps: seq<Participant>)
    requires r.Valid() && forall i, j :: 0 <= i < j < |ps| ==> ps[i].id != ps[j].id
    ensures Distinct(AllKeys(r, ps))
  {
    if ps != [] {
      var n := |ps| - 1;
      AllKeysDistinct(r, ps[..n]);
      AllKeysMeaning(r, ps[..n]);
      KeysOfMeaning(r, r.offerings, ps[n]);
      var before, keys := AllKeys(r, ps[..n]), KeysOf(r, r.offerings, ps[n]);
      forall i, j | 0 <= i < |before| && 0 <= j < |keys|
        ensures before[i] != keys[j]
      {
        assert before[i] in before && keys[j] in keys;
        var p :| p in ps[..n] && before[i] in KeysOf(r, r.offerings, p);
        KeysOfMeaning(r, r.offerings, p);
      }
    }
  }

  lemma DecisionKeys(r: Request)
    requires r.Valid()
    ensures forall k :: k in AllKeys(r, r.participants) <==> Decision(r, k)
    ensures Distinct(AllKeys(r, r.participants))
  {
    AllKeysMeaning(r, r.participants);
    AllKeysDistinct(r, r.participants);
    forall p
      ensures forall k :: k in KeysOf(r, r.offerings, p) <==> exists o :: o in r.offerings && Eligible(r, p, o) && k == (p.id, o.id)
    {
      KeysOfMeaning(r, r.offerings, p);
    }
    hide Eligible;
  }

  lemma {:induction false} AtOfferingMeaning(keys: seq<Key>, o: string)
    requires Distinct(keys)
    ensures forall k :: k in AtOffering(keys, o) <==> k in keys && k.1 == o
    ensures Distinct(AtOffering(keys, o))
  {
    if keys != [] {
      var n := |keys| - 1;
      AtOfferingMeaning(keys[..n], o);
      assert keys == keys[..n] + [keys[n]];
      var rest := AtOffering(keys[..n], o);
      assert forall i :: 0 <= i < |rest| ==> rest[i] in rest;
    }
  }

  lemma AllHoldAppend(cs: seq<Constraint>, c: Constraint, on: set<Key>)
    ensures (forall d :: d in cs + [c] ==> Holds(d, on)) <==> (forall d :: d in cs ==> Holds(d, on)) && Holds(c, on)
  {
    hide Holds;
    assert forall d :: d in cs + [c] <==> d in cs || d == c;
    assert c in cs + [c];
  }

  lemma {:induction false} ExactlyOnesMeaning(r: Request, ps: seq<Participant>, on: set<Key>)
    ensures (forall c :: c in ExactlyOnes(r, ps) ==> Holds(c, on)) <==>
            (forall p :: p in ps ==> Total(KeysOf(r, r.offerings, p), on) == 1)
  {
    hide KeysOf;
    if ps != [] {
      var n := |ps| - 1;
      ExactlyOnesMeaning(r, ps[..n], on);
      assert forall p :: p in ps <==> p in ps[..n] || p == ps[n];
      var c := ExactlyOne(KeysOf(r, r.offerings, ps[n]));
      AllHoldAppend(ExactlyOnes(r, ps[..n]), c, on);
      assert ps[n] in ps;
    }
  }

  lemma {:induction false} BoundsMeaning(r: Request, keys: seq<Key>, os: seq<Offering>, on: set<Key>)
    ensures (forall c :: c in Bounds(r, keys, os) ==> Holds(c, on)) <==>
            (forall o :: o in os ==> Total(AtOffering(keys, o.id), on) <= Max(o.capacity, PinCount(r.pins, o.id)))
  {
    hide AtOffering, PinCount;
    if os != [] {
      var n := |os| - 1;
      BoundsMeaning(r, keys, os[..n], on);
      assert forall o :: o in os <==> o in os[..n] || o == os[n];
      var c := AtMost(AtOffering(keys, os[n].id), Max(os[n].capacity, PinCount(r.pins, os[n].id)));
      AllHoldAppend(Bounds(r, keys, os[..n]), c, on);
      assert os[n] in os;
    }
  }

  lemma {:induction false} PinFixesMeaning(pins: seq<Placement>, on: set<Key>)
    ensures (forall c :: c in PinFixes(pins) ==> Holds(c, on)) <==>
            (forall pin :: pin in pins ==> (pin.participantId, pin.offeringId) in on)
  {
    if pins != [] {
      var n := |pins| - 1;
      PinFixesMeaning(pins[..n], on);
      assert forall pin :: pin in pins <==> pin in pins[..n] || pin == pins[n];
      var k := (pins[n].participantId, pins[n].offeringId);
      var c := Equals([k], 1);
      AllHoldAppend(PinFixes(pins[..n]), c, on);
      assert pins[n] in pins;
      assert [k][..0] == [] && [k][0] == k;
      assert Total([k], on) == 1 <==> k in on;
    }
  }

  /** The true variables of one participant, and of one offering. */
  ghost function Row(on: set<Key>, p: string): set<Key> {
    set k | k in on && k.0 == p
  }

  ghost function Column(on: set<Key>, o: string): set<Key> {
    set k | k in on && k.1 == o
  }

  lemma RowTotal(r: Request, p: Participant, on: set<Key>)
    requires r.Valid() && p in r.participants && forall k :: k in on ==> Decision(r, k)
    ensures Total(KeysOf(r, r.offerings, p), on) == |Row(on, p.id)|
  {
    KeysOfMeaning(r, r.offerings, p);
    var keys := KeysOf(r, r.offerings, p);
    TotalSize(keys, on);
    forall k | k in Row(on, p.id)
      ensures k in keys
    {
      var q, o :| q in r.participants && o in r.offerings && k == (q.id, o.id) && Eligible(r, q, o);
      FoundParticipant(r, p);
      FoundParticipant(r, q);
    }
    hide KeysOf, Eligible, Total;
    assert Elements(keys) * on == Row(on, p.id);
  }

  lemma ColumnTotal(r: Request, o: string, on: set<Key>)
    requires r.Valid() && forall k :: k in on ==> Decision(r, k)
    ensures Total(AtOffering(AllKeys(r, r.participants), o), on) == |Column(on, o)|
  {
    var keys := AllKeys(r, r.participants);
    DecisionKeys(r);
    AtOfferingMeaning(keys, o);
    TotalSize(AtOffering(keys, o), on);
    hide AllKeys, AtOffering, Decision, Total;
    assert Elements(AtOffering(keys, o)) * on == Column(on, o);
  }

  lemma ColumnSize(a: map<string, string>, o: string)
    ensures |Column(Chosen(a), o)| == |Members(a, o)|
  {
    var m := map p | p in Members(a, o) :: (p, o);
    ImageSize(m, Members(a, o));
    forall k | k in Column(Chosen(a), o)
      ensures k in Image(m, Members(a, o))
    {
      assert m[k.0] == k;
    }
    assert Image(m, Members(a, o)) == Column(Chosen(a), o);
  }

  lemma BaseMeaning(r: Request, on: set<Key>)
    requires r.Valid()
    ensures Satisfies(BaseModel(r), on) <==>
            && (forall k :: k in on ==> Decision(r, k))
            && (forall p :: p in r.participants ==> Total(KeysOf(r, r.offerings, p), on) == 1)
            && (forall o :: o in r.offerings ==> Total(AtOffering(AllKeys(r, r.participants), o.id), on) <= Max(o.capacity, PinCount(r.pins, o.id)))
            && (forall pin :: pin in r.pins ==> (pin.participantId, pin.offeringId) in on)
  {
    hide AllKeys, ExactlyOnes, Bounds, PinFixes, Holds, Total, Decision, KeysOf, AtOffering, PinCount;
    var keys := AllKeys(r, r.participants);
    var exactly, bounds, fixes := ExactlyOnes(r, r.participants), Bounds(r, keys, r.offerings), PinFixes(r.pins);
    ExactlyOnesMeaning(r, r.participants, on);
    BoundsMeaning(r, keys, r.offerings, on);
    PinFixesMeaning(r.pins, on);
    DecisionKeys(r);
    assert forall c :: c in BaseModel(r).constraints <==> c in exactly || c in bounds || c in fixes;
  }

  /** The model says what the hard rules say, variable by variable. */
  lemma ModelMeaning(r: Request, on: set<Key>)
    requires r.Valid()
    ensures Satisfies(BaseModel(r), on) <==>
            && (forall k :: k in on ==> Decision(r, k))
            && (forall p :: p in r.participants ==> |Row(on, p.id)| == 1)
            && (forall o :: o in r.offerings ==> |Column(on, o.id)| <= Max(o.capacity, PinCount(r.pins, o.id)))
            && (forall pin :: pin in r.pins ==> (pin.participantId, pin.offeringId) in on)
  {
    hide AllKeys, Total, Decision, KeysOf, AtOffering, PinCount, Satisfies, BaseModel, Row, Column;
    BaseMeaning(r, on);
    if forall k :: k in on ==> Decision(r, k) {
      forall p | p in r.participants
        ensures Total(KeysOf(r, r.offerings, p), on) == |Row(on, p.id)|
      {
        RowTotal(r, p, on);
      }
      forall o | o in r.offerings
        ensures Total(AtOffering(AllKeys(r, r.participants), o.id), on) == |Column(on, o.id)|
      {
        ColumnTotal(r, o.id, on);
      }
    }
  }

  /** Every placement that obeys the hard rules is a solution. */
  lemma ModelComplete(r: Request, a: map<string, string>)
    requires r.Valid() && Feasible(r, a)
    ensures Satisfies(BaseModel(r), Chosen(a))
  {
    hide BaseModel, Satisfies, Decision, PinCount;
    ModelMeaning(r, Chosen(a));
    forall p | p in r.participants
      ensures |Row(Chosen(a), p.id)| == 1
    {
      assert p.id in a;
      assert Row(Chosen(a), p.id) == {(p.id, a[p.id])};
    }
    forall o | o in r.offerings
      ensures |Column(Chosen(a), o.id)| == |Members(a, o.id)|
    {
      ColumnSize(a, o.id);
    }
  }

  /** The placement a solution stands for. */
  lemma RowsDecide(r: Request, on: set<Key>) returns (a: map<string, string>)
    requires forall k :: k in on ==> k.0 in ParticipantIds(r)
    requires forall p :: p in r.participants ==> |Row(on, p.id)| == 1
    ensures a.Keys == ParticipantIds(r) && Chosen(a) == on
  {
    forall p | p in ParticipantIds(r)
      ensures exists o :: Row(on, p) == {(p, o)}
    {
      var k :| k in Row(on, p);
      Singleton(Row(on, p), k);
      assert Row(on, p) == {(p, k.1)};
    }
    a := map p | p in ParticipantIds(r) :: (var o :| Row(on, p) == {(p, o)}; o);
    forall p | p in a
      ensures (p, a[p]) in on
    {
      assert (p, a[p]) in Row(on, p);
    }
    forall k | k in on
      ensures k in Chosen(a)
    {
      assert k in Row(on, k.0) && k == (k.0, a[k.0]);
    }
  }

  lemma DecisionsKnown(r: Request, on: set<Key>)
    requires forall k :: k in on ==> Decision(r, k)
    ensures forall k :: k in on ==> k.0 in ParticipantIds(r)
  {
  }

  /** Every solution is such a placement. */
  lemma ModelSound(r: Request, on: set<Key>) returns (a: map<string, string>)
    requires r.Valid() && Satisfies(BaseModel(r), on)
    ensures Feasible(r, a) && Chosen(a) == on
  {
    hide BaseModel, Satisfies, Eligible, Decision, Row, PinCount;
    ModelMeaning(r, on);
    DecisionsKnown(r, on);
    a := RowsDecide(r, on);
    forall p | p in a
      ensures Decision(r, (p, a[p]))
    {
      assert (p, a[p]) in Chosen(a);
    }
    forall o | o in r.offerings
      ensures |Column(on, o.id)| == |Members(a, o.id)|
    {
      ColumnSize(a, o.id);
    }
    forall pin | pin in r.pins
      ensures pin.participantId in a && a[pin.participantId] == pin.offeringId
    {
      assert (pin.participantId, pin.offeringId) in Chosen(a);
    }
  }

  lemma Singleton<T>(s: set<T>, x: T)
    requires |s| == 1 && x in s
    ensures s == {x}
  {
    SubsetSize({x}, s);
  }
}
