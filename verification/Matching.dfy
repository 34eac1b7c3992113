/** The augmenting-path seat matching that explains infeasible solves. */
module Matching {
  import opened Counting
  import opened Ordering

  /** One seat: the offering and the seat's index below that offering's remaining capacity. */
  type Slot = (string, nat)

  /** Who may sit where: each participant's eligible offerings, and each offering's free seats. */
  datatype Graph = Graph(eligible: map<string, seq<string>>, remaining: map<string, nat>) {

    /** Every eligible offering has a capacity entry; the search looks it up unguarded. */
    ghost predicate Valid() {
      forall p, o :: p in eligible && o in eligible[p] ==> o in remaining
    }

    ghost predicate Usable(p: string, s: Slot) {
      && p in eligible && s.0 in eligible[p]
      && s.0 in remaining && s.1 < remaining[s.0]
    }

    ghost function AllSlots(): set<Slot> {
      set o, i | o in remaining.Keys && 0 <= i < remaining[o] :: (o, i)
    }

    /** Every seat `p` could take lies in `slots`. */
    ghost predicate Confined(p: string, slots: set<Slot>) {
      forall s :: Usable(p, s) ==> s in slots
    }

    /** `m` seats its keys on usable seats, no seat twice. */
    ghost predicate Seating(m: map<string, Slot>) {
      && Injective(m)
      && forall p :: p in m ==> Usable(p, m[p])
    }

    /** `slots` are all taken, and everyone sitting there could only sit there. */
    ghost predicate Closed(slots: set<Slot>, owner: map<Slot, string>) {
      forall s :: s in slots ==> s in owner && Confined(owner[s], slots)
    }
  }

  /** `owner` and `seat` are inverse to each other. */
  ghost predicate Mutual(owner: map<Slot, string>, seat: map<string, Slot>) {
    && (forall s :: s in owner ==> owner[s] in seat && seat[owner[s]] == s)
    && (forall p :: p in seat ==> seat[p] in owner && owner[seat[p]] == p)
  }

  /** As `Mutual`, except that `stale` may still name its former occupant. */
  ghost predicate MutualExcept(owner: map<Slot, string>, seat: map<string, Slot>, stale: set<Slot>) {
    && (forall s :: s in owner && s !in stale ==> owner[s] in seat && seat[owner[s]] == s)
    && (forall p :: p in seat ==> seat[p] in owner && owner[seat[p]] == p)
  }

  ghost function OldSeat(seat: map<string, Slot>, p: string): set<Slot> {
    if p in seat then {seat[p]} else {}
  }

  function SlotsOf(offering: string, capacity: nat): (r: seq<Slot>)
    ensures |r| == capacity
    ensures forall s :: s in r <==> s.0 == offering && s.1 < capacity
  {
    var r := seq(capacity, i requires 0 <= i => (offering, i));
    assert forall s: Slot :: s.0 == offering && s.1 < capacity ==> r[s.1] == s;
    r
  }

  function SlotTable(remaining: map<string, nat>): map<string, seq<Slot>> {
    map o | o in remaining :: SlotsOf(o, remaining[o])
  }

  /** Every seat in `slots` keeps its occupant. */
  ghost predicate Kept(slots: set<Slot>, owner0: map<Slot, string>, owner: map<Slot, string>) {
    forall s :: s in slots ==> s in owner0 && s in owner && owner[s] == owner0[s]
  }

  lemma KeptElsewhere(slots: set<Slot>, owner0: map<Slot, string>, owner: map<Slot, string>, slot: Slot, p: string)
    requires Kept(slots, owner0, owner) && slot !in slots
    ensures Kept(slots, owner0, owner[slot := p])
  {
  }

  /** The seats newly tried, `after` less `before`, are all taken, by people confined to tried seats. */
  ghost predicate NoWayOut(g: Graph, before: set<Slot>, after: set<Slot>, owner: map<Slot, string>) {
    && before <= after
    && forall s :: s in after - before ==> s in owner && g.Confined(owner[s], after)
  }

  lemma NoWayOutExtends(g: Graph, slot: Slot, before: set<Slot>, middle: set<Slot>, after: set<Slot>, owner: map<Slot, string>)
    requires NoWayOut(g, before, middle, owner) && slot in owner
    requires NoWayOut(g, middle + {slot}, after, owner) && g.Confined(owner[slot], after)
    ensures NoWayOut(g, before, after, owner)
  {
  }

  /** A successful search from `p`: `p` sits on a newly tried seat, everyone seated stays seated, seats tried
    * before keep their occupants, and only the seat `p` gave up may still name `p`. */
  ghost predicate Augmented(g: Graph, p: string, before: set<Slot>, after: set<Slot>,
                            owner0: map<Slot, string>, seat0: map<string, Slot>,
                            owner: map<Slot, string>, seat: map<string, Slot>) {
    && before <= after
    && g.Seating(seat)
    && seat.Keys == seat0.Keys + {p} && seat[p] in after - before
    && MutualExcept(owner, seat, OldSeat(seat0, p))
    && (forall s :: s in before ==> (s in owner <==> s in owner0) && (s in owner ==> owner[s] == owner0[s]))
    && (forall q :: q in seat0 && q != p && seat0[q] in before ==> seat[q] == seat0[q])
  }

  lemma TakeFreeSeat(g: Graph, p: string, slot: Slot, before: set<Slot>, after: set<Slot>,
                     owner: map<Slot, string>, seat: map<string, Slot>)
    requires g.Seating(seat) && Mutual(owner, seat)
    requires g.Usable(p, slot) && slot !in owner
    requires before <= after && slot in after - before
    requires p in seat ==> seat[p] in before
    ensures Augmented(g, p, before, after, owner, seat, owner[slot := p], seat[p := slot])
    ensures g.Seating(seat[p := slot])
  {
  }

  /** Moving into a seat its holder has left keeps the seating. */
  lemma SeatMoved(g: Graph, p: string, slot: Slot, seat: map<string, Slot>)
    requires g.Seating(seat) && g.Usable(p, slot) && forall q :: q in seat && q != p ==> seat[q] != slot
    ensures g.Seating(seat[p := slot])
  {
  }

  lemma TakeVacatedSeat(g: Graph, p: string, slot: Slot, before: set<Slot>, middle: set<Slot>, after: set<Slot>,
                        owner0: map<Slot, string>, seat0: map<string, Slot>,
                        owner: map<Slot, string>, seat: map<string, Slot>)
    requires Mutual(owner0, seat0)
    requires g.Usable(p, slot) && slot in owner0
    requires before <= middle && slot in middle - before
    requires p in seat0 ==> seat0[p] in before
    requires Augmented(g, owner0[slot], middle, after, owner0, seat0, owner, seat)
    ensures Augmented(g, p, before, after, owner0, seat0, owner[slot := p], seat[p := slot])
    ensures g.Seating(seat[p := slot])
  {
    hide Graph.Seating, Graph.Usable;
    var w := owner0[slot];
    assert w != p && seat0[w] == slot && seat[w] != slot && OldSeat(seat0, w) == {slot};
    var owner', seat' := owner[slot := p], seat[p := slot];
    forall q | q in seat && q != p
      ensures seat[q] != slot
    {
    }
    SeatMoved(g, p, slot, seat);
    forall s | s in owner' && s !in OldSeat(seat0, p)
      ensures owner'[s] in seat' && seat'[owner'[s]] == s
    {
    }
    forall q | q in seat'
      ensures seat'[q] in owner' && owner'[seat'[q]] == q
    {
    }
    assert MutualExcept(owner', seat', OldSeat(seat0, p));
  }

  lemma AugmentedMutual(g: Graph, p: string, visited: set<Slot>, owner0: map<Slot, string>, seat0: map<string, Slot>,
                        owner: map<Slot, string>, seat: map<string, Slot>)
    requires p !in seat0 && Augmented(g, p, {}, visited, owner0, seat0, owner, seat)
    ensures Mutual(owner, seat)
  {
  }

  lemma KeptClosed(g: Graph, dead: set<Slot>, owner0: map<Slot, string>, owner: map<Slot, string>)
    requires g.Closed(dead, owner0) && Kept(dead, owner0, owner)
    ensures g.Closed(dead, owner)
  {
  }

  lemma NoWayOutCloses(g: Graph, dead: set<Slot>, visited: set<Slot>, owner: map<Slot, string>)
    requires g.Closed(dead, owner) && NoWayOut(g, {}, visited, owner)
    ensures g.Closed(dead + visited, owner)
  {
  }

  /** A closed set of seats is taken whole, and whoever could only sit there meets only its seats. */
  lemma DeadSeats(g: Graph, dead: set<Slot>, owner: map<Slot, string>, p: string, slot: Slot)
    requires g.Closed(dead, owner) && g.Usable(p, slot)
    ensures slot in dead ==> slot in owner && g.Confined(owner[slot], dead)
    ensures g.Confined(p, dead) ==> slot in dead
  {
  }

  lemma OwnerSits(g: Graph, owner: map<Slot, string>, seat: map<string, Slot>, slot: Slot)
    requires g.Seating(seat) && Mutual(owner, seat) && slot in owner
    ensures owner[slot] in g.eligible && owner[slot] in seat && seat[owner[slot]] == slot
  {
    assert g.Usable(owner[slot], seat[owner[slot]]);
  }

  lemma KeptSame(g: Graph, dead: set<Slot>, owner: map<Slot, string>)
    requires g.Closed(dead, owner)
    ensures Kept(dead, owner, owner)
  {
  }

  class Search {
    const graph: Graph
    const slotsByOffering: map<string, seq<Slot>>
    var slotOwner: map<Slot, string>
    var match_: map<string, Slot>
    var visited: set<Slot>

    ghost predicate Valid()
      reads this
    {
      && graph.Valid()
      && slotsByOffering == SlotTable(graph.remaining)
      && graph.Seating(match_)
      && visited <= graph.AllSlots()
    }

    constructor (g: Graph)
      requires g.Valid()
      ensures Valid() && graph == g
      ensures slotOwner == map[] && match_ == map[] && visited == {}
    {
      graph := g;
      slotsByOffering := SlotTable(g.remaining);
      slotOwner, match_, visited := map[], map[], {};
    }

    /** Looks for a seat for `p`, moving earlier occupants along an alternating path. `dead` is any closed
      * set of seats: the search can neither disturb it nor find a seat inside it. */
    method Assign(p: string, ghost dead: set<Slot>) returns (ok: bool)
      requires Valid() && p in graph.eligible
      requires Mutual(slotOwner, match_)
      requires p in match_ ==> match_[p] in visited
      requires graph.Closed(dead, slotOwner)
      modifies this`slotOwner, this`match_, this`visited
      ensures Valid() && old(visited) <= visited
      ensures !ok ==> slotOwner == old(slotOwner) && match_ == old(match_)
      ensures !ok ==> NoWayOut(graph, old(visited), visited, slotOwner) && graph.Confined(p, visited)
      ensures ok ==> Augmented(graph, p, old(visited), visited, old(slotOwner), old(match_), slotOwner, match_)
      ensures graph.Confined(p, dead) ==> !ok
      ensures Kept(dead, old(slotOwner), slotOwner)
      decreases graph.AllSlots() - visited
    {
      hide Augmented, MutualExcept, Injective, Graph.Seating, Graph.Closed, Kept, Mutual;
      KeptSame(graph, dead, slotOwner);
      ghost var before, owner0, seat0 := visited, slotOwner, match_;
      var offerings := graph.eligible[p];
      for i := 0 to |offerings|
        invariant slotOwner == owner0 && match_ == seat0 && visited <= graph.AllSlots()
        invariant NoWayOut(graph, before, visited, owner0)
        invariant forall s :: graph.Usable(p, s) && s.0 in offerings[..i] ==> s in visited
      {
        var slots := slotsByOffering[offerings[i]];
        for j := 0 to |slots|
          invariant slotOwner == owner0 && match_ == seat0 && visited <= graph.AllSlots()
          invariant NoWayOut(graph, before, visited, owner0)
          invariant forall s :: graph.Usable(p, s) && s.0 in offerings[..i] ==> s in visited
          invariant forall s :: s in slots[..j] ==> s in visited
        {
          var slot := slots[j];
          assert slot in slots;
          if slot in visited {
            continue;
          }
          ghost var middle := visited;
          visited := visited + {slot};
          DeadSeats(graph, dead, slotOwner, p, slot);
          if slot !in slotOwner {
            KeptElsewhere(dead, owner0, slotOwner, slot, p);
            TakeFreeSeat(graph, p, slot, before, visited, owner0, seat0);
            slotOwner, match_ := slotOwner[slot := p], match_[p := slot];
            return true;
          }
          OwnerSits(graph, owner0, seat0, slot);
          var moved := Assign(slotOwner[slot], dead);
          if moved {
            KeptElsewhere(dead, owner0, slotOwner, slot, p);
            TakeVacatedSeat(graph, p, slot, before, middle + {slot}, visited, owner0, seat0, slotOwner, match_);
            slotOwner, match_ := slotOwner[slot := p], match_[p := slot];
            return true;
          }
          NoWayOutExtends(graph, slot, before, middle, visited, owner0);
        }
      }
      return false;
    }

    /** One search from scratch for someone without a seat. Either exactly they gain one, or nobody moves and
      * the seats they could take join the dead ones. */
    method AssignAnew(p: string, ghost dead: set<Slot>) returns (ghost grown: set<Slot>)
      requires Valid() && p in graph.eligible && p !in match_
      requires Mutual(slotOwner, match_) && graph.Closed(dead, slotOwner)
      modifies this`slotOwner, this`match_, this`visited
      ensures Valid() && Mutual(slotOwner, match_)
      ensures graph.Closed(grown, slotOwner)
      ensures forall q :: graph.Confined(q, dead) ==> graph.Confined(q, grown)
      ensures p in match_ ==> match_.Keys == old(match_).Keys + {p}
      ensures p !in match_ ==> match_ == old(match_) && slotOwner == old(slotOwner) && graph.Confined(p, grown)
    {
      visited := {};
      var ok := Assign(p, dead);
      if ok {
        AugmentedMutual(graph, p, visited, old(slotOwner), old(match_), slotOwner, match_);
        KeptClosed(graph, dead, old(slotOwner), slotOwner);
        grown := dead;
      } else {
        NoWayOutCloses(graph, dead, visited, slotOwner);
        grown := dead + visited;
      }
    }
  }

  /** The dead seats witness that `seat` leaves out as few people as possible: whoever is left out, and whoever
    * sits on a dead seat, could only sit on dead seats. */
  ghost predicate Certificate(g: Graph, seat: map<string, Slot>, owner: map<Slot, string>, dead: set<Slot>) {
    && g.Seating(seat) && Mutual(owner, seat) && g.Closed(dead, owner)
    && forall p :: p in g.eligible && p !in seat ==> g.Confined(p, dead)
  }

  lemma CertificateBound(g: Graph, seat: map<string, Slot>, owner: map<Slot, string>, dead: set<Slot>, other: map<string, Slot>)
    requires Certificate(g, seat, owner, dead)
    requires g.Seating(other)
    ensures |other| <= |seat|
  {
    var confined := set p | p in g.eligible.Keys && g.Confined(p, dead);
    forall p | p in other.Keys * confined
      ensures other[p] in dead
    {
      assert g.Usable(p, other[p]);
    }
    InjectionBound(other, other.Keys * confined, dead);
    forall s | s in dead
      ensures owner[s] in seat.Keys * confined
    {
      assert seat[owner[s]] == s && g.Usable(owner[s], s);
    }
    OwnersDistinct(owner, seat);
    InjectionBound(owner, dead, seat.Keys * confined);
    forall p | p in other && p !in confined
      ensures p in seat
    {
      assert g.Usable(p, other[p]);
    }
    SplitSize(other.Keys, seat.Keys, confined);
  }

  lemma OwnersDistinct(owner: map<Slot, string>, seat: map<string, Slot>)
    requires Mutual(owner, seat)
    ensures Injective(owner)
  {
  }

  lemma NoSeatTaken(g: Graph)
    ensures g.Closed({}, map[]) && Mutual(map[], map[])
  {
  }

  lemma NothingBetter(g: Graph, seat: map<string, Slot>, owner: map<Slot, string>, dead: set<Slot>)
    requires Certificate(g, seat, owner, dead)
    ensures forall other :: g.Seating(other) ==> |other| <= |seat|
  {
    hide Certificate, Graph.Seating;
    forall other | g.Seating(other)
      ensures |other| <= |seat|
    {
      CertificateBound(g, seat, owner, dead, other);
    }
  }

  /** Seats everyone in sorted order with one search each. A participant whose search fails is never retried,
    * and still no seating whatever covers more of them. */
  method MaximumCapacityMatching(g: Graph)
    returns (match_: map<string, Slot>, slotOwner: map<Slot, string>, slotsByOffering: map<string, seq<Slot>>, ghost dead: set<Slot>)
    requires g.Valid()
    ensures slotsByOffering == SlotTable(g.remaining)
    ensures Certificate(g, match_, slotOwner, dead)
    ensures forall other :: g.Seating(other) ==> |other| <= |match_|
  {
    hide Mutual, Certificate, Search.Valid, Graph.Closed, Graph.Seating, Graph.Valid, Graph.Confined, SortSet, Sorted, SlotTable,
         Injective, Graph.Usable;
    var search := new Search(g);
    NoSeatTaken(g);
    var order := SortSet(g.eligible.Keys);
    SortSetSorted(g.eligible.Keys);
    dead := {};
    for i := 0 to |order|
      invariant search.Valid() && search.graph == g && fresh(search)
      invariant Mutual(search.slotOwner, search.match_) && g.Closed(dead, search.slotOwner)
      invariant forall k :: i <= k < |order| ==> order[k] !in search.match_
      invariant forall k :: 0 <= k < i ==> order[k] in search.match_ || g.Confined(order[k], dead)
    {
      dead := search.AssignAnew(order[i], dead);
    }
    match_, slotOwner, slotsByOffering := search.match_, search.slotOwner, search.slotsByOffering;
    Certify(search, dead);
    NothingBetter(g, match_, slotOwner, dead);
  }

  lemma Certify(search: Search, dead: set<Slot>)
    requires search.Valid() && Mutual(search.slotOwner, search.match_) && search.graph.Closed(dead, search.slotOwner)
    requires forall p :: p in search.graph.eligible && p !in search.match_ ==> search.graph.Confined(p, dead)
    ensures search.slotsByOffering == SlotTable(search.graph.remaining)
    ensures Certificate(search.graph, search.match_, search.slotOwner, dead)
  {
  }
}
