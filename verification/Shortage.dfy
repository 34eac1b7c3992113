/** Alternating reachability from one unseated participant: the capacity conflict that explains them. */
module Shortage {
  import opened Counting
  import opened Matching

  /** `group` competes for `seats` only, and is one too many for them. */
  ghost predicate Deficient(g: Graph, group: set<string>, seats: set<Slot>) {
    && group <= g.eligible.Keys
    && (forall p :: p in group ==> g.Confined(p, seats))
    && |group| == |seats| + 1
  }

  /** What the search from the unseated `start` finds: a group of people, all seated but `start`, one too many for
    * exactly the seats they could take, every one of whom the others could do without. */
  ghost predicate Shortfall(g: Graph, start: string, group: set<string>, seats: set<Slot>, seat: map<string, Slot>) {
    && Deficient(g, group, seats)
    && start in group && start !in seat
    && (forall p :: p in group && p != start ==> p in seat)
    && (forall s :: s in seats ==> exists p :: p in group && g.Usable(p, s))
    && (forall p :: p in group ==> exists m :: g.Seating(m) && m.Keys == group - {p})
  }

  /** `m` seats everyone seated before, and `start`, except `dropped`; people outside `group` did not move. */
  ghost predicate Freed(g: Graph, m: map<string, Slot>, seat: map<string, Slot>, start: string, dropped: string, group: set<string>) {
    && g.Seating(m)
    && m.Keys == seat.Keys + {start} - {dropped}
    && forall p :: p in seat && p !in group ==> p in m && m[p] == seat[p]
  }

  ghost predicate AllFreed(g: Graph, free: map<string, map<string, Slot>>, seat: map<string, Slot>, start: string, group: set<string>) {
    forall p :: p in group ==> p in free && Freed(g, free[p], seat, start, p, group)
  }

  ghost function Shifted(m: map<string, Slot>, w: string, x: string, slot: Slot): map<string, Slot> {
    (m - {w})[x := slot]
  }

  /** One step along the alternating path: `x` takes the seat of `w`. */
  lemma ShiftSeat(g: Graph, m: map<string, Slot>, seat: map<string, Slot>, start: string, x: string, w: string, group: set<string>)
    requires g.Seating(seat) && start !in seat
    requires x in group && (x == start || x in seat)
    requires w !in group && w in seat && w != start
    requires Freed(g, m, seat, start, x, group) && g.Usable(x, seat[w])
    ensures Freed(g, Shifted(m, w, x, seat[w]), seat, start, w, group + {w})
  {
    var m' := Shifted(m, w, x, seat[w]);
    assert m[w] == seat[w];
    assert m'.Keys == seat.Keys + {start} - {w};
  }

  /** The bookkeeping of the reachability loop. */
  ghost predicate Reached(g: Graph, start: string, group: set<string>, seats: set<Slot>,
                          seat: map<string, Slot>, owner: map<Slot, string>, dead: set<Slot>) {
    && start in group && start !in seat && group <= g.eligible.Keys
    && (forall s :: s in seats ==> s in owner && owner[s] in group)
    && (forall p :: p in group ==> p == start || (p in seat && seat[p] in seats))
    && (forall p :: p in group ==> g.Confined(p, dead))
  }

  lemma ReachedSize(g: Graph, start: string, group: set<string>, seats: set<Slot>,
                    seat: map<string, Slot>, owner: map<Slot, string>, dead: set<Slot>)
    requires Reached(g, start, group, seats, seat, owner, dead) && Mutual(owner, seat)
    ensures |group| == |seats| + 1
  {
    OwnersDistinct(owner, seat);
    ImageSize(owner, seats);
    forall p | p in group - {start}
      ensures p in Image(owner, seats)
    {
      assert owner[seat[p]] == p;
    }
    assert forall s :: s in seats ==> seat[owner[s]] == s;
    assert group - {start} == Image(owner, seats);
  }

  /** Everyone in `group` is waiting in `pending`, or has had every seat they could take recorded. */
  ghost predicate Explored(g: Graph, group: set<string>, pending: seq<string>, current: set<string>, seats: set<Slot>) {
    && (forall p :: p in pending ==> p in group)
    && (forall p :: p in group && p !in pending && p !in current ==> g.Confined(p, seats))
  }

  /** Extends the seatings `free` to `w`, whose seat `slot` is reached from `x`. */
  ghost function Extended(free: map<string, map<string, Slot>>, x: string, w: string, slot: Slot): map<string, map<string, Slot>> {
    if x in free then free[w := Shifted(free[x], w, x, slot)] else free
  }

  lemma StartReached(g: Graph, start: string, seat: map<string, Slot>, owner: map<Slot, string>, dead: set<Slot>)
    requires Certificate(g, seat, owner, dead) && start in g.eligible && start !in seat
    ensures Reached(g, start, {start}, {}, seat, owner, dead)
    ensures AllFreed(g, map[start := seat], seat, start, {start}) && Explored(g, {start}, [start], {}, {})
  {
    assert Freed(g, seat, seat, start, start, {start});
  }

  lemma StartExploring(g: Graph, start: string, group: set<string>, seats: set<Slot>, pending: seq<string>,
                       seat: map<string, Slot>, owner: map<Slot, string>, dead: set<Slot>)
    requires Reached(g, start, group, seats, seat, owner, dead)
    requires pending != [] && Explored(g, group, pending, {}, seats)
    ensures group <= g.eligible.Keys
    ensures var p := pending[|pending| - 1]; p in group && p in g.eligible && Explored(g, group, pending[..|pending| - 1], {p}, seats)
  {
    assert pending == pending[..|pending| - 1] + [pending[|pending| - 1]];
  }

  lemma ExploredGrows(g: Graph, p: string, w: string, group: set<string>, pending: seq<string>, seats: set<Slot>, slot: Slot)
    requires Explored(g, group, pending, {p}, seats)
    ensures Explored(g, group + {w}, pending + [w], {p}, seats + {slot})
  {
    assert forall q :: q in pending + [w] <==> q in pending || q == w;
  }

  lemma ExploredDone(g: Graph, p: string, group: set<string>, pending: seq<string>, seats: set<Slot>)
    requires Explored(g, group, pending, {p}, seats) && g.Confined(p, seats)
    ensures Explored(g, group, pending, {}, seats)
  {
  }

  lemma ExtendFreed(g: Graph, start: string, x: string, w: string, group: set<string>, seat: map<string, Slot>,
                    free: map<string, map<string, Slot>>)
    requires g.Seating(seat) && start !in seat
    requires x in group && (x == start || x in seat)
    requires w !in group && w in seat && w != start && g.Usable(x, seat[w])
    requires AllFreed(g, free, seat, start, group)
    ensures AllFreed(g, Extended(free, x, w, seat[w]), seat, start, group + {w})
  {
    assert Freed(g, free[x], seat, start, x, group);
    ShiftSeat(g, free[x], seat, start, x, w, group);
    forall q | q in group
      ensures Freed(g, free[q], seat, start, q, group + {w})
    {
      assert Freed(g, free[q], seat, start, q, group);
    }
  }

  lemma ReachOwner(g: Graph, start: string, p: string, slot: Slot, group: set<string>, seats: set<Slot>,
                   seat: map<string, Slot>, owner: map<Slot, string>, dead: set<Slot>)
    requires Certificate(g, seat, owner, dead) && Reached(g, start, group, seats, seat, owner, dead)
    requires p in group && g.Usable(p, slot) && slot !in seats
    ensures p == start || p in seat
    ensures slot in owner && owner[slot] !in group && owner[slot] in seat && owner[slot] != start
    ensures seat[owner[slot]] == slot
    ensures Reached(g, start, group + {owner[slot]}, seats + {slot}, seat, owner, dead)
  {
    assert slot in dead;
    var w := owner[slot];
    assert w in seat && seat[w] == slot && g.Usable(w, slot);
  }

  /** Recording `slot`, reached from `p`, and its owner. */
  lemma ReachSlot(g: Graph, start: string, p: string, slot: Slot, group: set<string>, seats: set<Slot>, pending: seq<string>,
                  seat: map<string, Slot>, owner: map<Slot, string>, dead: set<Slot>, free: map<string, map<string, Slot>>)
    requires Certificate(g, seat, owner, dead) && Reached(g, start, group, seats, seat, owner, dead)
    requires AllFreed(g, free, seat, start, group) && Explored(g, group, pending, {p}, seats)
    requires p in group && g.Usable(p, slot) && slot !in seats
    ensures slot in owner && owner[slot] !in group && owner[slot] in g.eligible
    ensures Reached(g, start, group + {owner[slot]}, seats + {slot}, seat, owner, dead)
    ensures AllFreed(g, Extended(free, p, owner[slot], slot), seat, start, group + {owner[slot]})
    ensures Explored(g, group + {owner[slot]}, pending + [owner[slot]], {p}, seats + {slot})
  {
    ReachOwner(g, start, p, slot, group, seats, seat, owner, dead);
    var w := owner[slot];
    ExtendFreed(g, start, p, w, group, seat, free);
    ExploredGrows(g, p, w, group, pending, seats, slot);
  }

  /** Records every seat `p` could take and queues the owners not met before. */
  method Explore(g: Graph, start: string, p: string, group0: set<string>, seats0: set<Slot>, pending0: seq<string>,
                 seat: map<string, Slot>, slotOwner: map<Slot, string>, slotsByOffering: map<string, seq<Slot>>,
                 ghost dead: set<Slot>, ghost free0: map<string, map<string, Slot>>)
    returns (group: set<string>, seats: set<Slot>, pending: seq<string>, ghost free: map<string, map<string, Slot>>)
    requires g.Valid() && slotsByOffering == SlotTable(g.remaining)
    requires Certificate(g, seat, slotOwner, dead) && Reached(g, start, group0, seats0, seat, slotOwner, dead)
    requires AllFreed(g, free0, seat, start, group0) && Explored(g, group0, pending0, {p}, seats0)
    requires p in group0 && group0 <= g.eligible.Keys
    ensures Reached(g, start, group, seats, seat, slotOwner, dead)
    ensures AllFreed(g, free, seat, start, group) && Explored(g, group, pending, {}, seats)
    ensures group0 <= group <= g.eligible.Keys && (group == group0 ==> pending == pending0)
  {
    hide Reached, AllFreed, Certificate, Explored, Extended;
    group, seats, pending, free := group0, seats0, pending0, free0;
    var offerings := g.eligible[p];
    for i := 0 to |offerings|
      invariant group0 <= group <= g.eligible.Keys && (group == group0 ==> pending == pending0)
      invariant Reached(g, start, group, seats, seat, slotOwner, dead)
      invariant AllFreed(g, free, seat, start, group) && Explored(g, group, pending, {p}, seats)
      invariant forall s :: g.Usable(p, s) && s.0 in offerings[..i] ==> s in seats
    {
      var slots := slotsByOffering[offerings[i]];
      for j := 0 to |slots|
        invariant group0 <= group <= g.eligible.Keys && (group == group0 ==> pending == pending0)
        invariant Reached(g, start, group, seats, seat, slotOwner, dead)
        invariant AllFreed(g, free, seat, start, group) && Explored(g, group, pending, {p}, seats)
        invariant forall s :: g.Usable(p, s) && s.0 in offerings[..i] ==> s in seats
        invariant forall s :: s in slots[..j] ==> s in seats
      {
        var slot := slots[j];
        assert slot in slots && g.Usable(p, slot);
        if slot in seats {
          continue;
        }
        ReachSlot(g, start, p, slot, group, seats, pending, seat, slotOwner, dead, free);
        seats := seats + {slot};
        if slot in slotOwner && slotOwner[slot] !in group {
          var owner := slotOwner[slot];
          free := Extended(free, p, owner, slot);
          group, pending := group + {owner}, pending + [owner];
        }
      }
    }
    ExploredDone(g, p, group, pending, seats);
  }

  method ShortageFrom(g: Graph, start: string, seat: map<string, Slot>, slotOwner: map<Slot, string>,
                      slotsByOffering: map<string, seq<Slot>>, ghost dead: set<Slot>)
    returns (group: set<string>, seats: set<Slot>)
    requires g.Valid() && slotsByOffering == SlotTable(g.remaining)
    requires Certificate(g, seat, slotOwner, dead)
    requires start in g.eligible && start !in seat
    ensures Shortfall(g, start, group, seats, seat)
  {
    hide Reached, AllFreed, Explored, Freed, Shortfall, Certificate, Graph.Valid, Graph.Confined, SlotTable,
         Mutual, Injective, Graph.Usable, Graph.Seating, Graph.Closed, Deficient;
    group, seats := {start}, {};
    var pending := [start];
    ghost var free := map[start := seat];
    StartReached(g, start, seat, slotOwner, dead);
    while pending != []
      invariant Reached(g, start, group, seats, seat, slotOwner, dead)
      invariant AllFreed(g, free, seat, start, group) && Explored(g, group, pending, {}, seats)
      decreases g.eligible.Keys - group, |pending|
    {
      var p := pending[|pending| - 1];
      StartExploring(g, start, group, seats, pending, seat, slotOwner, dead);
      group, seats, pending, free := Explore(g, start, p, group, seats, pending[..|pending| - 1],
                                             seat, slotOwner, slotsByOffering, dead, free);
    }
    Conclude(g, start, group, seats, seat, slotOwner, dead, free);
  }

  lemma SeatingWithin(g: Graph, m: map<string, Slot>, group: set<string>)
    requires g.Seating(m) && group <= m.Keys
    ensures exists part :: g.Seating(part) && part.Keys == group
  {
    var part := map q | q in group :: m[q];
    assert g.Seating(part) && part.Keys == group;
  }

  lemma Conclude(g: Graph, start: string, group: set<string>, seats: set<Slot>, seat: map<string, Slot>, owner: map<Slot, string>,
                 dead: set<Slot>, free: map<string, map<string, Slot>>)
    requires Certificate(g, seat, owner, dead) && Reached(g, start, group, seats, seat, owner, dead)
    requires AllFreed(g, free, seat, start, group) && Explored(g, group, [], {}, seats)
    ensures Shortfall(g, start, group, seats, seat)
  {
    ReachedSize(g, start, group, seats, seat, owner, dead);
    forall s | s in seats
      ensures exists p :: p in group && g.Usable(p, s)
    {
      assert seat[owner[s]] == s && g.Usable(owner[s], s);
    }
    forall p | p in group
      ensures exists m :: g.Seating(m) && m.Keys == group - {p}
    {
      assert Freed(g, free[p], seat, start, p, group);
      SeatingWithin(g, free[p], group - {p});
    }
  }
}
