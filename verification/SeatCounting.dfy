/** Handing out numbered seats is the same as counting heads per offering. */
module SeatCounting {
  import opened Counting
  import opened Matching
  import opened Placing

  /** `f` places its keys in eligible offerings without exceeding what any offering has left. */
  ghost predicate Fits(g: Graph, f: map<string, string>) {
    && (forall p :: p in f ==> p in g.eligible && f[p] in g.eligible[p])
    && (forall o :: o in g.remaining ==> |Members(f, o)| <= g.remaining[o])
  }

  /** Forgets the seat numbers. */
  ghost function Offerings(m: map<string, Slot>): map<string, string> {
    map p | p in m :: m[p].0
  }

  lemma SeatsFit(g: Graph, m: map<string, Slot>)
    requires g.Valid() && g.Seating(m)
    ensures Fits(g, Offerings(m)) && Offerings(m).Keys == m.Keys
  {
    var f := Offerings(m);
    forall o | o in g.remaining
      ensures |Members(f, o)| <= g.remaining[o]
    {
      var slots := SlotsOf(o, g.remaining[o]);
      SlotsDistinct(o, g.remaining[o]);
      forall p | p in Members(f, o)
        ensures m[p] in Elements(slots)
      {
        assert g.Usable(p, m[p]);
      }
      InjectionBound(m, Members(f, o), Elements(slots));
    }
    forall p | p in f
      ensures p in g.eligible && f[p] in g.eligible[p]
    {
      assert g.Usable(p, m[p]);
    }
  }

  lemma SlotsDistinct(o: string, n: nat)
    ensures |Elements(SlotsOf(o, n))| == n
  {
    var slots := SlotsOf(o, n);
    assert Distinct(slots);
    DistinctSize(slots);
  }

  /** Seats everyone `f` places, in the offering `f` chose for them. */
  lemma {:induction false} FitSeats(g: Graph, f: map<string, string>) returns (m: map<string, Slot>)
    requires g.Valid() && Fits(g, f)
    ensures g.Seating(m) && Offerings(m) == f
    decreases |f|
  {
    if f == map[] {
      m := map[];
    } else {
      var p :| p in f;
      FitsWithout(g, f, p);
      m := FitSeats(g, f - {p});
      var slot := FreeSlot(g, m, f[p]);
      SeatAdded(g, f, p, m, slot);
      m := m[p := slot];
    }
  }

  lemma FitsWithout(g: Graph, f: map<string, string>, p: string)
    requires Fits(g, f) && p in f && f[p] in g.remaining
    ensures Fits(g, f - {p}) && |f - {p}| < |f|
    ensures |Members(f - {p}, f[p])| < g.remaining[f[p]]
  {
    forall o | o in g.remaining
      ensures |Members(f - {p}, o)| <= g.remaining[o]
      ensures o == f[p] ==> |Members(f - {p}, o)| < g.remaining[o]
    {
      assert Members(f - {p}, o) == Members(f, o) - {p};
      assert o == f[p] ==> p in Members(f, o);
    }
    assert f.Keys == (f - {p}).Keys + {p};
  }

  lemma SeatAdded(g: Graph, f: map<string, string>, p: string, m: map<string, Slot>, slot: Slot)
    requires p in f && p in g.eligible && f[p] in g.eligible[p] && f[p] in g.remaining
    requires g.Seating(m) && Offerings(m) == f - {p}
    requires slot.0 == f[p] && slot.1 < g.remaining[f[p]] && forall q :: q in m ==> m[q] != slot
    ensures g.Seating(m[p := slot]) && Offerings(m[p := slot]) == f
  {
    assert m.Keys == (f - {p}).Keys;
    assert forall q :: q in m ==> Offerings(m)[q] == f[q];
  }

  /** A seating that leaves an offering short of its capacity leaves one of its seats free. */
  lemma FreeSlot(g: Graph, m: map<string, Slot>, o: string) returns (slot: Slot)
    requires g.Seating(m) && o in g.remaining
    requires |Members(Offerings(m), o)| < g.remaining[o]
    ensures slot.0 == o && slot.1 < g.remaining[o] && forall p :: p in m ==> m[p] != slot
  {
    var slots := Elements(SlotsOf(o, g.remaining[o]));
    SlotsDistinct(o, g.remaining[o]);
    var taken := Image(m, Members(Offerings(m), o));
    ImageSize(m, Members(Offerings(m), o));
    if slots <= taken {
      SubsetSize(slots, taken);
    }
    slot :| slot in slots && slot !in taken;
    assert slot in SlotsOf(o, g.remaining[o]);
    forall p | p in m && m[p].0 == o
      ensures m[p] in taken
    {
      assert p in Members(Offerings(m), o);
    }
  }

  /** A group of people can be placed together in what is left. */
  ghost predicate Placeable(g: Graph, group: set<string>) {
    exists f :: Fits(g, f) && f.Keys == group
  }

  lemma PlaceableSeating(g: Graph, group: set<string>)
    requires g.Valid()
    ensures Placeable(g, group) <==> exists m :: g.Seating(m) && m.Keys == group
  {
    if Placeable(g, group) {
      var f :| Fits(g, f) && f.Keys == group;
      var m := FitSeats(g, f);
      assert m.Keys == Offerings(m).Keys;
    }
    if m :| g.Seating(m) && m.Keys == group {
      SeatsFit(g, m);
    }
  }

  lemma PlaceableSubset(g: Graph, group: set<string>, part: set<string>)
    requires g.Valid() && Placeable(g, group) && part <= group
    ensures Placeable(g, part)
  {
    var f :| Fits(g, f) && f.Keys == group;
    var f' := map p | p in part :: f[p];
    forall o | o in g.remaining
      ensures |Members(f', o)| <= g.remaining[o]
    {
      SubsetSize(Members(f', o), Members(f, o));
    }
    assert Fits(g, f') && f'.Keys == part;
  }
}
