/** The parsed request does not depend on the order in which the document lists anything. */
module Canonicality {
  import opened Contract
  import opened Documents
  import opened Sorting
  import opened Parsing

  // ---- Documents that list the same things ----

  /** The same list up to order, or the same value. */
  ghost predicate SameItems(a: Json, b: Json) {
    a == b || (a.Arr? && b.Arr? && multiset(a.items) == multiset(b.items))
  }

  /** Objects that differ at most in the fields named `loose`, and have the same fields. */
  ghost predicate SameExcept(a: Json, b: Json, loose: set<string>) {
    && a.Obj? && b.Obj? && a.fields.Keys == b.fields.Keys
    && forall key :: key in a.fields && key !in loose ==> a.fields[key] == b.fields[key]
  }

  ghost predicate SameRanking(a: Json, b: Json) {
    a == b || (SameExcept(a, b, {"choices"}) && SameItems(Field(a, "choices"), Field(b, "choices")))
  }

  ghost predicate SameAnswers(a: Json, b: Json) {
    a == b ||
    ( && SameExcept(a, b, {"ranked_choices", "interest_profile"})
      && SameRanking(Field(a, "ranked_choices"), Field(b, "ranked_choices"))
      && SameItems(Field(a, "interest_profile"), Field(b, "interest_profile")))
  }

  ghost predicate SameAnswersEach(a: seq<Json>, b: seq<Json>) {
    |a| == |b| && forall i :: 0 <= i < |a| ==> SameAnswers(a[i], b[i])
  }

  /** The same participants up to order, each with the same answers up to order. */
  ghost predicate SameParticipants(a: Json, b: Json) {
    a == b || (a.Arr? && b.Arr? && exists mid :: multiset(a.items) == multiset(mid) && SameAnswersEach(mid, b.items))
  }

  const LISTS := {"offerings", "participants", "pins", "exclusions", "authorized_pinned_exceptions", "prior_placements"}

  ghost predicate SameRequest(a: Json, b: Json) {
    && SameExcept(a, b, LISTS)
    && SameItems(Field(a, "offerings"), Field(b, "offerings"))
    && SameParticipants(Field(a, "participants"), Field(b, "participants"))
    && SameItems(Field(a, "pins"), Field(b, "pins"))
    && SameItems(Field(a, "exclusions"), Field(b, "exclusions"))
    && SameItems(Field(a, "authorized_pinned_exceptions"), Field(b, "authorized_pinned_exceptions"))
    && SameItems(Field(a, "prior_placements"), Field(b, "prior_placements"))
  }

  // ---- Keys tell entries apart ----

  lemma PlacementKeyDecides(m: multiset<Placement>)
    ensures KeyDecides(PlacementKey, m)
  {
    forall x, y | PlacementKey(x) == PlacementKey(y)
      ensures x == y
    {
      assert PlacementKey(x)[0] == PlacementKey(y)[0] && PlacementKey(x)[1] == PlacementKey(y)[1];
    }
  }

  lemma RuleNames(rule: Rule)
    ensures ParseRule(RuleName(rule)) == Some(rule)
  {
    assert "capacity"[0] == 'c' && "grade"[0] == 'g' && "exclusion"[0] == 'e';
  }

  lemma ExceptionKeyDecides(m: multiset<PinnedException>)
    ensures KeyDecides(ExceptionKey, m)
  {
    forall x, y | ExceptionKey(x) == ExceptionKey(y)
      ensures x == y
    {
      assert forall i :: 0 <= i < 3 ==> ExceptionKey(x)[i] == ExceptionKey(y)[i];
      assert ExceptionKey(x)[0] == x.participantId && ExceptionKey(x)[1] == x.offeringId && ExceptionKey(x)[2] == RuleName(x.rule);
      assert ExceptionKey(y)[0] == y.participantId && ExceptionKey(y)[1] == y.offeringId && ExceptionKey(y)[2] == RuleName(y.rule);
      RuleNames(x.rule);
      RuleNames(y.rule);
    }
  }

  /** A one-field key tells entries apart when that field is unique. */
  lemma UniqueKeyDecides<T(!new)>(field: T -> string, key: T -> SortKey, m: multiset<T>)
    requires DistinctBy(field, m) && forall x :: key(x) == [field(x)]
    ensures KeyDecides(key, m)
  {
    forall x, y | x in m && y in m && key(x) == key(y)
      ensures x == y
    {
      assert key(x)[0] == key(y)[0];
    }
  }

  // ---- One list at a time ----

  lemma RejectedAlike<T>(parse: Json -> Option<T>, raw: seq<Json>, other: seq<Json>)
    requires multiset(raw) == multiset(other)
    ensures ParseAll(parse, raw).None? <==> ParseAll(parse, other).None?
    ensures ParseAll(parse, raw).Some? ==>
              multiset(ParseAll(parse, raw).value) == multiset(ParseAll(parse, other).value)
  {
    if ParseAll(parse, raw).Some? {
      ParseAllRearranged(parse, raw, other);
    } else if ParseAll(parse, other).Some? {
      ParseAllRearranged(parse, other, raw);
    }
  }

  lemma RankingForgets(a: Json, b: Json, offeringIds: set<string>)
    requires a.Arr? && b.Arr? && SameItems(a, b)
    ensures ParsedChoices(a.items, offeringIds) == ParsedChoices(b.items, offeringIds)
  {
    hide ParseAll, SortBy;
    var parser := ChoiceParser(offeringIds);
    RejectedAlike(parser, a.items, b.items);
    var choices := ParseAll(parser, a.items);
    if choices.Some? && AnswersDistinct(multiset(choices.value)) {
      UniqueKeyDecides(ChoiceOffering, ChoiceKey, multiset(choices.value));
      SortForgets(ChoiceKey, choices.value, ParseAll(parser, b.items).value);
    }
  }

  lemma ProfileForgets(a: Json, b: Json)
    requires a.Arr? && b.Arr? && SameItems(a, b)
    ensures UniqueRatings(a.items) == UniqueRatings(b.items)
  {
    hide ParseAll, SortBy;
    RejectedAlike(ParseRating, a.items, b.items);
    var ratings := ParseAll(ParseRating, a.items);
    if ratings.Some? && DistinctBy(RatedArea, multiset(ratings.value)) {
      UniqueKeyDecides(RatedArea, RatingKey, multiset(ratings.value));
      SortForgets(RatingKey, ratings.value, ParseAll(ParseRating, b.items).value);
    }
  }

  /** A participant's answers may be listed in any order. */
  lemma ParticipantForgets(a: Json, b: Json, offeringIds: set<string>)
    requires SameAnswers(a, b)
    ensures ParsedParticipant(a, offeringIds) == ParsedParticipant(b, offeringIds)
  {
    hide ParsedChoices, UniqueRatings;
    if a != b {
      assert "id" !in {"ranked_choices", "interest_profile"} && "grade_ordinal" !in {"ranked_choices", "interest_profile"};
      assert Field(a, "id") == Field(b, "id") && Field(a, "grade_ordinal") == Field(b, "grade_ordinal");
      assert ParsedRanking(a, offeringIds) == ParsedRanking(b, offeringIds) by {
        var x, y := Field(Field(a, "ranked_choices"), "choices"), Field(Field(b, "ranked_choices"), "choices");
        if x.Arr? && y.Arr? {
          RankingForgets(x, y, offeringIds);
        }
      }
      assert ParsedProfile(a) == ParsedProfile(b) by {
        var x, y := FieldOr(a, "interest_profile", Arr([])), FieldOr(b, "interest_profile", Arr([]));
        if x.Arr? && y.Arr? {
          ProfileForgets(x, y);
        }
      }
    }
  }

  lemma KeysOfSame<T(!new), K>(key: T -> K, s: seq<T>, t: seq<T>)
    requires multiset(s) == multiset(t)
    ensures Keys(key, s) == Keys(key, t) && |s| == |t|
  {
    assert forall x :: x in s <==> x in multiset(s);
    assert forall x :: x in t <==> x in multiset(t);
    assert |s| == |multiset(s)| == |multiset(t)| == |t|;
  }

  /** The common tail of the offering and participant parsers: sort, then insist on unique identifiers. */
  lemma SortedUnique<T(!new)>(field: T -> string, key: T -> SortKey, s: seq<T>, t: seq<T>)
    requires multiset(s) == multiset(t) && forall x :: key(x) == [field(x)]
    ensures |Keys(field, SortBy(key, s))| == |SortBy(key, s)| <==> |Keys(field, SortBy(key, t))| == |SortBy(key, t)|
    ensures |Keys(field, SortBy(key, s))| == |SortBy(key, s)| ==> SortBy(key, s) == SortBy(key, t)
  {
    hide SortBy, Keys, DistinctBy;
    SortByKeeps(key, s);
    SortByKeeps(key, t);
    KeysOfSame(field, SortBy(key, s), SortBy(key, t));
    SizeTellsDistinct(field, SortBy(key, s));
    if DistinctBy(field, multiset(s)) {
      UniqueKeyDecides(field, key, multiset(s));
      SortForgets(key, s, t);
    }
  }

  lemma OfferingsForget(a: Json, b: Json)
    requires SameItems(Field(a, "offerings"), Field(b, "offerings"))
    ensures ParsedOfferings(a) == ParsedOfferings(b)
  {
    hide ParseAll, SortBy, Keys;
    var x, y := Field(a, "offerings"), Field(b, "offerings");
    if x != y {
      assert |x.items| == |multiset(x.items)| == |multiset(y.items)| == |y.items|;
      RejectedAlike(ParseOffering, x.items, y.items);
      var parsed := ParseAll(ParseOffering, x.items);
      if parsed.Some? {
        SortedUnique(OfferingId, OfferingKey, parsed.value, ParseAll(ParseOffering, y.items).value);
      }
    }
  }

  lemma ParticipantsForget(a: Json, b: Json, offeringIds: set<string>)
    requires SameParticipants(Field(a, "participants"), Field(b, "participants"))
    ensures ParsedParticipants(a, offeringIds) == ParsedParticipants(b, offeringIds)
  {
    hide ParseAll, SortBy, Keys, SameAnswers, ParsedParticipant;
    var x, y := Field(a, "participants"), Field(b, "participants");
    if x != y {
      var parser := ParticipantParser(offeringIds);
      var mid :| multiset(x.items) == multiset(mid) && SameAnswersEach(mid, y.items);
      forall i | 0 <= i < |mid|
        ensures parser(mid[i]) == parser(y.items[i])
      {
        ParticipantForgets(mid[i], y.items[i], offeringIds);
      }
      ParseAllAlike(parser, mid, y.items);
      RejectedAlike(parser, x.items, mid);
      var parsed := ParseAll(parser, x.items);
      if parsed.Some? {
        SortedUnique(ParticipantId, ParticipantKey, parsed.value, ParseAll(parser, y.items).value);
      }
    }
  }

  lemma PlacementsForget(a: Json, b: Json, key: string)
    requires a.Obj? && b.Obj? && (key in a.fields <==> key in b.fields)
    requires SameItems(Field(a, key), Field(b, key))
    ensures ParsedPlacements(a, key) == ParsedPlacements(b, key)
  {
    hide ParseAll, SortBy;
    var x, y := FieldOr(a, key, Arr([])), FieldOr(b, key, Arr([]));
    if x != y {
      RejectedAlike(ParsePlacement, x.items, y.items);
      var parsed := ParseAll(ParsePlacement, x.items);
      if parsed.Some? {
        PlacementKeyDecides(multiset(parsed.value));
        SortForgets(PlacementKey, parsed.value, ParseAll(ParsePlacement, y.items).value);
      }
    }
  }

  lemma ExceptionsForget(a: Json, b: Json)
    requires a.Obj? && b.Obj?
    requires "authorized_pinned_exceptions" in a.fields <==> "authorized_pinned_exceptions" in b.fields
    requires SameItems(Field(a, "authorized_pinned_exceptions"), Field(b, "authorized_pinned_exceptions"))
    ensures ParsedExceptions(a) == ParsedExceptions(b)
  {
    hide ParseAll, SortBy;
    var x, y := FieldOr(a, "authorized_pinned_exceptions", Arr([])), FieldOr(b, "authorized_pinned_exceptions", Arr([]));
    if x != y {
      RejectedAlike(ParseException, x.items, y.items);
      var parsed := ParseAll(ParseException, x.items);
      if parsed.Some? {
        ExceptionKeyDecides(multiset(parsed.value));
        SortForgets(ExceptionKey, parsed.value, ParseAll(ParseException, y.items).value);
      }
    }
  }

  lemma NotAList(key: string)
    requires key != "" && key[0] !in "opea"
    ensures key !in LISTS
  {
  }

  lemma SameField(a: Json, b: Json, loose: set<string>, key: string)
    requires SameExcept(a, b, loose) && key !in loose
    ensures Field(a, key) == Field(b, key)
  {
  }

  lemma HeaderForgets(a: Json, b: Json)
    requires SameExcept(a, b, LISTS)
    ensures ParsedHeader(a) == ParsedHeader(b)
  {
    assert a.Obj? && b.Obj?;
    hide SameExcept;
    SameHeader(a, b, LISTS);
  }

  lemma SameHeader(a: Json, b: Json, lists: set<string>)
    requires SameExcept(a, b, lists) && lists == LISTS
    ensures ParsedHeader(a) == ParsedHeader(b)
  {
    assert a.Obj? && b.Obj?;
    hide SameExcept, Field;
    NotAList("version");
    NotAList("seed");
    NotAList("max_deterministic_time");
    NotAList("quality_config");
    SameField(a, b, lists, "version");
    SameField(a, b, lists, "seed");
    SameField(a, b, lists, "max_deterministic_time");
    SameField(a, b, lists, "quality_config");
  }

  /**
   * The canonical form: documents that list the same offerings, participants, answers, pins, exclusions,
   * exceptions and prior placements, in whatever orders, are accepted together and parse to one request.
   */
  lemma OrderIsForgotten(a: Json, b: Json)
    requires SameRequest(a, b)
    ensures Parsed(a) == Parsed(b)
  {
    hide ParsedHeader, ParsedOfferings, ParsedParticipants, ParsedPlacements, ParsedExceptions, Keys, SameItems, SameParticipants;
    HeaderForgets(a, b);
    OfferingsForget(a, b);
    if ParsedOfferings(a).Some? {
      ParticipantsForget(a, b, Keys(OfferingId, ParsedOfferings(a).value));
    }
    PlacementsForget(a, b, "pins");
    PlacementsForget(a, b, "exclusions");
    ExceptionsForget(a, b);
    PlacementsForget(a, b, "prior_placements");
  }
}
