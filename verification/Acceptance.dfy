/** The parser accepts a document exactly if its fields say a request, and returns the request they say. */
module Acceptance {
  import opened Contract
  import opened Documents
  import opened Sorting
  import opened Parsing
  import opened Canonicality
  import opened Reading

  // ---- fields ----

  lemma FieldHas(item: Json, key: string, value: Json)
    ensures Has(item, key, value) ==> Field(item, key) == value && forall default :: FieldOr(item, key, default) == value
    ensures value != Null && Field(item, key) == value ==> Has(item, key, value)
    ensures Field(item, key) == Null && item.Obj? <==> Empty(item, key)
    ensures Lacks(item, key) ==> forall default :: FieldOr(item, key, default) == default
  {
  }

  lemma TextRead(item: Json, key: string, text: string)
    ensures RequiredString(item, key) == Some(text) <==> HasText(item, key, text)
  {
  }

  lemma NumberRead(item: Json, key: string, n: int)
    ensures AsInt(Field(item, key)) == Some(n) <==> HasNumber(item, key, n)
  {
  }

  // ---- entries ----

  lemma OfferingRead(item: Json, o: Offering)
    ensures ParseOffering(item) == Some(o) <==> ReadsOffering(item, o)
  {
  }

  lemma PlacementRead(item: Json, p: Placement)
    ensures ParsePlacement(item) == Some(p) <==> ReadsPlacement(item, p)
  {
  }

  lemma ExceptionRead(item: Json, e: PinnedException)
    ensures ParseException(item) == Some(e) <==> ReadsException(item, e)
  {
  }

  lemma ChoiceRead(item: Json, c: RankedChoice, offeringIds: set<string>)
    ensures ParseChoice(item, offeringIds) == Some(c) <==> ReadsChoice(item, c, offeringIds)
  {
  }

  lemma RatingRead(item: Json, r: InterestRating)
    ensures ParseRating(item) == Some(r) <==> ReadsRating(item, r)
  {
  }

  // ---- lists ----

  lemma EachRead<T(!new)>(parse: Json -> Option<T>, says: (Json, T) -> bool, raw: seq<Json>, read: seq<T>)
    requires forall x, y :: parse(x) == Some(y) <==> says(x, y)
    ensures ParseAll(parse, raw) == Some(read) <==> ReadsEach(says, raw, read)
  {
    hide ParseAll;
    ParseAllElementwise(parse, raw);
    if ReadsEach(says, raw, read) {
      forall x | x in raw
        ensures parse(x).Some?
      {
        var i :| 0 <= i < |raw| && raw[i] == x;
        assert says(raw[i], read[i]);
      }
      forall i | 0 <= i < |raw|
        ensures ParseAll(parse, raw).value[i] == read[i]
      {
        assert says(raw[i], read[i]);
      }
      assert ParseAll(parse, raw).value == read;
    }
  }

  /** Sorting what was parsed gives the one sorted list of the entries read. */
  lemma AllRead<T(!new)>(parse: Json -> Option<T>, says: (Json, T) -> bool, key: T -> SortKey, raw: seq<Json>, items: seq<T>)
    requires forall x, y :: parse(x) == Some(y) <==> says(x, y)
    requires KeyDecides(key, multiset(items))
    ensures ReadsAll(says, raw, items) && SortedBy(key, items) <==>
            ParseAll(parse, raw).Some? && SortBy(key, ParseAll(parse, raw).value) == items
  {
    hide ParseAll, ReadsEach, SortBy, SortedBy, KeyDecides;
    if ReadsAll(says, raw, items) && SortedBy(key, items) {
      var read :| ReadsEach(says, raw, read) && multiset(read) == multiset(items);
      EachRead(parse, says, raw, read);
      SortByKeeps(key, read);
      OneOrder(key, items, SortBy(key, read));
    }
    if ParseAll(parse, raw).Some? && SortBy(key, ParseAll(parse, raw).value) == items {
      var read := ParseAll(parse, raw).value;
      EachRead(parse, says, raw, read);
      SortByKeeps(key, read);
    }
  }

  lemma PlacementsRead(document: Json, key: string, placements: seq<Placement>)
    requires document.Obj?
    ensures ParsedPlacements(document, key) == Some(placements) <==> ReadsPlacements(document, key, placements)
  {
    hide ParsePlacement, ReadsPlacement, ReadsAll, ParseAll, SortBy, KeyLe;
    forall x, y
      ensures ParsePlacement(x) == Some(y) <==> ReadsPlacement(x, y)
    {
      PlacementRead(x, y);
    }
    PlacementKeyDecides(multiset(placements));
    var raw := FieldOr(document, key, Arr([]));
    PlacementOrder(placements);
    if raw.Arr? {
      AllRead(ParsePlacement, ReadsPlacement, PlacementKey, raw.items, placements);
    }
    NothingParsed(ParsePlacement, PlacementKey);
  }

  lemma NothingParsed<T>(parse: Json -> Option<T>, key: T -> SortKey)
    ensures ParseAll(parse, []) == Some([]) && SortBy(key, []) == []
  {
  }

  lemma PlacementOrder(placements: seq<Placement>)
    ensures SortedBy(PlacementKey, placements) <==>
      forall i, j :: 0 <= i < j < |placements| ==>
        KeyLe([placements[i].participantId, placements[i].offeringId], [placements[j].participantId, placements[j].offeringId])
  {
    hide KeyLe;
    assert forall p :: PlacementKey(p) == [p.participantId, p.offeringId];
  }

  lemma RuleIs(rule: Rule)
    ensures RuleName(rule) == RuleText(rule)
  {
  }

  lemma ExceptionOrder(exceptions: seq<PinnedException>)
    ensures SortedBy(ExceptionKey, exceptions) <==>
      forall i, j :: 0 <= i < j < |exceptions| ==>
        KeyLe([exceptions[i].participantId, exceptions[i].offeringId, RuleText(exceptions[i].rule)],
              [exceptions[j].participantId, exceptions[j].offeringId, RuleText(exceptions[j].rule)])
  {
    hide KeyLe;
    assert forall e :: ExceptionKey(e) == [e.participantId, e.offeringId, RuleText(e.rule)];
  }

  lemma ExceptionsRead(document: Json, exceptions: seq<PinnedException>)
    requires document.Obj?
    ensures ParsedExceptions(document) == Some(exceptions) <==> ReadsExceptions(document, exceptions)
  {
    hide ParseException, ReadsException, ReadsAll, ParseAll, SortBy, KeyLe;
    forall x, y
      ensures ParseException(x) == Some(y) <==> ReadsException(x, y)
    {
      ExceptionRead(x, y);
    }
    ExceptionKeyDecides(multiset(exceptions));
    var raw := FieldOr(document, "authorized_pinned_exceptions", Arr([]));
    ExceptionOrder(exceptions);
    if raw.Arr? {
      AllRead(ParseException, ReadsException, ExceptionKey, raw.items, exceptions);
    }
    NothingParsed(ParseException, ExceptionKey);
  }

  /** A list without repeated keys in key order: how the parser checks it, and what it says. */
  lemma UniqueOrder<T(!new)>(field: T -> string, key: T -> SortKey, items: seq<T>)
    requires forall x :: key(x) == [field(x)]
    ensures DistinctBy(field, multiset(items)) && SortedBy(key, items) <==>
            forall i, j :: 0 <= i < j < |items| ==> field(items[i]) != field(items[j]) && KeyLe([field(items[i])], [field(items[j])])
    ensures DistinctBy(field, multiset(items)) ==> KeyDecides(key, multiset(items))
  {
    hide KeyLe, DistinctBy, KeyDecides;
    if DistinctBy(field, multiset(items)) {
      UniqueKeyDecides(field, key, multiset(items));
      DistinctPositions(field, items);
    }
    if forall i, j :: 0 <= i < j < |items| ==> field(items[i]) != field(items[j]) && KeyLe([field(items[i])], [field(items[j])]) {
      PositionsDistinct(field, items);
    }
  }

  lemma OfferingsRead(document: Json, offerings: seq<Offering>)
    ensures ParsedOfferings(document) == Some(offerings) <==> ReadsOfferings(document, offerings)
  {
    hide ParseOffering, ReadsOffering, ReadsAll, ParseAll, SortBy, KeyLe, SortedBy, DistinctBy, KeyDecides, Keys;
    forall x, y
      ensures ParseOffering(x) == Some(y) <==> ReadsOffering(x, y)
    {
      OfferingRead(x, y);
    }
    UniqueOrder(OfferingId, OfferingKey, offerings);
    SizeTellsDistinct(OfferingId, offerings);
    var raw := Field(document, "offerings");
    if raw.Arr? {
      if ParseAll(ParseOffering, raw.items).Some? {
        NotEmpty(ParseOffering, OfferingKey, raw.items);
      }
      if DistinctBy(OfferingId, multiset(offerings)) {
        AllRead(ParseOffering, ReadsOffering, OfferingKey, raw.items, offerings);
      }
    }
    OfferingOrder(offerings);
  }

  lemma OfferingOrder(offerings: seq<Offering>)
    ensures (forall i, j :: 0 <= i < j < |offerings| ==>
               OfferingId(offerings[i]) != OfferingId(offerings[j]) && KeyLe([OfferingId(offerings[i])], [OfferingId(offerings[j])]))
       <==> (forall i, j :: 0 <= i < j < |offerings| ==> offerings[i].id != offerings[j].id && KeyLe([offerings[i].id], [offerings[j].id]))
  {
    hide KeyLe;
  }

  lemma NotEmpty<T(!new)>(parse: Json -> Option<T>, key: T -> SortKey, raw: seq<Json>)
    requires ParseAll(parse, raw).Some?
    ensures SortBy(key, ParseAll(parse, raw).value) == [] <==> raw == []
  {
    ParseAllElementwise(parse, raw);
    hide ParseAll, SortBy;
    var read := ParseAll(parse, raw).value;
    SortByKeeps(key, read);
    assert |SortBy(key, read)| == |multiset(SortBy(key, read))| == |multiset(read)| == |read|;
  }

  // ---- participants ----

  lemma AnswersOrder(choices: seq<RankedChoice>)
    ensures AnswersDistinct(multiset(choices)) && SortedBy(ChoiceKey, choices) <==>
      forall i, j :: 0 <= i < j < |choices| ==>
        && choices[i].offeringId != choices[j].offeringId && KeyLe([choices[i].offeringId], [choices[j].offeringId])
        && (choices[i].rank.Some? ==> choices[i].rank != choices[j].rank)
    ensures AnswersDistinct(multiset(choices)) ==> KeyDecides(ChoiceKey, multiset(choices))
  {
    hide KeyLe, DistinctBy, KeyDecides, SortedBy;
    UniqueOrder(ChoiceOffering, ChoiceKey, choices);
    if DistinctBy(ChoiceOffering, multiset(choices)) {
      RanksDiffer(choices);
    }
    assert forall c :: ChoiceOffering(c) == c.offeringId;
  }

  lemma RanksDiffer(choices: seq<RankedChoice>)
    requires DistinctBy(ChoiceOffering, multiset(choices))
    ensures (forall c, d :: c in multiset(choices) && d in multiset(choices) && c.rank.Some? && c.rank == d.rank ==> c == d)
       <==> (forall i, j :: 0 <= i < j < |choices| ==> (choices[i].rank.Some? ==> choices[i].rank != choices[j].rank))
  {
    DistinctPositions(ChoiceOffering, choices);
    if forall i, j :: 0 <= i < j < |choices| ==> (choices[i].rank.Some? ==> choices[i].rank != choices[j].rank) {
      forall c, d | c in multiset(choices) && d in multiset(choices) && c.rank.Some? && c.rank == d.rank
        ensures c == d
      {
        var i :| 0 <= i < |choices| && choices[i] == c;
        var j :| 0 <= j < |choices| && choices[j] == d;
      }
    } else {
      var i, j :| 0 <= i < j < |choices| && choices[i].rank.Some? && choices[i].rank == choices[j].rank;
      assert ChoiceOffering(choices[i]) != ChoiceOffering(choices[j]);
      assert choices[i] in multiset(choices) && choices[j] in multiset(choices);
    }
  }

  /** Checking uniqueness before sorting or after makes no difference. */
  lemma ChoicesRead(raw: seq<Json>, choices: seq<RankedChoice>, offeringIds: set<string>)
    ensures ParsedChoices(raw, offeringIds) == Some(choices) <==>
            ReadsAll((x, c) => ReadsChoice(x, c, offeringIds), raw, choices) && AnswersDistinct(multiset(choices)) && SortedBy(ChoiceKey, choices)
  {
    hide ParseChoice, ReadsChoice, ReadsAll, ParseAll, SortBy, SortedBy, AnswersDistinct, KeyDecides;
    var parse, says := ChoiceParser(offeringIds), (x, c) => ReadsChoice(x, c, offeringIds);
    forall x, y
      ensures parse(x) == Some(y) <==> says(x, y)
    {
      ChoiceRead(x, y, offeringIds);
    }
    AnswersOrder(choices);
    if AnswersDistinct(multiset(choices)) {
      AllRead(parse, says, ChoiceKey, raw, choices);
    }
    if ParseAll(parse, raw).Some? {
      SortByKeeps(ChoiceKey, ParseAll(parse, raw).value);
    }
  }

  lemma RankingRead(item: Json, ranking: Option<seq<RankedChoice>>, offeringIds: set<string>)
    requires item.Obj?
    ensures ParsedRanking(item, offeringIds) == Some(ranking) <==>
            if ranking.Some? then ReadsChoices(item, ranking.value, offeringIds) else Empty(item, "ranked_choices")
  {
    hide ParsedChoices, ReadsAll, ReadsChoice, KeyLe, AnswersDistinct, SortedBy;
    if ranking.Some? {
      var choices, submission := ranking.value, Field(item, "ranked_choices");
      var raw := Field(submission, "choices");
      AnswersOrder(choices);
      assert (exists value, list :: Has(item, "ranked_choices", value) && Has(value, "choices", Arr(list))
                                    && ReadsAll((x, c) => ReadsChoice(x, c, offeringIds), list, choices))
        <==> submission.Obj? && raw.Arr? && ReadsAll((x, c) => ReadsChoice(x, c, offeringIds), raw.items, choices) by {
        assert submission.Obj? && raw.Arr? ==> Has(item, "ranked_choices", submission) && Has(submission, "choices", Arr(raw.items));
      }
      if raw.Arr? {
        ChoicesRead(raw.items, choices, offeringIds);
      }
    }
  }

  lemma RatingsRead(raw: seq<Json>, profile: seq<InterestRating>)
    ensures UniqueRatings(raw) == Some(profile) <==>
            ReadsAll(ReadsRating, raw, profile) && DistinctBy(RatedArea, multiset(profile)) && SortedBy(RatingKey, profile)
  {
    hide ParseRating, ReadsRating, ReadsAll, ParseAll, SortBy, SortedBy, DistinctBy, KeyDecides;
    forall x, y
      ensures ParseRating(x) == Some(y) <==> ReadsRating(x, y)
    {
      RatingRead(x, y);
    }
    UniqueOrder(RatedArea, RatingKey, profile);
    if DistinctBy(RatedArea, multiset(profile)) {
      AllRead(ParseRating, ReadsRating, RatingKey, raw, profile);
    }
    if ParseAll(ParseRating, raw).Some? {
      SortByKeeps(RatingKey, ParseAll(ParseRating, raw).value);
    }
  }

  lemma ProfileRead(item: Json, profile: seq<InterestRating>)
    requires item.Obj?
    ensures ParsedProfile(item) == Some(profile) <==> ReadsProfile(item, profile)
  {
    hide UniqueRatings, ReadsAll, ReadsRating, KeyLe, DistinctBy, SortedBy;
    UniqueOrder(RatedArea, RatingKey, profile);
    assert forall r :: RatedArea(r) == r.interestArea;
    var raw := FieldOr(item, "interest_profile", Arr([]));
    if raw.Arr? {
      RatingsRead(raw.items, profile);
    }
    NoRatingsParsed();
  }

  lemma NoRatingsParsed()
    ensures UniqueRatings([]) == Some([])
  {
  }

  lemma ParticipantRead(item: Json, p: Participant, offeringIds: set<string>)
    ensures ParsedParticipant(item, offeringIds) == Some(p) <==> ReadsParticipant(item, p, offeringIds)
  {
    hide ParsedRanking, ParsedProfile, ReadsChoices, ReadsProfile;
    if item.Obj? {
      TextRead(item, "id", p.id);
      NumberRead(item, "grade_ordinal", p.grade);
      RankingRead(item, p.rankedChoices, offeringIds);
      ProfileRead(item, p.interestProfile);
    }
  }

  lemma ParticipantsRead(document: Json, participants: seq<Participant>, offeringIds: set<string>)
    ensures ParsedParticipants(document, offeringIds) == Some(participants) <==> ReadsParticipants(document, participants, offeringIds)
  {
    hide ParsedParticipant, ReadsParticipant, ReadsAll, ParseAll, SortBy, KeyLe, SortedBy, DistinctBy, KeyDecides, Keys;
    var parse, says := ParticipantParser(offeringIds), (x, p) => ReadsParticipant(x, p, offeringIds);
    forall x, y
      ensures parse(x) == Some(y) <==> says(x, y)
    {
      ParticipantRead(x, y, offeringIds);
    }
    UniqueOrder(ParticipantId, ParticipantKey, participants);
    SizeTellsDistinct(ParticipantId, participants);
    var raw := Field(document, "participants");
    if raw.Arr? && DistinctBy(ParticipantId, multiset(participants)) {
      AllRead(parse, says, ParticipantKey, raw.items, participants);
    }
    ParticipantOrder(participants);
  }

  lemma ParticipantOrder(participants: seq<Participant>)
    ensures (forall i, j :: 0 <= i < j < |participants| ==>
               ParticipantId(participants[i]) != ParticipantId(participants[j]) && KeyLe([ParticipantId(participants[i])], [ParticipantId(participants[j])]))
       <==> (forall i, j :: 0 <= i < j < |participants| ==>
               participants[i].id != participants[j].id && KeyLe([participants[i].id], [participants[j].id]))
  {
    hide KeyLe;
  }

  // ---- the request ----

  lemma HeaderRead(document: Json, header: Header)
    ensures ParsedHeader(document) == Some(header) <==> ReadsHeader(document, header.seed, header.limit, header.highRankMax)
    ensures ReadsHeader(document, header.seed, header.limit, header.highRankMax) ==> document.Obj?
  {
    LimitRead(document, header.limit);
    ConfigRead(document, header.highRankMax);
    hide ReadsLimit;
  }

  lemma LimitRead(document: Json, limit: real)
    ensures var value := Field(document, "max_deterministic_time");
            ReadsLimit(document, limit) <==>
              || (value.Int? && 0 < value.number < FLOAT_BOUND && value.number as real == limit)
              || (value.Real? && value.fraction > 0.0 && value.fraction == limit)
  {
    var value := Field(document, "max_deterministic_time");
    if value.Int? {
      assert Has(document, "max_deterministic_time", Int(value.number));
    }
  }

  lemma ConfigRead(document: Json, highRankMax: int)
    ensures (exists config :: Has(document, "quality_config", config) && Has(config, "high_rank_max", Int(highRankMax)))
            <==> StrictInt(Field(Field(document, "quality_config"), "high_rank_max")) == Some(highRankMax)
  {
    var config := Field(document, "quality_config");
    if StrictInt(Field(config, "high_rank_max")) == Some(highRankMax) {
      assert Has(document, "quality_config", config) && Has(config, "high_rank_max", Int(highRankMax));
    }
  }

  /** A document parses to a request exactly if it says that request. */
  lemma ParsedReads(document: Json, r: Request)
    ensures Parsed(document) == Some(r) <==> Reads(document, r)
  {
    hide ParsedHeader, ParsedOfferings, ParsedParticipants, ParsedPlacements, ParsedExceptions,
         ReadsHeader, ReadsOfferings, ReadsParticipants, ReadsPlacements, ReadsExceptions;
    HeaderRead(document, Header(r.seed, r.limit, r.highRankMax));
    if document.Obj? {
      OfferingsRead(document, r.offerings);
      ParticipantsRead(document, r.participants, Keys(OfferingId, r.offerings));
      assert Keys(OfferingId, r.offerings) == set o | o in r.offerings :: o.id;
      PlacementsRead(document, "pins", r.pins);
      PlacementsRead(document, "exclusions", r.exclusions);
      PlacementsRead(document, "prior_placements", r.priorPlacements);
      ExceptionsRead(document, r.exceptions);
    }
  }

  /** It is accepted exactly if it says some request, and then it says no other. */
  lemma AcceptedSays(document: Json)
    ensures Parsed(document).Some? <==> exists r :: Reads(document, r)
    ensures forall r, q :: Reads(document, r) && Reads(document, q) ==> r == q
  {
    hide Parsed, Reads;
    forall r
      ensures Parsed(document) == Some(r) <==> Reads(document, r)
    {
      ParsedReads(document, r);
    }
    if Parsed(document).Some? {
      assert Reads(document, Parsed(document).value);
    }
  }

  /** A whole number of seconds means what the same number with a fraction part means. */
  lemma WholeLimit(document: Json, n: int)
    requires document.Obj? && 0 < n < FLOAT_BOUND
    ensures var whole := Obj(document.fields["max_deterministic_time" := Int(n)]);
            && Parsed(whole) == Parsed(Obj(document.fields["max_deterministic_time" := Real(n as real)]))
            && (Parsed(whole).Some? ==> Parsed(whole).value.limit == n as real)
  {
    hide ParsedHeader, ParsedOfferings, ParsedParticipants, ParsedPlacements, ParsedExceptions, Keys;
    var whole, fraction := Obj(document.fields["max_deterministic_time" := Int(n)]), Obj(document.fields["max_deterministic_time" := Real(n as real)]);
    WholeHeader(document, n);
    OtherLists(whole, fraction);
    OtherPlacements(whole, fraction, "pins");
    OtherPlacements(whole, fraction, "exclusions");
    OtherPlacements(whole, fraction, "prior_placements");
  }

  lemma WholeHeader(document: Json, n: int)
    requires document.Obj? && 0 < n < FLOAT_BOUND
    ensures var whole := Obj(document.fields["max_deterministic_time" := Int(n)]);
            && ParsedHeader(whole) == ParsedHeader(Obj(document.fields["max_deterministic_time" := Real(n as real)]))
            && (ParsedHeader(whole).Some? ==> ParsedHeader(whole).value.limit == n as real)
  {
  }

  lemma OtherPlacements(a: Json, b: Json, key: string)
    requires FieldOr(a, key, Arr([])) == FieldOr(b, key, Arr([]))
    ensures ParsedPlacements(a, key) == ParsedPlacements(b, key)
  {
    hide ParseAll, SortBy;
  }

  lemma OtherLists(a: Json, b: Json)
    requires Field(a, "offerings") == Field(b, "offerings") && Field(a, "participants") == Field(b, "participants")
    requires FieldOr(a, "authorized_pinned_exceptions", Arr([])) == FieldOr(b, "authorized_pinned_exceptions", Arr([]))
    ensures ParsedOfferings(a) == ParsedOfferings(b) && ParsedExceptions(a) == ParsedExceptions(b)
    ensures forall ids :: ParsedParticipants(a, ids) == ParsedParticipants(b, ids)
  {
    hide ParseAll, SortBy, Keys, FieldOr;
  }
}
