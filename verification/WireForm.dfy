/** Which requests parsing can produce, and the document that carries each of them. */
module WireForm {
  import opened Contract
  import opened Documents
  import opened Sorting
  import opened Parsing
  import opened Canonicality

  // ---- The parsed requests ----

  predicate GoodOffering(o: Offering) {
    o.id != "" && 0 < o.minGrade <= o.maxGrade && (o.interestArea.Some? ==> o.interestArea.value != "")
  }

  predicate GoodChoice(c: RankedChoice, offeringIds: set<string>) {
    && c.offeringId != "" && c.offeringId in offeringIds
    && (c.rank.Some? <==> c.response == Ranked)
    && (c.rank.Some? ==> c.rank.value > 0)
  }

  ghost predicate GoodRanking(ranking: Option<seq<RankedChoice>>, offeringIds: set<string>) {
    ranking.Some? ==>
      && (forall c :: c in ranking.value ==> GoodChoice(c, offeringIds))
      && AnswersDistinct(multiset(ranking.value))
      && SortedBy(ChoiceKey, ranking.value)
  }

  ghost predicate GoodProfile(profile: seq<InterestRating>) {
    && (forall r :: r in profile ==> r.interestArea != "")
    && DistinctBy(RatedArea, multiset(profile))
    && SortedBy(RatingKey, profile)
  }

  ghost predicate GoodParticipant(p: Participant, offeringIds: set<string>) {
    p.id != "" && p.grade > 0 && GoodRanking(p.rankedChoices, offeringIds) && GoodProfile(p.interestProfile)
  }

  predicate GoodPlacement(p: Placement) {
    p.participantId != "" && p.offeringId != ""
  }

  predicate GoodException(e: PinnedException) {
    e.participantId != "" && e.offeringId != ""
  }

  ghost predicate GoodOfferings(offerings: seq<Offering>) {
    && offerings != []
    && (forall o :: o in offerings ==> GoodOffering(o))
    && DistinctBy(OfferingId, multiset(offerings))
    && SortedBy(OfferingKey, offerings)
  }

  ghost predicate GoodParticipants(participants: seq<Participant>, offeringIds: set<string>) {
    && (forall p :: p in participants ==> GoodParticipant(p, offeringIds))
    && DistinctBy(ParticipantId, multiset(participants))
    && SortedBy(ParticipantKey, participants)
  }

  ghost predicate GoodPlacements(placements: seq<Placement>) {
    (forall p :: p in placements ==> GoodPlacement(p)) && SortedBy(PlacementKey, placements)
  }

  ghost predicate GoodExceptions(exceptions: seq<PinnedException>) {
    (forall e :: e in exceptions ==> GoodException(e)) && SortedBy(ExceptionKey, exceptions)
  }

  ghost predicate Canonical(r: Request) {
    && -SEED_BOUND <= r.seed < SEED_BOUND && r.limit > 0.0 && r.highRankMax >= 2
    && GoodOfferings(r.offerings)
    && GoodParticipants(r.participants, Keys(OfferingId, r.offerings))
    && GoodPlacements(r.pins) && GoodPlacements(r.exclusions) && GoodPlacements(r.priorPlacements)
    && GoodExceptions(r.exceptions)
  }

  // ---- Everything parsed is canonical ----

  lemma Produced<T>(parse: Json -> Option<T>, raw: seq<Json>, x: T) returns (item: Json)
    requires ParseAll(parse, raw).Some? && x in ParseAll(parse, raw).value
    ensures item in raw && parse(item) == Some(x)
  {
    ParseAllElementwise(parse, raw);
    var i :| 0 <= i < |raw| && ParseAll(parse, raw).value[i] == x;
    item := raw[i];
  }

  lemma SortedMembers<T>(key: T -> SortKey, s: seq<T>)
    ensures multiset(SortBy(key, s)) == multiset(s) && SortedBy(key, SortBy(key, s))
    ensures forall x :: x in SortBy(key, s) <==> x in s
  {
    SortByKeeps(key, s);
    assert forall x :: x in s <==> x in multiset(s);
    assert forall x :: x in SortBy(key, s) <==> x in multiset(SortBy(key, s));
  }

  lemma RankingIsGood(item: Json, offeringIds: set<string>)
    requires ParsedRanking(item, offeringIds).Some?
    ensures GoodRanking(ParsedRanking(item, offeringIds).value, offeringIds)
  {
    hide ParseAll, SortBy, AnswersDistinct;
    if ParsedRanking(item, offeringIds).value.Some? {
      var raw := Field(Field(item, "ranked_choices"), "choices").items;
      var choices := ParseAll(ChoiceParser(offeringIds), raw).value;
      SortedMembers(ChoiceKey, choices);
      forall c | c in SortBy(ChoiceKey, choices)
        ensures GoodChoice(c, offeringIds)
      {
        var _ := Produced(ChoiceParser(offeringIds), raw, c);
      }
    }
  }

  lemma ProfileIsGood(item: Json)
    requires ParsedProfile(item).Some?
    ensures GoodProfile(ParsedProfile(item).value)
  {
    hide ParseAll, SortBy, DistinctBy;
    var raw := FieldOr(item, "interest_profile", Arr([])).items;
    var ratings := ParseAll(ParseRating, raw).value;
    SortedMembers(RatingKey, ratings);
    forall r | r in SortBy(RatingKey, ratings)
      ensures r.interestArea != ""
    {
      var _ := Produced(ParseRating, raw, r);
    }
  }

  lemma ParticipantIsGood(item: Json, offeringIds: set<string>)
    requires ParsedParticipant(item, offeringIds).Some?
    ensures GoodParticipant(ParsedParticipant(item, offeringIds).value, offeringIds)
  {
    hide ParsedRanking, ParsedProfile, GoodRanking, GoodProfile;
    RankingIsGood(item, offeringIds);
    ProfileIsGood(item);
  }

  lemma OfferingsAreGood(document: Json)
    requires ParsedOfferings(document).Some?
    ensures GoodOfferings(ParsedOfferings(document).value)
  {
    hide ParseAll, SortBy, DistinctBy, Keys;
    var raw := Field(document, "offerings").items;
    var parsed := ParseAll(ParseOffering, raw).value;
    ParseAllElementwise(ParseOffering, raw);
    SortedMembers(OfferingKey, parsed);
    SizeTellsDistinct(OfferingId, SortBy(OfferingKey, parsed));
    assert raw[0] in raw && parsed[0] in parsed;
    forall o | o in SortBy(OfferingKey, parsed)
      ensures GoodOffering(o)
    {
      var _ := Produced(ParseOffering, raw, o);
    }
  }

  lemma ParticipantsAreGood(document: Json, offeringIds: set<string>)
    requires ParsedParticipants(document, offeringIds).Some?
    ensures GoodParticipants(ParsedParticipants(document, offeringIds).value, offeringIds)
  {
    hide ParseAll, SortBy, DistinctBy, Keys, GoodParticipant;
    var raw := Field(document, "participants").items;
    var parsed := ParseAll(ParticipantParser(offeringIds), raw).value;
    SortedMembers(ParticipantKey, parsed);
    SizeTellsDistinct(ParticipantId, SortBy(ParticipantKey, parsed));
    forall p | p in SortBy(ParticipantKey, parsed)
      ensures GoodParticipant(p, offeringIds)
    {
      var item := Produced(ParticipantParser(offeringIds), raw, p);
      ParticipantIsGood(item, offeringIds);
    }
  }

  lemma PlacementsAreGood(document: Json, key: string)
    requires ParsedPlacements(document, key).Some?
    ensures GoodPlacements(ParsedPlacements(document, key).value)
  {
    hide ParseAll, SortBy;
    var raw := FieldOr(document, key, Arr([])).items;
    var parsed := ParseAll(ParsePlacement, raw).value;
    SortedMembers(PlacementKey, parsed);
    forall p | p in SortBy(PlacementKey, parsed)
      ensures GoodPlacement(p)
    {
      var _ := Produced(ParsePlacement, raw, p);
    }
  }

  lemma ExceptionsAreGood(document: Json)
    requires ParsedExceptions(document).Some?
    ensures GoodExceptions(ParsedExceptions(document).value)
  {
    hide ParseAll, SortBy;
    var raw := FieldOr(document, "authorized_pinned_exceptions", Arr([])).items;
    var parsed := ParseAll(ParseException, raw).value;
    SortedMembers(ExceptionKey, parsed);
    forall e | e in SortBy(ExceptionKey, parsed)
      ensures GoodException(e)
    {
      var _ := Produced(ParseException, raw, e);
    }
  }

  lemma ParsedIsCanonical(document: Json)
    requires Parsed(document).Some?
    ensures Canonical(Parsed(document).value)
  {
    hide ParsedOfferings, ParsedParticipants, ParsedPlacements, ParsedExceptions, Keys;
    hide GoodOfferings, GoodParticipants, GoodPlacements, GoodExceptions;
    var offerings := ParsedOfferings(document).value;
    OfferingsAreGood(document);
    ParticipantsAreGood(document, Keys(OfferingId, offerings));
    PlacementsAreGood(document, "pins");
    PlacementsAreGood(document, "exclusions");
    PlacementsAreGood(document, "prior_placements");
    ExceptionsAreGood(document);
  }

  /** What the solver relies on: identifiers are unique. */
  lemma CanonicalIsValid(r: Request)
    requires Canonical(r)
    ensures r.Valid()
  {
    DistinctPositions(OfferingId, r.offerings);
    DistinctPositions(ParticipantId, r.participants);
  }

  // ---- Every canonical request is parsed from the document that carries it ----

  function Text(value: Option<string>): Json {
    match value
    case Some(text) => Str(text)
    case None => Null
  }

  function RenderAll<T>(render: T -> Json, items: seq<T>): Json {
    Arr(seq(|items|, i requires 0 <= i < |items| => render(items[i])))
  }

  function RenderOffering(o: Offering): Json {
    Obj(map["id" := Str(o.id), "capacity" := Int(o.capacity), "min_grade_ordinal" := Int(o.minGrade),
            "max_grade_ordinal" := Int(o.maxGrade), "interest_area_id" := Text(o.interestArea)])
  }

  function RenderPlacement(p: Placement): Json {
    Obj(map["participant_id" := Str(p.participantId), "offering_id" := Str(p.offeringId)])
  }

  function RenderException(e: PinnedException): Json {
    Obj(map["participant_id" := Str(e.participantId), "offering_id" := Str(e.offeringId), "rule" := Str(RuleName(e.rule))])
  }

  function RenderChoice(c: RankedChoice): Json {
    var response := match c.response case Ranked => "ranked" case Interested => "interested" case NotInterested => "not_interested";
    Obj(map["offering_id" := Str(c.offeringId), "response" := Str(response),
            "rank" := if c.rank.Some? then Int(c.rank.value) else Null])
  }

  function RenderRating(r: InterestRating): Json {
    var rating := match r.rating
                  case VeryInterested => "very_interested"
                  case RatedInterested => "interested"
                  case RatedNotInterested => "not_interested";
    Obj(map["interest_area_id" := Str(r.interestArea), "rating" := Str(rating)])
  }

  function RenderRanking(ranking: Option<seq<RankedChoice>>): Json {
    match ranking
    case Some(choices) => Obj(map["choices" := RenderAll(RenderChoice, choices)])
    case None => Null
  }

  function RenderParticipant(p: Participant): Json {
    Obj(map["id" := Str(p.id), "grade_ordinal" := Int(p.grade), "ranked_choices" := RenderRanking(p.rankedChoices),
            "interest_profile" := RenderAll(RenderRating, p.interestProfile)])
  }

  function Render(r: Request): Json {
    Obj(map["version" := Str(CONTRACT_VERSION), "seed" := Int(r.seed), "max_deterministic_time" := Real(r.limit),
            "quality_config" := Obj(map["high_rank_max" := Int(r.highRankMax)]),
            "offerings" := RenderAll(RenderOffering, r.offerings),
            "participants" := RenderAll(RenderParticipant, r.participants),
            "pins" := RenderAll(RenderPlacement, r.pins),
            "exclusions" := RenderAll(RenderPlacement, r.exclusions),
            "authorized_pinned_exceptions" := RenderAll(RenderException, r.exceptions),
            "prior_placements" := RenderAll(RenderPlacement, r.priorPlacements)])
  }

  lemma ParseRendered<T>(parse: Json -> Option<T>, render: T -> Json, items: seq<T>)
    requires forall x :: x in items ==> parse(render(x)) == Some(x)
    ensures ParseAll(parse, RenderAll(render, items).items) == Some(items)
  {
    var raw := RenderAll(render, items).items;
    ParseAllElementwise(parse, raw);
    forall x | x in raw
      ensures parse(x).Some?
    {
      var i :| 0 <= i < |raw| && raw[i] == x;
      assert items[i] in items;
    }
    forall i | 0 <= i < |items|
      ensures ParseAll(parse, raw).value[i] == items[i]
    {
      assert items[i] in items && raw[i] == render(items[i]);
    }
    assert ParseAll(parse, raw).value == items;
  }

  lemma AlreadySorted<T(!new)>(key: T -> SortKey, items: seq<T>)
    requires SortedBy(key, items) && KeyDecides(key, multiset(items))
    ensures SortBy(key, items) == items
  {
    SortByKeeps(key, items);
    OneOrder(key, SortBy(key, items), items);
  }

  lemma OfferingTrip(o: Offering)
    requires GoodOffering(o)
    ensures ParseOffering(RenderOffering(o)) == Some(o)
  {
    var item := RenderOffering(o);
    assert "min_grade_ordinal"[1] != "max_grade_ordinal"[1];
    assert item.fields["id"] == Str(o.id);
    assert item.fields["capacity"] == Int(o.capacity);
    assert item.fields["min_grade_ordinal"] == Int(o.minGrade);
  }

  lemma PlacementTrip(p: Placement)
    requires GoodPlacement(p)
    ensures ParsePlacement(RenderPlacement(p)) == Some(p)
  {
  }

  lemma ExceptionTrip(e: PinnedException)
    requires GoodException(e)
    ensures ParseException(RenderException(e)) == Some(e)
  {
    RuleNames(e.rule);
    assert RuleName(e.rule) != "";
  }

  lemma ChoiceTrip(c: RankedChoice, offeringIds: set<string>)
    requires GoodChoice(c, offeringIds)
    ensures ChoiceParser(offeringIds)(RenderChoice(c)) == Some(c)
  {
  }

  lemma RatingTrip(r: InterestRating)
    requires r.interestArea != ""
    ensures ParseRating(RenderRating(r)) == Some(r)
  {
  }

  lemma RankingTrip(p: Participant, offeringIds: set<string>)
    requires GoodRanking(p.rankedChoices, offeringIds)
    ensures ParsedRanking(RenderParticipant(p), offeringIds) == Some(p.rankedChoices)
  {
    hide ParseAll, SortBy, AnswersDistinct, ChoiceParser, RenderChoice, GoodChoice;
    var item := RenderParticipant(p);
    assert Field(item, "ranked_choices") == RenderRanking(p.rankedChoices);
    if p.rankedChoices.Some? {
      var choices := p.rankedChoices.value;
      forall c | c in choices
        ensures ChoiceParser(offeringIds)(RenderChoice(c)) == Some(c)
      {
        ChoiceTrip(c, offeringIds);
      }
      ParseRendered(ChoiceParser(offeringIds), RenderChoice, choices);
      assert Field(RenderRanking(p.rankedChoices), "choices") == RenderAll(RenderChoice, choices);
      AnswersKeyDecides(choices);
      AlreadySorted(ChoiceKey, choices);
    }
  }

  lemma AnswersKeyDecides(choices: seq<RankedChoice>)
    requires AnswersDistinct(multiset(choices))
    ensures KeyDecides(ChoiceKey, multiset(choices))
  {
    UniqueKeyDecides(ChoiceOffering, ChoiceKey, multiset(choices));
  }

  lemma ProfileTrip(p: Participant)
    requires GoodProfile(p.interestProfile)
    ensures ParsedProfile(RenderParticipant(p)) == Some(p.interestProfile)
  {
    hide ParseAll, SortBy, DistinctBy, ParseRating, RenderRating;
    var profile := p.interestProfile;
    assert FieldOr(RenderParticipant(p), "interest_profile", Arr([])) == RenderAll(RenderRating, profile);
    forall r | r in profile
      ensures ParseRating(RenderRating(r)) == Some(r)
    {
      RatingTrip(r);
    }
    ParseRendered(ParseRating, RenderRating, profile);
    UniqueKeyDecides(RatedArea, RatingKey, multiset(profile));
    AlreadySorted(RatingKey, profile);
  }

  lemma ParticipantTrip(p: Participant, offeringIds: set<string>)
    requires GoodParticipant(p, offeringIds)
    ensures ParsedParticipant(RenderParticipant(p), offeringIds) == Some(p)
  {
    hide ParsedRanking, ParsedProfile, GoodRanking, GoodProfile, RenderRanking, RenderAll;
    RankingTrip(p, offeringIds);
    ProfileTrip(p);
    assert Field(RenderParticipant(p), "id") == Str(p.id);
    assert Field(RenderParticipant(p), "grade_ordinal") == Int(p.grade);
  }

  lemma OfferingsTrip(document: Json, offerings: seq<Offering>)
    requires GoodOfferings(offerings) && Field(document, "offerings") == RenderAll(RenderOffering, offerings)
    ensures ParsedOfferings(document) == Some(offerings)
  {
    hide ParseAll, SortBy, DistinctBy, Keys, ParseOffering, RenderOffering, GoodOffering;
    forall o | o in offerings
      ensures ParseOffering(RenderOffering(o)) == Some(o)
    {
      OfferingTrip(o);
    }
    ParseRendered(ParseOffering, RenderOffering, offerings);
    UniqueKeyDecides(OfferingId, OfferingKey, multiset(offerings));
    AlreadySorted(OfferingKey, offerings);
    SizeTellsDistinct(OfferingId, offerings);
  }

  lemma ParticipantsTrip(document: Json, participants: seq<Participant>, offeringIds: set<string>)
    requires GoodParticipants(participants, offeringIds)
    requires Field(document, "participants") == RenderAll(RenderParticipant, participants)
    ensures ParsedParticipants(document, offeringIds) == Some(participants)
  {
    hide ParseAll, SortBy, DistinctBy, Keys, ParsedParticipant, RenderParticipant, GoodParticipant;
    forall p | p in participants
      ensures ParticipantParser(offeringIds)(RenderParticipant(p)) == Some(p)
    {
      ParticipantTrip(p, offeringIds);
    }
    ParseRendered(ParticipantParser(offeringIds), RenderParticipant, participants);
    UniqueKeyDecides(ParticipantId, ParticipantKey, multiset(participants));
    AlreadySorted(ParticipantKey, participants);
    SizeTellsDistinct(ParticipantId, participants);
  }

  lemma PlacementsTrip(document: Json, key: string, placements: seq<Placement>)
    requires GoodPlacements(placements) && FieldOr(document, key, Arr([])) == RenderAll(RenderPlacement, placements)
    ensures ParsedPlacements(document, key) == Some(placements)
  {
    hide ParseAll, SortBy, ParsePlacement, RenderPlacement, GoodPlacement;
    forall p | p in placements
      ensures ParsePlacement(RenderPlacement(p)) == Some(p)
    {
      PlacementTrip(p);
    }
    ParseRendered(ParsePlacement, RenderPlacement, placements);
    PlacementKeyDecides(multiset(placements));
    AlreadySorted(PlacementKey, placements);
  }

  lemma ExceptionsTrip(document: Json, exceptions: seq<PinnedException>)
    requires GoodExceptions(exceptions)
    requires FieldOr(document, "authorized_pinned_exceptions", Arr([])) == RenderAll(RenderException, exceptions)
    ensures ParsedExceptions(document) == Some(exceptions)
  {
    hide ParseAll, SortBy, ParseException, RenderException, GoodException;
    forall e | e in exceptions
      ensures ParseException(RenderException(e)) == Some(e)
    {
      ExceptionTrip(e);
    }
    ParseRendered(ParseException, RenderException, exceptions);
    ExceptionKeyDecides(multiset(exceptions));
    AlreadySorted(ExceptionKey, exceptions);
  }

  lemma HeaderTrip(r: Request)
    requires -SEED_BOUND <= r.seed < SEED_BOUND && r.limit > 0.0 && r.highRankMax >= 2
    ensures ParsedHeader(Render(r)) == Some(Header(r.seed, r.limit, r.highRankMax))
  {
    var document := Render(r);
    assert Field(document, "version") == Str(CONTRACT_VERSION);
    assert Field(document, "seed") == Int(r.seed);
    assert Field(document, "max_deterministic_time") == Real(r.limit);
    assert Field(document, "quality_config") == Obj(map["high_rank_max" := Int(r.highRankMax)]);
  }

  lemma RenderedLists(r: Request)
    ensures Field(Render(r), "offerings") == RenderAll(RenderOffering, r.offerings)
    ensures Field(Render(r), "participants") == RenderAll(RenderParticipant, r.participants)
    ensures FieldOr(Render(r), "pins", Arr([])) == RenderAll(RenderPlacement, r.pins)
    ensures FieldOr(Render(r), "exclusions", Arr([])) == RenderAll(RenderPlacement, r.exclusions)
    ensures FieldOr(Render(r), "authorized_pinned_exceptions", Arr([])) == RenderAll(RenderException, r.exceptions)
    ensures FieldOr(Render(r), "prior_placements", Arr([])) == RenderAll(RenderPlacement, r.priorPlacements)
  {
    hide RenderAll;
  }

  /** Parsing loses nothing of a canonical request. */
  lemma RoundTrip(r: Request)
    requires Canonical(r)
    ensures Parsed(Render(r)) == Some(r)
  {
    hide Render, RenderAll, ParsedHeader, ParsedOfferings, ParsedParticipants, ParsedPlacements, ParsedExceptions, Keys;
    hide GoodOfferings, GoodParticipants, GoodPlacements, GoodExceptions;
    var document := Render(r);
    HeaderTrip(r);
    RenderedLists(r);
    OfferingsTrip(document, r.offerings);
    ParticipantsTrip(document, r.participants, Keys(OfferingId, r.offerings));
    PlacementsTrip(document, "pins", r.pins);
    PlacementsTrip(document, "exclusions", r.exclusions);
    ExceptionsTrip(document, r.exceptions);
    PlacementsTrip(document, "prior_placements", r.priorPlacements);
  }

  /** The parser produces the canonical requests, all of them and no others. */
  lemma ProducesExactlyCanonical(r: Request)
    ensures Canonical(r) <==> exists document :: Parsed(document) == Some(r)
  {
    hide Canonical, Parsed;
    if Canonical(r) {
      RoundTrip(r);
    }
    if document :| Parsed(document) == Some(r) {
      ParsedIsCanonical(document);
    }
  }

  /** Re-sending a parsed request in its canonical order changes nothing. */
  lemma ParsingIsIdempotent(document: Json)
    requires Parsed(document).Some?
    ensures Parsed(Render(Parsed(document).value)) == Parsed(document)
  {
    hide Canonical, Parsed;
    ParsedIsCanonical(document);
    RoundTrip(Parsed(document).value);
  }
}
