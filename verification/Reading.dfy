/** What the fields of a document say of the request it carries, field by field, as the wire contract has it. */
module Reading {
  import opened Contract
  import opened Documents
  import opened Sorting

  ghost predicate Has(item: Json, key: string, value: Json) {
    item.Obj? && key in item.fields && item.fields[key] == value
  }

  ghost predicate Lacks(item: Json, key: string) {
    item.Obj? && key !in item.fields
  }

  /** Absent, or there and null. */
  ghost predicate Empty(item: Json, key: string) {
    Lacks(item, key) || Has(item, key, Null)
  }

  ghost predicate HasText(item: Json, key: string, text: string) {
    text != "" && Has(item, key, Str(text))
  }

  /** A whole number, or a boolean, which counts as zero or one. */
  ghost predicate HasNumber(item: Json, key: string, n: int) {
    Has(item, key, Int(n)) || (n == 0 && Has(item, key, Bool(false))) || (n == 1 && Has(item, key, Bool(true)))
  }

  ghost predicate ReadsOffering(item: Json, o: Offering) {
    && HasText(item, "id", o.id)
    && HasNumber(item, "capacity", o.capacity)
    && HasNumber(item, "min_grade_ordinal", o.minGrade) && HasNumber(item, "max_grade_ordinal", o.maxGrade)
    && 0 < o.minGrade <= o.maxGrade
    && if o.interestArea.Some? then HasText(item, "interest_area_id", o.interestArea.value) else Empty(item, "interest_area_id")
  }

  ghost predicate ReadsPlacement(item: Json, p: Placement) {
    HasText(item, "participant_id", p.participantId) && HasText(item, "offering_id", p.offeringId)
  }

  function RuleText(rule: Rule): string {
    match rule case CapacityRule => "capacity" case GradeRule => "grade" case ExclusionRule => "exclusion"
  }

  ghost predicate ReadsException(item: Json, e: PinnedException) {
    && HasText(item, "participant_id", e.participantId) && HasText(item, "offering_id", e.offeringId)
    && Has(item, "rule", Str(RuleText(e.rule)))
  }

  /** Only a ranked response carries a rank, a positive one. */
  ghost predicate ReadsChoice(item: Json, c: RankedChoice, offeringIds: set<string>) {
    && HasText(item, "offering_id", c.offeringId) && c.offeringId in offeringIds
    && match c.response
       case Ranked => Has(item, "response", Str("ranked")) && c.rank.Some? && c.rank.value > 0 && Has(item, "rank", Int(c.rank.value))
       case Interested => Has(item, "response", Str("interested")) && c.rank.None? && Empty(item, "rank")
       case NotInterested => Has(item, "response", Str("not_interested")) && c.rank.None? && Empty(item, "rank")
  }

  ghost predicate ReadsRating(item: Json, r: InterestRating) {
    && HasText(item, "interest_area_id", r.interestArea)
    && Has(item, "rating", Str(match r.rating
                               case VeryInterested => "very_interested"
                               case RatedInterested => "interested"
                               case RatedNotInterested => "not_interested"))
  }

  /** Every entry is read. */
  ghost predicate ReadsEach<T(!new)>(says: (Json, T) -> bool, raw: seq<Json>, read: seq<T>) {
    |raw| == |read| && forall i :: 0 <= i < |raw| ==> says(raw[i], read[i])
  }

  /** Every entry is read, whatever their order. */
  ghost predicate ReadsAll<T(!new)>(says: (Json, T) -> bool, raw: seq<Json>, items: seq<T>) {
    exists read :: ReadsEach(says, raw, read) && multiset(read) == multiset(items)
  }

  /** A missing list counts as an empty one. */
  ghost predicate ReadsList<T(!new)>(says: (Json, T) -> bool, item: Json, key: string, items: seq<T>) {
    (Lacks(item, key) && items == []) || exists raw :: Has(item, key, Arr(raw)) && ReadsAll(says, raw, items)
  }

  /** One answer per offering, one offering per rank, in the order of the offerings. */
  ghost predicate ReadsChoices(item: Json, choices: seq<RankedChoice>, offeringIds: set<string>) {
    && (exists submission, raw :: Has(item, "ranked_choices", submission) && Has(submission, "choices", Arr(raw))
                                  && ReadsAll((x, c) => ReadsChoice(x, c, offeringIds), raw, choices))
    && (forall i, j :: 0 <= i < j < |choices| ==>
         && choices[i].offeringId != choices[j].offeringId && KeyLe([choices[i].offeringId], [choices[j].offeringId])
         && (choices[i].rank.Some? ==> choices[i].rank != choices[j].rank))
  }

  ghost predicate ReadsProfile(item: Json, profile: seq<InterestRating>) {
    && ReadsList(ReadsRating, item, "interest_profile", profile)
    && (forall i, j :: 0 <= i < j < |profile| ==>
         profile[i].interestArea != profile[j].interestArea && KeyLe([profile[i].interestArea], [profile[j].interestArea]))
  }

  ghost predicate ReadsParticipant(item: Json, p: Participant, offeringIds: set<string>) {
    && HasText(item, "id", p.id)
    && HasNumber(item, "grade_ordinal", p.grade) && p.grade > 0
    && (if p.rankedChoices.Some? then ReadsChoices(item, p.rankedChoices.value, offeringIds) else Empty(item, "ranked_choices"))
    && ReadsProfile(item, p.interestProfile)
  }

  /** A positive number; a whole one must fit a double. */
  ghost predicate ReadsLimit(document: Json, limit: real) {
    || (limit > 0.0 && Has(document, "max_deterministic_time", Real(limit)))
    || exists n :: 0 < n < FLOAT_BOUND && n as real == limit && Has(document, "max_deterministic_time", Int(n))
  }

  ghost predicate ReadsHeader(document: Json, seed: int, limit: real, highRankMax: int) {
    && Has(document, "version", Str("v1"))
    && -SEED_BOUND <= seed < SEED_BOUND && Has(document, "seed", Int(seed))
    && ReadsLimit(document, limit)
    && highRankMax >= 2 && exists config :: Has(document, "quality_config", config) && Has(config, "high_rank_max", Int(highRankMax))
  }

  ghost predicate ReadsOfferings(document: Json, offerings: seq<Offering>) {
    && offerings != [] && (exists raw :: Has(document, "offerings", Arr(raw)) && ReadsAll(ReadsOffering, raw, offerings))
    && (forall i, j :: 0 <= i < j < |offerings| ==> offerings[i].id != offerings[j].id && KeyLe([offerings[i].id], [offerings[j].id]))
  }

  ghost predicate ReadsParticipants(document: Json, participants: seq<Participant>, offeringIds: set<string>) {
    && (exists raw :: Has(document, "participants", Arr(raw)) && ReadsAll((x, p) => ReadsParticipant(x, p, offeringIds), raw, participants))
    && (forall i, j :: 0 <= i < j < |participants| ==>
         participants[i].id != participants[j].id && KeyLe([participants[i].id], [participants[j].id]))
  }

  ghost predicate ReadsPlacements(document: Json, key: string, placements: seq<Placement>) {
    && ReadsList(ReadsPlacement, document, key, placements)
    && (forall i, j :: 0 <= i < j < |placements| ==>
         KeyLe([placements[i].participantId, placements[i].offeringId], [placements[j].participantId, placements[j].offeringId]))
  }

  ghost predicate ReadsExceptions(document: Json, exceptions: seq<PinnedException>) {
    && ReadsList(ReadsException, document, "authorized_pinned_exceptions", exceptions)
    && (forall i, j :: 0 <= i < j < |exceptions| ==>
         KeyLe([exceptions[i].participantId, exceptions[i].offeringId, RuleText(exceptions[i].rule)],
               [exceptions[j].participantId, exceptions[j].offeringId, RuleText(exceptions[j].rule)]))
  }

  /** The document carries exactly this request. */
  ghost predicate Reads(document: Json, r: Request) {
    && ReadsHeader(document, r.seed, r.limit, r.highRankMax)
    && ReadsOfferings(document, r.offerings)
    && ReadsParticipants(document, r.participants, set o | o in r.offerings :: o.id)
    && ReadsPlacements(document, "pins", r.pins)
    && ReadsPlacements(document, "exclusions", r.exclusions)
    && ReadsExceptions(document, r.exceptions)
    && ReadsPlacements(document, "prior_placements", r.priorPlacements)
  }
}
