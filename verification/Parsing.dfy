/** Parsing a solve request: every check of the wire contract, and the sorted tuples it produces. */
module Parsing {
  import opened Contract
  import opened Counting
  import opened Documents
  import opened Sorting

  const CONTRACT_VERSION := "v1"

  // ---- Uniqueness by key ----

  /** No two entries of `m` share a key, repeated entries included. */
  ghost predicate DistinctBy<T(!new), K>(key: T -> K, m: multiset<T>) {
    && (forall x :: x in m ==> m[x] == 1)
    && (forall x, y :: x in m && y in m && key(x) == key(y) ==> x == y)
  }

  lemma DistinctByStep<T(!new), K>(key: T -> K, m: multiset<T>, x: T)
    ensures DistinctBy(key, m + multiset{x}) <==> DistinctBy(key, m) && forall y :: y in m ==> key(y) != key(x)
  {
    var grown := m + multiset{x};
    assert forall y :: y in grown <==> y in m || y == x;
    assert forall y :: y != x ==> grown[y] == m[y];
    assert grown[x] == m[x] + 1;
    if DistinctBy(key, grown) {
      assert x !in m;
    }
  }

  lemma DistinctByPart<T(!new), K>(key: T -> K, part: multiset<T>, m: multiset<T>)
    requires part <= m && DistinctBy(key, m)
    ensures DistinctBy(key, part)
  {
    assert forall x :: x in part ==> x in m && part[x] <= m[x];
  }

  function Keys<T(==), K>(key: T -> K, s: seq<T>): set<K> {
    set x | x in s :: key(x)
  }

  /** Comparing the number of keys with the number of entries decides uniqueness. */
  lemma {:induction false} SizeTellsDistinct<T(!new), K>(key: T -> K, s: seq<T>)
    ensures |Keys(key, s)| <= |s|
    ensures |Keys(key, s)| == |s| <==> DistinctBy(key, multiset(s))
  {
    if s == [] {
      assert Keys(key, s) == {};
    } else {
      var front, last := s[..|s| - 1], s[|s| - 1];
      WithoutLast(s);
      SizeTellsDistinct(key, front);
      assert Keys(key, s) == Keys(key, front) + {key(last)};
      DistinctByStep(key, multiset(front), last);
      if key(last) in Keys(key, front) {
        var y :| y in front && key(y) == key(last);
        assert y in multiset(front);
        assert Keys(key, s) == Keys(key, front);
      } else {
        assert forall y :: y in multiset(front) ==> y in front;
        UnionSize(Keys(key, front), {key(last)});
      }
    }
  }

  /** Entries with distinct keys sit at one position each. */
  lemma DistinctPositions<T(!new), K>(key: T -> K, s: seq<T>)
    requires DistinctBy(key, multiset(s))
    ensures forall i, j :: 0 <= i < j < |s| ==> key(s[i]) != key(s[j])
  {
    forall i, j | 0 <= i < j < |s|
      ensures key(s[i]) != key(s[j])
    {
      assert s == s[..j] + s[j..];
      assert s[i] == s[..j][i] && s[j] == s[j..][0];
      assert s[i] in multiset(s[..j]) && s[j] in multiset(s[j..]);
      assert multiset(s) == multiset(s[..j]) + multiset(s[j..]);
      assert s[i] in multiset(s) && s[j] in multiset(s);
    }
  }

  lemma {:induction false} PositionsDistinct<T(!new), K(!new)>(key: T -> K, s: seq<T>)
    requires forall i, j :: 0 <= i < j < |s| ==> key(s[i]) != key(s[j])
    ensures DistinctBy(key, multiset(s))
  {
    if s != [] {
      var n := |s| - 1;
      PositionsDistinct(key, s[..n]);
      WithoutLast(s);
      DistinctByStep(key, multiset(s[..n]), s[n]);
      assert forall y :: y in multiset(s[..n]) ==> y in s[..n];
    }
  }

  // ---- Elements ----

  function ParseOffering(item: Json): Option<Offering> {
    var id := RequiredString(item, "id");
    var capacity := AsInt(Field(item, "capacity"));
    var lowest := AsInt(Field(item, "min_grade_ordinal"));
    var highest := AsInt(Field(item, "max_grade_ordinal"));
    var area := RequiredString(item, "interest_area_id");
    if !item.Obj? || id.None? || capacity.None? || lowest.None? || highest.None? then None
    else if capacity.value < 0 || lowest.value <= 0 || highest.value < lowest.value then None
    else if area.None? && Field(item, "interest_area_id") != Null then None
    else Some(Offering(id.value, capacity.value, lowest.value, highest.value, area))
  }

  function ParsePlacement(item: Json): Option<Placement> {
    match (RequiredString(item, "participant_id"), RequiredString(item, "offering_id"))
    case (Some(participantId), Some(offeringId)) => Some(Placement(participantId, offeringId))
    case _ => None
  }

  function RuleName(rule: Rule): string {
    match rule
    case CapacityRule => "capacity"
    case GradeRule => "grade"
    case ExclusionRule => "exclusion"
  }

  function ParseRule(name: string): Option<Rule> {
    if name == "capacity" then Some(CapacityRule)
    else if name == "grade" then Some(GradeRule)
    else if name == "exclusion" then Some(ExclusionRule)
    else None
  }

  function ParseException(item: Json): Option<PinnedException> {
    match (ParsePlacement(item), RequiredString(item, "rule"))
    case (Some(pair), Some(name)) => (
      match ParseRule(name)
      case Some(rule) => Some(PinnedException(pair.participantId, pair.offeringId, rule))
      case None => None
    )
    case _ => None
  }

  function ParseChoice(item: Json, offeringIds: set<string>): Option<RankedChoice> {
    var offeringId := RequiredString(item, "offering_id");
    var response := Field(item, "response");
    var rank := Field(item, "rank");
    if offeringId.None? || offeringId.value !in offeringIds then None
    else if response == Str("ranked") then
      if rank.Int? && rank.number > 0 then Some(RankedChoice(offeringId.value, Ranked, Some(rank.number))) else None
    else if rank != Null then None
    else if response == Str("interested") then Some(RankedChoice(offeringId.value, Interested, None))
    else if response == Str("not_interested") then Some(RankedChoice(offeringId.value, NotInterested, None))
    else None
  }

  function ParseRating(item: Json): Option<InterestRating> {
    match RequiredString(item, "interest_area_id")
    case None => None
    case Some(area) =>
      var rating := Field(item, "rating");
      if rating == Str("very_interested") then Some(InterestRating(area, VeryInterested))
      else if rating == Str("interested") then Some(InterestRating(area, RatedInterested))
      else if rating == Str("not_interested") then Some(InterestRating(area, RatedNotInterested))
      else None
  }

  // ---- Sort keys ----

  function OfferingKey(o: Offering): SortKey { [o.id] }
  function ParticipantKey(p: Participant): SortKey { [p.id] }
  function ChoiceKey(c: RankedChoice): SortKey { [c.offeringId] }
  function RatingKey(r: InterestRating): SortKey { [r.interestArea] }
  function PlacementKey(p: Placement): SortKey { [p.participantId, p.offeringId] }
  function ExceptionKey(e: PinnedException): SortKey { [e.participantId, e.offeringId, RuleName(e.rule)] }

  function OfferingId(o: Offering): string { o.id }
  function ParticipantId(p: Participant): string { p.id }
  function ChoiceOffering(c: RankedChoice): string { c.offeringId }
  function RatedArea(r: InterestRating): string { r.interestArea }

  function ChoiceParser(offeringIds: set<string>): Json -> Option<RankedChoice> {
    item => ParseChoice(item, offeringIds)
  }

  // ---- A participant's answers ----

  /** One answer per offering and one offering per rank. */
  ghost predicate AnswersDistinct(choices: multiset<RankedChoice>) {
    && DistinctBy(ChoiceOffering, choices)
    && forall c, d :: c in choices && d in choices && c.rank.Some? && c.rank == d.rank ==> c == d
  }

  ghost function ParsedChoices(raw: seq<Json>, offeringIds: set<string>): Option<seq<RankedChoice>> {
    match ParseAll(ChoiceParser(offeringIds), raw)
    case None => None
    case Some(choices) => if AnswersDistinct(multiset(choices)) then Some(SortBy(ChoiceKey, choices)) else None
  }

  /** The outer option is acceptance; the inner one says whether the participant ranked at all. */
  ghost function ParsedRanking(item: Json, offeringIds: set<string>): Option<Option<seq<RankedChoice>>> {
    var submission := Field(item, "ranked_choices");
    var raw := Field(submission, "choices");
    if submission == Null then Some(None)
    else if !raw.Arr? then None
    else
      match ParsedChoices(raw.items, offeringIds)
      case None => None
      case Some(choices) => Some(Some(choices))
  }

  ghost function UniqueRatings(raw: seq<Json>): Option<seq<InterestRating>> {
    match ParseAll(ParseRating, raw)
    case None => None
    case Some(ratings) => if DistinctBy(RatedArea, multiset(ratings)) then Some(SortBy(RatingKey, ratings)) else None
  }

  ghost function ParsedProfile(item: Json): Option<seq<InterestRating>> {
    var raw := FieldOr(item, "interest_profile", Arr([]));
    if !raw.Arr? then None
    else UniqueRatings(raw.items)
  }

  ghost function ParsedParticipant(item: Json, offeringIds: set<string>): Option<Participant> {
    var id := RequiredString(item, "id");
    var grade := AsInt(Field(item, "grade_ordinal"));
    if !item.Obj? || id.None? || grade.None? || grade.value <= 0 then None
    else
      match (ParsedRanking(item, offeringIds), ParsedProfile(item))
      case (Some(ranking), Some(profile)) => Some(Participant(id.value, grade.value, ranking, profile))
      case _ => None
  }

  ghost function ParticipantParser(offeringIds: set<string>): Json -> Option<Participant> {
    item => ParsedParticipant(item, offeringIds)
  }

  // ---- The request ----

  function ParsedOfferings(document: Json): Option<seq<Offering>> {
    var raw := Field(document, "offerings");
    if !raw.Arr? || raw.items == [] then None
    else
      match ParseAll(ParseOffering, raw.items)
      case None => None
      case Some(parsed) =>
        var offerings := SortBy(OfferingKey, parsed);
        if |Keys(OfferingId, offerings)| != |offerings| then None else Some(offerings)
  }

  ghost function ParsedParticipants(document: Json, offeringIds: set<string>): Option<seq<Participant>> {
    var raw := Field(document, "participants");
    if !raw.Arr? then None
    else
      match ParseAll(ParticipantParser(offeringIds), raw.items)
      case None => None
      case Some(parsed) =>
        var participants := SortBy(ParticipantKey, parsed);
        if |Keys(ParticipantId, participants)| != |participants| then None else Some(participants)
  }

  function ParsedPlacements(document: Json, key: string): Option<seq<Placement>> {
    var raw := FieldOr(document, key, Arr([]));
    if !raw.Arr? then None
    else
      match ParseAll(ParsePlacement, raw.items)
      case None => None
      case Some(parsed) => Some(SortBy(PlacementKey, parsed))
  }

  function ParsedExceptions(document: Json): Option<seq<PinnedException>> {
    var raw := FieldOr(document, "authorized_pinned_exceptions", Arr([]));
    if !raw.Arr? then None
    else
      match ParseAll(ParseException, raw.items)
      case None => None
      case Some(parsed) => Some(SortBy(ExceptionKey, parsed))
  }

  datatype Header = Header(seed: int, limit: real, highRankMax: int)

  function ParsedHeader(document: Json): Option<Header> {
    var seed := StrictInt(Field(document, "seed"));
    var limit := Field(document, "max_deterministic_time");
    var highRankMax := StrictInt(Field(Field(document, "quality_config"), "high_rank_max"));
    if !document.Obj? || Field(document, "version") != Str(CONTRACT_VERSION) then None
    else if seed.None? || !(-SEED_BOUND <= seed.value < SEED_BOUND) then None
    else if !(limit.Int? && 0 < limit.number < FLOAT_BOUND) && !(limit.Real? && limit.fraction > 0.0) then None
    else if highRankMax.None? || highRankMax.value < 2 then None
    else Some(Header(seed.value, if limit.Int? then limit.number as real else limit.fraction, highRankMax.value))
  }

  ghost function Parsed(document: Json): Option<Request> {
    match (ParsedHeader(document), ParsedOfferings(document))
    case (Some(header), Some(offerings)) => (
      match (ParsedParticipants(document, Keys(OfferingId, offerings)), ParsedPlacements(document, "pins"),
             ParsedPlacements(document, "exclusions"), ParsedExceptions(document),
             ParsedPlacements(document, "prior_placements"))
      case (Some(participants), Some(pins), Some(exclusions), Some(exceptions), Some(priors)) =>
        Some(Request(header.seed, header.limit, header.highRankMax, participants, offerings,
                     pins, exclusions, exceptions, priors))
      case _ => None
    )
    case _ => None
  }

  // ---- The loops ----

  lemma AnswersPart(part: multiset<RankedChoice>, all: multiset<RankedChoice>)
    requires part <= all && AnswersDistinct(all)
    ensures AnswersDistinct(part)
  {
    DistinctByPart(ChoiceOffering, part, all);
    assert forall c :: c in part ==> c in all;
  }

  /** A beginning that repeats an offering or a rank spoils the whole list. */
  lemma ChoicesRejected(raw: seq<Json>, offeringIds: set<string>, n: nat)
    requires n <= |raw|
    requires ParseAll(ChoiceParser(offeringIds), raw[..n]).Some?
    requires !AnswersDistinct(multiset(ParseAll(ChoiceParser(offeringIds), raw[..n]).value))
    ensures ParsedChoices(raw, offeringIds).None?
  {
    hide AnswersDistinct, ParseAll;
    var all := ParseAll(ChoiceParser(offeringIds), raw);
    if all.Some? && AnswersDistinct(multiset(all.value)) {
      ParseAllPrefix(ChoiceParser(offeringIds), raw, n);
      assert all.value == all.value[..n] + all.value[n..];
      AnswersPart(multiset(all.value[..n]), multiset(all.value));
    }
  }

  lemma AnswersStep(choices: multiset<RankedChoice>, c: RankedChoice)
    requires AnswersDistinct(choices)
    ensures AnswersDistinct(choices + multiset{c}) <==>
            (forall d :: d in choices ==> d.offeringId != c.offeringId && (c.rank.Some? ==> d.rank != c.rank))
  {
    DistinctByStep(ChoiceOffering, choices, c);
    assert forall d :: d in choices + multiset{c} <==> d in choices || d == c;
    assert forall d :: ChoiceOffering(d) == d.offeringId;
  }

  /** What the loop over a participant's choices has gathered before entry `i`. */
  ghost predicate ChoicesTaken(raw: seq<Json>, offeringIds: set<string>, i: nat, choices: seq<RankedChoice>,
                               seenOfferings: set<string>, seenRanks: set<int>)
  {
    && i <= |raw|
    && ParseAll(ChoiceParser(offeringIds), raw[..i]) == Some(choices)
    && AnswersDistinct(multiset(choices)) && Seen(choices, seenOfferings, seenRanks)
  }

  predicate Repeats(c: RankedChoice, seenOfferings: set<string>, seenRanks: set<int>) {
    c.offeringId in seenOfferings || (c.rank.Some? && c.rank.value in seenRanks)
  }

  /** The seen-sets hold the offerings and ranks of the choices taken so far. */
  ghost predicate Seen(choices: seq<RankedChoice>, seenOfferings: set<string>, seenRanks: set<int>) {
    && (forall id :: id in seenOfferings <==> exists c :: c in choices && c.offeringId == id)
    && (forall n :: n in seenRanks <==> exists c :: c in choices && c.rank.Some? && c.rank.value == n)
  }

  lemma SeenGrows(choices: seq<RankedChoice>, seenOfferings: set<string>, seenRanks: set<int>, c: RankedChoice)
    requires Seen(choices, seenOfferings, seenRanks)
    ensures Seen(choices + [c], seenOfferings + {c.offeringId}, seenRanks + (if c.rank.Some? then {c.rank.value} else {}))
  {
    var next := choices + [c];
    assert forall d :: d in next <==> d in choices || d == c;
    assert c in next;
  }

  /** Looking a choice up in the seen-sets tells whether some choice taken clashes with it. */
  lemma SeenClash(choices: seq<RankedChoice>, seenOfferings: set<string>, seenRanks: set<int>, c: RankedChoice)
    requires Seen(choices, seenOfferings, seenRanks)
    ensures Repeats(c, seenOfferings, seenRanks) <==>
            exists d :: d in choices && (d.offeringId == c.offeringId || (c.rank.Some? && d.rank == c.rank))
  {
    if c.offeringId in seenOfferings {
      var d :| d in choices && d.offeringId == c.offeringId;
    } else if c.rank.Some? && c.rank.value in seenRanks {
      var d :| d in choices && d.rank.Some? && d.rank.value == c.rank.value;
      assert d.rank == c.rank;
    }
    if d :| d in choices && (d.offeringId == c.offeringId || (c.rank.Some? && d.rank == c.rank)) {
      assert d.offeringId in seenOfferings;
      if c.rank.Some? && d.rank == c.rank {
        var n := c.rank.value;
        assert d.rank.Some? && d.rank.value == n;
        assert n in seenRanks;
      }
    }
  }

  lemma SeenDecides(choices: seq<RankedChoice>, seenOfferings: set<string>, seenRanks: set<int>, c: RankedChoice)
    requires AnswersDistinct(multiset(choices)) && Seen(choices, seenOfferings, seenRanks)
    ensures AnswersDistinct(multiset(choices + [c])) <==> !Repeats(c, seenOfferings, seenRanks)
  {
    hide AnswersDistinct, Seen, Repeats;
    SeenClash(choices, seenOfferings, seenRanks, c);
    AnswersStep(multiset(choices), c);
    assert multiset(choices + [c]) == multiset(choices) + multiset{c};
    assert forall d :: d in multiset(choices) <==> d in choices;
  }

  lemma NextChoice(raw: seq<Json>, offeringIds: set<string>, i: nat, choices: seq<RankedChoice>,
                   seenOfferings: set<string>, seenRanks: set<int>, c: RankedChoice)
    requires ChoicesTaken(raw, offeringIds, i, choices, seenOfferings, seenRanks)
    requires i < |raw| && ParseChoice(raw[i], offeringIds) == Some(c)
    ensures Repeats(c, seenOfferings, seenRanks) ==> ParsedChoices(raw, offeringIds).None?
    ensures !Repeats(c, seenOfferings, seenRanks) ==>
              ChoicesTaken(raw, offeringIds, i + 1, choices + [c], seenOfferings + {c.offeringId},
                           seenRanks + (if c.rank.Some? then {c.rank.value} else {}))
  {
    hide ParsedChoices, ParseAll, ParseChoice, AnswersDistinct, Seen, Repeats;
    ParseAllStep(ChoiceParser(offeringIds), raw, i);
    assert ParseAll(ChoiceParser(offeringIds), raw[..i + 1]) == Some(choices + [c]);
    SeenDecides(choices, seenOfferings, seenRanks, c);
    SeenGrows(choices, seenOfferings, seenRanks, c);
    if Repeats(c, seenOfferings, seenRanks) {
      ChoicesRejected(raw, offeringIds, i + 1);
    }
  }

  method ParseRankedChoices(item: Json, offeringIds: set<string>) returns (r: Option<Option<seq<RankedChoice>>>)
    ensures r == ParsedRanking(item, offeringIds)
  {
    hide ParseAll, ChoicesTaken, AnswersDistinct;
    var submission := Field(item, "ranked_choices");
    if submission == Null {
      return Some(None);
    }
    var raw := Field(submission, "choices");
    if !raw.Arr? {
      return None;
    }
    var choices: seq<RankedChoice>, seenOfferings: set<string>, seenRanks: set<int> := [], {}, {};
    NoChoices(raw.items, offeringIds);
    for i := 0 to |raw.items|
      invariant ChoicesTaken(raw.items, offeringIds, i, choices, seenOfferings, seenRanks)
    {
      var entry := raw.items[i];
      ParseAllStep(ChoiceParser(offeringIds), raw.items, i);
      var offeringId := RequiredString(entry, "offering_id");
      var response, rank := Field(entry, "response"), Field(entry, "rank");
      if offeringId.None? || offeringId.value !in offeringIds {
        return None;
      }
      var choice: RankedChoice;
      if response == Str("ranked") {
        if !rank.Int? || rank.number <= 0 {
          return None;
        }
        choice := RankedChoice(offeringId.value, Ranked, Some(rank.number));
      } else if response == Str("interested") || response == Str("not_interested") {
        if rank != Null {
          return None;
        }
        choice := RankedChoice(offeringId.value, if response == Str("interested") then Interested else NotInterested, None);
      } else {
        return None;
      }
      NextChoice(raw.items, offeringIds, i, choices, seenOfferings, seenRanks, choice);
      if Repeats(choice, seenOfferings, seenRanks) {
        return None;
      }
      seenOfferings := seenOfferings + {choice.offeringId};
      seenRanks := seenRanks + (if choice.rank.Some? then {choice.rank.value} else {});
      choices := choices + [choice];
    }
    AllChoices(raw.items, offeringIds, choices, seenOfferings, seenRanks);
    r := Some(Some(SortBy(ChoiceKey, choices)));
  }

  lemma NoChoices(raw: seq<Json>, offeringIds: set<string>)
    ensures ChoicesTaken(raw, offeringIds, 0, [], {}, {})
  {
  }

  lemma AllChoices(raw: seq<Json>, offeringIds: set<string>, choices: seq<RankedChoice>,
                   seenOfferings: set<string>, seenRanks: set<int>)
    requires ChoicesTaken(raw, offeringIds, |raw|, choices, seenOfferings, seenRanks)
    ensures ParsedChoices(raw, offeringIds) == Some(SortBy(ChoiceKey, choices))
  {
    assert raw[..|raw|] == raw;
  }

  /** What the loop over a participant's ratings has gathered before entry `i`. */
  ghost predicate RatingsTaken(raw: seq<Json>, i: nat, profile: seq<InterestRating>, seenAreas: set<string>) {
    && i <= |raw|
    && ParseAll(ParseRating, raw[..i]) == Some(profile)
    && DistinctBy(RatedArea, multiset(profile))
    && forall area :: area in seenAreas <==> exists r :: r in profile && r.interestArea == area
  }

  lemma RatingsRejected(raw: seq<Json>, n: nat)
    requires n <= |raw| && ParseAll(ParseRating, raw[..n]).Some?
    requires !DistinctBy(RatedArea, multiset(ParseAll(ParseRating, raw[..n]).value))
    ensures UniqueRatings(raw).None?
  {
    hide DistinctBy, ParseAll;
    var all := ParseAll(ParseRating, raw);
    if all.Some? && DistinctBy(RatedArea, multiset(all.value)) {
      ParseAllPrefix(ParseRating, raw, n);
      assert all.value == all.value[..n] + all.value[n..];
      DistinctByPart(RatedArea, multiset(all.value[..n]), multiset(all.value));
    }
  }

  lemma NextRating(raw: seq<Json>, i: nat, profile: seq<InterestRating>, seenAreas: set<string>, r: InterestRating)
    requires RatingsTaken(raw, i, profile, seenAreas)
    requires i < |raw| && ParseRating(raw[i]) == Some(r)
    ensures r.interestArea in seenAreas ==> UniqueRatings(raw).None?
    ensures r.interestArea !in seenAreas ==> RatingsTaken(raw, i + 1, profile + [r], seenAreas + {r.interestArea})
  {
    hide UniqueRatings, ParseAll, ParseRating, DistinctBy;
    ParseAllStep(ParseRating, raw, i);
    DistinctByStep(RatedArea, multiset(profile), r);
    assert multiset(profile + [r]) == multiset(profile) + multiset{r};
    assert forall d :: d in multiset(profile) <==> d in profile;
    assert forall d :: d in profile + [r] <==> d in profile || d == r;
    assert forall d :: RatedArea(d) == d.interestArea;
    if r.interestArea in seenAreas {
      RatingsRejected(raw, i + 1);
    } else {
      forall d | d in multiset(profile)
        ensures RatedArea(d) != RatedArea(r)
      {
        assert d.interestArea in seenAreas;
      }
    }
  }

  method ParseInterestProfile(item: Json) returns (r: Option<seq<InterestRating>>)
    ensures r == ParsedProfile(item)
  {
    hide ParseAll, DistinctBy;
    var raw := FieldOr(item, "interest_profile", Arr([]));
    if !raw.Arr? {
      return None;
    }
    var profile: seq<InterestRating>, seenAreas: set<string> := [], {};
    NoRatings(raw.items);
    for i := 0 to |raw.items|
      invariant RatingsTaken(raw.items, i, profile, seenAreas)
    {
      var entry := raw.items[i];
      ParseAllStep(ParseRating, raw.items, i);
      var area := RequiredString(entry, "interest_area_id");
      if area.None? {
        return None;
      }
      var rating := Field(entry, "rating");
      if area.value in seenAreas {
        if ParseRating(entry).Some? {
          NextRating(raw.items, i, profile, seenAreas, ParseRating(entry).value);
        }
        return None;
      }
      if rating !in [Str("very_interested"), Str("interested"), Str("not_interested")] {
        return None;
      }
      var parsed := ParseRating(entry).value;
      NextRating(raw.items, i, profile, seenAreas, parsed);
      seenAreas := seenAreas + {area.value};
      profile := profile + [parsed];
    }
    AllRatings(raw.items, profile, seenAreas);
    r := Some(SortBy(RatingKey, profile));
  }

  lemma NoRatings(raw: seq<Json>)
    ensures RatingsTaken(raw, 0, [], {})
  {
  }

  lemma AllRatings(raw: seq<Json>, profile: seq<InterestRating>, seenAreas: set<string>)
    requires RatingsTaken(raw, |raw|, profile, seenAreas)
    ensures UniqueRatings(raw) == Some(SortBy(RatingKey, profile))
  {
    assert raw[..|raw|] == raw;
  }

  method ParseParticipants(document: Json, offeringIds: set<string>) returns (r: Option<seq<Participant>>)
    ensures r == ParsedParticipants(document, offeringIds)
  {
    hide ParseAll, ParsedRanking, ParsedProfile;
    var raw := Field(document, "participants");
    if !raw.Arr? {
      return None;
    }
    ghost var parser := ParticipantParser(offeringIds);
    var participants: seq<Participant> := [];
    ParseAllElementwise(parser, []);
    assert raw.items[..0] == [];
    for i := 0 to |raw.items|
      invariant ParseAll(parser, raw.items[..i]) == Some(participants)
    {
      var item := raw.items[i];
      ParseAllStep(parser, raw.items, i);
      if !item.Obj? {
        return None;
      }
      var id := RequiredString(item, "id");
      if id.None? {
        return None;
      }
      var grade := AsInt(Field(item, "grade_ordinal"));
      if grade.None? || grade.value <= 0 {
        return None;
      }
      var ranking := ParseRankedChoices(item, offeringIds);
      if ranking.None? {
        return None;
      }
      var profile := ParseInterestProfile(item);
      if profile.None? {
        return None;
      }
      participants := participants + [Participant(id.value, grade.value, ranking.value, profile.value)];
    }
    assert raw.items[..|raw.items|] == raw.items;
    participants := SortBy(ParticipantKey, participants);
    if |Keys(ParticipantId, participants)| != |participants| {
      return None;
    }
    r := Some(participants);
  }

  method ParseRequest(document: Json) returns (r: Option<Request>)
    ensures r == Parsed(document)
  {
    hide ParsedHeader, ParsedOfferings, ParsedParticipants, ParsedPlacements, ParsedExceptions;
    var header := ParsedHeader(document);
    if header.None? {
      return None;
    }
    var offerings := ParsedOfferings(document);
    if offerings.None? {
      return None;
    }
    var participants := ParseParticipants(document, Keys(OfferingId, offerings.value));
    if participants.None? {
      return None;
    }
    var pins := ParsedPlacements(document, "pins");
    var exclusions := ParsedPlacements(document, "exclusions");
    var exceptions := ParsedExceptions(document);
    var priors := ParsedPlacements(document, "prior_placements");
    if pins.None? || exclusions.None? || exceptions.None? || priors.None? {
      return None;
    }
    r := Some(Request(header.value.seed, header.value.limit, header.value.highRankMax, participants.value,
                      offerings.value, pins.value, exclusions.value, exceptions.value, priors.value));
  }
}
