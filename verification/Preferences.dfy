/** What a participant's answers, as parsed, make of each offering. */
module Preferences {
  import opened Contract
  import opened Parsing
  import opened WireForm

  lemma {:induction false} ChoiceForFinds(choices: seq<RankedChoice>, offeringId: string)
    ensures ChoiceFor(choices, offeringId).None? <==> forall c :: c in choices ==> c.offeringId != offeringId
    ensures ChoiceFor(choices, offeringId).Some? ==>
              ChoiceFor(choices, offeringId).value in choices && ChoiceFor(choices, offeringId).value.offeringId == offeringId
  {
    if choices != [] {
      var n := |choices| - 1;
      ChoiceForFinds(choices[..n], offeringId);
      assert choices == choices[..n] + [choices[n]];
    }
  }

  lemma {:induction false} RatingForFinds(profile: seq<InterestRating>, area: string)
    ensures RatingFor(profile, area).None? <==> forall r :: r in profile ==> r.interestArea != area
    ensures RatingFor(profile, area).Some? ==> InterestRating(area, RatingFor(profile, area).value) in profile
  {
    if profile != [] {
      var n := |profile| - 1;
      RatingForFinds(profile[..n], area);
      assert profile == profile[..n] + [profile[n]];
    }
  }

  /** Parsed choices answer each offering once, so the dictionary of answers overwrites nothing. */
  lemma OneAnswer(choices: seq<RankedChoice>, c: RankedChoice)
    requires AnswersDistinct(multiset(choices)) && c in choices
    ensures ChoiceFor(choices, c.offeringId) == Some(c)
  {
    ChoiceForFinds(choices, c.offeringId);
    var found := ChoiceFor(choices, c.offeringId).value;
    assert found in multiset(choices) && c in multiset(choices);
    assert ChoiceOffering(found) == ChoiceOffering(c);
  }

  /** Each ranked choice fixes the quality of its offering, and an offering without an answer is neutral. */
  lemma RankedQuality(p: Participant, o: Offering, highRankMax: int, offeringIds: set<string>)
    requires p.rankedChoices.Some? && GoodRanking(p.rankedChoices, offeringIds) && highRankMax >= 2
    ensures forall c :: c in p.rankedChoices.value && c.offeringId == o.id ==>
              RealizedQuality(p, o, highRankMax) ==
                match c.response
                case NotInterested => Unwanted
                case Interested => Acceptable
                case Ranked => if c.rank.value == 1 then Top else if c.rank.value <= highRankMax then High else Acceptable
    ensures RealizedQuality(p, o, highRankMax) == Neutral <==> forall c :: c in p.rankedChoices.value ==> c.offeringId != o.id
  {
    hide AnswersDistinct, ChoiceFor;
    var choices := p.rankedChoices.value;
    ChoiceForFinds(choices, o.id);
    forall c | c in choices && c.offeringId == o.id
      ensures ChoiceFor(choices, o.id) == Some(c)
    {
      OneAnswer(choices, c);
    }
  }

  /** Whoever ranked offerings has at most one top offering. */
  lemma OneTop(p: Participant, o: Offering, other: Offering, highRankMax: int, offeringIds: set<string>)
    requires GoodRanking(p.rankedChoices, offeringIds) && highRankMax >= 2
    requires RealizedQuality(p, o, highRankMax) == Top && RealizedQuality(p, other, highRankMax) == Top
    ensures o.id == other.id
  {
    var choices := p.rankedChoices.value;
    ChoiceForFinds(choices, o.id);
    ChoiceForFinds(choices, other.id);
    var c, d := ChoiceFor(choices, o.id).value, ChoiceFor(choices, other.id).value;
    assert c in multiset(choices) && d in multiset(choices);
  }

  /** Without a ranking, the rating of the offering's interest area decides, and nothing is ever top. */
  lemma RatedQuality(p: Participant, o: Offering, highRankMax: int)
    requires p.rankedChoices.None? && GoodProfile(p.interestProfile)
    ensures forall r :: r in p.interestProfile && o.interestArea == Some(r.interestArea) ==>
              RealizedQuality(p, o, highRankMax) ==
                match r.rating
                case VeryInterested => High
                case RatedInterested => Acceptable
                case RatedNotInterested => Unwanted
    ensures RealizedQuality(p, o, highRankMax) == Neutral <==>
              forall r :: r in p.interestProfile ==> o.interestArea != Some(r.interestArea)
  {
    hide RatingFor;
    if o.interestArea.Some? {
      var area := o.interestArea.value;
      RatingForFinds(p.interestProfile, area);
      forall r | r in p.interestProfile && r.interestArea == area
        ensures RatingFor(p.interestProfile, area) == Some(r.rating)
      {
        var found := InterestRating(area, RatingFor(p.interestProfile, area).value);
        assert found in multiset(p.interestProfile) && r in multiset(p.interestProfile);
        assert RatedArea(found) == RatedArea(r);
      }
    }
  }
}
