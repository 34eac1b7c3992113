/** The solver's request snapshot and its preference scale, after parsing. */
module Contract {

  datatype Option<+T> = None | Some(value: T)

  const SEED_BOUND := 0x8000_0000_0000_0000

  /** The least integer too large for a double, 2^1024 - 2^970: converting it, or a larger one, fails. */
  const FLOAT_BOUND := 0xFFFFFFFFFFFFFC00000000000000000000000000000000000000000000000000000000000000000000000000000000000000000000000000000000000000000000000000000000000000000000000000000000000000000000000000000000000000000000000000000000000000000000000000000000000000000000000000

  /** A participant and an offering by their identifiers: a decision of the solver. */
  type Key = (string, string)

  /** Quality of one placement, best first. */
  datatype Quality = Top | High | Acceptable | Neutral | Unwanted

  /** The levels minimised, worst first. A top placement is never minimised. */
  const QUALITY_LEVELS: seq<Quality> := [Unwanted, Neutral, Acceptable, High]

  datatype Response = Ranked | Interested | NotInterested
  datatype Rating = VeryInterested | RatedInterested | RatedNotInterested
  datatype Rule = CapacityRule | GradeRule | ExclusionRule

  datatype Offering = Offering(id: string, capacity: nat, minGrade: int, maxGrade: int, interestArea: Option<string>)
  datatype RankedChoice = RankedChoice(offeringId: string, response: Response, rank: Option<int>)
  datatype InterestRating = InterestRating(interestArea: string, rating: Rating)
  datatype Participant = Participant(id: string, grade: int, rankedChoices: Option<seq<RankedChoice>>, interestProfile: seq<InterestRating>)
  datatype Placement = Placement(participantId: string, offeringId: string)
  datatype PinnedException = PinnedException(participantId: string, offeringId: string, rule: Rule)

  datatype Request = Request(seed: int, limit: real, highRankMax: int, participants: seq<Participant>, offerings: seq<Offering>,
                             pins: seq<Placement>, exclusions: seq<Placement>, exceptions: seq<PinnedException>,
                             priorPlacements: seq<Placement>)
  {
    /** What parsing guarantees and the solver relies on: identifiers are unique. */
    ghost predicate Valid() {
      && (forall i, j :: 0 <= i < j < |participants| ==> participants[i].id != participants[j].id)
      && (forall i, j :: 0 <= i < j < |offerings| ==> offerings[i].id != offerings[j].id)
    }
  }

  /** The answer recorded last for `offeringId`, as a dictionary built from the list returns it. */
  function ChoiceFor(choices: seq<RankedChoice>, offeringId: string): Option<RankedChoice> {
    if choices == [] then None
    else if choices[|choices| - 1].offeringId == offeringId then Some(choices[|choices| - 1])
    else ChoiceFor(choices[..|choices| - 1], offeringId)
  }

  function RatingFor(profile: seq<InterestRating>, area: string): Option<Rating> {
    if profile == [] then None
    else if profile[|profile| - 1].interestArea == area then Some(profile[|profile| - 1].rating)
    else RatingFor(profile[..|profile| - 1], area)
  }

  function RealizedQuality(p: Participant, o: Offering, highRankMax: int): Quality {
    match p.rankedChoices
    case Some(choices) => (
      match ChoiceFor(choices, o.id)
      case None => Neutral
      case Some(choice) =>
        match choice.response
        case NotInterested => Unwanted
        case Interested => Acceptable
        case Ranked =>
          if choice.rank == Some(1) then Top
          else if choice.rank.Some? && choice.rank.value <= highRankMax then High
          else Acceptable
      )
    case None =>
      if o.interestArea.None? then Neutral
      else match RatingFor(p.interestProfile, o.interestArea.value)
        case Some(VeryInterested) => High
        case Some(RatedInterested) => Acceptable
        case Some(RatedNotInterested) => Unwanted
        case None => Neutral
  }
}
