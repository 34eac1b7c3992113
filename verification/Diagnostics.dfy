/** The vocabulary in which the solver explains a refusal. */
module Diagnostics {

  import opened Contract

  datatype Code =
    | ExclusionParticipantNotParticipating | ExclusionOfferingNotFound | ExclusionDuplicate
    | PinnedExceptionPinNotFound | PinnedExceptionParticipantNotParticipating | PinnedExceptionOfferingNotFound
    | PinnedExceptionGradeNotNeeded | PinnedExceptionExclusionNotNeeded | PinnedExceptionDuplicate
    | PinnedExceptionCapacityNotNeeded
    | PinParticipantNotParticipating | PinOfferingNotFound | PinGradeOutOfRange | PinExcluded
    | PinConflictingPlacement | PinCapacityExceeded
    | GradeEligibilityObstacle | ExclusionObstacle | NoEligibleOffering | CapacityShortage

  datatype Scope = GlobalConflict | OfferingObstacle

  /** The two identifier lists of a diagnostic are sorted and free of repeats, so sets carry all they say. */
  datatype Diagnostic = Diagnostic(code: Code, scope: Scope, participantIds: set<string>, offeringIds: set<string>,
                                   requiredCapacity: Option<int>, availableCapacity: Option<int>)

  /** A global conflict about one participant in one offering. */
  function PlacementDiagnostic(code: Code, participantId: string, offeringId: string): Diagnostic {
    Diagnostic(code, GlobalConflict, {participantId}, {offeringId}, None, None)
  }
}
