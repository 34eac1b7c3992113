/** From a document to an answer. */
module Serving {
  import opened Contract
  import opened Documents
  import opened Parsing
  import opened WireForm
  import opened Reading
  import opened Acceptance
  import opened Constraints
  import opened Report
  import opened CpModel
  import opened Solve

  /** A document is refused, or answered as its canonical request deserves. `a` is the placement returned, if any. */
  method SolveDocument(document: Json, solver: Solver)
    returns (response: Option<SolveResponse>, ghost a: map<string, string>)
    requires HonestSolver(solver)
    ensures response.Some? <==> Parsed(document).Some?
    ensures response.Some? <==> exists r :: Reads(document, r)
    ensures response.Some? ==>
              && Reads(document, Parsed(document).value)
              && Canonical(Parsed(document).value) && Parsed(document).value.Valid()
              && response.value.seed == Parsed(document).value.seed
    ensures response.Some? && Clean(Parsed(document).value) ==> Answers(Parsed(document).value, solver, response.value, a)
    ensures response.Some? && !Clean(Parsed(document).value) ==>
              && response.value.status == InfeasibleStatus && response.value.assignments == []
              && response.value.diagnostics != []
              && forall d :: d in response.value.diagnostics <==> Reported(Parsed(document).value, d)
  {
    hide Parsed, Reads, Canonical, Request.Valid, Clean, Stale, Reported, Answers, HonestSolver;
    AcceptedSays(document);
    var request := ParseRequest(document);
    if request.None? {
      return None, map[];
    }
    ParsedReads(document, request.value);
    ParsedIsCanonical(document);
    CanonicalIsValid(request.value);
    var answer;
    answer, a := SolveRequest(request.value, solver);
    response := Some(answer);
  }
}
