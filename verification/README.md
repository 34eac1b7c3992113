# Placement, import and admission: a verified model

A school runs sessions in which every participant is placed in exactly one offering. This project models the three
parts of the system whose correctness is hard to see by reading, and proves what they promise.

**The placement solver** (`solver/app/server.py`, `solver/app/contract.py`). A JSON document is parsed into a canonical
request, checked for stale pins, exclusions and exceptions, turned into a counting model, and optimised level by level
through an external constraint solver. When no placement exists, a hand-written bipartite matching and a search for
groups with too few seats explain why.

- `Documents`, `Sorting`, `Parsing`, `Canonicality`, `WireForm`, `Preferences`, `Reading`, `Acceptance`: parsing. Two
  documents that list the same things in different orders are accepted together and parse to one request; the parser
  produces the canonical requests, all of them and no others. `Reading.Reads` says field by field which request a document
  states, without the parser, and a document is accepted exactly if it states one.
- `Contract`, `Placing`, `Diagnostics`, `Constraints`, `Report`: the request, the hard rules (`Placing.Feasible`), and the
  report about stale constraints, which is empty exactly for a clean request (`Constraints.Clean`). `Report.Reported` says
  what each entry means by counting places in the request's lists, without the dictionaries that find it.
- `CpModel`, `Solving`, `Solve`, `Serving`: the counting model, its exact agreement with the hard rules, and the loop that
  minimises a level, freezes it and goes on. The external solver is a function given to `Solve.SolveRequest`; all that is
  assumed of it is `CpModel.HonestSolver`: a solution it calls optimal is a solution and none is better, one it calls
  feasible is a solution, a denial is right, and "unknown" says nothing.
- `Matching`, `Shortage`, `SeatCounting`, `Explanation`, `Infeasibility`: the explanation. Seats found dead by a failed
  search stay dead (`Matching.Search.Assign` takes such a closed set as a ghost argument), which makes the single pass of
  searches a maximum matching and each reported conflict irreducible.
- `Guarantees`, `Pinning`, `Resubmission`: what holds across solves. A result sent back with any part of it pinned, all of
  it as prior placements and any seed is the one best placement of the request sent (`Resubmission.SolveAgain`).

**The onboarding limiter** (`backend/internal/api/onboarding_rate_limit.go`): `RateLimit`, `AdmissionBound`, `StaleClock`,
`Eviction`, `LoneKey`, `Retry`. One token bucket for each client, refilled by the clock, with idle and least-recently-seen
eviction.

**The two-phase import** (`backend/internal/ingest`): `Rows`, `Writes`, `Database`, `Roster`, `RosterPreview`,
`RosterOutcomes`, `RosterEdges`, `RowOrder`, `RosterCommit`, `RosterImport`, `RosterKept`, `EdgesKept`, `RosterFixedPoint`,
`RosterExamples` for rosters and `Grades`, `GradesFixedPoint` for grade sheets. A preview classifies every record of a
document against the stored people; the commit replays it as writes. `RosterOutcomes` and `RosterEdges` say which outcome
the stored rows justify, `RosterKept` and `EdgesKept` what a commit leaves of each stored row.

`Counting` and `Ordering` hold shared facts about finite sets and Python's string order.

## Findings

Six promises hold only on a condition, which is proved to be the exact one.

- With times that never run back, the limiter keeps every key within its burst and refill rate if and only if a bucket
  idle for the time-to-live is full, that is, `ttl * refill >= burst * window` (`AdmissionBound.RateLimitedIff`). The
  defaults meet it; settings are not checked for it.
- The limiter reads the clock before it takes its lock (lines 145-146), and strips the reading of its monotonic part, so a
  call can arrive with an older time than the one before it. The rate over the span of the times then holds if and only
  if no time is stale at all and the condition above is met: with times that may fall even one nanosecond behind, every
  setting lets a key be admitted as often as one likes within a span of one nanosecond
  (`StaleClock.RateLimitedWithinIff`, `StaleClock.StaleTimesAdmitAny`). Admissions are always bounded by how far the clock
  rose in all (`AdmissionBound.AdmissionsBounded`).
- As long as no more keys are in use than buckets are allowed, idle eviction changes no answer if and only if an idle
  bucket is full, or there is room for one bucket only, of one token, that earns one token in a window
  (`LoneKey.EvictionInvisibleIff`).
- A roster preview without errors does not promise a commit. The commit succeeds if and only if there is no error, every
  record of the document appears in a row of a retained adult, and no edge to be created ends at a placeholder student
  (`RosterImport.Commit`). A child in a classroom whose only adults were excluded appears in their rows alone, which the
  preview skips, and the import fails (`RosterExamples.CleanPreviewMayNotCommit`). A placeholder that was given an
  external identifier is previewed like any student, and the database refuses its edges
  (`RosterExamples.PlaceholderMayNotCommit`).
- Previewing a committed roster again finds nothing to do if and only if the last row of each adult lists that adult's
  edges (`RosterFixedPoint.SettledIff`). Line 233 of `preview.go` starts an adult's edge set afresh at every row, so a
  second row for the same adult turns the edges of the first into removals (`RosterExamples.SecondRowForgetsEdges`).
  With one row for each adult it always settles (`RosterFixedPoint.OneRowCovers`).
- Matching a committed grade sheet again finds every grade in place if and only if the rows that find one student name one
  level (`GradesFixedPoint.GradesSettleIff`). The check for contradictions compares rows by name, and a student may be
  found by a legal and by a preferred name; then the first row wins and the other asks for its own level again
  (`GradesFixedPoint.TwoNamesOneStudent`).

## Model

| member | source | states |
|---|---|---|
| Documents.ParseAllRearranged | solver/app/contract.py:136-150 | parsing a list element by element accepts every rearrangement of an accepted list and rearranges the result |
| Sorting.SortByKeeps | solver/app/contract.py:136-150 | the sorted tuple holds the same entries with the same multiplicities, in key order |
| Sorting.OneOrder | solver/app/contract.py:136-150 | two sorted lists of the same entries are equal when keys tell the entries apart |
| Sorting.SortForgets | solver/app/contract.py:136-150 | sorting by keys that tell the entries apart forgets the order the entries came in |
| Ordering.LeMeans | solver/app/contract.py:136-150 | the order of texts: one begins the other, or at the first place where they differ the smaller has the smaller character |
| Sorting.KeyLeMeans | solver/app/contract.py:136-150 | the order of keys: one begins the other, or at the first place where they differ the smaller has the smaller text |
| Parsing.SizeTellsDistinct | solver/app/contract.py:151-152 | comparing the number of distinct ids with the number of entries detects exactly the lists that repeat an id |
| Parsing.ParseRankedChoices | solver/app/contract.py:228-261 | the loop with its two seen-sets accepts exactly the lists whose entries all parse, with one answer per offering and one offering per rank, and returns them sorted |
| Parsing.ParseInterestProfile | solver/app/contract.py:264-279 | the loop with its seen-set accepts exactly the lists whose entries all parse and that rate no area twice, and returns them sorted |
| Parsing.ParseParticipants | solver/app/contract.py:166-183 | the participant loop accepts exactly when every participant parses and no id repeats |
| Parsing.ParseRequest | solver/app/contract.py:103-213 | the whole parser, refusals included, loop by loop, returns the specification that `Acceptance.ParsedReads` characterises |
| Acceptance.ParsedReads | solver/app/contract.py:103-279 | the request returned is the one the document states, field by field: every field present and of its kind, texts, bounds and enumerations as demanded, ids distinct, answers one per offering and rank, and tuples sorted; and whenever the document states a request, that one is returned |
| Acceptance.AcceptedSays | solver/app/contract.py:103-279 | a document is accepted if and only if it states some request in that sense, and it states at most one |
| Acceptance.WholeLimit | solver/app/contract.py:121-123 | a whole time limit is read exactly as the same limit written as a real number, and is the limit of the request |
| Canonicality.OrderIsForgotten | solver/app/contract.py:103-279 | documents that list the same offerings, participants, answers, pins, exclusions, exceptions and prior placements in any orders are accepted together and parse to the same request |
| Canonicality.ParticipantForgets | solver/app/contract.py:228-279 | a participant's choices and ratings may be listed in any order |
| WireForm.ParsedIsCanonical | solver/app/contract.py:103-279 | an accepted document yields sorted tuples of well-formed entries, unique ids, and answers that name offerings of the request once and ranks once |
| WireForm.CanonicalIsValid | solver/app/contract.py:151-152 | a canonical request has unique participant and offering ids, which the solver relies on |
| WireForm.RoundTrip | solver/app/contract.py:103-279 | writing a canonical request as a document and parsing it returns the request |
| WireForm.ProducesExactlyCanonical | solver/app/contract.py:103-279 | a request can come out of the parser if and only if it is canonical |
| WireForm.ParsingIsIdempotent | solver/app/contract.py:103-279 | re-sending what was parsed, in canonical order, changes nothing |
| Preferences.OneAnswer | solver/app/contract.py:284-286 | the dictionary built from parsed choices overwrites nothing: each choice is found under its offering |
| Preferences.RankedQuality | solver/app/contract.py:282-298 | each answer fixes the quality of its offering, and exactly the offerings without an answer are neutral |
| Preferences.RatedQuality | solver/app/contract.py:300-309 | without a ranking the rating of the offering's area decides, and exactly the unrated areas are neutral |
| Preferences.OneTop | solver/app/contract.py:284-294 | nobody has two top offerings |
| Constraints.ExclusionDiagnostics | solver/app/server.py:165-173 | reports exactly the unknown and the repeated exclusions |
| Constraints.ExceptionDiagnostics | solver/app/server.py:175-195 | reports exactly the exceptions without a pin, with an unknown end, not needed, or repeated |
| Constraints.CheckPin | solver/app/server.py:197-220 | one pin's diagnostics, and whether it stands |
| Constraints.ConflictingPins | solver/app/server.py:222-231 | reports exactly the participants with several standing pins, naming all their offerings |
| Constraints.OverflowDiagnostics | solver/app/server.py:233-257 | reports exactly the offerings with too few capacity exceptions for their pins, and each exception too many |
| Constraints.ConstraintDiagnostics | solver/app/server.py:150-258 | the report holds exactly the stale constraints, and is empty if and only if the request is clean |
| Constraints.NothingStale | solver/app/server.py:150-258 | nothing is stale if and only if every pin has a decision variable, nobody has two pins, exceptions sit once on pinned pairs that need them, exclusions are known and not repeated, and each offering has exactly max(0, pins - capacity) capacity exceptions |
| Report.StaleIsReported | solver/app/server.py:150-258 | for each code, a diagnostic is reported if and only if the request bears it out: an end the request does not know, an entry at two places of its list, a pin that breaks a rule without an exception, several standing pins of one person, more pins than seats and capacity exceptions, or an exception that is not needed, with the ids and counts that go with it |
| Solving.ModelMeaning | solver/app/server.py:56-87 | a set of decisions solves the exactly-one, capacity and pin constraints if and only if each is allowed, each participant has one, each offering stays within max(capacity, pins), and every pin is among them |
| Solving.ModelComplete | solver/app/server.py:56-87 | every placement that obeys the hard rules solves the model |
| Solving.ModelSound | solver/app/server.py:56-87 | every solution of the model is the choice of a placement that obeys the hard rules |
| Solve.BuildModel | solver/app/server.py:51-87 | the loops that create variables and constraints build that model and grade every decision |
| Solve.FreezeLevel | solver/app/server.py:99-108 | fixing a level at its proved minimum leaves exactly the placements that are best so far |
| Solve.FrozenOptimal | solver/app/server.py:99-108 | every solution of a model frozen at some levels is lexicographically optimal on those levels |
| Solve.FrozenBest | solver/app/server.py:110-125 | after four levels, an optimal answer of the last stage has best quality and keeps the most prior placements among all placements of best quality |
| Solve.RetainedTotal | solver/app/server.py:112-117 | the stability objective counts the unpinned prior placements that a placement keeps, with multiplicity, inert rows not counted |
| Solve.LastStage | solver/app/server.py:98-123 | the stage whose answer is final is the first of five that is not answered optimally, or the fifth, and every earlier one was answered optimally |
| Solve.OptimiseLevels | solver/app/server.py:99-108 | asks the stages in turn until one is not answered optimally: as many levels are frozen as were answered optimally, each at its own optimum, and the answer returned is the one to the last question asked |
| Solve.DenialIsFinal | solver/app/server.py:134-144 | a denial during the levels can only be the first one, and then no placement exists |
| Solve.KeepPlacements | solver/app/server.py:110-125 | asks the fifth stage and returns its answer, which is never a denial, and if optimal a best placement |
| Solve.ReadAssignments | solver/app/server.py:127-133 | the assignments list every participant once, in order of ids, with the offering chosen and the quality that participant's own answers give that offering |
| Solve.ListingTells | solver/app/server.py:127-131 | in the assignments every participant stands once, in the order of ids, with the offering the placement gives and the quality that this participant's answers give it |
| Solve.RetainedCounts | solver/app/server.py:112-117 | the retained count is the number of places in the prior list whose participant is not pinned and still sits there |
| Solve.SolveClean | solver/app/server.py:51-147 | the response has the status of the last stage asked and reports that stage's own values: five optimal answers give a best placement, a feasible answer after k optimal ones a placement optimal on k levels, each listed with the qualities the participants gave, and a denial is right and fully explained |
| Solve.SolveRequest | solver/app/server.py:43-147 | as above for a clean request; a request that is not clean gets no assignments and exactly the diagnostics that `Report.Reported` describes |
| Serving.SolveDocument | solver/app/server.py:33-147 | from a document: answered exactly if it states a request field by field, as that request deserves, and otherwise refused |
| Guarantees.QualityIndependent | solver/app/server.py:89-108 | the optimal quality counts do not depend on the seed or on prior placements |
| Guarantees.ResolveFixedPoint | solver/app/server.py:110-133 | feeding an optimal result back as prior placements returns exactly that result, whatever the seed |
| Guarantees.UnpinnedObeyRules | solver/app/server.py:56-73 | in any placement of a clean request, whoever is not pinned is within grade and not excluded |
| Guarantees.OverflowOnlyPinned | solver/app/server.py:75-82 | in any placement of a clean request, an offering over capacity holds exactly its pinned participants, one capacity exception for each one too many |
| Guarantees.ProperIff | solver/app/server.py:56-87 | for a clean request the placements are exactly these: every participant sits somewhere, the pinned where they are pinned and the others in an offering of the request, within grade and not excluded, and an offering over capacity holds pinned people only |
| Pinning.SameBound | solver/app/server.py:75-82 | pinning parts of a placement, wherever the new pins are listed, moves no offering's bound, max(capacity, pins), even where pins overflow |
| Pinning.PinnedClean | solver/app/server.py:150-258 | pinning parts of a placement keeps the diagnostics empty, wherever the new pins are listed |
| Pinning.PinningResults | solver/app/server.py:75-108 | pinning any subset of an optimal result, in any order among the pins there are, keeps the request clean, leaves as optimal exactly the optimal placements that agree with the pins, and leaves the optimal quality counts unchanged |
| Resubmission.PinnedBest | solver/app/server.py:110-125 | a placement of best quality that keeps the most prior placements is still one when any part of it is pinned |
| Resubmission.SentBackStands | solver/app/contract.py:103-213 | a best result sent back, any part of it pinned in canonical order and all of it as prior placements, is a request the parser can produce, is clean, and has that result as its one best placement |
| Resubmission.SolveAgain | solver/app/server.py:33-147 | the whole round from a document: an optimal answer sent back with any part of it pinned and all of it as prior placements, everything else of the request but the seed as it was, with any seed and to any honest solver, is never denied, and if answered optimally returns the same assignments |
| Matching.Search.Assign | solver/app/server.py:399-410 | terminates; a failure changes nothing and leaves every seat tried taken by people confined to tried seats; a success seats the caller, keeps everyone seated, and leaves stale at most the seat the caller gives up; it never touches a closed set of seats |
| Matching.Search.AssignAnew | solver/app/server.py:412-413 | one top-level search: the two maps are inverse again, and either exactly one person is added or nobody moves and their seats join the dead ones |
| Matching.CertificateBound | solver/app/server.py:388-414 | dead seats as the searches leave them prove that no seating covers more people |
| Matching.MaximumCapacityMatching | solver/app/server.py:388-414 | the single pass returns a maximum matching, although a failed participant is never retried |
| Shortage.ReachSlot | solver/app/server.py:361-369 | every slot reached is owned by someone new, and the seatings that free each reached person extend along the path |
| Shortage.ShortageFrom | solver/app/server.py:356-370 | the group found is confined to the seats found, one too many for them, and seatable without any one of its members |
| SeatCounting.SeatsFit | solver/app/server.py:392-397 | a seating on distinct slots is an assignment to offerings within their remaining capacity |
| SeatCounting.FitSeats | solver/app/server.py:392-397 | any assignment within the remaining capacity can be laid out on distinct slots |
| Explanation.FreeGraphMeaning | solver/app/server.py:304-344 | the graph of the explanation holds the unpinned participants with a decision variable, their offerings, and the seats pins leave |
| Explanation.FeasibleFits | solver/app/server.py:75-87 | a placement restricted to the unpinned fits into the seats that pins leave |
| Explanation.FitsFeasible | solver/app/server.py:75-87 | the unpinned fitted into the seats that pins leave, together with the pins, are a placement |
| Explanation.FeasibleIff | solver/app/server.py:304-315 | with sound pins a placement exists if and only if all unpinned participants may sit somewhere and fit together |
| Infeasibility.EligibilityOf | solver/app/server.py:321-336 | the eligible offerings of one participant, and exactly the obstacles to report when there is none |
| Infeasibility.FreeSeats | solver/app/server.py:312-344 | the eligibility loop builds that graph, and reports exactly the obstacles of the unpinned who may sit nowhere |
| Infeasibility.ShortfallConflict | solver/app/server.py:370-384 | each reported capacity conflict is irreducible: its people cannot all be placed, any proper part can, the offerings named are exactly those they could use, and these have one seat too few |
| Infeasibility.ConflictsDiffer | solver/app/server.py:371-374 | groups found from different people differ, so the guard against repeated signatures never fires |
| Infeasibility.ConflictsFrom | solver/app/server.py:354-385 | one distinct conflict for each person left unseated |
| Infeasibility.MaximumLeavesFewest | solver/app/server.py:346-349 | the people a maximum matching leaves out are as few as any assignment to the seats that pins leave must leave out |
| Infeasibility.InfeasibilityDiagnostics | solver/app/server.py:291-385 | the report is exactly the obstacles followed by distinct irreducible conflicts short by one seat, as many as the fewest eligible people any assignment to the remaining seats leaves out, and with sound pins it is empty if and only if a placement exists |
| RateLimit.WithDefaults | backend/internal/api/onboarding_rate_limit.go:50-68 | each field that is positive is kept and each other one replaced: 20 tokens, 20 a window, windows of a minute, 10000 buckets, ten minutes idle; so the settings used are always positive |
| RateLimit.Limiter.constructor | backend/internal/api/onboarding_rate_limit.go:92-100 | starts empty with usable settings |
| RateLimit.Limiter.Allow | backend/internal/api/onboarding_rate_limit.go:144-174 | one locked call in full: which buckets the cleanup, due once a window, and a full table forget, what the key then has, admitted exactly with a whole token of which one is taken, no other bucket touched, and the retry time of a refusal |
| RateLimit.StepIsCall | backend/internal/api/onboarding_rate_limit.go:144-174 | each step of the machine that the run theorems are about is such a call |
| RateLimit.Limiter.EvictExpired | backend/internal/api/onboarding_rate_limit.go:176-182 | exactly the buckets idle for the time-to-live go |
| RateLimit.Limiter.EvictOldest | backend/internal/api/onboarding_rate_limit.go:184-195 | exactly one bucket goes, and none was seen earlier |
| AdmissionBound.RunBounded | backend/internal/api/onboarding_rate_limit.go:144-195 | in every reachable state each bucket holds between zero and burst tokens and there are at most as many buckets as the limit |
| AdmissionBound.AdmissionsBounded | backend/internal/api/onboarding_rate_limit.go:144-182 | over every run and interleaving, a key not pushed out is admitted at most burst plus what the clock's total rise refills |
| AdmissionBound.RateLimitedIff | backend/internal/api/onboarding_rate_limit.go:144-182 | with times that never run back, every stretch of every run keeps every key within burst plus refill over its length, if and only if an idle bucket is full |
| AdmissionBound.Overrun | backend/internal/api/onboarding_rate_limit.go:149-152 | otherwise two bursts one time-to-live apart exceed the rate, because cleanup forgets the spent bucket |
| StaleClock.SwayAdmits | backend/internal/api/onboarding_rate_limit.go:145-172 | calls with two times in turn earn the key its share again with every pair, under any settings |
| StaleClock.StaleTimesAdmitAny | backend/internal/api/onboarding_rate_limit.go:145-172 | times that fall one nanosecond behind let a key be admitted more often than any given number, within a span of one nanosecond |
| StaleClock.RateLimitedWithinIff | backend/internal/api/onboarding_rate_limit.go:144-182 | with times that fall at most d behind, every stretch keeps every key within burst plus refill over the span of its times, if and only if d is zero and an idle bucket is full |
| Eviction.RunRemembers | backend/internal/api/onboarding_rate_limit.go:149-182 | below the bucket limit the limiter agrees at every step with one that never evicts |
| Eviction.ForgottenShows | backend/internal/api/onboarding_rate_limit.go:176-182 | a burst after a cleanup forgot a bucket that was not full is answered differently from a limiter that never evicts |
| Eviction.TwoKeysShow | backend/internal/api/onboarding_rate_limit.go:176-182 | if an idle bucket is not full and there is room for two buckets, some run within the bucket limit shows the difference |
| LoneKey.OneKeyShows | backend/internal/api/onboarding_rate_limit.go:176-182 | if an idle bucket is not full, one key alone shows the difference, unless burst and refill are both one |
| LoneKey.OneKeyLocked | backend/internal/api/onboarding_rate_limit.go:149-182 | with burst and refill of one, one key alone never shows a difference |
| LoneKey.EvictionInvisibleIff | backend/internal/api/onboarding_rate_limit.go:149-182 | for every setting: within the bucket limit idle eviction changes no answer if and only if an idle bucket is full, or the limit, burst and refill are all one |
| Eviction.RefusalsCostNothing | backend/internal/api/onboarding_rate_limit.go:164-173 | through any refused calls a key keeps all that the clock earned it |
| Eviction.RetryIsAdmitted | backend/internal/api/onboarding_rate_limit.go:164-173 | a call at least the returned retry time after a refusal, with no admission for that key in between, is admitted, whatever the other keys and evictions do |
| Retry.SecondLessEarnsLess | backend/internal/api/onboarding_rate_limit.go:172 | the retry time is whole seconds, at least one, and a second less does not earn a token |
| Retry.RetryIsLeast | backend/internal/api/onboarding_rate_limit.go:172 | among the times of whole seconds, those that earn a token are exactly those not below the retry time |
| Retry.EarlyRetryIsRefused | backend/internal/api/onboarding_rate_limit.go:160-173 | a key whose bucket was empty when refused, and that calls again a second or more too early, is refused again, whatever calls come between |
| RosterPreview.Rollup | backend/internal/ingest/preview.go:552-562 | an error of any record makes the row an error, else a conflict makes it a conflict, else an update an update, else a create a create, and otherwise it is unchanged |
| RosterPreview.CountOutcomes | backend/internal/ingest/preview.go:564-577 | the counters grow by exactly the number of records of each outcome |
| RosterPreview.PreviewRow | backend/internal/ingest/preview.go:223-257 | a row lists its adult, then each of its students and then each of its edges once, in order of first appearance, as far as the document carries them, and rolls up to their first outcome in priority |
| RosterPreview.RowRecordsShow | backend/internal/ingest/preview.go:223-257 | a row lists exactly the records its source row shows |
| RowOrder.RecordsInOrder | backend/internal/ingest/preview.go:229-257 | the records of a row are those its places name, adult, students, then edges, as far as the document carries them, each where it is first named and never again |
| RosterPreview.RetainedSplit | backend/internal/ingest/preview.go:222-226 | the rows retained come one by one and in source order: those of a list are those of any first part and then those of the rest |
| RosterPreview.FindRemovals | backend/internal/ingest/preview.go:261-279 | the removals are exactly the stored edges of represented adults that their last row omits |
| RosterEdges.OmittedTells | backend/internal/ingest/preview.go:261-279 | an edge is up for removal if and only if it joins two stored people with identifiers of which the document carries the adult, and the last row of that adult does not list it |
| RosterPreview.ClassifyRoster | backend/internal/ingest/preview.go:174-298 | one preview for each retained row in source order, the removals of omitted edges, and counts of every classified record |
| RosterOutcomes.AdultOutcomeJustified | backend/internal/ingest/preview.go:357-411 | for an adult with an identifier: conflict if and only if several stored rows bear it or the one that does is deleted; create if and only if none does and both names are given; error if and only if none does and a name is missing; update if and only if one active row does and a given field differs; unchanged if and only if none differs. Without an identifier, error |
| RosterOutcomes.StudentOutcomeJustified | backend/internal/ingest/preview.go:300-355 | the same for a student, where create, update and unchanged also need a classroom that names one homeroom, and without one whoever is not in conflict is in error |
| RosterOutcomes.HomeroomNamed | backend/internal/ingest/preview.go:463-476 | a classroom resolves to a homeroom if and only if it is not blank and that is the one homeroom that bears it |
| RosterEdges.EdgeOutcomeJustified | backend/internal/ingest/preview.go:413-461 | for an edge: error if and only if an end is missing or in error; else conflict if and only if an end is; else create if and only if no stored edge joins bearers of the two identifiers, update if and only if one does with another kind, unchanged if and only if one does with this kind |
| Database.Tx.CreateAdult | backend/internal/data/adult.go:44-69 | refused without a name or with an external identifier that another active adult holds; otherwise one row with a new id and trimmed texts is added |
| Database.Tx.UpdateAdult | backend/internal/data/adult.go:111-133 | refused without a name or an active row, or with an external identifier that another active adult holds; otherwise exactly that row is overwritten |
| Database.Tx.CreateStudent | backend/internal/data/student.go:41-71 | refused without a name or with an external identifier that another active student holds; otherwise one row with a new id and trimmed texts is added, which is no placeholder |
| Database.Tx.UpdateStudent | backend/internal/data/student.go:116-137 | refused without a name or an active row, for a placeholder without a grade, or with an external identifier that another active student holds; otherwise exactly that row is overwritten, and a placeholder stays one |
| Database.Tx.CreateRelationship | backend/internal/data/guardian_relationship.go:36-49 | refused for an unknown kind, a person not stored, an active placeholder, or a pair already joined, listed or not; otherwise one row is added |
| Database.Tx.UpdateRelationship | backend/internal/data/guardian_relationship.go:85-96 | refused for an unknown kind, an unknown row or one that ends at an active placeholder; otherwise exactly that row changes its kind |
| Database.Tx.DeleteRelationship | backend/internal/data/guardian_relationship.go:98-104 | says whether the row was there, and exactly it is gone |
| Database.TrimMeans | backend/internal/data/adult.go:44-69 | trimming removes blanks at both ends and nothing else, and what is left begins and ends with none |
| RosterCommit.PreviewRecordIndex | backend/internal/ingest/commit.go:302-314 | the index maps exactly the keys of shown records, to their outcomes |
| RosterCommit.AdultIndexed | backend/internal/ingest/commit.go:302-318 | an adult is found in the index exactly when a retained row is theirs, with their own outcome |
| RosterCommit.StudentIndexed | backend/internal/ingest/commit.go:302-318 | a student is found in the index exactly when a retained row names them, with their own outcome |
| RosterCommit.EdgeIndexed | backend/internal/ingest/commit.go:302-318 | an edge is found in the index exactly when a retained row lists it, with its own outcome |
| RosterCommit.WriteAdults | backend/internal/ingest/commit.go:107-157 | fails exactly when an adult appears in no retained row; otherwise each adult not in conflict has one row as the document demands and no other row changes |
| RosterCommit.WriteStudents | backend/internal/ingest/commit.go:159-203 | fails exactly when a student appears in no retained row; otherwise each student not in conflict has one row as the document demands and no other row changes |
| RosterImport.LiveEdge | backend/internal/ingest/commit.go:215-219 | an edge is not in conflict if and only if both its people were written, so no edge references a skipped person |
| RosterImport.WriteEdges | backend/internal/ingest/commit.go:205-237 | fails exactly when an edge appears in no retained row, or is to be created and ends at a placeholder; otherwise each edge not in conflict has one row of its kind and no other row changes |
| RosterImport.RemoveEdges | backend/internal/ingest/commit.go:239-258 | every removal finds its row, and exactly the omitted edges of adults not in conflict go |
| RosterImport.Commit | backend/internal/ingest/commit.go:58-75 | succeeds if and only if there is no error, every record appears in a retained row and no edge to be created ends at a placeholder; then every stored person is still there, with names, email and homeroom as the document gives them and all else as it was, and each new person is added with just what the document gives; otherwise nothing changes; no other check of the writer or the store can fail, and edges of soft-deleted people are left alone |
| RosterKept.ImportKeepsAdults | backend/internal/ingest/commit.go:107-157 | after a commit every adult row is there under its id with the same preferred name, phone, external identifier, intent and deleted flag; names and email are those of the document where it gives them; other rows are those of adults nobody bore the identifier of, with just what the document gives |
| RosterKept.ImportKeepsStudents | backend/internal/ingest/commit.go:159-203 | after a commit every student row is there under its id with the same preferred name, grade, external identifier, placeholder and deleted flags; names are those of the document where it gives them, and the homeroom the one its classroom names; other rows are those of students nobody bore the identifier of |
| EdgesKept.ImportKeepsEdges | backend/internal/ingest/commit.go:205-258 | after a commit exactly the omitted edges of adults not in conflict are gone, every other edge is there under its id with the kind the document lists or else its own, each new edge of the document is there, and there are no others |
| RosterFixedPoint.SettledIff | backend/internal/ingest/preview.go:174-298 | after a commit a second preview has the same conflicts, everything else unchanged and no removal for a written adult, if and only if the last row of each adult lists that adult's live edges |
| RosterFixedPoint.UncoveredUnsettles | backend/internal/ingest/preview.go:233 | a live edge its adult's last row does not list is gone after the commit, or up for removal in the next |
| RosterFixedPoint.OneRowCovers | backend/internal/ingest/preview.go:222-257 | with one row for each adult the condition holds |
| RosterFixedPoint.SettledCounts | backend/internal/ingest/preview.go:281-297 | then the second preview counts no create, update or error, the same conflicts, and as unchanged all the first would create, update or leave |
| RosterFixedPoint.CommitThenPreview | backend/internal/ingest/commit.go:92-260 | the whole round for any document: it is committed on that same condition, and a committed one settles, removals included, if and only if its live edges are in their adults' last rows, and then the second preview counts everything as unchanged or in conflict |
| RosterExamples.CleanPreviewMayNotCommit | backend/internal/ingest/commit.go:159-163 | a student in a classroom whose only adult was excluded: no error in the preview, and no retained row that shows the student |
| RosterExamples.PlaceholderMayNotCommit | backend/migrations/20260920100000_admin_student_corrections.sql:18-41 | a stored placeholder with an external identifier, and a complete document without errors whose new edge the database refuses |
| RosterExamples.OneKeyTwoRecords | backend/internal/ingest/commit.go:302-318 | an adult named by the word "adult": an edge and a person share a key, and no index gives both their own outcome |
| RosterExamples.SecondRowForgetsEdges | backend/internal/ingest/preview.go:233 | a complete document without errors that leaves a second import with work to do |
| Grades.MatchingGradeStudents | backend/internal/ingest/grades.go:108-128 | the students a name matches, in order |
| Grades.ResolveGradeLevel | backend/internal/ingest/grades.go:130-154 | the level a grade names if it names exactly one |
| Grades.OutcomeJustified | backend/internal/ingest/grades.go:62-106 | the outcome is the one that the stored rows justify: update if and only if exactly one student, who is active, bears the name, the grade names exactly one level, and the student has another; unchanged if the student has it; conflict if and only if a name that is not blank finds no such student; error otherwise |
| Grades.ClassifyGrade | backend/internal/ingest/grades.go:62-106 | the outcome of one row is justified in that sense by the stored students and levels |
| Grades.FindContradictions | backend/internal/ingest/grades.go:24-38 | a normalised name is contradicted if and only if two rows give it different grades, whatever their order |
| Grades.MatchGrades | backend/internal/ingest/grades.go:17-60 | every row of a contradicted name is in conflict, every other row has its own outcome, and the counters are the numbers of rows with each outcome |
| Grades.CommitGrades | backend/internal/ingest/commit.go:262-300 | succeeds if and only if no row is in error; each student gets the level of the first row that asks for them, is written at most once, and nobody else changes |
| GradesFixedPoint.RowAfter | backend/internal/ingest/grades.go:62-128 | after the commit a row in conflict still is, and any other row finds the same student and asks again exactly if they lack its level |
| GradesFixedPoint.GradesSettleIff | backend/internal/ingest/grades.go:17-60 | matching a committed sheet again leaves conflicts as they are and everything else unchanged, if and only if the rows that find one student name one level |
| GradesFixedPoint.TwoNamesOneStudent | backend/internal/ingest/grades.go:24-38 | a sheet without contradiction or error whose two rows find one student and name different levels |

## Left out

- The search of the constraint solver, its presolve settings, seeded decision order and deterministic time limit: it is a
  foreign library, and only its honesty is assumed. The seed and the limit are carried in the request and not used.
- HTTP, ports, byte-level JSON decoding, routing and middleware. A document is a decoded JSON value with finite numbers;
  NaN, which the decoder lets through as a time limit, and the rounding of the limit to a float are not modelled. An integer
  limit too large for a float is refused here; in the source the conversion raises, and the request gets no answer.
- The texts of errors and diagnostics. A refused document is `None`, and its message is not part of the model.
- The order of a diagnostic's identifiers and the final sorting of diagnostics in `canonical_response`: identifiers are
  sets, and the reports are stated as exactly which diagnostics they hold.
- `sort.Slice` over the removals: their order does not reach the store, which deletes each by its own id.
- Wrap-around of durations, and floating-point rounding in the limiter: durations are unbounded integers and tokens are
  reals.
- The limiter's mutex, beyond taking each call as one atomic step, and its logging. The zero time of the last cleanup is
  `None`, and a call's key is never empty, as the middleware guarantees.
- Unicode: names are trimmed of ASCII space only, and the normaliser of grade sheets is a parameter that can be any
  function of strings.
- The roster parser. Its output is taken to have trimmed texts, each record once, edges of a known kind, and identifiers,
  names and emails without NUL, which the database does not store in a text. That every record appears in a retained row
  is not assumed.
- RosterCommit.AdultIndexed: assumes that no edge shares its key in the preview's index with a person of the document, which takes
  an adult whose identifier is the word "adult" or "student". Without that it is false (`RosterExamples.OneKeyTwoRecords`); what
  a commit does with such a document is not modelled.
- RosterCommit.StudentIndexed: the same assumption.
- RosterCommit.EdgeIndexed: the same assumption.
- RosterImport.Commit: the same assumption, as part of `RosterCommit.WellFormed`.
- Constraints.ExclusionDiagnostics: which diagnostics the report holds is exact; how often one is repeated, and in what order, is not
  stated, because the response is sorted and a repeated entry tells the caller nothing new.
- Constraints.ExceptionDiagnostics: likewise.
- Constraints.ConflictingPins: likewise.
- Constraints.OverflowDiagnostics: likewise.
- Constraints.ConstraintDiagnostics: likewise.
- Database.Tx.CreateStudent: takes what an import passes; a grade, a preferred name, a placeholder and the provenance column
  cannot be given.
- Database.Tx.CreateAdult: likewise, a preferred name, a phone and an intent cannot be given.
- Foreign keys from students to homerooms and grade levels: an import takes both from the lists it reads or from the stored row.
- SQL behind the transaction: rows are sequences with unique ids, one relationship for each pair, external identifiers
  unique among active people, stored texts trimmed, and updates that find active rows only; a transaction that fails is
  undone as a whole. Edges of soft-deleted people are stored apart, since an import lists only those between active
  people, and no import deletes or restores a person.
- Audit entries, detail strings, field-by-field change lists, exclusions and warnings of the preview, the content hash and
  the checks on the school year: they do not affect outcomes or writes.
- Relationship keys: pairs of identifiers instead of strings joined by NUL.
- `Database` stands for the few mutations the imports use; the rest of the data layer, the identity and token code, and
  the user interface are not modelled.
