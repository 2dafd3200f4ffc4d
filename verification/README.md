# Food-factory inspection system: a verified model

The system records hygiene inspections of a food factory. Administrators
maintain versioned checklists; operators fill in a record against the published
version; supervisors and quality staff check and verify it; failing items raise
corrective actions; a freezer truck may only be loaded after a decision. Around
it sit sign-in with refresh-token rotation, CSV reports and two one-off
database scripts.

Each file models one part, in the form the code has there: pure code as
functions, services that update rows as classes whose methods are proved equal
to a step of a state machine, loops as loops with invariants. The main results
are about every run, every interleaving or every input of those step functions.

| file | part |
|---|---|
| `ChecklistEngine.dfy`, `ChecklistMeaning.dfy`, `MarkAll.dfy`, `Sorting.dfy` | response classification, validation, counts, loading recommendation, mark-all-acceptable |
| `RecordRules.dfy` | workflow table, segregation of duty, duplicates, stored statuses |
| `InspectionRecords.dfy`, `InspectionService.dfy` | the record service: step function and class |
| `RecordCalls.dfy`, `StoredAnswers.dfy`, `RecordAuthority.dfy` | each record call exactly, answers stored and read back, who signed with what right |
| `InspectionProofs.dfy`, `InspectionTheorems.dfy` | its invariant over all runs and the safety claims |
| `Submittability.dfy`, `Recommendations.dfy`, `TruckKeys.dfy` | which records can be submitted, when a recommendation changes, when a truck's key opens again |
| `SubmitGate.dfy`, `GateCalls.dfy`, `LateStores.dfy`, `LateRuns.dfy` | saves and submits that interleave answer by answer, loading decisions read and written apart, and what arrives late |
| `DraftRaces.dfy` | draft creations that overlap |
| `OneItemChecklists.dfy` | checklists of one item on which failing runs are shown |
| `Templates.dfy`, `TemplateService.dfy`, `TemplateProofs.dfy`, `TemplateTheorems.dfy` | checklist templates, versions, clones, reordering |
| `TemplateEdits.dfy`, `PublishedVersions.dfy` | what each editing call stores; which version is in force |
| `FactorySystem.dfy` | templates and records together |
| `CorrectiveActions.dfy`, `ActionCalls.dfy` | corrective-action lifecycle |
| `Auth.dfy`, `Authentication.dfy`, `AuthProofs.dfy`, `Passwords.dfy`, `SessionCalls.dfy`, `Lockout.dfy` | sign-in, rotation, accounts, request guard, lockout |
| `AuthRaces.dfy`, `NetCalls.dfy`, `AuthRaceProofs.dfy`, `AuthRaceLimits.dfy`, `AuthRaceLockout.dfy` | the same calls interleaved read by read and write by write, what survives and what does not |
| `StableJson.dfy`, `JsonSpelling.dfy`, `UsernameIndex.dfy`, `IndexesKept.dfy` | the stable printer and the username-index script |
| `Csv.dfy` | the CSV writer against a reader for section 2 of RFC 4180 |
| `Username.dfy`, `Cutover.dfy`, `CutoverMeaning.dfy` | username rules and the username cutover |
| `JsText.dfy`, `Wrappers.dfy` | JavaScript strings as 16-bit code units, optional values |

## Where a promise of the code fails

For each there is the exact condition under which the code keeps the promise
and a run or input that breaks it.

- NaN and the infinities print as `null`, so the stable printer tells values
  apart up to member order and up to that
  (`StableJson.StableStringifyDecidesSame`, `NonFinitePrintsAsNull`).
- A CSV row without cells cannot be read back; every other grid can
  (`Csv.DocumentReadsBack`, `EmptyRowIsLost`).
- An infinite reading out of bounds is a failure that no status shows, so
  "nothing failed" and "approved for loading" can differ
  (`ChecklistEngine.RecommendationAgreesWithCounts`,
  `OneItemChecklists.InfiniteReadingDisagrees`).
- Only status answers are stored; a record can be submitted exactly when no
  item is both required and of another type (`Submittability.SubmittableExactly`,
  `NumberChecklistIsNeverSubmitted`).
- A record returned after its check can never be verified: the guard against a
  second check stops it (`InspectionTheorems.VerifiableExactlyWhenUnchecked`). A
  truck's vehicle, date and shift can be opened again exactly when its newest
  record is neither such a one nor waits on a checklist that cannot be submitted
  (`TruckKeys.TruckKeyOpensExactly`, `ReturnedTruckIsStuck`).
- A cleaning record can be relabelled onto an occupied date, shift and area
  (`InspectionTheorems.StepKeepsKeysExactly`, `RelabellingBreaksUniqueness`).
- Saves and submits check the status once and store afterwards: a submitted
  record's answers change exactly while a call begun earlier still holds a
  differing one, its label exactly while such a save brings another
  (`LateStores.AnswersChangeExactly`, `LabelChangesExactly`). A save's late FAIL
  can leave a submitted truck with a critical failure under an approved loading
  decision (`LateRuns.LateFailureUnderApproval`).
- A loading decision reads the recommendation once and is written later without
  looking again. From a claim on the validated answers and the truck guarantee
  hold exactly when the claim finds those answers stored, no differing one
  pending, and no approval pending against a critical failure
  (`LateStores.ClaimedRecordHoldsExactly`,
  `LateRuns.LateApprovalOverCriticalFailure`).
- Two creations that overlap can leave two live inspections of one truck, date
  and shift; it happens exactly when one inserts after another that overtook its
  look-up (`DraftRaces.TruckKeysUniqueExactly`, `TwoCreationsShareAKey`).
- The recommendation is documented as never overwritten
  (packages/shared/src/truck-inspection.ts:135-136); a resubmit overwrites it
  exactly when its answers recommend something else
  (`Recommendations.NeverOverwrittenExactly`, `ResubmitOverwritesRecommendation`).
- The cutover passes its conflict check and fails its own verifier on a stored
  empty username and on an administrator named like a derived archived name
  (`Cutover.VerifiedExactlyWhenClean`, `EmptyUsernameSlipsThrough`,
  `DerivedNameSlipsThrough`).
- A reorder request that repeats an id passes the guard and does not read back
  (`TemplateTheorems.SectionsReadBackInOrder`). The schema's unique keys on sort
  orders (apps/api/prisma/schema.prisma:434 and 476) let a request through
  exactly when no update writes a number that a row not yet renumbered holds:
  on a list numbered from 0 only requests that move nothing (`SectionMovesRefused`,
  `ItemMovesRefused`), on a list with gaps also one that repeats an id
  (`RepeatedIdIsAccepted`).
- docs/AUTHENTICATION.md:44-46 says a correct password clears the counter and the
  lock even of a locked account; it does exactly when the account is not locked
  (`Lockout.RightPasswordClearsExactly`, `LockHoldsAgainstRightPassword`).
- When calls interleave, a token can be exchanged twice, deactivations can leave
  no administrator, and two failures can count as one
  (`AuthRaceLimits.RedeemedAgainExactly`, `LastAdminLostExactly`,
  `AdminsLostExactly`, `FailureCountedExactly` and the three runs beside them). A
  failure counted late can take a lock away, and every one that finds the counter
  changed gives back up to all free attempts
  (`AuthRaceLockout.LockErasedExactly`, `OverlappingPasswordsAreBounded`,
  `OverlapBoundIsReached`).

## Model

| member | source | states |
|---|---|---|
| ChecklistEngine.FlattenMembers | packages/shared/src/checklist-engine.ts:376-384 | flattening by sort order keeps every item of every section and adds none |
| ChecklistEngine.ValidateChecklistResponses | packages/shared/src/checklist-engine.ts:528-609 | the pushing loops return the declaratively specified result for every checklist and answer map |
| ChecklistEngine.PushErrors | packages/shared/src/checklist-engine.ts:537-598 | the branch order of one item's checks, as the errors it appends |
| ChecklistEngine.ErrorReportedExactlyWhenBroken | packages/shared/src/checklist-engine.ts:528-609 | an error is reported if and only if some item with that id breaks the rule the code names |
| ChecklistEngine.ValidExactlyWhenRulesMet | packages/shared/src/checklist-engine.ts:528-609 | responses are valid if and only if every item of every section meets its declarative rule |
| ChecklistMeaning.ClassifiedExactly | packages/shared/src/checklist-engine.ts:248-284 | a status item is answered by its status; any other, type by type, by what has to be given for it, and then it passes |
| ChecklistMeaning.FailsExactly | packages/shared/src/checklist-engine.ts:390-411 | an answer fails exactly as the FAIL of a status item or as a reading outside the bounds that are set, over all JavaScript numbers |
| ChecklistMeaning.ErrorsExactly | packages/shared/src/checklist-engine.ts:528-609 | every error code in terms of the answer's own fields: value, remark, evidence, corrective action |
| ChecklistMeaning.EvidenceReportedExactly | packages/shared/src/checklist-engine.ts:579-587 | missing photos are reported exactly for answered, failing, flagged items whose evidence is absent or an empty list |
| ChecklistMeaning.CriticalExactly | packages/shared/src/checklist-engine.ts:415-429 | the critical ids are exactly those of the failing items marked critical |
| ChecklistEngine.ComputeRecordCounts | packages/shared/src/inspection-records.ts:302-329 | each counter is the number of items of its status and the four sum to the total |
| ChecklistEngine.RecommendationAgreesWithCounts | packages/shared/src/truck-inspection.ts:175-195 | on valid responses: approved exactly when none counts as failed and no infinite reading hides a failure; blocked exactly on a critical failure |
| ChecklistEngine.HiddenFailureIsInfinite | packages/shared/src/checklist-engine.ts:390-413 | the only failures that classify as unanswered are infinite readings of numeric items |
| OneItemChecklists.InfiniteReadingDisagrees | packages/shared/src/checklist-engine.ts:390-413 | a valid infinite reading above the bound: nothing counts as failed and loading is not approved |
| ChecklistEngine.FiniteReadingsAgree | packages/shared/src/truck-inspection.ts:175-195 | with finite readings, approved for loading exactly when the failed count is zero |
| MarkAll.PreviewMarkAllAcceptable | packages/shared/src/checklist-engine.ts:455-475 | the loop lists the unanswered status items and the failing ones |
| MarkAll.PreviewExactly | packages/shared/src/checklist-engine.ts:455-475 | the previewed ids are those of the status items without a status, and of those answered unacceptable, each once and in order |
| MarkAll.ApplyMarkAllAcceptable | packages/shared/src/checklist-engine.ts:477-492 | the loop answers exactly the previewed items and touches nothing else |
| MarkAll.MarkedLookup | packages/shared/src/checklist-engine.ts:477-492 | what every item's answer is afterwards: the acceptable one if it was filled, its own otherwise |
| MarkAll.MarkedForeign | packages/shared/src/checklist-engine.ts:477-492 | answers under ids that are no item of the checklist stay |
| MarkAll.MarkAllKeepsAnswers | packages/shared/src/checklist-engine.ts:448-492 | an answered item keeps its answer |
| MarkAll.MarkAllIdempotent | packages/shared/src/checklist-engine.ts:477-492 | marking twice is marking once |
| MarkAll.MarkAllKeepsDecision | packages/shared/src/truck-inspection.ts:175-195 | the failing set, critical failures and recommendation do not change |
| MarkAll.MarkAllMovesCounts | packages/shared/src/inspection-records.ts:302-329 | exactly the filled number moves from unanswered to acceptable |
| MarkAll.MarkAllShrinksErrors | packages/shared/src/checklist-engine.ts:528-609 | the errors afterwards are the earlier ones, in order, without REQUIRED on filled items |
| RecordRules.ResolvesByTable | packages/shared/src/record-workflow.ts:24-51 | the resolver answers exactly the transitions of the table, never two targets for one action |
| RecordRules.GuardMatchesAllowList | packages/shared/src/truck-inspection.ts:197-218 | the endpoint's guard and the picker's allow-list admit the same final decisions |
| RecordRules.StatusRoundTrip | apps/api/src/inspection-records/inspection-records.mappers.ts:109-139 | storing and reading an answer gives it back; the other way exactly for statuses of the item type's vocabulary |
| RecordRules.ToResponseMap | apps/api/src/inspection-records/inspection-records.mappers.ts:141-164 | the loop's map holds each item's last row as a response |
| InspectionService.InspectionRecordsService.CreateDraft | apps/api/src/inspection-records/inspection-records.service.ts:134-300 | creates, resumes or refuses as the step function says, for both record kinds |
| InspectionService.InspectionRecordsService.PersistResponses | apps/api/src/inspection-records/inspection-records.service.ts:1152-1271 | upserts the status answers that belong to an item, leaves other records alone |
| InspectionService.InspectionRecordsService.SaveDraft | apps/api/src/inspection-records/inspection-records.service.ts:312-347 | owner and editable guard, then rows and label as the step function says |
| InspectionService.InspectionRecordsService.Submit | apps/api/src/inspection-records/inspection-records.service.ts:349-463 | the step function's submit, with the number of actions raised and the counts of what was stored |
| InspectionService.InspectionRecordsService.CreateCorrectiveActions | apps/api/src/inspection-records/inspection-records.service.ts:1325-1369 | the loop raises one action per due item without one and returns how many |
| InspectionService.InspectionRecordsService.ApplyWorkflow | apps/api/src/inspection-records/inspection-records.service.ts:479-824 | check, verify, return, reject and void with every guard in its order |
| InspectionService.InspectionRecordsService.ApproveLoadingDecision | apps/api/src/inspection-records/inspection-records.service.ts:912-979 | the role-gated final decision, refused when it would approve a blocked truck |
| StoredAnswers.StoredReadsBack | apps/api/src/inspection-records/inspection-records.service.ts:1152-1271 | storing a request row by row and reading the rows back is merging it into the answers: the last status answer of an item wins with its texts, photos stay unless it brings some |
| StoredAnswers.SubmittedRowsMeetRules | apps/api/src/inspection-records/inspection-records.service.ts:349-392 | in every run the rows of a record out of its operator's hands hold, for each required item a row, and for each failing one the photos, remark and corrective action it calls for |
| RecordCalls.CreateExactly | apps/api/src/inspection-records/inspection-records.service.ts:134-296 | a creation opens a new draft, goes on with the operator's own or is refused, by the latest record of the date, shift and vehicle or area |
| RecordCalls.SaveExactly | apps/api/src/inspection-records/inspection-records.service.ts:312-347 | a save is accepted exactly from the owner of a record that is with him; what it then changes, and nothing else |
| RecordCalls.SubmitExactly | apps/api/src/inspection-records/inspection-records.service.ts:349-463 | a submit is accepted exactly when the merged answers break no rule; status, advice, decision and actions afterwards |
| RecordCalls.RaisedExactly | apps/api/src/inspection-records/inspection-records.service.ts:1325-1369 | every action a submit adds is for a failing item that calls for one and had none, with its severity and the caller |
| RecordCalls.ReviewExactly | apps/api/src/inspection-records/inspection-records.service.ts:479-824 | for each of the five reviews: the right, the reason, the status and the second pair of eyes that accept it, what it writes, and the error otherwise |
| RecordCalls.LoadingExactly | apps/api/src/inspection-records/inspection-records.service.ts:912-979 | the roles, the truck and the recommendation that let a loading decision through, and what it writes |
| RecordAuthority.ApprovalsAreTheTrail | apps/api/src/inspection-records/inspection-records.service.ts:479-979 | in every run the approval rows of a record are those of the accepted reviews and decisions about it, in order |
| RecordAuthority.EverySignatureIsAuthorized | apps/api/src/inspection-records/inspection-records.service.ts:479-979 | behind every approval row of a reachable record stands an accepted call whose caller held the right or role for it |
| RecordAuthority.VerifiedByRightHolders | apps/api/src/inspection-records/inspection-records.service.ts:479-608 | a verified record was checked under records:check and verified under records:verify, by its signers |
| InspectionProofs.EveryRunIsSound | apps/api/src/inspection-records/inspection-records.service.ts:349-979 | the invariant over all runs: signatures, actions, validity and truck decision of every record |
| InspectionTheorems.SubmittedTrucksAreSafe | apps/api/src/inspection-records/inspection-records.service.ts:349-463 | outside the editable statuses stored answers are valid, the recommendation is theirs, and a critical failure leaves the decision blocked or rejected |
| InspectionTheorems.FailuresHaveOneAction | apps/api/src/inspection-records/inspection-records.service.ts:1325-1369 | on such a record every failing item that calls for it has exactly one corrective action, across resubmissions |
| Submittability.SubmittableExactly | apps/api/src/inspection-records/inspection-records.service.ts:1182-1195 | a reachable editable record can be submitted, by its owner in one call and in any run at all, if and only if no item of its version is both required and of a non-status type |
| Submittability.EveryRunKeepsRows | apps/api/src/inspection-records/inspection-records.service.ts:1197-1216 | in every run a record holds at most one row per item |
| Submittability.UnsubmittableStays | apps/api/src/inspection-records/inspection-records.service.ts:386-392 | a record with such an item stays editable in every run |
| Submittability.LeavesByClaim | apps/api/src/inspection-records/inspection-records.service.ts:393-416 | a record leaves the editable statuses exactly at a submit by its owner with valid stored answers |
| Submittability.NumberChecklistIsNeverSubmitted | apps/api/src/inspection-records/inspection-records.service.ts:1182-1195 | a draft on a checklist with one required number stays a draft whatever is called |
| InspectionTheorems.VerifiedMeansThreePeople | packages/shared/src/record-workflow.ts:72-102 | creator, checker and verifier of verified and archived records differ pairwise, with one approved check and one approved verification, theirs |
| InspectionTheorems.StepFollows | apps/api/src/inspection-records/inspection-records.service.ts:312-979 | what no call changes: version, creator, key fields, answers outside the editable statuses, the growth of actions and approvals |
| InspectionTheorems.VerifiedIsFrozen | packages/shared/src/record-workflow.ts:108-110 | after VERIFIED answers, actions and people never change and ARCHIVED is the only next status |
| InspectionTheorems.VerifiableExactlyWhenUnchecked | apps/api/src/inspection-records/inspection-records.service.ts:498-501 | a submitted record can reach VERIFIED if and only if it was never checked |
| InspectionTheorems.StuckForever | apps/api/src/inspection-records/inspection-records.service.ts:498-501 | a record that came back after its check stays unverified in every continuation |
| InspectionTheorems.TruckKeysStayUnique | apps/api/src/inspection-records/inspection-records.service.ts:227-289 | in every run all truck records of one date, shift and vehicle are archived but the newest |
| DraftRaces.TruckKeysUniqueExactly | apps/api/src/inspection-records/inspection-records.service.ts:227-289 | with look-ups and inserts apart and every other call split as well, a truck key stays unique all along if and only if no creation inserts a record after another one of the key that has overtaken its look-up and is not archived |
| DraftRaces.TwoCreationsShareAKey | apps/api/src/inspection-records/inspection-records.service.ts:227-289 | from an empty table two overlapping creations leave two live drafts of one truck key |
| DraftRaces.UninterruptedCreationIsAtomic | apps/api/src/inspection-records/inspection-records.service.ts:134-300 | a look-up and its insert in a row are the whole call |
| DraftRaces.RestIsTheGate | apps/api/src/inspection-records/inspection-records.service.ts:209-300 | without creations the steps are those of the gate, in the same order |
| DraftRaces.SeenStays | apps/api/src/inspection-records/inspection-records.service.ts:209-296 | what a creation saw stays as it was seen until it inserts |
| InspectionTheorems.StepKeepsKeysExactly | apps/api/src/inspection-records/inspection-records.service.ts:335-340 | with cleaning records too, a call keeps keys unique if and only if it is no save that relabels onto an occupied label |
| InspectionTheorems.RelabellingBreaksUniqueness | apps/api/src/inspection-records/inspection-records.service.ts:335-340 | three calls after which two live cleaning records share a key |
| TruckKeys.ReturnedTruckBlocksItsKey | packages/shared/src/inspection-records.ts:273-297 | after a truck record came back from its check no continuation ever brings in another record of its vehicle, date and shift |
| TruckKeys.TruckKeyOpensExactly | apps/api/src/inspection-records/inspection-records.service.ts:227-289 | a truck key can be opened again in some run if and only if it has no record or its newest neither came back after its check nor waits on a checklist that cannot be submitted |
| TruckKeys.ReturnedTruckIsStuck | apps/api/src/inspection-records/inspection-records.service.ts:498-501 | a run from the empty table to a resubmitted truck that no continuation verifies and whose key no continuation opens |
| Recommendations.RecommendationChangesExactly | apps/api/src/inspection-records/inspection-records.service.ts:878-979 | a call changes a recommendation if and only if it claims the record and the stored answers recommend otherwise, a loading decision so or by a different accepted decision |
| Recommendations.NeverOverwrittenExactly | packages/shared/src/truck-inspection.ts:135-139 | over a run the recommendation never changes if and only if every claiming submit recommends the same |
| Recommendations.ResubmitOverwritesRecommendation | apps/api/src/inspection-records/inspection-records.service.ts:878-893 | from the empty table: draft, submit, return and resubmit turn a recorded approval into a block |
| SubmitGate.EveryInterleavingIsConsistent | apps/api/src/inspection-records/inspection-records.service.ts:393-442 | with any number of interleaved saves, submits and loading decisions each record's log alternates claim and reopening, no call claims twice, no result has two actions |
| SubmitGate.EachMoveOutIsOneClaim | apps/api/src/inspection-records/inspection-records.service.ts:405-428 | a record leaves the editable statuses only by the claim of one call that had validated and never claimed |
| LateStores.StepChangesExactly | apps/api/src/inspection-records/inspection-records.service.ts:312-392 | one step changes a submitted record's answers, or its label, exactly when it stores a differing answer, or ends a save with another label, of a call begun earlier |
| LateStores.AnswersChangeExactly | apps/api/src/inspection-records/inspection-records.service.ts:312-392 | some run without reopening changes a submitted record's answers if and only if a save or submit begun earlier still holds a differing one |
| LateStores.LabelChangesExactly | apps/api/src/inspection-records/inspection-records.service.ts:335-340 | the same for its label and saves that bring another |
| LateStores.ClaimedAnswersHoldExactly | apps/api/src/inspection-records/inspection-records.service.ts:393-442 | from a claim to the reopening the validated answers stay stored, in every continuation, if and only if they are at the claim and no save or submit holds a differing one |
| LateStores.ClaimedRecordHoldsExactly | apps/api/src/inspection-records/inspection-records.service.ts:393-442 | over the same stretch they stay stored and valid and the truck guarantee stands if and only if, besides, no approving decision is pending while they have a critical failure |
| LateRuns.LateApprovalOverCriticalFailure | apps/api/src/inspection-records/inspection-records.service.ts:912-979 | from an idle gate an approval that read a truck without a recommendation is written after a critical FAIL was claimed as blocked |
| LateRuns.LateFailureUnderApproval | apps/api/src/inspection-records/inspection-records.service.ts:312-392 | from an idle gate a save's late critical FAIL ends stored in a submitted truck whose decision is approved |
| SubmitGate.UninterruptedSubmitIsAtomic | apps/api/src/inspection-records/inspection-records.service.ts:349-463 | a submit's steps in a row are the whole call |
| SubmitGate.UninterruptedSaveIsAtomic | apps/api/src/inspection-records/inspection-records.service.ts:312-343 | a save's steps in a row are the whole call |
| SubmitGate.UninterruptedDecisionIsAtomic | apps/api/src/inspection-records/inspection-records.service.ts:912-979 | a loading decision's read and write in a row are the whole call |
| GateCalls.BeginExactly | apps/api/src/inspection-records/inspection-records.service.ts:312-366 | an interleaved save, submit or decision begins exactly where the whole call would be let in, and writes nothing yet |
| GateCalls.MovesExactly | apps/api/src/inspection-records/inspection-records.service.ts:312-463 | a step of a call is the one its phase asks for and moves that call on, or does nothing at all |
| GateCalls.WritesExactly | apps/api/src/inspection-records/inspection-records.service.ts:312-463 | what each step of an interleaved call writes to its record, and to no other; a claim writes advice, decision and actions by the answers it had read |
| TemplateService.ChecklistTemplatesService.CreateTemplate | apps/api/src/checklist-templates/checklist-templates.service.ts:155-180 | a new template with an empty first draft, or a code conflict |
| TemplateService.ChecklistTemplatesService.CreateDraftVersion | apps/api/src/checklist-templates/checklist-templates.service.ts:190-214 | the next number, and the source's rows written by the loops as the clone specification says |
| TemplateService.ChecklistTemplatesService.CreateSections | apps/api/src/checklist-templates/checklist-templates.service.ts:558-587 | row-by-row writing of sections and items is the clone function |
| TemplateService.ChecklistTemplatesService.AddSection | apps/api/src/checklist-templates/checklist-templates.service.ts:227-241 | one row under a draft, numbered as asked or at the end |
| TemplateService.ChecklistTemplatesService.ReorderSections | apps/api/src/checklist-templates/checklist-templates.service.ts:243-269 | guard, then the renumbering loop over the requested ids |
| TemplateService.ChecklistTemplatesService.AddItem | apps/api/src/checklist-templates/checklist-templates.service.ts:275-319 | defaults, rule checks and the row, or the refusal |
| TemplateService.ChecklistTemplatesService.UpdateItem | apps/api/src/checklist-templates/checklist-templates.service.ts:321-377 | patches only supplied fields after checking the merged rules |
| TemplateService.ChecklistTemplatesService.ReorderItems | apps/api/src/checklist-templates/checklist-templates.service.ts:379-406 | guard, then the renumbering loop within the section |
| TemplateService.ChecklistTemplatesService.PublishVersion | apps/api/src/checklist-templates/checklist-templates.service.ts:412-448 | a draft with content becomes published and current |
| TemplateService.ChecklistTemplatesService.ArchiveVersion | apps/api/src/checklist-templates/checklist-templates.service.ts:450-479 | archives once and clears the current pointer if it named the version |
| PublishedVersions.PublishedIsInForce | apps/api/src/checklist-templates/checklist-templates.service.ts:412-448 | an accepted publish puts the version of that number in force, whatever was before, on any database, and changes nothing else |
| PublishedVersions.AcceptedExactly | apps/api/src/checklist-templates/checklist-templates.service.ts:412-479 | publishes are accepted exactly for drafts with an item, archivings exactly for what is not archived |
| PublishedVersions.RefusedExactly | apps/api/src/checklist-templates/checklist-templates.service.ts:412-479 | the error of every refused publish or archiving of a known version |
| PublishedVersions.ArchivedIsOut | apps/api/src/checklist-templates/checklist-templates.service.ts:450-479 | an accepted archiving takes the version out of force if it was in force |
| PublishedVersions.InForceIsLastPublished | apps/api/src/checklist-templates/checklist-templates.service.ts:412-479 | in every run the version in force is the one last published for the document and not archived since |
| FactorySystem.NewInspectionIsOnLastPublished | apps/api/src/inspection-records/inspection-records.service.ts:985-998 | in every mixed run a new inspection is made on that version, and none is opened without one |
| TemplateEdits.UpdateExactly | apps/api/src/checklist-templates/checklist-templates.service.ts:321-377 | which item updates are accepted and, field by field, what is stored |
| TemplateEdits.AddItemExactly | apps/api/src/checklist-templates/checklist-templates.service.ts:275-319 | which new items are accepted, the defaults of what is left unsaid, and the place |
| TemplateEdits.AddSectionExactly | apps/api/src/checklist-templates/checklist-templates.service.ts:227-241 | a new section comes last unless the request says where |
| TemplateEdits.ReorderSectionsExactly | apps/api/src/checklist-templates/checklist-templates.service.ts:243-269 | sections are reordered exactly when the request names as many ids as the draft has sections, each of one; each takes its last place in the request, nothing else changes, and otherwise the refusal |
| TemplateEdits.ReorderItemsExactly | apps/api/src/checklist-templates/checklist-templates.service.ts:379-406 | the same for the items of one section, which must be the draft's |
| TemplateEdits.EditsNeedADraft | apps/api/src/checklist-templates/checklist-templates.service.ts:227-406 | every edit of a version that is no draft is refused, with its error, and changes nothing |
| TemplateEdits.CreateTemplateExactly | apps/api/src/checklist-templates/checklist-templates.service.ts:155-180 | a new code gets a template with an empty draft 1, a known one is a conflict |
| TemplateEdits.CreateDraftExactly | apps/api/src/checklist-templates/checklist-templates.service.ts:190-214 | a draft version is refused exactly for an unknown template or an unknown source version, with its error |
| TemplateEdits.NewDraftReadsAsItsSource | apps/api/src/checklist-templates/checklist-templates.service.ts:190-214 | in every run a new draft takes the next number and reads as the version asked for, else as the published one of the highest number, else as nothing |
| TemplateProofs.EveryRunIsSound | apps/api/src/checklist-templates/checklist-templates.service.ts:155-479 | in every run the current version is none or one of the template's own published ones, published versions have content, numbers only grow, stored rules are consistent |
| TemplateProofs.StepFollows | apps/api/src/checklist-templates/checklist-templates.service.ts:535-539 | no call touches a row of a version that is not a draft, and statuses only move forward |
| TemplateProofs.SameDefinition | apps/api/src/checklist-templates/checklist-templates.mappers.ts:9-21 | what is read as a version's content depends on that version's rows only |
| TemplateProofs.PublishedContentNeverChanges | apps/api/src/checklist-templates/checklist-templates.service.ts:535-539 | once out of DRAFT a version never returns and its sections, items and options never change, in any continuation |
| TemplateTheorems.CloneCopiesContent | apps/api/src/checklist-templates/checklist-templates.service.ts:190-214 | a new draft says what its source says, under fresh ids and the next number, and no other version changes |
| TemplateTheorems.CloneReadsBack | apps/api/src/checklist-templates/checklist-templates.service.ts:558-587 | cloned rows read back in order with equal content |
| TemplateTheorems.GuardMeansPermutation | apps/api/src/checklist-templates/checklist-templates.service.ts:251-257 | what passes the length-and-membership guard is a permutation exactly when it repeats no id |
| TemplateTheorems.SectionsReadBackInOrder | apps/api/src/checklist-templates/checklist-templates.service.ts:243-269 | reading back gives the requested order if and only if no id repeats; only sort orders change, no other version does |
| TemplateTheorems.ItemsReadBackInOrder | apps/api/src/checklist-templates/checklist-templates.service.ts:379-406 | the same for the items of one section, every other section unchanged |
| TemplateTheorems.RepeatedIdIsAccepted | apps/api/src/checklist-templates/checklist-templates.service.ts:251-257 | from an empty database: a request naming the first of two sections numbered 0 and 5 twice is accepted, passes the unique key, ends at 1 and 5 and does not read back |
| TemplateTheorems.KeyedExactly | apps/api/prisma/schema.prisma:434 | under a unique key the updates of any request that passes the guard succeed exactly when none writes a number that a sibling not yet renumbered holds |
| TemplateTheorems.KeyRefusesEveryMove | apps/api/prisma/schema.prisma:434 | for siblings that hold every number from 0 that is exactly when the request moves none, and then it repeats none |
| TemplateTheorems.SectionMovesRefused | apps/api/prisma/schema.prisma:434 | both for every accepted section request, with the table it ends in |
| TemplateTheorems.ItemMovesRefused | apps/api/prisma/schema.prisma:476 | both for every accepted item request |
| FactorySystem.EveryMixedRunIsSound | apps/api/src/inspection-records/inspection-records.service.ts:985-1007 | in mixed runs every record is on a version nobody can edit and sound for what that version now says |
| FactorySystem.RecordItemsNeverChange | apps/api/src/inspection-records/inspection-records.service.ts:1000-1007 | the item list a record is validated against is fixed from creation onward |
| FactorySystem.RecordsRunAlone | apps/api/src/inspection-records/inspection-records.service.ts:985-1007 | between template calls a mixed run is a run of the record service on the checklists as the tables hold them |
| FactorySystem.CriticalFailuresStayBlocked | apps/api/src/inspection-records/inspection-records.service.ts:349-463 | the truck guarantee for the checklist as the tables hold it now |
| CorrectiveActions.EveryRunIsSound | apps/api/src/corrective-actions/corrective-actions.service.ts:89-237 | closedAt is set exactly on closed and cancelled actions; closed means a comment and a verifier who is not the assignee |
| CorrectiveActions.AuditTrailDeterminesStatus | apps/api/src/corrective-actions/corrective-actions.service.ts:257-272 | replaying the audit trail gives every action's status |
| CorrectiveActions.ClosableExactlyUnlessStuck | apps/api/src/corrective-actions/corrective-actions.service.ts:14-35 | an action can still be closed, within three calls, exactly unless cancelled or overdue |
| ActionCalls.CallExactly | apps/api/src/corrective-actions/corrective-actions.service.ts:89-237 | which calls each status allows, what else they need, and field by field what they store |
| CorrectiveActions.CorrectiveActionsService.Assign | apps/api/src/corrective-actions/corrective-actions.service.ts:89-114 | status guard, active assignee, row and audit entry |
| CorrectiveActions.CorrectiveActionsService.Start | apps/api/src/corrective-actions/corrective-actions.service.ts:116-125 | status guard, row and audit entry |
| CorrectiveActions.CorrectiveActionsService.Complete | apps/api/src/corrective-actions/corrective-actions.service.ts:127-147 | needs a comment, goes to verification |
| CorrectiveActions.CorrectiveActionsService.Verify | apps/api/src/corrective-actions/corrective-actions.service.ts:149-176 | needs a comment and another person than the assignee, closes |
| CorrectiveActions.CorrectiveActionsService.Reject | apps/api/src/corrective-actions/corrective-actions.service.ts:178-198 | needs a reason, hands the action back |
| CorrectiveActions.CorrectiveActionsService.Reopen | apps/api/src/corrective-actions/corrective-actions.service.ts:200-214 | clears the closing stamp |
| CorrectiveActions.CorrectiveActionsService.Cancel | apps/api/src/corrective-actions/corrective-actions.service.ts:216-237 | needs a reason, closes for good |
| Authentication.AuthService.Login | apps/api/src/auth/auth.service.ts:74-121 | lock, comparison, clearing, status and issue in the code's order |
| Authentication.AuthService.RecordFailedAttempt | apps/api/src/auth/auth.service.ts:303-318 | counts the failure and locks from the configured attempt on |
| Authentication.AuthService.Refresh | apps/api/src/auth/auth.service.ts:123-197 | refusal, revocation or rotation with the link to the successor |
| Authentication.AuthService.Logout | apps/api/src/auth/auth.service.ts:200-209 | revokes the presented token if it is live |
| Authentication.AuthService.RevokeAllSessions | apps/api/src/auth/auth.service.ts:212-217 | revokes every token of the user and no other |
| Authentication.AuthService.ChangePassword | apps/api/src/auth/auth.service.ts:219-280 | checks, stamp, revocation of all sessions and one new session |
| Authentication.AuthService.IssueTokens | apps/api/src/auth/auth.service.ts:320-366 | one new row stamped as the user was read |
| Authentication.UsersService.Activate | apps/api/src/users/users.service.ts:158-175 | activates, moves the stamp, revokes all sessions |
| Authentication.UsersService.Deactivate | apps/api/src/users/users.service.ts:177-198 | the same the other way, never for the last active administrator |
| Authentication.UsersService.AssignRoles | apps/api/src/users/users.service.ts:220-255 | replaces the roles, moves the stamp, revokes all sessions, with the same protection |
| Authentication.UsersService.AnotherActiveAdmin | apps/api/src/users/users.service.ts:339-350 | the count is positive exactly when another active administrator exists |
| Authentication.UsersService.ResetPassword | apps/api/src/users/users.service.ts:290-318 | new password, cleared counters, moved stamp, revoked sessions |
| Authentication.JwtAuthGuard.CanActivate | apps/api/src/auth/guards/jwt-auth.guard.ts:60-106 | admits exactly a current token of an active user, with exactly the permissions his roles grant now |
| Passwords.LoginExactly | apps/api/src/auth/auth.service.ts:74-121 | a login signs in exactly with the stored password of an active, unlocked account; the error, the counters and the session otherwise |
| Passwords.ChangeExactly | apps/api/src/auth/auth.service.ts:219-280 | when a password change is accepted, what it stores, which sessions end |
| Passwords.ResetExactly | apps/api/src/users/users.service.ts:290-318 | a reset stores the temporary password, demands a change and ends all sessions |
| Passwords.ChangedPasswordSignsIn | apps/api/src/auth/auth.service.ts:219-280 | after an accepted change the new password signs in and the former is refused, at any later time |
| Passwords.TemporaryPasswordSignsIn | apps/api/src/users/users.service.ts:290-318 | after a reset the temporary password signs in on an active account and any other is refused |
| Passwords.PasswordIsLastGiven | apps/api/src/auth/auth.service.ts:219-280 | in every run a user's password is the one last given to him by his own accepted change or a reset; nobody else's changes |
| Passwords.LastPasswordSignsIn | apps/api/src/auth/auth.service.ts:74-121 | after any run a login signs in exactly with that password, on an active, unlocked account |
| Passwords.PasswordIsLastWritten | apps/api/src/users/users.service.ts:290-318 | the same for interleaved calls and the write that came last |
| SessionCalls.RefreshExactly | apps/api/src/auth/auth.service.ts:123-197 | when a refresh exchanges its token, revokes it or is refused, row by row |
| SessionCalls.AcceptsExactly | apps/api/src/auth/guards/jwt-auth.guard.ts:60-106 | the guard admits exactly a token of an active user whose stamp has not moved; a token that refreshes is one that a refresh call signs in with |
| SessionCalls.LogoutExactly | apps/api/src/auth/auth.service.ts:200-209 | a logout revokes the token it presents and nothing else |
| SessionCalls.AccountExactly | apps/api/src/users/users.service.ts:158-254 | activation, deactivation and role changes: accepted exactly unless the last active administrator would go; stamp and sessions |
| AuthProofs.RedeemedAtMostOnce | apps/api/src/auth/auth.service.ts:123-197 | with whole calls a token is exchanged at most once, and has a successor exactly when it was |
| AuthProofs.LiveSessionsAreOpened | apps/api/src/auth/auth.service.ts:123-280 | unrevoked tokens never outnumber logins and password changes since the last revocation of all |
| AuthProofs.AnAdminAlwaysRemains | apps/api/src/users/users.service.ts:339-350 | every run of whole calls keeps some active administrator |
| AuthRaceLimits.RedeemedAgainExactly | apps/api/src/auth/auth.service.ts:142-191 | with interleaved calls a revoked token can be exchanged once more if and only if a refresh that read it before has not issued yet and would be let through |
| AuthRaceLimits.TwoRefreshesRedeemOneToken | apps/api/src/auth/auth.service.ts:142-191 | a login and two overlapping refreshes that both exchange its token |
| AuthRaceLimits.LastAdminLostExactly | apps/api/src/users/users.service.ts:177-198 | a step takes the last active administrator exactly when it is a deactivation's or role change's write whose counted colleague is gone |
| AuthRaceLimits.AdminsLostExactly | apps/api/src/users/users.service.ts:177-238 | the calls under way can leave no active administrator, in some order, if and only if each active one has a removal pending |
| AuthRaceLimits.TwoDeactivationsLeaveNone | apps/api/src/users/users.service.ts:177-198 | two overlapping deactivations after which no administrator is active |
| AuthRaceLimits.FailureCountedExactly | apps/api/src/auth/auth.service.ts:303-318 | a failed login counts exactly when the counter still shows what the login had read |
| AuthRaceLimits.TwoFailuresCountOnce | apps/api/src/auth/auth.service.ts:303-318 | two overlapping wrong passwords leave the counter at one |
| AuthRaceLockout.ComparedUnderLockIsStale | apps/api/src/auth/auth.service.ts:88-97 | a wrong password is compared while its account is locked only if the lock came after its login's read |
| AuthRaceLockout.LockErasedExactly | apps/api/src/auth/auth.service.ts:303-318 | its write then takes the lock away exactly when the counter it had read was still below the last free attempt |
| AuthRaceLockout.OverlappingPasswordsAreBounded | apps/api/src/auth/auth.service.ts:88-104 | with overlapping logins, within time T at most (1 + Z) max(M, 1) + T / W wrong passwords of a user are compared, Z of them with a counter or lock changed since the read |
| AuthRaceLockout.OverlapBoundIsReached | apps/api/src/auth/auth.service.ts:88-104 | and for every Z and T some run compares exactly that many |
| AuthRaceProofs.EveryInterleavingIsSound | apps/api/src/auth/auth.service.ts:123-366 | in every interleaving each call issues at most once, links go forward and name their one redeemer |
| AuthRaceProofs.SuccessorsAreNeverShared | apps/api/src/auth/auth.service.ts:184-191 | two tokens never have one successor, whatever interleaves |
| AuthRaceProofs.StaleTokensStayDead | apps/api/src/auth/auth.service.ts:170-178 | a token from a copy of the user read before his stamp moved is refused ever after by guard and refresh |
| AuthRaceProofs.AcceptedExactlyUntilTheStampMoves | apps/api/src/auth/guards/jwt-auth.guard.ts:75-86 | a token from a current copy is admitted exactly while the account is active and its stamp has not moved |
| AuthRaceProofs.StampsMoveByOne | apps/api/src/users/users.service.ts:158-318 | stamps move by one at the writes of password and account changes, nowhere else |
| AuthRaceProofs.UninterruptedCallIsAtomic | apps/api/src/auth/auth.service.ts:74-280 | the steps of a call that nothing interrupts make the whole call |
| NetCalls.AdvanceExactly | apps/api/src/users/users.service.ts:158-318 | which read or write follows which in every interleaved call, and that a step moves no other call |
| Lockout.CounterRun | apps/api/src/auth/auth.service.ts:303-318 | the counter is the number of comparisons, and past the free ones each has moved the lock on by a lockout |
| Lockout.WrongPasswordsAreBounded | apps/api/src/auth/auth.service.ts:88-104 | within time T at most max(M, 1) + T / W wrong passwords of a user are compared |
| Lockout.BoundIsReached | apps/api/src/auth/auth.service.ts:88-104 | and for every T some run compares exactly that many |
| Lockout.RightPasswordClearsExactly | apps/api/src/auth/auth.service.ts:88-104 | a right password clears the counter and the lock if and only if the account is not locked then; otherwise nothing changes |
| Lockout.LockHoldsAgainstRightPassword | apps/api/src/auth/auth.service.ts:88-104 | an account locked until 100: its password changes nothing at 50 and clears both at 100 |
| StableJson.QuoteReadsBack | scripts/database/mongo-index-ensure-rules.js:49-52 | a quoted string reads back by the escapes of section 7 of RFC 8259 |
| JsonSpelling.QuoteExactly | scripts/database/mongo-index-ensure-rules.js:49-52 | a quoted string to the letter: the short escapes, four hexadecimal digits for other control units and lone surrogates, everything else as it is |
| StableJson.PrintPrefix | scripts/database/mongo-index-ensure-rules.js:49-60 | printed values are self-delimiting: equal text with any continuation means the same value and continuation |
| JsonSpelling.ArrayExactly | scripts/database/mongo-index-ensure-rules.js:53-55 | an array is its printed items in order, with commas, between brackets |
| JsonSpelling.ObjectExactly | scripts/database/mongo-index-ensure-rules.js:56-60 | an object is its printed members, each once and by the unit order of their keys, with commas, between braces |
| StableJson.StableStringifyDecidesSame | scripts/database/mongo-index-ensure-rules.js:49-60 | equal text if and only if equal up to member order, for all nested values |
| StableJson.NonFinitePrintsAsNull | scripts/database/mongo-index-ensure-rules.js:49-52 | the values outside JSON that print alike |
| StableJson.PartialFiltersEqualDecidesSame | scripts/database/mongo-index-ensure-rules.js:62-67 | filter comparison is structural equality |
| UsernameIndex.CorrectMeansSame | scripts/database/mongo-index-ensure-rules.js:89-101 | a correct index has the wanted name, uniqueness, key and filter, in any member order |
| UsernameIndex.EnsuredIsCorrect | scripts/database/ensure-username-index.js:74-129 | from any list with distinct names the result has a correct index, no incompatible one, and every other index it had |
| IndexesKept.DroppedExactly | scripts/database/mongo-index-ensure-rules.js:107-125 | by name, uniqueness and key alone: exactly the other bearers of the two reserved names and the other unique indexes on the username go, every other index stays, and the wanted one is added when none was it |
| IndexesKept.IncompatibleExactly | scripts/database/mongo-index-ensure-rules.js:107-125 | which indexes count as incompatible, by name, uniqueness and key alone |
| IndexesKept.PlanExactly | scripts/database/mongo-index-ensure-rules.js:147-163 | the plan replaces exactly when an index must go, creates exactly when none must and none is the wanted one, and the final check passes exactly where the plan changes nothing |
| UsernameIndex.EnsureIsIdempotent | scripts/database/ensure-username-index.js:74-129 | a second run plans and does nothing |
| UsernameIndex.UnchangedExactlyOnFixpoints | scripts/database/mongo-index-ensure-rules.js:147-163 | the plan is "unchanged" exactly on lists the script leaves alone |
| UsernameIndex.EnsuredVerifies | scripts/database/ensure-username-index.js:117-129 | the final check passes on every result |
| UsernameIndex.UsersCollection.DropAll | scripts/database/ensure-username-index.js:84-89 | the loop drops exactly the named indexes |
| UsernameIndex.UsersCollection.EnsureUsernameIndex | scripts/database/ensure-username-index.js:65-129 | refuses on duplicates and changes nothing; otherwise ends verified in the ensured list |
| Csv.GuardDisarms | packages/shared/src/csv-escape.ts:6-16 | no guarded cell starts with a formula character |
| Csv.ReadsBackExactly | packages/shared/src/csv-escape.ts:6-16 | a cell reads back as its text, with an apostrophe in front exactly when it starts with one of =+-@ |
| Csv.DocumentSpelled | packages/shared/src/csv-escape.ts:6-27 | a document of two columns, to the letter |
| Csv.CellReadsBack | packages/shared/src/csv-escape.ts:6-16 | an escaped cell reads back as its guarded text, before any continuation |
| Csv.RowReadsBack | packages/shared/src/csv-escape.ts:18-20 | a row reads back cell by cell |
| Csv.DocumentReadsBack | packages/shared/src/csv-escape.ts:22-27 | a document reads back as its guarded grid if and only if no row is empty |
| Csv.EmptyRowIsLost | packages/shared/src/csv-escape.ts:18-27 | a row without cells under a header does not read back |
| Csv.DocumentsEqualExactlyOnGuardedGrids | packages/shared/src/csv-escape.ts:22-27 | equal documents if and only if equal guarded grids, rows of at least one cell |
| Username.ArchivedUsernameIsValid | packages/shared/src/username.ts:34-45 | every employee code gives a valid username with the archived prefix |
| Username.ValidExactly | packages/shared/src/username.ts:1-31 | a username is 4 to 40 small letters, digits, dots, underscores and hyphens |
| Username.ArchivedExactly | packages/shared/src/username.ts:34-45 | the archived name is the prefix and the cleaned code, cut after 40 units |
| Username.ValidIsNormal | packages/shared/src/username.ts:15-25 | valid usernames are their own normal form |
| Cutover.DetectConflicts | apps/api/src/database/cutover-users-to-username-rules.ts:76-147 | the loops report exactly the conflicts of the declarative list |
| CutoverMeaning.ConflictsExactly | apps/api/src/database/cutover-users-to-username-rules.ts:76-147 | each conflict in terms of two users of the list, or of the names they go by and keep, without counters |
| Cutover.BuildPlan | apps/api/src/database/cutover-users-to-username-rules.ts:149-187 | one plan item for the administrator and one per user, as specified |
| CutoverMeaning.PlanExactly | apps/api/src/database/cutover-users-to-username-rules.ts:149-187 | user by user: whose row is left alone, who is archived already, who is archived and under which name |
| Cutover.VerifyInvariants | apps/api/src/database/cutover-users-to-username-rules.ts:189-246 | the loops report exactly the violated invariants |
| CutoverMeaning.FailuresExactly | apps/api/src/database/cutover-users-to-username-rules.ts:189-246 | each failure in terms of the first row with the administrator's code and of the names users go by |
| CutoverMeaning.ProgressExactly | apps/api/scripts/cutover-users-to-username.ts:131-233 | row by row and field by field, what the cutover leaves after any number of plan items, on any list |
| Cutover.NamesApart | apps/api/src/database/cutover-users-to-username-rules.ts:100-132 | without conflicts no two users end up under one name |
| Cutover.VerifiedExactlyWhenClean | apps/api/src/database/cutover-users-to-username-rules.ts:76-246 | on a conflict-free list the executed plan passes the verifier if and only if the list is clean, a condition on the stored names |
| Cutover.NoTakenName | apps/api/scripts/cutover-users-to-username.ts:203-233 | on a clean list no write meets a name another row holds |
| Cutover.EmptyUsernameSlipsThrough | apps/api/src/database/cutover-users-to-username-rules.ts:62-74 | a list without conflicts that fails the verifier, by an empty stored name |
| Cutover.DerivedNameSlipsThrough | apps/api/src/database/cutover-users-to-username-rules.ts:134-142 | another, by an administrator named like a derived name |
| Cutover.UserStore.UpsertAdmin | apps/api/scripts/cutover-users-to-username.ts:135-162 | creates or updates the administrator's row under the unique username |
| Cutover.UserStore.ArchiveOne | apps/api/scripts/cutover-users-to-username.ts:203-232 | one plan item carried out, the safety abort, or a name already taken |
| Cutover.UserStore.ArchiveAll | apps/api/scripts/cutover-users-to-username.ts:202-233 | the loop over the plan reaches the planned table, always on a clean list |
| Cutover.UserStore.Run | apps/api/scripts/cutover-users-to-username.ts:49-259 | completes exactly when asked to execute on a conflict-free, clean list, and then verifies; a dry run and a conflict change nothing |

## Left out

- Database client, GridFS, bcrypt, JWT signing and expiry claims, HTTP and DTO
  decorators, PDF building: I/O and foreign code. A hash is its password,
  compared by equality; a token is its row; the time of each call is a parameter.
- React components, service worker, dashboard, offline queue.
- Timestamps, notifications, task assignments and audit rows of records,
  templates and accounts (the audit trail of corrective actions is modelled).
- Interleaving of check, verify, return, reject and void, of template calls and of
  corrective actions: each is one step.
- SubmitGate.UninterruptedDecisionIsAtomic: the approval row of a loading decision
  is part of the step that writes the decision.
- SubmitGate.UninterruptedSaveIsAtomic: the replacement of one answer's
  attachments is part of the step that stores the answer.
- InspectionTheorems.TruckKeysStayUnique: speaks of draft creations as whole
  calls; the condition for overlapping ones is DraftRaces.TruckKeysUniqueExactly.
- InspectionService.InspectionRecordsService.CreateDraft: does not model how a
  vehicle is looked up; the resolved vehicle number, the shift and the area
  label are parameters.
- InspectionService.InspectionRecordsService.ApplyWorkflow: does not model the
  text of comments beyond being blank or not, nor the users notified.
- InspectionService.InspectionRecordsService.PersistResponses: an attachment is
  its file name; decoding and size limits of uploads are left out.
- Lockout.WrongPasswordsAreBounded: speaks of logins as whole calls; the bound
  for overlapping ones is AuthRaceLockout.OverlappingPasswordsAreBounded.
- AuthProofs.RedeemedAtMostOnce: speaks of refreshes as whole calls; the
  condition for overlapping ones is AuthRaceLimits.RedeemedAgainExactly.
- AuthProofs.AnAdminAlwaysRemains: speaks of account changes as whole calls; the
  condition for overlapping ones is AuthRaceLimits.AdminsLostExactly.
- Authentication.AuthService.Refresh: the token's own signature and expiry claim
  are not modelled, only the stored row's expiry.
- Authentication.JwtAuthGuard.CanActivate: the access token's own signature and
  expiry claim are not modelled.
- Authentication.UsersService.AssignRoles: roles that do not exist in the
  database are not modelled.
- Creating users and editing profiles: neither touches sessions, stamps or
  counters of existing accounts.
- Templates: ties between equal sort orders are read in creation order; viewing
  permissions of draft versions are left out.
- TemplateService.ChecklistTemplatesService.AddSection: does not refuse a sort
  order that the schema's unique key finds taken.
- TemplateService.ChecklistTemplatesService.AddItem: the same for items.
- TemplateService.ChecklistTemplatesService.UpdateItem: the same when an update
  brings a sort order.
- TemplateService.ChecklistTemplatesService.ReorderSections: describes the
  updates without the unique key; TemplateTheorems.SectionMovesRefused says what
  the key makes of them.
- TemplateService.ChecklistTemplatesService.ReorderItems: the same, with
  TemplateTheorems.ItemMovesRefused.
- Cutover.UserStore.UpsertAdmin: passwords, e-mail addresses and refresh tokens
  of the users it changes are left out.
- Cutover: idempotence is not claimed; after a run the archived names count as
  collisions.
- JsText: lower-casing changes A to Z and the two other characters whose lower
  case touches ASCII, and leaves every other letter as it stands.
- UsernameIndex.UsersCollection.EnsureUsernameIndex: conflicts that the database
  itself would raise when an index is created are not modelled.
- StableJson: a finite number is its printed decimal text, so how JavaScript
  prints numbers is not modelled. The CSV writer takes numbers as their text.
- Master data, fleet, health, CORS, environment checks, seed tables and the
  sample-data cleanup script: plain reads and writes without rules that span
  operations.
