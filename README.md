# Project evaluation marks and request tickets — a Dafny model

This project models the part of the project-management application where
behaviour can be stated. It has three pieces.

- **Evaluation marks.** The Evaluation collection holds one record per
  (group, student, parameter), with required paths and `marks >= 0`.
  `saveEvaluation` replaces a whole group's records and then marks the group
  "Completed". `getEvaluationParameters` returns the parameter catalogue sorted
  by `order`. `getProjectEvaluationById` looks up a group and populates its
  students.
- **Admin mark sheet.** The arithmetic and editing logic of the admin page
  `ProjectManagement.jsx`:
  - the `marksData` map keyed `"<studentId>_<paramId>"`;
  - `handleMarkChange`;
  - the marks loader;
  - the dense batch built by `handleSaveAllEvaluations`;
  - the per-student and grand totals;
  - the project filter and the technology options.
- **Request tickets.** The Request schema (enums, default status "pending",
  trimmed required message) and the six handlers of the request controller.

Modules:

- `Common`: shared identifiers and the `Option` type, the `Parameter` record and
  the batch entry the page sends.
- `EvaluationSchema`: record validity, the unique index on (group, student,
  parameter), and the lookup of one triple's marks.
- `EvaluationStore`: `Save`, a pure transition specifying one call of
  `saveEvaluation`, with the lemmas about it. The class `EvaluationDb` carries
  out the same save step by step (`deleteMany`, ordered `insertMany`, status
  update) and is proved equal to `Save`.
- `MarkSheet`: the page's pure computations, and a class `MarkSheet` for the two
  handlers that update `marksData` in place.
- `ProjectList`: `filteredProjects` and `techOptions`.
- `RequestModel`: the Request schema.
- `RequestStore`: the controller's decisions as functions, and a class
  `RequestStore` whose methods apply them to an id → request map.
- `SaveRoundTrip`: the page's batch fed to the server's save, end to end.

How the model represents the source:

- Identifiers are strings. A stored reference is a well-formed ObjectId, and a
  document path left unset is `None`.
- Request ids are naturals drawn from a counter.
- `createdAt` is an abstract integer.
- Marks and maxima are integers.
- An absent body field is the empty string. JavaScript's `!x` and `x || y` treat
  `undefined` and `""` alike, so nothing is lost.

Mongoose behaviour the model relies on:

- `insertMany` with its default `ordered: true` validates every document first,
  and a validation error inserts nothing. Otherwise it writes the documents in
  order and stops at the first unique-index violation, keeping the documents
  already written.
- Paths the schema does not declare, such as `evaluatedBy`, are dropped when a
  document is cast (strict mode).
- `findByIdAndUpdate` on an unknown id changes nothing and does not throw.
- `populate` drops references that resolve to no document.
- The `trim` setter runs before the `required` validator.

## Model

| member | source | states |
|---|---|---|
| EvaluationSchema.MarksOf | server/models/Evaluation.js:36-39 | the marks found for a triple are those of a stored record with that group, student and parameter; none are found only when no such record holds marks |
| EvaluationSchema.AppendFreeTriple | server/models/Evaluation.js:36-39 | adding a valid record whose triple is not yet taken keeps every record valid and the triples unique |
| EvaluationSchema.OneRecordPerTriple | server/models/Evaluation.js:36-39 | in a valid collection two positions holding the same (group, student, parameter) are the same position |
| EvaluationSchema.MarksOfStored | server/models/Evaluation.js:26-39 | in a valid collection, looking up a stored record's triple returns exactly that record's marks |
| EvaluationStore.Without | server/controllers/evaluationController.js:42 | `deleteMany({ group })` keeps exactly the records of other groups |
| EvaluationStore.OfGroup | server/controllers/evaluationController.js:42 | a group's records are exactly the stored records carrying that group |
| EvaluationStore.WithoutSeparatesGroups | server/controllers/evaluationController.js:42 | after the delete the group has no record, every other group keeps its records in order, and deleting twice is deleting once |
| EvaluationStore.WithoutKeepsValid | server/models/Evaluation.js:6-39 | deleting a group's records keeps the collection valid and its triples unique |
| EvaluationStore.FirstInvalid | server/models/Evaluation.js:6-30 | reports no position exactly when every document passes the required and `min: 0` validators; otherwise the first position that fails |
| EvaluationStore.FirstClash | server/models/Evaluation.js:36-39 | the first document that would violate the unique index given the documents before it; none exactly when every document fits |
| EvaluationStore.InsertOutcome | server/controllers/evaluationController.js:52 | ordered insertMany succeeds exactly when every document is valid and none collides with the collection or an earlier document, and then appends the batch; otherwise a validation error names the first invalid document and writes nothing, and a duplicate-key error names the first colliding document of an all-valid batch and keeps only the documents before it |
| EvaluationStore.InsertKeepsValid | server/models/Evaluation.js:6-39 | whatever insertMany does, the collection stays valid with unique triples |
| EvaluationStore.MarkCompleted | server/controllers/evaluationController.js:55 | the same groups afterwards; the saved group's status becomes "Completed" and every other group is unchanged; an unknown id changes nothing |
| EvaluationStore.Save | server/controllers/evaluationController.js:42-55 | a save succeeds exactly when every document passes the validators and none collides with the records left after the delete or with an earlier document; the groups change only on success, and then only by completing the group. Its effect on the records is stated by SaveReplacesGroup, SaveFailureKeepsDeletion, SaveIdempotent and SaveKeepsValid |
| EvaluationStore.SaveReplacesGroup | server/controllers/evaluationController.js:42-55 | other groups' records are untouched; on success the group's records are exactly the batch and the group becomes Completed |
| EvaluationStore.SaveEmptyBatch | server/controllers/evaluationController.js:42-55 | an empty batch removes all of the group's records, succeeds, and still completes the group |
| EvaluationStore.SaveFailureKeepsDeletion | server/controllers/evaluationController.js:42-59 | when the insert throws, the group's deletion stays, the status update is skipped, and only the prefix before a duplicate remains |
| EvaluationStore.SaveIdempotent | server/controllers/evaluationController.js:42-53 | saving the same batch twice leaves the same state and outcome as saving it once |
| EvaluationStore.SaveKeepsValid | server/models/Evaluation.js:6-39 | a save never leaves an invalid record or a repeated triple |
| EvaluationStore.DuplicateBatchFails | server/models/Evaluation.js:36-39 | a batch holding two documents with the same triple cannot be saved |
| EvaluationStore.AsWrittenDocs | server/controllers/evaluationController.js:45-51 | one document per posted entry, all of the saved group, and not one passes the validators, since none sets the required `guide` |
| EvaluationStore.DocsWithGuide | server/controllers/evaluationController.js:45-51 | one document per posted entry, all of the saved group; a document passes the validators exactly when its entry names a student and a parameter and carries non-negative marks |
| EvaluationStore.AsWrittenSaveLosesMarks | server/controllers/evaluationController.js:45-55 | as written, any non-empty save fails validation at document 0, after the group's records were deleted, and the group's status is unchanged |
| EvaluationStore.SaveWithGuideStoresBatch | server/controllers/evaluationController.js:42-55 | with the evaluator stored as `guide`, a complete batch without repeated cells is saved, the group holds exactly its documents and becomes Completed |
| EvaluationStore.InsertByOrder | server/controllers/evaluationController.js:8 | inserting into an order-sorted list keeps it sorted and adds exactly that parameter |
| EvaluationStore.SortByOrder | server/controllers/evaluationController.js:8 | the result is sorted by `order` ascending and is a permutation of the input |
| EvaluationStore.Resolve | server/controllers/evaluationController.js:20 | the populated students are exactly those the roster references that exist, never more than the roster; their order is stated by ResolveAppend and ResolveAllPresent |
| EvaluationStore.ResolveAppend | server/controllers/evaluationController.js:20 | populating a joined roster gives the populated parts in the same order, and a single reference gives its student or nothing |
| EvaluationStore.ResolveAllPresent | server/controllers/evaluationController.js:20 | when every reference exists, the populated list has the roster's length and holds at each position the student referenced there, repeats included |
| EvaluationStore.EvaluationDb.constructor | server/models/Evaluation.js:36-39 | an empty collection satisfies the schema invariant |
| EvaluationStore.EvaluationDb.DeleteMany | server/controllers/evaluationController.js:42 | the new collection is the old one without the group's records, and stays valid |
| EvaluationStore.EvaluationDb.InsertMany | server/controllers/evaluationController.js:52 | the validate-then-insert loops leave the collection and error that `InsertOutcome` specifies, and keep the collection valid |
| EvaluationStore.EvaluationDb.ReplaceGroup | server/controllers/evaluationController.js:42-55 | the delete, insert and status steps together give the state and outcome of `Save` |
| EvaluationStore.EvaluationDb.SaveEvaluation | server/controllers/evaluationController.js:37-62 | the handler as written equals `Save` on documents without `guide`; a non-empty batch always fails and leaves the groups unchanged |
| EvaluationStore.EvaluationDb.SaveEvaluationWithGuide | server/controllers/evaluationController.js:37-62 | the corrected handler equals `Save` on documents carrying the evaluator as `guide` |
| EvaluationStore.EvaluationDb.GetEvaluationParameters | server/controllers/evaluationController.js:6-9 | the catalogue sorted by `order` ascending, a permutation of the stored parameters |
| EvaluationStore.EvaluationDb.GetProjectEvaluationById | server/controllers/evaluationController.js:15-30 | not found exactly for an unknown group; otherwise only its title, technology, status and populated students |
| MarkSheet.CellKeyInjective | client/admin/src/pages/admin/ProjectManagement.jsx:152-155 | for student ids without `_`, two cell keys are equal exactly when student and parameter are equal |
| MarkSheet.CellValue | client/admin/src/pages/admin/ProjectManagement.jsx:191 | how the totals (also line 332) and the batch (line 169) read a cell: a non-zero value is a number stored under that key, and a missing or blank cell reads as 0; its use is stated by BatchAt, RowSumIsStudentTotal and StudentTotalWithinMax |
| MarkSheet.StudentTotal | client/admin/src/pages/admin/ProjectManagement.jsx:328-336 | `studentTotal`, the cell values of one student summed over the parameters; StudentTotalWithinMax bounds it and RowSumIsStudentTotal ties it to the batch |
| MarkSheet.MaxTotal | client/admin/src/pages/admin/ProjectManagement.jsx:338-342 | `maxTotal`, the parameter maxima summed; StudentTotalWithinMax shows it bounds every student's total |
| MarkSheet.GrandGiven | client/admin/src/pages/admin/ProjectManagement.jsx:185-194 | `grandTotal.given`, the student totals summed over the roster; BatchSumIsGrandGiven ties it to the saved batch and TotalsWithinMax bounds it |
| MarkSheet.GrandMax | client/admin/src/pages/admin/ProjectManagement.jsx:195-197 | `grandTotal.total`, the roster size times `maxTotal`; TotalsWithinMax shows it bounds the grand total given |
| MarkSheet.Row | client/admin/src/pages/admin/ProjectManagement.jsx:165-170 | one student's entries, one per parameter; BatchAt states each entry's student, parameter and mark |
| MarkSheet.StudentTotalWithinMax | client/admin/src/pages/admin/ProjectManagement.jsx:328-342 | with every cell within range, a student's total lies between 0 and the sum of the parameter maxima |
| MarkSheet.TotalsWithinMax | client/admin/src/pages/admin/ProjectManagement.jsx:184-198 | every student's total is within the per-student maximum, and the grand given total is within the grand maximum |
| MarkSheet.BuildBatch | client/admin/src/pages/admin/ProjectManagement.jsx:163-172 | the batch has as many entries as the roster's length times the number of parameters, each naming a roster student; BatchAt gives each entry's content, and BatchCellsDistinct shows that a roster without repeats gives one entry per cell |
| MarkSheet.BatchAt | client/admin/src/pages/admin/ProjectManagement.jsx:163-172 | the entry at position i times the number of parameters plus j is student i, parameter j and that cell's mark, 0 when blank or absent (student-major order) |
| MarkSheet.RowSumIsStudentTotal | client/admin/src/pages/admin/ProjectManagement.jsx:328-336 | a student's row of the batch sums to the student total the page shows |
| MarkSheet.BatchSumIsGrandGiven | client/admin/src/pages/admin/ProjectManagement.jsx:184-194 | the whole batch sums to the grand given total |
| MarkSheet.BatchCellsDistinct | client/admin/src/pages/admin/ProjectManagement.jsx:163-172 | a roster without repeats and parameters with distinct ids give a batch that names each (student, parameter) once |
| MarkSheet.FindParameter | client/admin/src/pages/admin/ProjectManagement.jsx:147 | `find` returns the first parameter with that id, and nothing exactly when no parameter has it |
| MarkSheet.Coerce | client/admin/src/pages/admin/ProjectManagement.jsx:146 | empty input stays blank; a number becomes max(0, value) |
| MarkSheet.AdmissibleEditKeepsInRange | client/admin/src/pages/admin/ProjectManagement.jsx:148-155 | storing an accepted value keeps every cell between 0 and its parameter's maximum |
| MarkSheet.Loaded | client/admin/src/pages/admin/ProjectManagement.jsx:126-135 | the dictionary the loader's `forEach` builds, later evaluations overwriting earlier ones; LoadedLastWins states which keys it holds and with which marks |
| MarkSheet.LoadedLastWins | client/admin/src/pages/admin/ProjectManagement.jsx:126-135 | a key is loaded exactly when some evaluation with both ids writes it, and it holds the marks of the last such evaluation |
| MarkSheet.MarkSheet.LoadGroup | client/admin/src/pages/admin/ProjectManagement.jsx:121-135 | the `forEach` loop leaves `marksData` equal to the loaded map and the roster equal to the group's students |
| MarkSheet.MarkSheet.HandleMarkChange | client/admin/src/pages/admin/ProjectManagement.jsx:145-156 | an accepted edit changes only its own key, to the coerced value; a positive value above the maximum is rejected and nothing changes; blank and values up to 0 are always accepted; cells stay in range |
| ProjectList.Shown | client/admin/src/pages/admin/ProjectManagement.jsx:204-210 | the filter's test: a project passes when its status and its technology (empty when missing) match their filters, "All" matching anything; FilteredProjects keeps exactly the projects that pass |
| ProjectList.Technologies | client/admin/src/pages/admin/ProjectManagement.jsx:202 | one technology per project, in project order; DistinctNonEmpty and TechOptions state what the dropdown makes of it |
| ProjectList.FilteredProjects | client/admin/src/pages/admin/ProjectManagement.jsx:204-210 | an order-preserving sublist holding exactly the projects whose status and technology pass their filter, "All" passing everything, each as often as in the input |
| ProjectList.FirstIndexUnique | client/admin/src/pages/admin/ProjectManagement.jsx:202 | the first occurrence of a technology is the only position with that value and no earlier copy |
| ProjectList.DistinctNonEmpty | client/admin/src/pages/admin/ProjectManagement.jsx:202 | the non-empty technologies, each exactly once |
| ProjectList.DistinctInFirstOccurrenceOrder | client/admin/src/pages/admin/ProjectManagement.jsx:202 | the distinct technologies come in the order of their first occurrence, as a `Set` keeps them |
| ProjectList.TechOptions | client/admin/src/pages/admin/ProjectManagement.jsx:200-203 | "All" first, then every non-empty technology of some project exactly once, in first-occurrence order |
| RequestModel.ParseType | server/models/RequestModel.js:11-15 | accepted exactly for "admin" and "guide", and inverse to the enum's names |
| RequestModel.ParseStatus | server/models/RequestModel.js:23-27 | accepted exactly for "pending", "approved" and "rejected", and inverse to the enum's names |
| RequestModel.SkipLeading | server/models/RequestModel.js:20 | the first non-white-space position at or after the start, with only white space skipped |
| RequestModel.SkipTrailing | server/models/RequestModel.js:20 | the end of the text once trailing white space is dropped, with only white space dropped |
| RequestModel.Trim | server/models/RequestModel.js:17-21 | a contiguous part of the message that neither starts nor ends with white space, with only white space cut on either side |
| RequestModel.TrimIdempotent | server/models/RequestModel.js:20 | trimming a trimmed message changes nothing |
| RequestModel.TrimEmptyIffBlank | server/models/RequestModel.js:17-21 | a message trims to empty exactly when it is all white space, so only then does `required` reject it |
| RequestModel.Validate | server/models/RequestModel.js:3-30 | a document is accepted exactly when it has an owner, a type in the enum and a message non-empty after trimming; the stored request has those fields, the message trimmed |
| RequestStore.NewRequest | server/controllers/requestController.js:9-17 | missing type or message gives the 400 error; otherwise success exactly when the schema accepts, and the request is owned by the caller, "pending" and trimmed |
| RequestStore.Edited | server/controllers/requestController.js:49-52 | an empty field keeps the stored value and a given one replaces it; owner, status and creation time are kept; an edit with both fields empty changes nothing; rejected exactly when the new values fail the schema |
| RequestStore.Or | server/controllers/requestController.js:49-50 | the body value, or the stored value when the body's is absent or empty: the result is one of the two values, and empty only when both are; Edited states how the two fields use it |
| RequestStore.EditIdempotent | server/controllers/requestController.js:49-52 | applying the same edit twice stores the same request as applying it once |
| RequestStore.InsertNewest | server/controllers/requestController.js:30-32 | inserting into a newest-first listing keeps it newest first, adds exactly that request, and keeps every other one |
| RequestStore.InsertNewestKeepsDistinct | server/controllers/requestController.js:30-32 | a request not yet listed is listed once after insertion |
| RequestStore.InsertNewestIds | server/controllers/requestController.js:30-32 | after insertion the listed ids are the previous ones plus the new request's |
| RequestStore.RequestStore.constructor | server/models/RequestModel.js:3-30 | the empty store satisfies the schema invariant |
| RequestStore.RequestStore.CreateRequest | server/controllers/requestController.js:4-24 | on success the request `NewRequest` decides is stored under a fresh id; on any error nothing is stored |
| RequestStore.RequestStore.Query | server/controllers/requestController.js:30-32 | the loop lists exactly the selected requests, each once, as stored, newest first |
| RequestStore.RequestStore.GetMyRequests | server/controllers/requestController.js:27-38 | exactly the caller's requests, each once, as stored, by `createdAt` descending |
| RequestStore.RequestStore.GetAllRequests | server/controllers/requestController.js:78-88 | every stored request, each once, by `createdAt` descending |
| RequestStore.RequestStore.UpdateRequest | server/controllers/requestController.js:41-58 | another student's or an unknown request is not found and nothing changes; otherwise the edit is stored if valid, else nothing changes |
| RequestStore.RequestStore.DeleteRequest | server/controllers/requestController.js:61-75 | only the owner's request is removed; anything else is not found and nothing changes |
| RequestStore.RequestStore.DeleteRequestByAdmin | server/controllers/requestController.js:91-102 | the request is removed whoever owns it; an absent id is not found and nothing changes |
| RequestStore.RequestStore.UpdateRequestStatusByAdmin | server/controllers/requestController.js:105-130 | a status outside the enum is rejected before the lookup with no change; an unknown id is not found; otherwise the new status is set from any current one, and nothing else changes |
| SaveRoundTrip.BuiltBatchComplete | client/admin/src/pages/admin/ProjectManagement.jsx:163-172 | when the sheet's cells are in range, every batch entry names a student and a parameter and carries a non-negative mark |
| SaveRoundTrip.StoredTotalOfDocs | server/controllers/evaluationController.js:45-51 | the documents built from a batch hold the same marks total as the batch |
| SaveRoundTrip.SavedSheetMatchesTotals | server/controllers/evaluationController.js:42-55 | saving the sheet (corrected) succeeds, stores one record per student and parameter whose marks add up to the page's grand total, and completes the group |
| SaveRoundTrip.SavedSheetStoresBatch | server/controllers/evaluationController.js:42-53 | after saving the sheet (corrected), the group's records are the sheet's documents in batch order |
| SaveRoundTrip.SavedCellReadsBack | server/models/Evaluation.js:36-39 | after saving the sheet (corrected), looking up any (student, parameter) gives the mark the sheet showed, 0 for a blank cell |
| SaveRoundTrip.AsWrittenSheetSaveLosesMarks | server/controllers/evaluationController.js:45-55 | as written, saving a sheet with at least one student and parameter fails, leaving the group with no records and its status unchanged |

## Left out

- The model follows the code, and the code does not do the following:
  - upsert cell by cell: the save replaces all of a group's records;
  - check a mark against its parameter's maximum on the server: only the
    schema's `min: 0` applies;
  - break ties by id when sorting parameters by `order`;
  - keep a snapshot of group membership: the roster is the group's live
    `students` path;
  - show a missing student as "Unknown": `populate` drops it from the list;
  - store `evaluatedBy`: strict mode drops that path.
- HTTP status codes, routes, response bodies and toasts: outcomes are result
  values instead.
- The 500 catch-all for unexpected errors is the `ValidationFailed` outcome
  where the schema rejects a document. Other failures are left out: database
  errors, and a cast error for an id that is not an ObjectId (ids here are
  always well-formed).
- Authentication and the ambient `req.user` / `req.student`: the caller id is a
  parameter.
- JavaScript `Number` coercion, NaN and floating-point marks. Marks and maxima
  are integers, a typed value is already a number, and the `Number(x) || 0`
  fallback is modelled only for absent and blank cells.
- Timestamps: `createdAt` is an abstract integer supplied by the caller.
  `updatedAt` is not modelled.
- getAllRequests' `populate("student", "name email")`: listings carry the owner
  id.
- Mongo's order among requests with equal `createdAt`, and among parameters
  with equal `order`. Only the sort order and the permutation are stated.
- Concurrency and the `async` interleaving of handlers: every operation runs
  alone.
- React rendering, effects and navigation; documents, notifications and
  announcements.
- The loader's field names (`studentId`, `parameterId`, `givenMarks`): the model
  keeps them as written, although the server's group response carries no
  evaluations.
- MarkSheet.MarkSheet.HandleMarkChange: a positive value for a parameter id that
  does not exist makes the source throw a TypeError. It is modelled as a
  `NoSuchParameter` outcome that changes nothing.
- RequestModel.Trim: white space is the set `String.prototype.trim` removes,
  listed as characters. No other Unicode handling is modelled.

## Findings

| source | as written | input that shows it | evidently intended | confidence | as-written member | corrected member |
|---|---|---|---|---|---|---|
| server/controllers/evaluationController.js:45-52 | the documents carry `evaluatedBy`, which the schema drops, and no `guide`, which server/models/Evaluation.js:11-15 requires; every non-empty save fails validation after `deleteMany` has already removed the group's marks, and the group is never marked "Completed" | any batch with one entry, e.g. one student and one parameter with mark 5 | the evaluator is recorded in the schema's `guide` path, so the batch is stored and the group completed | not executed | EvaluationStore.AsWrittenSaveLosesMarks | EvaluationStore.SaveWithGuideStoresBatch |
