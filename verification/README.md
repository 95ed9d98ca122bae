# InsightFlow tasks service — a Dafny model of the task store and its service

The tasks service of InsightFlow keeps tasks in an in-memory table keyed by
task id. Each task belongs to one document and is assigned to one user. A
task's status (PENDING, IN_PROGRESS, COMPLETED) and priority (LOW, MEDIUM,
HIGH) are stored as free strings, and only the conversion to the API
response checks them against the two enumerations. Deletion is logical: the
record stays in the table with `active` switched off.

The model has five modules:

- `TaskModel` (`task_model.dfy`) covers the entity, the two enumerations
  with their literal and display names, and `valueOf` as `ParseStatus` and
  `ParsePriority`.
- `Text` (`text.dfy`) holds the two string operations the core relies on:
  `trim()`, used by `@NotBlank`, and `toUpperCase()`.
- `TaskDtos` (`task_dtos.dfy`) covers the request shapes and their
  validation constraints, the response, `fromEntity`, and the conversion of
  a whole list.
- `TaskStore` (`task_store.dfy`) covers the repository. Its queries are
  functions of the table's contents, and the class `TaskRepository` holds
  the table (`taskStore`) and the operations that change it.
- `TaskServices` (`task_service.dfy`) covers the service. The reads are
  functions of the table, and the class `TaskService` holds the writes,
  which go through its repository.

Some values the code draws from the environment become parameters:

- Clock readings (`LocalDateTime.now()`) and generated ids
  (`UUID.randomUUID()`) are method parameters.
- `createTask` reads the clock twice (once for `createdAt`, once for
  `updatedAt`), so it takes two readings.
- The table is a hash map whose iteration order nothing specifies.
  `TaskStore.KeyOrder` picks some order, and every listing property is
  proved for whichever order it picks.
- A thrown exception becomes a `Failure` of `TaskDtos.Result`:
  - `TaskNotFoundException` becomes `NotFound`;
  - the `IllegalArgumentException` from `valueOf` becomes `UnknownStatus` or
    `UnknownPriority`.

Where a reader might expect more than the code does, the model follows the code:

- One might expect a created task's `createdAt` and `updatedAt` to be equal.
  The code reads the clock twice, so the model does not promise this.
- One might expect a task's status always to be one of the three literals.
  The code does not check this:
  - `createTask` and `updateTaskStatus` store any non-blank string;
  - `updateTask` stores any string, blank ones included, because its request
    carries no constraints.

  The lemmas `TaskServices.UnknownStatusIsStoredThenRejected` and
  `TaskServices.UnknownStatusIsCreatedThenRejected` show what follows, in the
  table the call leaves behind:
  - the write happens;
  - the call then fails;
  - `getAllTasks` fails.

  `TaskServices.UnconvertibleRecordBreaksListing` adds that, in any table, one
  active record that cannot be converted makes `getAllTasks`, the listing of
  its document and the listing of its user fail.
- One might expect an empty priority to default to MEDIUM, as an absent one
  does. Only a null priority defaults. An empty string is upper-cased to the
  empty string and stored, and the create then fails with an unknown
  priority (`TaskServices.EmptyPriorityIsStoredThenRejected`).
- One might expect `updatedAt` never to be before `createdAt`, and strictly
  after it once the task has been changed. The code reads a wall clock that
  may go back. The model proves the ordering only for a clock that never
  reads earlier than a record's last write (`TaskStore.TimestampsOrdered` and
  the lemmas beside it). `TaskStore.DeleteWithEarlierClock` shows the
  ordering breaking without that assumption.

## Model

| member | source | states |
|---|---|---|
| TaskModel.ParseStatus | src/main/java/com/insightflow/tasks_service/dto/TaskDTOs.java:93 | `valueOf` on the status: a result is the literal carrying exactly that name, and there is no result exactly when no literal has that name |
| TaskModel.ParsePriority | src/main/java/com/insightflow/tasks_service/dto/TaskDTOs.java:94 | `valueOf` on the priority: a result is the literal carrying exactly that name, and there is no result exactly when no literal has that name |
| TaskModel.StatusNamesRoundTrip | src/main/java/com/insightflow/tasks_service/model/Task.java:66-69 | parsing a status literal's name gives back that literal, and exactly PENDING, IN_PROGRESS and COMPLETED parse |
| TaskModel.PriorityNamesRoundTrip | src/main/java/com/insightflow/tasks_service/model/Task.java:84-87 | parsing a priority literal's name gives back that literal, and exactly LOW, MEDIUM and HIGH parse |
| TaskModel.StatusDisplayName | src/main/java/com/insightflow/tasks_service/model/Task.java:66-79 | `getDisplayName` on a status: Pendiente belongs to PENDING only, En progreso to IN_PROGRESS only, Completada to COMPLETED only |
| TaskModel.PriorityDisplayName | src/main/java/com/insightflow/tasks_service/model/Task.java:84-97 | `getDisplayName` on a priority: Baja belongs to LOW only, Media to MEDIUM only, Alta to HIGH only |
| TaskModel.StatusDisplayNamesInjective | src/main/java/com/insightflow/tasks_service/model/Task.java:66-80 | the Spanish display names Pendiente, En progreso and Completada tell the statuses apart |
| TaskModel.PriorityDisplayNamesInjective | src/main/java/com/insightflow/tasks_service/model/Task.java:84-98 | the display names Baja, Media and Alta tell the priorities apart |
| TaskModel.ParseStatusRejectsOtherSpellings | src/main/java/com/insightflow/tasks_service/dto/TaskDTOs.java:93 | the match is case-sensitive: "pending", "Pending", "DONE" and "" are not statuses |
| Text.TrimLeadingDropsPrefix | src/main/java/com/insightflow/tasks_service/dto/TaskDTOs.java:25-26 | trimming the front of a string (for `@NotBlank`) removes exactly a prefix of characters at or below U+0020 and stops at the first character above it |
| Text.TrimTrailingDropsSuffix | src/main/java/com/insightflow/tasks_service/dto/TaskDTOs.java:25-26 | trimming the back removes exactly the longest suffix of characters at or below U+0020: everything removed is at or below U+0020, and the last character kept lies above it |
| Text.NotBlankIff | src/main/java/com/insightflow/tasks_service/dto/TaskDTOs.java:25-26 | a present string passes `@NotBlank` exactly when one of its characters lies above U+0020 |
| Text.UpperChar | src/main/java/com/insightflow/tasks_service/service/TaskService.java:34 | a lower-case ASCII letter becomes its own capital, at the same place in the alphabet; every other character is unchanged |
| Text.ToUpper | src/main/java/com/insightflow/tasks_service/service/TaskService.java:34 | upper-casing keeps the length and upper-cases each character in place |
| Text.ToUpperIdempotent | src/main/java/com/insightflow/tasks_service/service/TaskService.java:34 | an upper-cased string has no lower-case letter, upper-casing it again changes nothing, and text without lower-case letters is left as it is |
| TaskDtos.CreateRequestViolations | src/main/java/com/insightflow/tasks_service/dto/TaskDTOs.java:24-37 | a create request breaks a field's constraint exactly when documentId, title, status or assignedUserId is absent or blank, or dueDate is absent; description and priority are never in violation |
| TaskDtos.CreateRequestOptionalFields | src/main/java/com/insightflow/tasks_service/dto/TaskDTOs.java:29-34 | changing description or priority never changes whether a create request is valid, and a valid request carries all five required fields |
| TaskDtos.IsValidStatusRequest | src/main/java/com/insightflow/tasks_service/dto/TaskDTOs.java:62-65 | a status update passes its constraint exactly when the status is present and has a character above U+0020 |
| TaskDtos.StatusRequestAcceptsUnknownStatus | src/main/java/com/insightflow/tasks_service/dto/TaskDTOs.java:62-65 | the status-update constraint accepts "DONE", which names no status, and rejects a whitespace-only or absent status |
| TaskDtos.FromEntity | src/main/java/com/insightflow/tasks_service/dto/TaskDTOs.java:92-110 | conversion succeeds exactly when both stored strings are literal names; an unknown status fails before the priority is looked at; on success the enums name the stored strings, the display names belong to those enums, and every other field is copied |
| TaskDtos.FromEntityInjective | src/main/java/com/insightflow/tasks_service/dto/TaskDTOs.java:92-110 | conversion loses nothing: two tasks with the same successful response are equal |
| TaskDtos.ToResponses | src/main/java/com/insightflow/tasks_service/service/TaskService.java:167-173 | converting a list succeeds exactly when every element converts, and then gives one response per task in the same order; otherwise the error is that of the first element that fails |
| TaskDtos.ToResponsesFailureShifts | src/main/java/com/insightflow/tasks_service/service/TaskService.java:167-173 | when the head converts, the first failure of the tail is the first failure of the whole list |
| TaskDtos.ResponsesMirrorTasks | src/main/java/com/insightflow/tasks_service/dto/TaskDTOs.java:95-106 | a converted list keeps each task's active flag, createdAt, documentId and assignedUserId at the same position |
| TaskStore.KeyOrder | src/main/java/com/insightflow/tasks_service/repository/TaskRepository.java:23 | the map is iterated in some order that visits every key exactly once |
| TaskStore.ValuesAt | src/main/java/com/insightflow/tasks_service/repository/TaskRepository.java:62 | the values read along a key order, one per key, at that key's position |
| TaskStore.Values | src/main/java/com/insightflow/tasks_service/repository/TaskRepository.java:62 | `values().stream()` holds every stored record and nothing else, one element per key; when every record is stored under its own id, no id repeats |
| TaskStore.ValuesAtCovers | src/main/java/com/insightflow/tasks_service/repository/TaskRepository.java:62 | the values read along a key order covering the table are exactly the stored records |
| TaskStore.Filter | src/main/java/com/insightflow/tasks_service/repository/TaskRepository.java:63 | a stream filter keeps exactly the elements that satisfy the predicate, and the result is never longer than the input |
| TaskStore.FilterCounts | src/main/java/com/insightflow/tasks_service/repository/TaskRepository.java:63 | each passing element occurs in the filtered list as often as in the input, and a failing one not at all |
| TaskStore.FilterAppend | src/main/java/com/insightflow/tasks_service/repository/TaskRepository.java:63 | filtering a concatenation concatenates the filtered parts, so passing elements keep the input's order |
| TaskStore.FilterRejectingAll | src/main/java/com/insightflow/tasks_service/repository/TaskRepository.java:86 | a filter that no element passes yields the empty list |
| TaskStore.FilterKeepsIdsDistinct | src/main/java/com/insightflow/tasks_service/repository/TaskRepository.java:63 | filtering never makes an id repeat |
| TaskStore.InsertByCreatedDesc | src/main/java/com/insightflow/tasks_service/repository/TaskRepository.java:64 | one step of the newest-first sort adds exactly the new element to the list |
| TaskStore.SortByCreatedDesc | src/main/java/com/insightflow/tasks_service/repository/TaskRepository.java:64 | the newest-first sort has the same length and the same elements as its input |
| TaskStore.InsertKeepsSorted | src/main/java/com/insightflow/tasks_service/repository/TaskRepository.java:64 | inserting into a newest-first list keeps it newest first |
| TaskStore.SortIsSorted | src/main/java/com/insightflow/tasks_service/repository/TaskRepository.java:64 | the sort's output never increases in createdAt along the list |
| TaskStore.InsertIsPermutation | src/main/java/com/insightflow/tasks_service/repository/TaskRepository.java:64 | an insertion step adds one copy of the new element and keeps every other element's multiplicity |
| TaskStore.SortIsPermutation | src/main/java/com/insightflow/tasks_service/repository/TaskRepository.java:64 | the sort's output is a permutation of its input (as multisets) |
| TaskStore.InsertKeepsIdsDistinct | src/main/java/com/insightflow/tasks_service/repository/TaskRepository.java:64 | inserting a task whose id is new keeps ids distinct |
| TaskStore.SortKeepsIdsDistinct | src/main/java/com/insightflow/tasks_service/repository/TaskRepository.java:64 | sorting never makes an id repeat |
| TaskStore.FindById | src/main/java/com/insightflow/tasks_service/repository/TaskRepository.java:41-43 | a record is found exactly when the id is a key, whether the record is active or not; the record found is a stored one and carries that id |
| TaskStore.ExistsById | src/main/java/com/insightflow/tasks_service/repository/TaskRepository.java:119-121 | `existsById` holds exactly when `findById` finds a record, active or not, and when records are stored under their own ids the record under that key carries that id |
| TaskStore.Listing | src/main/java/com/insightflow/tasks_service/repository/TaskRepository.java:61-66 | a filtered listing holds exactly the stored records that pass the filter, newest first, with no id twice |
| TaskStore.FindAll | src/main/java/com/insightflow/tasks_service/repository/TaskRepository.java:61-66 | `findAll` holds exactly the active stored records, newest first, each id once |
| TaskStore.FindByDocumentId | src/main/java/com/insightflow/tasks_service/repository/TaskRepository.java:50-56 | `findByDocumentId` holds exactly the active records of that document, newest first, each id once; the second active filter removes nothing |
| TaskStore.FindByAssignedUserId | src/main/java/com/insightflow/tasks_service/repository/TaskRepository.java:73-78 | `findByAssignedUserId` holds exactly the active records of that user, newest first, each id once |
| TaskStore.FindByStatus | src/main/java/com/insightflow/tasks_service/repository/TaskRepository.java:84-89 | as written, `findByStatus` compares a String with an enum constant and always returns the empty list |
| TaskStore.FindByStatusMissesMatchingRecord | src/main/java/com/insightflow/tasks_service/repository/TaskRepository.java:86 | an active PENDING record is missed by `findByStatus(PENDING)` but listed by the corrected query |
| TaskStore.FindByStatusIntended | src/main/java/com/insightflow/tasks_service/repository/TaskRepository.java:84-89 | the corrected query holds exactly the active records whose status string is the literal's name, newest first, each id once |
| TaskStore.Count | src/main/java/com/insightflow/tasks_service/repository/TaskRepository.java:127-131 | `count` equals the length of `findAll` |
| TaskStore.MatchingKeys | src/main/java/com/insightflow/tasks_service/repository/TaskRepository.java:128-130 | the keys in a key order whose records pass the filter |
| TaskStore.FilterValuesAtCount | src/main/java/com/insightflow/tasks_service/repository/TaskRepository.java:128-130 | filtering the values read under distinct keys leaves one element per matching key |
| TaskStore.CountIsActiveIds | src/main/java/com/insightflow/tasks_service/repository/TaskRepository.java:127-131 | `count` is the number of ids whose record is active, whatever the iteration order |
| TaskStore.StoredUnderOwnId | src/main/java/com/insightflow/tasks_service/repository/TaskRepository.java:30-33 | when records sit under their own ids, a task is stored exactly when its id maps to it |
| TaskStore.LogicallyDeleted | src/main/java/com/insightflow/tasks_service/repository/TaskRepository.java:105-112 | the table after `deleteById` keeps the same keys; the record under the id is inactive, stamped with the clock and otherwise unchanged; every other record is as it was |
| TaskStore.DeleteKeepsExistence | src/main/java/com/insightflow/tasks_service/repository/TaskRepository.java:105-121 | a delete never changes which ids `existsById` reports |
| TaskStore.DeleteAbsentIsNoOp | src/main/java/com/insightflow/tasks_service/repository/TaskRepository.java:105-112 | deleting an id that is not a key leaves the table unchanged |
| TaskStore.DeletePresent | src/main/java/com/insightflow/tasks_service/repository/TaskRepository.java:105-112 | deleting a present id keeps every key and every other record; the record differs only in active (now false) and updatedAt (now the clock); the id leaves the active set yet still exists |
| TaskStore.DeleteKeepsKeysMatchIds | src/main/java/com/insightflow/tasks_service/repository/TaskRepository.java:106-110 | deletion writes the record back under its own id |
| TaskStore.DeleteUnlists | src/main/java/com/insightflow/tasks_service/repository/TaskRepository.java:105-112 | after a delete, `findAll` lists no record with that id |
| TaskStore.DeleteKeepsOthersListed | src/main/java/com/insightflow/tasks_service/repository/TaskRepository.java:105-112 | a delete keeps every other record in `findAll` |
| TaskStore.DeleteKeepsOtherRecord | src/main/java/com/insightflow/tasks_service/repository/TaskRepository.java:105-112 | a record under another id stays stored, unchanged, after a delete |
| TaskStore.DeleteDropsActiveId | src/main/java/com/insightflow/tasks_service/repository/TaskRepository.java:105-112 | deleting an active record removes exactly its id from the active ids, one fewer |
| TaskStore.DeleteDecrementsCount | src/main/java/com/insightflow/tasks_service/repository/TaskRepository.java:105-131 | deleting an active record lowers `count` by one |
| TaskStore.InsertIsListed | src/main/java/com/insightflow/tasks_service/repository/TaskRepository.java:30-78 | a saved active record is listed by `findAll`, by its document's listing and by its user's listing |
| TaskStore.InsertKeepsListed | src/main/java/com/insightflow/tasks_service/repository/TaskRepository.java:30-66 | saving under a new id drops nothing from `findAll` |
| TaskStore.InsertIncrementsCount | src/main/java/com/insightflow/tasks_service/repository/TaskRepository.java:30-131 | saving an active record under a new id raises `count` by one |
| TaskStore.InsertAddsActiveId | src/main/java/com/insightflow/tasks_service/repository/TaskRepository.java:30-33 | saving an active record under a new id adds exactly its id to the active ids |
| TaskStore.WriteKeepsTimestampsOrdered | src/main/java/com/insightflow/tasks_service/repository/TaskRepository.java:30-33 | a put-by-id of a record whose updatedAt is not before its createdAt keeps that order for the whole table |
| TaskStore.DeleteKeepsTimestampsOrdered | src/main/java/com/insightflow/tasks_service/repository/TaskRepository.java:105-112 | with a clock not earlier than the record's last write, a delete keeps the table's timestamp order, and with a later clock the deleted record's updatedAt is strictly after its createdAt |
| TaskStore.DeleteWithEarlierClock | src/main/java/com/insightflow/tasks_service/repository/TaskRepository.java:109 | a clock reading earlier than a record's creation, used by a delete, leaves that record updated before it was created |
| TaskStore.TaskRepository.constructor | src/main/java/com/insightflow/tasks_service/repository/TaskRepository.java:23 | the table starts empty |
| TaskStore.TaskRepository.Save | src/main/java/com/insightflow/tasks_service/repository/TaskRepository.java:30-33 | `save` puts the task under its own id (inserting or overwriting), returns it, leaves every other id's lookup unchanged, and keeps records under their own ids |
| TaskStore.TaskRepository.Update | src/main/java/com/insightflow/tasks_service/repository/TaskRepository.java:96-99 | `update` is the same put-by-id as `save`, with the same guarantees |
| TaskStore.TaskRepository.DeleteById | src/main/java/com/insightflow/tasks_service/repository/TaskRepository.java:105-112 | `deleteById` leaves the table as the logical deletion describes (inactive, stamped updatedAt, key kept); an absent id changes nothing |
| TaskStore.TaskRepository.Clear | src/main/java/com/insightflow/tasks_service/repository/TaskRepository.java:136-138 | after `clear` no id exists, `count` is 0 and `findAll` is empty |
| TaskServices.FindActive | src/main/java/com/insightflow/tasks_service/service/TaskService.java:75-80 | a record is found exactly when its id is present and it is active, and it is then the stored record |
| TaskServices.GetTaskById | src/main/java/com/insightflow/tasks_service/service/TaskService.java:73-83 | `getTaskById` fails with NotFound exactly when the record is absent or inactive; otherwise it is the record's conversion, which is active and carries the id |
| TaskServices.GetAllTasks | src/main/java/com/insightflow/tasks_service/service/TaskService.java:167-173 | `getAllTasks` succeeds exactly when every listed record converts, and then gives one response per `findAll` record, in order |
| TaskServices.GetTasksByDocumentId | src/main/java/com/insightflow/tasks_service/service/TaskService.java:59-65 | `getTasksByDocumentId` succeeds exactly when every listed record converts, and then gives one response per listed record, in order |
| TaskServices.GetTasksByAssignedUserId | src/main/java/com/insightflow/tasks_service/service/TaskService.java:180-186 | `getTasksByAssignedUserId` succeeds exactly when every listed record converts, and then gives one response per listed record, in order |
| TaskServices.ResponsesOfListing | src/main/java/com/insightflow/tasks_service/service/TaskService.java:167-173 | a converted listing shows each record's active flag, document and user at the same position, and stays newest first when the listing is |
| TaskServices.AllTasksActiveNewestFirst | src/main/java/com/insightflow/tasks_service/service/TaskService.java:167-173 | every response of `getAllTasks` is active, and createdAt never increases along the list |
| TaskServices.DocumentTasksActiveNewestFirst | src/main/java/com/insightflow/tasks_service/service/TaskService.java:59-65 | every response of `getTasksByDocumentId` is active and belongs to that document, newest first |
| TaskServices.UserTasksActiveNewestFirst | src/main/java/com/insightflow/tasks_service/service/TaskService.java:180-186 | every response of `getTasksByAssignedUserId` is active and assigned to that user, newest first |
| TaskServices.UnconvertibleRecordBreaksListing | src/main/java/com/insightflow/tasks_service/service/TaskService.java:167-173 | one active stored record that fails conversion makes `getAllTasks`, its document's listing and its user's listing fail |
| TaskServices.CreatedPriority | src/main/java/com/insightflow/tasks_service/service/TaskService.java:34 | the priority a create stores never contains a lower-case letter |
| TaskServices.PriorityDefaulting | src/main/java/com/insightflow/tasks_service/service/TaskService.java:34 | an absent priority becomes MEDIUM; any casing of a literal name becomes that literal; a supplied priority converts exactly when its upper-cased form is a literal name; "high" becomes "HIGH" |
| TaskServices.NewTask | src/main/java/com/insightflow/tasks_service/service/TaskService.java:34-48 | a created record has the given id and clock readings, is active, copies every required request field and the description unchanged, and stores the defaulted priority |
| TaskServices.NewTaskPriority | src/main/java/com/insightflow/tasks_service/service/TaskService.java:34 | a created record's priority parses as MEDIUM when none was given, and otherwise as the upper-cased request value |
| TaskServices.WithStatus | src/main/java/com/insightflow/tasks_service/service/TaskService.java:100-101 | the status-updated record carries the new status and the clock reading, and every other field as before |
| TaskServices.ApplyUpdate | src/main/java/com/insightflow/tasks_service/service/TaskService.java:123-141 | `updateTask` never changes id, documentId, createdAt or active, and always sets updatedAt to the clock |
| TaskServices.UpdateIsPartial | src/main/java/com/insightflow/tasks_service/service/TaskService.java:123-140 | each present field of an update replaces the stored one (priority upper-cased), and each absent field leaves it as it was |
| TaskServices.StatusOnlyUpdateIsStatusUpdate | src/main/java/com/insightflow/tasks_service/service/TaskService.java:100-141 | a general update carrying only a status equals the status update, and an empty update only refreshes updatedAt |
| TaskServices.StatusTransitionsUnconstrained | src/main/java/com/insightflow/tasks_service/service/TaskService.java:100-104 | any status literal may follow any other: the updated record still converts and shows the new status |
| TaskServices.CreateKeepsTimestampsOrdered | src/main/java/com/insightflow/tasks_service/service/TaskService.java:45-46 | when the second clock reading is not before the first, a create keeps updatedAt at or after createdAt across the table |
| TaskServices.StatusUpdateKeepsTimestampsOrdered | src/main/java/com/insightflow/tasks_service/service/TaskService.java:100-102 | with a clock not earlier than the record's last write, a status update keeps the table's timestamp order, and with a later clock leaves updatedAt strictly after createdAt |
| TaskServices.UpdateKeepsTimestampsOrdered | src/main/java/com/insightflow/tasks_service/service/TaskService.java:141-142 | with a clock not earlier than the record's last write, a general update keeps the table's timestamp order, and with a later clock leaves updatedAt strictly after createdAt |
| TaskServices.DeleteThenLookupFails | src/main/java/com/insightflow/tasks_service/service/TaskService.java:151-161 | after a delete, lookup fails with NotFound, while the id still exists and its record is the inactive, re-stamped one |
| TaskServices.CreateThenFind | src/main/java/com/insightflow/tasks_service/service/TaskService.java:31-52 | a record created under a new id is found by id, listed by all three listings, and raises `count` by one |
| TaskServices.UnknownStatusIsStoredThenRejected | src/main/java/com/insightflow/tasks_service/service/TaskService.java:100-104 | a status update to a non-literal is written to the table and the call fails; in the table it leaves, lookup of that id and `getAllTasks` fail |
| TaskServices.UnknownStatusIsCreatedThenRejected | src/main/java/com/insightflow/tasks_service/service/TaskService.java:49-51 | a create with a non-literal status stores the record and the call fails; in the table it leaves, `getAllTasks` fails |
| TaskServices.EmptyPriorityIsStoredThenRejected | src/main/java/com/insightflow/tasks_service/service/TaskService.java:34-51 | a create whose priority is the empty string stores "" instead of MEDIUM, and the call then fails with an unknown priority "" |
| TaskServices.TaskService.constructor | src/main/java/com/insightflow/tasks_service/service/TaskService.java:22-24 | the service holds the repository it is given |
| TaskServices.TaskService.CreateTask | src/main/java/com/insightflow/tasks_service/service/TaskService.java:31-52 | `createTask` stores the record built from the request under the given id, returns its conversion, and keeps records under their own ids |
| TaskServices.TaskService.UpdateTaskStatus | src/main/java/com/insightflow/tasks_service/service/TaskService.java:92-105 | an absent or inactive id gives NotFound and changes nothing; otherwise the record gets the new status and a fresh updatedAt, is written back, and the result is its conversion |
| TaskServices.TaskService.UpdateTask | src/main/java/com/insightflow/tasks_service/service/TaskService.java:114-145 | an absent or inactive id gives NotFound and changes nothing; otherwise the partial update is written back and the result is its conversion |
| TaskServices.TaskService.DeleteTask | src/main/java/com/insightflow/tasks_service/service/TaskService.java:151-161 | an absent or inactive id gives NotFound and changes nothing; otherwise the table becomes its logical deletion |
| TaskServices.ScenarioRequestsValid | src/main/java/com/insightflow/tasks_service/dto/TaskDTOs.java:24-65 | the create and status requests of the end-to-end scenario pass their Jakarta constraints |
| TaskServices.CreateCompleteDeleteScenario | src/main/java/com/insightflow/tasks_service/service/TaskService.java:31-161 | on an empty store, creating a task with no priority gives an active MEDIUM task; completing it shows COMPLETED with the new updatedAt; after deletion lookup fails; a second delete is refused with NotFound |

## Left out

- Concurrency: the table is a `ConcurrentHashMap`; the model treats calls one at a time. Interleavings, and the lost updates they can cause between a service's read and its write-back, are not modelled.
- Aliasing of `Task` objects: the code mutates the object it fetched before putting it back. The model has value records, so a caller that keeps a reference to a stored `Task` and sees it change is not represented. The write-back ends in the same table contents.
- The clock is a free parameter. `LocalDateTime.now()` is a wall clock with no promise of monotonicity, so the code does not guarantee that updatedAt stays at or after createdAt. The model proves that order only under the hypothesis that the clock never reads earlier than a record's last write.
- The clock and the id generator are parameters. `TaskServices.TaskService.CreateTask` does not draw a fresh UUID, so it overwrites an existing id as `save` does. Freshness is a hypothesis of `TaskServices.CreateThenFind` and the insertion lemmas.
- The hash map's iteration order is left unspecified (`TaskStore.KeyOrder`). The model promises nothing about the relative order of two records with the same createdAt.
- `Text.ToUpper` models `toUpperCase` on ASCII letters only. Locale-dependent and non-ASCII case mappings are not modelled.
- `TaskServices.TaskService.CreateTask` and `TaskServices.TaskService.UpdateTaskStatus` require the request to satisfy its Jakarta constraints. The controller applies `@Valid` before the service runs. Without it, a null status is saved and `valueOf(null)` then throws `NullPointerException`. A null documentId, title, assignedUserId or dueDate is stored without any error. That path is not modelled.
- Null entity fields do not arise in the model. An example is a stored task with a null documentId, on which the listing filters would throw. A create copies only fields its constraints require to be present, or the nullable description. `updateTask` writes a field only when the request carries it (the request itself is not validated, so blank strings are written).
- `count` returns a Java `long`. The model uses an unbounded `nat`, since overflow would need more than 2^63 records.
- Logging (`log.info`), the REST controller, the global exception handler, the data seeder and the application bootstrap are not part of this model.
- The Lombok builders, getters and setters are modelled as record construction and record update.
- Error message texts are not modelled: only the kind of failure and the offending id or name are.

## Findings

| source | as written | input that shows it | evidently intended | confidence | as-written member | corrected member |
|---|---|---|---|---|---|---|
| src/main/java/com/insightflow/tasks_service/repository/TaskRepository.java:86 | `findByStatus` compares the stored status String with a `TaskStatus` enum constant using `equals`, which is always false, so the query returns an empty list | a table holding one active task with status "PENDING", queried with `findByStatus(PENDING)`, gives an empty list | list the active tasks whose status string is the literal's name, newest first | high (not executed) | TaskStore.FindByStatusMissesMatchingRecord | TaskStore.FindByStatusIntended |
