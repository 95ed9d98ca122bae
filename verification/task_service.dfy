/**
 The task service: the business rules above the store.

 A task that is absent, or present but logically deleted, is not found.
 Create assigns the id and the clock readings it is given, defaults the
 priority to MEDIUM and upper-cases a supplied one. The two update paths
 write only what the request carries and refresh `updatedAt`. Every write
 reaches the store BEFORE the record is converted for the caller, so a
 status or priority that is not an exact literal name is stored although
 the call itself fails.

 The read operations are functions of the store's contents; the writes are
 methods of `TaskService`, which holds the repository it was built with.
 */
module TaskServices {
  import opened TaskModel
  import opened TaskDtos
  import opened TaskStore
  import Text

  // ---------------------------------------------------------------------
  // Reads

  /** `findById(id).filter(Task::isActive)`: the record, if present and active. */
  function FindActive(m: Store, id: string): (r: Option<Task>)
    ensures r.Some? <==> id in m && m[id].active
    ensures r.Some? ==> r.value == m[id]
  {
    match FindById(m, id)
    case None => None
    case Some(t) => if t.active then Some(t) else None
  }

  /** `getTaskById`: NotFound unless the record is present and active, else its conversion. */
  function GetTaskById(m: Store, id: string): (r: Result<TaskResponse>)
    ensures r == Failure(NotFound(id)) <==> !(id in m && m[id].active)
    ensures id in m && m[id].active ==> r == FromEntity(m[id])
    ensures r.Success? ==> r.value.active && (KeysMatchIds(m) ==> r.value.id == id)
  {
    match FindActive(m, id)
    case None => Failure(NotFound(id))
    case Some(t) => FromEntity(t)
  }

  /** `getAllTasks`: one response per active record, in the repository's order. */
  ghost function GetAllTasks(m: Store): (r: Result<seq<TaskResponse>>)
    ensures var ts := FindAll(m);
      r.Success? <==> forall i :: 0 <= i < |ts| ==> FromEntity(ts[i]).Success?
    ensures var ts := FindAll(m);
      r.Success? ==> |r.value| == |ts| && forall i :: 0 <= i < |ts| ==> FromEntity(ts[i]) == Success(r.value[i])
  {
    ToResponses(FindAll(m))
  }

  /** `getTasksByDocumentId`: one response per listed record of the document, in the repository's order. */
  ghost function GetTasksByDocumentId(m: Store, documentId: string): (r: Result<seq<TaskResponse>>)
    ensures var ts := FindByDocumentId(m, documentId);
      r.Success? <==> forall i :: 0 <= i < |ts| ==> FromEntity(ts[i]).Success?
    ensures var ts := FindByDocumentId(m, documentId);
      r.Success? ==> |r.value| == |ts| && forall i :: 0 <= i < |ts| ==> FromEntity(ts[i]) == Success(r.value[i])
  {
    ToResponses(FindByDocumentId(m, documentId))
  }

  /** `getTasksByAssignedUserId`: one response per listed record of the user, in the repository's order. */
  ghost function GetTasksByAssignedUserId(m: Store, assignedUserId: string): (r: Result<seq<TaskResponse>>)
    ensures var ts := FindByAssignedUserId(m, assignedUserId);
      r.Success? <==> forall i :: 0 <= i < |ts| ==> FromEntity(ts[i]).Success?
    ensures var ts := FindByAssignedUserId(m, assignedUserId);
      r.Success? ==> |r.value| == |ts| && forall i :: 0 <= i < |ts| ==> FromEntity(ts[i]) == Success(r.value[i])
  {
    ToResponses(FindByAssignedUserId(m, assignedUserId))
  }

  /** A converted list shows what the listed records show, in the same order. */
  lemma ResponsesOfListing(ts: seq<Task>)
    requires ToResponses(ts).Success?
    ensures var rs := ToResponses(ts).value;
      && (forall i :: 0 <= i < |rs| ==> rs[i].active == ts[i].active)
      && (forall i :: 0 <= i < |rs| ==> rs[i].documentId == ts[i].documentId && rs[i].assignedUserId == ts[i].assignedUserId)
      && (SortedByCreatedDesc(ts) ==> forall i, j :: 0 <= i < j < |rs| ==> rs[i].createdAt >= rs[j].createdAt)
  {
    ResponsesMirrorTasks(ts);
  }

  /** A property that every member of a listing has holds at every position. */
  lemma AtEveryPosition(ts: seq<Task>, p: Task -> bool)
    requires forall t :: t in ts ==> p(t)
    ensures forall i :: 0 <= i < |ts| ==> p(ts[i])
  {
    forall i | 0 <= i < |ts| ensures ts[i] in ts {
    }
  }

  /** A successful `getAllTasks` shows only active tasks, newest first. */
  lemma AllTasksActiveNewestFirst(m: Store)
    requires GetAllTasks(m).Success?
    ensures var rs := GetAllTasks(m).value;
      forall i :: 0 <= i < |rs| ==> rs[i].active
    ensures var rs := GetAllTasks(m).value;
      forall i, j :: 0 <= i < j < |rs| ==> rs[i].createdAt >= rs[j].createdAt
  {
    FindAllActiveAtEveryPosition(m);
    ResponsesOfListing(FindAll(m));
  }

  /** Every position of `findAll` holds an active record. */
  lemma FindAllActiveAtEveryPosition(m: Store)
    ensures var ts := FindAll(m);
      forall i :: 0 <= i < |ts| ==> ts[i].active
  {
    AtEveryPosition(FindAll(m), (t: Task) => t.active);
  }

  /** A successful `getTasksByDocumentId` shows only active tasks of that document, newest first. */
  lemma DocumentTasksActiveNewestFirst(m: Store, documentId: string)
    requires GetTasksByDocumentId(m, documentId).Success?
    ensures var rs := GetTasksByDocumentId(m, documentId).value;
      forall i :: 0 <= i < |rs| ==> rs[i].active && rs[i].documentId == documentId
    ensures var rs := GetTasksByDocumentId(m, documentId).value;
      forall i, j :: 0 <= i < j < |rs| ==> rs[i].createdAt >= rs[j].createdAt
  {
    var ts := FindByDocumentId(m, documentId);
    assert forall t :: t in ts ==> t.active && t.documentId == documentId;
    AtEveryPosition(ts, (t: Task) => t.active);
    AtEveryPosition(ts, (t: Task) => t.documentId == documentId);
    ResponsesOfListing(ts);
  }

  /** A successful `getTasksByAssignedUserId` shows only active tasks of that user, newest first. */
  lemma UserTasksActiveNewestFirst(m: Store, assignedUserId: string)
    requires GetTasksByAssignedUserId(m, assignedUserId).Success?
    ensures var rs := GetTasksByAssignedUserId(m, assignedUserId).value;
      forall i :: 0 <= i < |rs| ==> rs[i].active && rs[i].assignedUserId == assignedUserId
    ensures var rs := GetTasksByAssignedUserId(m, assignedUserId).value;
      forall i, j :: 0 <= i < j < |rs| ==> rs[i].createdAt >= rs[j].createdAt
  {
    var ts := FindByAssignedUserId(m, assignedUserId);
    assert forall t :: t in ts ==> t.active && t.assignedUserId == assignedUserId;
    AtEveryPosition(ts, (t: Task) => t.active);
    AtEveryPosition(ts, (t: Task) => t.assignedUserId == assignedUserId);
    ResponsesOfListing(ts);
  }

  /**
   One active record whose status or priority is not a literal name makes
   the whole listing fail: the stream conversion throws on it.
   */
  lemma UnconvertibleRecordBreaksListing(m: Store, t: Task)
    requires t in m.Values && t.active && FromEntity(t).Failure?
    ensures GetAllTasks(m).Failure?
    ensures GetTasksByDocumentId(m, t.documentId).Failure?
    ensures GetTasksByAssignedUserId(m, t.assignedUserId).Failure?
  {
    var all := FindAll(m);
    var i :| 0 <= i < |all| && all[i] == t;
    var byDocument := FindByDocumentId(m, t.documentId);
    var j :| 0 <= j < |byDocument| && byDocument[j] == t;
    var byUser := FindByAssignedUserId(m, t.assignedUserId);
    var k :| 0 <= k < |byUser| && byUser[k] == t;
  }

  // ---------------------------------------------------------------------
  // What the writes store

  /** The priority `createTask` stores: the upper-cased request value, or MEDIUM when absent. */
  function CreatedPriority(priority: Option<string>): (p: string)
    ensures Text.HasNoLowerCase(p)
  {
    Text.ToUpperIdempotent(priority.GetOr(""));
    if priority.Some? then Text.ToUpper(priority.value) else "MEDIUM"
  }

  /** The defaulting rule: absent means MEDIUM, and any casing of a literal name means that literal. */
  lemma PriorityDefaulting(s: string, p: TaskPriority)
    ensures ParsePriority(CreatedPriority(None)) == Some(Medium)
    ensures Text.ToUpper(s) == PriorityName(p) ==> ParsePriority(CreatedPriority(Some(s))) == Some(p)
    ensures ParsePriority(CreatedPriority(Some(s))).Some? <==> exists q: TaskPriority :: Text.ToUpper(s) == PriorityName(q)
    ensures CreatedPriority(Some("high")) == "HIGH"
  {
    assert Text.ToUpper("high") == "HIGH";
  }

  /** The record `createTask` builds from a validated request. */
  function NewTask(req: CreateTaskRequest, id: string, createdAt: Instant, updatedAt: Instant): (t: Task)
    requires IsValidCreateRequest(req)
    ensures t.id == id && t.active
    ensures Some(t.documentId) == req.documentId && Some(t.title) == req.title
    ensures t.description == req.description && Some(t.status) == req.status
    ensures Some(t.assignedUserId) == req.assignedUserId && Some(t.dueDate) == req.dueDate
    ensures t.createdAt == createdAt && t.updatedAt == updatedAt
    ensures t.priority == CreatedPriority(req.priority)
  {
    CreateRequestOptionalFields(req, req.description, req.priority);
    Task(id, req.documentId.value, req.title.value, req.description, req.status.value,
         req.assignedUserId.value, CreatedPriority(req.priority), req.dueDate.value,
         createdAt, updatedAt, true)
  }

  /** A created record's priority is MEDIUM when none was given, else the upper-cased request value. */
  lemma NewTaskPriority(req: CreateTaskRequest, id: string, createdAt: Instant, updatedAt: Instant)
    requires IsValidCreateRequest(req)
    ensures ParsePriority(NewTask(req, id, createdAt, updatedAt).priority)
            == (if req.priority.None? then Some(Medium) else ParsePriority(Text.ToUpper(req.priority.value)))
  {
    PriorityDefaulting(req.priority.GetOr(""), Medium);
  }

  /** The record after `updateTaskStatus`: the new status and a fresh `updatedAt`. */
  function WithStatus(t: Task, status: string, now: Instant): (u: Task)
    ensures u.status == status && u.updatedAt == now
    ensures u.(status := t.status, updatedAt := t.updatedAt) == t
  {
    t.(status := status, updatedAt := now)
  }

  /** The record after `updateTask`: each present field overwritten, priority upper-cased. */
  function ApplyUpdate(t: Task, req: UpdateTaskRequest, now: Instant): (u: Task)
    ensures u.id == t.id && u.documentId == t.documentId
    ensures u.createdAt == t.createdAt && u.active == t.active
    ensures u.updatedAt == now
  {
    t.(title := req.title.GetOr(t.title),
       description := if req.description.Some? then req.description else t.description,
       status := req.status.GetOr(t.status),
       assignedUserId := req.assignedUserId.GetOr(t.assignedUserId),
       priority := if req.priority.Some? then Text.ToUpper(req.priority.value) else t.priority,
       dueDate := req.dueDate.GetOr(t.dueDate),
       updatedAt := now)
  }

  /** A present field replaces the stored one; an absent field leaves it as it was. */
  lemma UpdateIsPartial(t: Task, req: UpdateTaskRequest, now: Instant)
    ensures var u := ApplyUpdate(t, req, now);
      && (req.title.Some? ==> u.title == req.title.value) && (req.title.None? ==> u.title == t.title)
      && (req.description.Some? ==> u.description == req.description) && (req.description.None? ==> u.description == t.description)
      && (req.status.Some? ==> u.status == req.status.value) && (req.status.None? ==> u.status == t.status)
      && (req.assignedUserId.Some? ==> u.assignedUserId == req.assignedUserId.value)
      && (req.assignedUserId.None? ==> u.assignedUserId == t.assignedUserId)
      && (req.priority.Some? ==> u.priority == Text.ToUpper(req.priority.value)) && (req.priority.None? ==> u.priority == t.priority)
      && (req.dueDate.Some? ==> u.dueDate == req.dueDate.value) && (req.dueDate.None? ==> u.dueDate == t.dueDate)
  {
  }

  /** A general update that carries only a status is exactly a status update. */
  lemma StatusOnlyUpdateIsStatusUpdate(t: Task, status: string, now: Instant)
    ensures ApplyUpdate(t, UpdateTaskRequest(None, None, Some(status), None, None, None), now) == WithStatus(t, status, now)
    ensures ApplyUpdate(t, UpdateTaskRequest(None, None, None, None, None, None), now) == t.(updatedAt := now)
  {
  }

  /** No transition graph: any status literal can follow any other on a convertible record. */
  lemma StatusTransitionsUnconstrained(t: Task, next: TaskStatus, now: Instant)
    requires FromEntity(t).Success?
    ensures FromEntity(WithStatus(t, StatusName(next), now)).Success?
    ensures FromEntity(WithStatus(t, StatusName(next), now)).value.status == next
  {
    StatusNamesRoundTrip();
  }

  /**
   With a clock that never reads earlier than a record's last write, every
   write of the service keeps updatedAt at or after createdAt, and an update
   made after the last write leaves updatedAt strictly after createdAt.
   */
  lemma CreateKeepsTimestampsOrdered(m: Store, req: CreateTaskRequest, id: string, createdAt: Instant, updatedAt: Instant)
    requires IsValidCreateRequest(req) && TimestampsOrdered(m) && createdAt <= updatedAt
    ensures TimestampsOrdered(m[id := NewTask(req, id, createdAt, updatedAt)])
  {
    WriteKeepsTimestampsOrdered(m, NewTask(req, id, createdAt, updatedAt));
  }

  lemma StatusUpdateKeepsTimestampsOrdered(m: Store, id: string, status: string, now: Instant)
    requires TimestampsOrdered(m) && id in m && m[id].updatedAt <= now
    ensures TimestampsOrdered(m[id := WithStatus(m[id], status, now)])
    ensures m[id].updatedAt < now ==> WithStatus(m[id], status, now).createdAt < now
  {
    WriteKeepsTimestampsOrdered(m, WithStatus(m[id], status, now));
  }

  lemma UpdateKeepsTimestampsOrdered(m: Store, id: string, req: UpdateTaskRequest, now: Instant)
    requires TimestampsOrdered(m) && id in m && m[id].updatedAt <= now
    ensures TimestampsOrdered(m[id := ApplyUpdate(m[id], req, now)])
    ensures m[id].updatedAt < now ==> ApplyUpdate(m[id], req, now).createdAt < now
  {
    WriteKeepsTimestampsOrdered(m, ApplyUpdate(m[id], req, now));
  }

  // ---------------------------------------------------------------------
  // Consequences across operations

  /** After a successful delete, lookup fails, the record is still stored, and deleting again fails. */
  lemma DeleteThenLookupFails(m: Store, id: string, now: Instant)
    requires FindActive(m, id).Some?
    ensures GetTaskById(LogicallyDeleted(m, id, now), id) == Failure(NotFound(id))
    ensures ExistsById(LogicallyDeleted(m, id, now), id)
    ensures FindById(LogicallyDeleted(m, id, now), id) == Some(m[id].(active := false, updatedAt := now))
    ensures FindActive(LogicallyDeleted(m, id, now), id).None?
  {
  }

  /** A freshly created record is found by id, listed, and counted. */
  lemma CreateThenFind(m: Store, req: CreateTaskRequest, id: string, createdAt: Instant, updatedAt: Instant)
    requires IsValidCreateRequest(req) && KeysMatchIds(m) && id !in m
    ensures var t := NewTask(req, id, createdAt, updatedAt);
      && GetTaskById(m[id := t], id) == FromEntity(t)
      && t in FindAll(m[id := t])
      && t in FindByDocumentId(m[id := t], req.documentId.value)
      && t in FindByAssignedUserId(m[id := t], req.assignedUserId.value)
      && Count(m[id := t]) == Count(m) + 1
  {
    var t := NewTask(req, id, createdAt, updatedAt);
    InsertIsListed(m, t);
    InsertIncrementsCount(m, t);
  }

  /**
   A status that is not a literal name is written to the store although the
   update then fails; in the table the call leaves, the record cannot be
   read back and `getAllTasks` fails.
   */
  lemma UnknownStatusIsStoredThenRejected(m: Store, id: string, status: string, now: Instant)
    requires FindActive(m, id).Some? && ParseStatus(status).None?
    ensures var after := m[id := WithStatus(m[id], status, now)];
      && FindById(after, id).value.status == status
      && FromEntity(after[id]) == Failure(UnknownStatus(status))
      && GetTaskById(after, id) == Failure(UnknownStatus(status))
      && GetAllTasks(after).Failure?
  {
    var after := m[id := WithStatus(m[id], status, now)];
    UnconvertibleRecordBreaksListing(after, after[id]);
  }

  /** The same holds for a create whose status is not a literal name. */
  lemma UnknownStatusIsCreatedThenRejected(m: Store, req: CreateTaskRequest, id: string, createdAt: Instant, updatedAt: Instant)
    requires IsValidCreateRequest(req) && ParseStatus(req.status.value).None?
    ensures var t := NewTask(req, id, createdAt, updatedAt);
      && FromEntity(t) == Failure(UnknownStatus(req.status.value))
      && ExistsById(m[id := t], id)
      && GetAllTasks(m[id := t]).Failure?
  {
    var t := NewTask(req, id, createdAt, updatedAt);
    assert m[id := t][id] == t;
    UnconvertibleRecordBreaksListing(m[id := t], t);
  }

  /**
   An empty priority is not absent: it is upper-cased to the empty string,
   stored, and the create then fails on it rather than defaulting to MEDIUM.
   */
  lemma EmptyPriorityIsStoredThenRejected(m: Store, req: CreateTaskRequest, id: string, createdAt: Instant, updatedAt: Instant)
    requires IsValidCreateRequest(req) && req.priority == Some("") && ParseStatus(req.status.value).Some?
    ensures var t := NewTask(req, id, createdAt, updatedAt);
      && t.priority == ""
      && FromEntity(t) == Failure(UnknownPriority(""))
      && ExistsById(m[id := t], id)
  {
    var t := NewTask(req, id, createdAt, updatedAt);
    assert Text.ToUpper("") == "";
    assert m[id := t][id] == t;
  }

  // ---------------------------------------------------------------------
  // The service object

  class TaskService {
    const taskRepository: TaskRepository

    constructor (taskRepository: TaskRepository)
      ensures this.taskRepository == taskRepository
    {
      this.taskRepository := taskRepository;
    }

    /** `createTask`: build the record, save it, then convert it. */
    method CreateTask(req: CreateTaskRequest, id: string, createdAt: Instant, updatedAt: Instant)
      returns (r: Result<TaskResponse>)
      requires IsValidCreateRequest(req) && taskRepository.Valid()
      modifies taskRepository
      ensures taskRepository.Valid()
      ensures taskRepository.taskStore == old(taskRepository.taskStore)[id := NewTask(req, id, createdAt, updatedAt)]
      ensures r == FromEntity(NewTask(req, id, createdAt, updatedAt))
    {
      var priority := if req.priority.Some? then Text.ToUpper(req.priority.value) else "MEDIUM";
      CreateRequestOptionalFields(req, req.description, req.priority);
      var task := Task(id, req.documentId.value, req.title.value, req.description, req.status.value,
                       req.assignedUserId.value, priority, req.dueDate.value, createdAt, updatedAt, true);
      var saved := taskRepository.Save(task);
      r := FromEntity(saved);
    }

    /** `updateTaskStatus`: NotFound, or set status and updatedAt, write back, then convert. */
    method UpdateTaskStatus(id: string, req: UpdateTaskStatusRequest, now: Instant)
      returns (r: Result<TaskResponse>)
      requires IsValidStatusRequest(req) && taskRepository.Valid()
      modifies taskRepository
      ensures taskRepository.Valid()
      ensures FindActive(old(taskRepository.taskStore), id).None? ==>
        r == Failure(NotFound(id)) && taskRepository.taskStore == old(taskRepository.taskStore)
      ensures FindActive(old(taskRepository.taskStore), id).Some? ==>
        && taskRepository.taskStore == old(taskRepository.taskStore)[id := WithStatus(old(taskRepository.taskStore)[id], req.status.value, now)]
        && r == FromEntity(taskRepository.taskStore[id])
    {
      var found := FindActive(taskRepository.taskStore, id);
      if found.None? {
        return Failure(NotFound(id));
      }
      var task := found.value;
      task := task.(status := req.status.value);
      task := task.(updatedAt := now);
      var updated := taskRepository.Update(task);
      r := FromEntity(updated);
    }

    /** `updateTask`: NotFound, or apply each present field, refresh updatedAt, write back, convert. */
    method UpdateTask(id: string, req: UpdateTaskRequest, now: Instant)
      returns (r: Result<TaskResponse>)
      requires taskRepository.Valid()
      modifies taskRepository
      ensures taskRepository.Valid()
      ensures FindActive(old(taskRepository.taskStore), id).None? ==>
        r == Failure(NotFound(id)) && taskRepository.taskStore == old(taskRepository.taskStore)
      ensures FindActive(old(taskRepository.taskStore), id).Some? ==>
        && taskRepository.taskStore == old(taskRepository.taskStore)[id := ApplyUpdate(old(taskRepository.taskStore)[id], req, now)]
        && r == FromEntity(taskRepository.taskStore[id])
    {
      var found := FindActive(taskRepository.taskStore, id);
      if found.None? {
        return Failure(NotFound(id));
      }
      var task := found.value;
      if req.title.Some? {
        task := task.(title := req.title.value);
      }
      if req.description.Some? {
        task := task.(description := req.description);
      }
      if req.status.Some? {
        task := task.(status := req.status.value);
      }
      if req.assignedUserId.Some? {
        task := task.(assignedUserId := req.assignedUserId.value);
      }
      if req.priority.Some? {
        task := task.(priority := Text.ToUpper(req.priority.value));
      }
      if req.dueDate.Some? {
        task := task.(dueDate := req.dueDate.value);
      }
      task := task.(updatedAt := now);
      var updated := taskRepository.Update(task);
      r := FromEntity(updated);
    }

    /** `deleteTask`: NotFound, or the repository's logical delete. */
    method DeleteTask(id: string, now: Instant) returns (failure: Option<TaskError>)
      requires taskRepository.Valid()
      modifies taskRepository
      ensures taskRepository.Valid()
      ensures FindActive(old(taskRepository.taskStore), id).None? ==>
        failure == Some(NotFound(id)) && taskRepository.taskStore == old(taskRepository.taskStore)
      ensures FindActive(old(taskRepository.taskStore), id).Some? ==>
        failure.None? && taskRepository.taskStore == LogicallyDeleted(old(taskRepository.taskStore), id, now)
    {
      var found := FindActive(taskRepository.taskStore, id);
      if found.None? {
        return Some(NotFound(id));
      }
      taskRepository.DeleteById(id, now);
      failure := None;
    }
  }

  /** The two requests of the scenario below pass their constraints. */
  lemma ScenarioRequestsValid(due: Instant)
    ensures IsValidCreateRequest(CreateTaskRequest(Some("D1"), Some("X"), None, Some("PENDING"), Some("U1"), None, Some(due)))
    ensures IsValidStatusRequest(UpdateTaskStatusRequest(Some("COMPLETED")))
  {
    assert !Text.IsTrimmable("D1"[0]) && !Text.IsTrimmable("X"[0]);
    assert !Text.IsTrimmable("PENDING"[0]) && !Text.IsTrimmable("U1"[0]);
    assert !Text.IsTrimmable("COMPLETED"[0]);
    Text.NotBlankIff("D1");
    Text.NotBlankIff("X");
    Text.NotBlankIff("PENDING");
    Text.NotBlankIff("U1");
    Text.NotBlankIff("COMPLETED");
  }

  /**
   Create, complete and delete one task on an empty store: the response
   carries MEDIUM and is active, the status update shows COMPLETED, and
   afterwards lookup fails while a second delete is refused.
   */
  method CreateCompleteDeleteScenario(id: string, t0: Instant, t1: Instant, t2: Instant, t3: Instant, due: Instant)
    returns (created: Result<TaskResponse>, completed: Result<TaskResponse>,
             afterDelete: Result<TaskResponse>, secondDelete: Option<TaskError>)
    ensures created.Success? && created.value.id == id && created.value.priority == Medium && created.value.active
    ensures completed.Success? && completed.value.status == Completed && completed.value.updatedAt == t2
    ensures afterDelete == Failure(NotFound(id))
    ensures secondDelete == Some(NotFound(id))
  {
    var repository := new TaskRepository();
    var service := new TaskService(repository);
    var req := CreateTaskRequest(Some("D1"), Some("X"), None, Some("PENDING"), Some("U1"), None, Some(due));
    var statusReq := UpdateTaskStatusRequest(Some("COMPLETED"));
    ScenarioRequestsValid(due);
    created := service.CreateTask(req, id, t0, t1);
    completed := service.UpdateTaskStatus(id, statusReq, t2);
    var deleted := service.DeleteTask(id, t3);
    afterDelete := GetTaskById(repository.taskStore, id);
    secondDelete := service.DeleteTask(id, t3);
  }
}
