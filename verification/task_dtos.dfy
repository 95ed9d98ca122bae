/**
 The request and response shapes of the task API.

 Request fields that Java leaves nullable are `Option`s. The Jakarta
 constraints are plain predicates; the controller checks them before the
 service is reached. `FromEntity` is the only place where a stored status or
 priority is checked against the enumerations.
 */
module TaskDtos {
  import opened TaskModel
  import Text

  datatype CreateTaskRequest = CreateTaskRequest(
    documentId: Option<string>,
    title: Option<string>,
    description: Option<string>,
    status: Option<string>,
    assignedUserId: Option<string>,
    priority: Option<string>,
    dueDate: Option<Instant>)

  /** Every field is optional: a null field is simply not applied. */
  datatype UpdateTaskRequest = UpdateTaskRequest(
    title: Option<string>,
    description: Option<string>,
    status: Option<string>,
    assignedUserId: Option<string>,
    priority: Option<string>,
    dueDate: Option<Instant>)

  datatype UpdateTaskStatusRequest = UpdateTaskStatusRequest(status: Option<string>)

  /** `@NotBlank`: present, and not empty after `trim()`. */
  predicate PresentAndNotBlank(field: Option<string>) {
    field.Some? && Text.NotBlank(field.value)
  }

  /** The fields of a create request, as the validation errors name them. */
  datatype CreateField = DocumentIdField | TitleField | DescriptionField | StatusField
                       | AssignedUserIdField | PriorityField | DueDateField

  /** Whether one field of a create request breaks its constraint. */
  predicate Violates(req: CreateTaskRequest, f: CreateField) {
    match f
    case DocumentIdField => !PresentAndNotBlank(req.documentId)
    case TitleField => !PresentAndNotBlank(req.title)
    case StatusField => !PresentAndNotBlank(req.status)
    case AssignedUserIdField => !PresentAndNotBlank(req.assignedUserId)
    case DueDateField => req.dueDate.None?
    case DescriptionField => false
    case PriorityField => false
  }

  /** The fields of a create request that break their constraint. */
  function CreateRequestViolations(req: CreateTaskRequest): (fields: set<CreateField>)
    ensures DescriptionField !in fields && PriorityField !in fields
    ensures DocumentIdField in fields <==> !PresentAndNotBlank(req.documentId)
    ensures TitleField in fields <==> !PresentAndNotBlank(req.title)
    ensures StatusField in fields <==> !PresentAndNotBlank(req.status)
    ensures AssignedUserIdField in fields <==> !PresentAndNotBlank(req.assignedUserId)
    ensures DueDateField in fields <==> req.dueDate.None?
  {
    set f: CreateField | Violates(req, f)
  }

  predicate IsValidCreateRequest(req: CreateTaskRequest) {
    CreateRequestViolations(req) == {}
  }

  /** The only constraint on a status update: the new status is present and not blank. */
  predicate IsValidStatusRequest(req: UpdateTaskStatusRequest): (valid: bool)
    ensures valid <==> req.status.Some? && exists i :: 0 <= i < |req.status.value| && !Text.IsTrimmable(req.status.value[i])
  {
    if req.status.Some? then
      Text.NotBlankIff(req.status.value);
      PresentAndNotBlank(req.status)
    else false
  }

  /** Description and priority never decide whether a create request is valid. */
  lemma CreateRequestOptionalFields(req: CreateTaskRequest, description: Option<string>, priority: Option<string>)
    ensures IsValidCreateRequest(req) <==> IsValidCreateRequest(req.(description := description, priority := priority))
    ensures IsValidCreateRequest(req) ==>
      req.documentId.Some? && req.title.Some? && req.status.Some? && req.assignedUserId.Some? && req.dueDate.Some?
  {
    assert CreateRequestViolations(req) == CreateRequestViolations(req.(description := description, priority := priority));
  }

  /** Validation does not check the enumeration: "DONE" passes although no status has that name. */
  lemma StatusRequestAcceptsUnknownStatus()
    ensures IsValidStatusRequest(UpdateTaskStatusRequest(Some("DONE")))
    ensures ParseStatus("DONE").None?
    ensures !IsValidStatusRequest(UpdateTaskStatusRequest(Some(" \t")))
    ensures !IsValidStatusRequest(UpdateTaskStatusRequest(None))
  {
    Text.NotBlankIff("DONE");
    assert !Text.IsTrimmable("DONE"[0]);
    Text.NotBlankIff(" \t");
  }

  datatype TaskResponse = TaskResponse(
    id: string,
    documentId: string,
    title: string,
    description: Option<string>,
    status: TaskStatus,
    statusDisplayName: string,
    assignedUserId: string,
    priority: TaskPriority,
    priorityDisplayName: string,
    dueDate: Instant,
    createdAt: Instant,
    updatedAt: Instant,
    active: bool)

  /** The failures a service call can end in. */
  datatype TaskError =
    | NotFound(id: string)            // TaskNotFoundException
    | UnknownStatus(name: string)     // IllegalArgumentException from TaskStatus.valueOf
    | UnknownPriority(name: string)   // IllegalArgumentException from TaskPriority.valueOf

  datatype Result<+T> = Success(value: T) | Failure(error: TaskError)

  /**
   `TaskResponse.fromEntity`: the status is looked up first, then the priority;
   the first that is not an exact literal name makes the conversion fail.
   */
  function FromEntity(t: Task): (r: Result<TaskResponse>)
    ensures r.Success? <==> ParseStatus(t.status).Some? && ParsePriority(t.priority).Some?
    ensures ParseStatus(t.status).None? ==> r == Failure(UnknownStatus(t.status))
    ensures ParseStatus(t.status).Some? && ParsePriority(t.priority).None? ==> r == Failure(UnknownPriority(t.priority))
    ensures r.Success? ==>
      && StatusName(r.value.status) == t.status
      && PriorityName(r.value.priority) == t.priority
      && r.value.statusDisplayName == StatusDisplayName(r.value.status)
      && r.value.priorityDisplayName == PriorityDisplayName(r.value.priority)
    ensures r.Success? ==>
      && r.value.id == t.id && r.value.documentId == t.documentId
      && r.value.title == t.title && r.value.description == t.description
      && r.value.assignedUserId == t.assignedUserId && r.value.dueDate == t.dueDate
      && r.value.createdAt == t.createdAt && r.value.updatedAt == t.updatedAt
      && r.value.active == t.active
  {
    match ParseStatus(t.status)
    case None => Failure(UnknownStatus(t.status))
    case Some(status) =>
      match ParsePriority(t.priority)
      case None => Failure(UnknownPriority(t.priority))
      case Some(priority) =>
        Success(TaskResponse(
          t.id, t.documentId, t.title, t.description,
          status, StatusDisplayName(status),
          t.assignedUserId,
          priority, PriorityDisplayName(priority),
          t.dueDate, t.createdAt, t.updatedAt, t.active))
  }

  /** Conversion loses nothing: two tasks with the same response are the same task. */
  lemma FromEntityInjective(t: Task, u: Task)
    requires FromEntity(t).Success? && FromEntity(u).Success?
    requires FromEntity(t) == FromEntity(u)
    ensures t == u
  {
  }

  /**
   A stream `map(TaskResponse::fromEntity)` collected to a list: one response
   per task, in order, unless some conversion fails, in which case the first
   failure in list order is the result.
   */
  function ToResponses(ts: seq<Task>): (r: Result<seq<TaskResponse>>)
    ensures r.Success? <==> forall i :: 0 <= i < |ts| ==> FromEntity(ts[i]).Success?
    ensures r.Success? ==> |r.value| == |ts| && forall i :: 0 <= i < |ts| ==> FromEntity(ts[i]) == Success(r.value[i])
    ensures r.Failure? ==> exists i :: 0 <= i < |ts| && FromEntity(ts[i]) == Failure(r.error)
                                       && forall j :: 0 <= j < i ==> FromEntity(ts[j]).Success?
  {
    if ts == [] then Success([])
    else
      match FromEntity(ts[0])
      case Failure(e) => Failure(e)
      case Success(head) =>
        match ToResponses(ts[1..])
        case Failure(e) =>
          ToResponsesFailureShifts(ts, e);
          Failure(e)
        case Success(tail) => Success([head] + tail)
  }

  /** A failure found in the tail of a list whose head converts is a first failure of the whole list. */
  lemma ToResponsesFailureShifts(ts: seq<Task>, e: TaskError)
    requires |ts| > 0 && FromEntity(ts[0]).Success?
    requires exists i :: 0 <= i < |ts[1..]| && FromEntity(ts[1..][i]) == Failure(e)
                         && forall j :: 0 <= j < i ==> FromEntity(ts[1..][j]).Success?
    ensures exists i :: 0 <= i < |ts| && FromEntity(ts[i]) == Failure(e)
                        && forall j :: 0 <= j < i ==> FromEntity(ts[j]).Success?
  {
    var i :| 0 <= i < |ts[1..]| && FromEntity(ts[1..][i]) == Failure(e)
             && forall j :: 0 <= j < i ==> FromEntity(ts[1..][j]).Success?;
    assert FromEntity(ts[i + 1]) == Failure(e);
    forall j | 0 <= j < i + 1 ensures FromEntity(ts[j]).Success? {
      if j > 0 { assert ts[j] == ts[1..][j - 1]; }
    }
  }

  /** A successful conversion of a list keeps each record's flags, timestamps and owners in place. */
  lemma ResponsesMirrorTasks(ts: seq<Task>)
    requires ToResponses(ts).Success?
    ensures var rs := ToResponses(ts).value;
      forall i :: 0 <= i < |ts| ==>
        && rs[i].active == ts[i].active && rs[i].createdAt == ts[i].createdAt
        && rs[i].documentId == ts[i].documentId && rs[i].assignedUserId == ts[i].assignedUserId
  {
  }
}
