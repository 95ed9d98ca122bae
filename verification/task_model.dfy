/**
 The task entity and its two enumerations.

 A `Task` holds its status and priority as free strings: any string can sit
 in a stored task. Only the conversion to the external representation
 (`TaskDtos.FromEntity`) restricts them, through `ParseStatus` and
 `ParsePriority`, which behave like Java's `Enum.valueOf`: an exact,
 case-sensitive match on the literal's name.
 */
module TaskModel {

  datatype Option<+T> = None | Some(value: T) {
    function GetOr(default: T): T {
      match this
      case Some(v) => v
      case None => default
    }
  }

  /** A point in time (a `LocalDateTime` reading), as an ordered clock value. */
  type Instant = int

  /** The stored entity. `description` is the only field a request may leave null. */
  datatype Task = Task(
    id: string,
    documentId: string,
    title: string,
    description: Option<string>,
    status: string,
    assignedUserId: string,
    priority: string,
    dueDate: Instant,
    createdAt: Instant,
    updatedAt: Instant,
    active: bool)

  datatype TaskStatus = Pending | InProgress | Completed

  datatype TaskPriority = Low | Medium | High

  /** The Java literal name of a status, the only string `valueOf` accepts for it. */
  function StatusName(s: TaskStatus): string {
    match s
    case Pending => "PENDING"
    case InProgress => "IN_PROGRESS"
    case Completed => "COMPLETED"
  }

  /** `getDisplayName()`: each display name belongs to exactly one status. */
  function StatusDisplayName(s: TaskStatus): (d: string)
    ensures d == "Pendiente" <==> s == Pending
    ensures d == "En progreso" <==> s == InProgress
    ensures d == "Completada" <==> s == Completed
  {
    match s
    case Pending => "Pendiente"
    case InProgress => "En progreso"
    case Completed => "Completada"
  }

  function PriorityName(p: TaskPriority): string {
    match p
    case Low => "LOW"
    case Medium => "MEDIUM"
    case High => "HIGH"
  }

  /** `getDisplayName()`: each display name belongs to exactly one priority. */
  function PriorityDisplayName(p: TaskPriority): (d: string)
    ensures d == "Baja" <==> p == Low
    ensures d == "Media" <==> p == Medium
    ensures d == "Alta" <==> p == High
  {
    match p
    case Low => "Baja"
    case Medium => "Media"
    case High => "Alta"
  }

  /** `TaskStatus.valueOf(name)`: the literal whose name is exactly `name`, or none. */
  function ParseStatus(name: string): (r: Option<TaskStatus>)
    ensures r.Some? ==> StatusName(r.value) == name
    ensures r.None? <==> forall s: TaskStatus :: StatusName(s) != name
  {
    if name == "PENDING" then Some(Pending)
    else if name == "IN_PROGRESS" then Some(InProgress)
    else if name == "COMPLETED" then Some(Completed)
    else None
  }

  /** `TaskPriority.valueOf(name)`: the literal whose name is exactly `name`, or none. */
  function ParsePriority(name: string): (r: Option<TaskPriority>)
    ensures r.Some? ==> PriorityName(r.value) == name
    ensures r.None? <==> forall p: TaskPriority :: PriorityName(p) != name
  {
    if name == "LOW" then Some(Low)
    else if name == "MEDIUM" then Some(Medium)
    else if name == "HIGH" then Some(High)
    else None
  }

  /** Parsing inverts naming, and the statuses are exactly the three literals. */
  lemma StatusNamesRoundTrip()
    ensures forall s: TaskStatus :: ParseStatus(StatusName(s)) == Some(s)
    ensures forall name :: ParseStatus(name).Some? <==> name in {"PENDING", "IN_PROGRESS", "COMPLETED"}
  {
  }

  /** Parsing inverts naming, and the priorities are exactly the three literals. */
  lemma PriorityNamesRoundTrip()
    ensures forall p: TaskPriority :: ParsePriority(PriorityName(p)) == Some(p)
    ensures forall name :: ParsePriority(name).Some? <==> name in {"LOW", "MEDIUM", "HIGH"}
  {
  }

  /** Distinct statuses have distinct display names. */
  lemma StatusDisplayNamesInjective()
    ensures forall a: TaskStatus, b: TaskStatus :: StatusDisplayName(a) == StatusDisplayName(b) ==> a == b
  {
  }

  /** Distinct priorities have distinct display names. */
  lemma PriorityDisplayNamesInjective()
    ensures forall a: TaskPriority, b: TaskPriority :: PriorityDisplayName(a) == PriorityDisplayName(b) ==> a == b
  {
  }

  /** `valueOf` is case-sensitive and knows no literal outside the enumeration. */
  lemma ParseStatusRejectsOtherSpellings()
    ensures ParseStatus("pending").None? && ParseStatus("Pending").None?
    ensures ParseStatus("DONE").None? && ParseStatus("").None?
  {
  }
}
