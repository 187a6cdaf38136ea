/** The four-valued task status with its display names, and `TaskStatus.valueOf`. */
module TaskStatuses {
  import opened Wrappers

  datatype TaskStatus = Pending | InProgress | Completed | Cancelled

  /** Every status, in declaration order (`TaskStatus.values()`). */
  const AllStatuses: seq<TaskStatus> := [Pending, InProgress, Completed, Cancelled]

  /** The enum constant's identifier (`name()`). */
  function Name(s: TaskStatus): string {
    match s
    case Pending => "PENDING"
    case InProgress => "IN_PROGRESS"
    case Completed => "COMPLETED"
    case Cancelled => "CANCELLED"
  }

  /** The human-readable label carried by each constant. */
  function DisplayName(s: TaskStatus): string {
    match s
    case Pending => "Pending"
    case InProgress => "In Progress"
    case Completed => "Completed"
    case Cancelled => "Cancelled"
  }

  /** `TaskStatus.valueOf`: exact, case-sensitive match against the constant
      names; anything else is rejected (Java throws `IllegalArgumentException`). */
  function ValueOf(name: string): (r: Option<TaskStatus>)
    ensures r.Some? ==> Name(r.value) == name
    ensures r.None? <==> forall s :: Name(s) != name
  {
    if name == "PENDING" then Some(Pending)
    else if name == "IN_PROGRESS" then Some(InProgress)
    else if name == "COMPLETED" then Some(Completed)
    else if name == "CANCELLED" then Some(Cancelled)
    else None
  }

  /** There are exactly four statuses and `AllStatuses` lists each once. */
  lemma ExactlyFourStatuses()
    ensures forall s: TaskStatus :: s in AllStatuses
    ensures |AllStatuses| == 4
    ensures forall i, j :: 0 <= i < j < |AllStatuses| ==> AllStatuses[i] != AllStatuses[j]
  {
    forall s: TaskStatus ensures s in AllStatuses {
      match s
      case Pending => assert AllStatuses[0] == s;
      case InProgress => assert AllStatuses[1] == s;
      case Completed => assert AllStatuses[2] == s;
      case Cancelled => assert AllStatuses[3] == s;
    }
  }

  /** Parsing a status's name gives the status back. */
  lemma ValueOfName(s: TaskStatus)
    ensures ValueOf(Name(s)) == Some(s)
  {
  }

  /** Display names are pairwise distinct. */
  lemma DisplayNamesDistinct(a: TaskStatus, b: TaskStatus)
    ensures DisplayName(a) == DisplayName(b) <==> a == b
  {
  }
}
