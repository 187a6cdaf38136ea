/** The partial-update form: each field is optional (null in Java) and only
    present fields are applied. */
module TaskUpdateDto {
  import opened Wrappers
  import opened Entities
  import TaskStatuses

  /** `status` is the raw string the client sent; it is parsed only when applied. */
  datatype TaskUpdate = TaskUpdate(title: Option<string>, description: Option<string>, status: Option<string>)

  /** A form with every field absent. */
  const NoChanges: TaskUpdate := TaskUpdate(None, None, None)

  /** A form pre-filled from an existing task: its title, description and status name. */
  function FromEntity(t: Task): (d: TaskUpdate)
    ensures d.title == Some(t.title)
    ensures d.description == Some(t.description)
    ensures d.status.Some? && TaskStatuses.ValueOf(d.status.value) == Some(t.status)
  {
    TaskUpdate(Some(t.title), Some(t.description), Some(TaskStatuses.Name(t.status)))
  }
}
