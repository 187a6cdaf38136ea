/** The per-status counting of the dashboard page: one pass over the user's
    task list grouping by status, then a lookup with default 0 for each of
    three statuses. */
module DashboardController {
  import opened Wrappers
  import opened Seqs
  import opened Entities
  import TaskStatuses
  import TaskRepository
  import opened TaskService

  /** Tasks counted per status; a status absent from the list has no key. */
  type Tally = map<TaskStatus, nat>

  /** `getOrDefault(s, 0)`. */
  function GetOrZero(m: Tally, s: TaskStatus): nat {
    if s in m then m[s] else 0
  }

  /** Counts one more task with status `s`. */
  function Bump(m: Tally, s: TaskStatus): (m': Tally)
    ensures m'.Keys == m.Keys + {s}
    ensures GetOrZero(m', s) == GetOrZero(m, s) + 1
    ensures forall x :: x != s ==> GetOrZero(m', x) == GetOrZero(m, x)
  {
    m[s := GetOrZero(m, s) + 1]
  }

  /** The grouping collector, folding the list left to right into `acc`. */
  function TallyFrom(acc: Tally, tasks: seq<Task>): Tally
    decreases |tasks|
  {
    if |tasks| == 0 then acc else TallyFrom(Bump(acc, tasks[0].status), tasks[1..])
  }

  /** `groupingBy(Task::getStatus, counting())`: each status maps to the
      number of tasks with it, and only statuses that occur get a key. */
  function GroupByStatus(tasks: seq<Task>): (m: Tally)
    ensures forall s :: GetOrZero(m, s) == Count(tasks, TaskRepository.WithStatus(s))
    ensures forall s :: s in m <==> exists t :: t in tasks && t.status == s
  {
    TallyFromEmptyCounts(tasks);
    TallyFrom(map[], tasks)
  }

  /** `TallyFromCounts` for every status at once, starting from no keys. */
  lemma TallyFromEmptyCounts(tasks: seq<Task>)
    ensures forall s :: GetOrZero(TallyFrom(map[], tasks), s) == Count(tasks, TaskRepository.WithStatus(s))
    ensures forall s :: s in TallyFrom(map[], tasks) <==> exists t :: t in tasks && t.status == s
  {
    forall s: TaskStatus
      ensures GetOrZero(TallyFrom(map[], tasks), s) == Count(tasks, TaskRepository.WithStatus(s))
      ensures s in TallyFrom(map[], tasks) <==> exists t :: t in tasks && t.status == s
    {
      TallyFromCounts(map[], tasks, s);
    }
  }

  /** The fold adds, for each status, the number of tasks with it, and
      introduces a key exactly for the statuses that occur. */
  lemma {:induction false} TallyFromCounts(acc: Tally, tasks: seq<Task>, s: TaskStatus)
    ensures GetOrZero(TallyFrom(acc, tasks), s) == GetOrZero(acc, s) + Count(tasks, TaskRepository.WithStatus(s))
    ensures s in TallyFrom(acc, tasks) <==> s in acc || exists t :: t in tasks && t.status == s
    decreases |tasks|
  {
    if |tasks| > 0 {
      TallyFromCounts(Bump(acc, tasks[0].status), tasks[1..], s);
      assert tasks == [tasks[0]] + tasks[1..];
      if s !in acc && tasks[0].status != s {
        assert (exists t :: t in tasks && t.status == s) <==> (exists t :: t in tasks[1..] && t.status == s);
      }
    }
  }

  /** The grouped count of each status is the number of tasks with it; a
      status that does not occur gets no key, so the lookup yields 0. */
  lemma GroupByStatusCounts(tasks: seq<Task>, s: TaskStatus)
    ensures GetOrZero(GroupByStatus(tasks), s) == Count(tasks, TaskRepository.WithStatus(s))
    ensures s in GroupByStatus(tasks) <==> exists t :: t in tasks && t.status == s
  {
    TallyFromCounts(map[], tasks, s);
  }

  /** What the page shows: the list and three of its status counts. */
  datatype View = View(tasks: seq<Task>, pendingCount: nat, inProgressCount: nat, completedCount: nat, username: string)

  /** Builds the dashboard for the signed-in user from one `FindUserTasks` call. */
  function Dashboard(st: State, username: string): (r: Result<View, Error>)
    ensures r.Failure? <==> FindUserTasks(st, username).Failure?
    ensures r.Failure? ==> r.error == UserNotFound
    ensures r.Success? ==>
      var v := r.value;
      && v.tasks == FindUserTasks(st, username).value
      && v.username == username
      && v.pendingCount == Count(v.tasks, TaskRepository.WithStatus(TaskStatuses.Pending))
      && v.inProgressCount == Count(v.tasks, TaskRepository.WithStatus(TaskStatuses.InProgress))
      && v.completedCount == Count(v.tasks, TaskRepository.WithStatus(TaskStatuses.Completed))
  {
    var tasks :- FindUserTasks(st, username);
    var counts := GroupByStatus(tasks);
    GroupByStatusCounts(tasks, TaskStatuses.Pending);
    GroupByStatusCounts(tasks, TaskStatuses.InProgress);
    GroupByStatusCounts(tasks, TaskStatuses.Completed);
    Success(View(
      tasks,
      GetOrZero(counts, TaskStatuses.Pending),
      GetOrZero(counts, TaskStatuses.InProgress),
      GetOrZero(counts, TaskStatuses.Completed),
      username))
  }

  /** Every task has exactly one of the four statuses. */
  lemma {:induction false} StatusCountsPartition(tasks: seq<Task>)
    ensures Count(tasks, TaskRepository.WithStatus(TaskStatuses.Pending))
          + Count(tasks, TaskRepository.WithStatus(TaskStatuses.InProgress))
          + Count(tasks, TaskRepository.WithStatus(TaskStatuses.Completed))
          + Count(tasks, TaskRepository.WithStatus(TaskStatuses.Cancelled))
         == |tasks|
  {
    if |tasks| > 0 {
      StatusCountsPartition(tasks[1..]);
    }
  }

  /** The three shown counts add up to the list length minus the cancelled tasks;
      a status absent from the list shows 0. */
  lemma ShownCountsAddUp(st: State, username: string)
    requires Dashboard(st, username).Success?
    ensures var v := Dashboard(st, username).value;
      && v.pendingCount + v.inProgressCount + v.completedCount
         == |v.tasks| - Count(v.tasks, TaskRepository.WithStatus(TaskStatuses.Cancelled))
      && ((forall t :: t in v.tasks ==> t.status != TaskStatuses.Pending) ==> v.pendingCount == 0)
      && ((forall t :: t in v.tasks ==> t.status != TaskStatuses.InProgress) ==> v.inProgressCount == 0)
      && ((forall t :: t in v.tasks ==> t.status != TaskStatuses.Completed) ==> v.completedCount == 0)
  {
    StatusCountsPartition(Dashboard(st, username).value.tasks);
  }
}
