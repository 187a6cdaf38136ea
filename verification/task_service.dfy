/** The task access service: every operation resolves the acting user and the
    target task, consults the authorization guard where a task id is given,
    and evicts the actor's cached task list after a successful mutation.
    Each operation returns the successor state with its value, or an error;
    an error leaves the caller with the state it had (the service is
    transactional, so nothing of a failed call is persisted). */
module TaskService {
  import opened Wrappers
  import opened Seqs
  import opened Entities
  import Roles
  import TaskStatuses
  import UserRepository
  import UserService
  import TaskRepository
  import opened TaskUpdateDto

  /** The `userTasks` cache: task lists keyed by username. */
  type Cache = map<string, seq<Task>>

  /** The user registry, the task store with its creation counter, and the cache. */
  datatype State = State(registry: UserService.Registry, tasks: seq<Task>, clock: nat, cache: Cache)

  ghost predicate Wf(st: State) {
    UserService.RegistryWf(st.registry) && TaskRepository.StoreWf(st.tasks, st.clock)
  }

  /** The authorization guard: admins may touch any task, others only their own.
      The enabled flag is not consulted. */
  function CanUserAccessTask(t: Task, u: User): (ok: bool)
    ensures u.role == Roles.Admin ==> ok
    ensures t.ownerId == u.id ==> ok
    ensures u.role == Roles.User ==> (ok <==> t.ownerId == u.id)
  {
    u.role == Roles.Admin || t.ownerId == u.id
  }

  /** The user resolved for a username (the user service's lookup). */
  function Resolve(st: State, username: string): (r: Result<User, Error>)
    ensures r.Success? <==> UserRepository.ExistsByUsername(st.registry.users, username)
    ensures r.Success? ==> r.value in st.registry.users && r.value.username == username
    ensures r.Failure? ==> r.error == UserNotFound
  {
    UserService.FindByUsername(st.registry, username)
  }

  /** Looks a task up by id, with no ownership check. */
  function FindTaskById(st: State, taskId: nat): (r: Result<Task, Error>)
    ensures r.Failure? <==> forall t :: t in st.tasks ==> t.id != taskId
    ensures r.Success? ==> r.value in st.tasks && r.value.id == taskId
    ensures r.Failure? ==> r.error == TaskNotFound
  {
    OrElse(TaskRepository.FindById(st.tasks, taskId), TaskNotFound)
  }

  /** Creates a PENDING task owned by the resolved user and evicts the actor's cache entry. */
  function CreateTask(st: State, title: string, description: string, username: string): (r: Result<(State, Task), Error>)
    ensures r.Failure? <==> !UserRepository.ExistsByUsername(st.registry.users, username)
    ensures r.Failure? ==> r.error == UserNotFound
    ensures r.Success? ==>
      var (st', t) := r.value;
      && t.title == title
      && t.description == description
      && t.status == TaskStatuses.Pending
      && t.ownerId == Resolve(st, username).value.id
      && multiset(st'.tasks) == multiset(st.tasks) + multiset{t}
      && st'.registry == st.registry
      && username !in st'.cache
      && (forall k :: k != username ==> (k in st'.cache <==> k in st.cache))
      && (forall k :: k in st'.cache ==> st'.cache[k] == st.cache[k])
  {
    var user :- Resolve(st, username);
    var t := Task(st.clock, title, description, TaskStatuses.Pending, user.id, st.clock);
    Success((State(st.registry, st.tasks + [t], st.clock + 1, st.cache - {username}), t))
  }

  /** The field assignments of an update: present fields overwrite, absent ones
      keep their value; a status string that names no status is rejected. */
  function ApplyUpdate(t: Task, d: TaskUpdate): (r: Result<Task, Error>)
    ensures r.Failure? <==> d.status.Some? && TaskStatuses.ValueOf(d.status.value).None?
    ensures r.Failure? ==> r.error == InvalidStatus
    ensures r.Success? ==>
      && r.value.id == t.id
      && r.value.ownerId == t.ownerId
      && r.value.createdAt == t.createdAt
      && r.value.title == d.title.GetOr(t.title)
      && r.value.description == d.description.GetOr(t.description)
      && (d.status.None? ==> r.value.status == t.status)
      && (d.status.Some? ==> TaskStatuses.Name(r.value.status) == d.status.value)
  {
    var titled := if d.title.Some? then t.(title := d.title.value) else t;
    var described := if d.description.Some? then titled.(description := d.description.value) else titled;
    if d.status.None? then Success(described)
    else
      match TaskStatuses.ValueOf(d.status.value)
      case None => Failure(InvalidStatus)
      case Some(s) => Success(described.(status := s))
  }

  /** Loads the task, then resolves the user, then checks the guard, then
      applies the form; all or nothing. */
  function UpdateTask(st: State, taskId: nat, d: TaskUpdate, username: string): (r: Result<(State, Task), Error>)
    ensures FindTaskById(st, taskId).Failure? ==> r == Failure(TaskNotFound)
    ensures FindTaskById(st, taskId).Success? && Resolve(st, username).Failure? ==> r == Failure(UserNotFound)
    ensures FindTaskById(st, taskId).Success? && Resolve(st, username).Success?
            && !CanUserAccessTask(FindTaskById(st, taskId).value, Resolve(st, username).value) ==>
      r == Failure(Unauthorized)
    ensures r.Success? <==>
      && FindTaskById(st, taskId).Success?
      && Resolve(st, username).Success?
      && CanUserAccessTask(FindTaskById(st, taskId).value, Resolve(st, username).value)
      && (d.status.None? || TaskStatuses.ValueOf(d.status.value).Some?)
    ensures r.Failure? && FindTaskById(st, taskId).Success? && Resolve(st, username).Success?
            && CanUserAccessTask(FindTaskById(st, taskId).value, Resolve(st, username).value) ==>
      r.error == InvalidStatus
    ensures r.Success? ==>
      var (st', t') := r.value;
      && ApplyUpdate(FindTaskById(st, taskId).value, d) == Success(t')
      && |st'.tasks| == |st.tasks|
      && (forall i :: 0 <= i < |st.tasks| ==>
            st'.tasks[i] == (if st.tasks[i].id == taskId then t' else st.tasks[i]))
      && st'.registry == st.registry
      && st'.clock == st.clock
      && st'.cache == st.cache - {username}
  {
    var task :- FindTaskById(st, taskId);
    var user :- Resolve(st, username);
    if !CanUserAccessTask(task, user) then Failure(Unauthorized)
    else
      var updated :- ApplyUpdate(task, d);
      Success((st.(tasks := TaskRepository.Replace(st.tasks, updated), cache := st.cache - {username}), updated))
  }

  /** Resolves the user first, then loads the task, then checks the guard. */
  function FindAndVerifyTaskAccess(st: State, taskId: nat, username: string): (r: Result<Task, Error>)
    ensures Resolve(st, username).Failure? ==> r == Failure(UserNotFound)
    ensures Resolve(st, username).Success? && FindTaskById(st, taskId).Failure? ==> r == Failure(TaskNotFound)
    ensures r.Success? <==>
      && Resolve(st, username).Success?
      && FindTaskById(st, taskId).Success?
      && CanUserAccessTask(FindTaskById(st, taskId).value, Resolve(st, username).value)
    ensures r.Failure? && Resolve(st, username).Success? && FindTaskById(st, taskId).Success? ==>
      r.error == Unauthorized
    ensures r.Success? ==> r == FindTaskById(st, taskId)
  {
    var user :- Resolve(st, username);
    var task :- FindTaskById(st, taskId);
    if CanUserAccessTask(task, user) then Success(task) else Failure(Unauthorized)
  }

  /** Deletes a task the actor may access and evicts the actor's cache entry. */
  function DeleteTask(st: State, taskId: nat, username: string): (r: Result<State, Error>)
    ensures r.Failure? <==> FindAndVerifyTaskAccess(st, taskId, username).Failure?
    ensures r.Failure? ==> r.error == FindAndVerifyTaskAccess(st, taskId, username).error
    ensures r.Success? ==>
      && (forall t :: t in r.value.tasks <==> t in st.tasks && t.id != taskId)
      && r.value.registry == st.registry
      && r.value.clock == st.clock
      && r.value.cache == st.cache - {username}
  {
    var task :- FindAndVerifyTaskAccess(st, taskId, username);
    Success(State(st.registry, TaskRepository.DeleteById(st.tasks, task.id), st.clock, st.cache - {username}))
  }

  /** The actor's own tasks, newest first. */
  function FindUserTasks(st: State, username: string): (r: Result<seq<Task>, Error>)
    ensures r.Failure? <==> Resolve(st, username).Failure?
    ensures r.Failure? ==> r.error == UserNotFound
    ensures r.Success? ==>
      && (forall t :: t in r.value <==> t in st.tasks && t.ownerId == Resolve(st, username).value.id)
      && multiset(r.value) == multiset(TaskRepository.FindByUser(st.tasks, Resolve(st, username).value))
      && SortedDesc(r.value, TaskRepository.CreatedAt)
  {
    var user :- Resolve(st, username);
    Success(TaskRepository.FindByUserOrderByCreatedAtDesc(st.tasks, user))
  }

  function FindAllTasks(st: State): seq<Task> {
    st.tasks
  }

  /** Every task with the status, whoever owns it. */
  function FindTasksByStatus(st: State, s: TaskStatus): (r: seq<Task>)
    ensures forall t :: t in r <==> t in st.tasks && t.status == s
  {
    TaskRepository.FindByStatus(st.tasks, s)
  }

  /** The actor's own tasks with the status. */
  function FindUserTasksByStatus(st: State, username: string, s: TaskStatus): (r: Result<seq<Task>, Error>)
    ensures r.Failure? <==> Resolve(st, username).Failure?
    ensures r.Failure? ==> r.error == UserNotFound
    ensures r.Success? ==>
      forall t :: t in r.value <==> t in st.tasks && t.ownerId == Resolve(st, username).value.id && t.status == s
  {
    var user :- Resolve(st, username);
    Success(TaskRepository.FindByUserAndStatus(st.tasks, user, s))
  }

  /** The actor's own tasks whose title contains `title`. */
  function SearchUserTasks(st: State, username: string, title: string): (r: Result<seq<Task>, Error>)
    ensures r.Failure? <==> Resolve(st, username).Failure?
    ensures r.Failure? ==> r.error == UserNotFound
    ensures r.Success? ==>
      forall t :: t in r.value <==>
        t in st.tasks && t.ownerId == Resolve(st, username).value.id && TaskRepository.Contains(t.title, title)
  {
    var user :- Resolve(st, username);
    Success(TaskRepository.FindByUserAndTitleContaining(st.tasks, user, title))
  }

  /** How many of the actor's own tasks have the status. */
  function GetUserTaskCount(st: State, username: string, s: TaskStatus): (r: Result<nat, Error>)
    ensures r.Failure? <==> Resolve(st, username).Failure?
    ensures r.Failure? ==> r.error == UserNotFound
    ensures r.Success? ==> r.value == |FindUserTasksByStatus(st, username, s).value|
  {
    var user :- Resolve(st, username);
    Success(TaskRepository.CountByUserAndStatus(st.tasks, user, s))
  }

  /** How many tasks in the whole store have the status. */
  function GetTotalTaskCount(st: State, s: TaskStatus): (n: nat)
    ensures n == |FindTasksByStatus(st, s)|
  {
    TaskRepository.CountByStatus(st.tasks, s)
  }

  /** Read-through cache: a hit is served as stored (the user is not resolved
      again); a miss computes `FindUserTasks` and stores it. A failure is not cached. */
  function FindUserTasksCached(st: State, username: string): (r: Result<(State, seq<Task>), Error>)
    ensures username in st.cache ==> r == Success((st, st.cache[username]))
    ensures username !in st.cache ==> (r.Success? <==> FindUserTasks(st, username).Success?)
    ensures username !in st.cache && r.Failure? ==> r.error == UserNotFound
    ensures username !in st.cache && r.Success? ==>
      && r.value.1 == FindUserTasks(st, username).value
      && r.value.0 == st.(cache := st.cache[username := r.value.1])
  {
    if username in st.cache then Success((st, st.cache[username]))
    else
      var tasks :- FindUserTasks(st, username);
      Success((st.(cache := st.cache[username := tasks]), tasks))
  }
}
