/** Properties of the task access service that relate several calls: the
    guard, the update form's round trip, the store invariant, newest-first
    ordering after a create, and the cache's eviction behaviour. */
module TaskServiceProperties {
  import opened Wrappers
  import opened Seqs
  import opened Entities
  import Roles
  import TaskStatuses
  import UserRepository
  import UserService
  import TaskRepository
  import opened TaskUpdateDto
  import opened TaskService

  // ---------------------------------------------------------------- guard

  /** Admins pass, owners pass, and a regular user never passes on someone
      else's task; the enabled flag and the task's contents play no part. */
  lemma GuardFacts(t: Task, u: User)
    ensures u.role == Roles.Admin ==> CanUserAccessTask(t, u)
    ensures t.ownerId == u.id ==> CanUserAccessTask(t, u)
    ensures u.role == Roles.User && t.ownerId != u.id ==> !CanUserAccessTask(t, u)
    ensures CanUserAccessTask(t, u) == CanUserAccessTask(t, u.(enabled := !u.enabled))
  {
  }

  /** The guard reads nothing but the owner id, the actor's id and the actor's role. */
  lemma GuardDependsOnOwnerAndActorOnly(t1: Task, t2: Task, u1: User, u2: User)
    requires t1.ownerId == t2.ownerId && u1.id == u2.id && u1.role == u2.role
    ensures CanUserAccessTask(t1, u1) == CanUserAccessTask(t2, u2)
  {
  }

  // ---------------------------------------------------- error precedence

  /** Update and delete check in opposite orders: with both the task and the
      user missing, update reports the task and delete reports the user. */
  lemma UpdateAndDeleteOrderErrorsDifferently(st: State, taskId: nat, d: TaskUpdate, username: string)
    requires forall t :: t in st.tasks ==> t.id != taskId
    requires forall u :: u in st.registry.users ==> u.username != username
    ensures UpdateTask(st, taskId, d, username) == Failure(TaskNotFound)
    ensures DeleteTask(st, taskId, username) == Failure(UserNotFound)
  {
  }

  /** The guard runs before the status string is parsed: an unauthorized
      actor sending a bogus status is told `Unauthorized`. */
  lemma GuardBeforeStatusParse(st: State, t: Task, d: TaskUpdate, username: string)
    requires t in st.tasks
    requires Resolve(st, username).Success?
    requires !CanUserAccessTask(FindTaskById(st, t.id).value, Resolve(st, username).value)
    requires d.status.Some? && TaskStatuses.ValueOf(d.status.value).None?
    ensures UpdateTask(st, t.id, d, username) == Failure(Unauthorized)
  {
  }

  // ------------------------------------------------ update form round trip

  /** Applying the form built from a task gives the task back. */
  lemma FromEntityRoundTrip(t: Task)
    ensures ApplyUpdate(t, FromEntity(t)) == Success(t)
  {
    TaskStatuses.ValueOfName(t.status);
  }

  /** A form with no field present changes nothing. */
  lemma NoChangesIsIdentity(t: Task)
    ensures ApplyUpdate(t, NoChanges) == Success(t)
  {
  }

  /** An authorized update with a form that leaves the task as it was keeps the store as it was. */
  lemma IdentityUpdateKeepsStore(st: State, t: Task, d: TaskUpdate, username: string)
    requires Wf(st) && t in st.tasks
    requires Resolve(st, username).Success? && CanUserAccessTask(t, Resolve(st, username).value)
    requires ApplyUpdate(t, d) == Success(t)
    ensures UpdateTask(st, t.id, d, username).Success?
    ensures UpdateTask(st, t.id, d, username).value.0.tasks == st.tasks
    ensures UpdateTask(st, t.id, d, username).value.1 == t
  {
    TaskRepository.FindByIdUnique(st.tasks, st.clock, t);
    TaskRepository.ReplaceWithSameIsIdentity(st.tasks, st.clock, t);
  }

  /** Submitting a task's own form back, authorized, is a no-op on the store. */
  lemma FromEntityUpdateIsNoOp(st: State, t: Task, username: string)
    requires Wf(st) && t in st.tasks
    requires Resolve(st, username).Success? && CanUserAccessTask(t, Resolve(st, username).value)
    ensures UpdateTask(st, t.id, FromEntity(t), username).Success?
    ensures UpdateTask(st, t.id, FromEntity(t), username).value.0.tasks == st.tasks
  {
    FromEntityRoundTrip(t);
    IdentityUpdateKeepsStore(st, t, FromEntity(t), username);
  }

  /** An empty form, authorized, is a no-op on the store. */
  lemma EmptyUpdateIsNoOp(st: State, t: Task, username: string)
    requires Wf(st) && t in st.tasks
    requires Resolve(st, username).Success? && CanUserAccessTask(t, Resolve(st, username).value)
    ensures UpdateTask(st, t.id, NoChanges, username).Success?
    ensures UpdateTask(st, t.id, NoChanges, username).value.0.tasks == st.tasks
  {
    NoChangesIsIdentity(t);
    IdentityUpdateKeepsStore(st, t, NoChanges, username);
  }

  /** Updating only the status sets it and keeps title, description and owner. */
  lemma StatusOnlyUpdate(st: State, t: Task, s: TaskStatuses.TaskStatus, username: string)
    requires Wf(st) && t in st.tasks
    requires Resolve(st, username).Success? && CanUserAccessTask(t, Resolve(st, username).value)
    ensures var r := UpdateTask(st, t.id, TaskUpdate(None, None, Some(TaskStatuses.Name(s))), username);
      && r.Success?
      && r.value.1.status == s
      && r.value.1.title == t.title
      && r.value.1.description == t.description
      && r.value.1.ownerId == t.ownerId
  {
    TaskRepository.FindByIdUnique(st.tasks, st.clock, t);
    TaskStatuses.ValueOfName(s);
  }

  /** Read after write: after a successful update, loading the task by its id
      yields the updated task, and loading any other id yields what it did before. */
  lemma UpdatedTaskIsFound(st: State, taskId: nat, d: TaskUpdate, username: string, otherId: nat)
    requires UpdateTask(st, taskId, d, username).Success?
    ensures var (st', t') := UpdateTask(st, taskId, d, username).value;
      && FindTaskById(st', taskId) == Success(t')
      && (otherId != taskId ==> FindTaskById(st', otherId) == FindTaskById(st, otherId))
  {
    var (st', t') := UpdateTask(st, taskId, d, username).value;
    var old_t := FindTaskById(st, taskId).value;
    assert st'.tasks == TaskRepository.Replace(st.tasks, t');
    TaskRepository.ReplaceThenFind(st.tasks, t', otherId);
  }

  // ------------------------------------------------------ store invariant

  lemma CreatePreservesWf(st: State, title: string, description: string, username: string)
    requires Wf(st)
    requires CreateTask(st, title, description, username).Success?
    ensures Wf(CreateTask(st, title, description, username).value.0)
  {
    var (st', t) := CreateTask(st, title, description, username).value;
    TaskRepository.AppendPreservesWf(st.tasks, st.clock, t);
  }

  lemma UpdatePreservesWf(st: State, taskId: nat, d: TaskUpdate, username: string)
    requires Wf(st)
    requires UpdateTask(st, taskId, d, username).Success?
    ensures Wf(UpdateTask(st, taskId, d, username).value.0)
  {
    var (st', t') := UpdateTask(st, taskId, d, username).value;
    var t := FindTaskById(st, taskId).value;
    TaskRepository.ReplacePreservesWf(st.tasks, st.clock, t, t');
    assert st'.tasks == TaskRepository.Replace(st.tasks, t');
  }

  lemma DeletePreservesWf(st: State, taskId: nat, username: string)
    requires Wf(st)
    requires DeleteTask(st, taskId, username).Success?
    ensures Wf(DeleteTask(st, taskId, username).value)
  {
    TaskRepository.DeletePreservesWf(st.tasks, st.clock, taskId);
  }

  /** A successful delete removes exactly the one task that had the id. */
  lemma DeleteRemovesExactlyTheTask(st: State, taskId: nat, username: string)
    requires Wf(st)
    requires DeleteTask(st, taskId, username).Success?
    ensures var t := FindTaskById(st, taskId).value;
      multiset(DeleteTask(st, taskId, username).value.tasks) + multiset{t} == multiset(st.tasks)
  {
    var t := FindTaskById(st, taskId).value;
    TaskRepository.DeleteRemovesExactlyOne(st.tasks, st.clock, t);
  }

  // ------------------------------------------------------- newest first

  /** In a well-formed state a user's list is their tasks in reverse creation order. */
  lemma UserTasksAreReverseCreationOrder(st: State, username: string)
    requires Wf(st)
    requires Resolve(st, username).Success?
    ensures FindUserTasks(st, username).value
         == Reverse(TaskRepository.FindByUser(st.tasks, Resolve(st, username).value))
  {
    TaskRepository.NewestFirstIsReverseCreation(st.tasks, Resolve(st, username).value);
  }

  /** A created task heads its creator's list, before everything created earlier. */
  lemma CreatedTaskComesFirst(st: State, title: string, description: string, username: string)
    requires Wf(st)
    requires CreateTask(st, title, description, username).Success?
    ensures var (st', t) := CreateTask(st, title, description, username).value;
      FindUserTasks(st', username) == Success([t] + FindUserTasks(st, username).value)
  {
    var (st', t) := CreateTask(st, title, description, username).value;
    var user := Resolve(st, username).value;
    assert st'.tasks == st.tasks + [t];
    CreatePreservesWf(st, title, description, username);
    UserTasksAreReverseCreationOrder(st, username);
    UserTasksAreReverseCreationOrder(st', username);
    FilterAppend(st.tasks, [t], TaskRepository.OwnedBy(user));
    assert Filter([t], TaskRepository.OwnedBy(user)) == [t] by {
      assert [t][1..] == [];
    }
    ReverseSnoc(TaskRepository.FindByUser(st.tasks, user), t);
  }

  // ---------------------------------------------------------------- cache

  /** The three mutating operations, by what the caller passes besides the actor. */
  datatype Mutation =
    | Create(title: string, description: string)
    | Update(taskId: nat, form: TaskUpdate)
    | Delete(taskId: nat)

  /** The successor state of a mutation performed by `username`. */
  function Mutate(st: State, m: Mutation, username: string): (r: Result<State, Error>)
    ensures r.Success? ==> r.value.registry == st.registry
  {
    match m
    case Create(title, description) =>
      var (st', _) :- CreateTask(st, title, description, username);
      Success(st')
    case Update(taskId, form) =>
      var (st', _) :- UpdateTask(st, taskId, form, username);
      Success(st')
    case Delete(taskId) =>
      DeleteTask(st, taskId, username)
  }

  /** A successful mutation drops the actor's cache entry and leaves every other entry as it was. */
  lemma MutationEvictsOnlyActor(st: State, m: Mutation, username: string)
    requires Mutate(st, m, username).Success?
    ensures username !in Mutate(st, m, username).value.cache
    ensures forall k :: k != username ==>
      && (k in Mutate(st, m, username).value.cache <==> k in st.cache)
      && (k in st.cache ==> Mutate(st, m, username).value.cache[k] == st.cache[k])
  {
  }

  /** A mutation only succeeds for an actor that resolves. */
  lemma MutationResolvesActor(st: State, m: Mutation, username: string)
    requires Mutate(st, m, username).Success?
    ensures Resolve(st, username).Success?
  {
  }

  /** After the actor's own successful mutation, the actor's next cached read
      is recomputed from the new store: no stale read for the actor. */
  lemma NoStaleReadForActor(st: State, m: Mutation, username: string)
    requires Mutate(st, m, username).Success?
    ensures var st' := Mutate(st, m, username).value;
      && FindUserTasksCached(st', username).Success?
      && FindUserTasksCached(st', username).value.1 == FindUserTasks(st', username).value
  {
    MutationEvictsOnlyActor(st, m, username);
    MutationResolvesActor(st, m, username);
  }

  lemma MutationPreservesWf(st: State, m: Mutation, username: string)
    requires Wf(st)
    requires Mutate(st, m, username).Success?
    ensures Wf(Mutate(st, m, username).value)
  {
    match m
    case Create(title, description) => CreatePreservesWf(st, title, description, username);
    case Update(taskId, form) => UpdatePreservesWf(st, taskId, form, username);
    case Delete(taskId) => DeletePreservesWf(st, taskId, username);
  }

  /** The task was owned by a user with this username. */
  ghost predicate OwnedByName(st: State, t: Task, name: string) {
    exists u :: u in st.registry.users && u.username == name && u.id == t.ownerId
  }

  /** Every cached list holds only tasks of the user the key names. */
  ghost predicate CacheScoped(st: State) {
    forall k, t :: k in st.cache && t in st.cache[k] ==> OwnedByName(st, t, k)
  }

  /** A cached read keeps the cache scoped, and what it returns belongs to the reader. */
  lemma CachedReadIsOwn(st: State, username: string)
    requires CacheScoped(st)
    requires FindUserTasksCached(st, username).Success?
    ensures CacheScoped(FindUserTasksCached(st, username).value.0)
    ensures forall t :: t in FindUserTasksCached(st, username).value.1 ==> OwnedByName(st, t, username)
  {
    if username !in st.cache {
      var user := Resolve(st, username).value;
      forall t | t in FindUserTasksCached(st, username).value.1 ensures OwnedByName(st, t, username) {
        assert user in st.registry.users && user.username == username && user.id == t.ownerId;
      }
    }
  }

  /** Mutations keep the cache scoped. */
  lemma MutationPreservesCacheScoped(st: State, m: Mutation, username: string)
    requires CacheScoped(st)
    requires Mutate(st, m, username).Success?
    ensures CacheScoped(Mutate(st, m, username).value)
  {
    MutationEvictsOnlyActor(st, m, username);
  }

  /** A user who creates a task sees it on their next cached read. */
  lemma CreatedTaskIsVisibleInCache(st: State, title: string, description: string, username: string)
    requires CreateTask(st, title, description, username).Success?
    ensures var (st', t) := CreateTask(st, title, description, username).value;
      && FindUserTasksCached(st', username).Success?
      && t in FindUserTasksCached(st', username).value.1
  {
    var (st', t) := CreateTask(st, title, description, username).value;
    NoStaleReadForActor(st, Create(title, description), username);
    assert t in st'.tasks by {
      assert t in multiset(st'.tasks);
    }
  }

  /** A user who deletes a task no longer sees it on their next cached read. */
  lemma DeletedTaskIsGoneFromCache(st: State, taskId: nat, username: string)
    requires DeleteTask(st, taskId, username).Success?
    ensures var st' := DeleteTask(st, taskId, username).value;
      && FindUserTasksCached(st', username).Success?
      && forall t :: t in FindUserTasksCached(st', username).value.1 ==> t.id != taskId
  {
    NoStaleReadForActor(st, Delete(taskId), username);
  }

  /** The evicted entry is the actor's, not the owner's: when an admin edits
      bob's task, bob's cached list still shows the old title while the store
      holds the new one. */
  lemma AdminUpdateLeavesOwnerCacheStale()
    ensures var bob := User(1, "bob", "b", "", Roles.User, true);
      var admin := User(2, "admin", "a", "", Roles.Admin, true);
      var t := Task(7, "A", "", TaskStatuses.Pending, 1, 7);
      var st := State(UserService.Registry([bob, admin], 3), [t], 8, map["bob" := [t]]);
      var r := UpdateTask(st, 7, TaskUpdate(Some("B"), None, None), "admin");
      && r.Success?
      && r.value.0.tasks == [t.(title := "B")]
      && FindUserTasksCached(r.value.0, "bob") == Success((r.value.0, [t]))
  {
    var bob := User(1, "bob", "b", "", Roles.User, true);
    var admin := User(2, "admin", "a", "", Roles.Admin, true);
    var t := Task(7, "A", "", TaskStatuses.Pending, 1, 7);
    var st := State(UserService.Registry([bob, admin], 3), [t], 8, map["bob" := [t]]);
    assert "bob" != "admin";
    assert Resolve(st, "admin") == Success(admin) by {
      assert UserRepository.ExistsByUsername(st.registry.users, "admin") by {
        assert admin in st.registry.users;
      }
      UserRepository.FindByUsernameUnique(st.registry.users, "admin", admin);
    }
    assert FindTaskById(st, 7) == Success(t);
    assert ApplyUpdate(t, TaskUpdate(Some("B"), None, None)) == Success(t.(title := "B"));
    assert TaskRepository.Replace([t], t.(title := "B")) == [t.(title := "B")];
    var st' := State(st.registry, [t.(title := "B")], 8, map[]);
    assert st.cache - {"admin"} == map["bob" := [t]];
    assert UpdateTask(st, 7, TaskUpdate(Some("B"), None, None), "admin")
        == Success((st'.(cache := map["bob" := [t]]), t.(title := "B")));
  }

  /** A cache hit is served without resolving the user: an entry outlives its user. */
  lemma CacheHitOutlivesUser()
    ensures var st := State(UserService.Registry([], 0), [], 0, map["gone" := []]);
      && Resolve(st, "gone").Failure?
      && FindUserTasks(st, "gone") == Failure(UserNotFound)
      && FindUserTasksCached(st, "gone") == Success((st, []))
  {
  }
  /** Deleting a user evicts nothing, and registration accepts the freed name.
      Bob's list is cached; an admin deletes bob's only task, which evicts the
      admin's entry alone; bob, now owning nothing, is deleted and "bob" is
      registered again (id 3). The new account is served the old bob's list while
      the uncached read finds nothing. `CacheScoped` holds before and fails after,
      so it is an invariant of the task operations only, not of registry changes. */
  lemma CacheOutlivesReregistration(encode: string -> string)
    ensures var bob := User(1, "bob", "b", "", Roles.User, true);
      var admin := User(2, "admin", "a", "", Roles.Admin, true);
      var t := Task(7, "A", "", TaskStatuses.Pending, 1, 7);
      var st0 := State(UserService.Registry([bob, admin], 3), [t], 8, map[]);
      var read := FindUserTasksCached(st0, "bob");
      && read.Success? && read.value.1 == [t]
      && var st1 := read.value.0;
      && CacheScoped(st1)
      && var gone := DeleteTask(st1, 7, "admin");
      && gone.Success? && gone.value.tasks == []
      && var st2 := gone.value;
      && var del := UserService.DeleteUser(st2.registry, 1);
      && del.Success?
      && var reg := UserService.RegisterUser(del.value, UserService.Registration("bob", "p", "c"), encode);
      && reg.Success? && reg.value.1.id == 3
      && var st3 := st2.(registry := reg.value.0);
      && FindUserTasksCached(st3, "bob") == Success((st3, [t]))
      && FindUserTasks(st3, "bob") == Success([])
      && !CacheScoped(st3)
  {
    var bob := User(1, "bob", "b", "", Roles.User, true);
    var admin := User(2, "admin", "a", "", Roles.Admin, true);
    var t := Task(7, "A", "", TaskStatuses.Pending, 1, 7);
    var st0 := State(UserService.Registry([bob, admin], 3), [t], 8, map[]);
    var st1 := st0.(cache := map["bob" := [t]]);
    var st2 := st1.(tasks := [], cache := map["bob" := [t]]);
    var reg2 := UserService.Registry([admin], 3);
    var nb := User(3, "bob", "c", encode("p"), Roles.User, UserService.NewUserEnabled);
    var reg3 := UserService.Registry([admin, nb], 4);
    var st3 := st2.(registry := reg3);
    ReregistrationFillsCache(bob, admin, t, st0);
    ReregistrationAdminDeletes(bob, admin, t, st1);
    ReregistrationReplacesBob(bob, admin, reg2, nb, encode);
    ReregistrationServesStale(admin, nb, t, st3);
  }

  /** Step one of `CacheOutlivesReregistration`: bob's read fills his entry. */
  lemma ReregistrationFillsCache(bob: User, admin: User, t: Task, st0: State)
    requires bob == User(1, "bob", "b", "", Roles.User, true)
    requires admin == User(2, "admin", "a", "", Roles.Admin, true)
    requires t == Task(7, "A", "", TaskStatuses.Pending, 1, 7)
    requires st0 == State(UserService.Registry([bob, admin], 3), [t], 8, map[])
    ensures FindUserTasksCached(st0, "bob") == Success((st0.(cache := map["bob" := [t]]), [t]))
    ensures CacheScoped(st0.(cache := map["bob" := [t]]))
  {
    assert Resolve(st0, "bob") == Success(bob) by {
      assert bob in st0.registry.users;
      UserRepository.FindByUsernameUnique(st0.registry.users, "bob", bob);
    }
    var listed := FindUserTasks(st0, "bob").value;
    assert listed == [t] by {
      assert t in listed;
      assert |multiset(listed)| == |multiset(TaskRepository.FindByUser([t], bob))|;
      assert TaskRepository.FindByUser([t], bob) == [t];
    }
    assert OwnedByName(st0.(cache := map["bob" := [t]]), t, "bob") by {
      assert bob in st0.registry.users;
    }
  }

  /** Step two: the admin deletes bob's task; only the admin's entry is evicted. */
  lemma ReregistrationAdminDeletes(bob: User, admin: User, t: Task, st1: State)
    requires bob == User(1, "bob", "b", "", Roles.User, true)
    requires admin == User(2, "admin", "a", "", Roles.Admin, true)
    requires t == Task(7, "A", "", TaskStatuses.Pending, 1, 7)
    requires st1 == State(UserService.Registry([bob, admin], 3), [t], 8, map["bob" := [t]])
    ensures DeleteTask(st1, 7, "admin") == Success(st1.(tasks := [], cache := map["bob" := [t]]))
  {
    assert Resolve(st1, "admin") == Success(admin) by {
      assert admin in st1.registry.users;
      UserRepository.FindByUsernameUnique(st1.registry.users, "admin", admin);
    }
    assert FindAndVerifyTaskAccess(st1, 7, "admin") == Success(t);
    assert TaskRepository.DeleteById([t], 7) == [];
    assert "bob" != "admin";
    assert st1.cache - {"admin"} == map["bob" := [t]];
  }

  /** Step three: bob is deleted and the name is registered again under a new id. */
  lemma ReregistrationReplacesBob(bob: User, admin: User, reg2: UserService.Registry, nb: User, encode: string -> string)
    requires bob == User(1, "bob", "b", "", Roles.User, true)
    requires admin == User(2, "admin", "a", "", Roles.Admin, true)
    requires reg2 == UserService.Registry([admin], 3)
    requires nb == User(3, "bob", "c", encode("p"), Roles.User, UserService.NewUserEnabled)
    ensures UserService.DeleteUser(UserService.Registry([bob, admin], 3), 1) == Success(reg2)
    ensures UserService.RegisterUser(reg2, UserService.Registration("bob", "p", "c"), encode)
         == Success((UserService.Registry([admin, nb], 4), nb))
  {
    assert Filter([bob, admin], UserRepository.WithoutId(1)) == [admin];
    assert !UserRepository.ExistsByUsername(reg2.users, "bob");
    assert !UserRepository.ExistsByEmail(reg2.users, "c") by {
      assert "a" != "c";
    }
    assert reg2.users + [nb] == [admin, nb];
  }

  /** Step four: the new bob is served the old entry; the store has nothing of his. */
  lemma ReregistrationServesStale(admin: User, nb: User, t: Task, st3: State)
    requires admin == User(2, "admin", "a", "", Roles.Admin, true)
    requires nb.id == 3 && nb.username == "bob" && nb.email == "c"
    requires t == Task(7, "A", "", TaskStatuses.Pending, 1, 7)
    requires st3 == State(UserService.Registry([admin, nb], 4), [], 8, map["bob" := [t]])
    ensures FindUserTasksCached(st3, "bob") == Success((st3, [t]))
    ensures FindUserTasks(st3, "bob") == Success([])
    ensures !CacheScoped(st3)
  {
    assert "bob" != "admin";
    assert Resolve(st3, "bob") == Success(nb) by {
      assert nb in st3.registry.users;
      UserRepository.FindByUsernameUnique(st3.registry.users, "bob", nb);
    }
    assert !OwnedByName(st3, t, "bob");
  }
}
