# Task manager access layer — a Dafny model

This project models the core of a role-based task-tracking backend: the task access service (`TaskService`), the user registry under it (`UserService`), the two repositories whose declared queries they call, the `TaskStatus` and `Role` enums, the partial-update form `TaskUpdateDto`, and the per-status counting on the dashboard page.

The model is a functional state machine. A `State` holds four things:

- the user registry: the stored users and the next user id;
- the task store: the stored tasks in creation order;
- a creation counter (`clock`) that stamps every new task's id and `createdAt`;
- the `userTasks` cache, a map from username to a task list.

Every service operation is a pure function. It returns either the successor state and a value, or one of the typed errors. The errors are `TaskNotFound`, `UserNotFound`, `UsernameNotFound`, `Unauthorized`, `InvalidStatus` and `UserAlreadyExists`. A failed call returns no state, so the caller keeps the state it had. This is how the model represents the class-level `@Transactional`: a failed update persists nothing, even when it fails on the status string after the title was already assigned.

Layout, one module per source component:

| file | module | models |
|---|---|---|
| `wrappers.dfy` | `Wrappers` | `Optional` / exceptions as `Option` / `Result` |
| `seqs.dfy` | `Seqs` | filter, count, first match, sort by key, reverse, with their laws |
| `task_status.dfy` | `TaskStatuses` | `TaskStatus`, `name()`, display names, `valueOf` |
| `role.dfy` | `Roles` | `Role` and its authority strings |
| `entities.dfy` | `Entities` | `User`, `Task`, the error kinds |
| `user_repository.dfy` | `UserRepository` | the user queries |
| `task_repository.dfy` | `TaskRepository` | the task queries, `save`/`delete`, the store invariant |
| `user_service.dfy` | `UserService` | registration, lookups, role change, deletion, counts |
| `task_update_dto.dfy` | `TaskUpdateDto` | the optional-field form and `fromEntity` |
| `task_service.dfy` | `TaskService` | the guard and every service operation |
| `task_service_properties.dfy` | `TaskServiceProperties` | multi-call properties: round trips, invariant, ordering, cache |
| `dashboard.dfy` | `DashboardController` | the status tally of the dashboard |

Three behaviours of the code shape the contracts below:

- `updateTask` loads the task before it resolves the user (TaskService.java:55-56). `deleteTask` resolves the user first and then loads the task (TaskService.java:89-90). When both are missing, the two operations therefore report different errors (`UpdateAndDeleteOrderErrorsDifferently`).
- A successful mutation evicts the cache entry under the actor's username (TaskService.java:51), not the entry of the task's owner. So an admin who edits another user's task leaves that user's cached list stale (`AdminUpdateLeavesOwnerCacheStale`).
- A cache hit is served without resolving the user (TaskService.java:136-140). Deleting a user evicts nothing. An entry therefore outlives its user (`CacheHitOutlivesUser`). If the username is registered again, the new account is served the old account's list (`CacheOutlivesReregistration`).

## Model

| member | source | states |
|---|---|---|
| TaskStatuses.ValueOf | src/main/java/com/example/taskmanager/service/TaskService.java:69 | `valueOf` accepts exactly the four constant names; the parsed status has the given name, and every other string is rejected |
| TaskStatuses.ExactlyFourStatuses | src/main/java/com/example/taskmanager/model/TaskStatus.java:7-10 | there are exactly four statuses, each listed once in declaration order |
| TaskStatuses.ValueOfName | src/main/java/com/example/taskmanager/dto/TaskUpdateDto.java:16 | parsing a status's `name()` gives that status back |
| TaskStatuses.DisplayNamesDistinct | src/main/java/com/example/taskmanager/model/TaskStatus.java:7-10 | two statuses share a display name only if they are the same status |
| Roles.ExactlyTwoRoles | src/main/java/com/example/taskmanager/model/Role.java:7-8 | every role is USER or ADMIN |
| Roles.AuthorityIsPrefixedName | src/main/java/com/example/taskmanager/model/Role.java:7-10 | each authority is "ROLE_" followed by the role name, so two roles never share an authority |
| UserRepository.FindById | src/main/java/com/example/taskmanager/service/UserService.java:69-72 | the user found has the id, and nothing is found exactly when no stored user has it |
| UserRepository.FindByUsername | src/main/java/com/example/taskmanager/repository/UserRepository.java:15 | the user found is stored and has that username; nothing is found exactly when no user has it |
| UserRepository.FindByEmail | src/main/java/com/example/taskmanager/repository/UserRepository.java:17 | the user found is stored and has that email; nothing is found exactly when no user has it |
| UserRepository.ExistsByUsername | src/main/java/com/example/taskmanager/repository/UserRepository.java:19 | `existsByUsername` holds exactly when `findByUsername` finds a user |
| UserRepository.ExistsByEmail | src/main/java/com/example/taskmanager/repository/UserRepository.java:21 | `existsByEmail` holds exactly when `findByEmail` finds a user |
| UserRepository.ExistsByUsernameIffFound | src/main/java/com/example/taskmanager/repository/UserRepository.java:15-19 | `existsByUsername` holds exactly when `findByUsername` is present |
| UserRepository.ExistsByEmailIffFound | src/main/java/com/example/taskmanager/repository/UserRepository.java:17-21 | `existsByEmail` holds exactly when `findByEmail` is present |
| UserRepository.FindByUsernameUnique | src/main/java/com/example/taskmanager/repository/UserRepository.java:15 | with unique usernames, the lookup returns the one user of that name |
| UserRepository.FindByIdUnique | src/main/java/com/example/taskmanager/service/UserService.java:69-72 | with unique ids, the lookup returns the one user with that id |
| UserRepository.FindByRole | src/main/java/com/example/taskmanager/repository/UserRepository.java:23 | returns exactly the stored users with the role |
| UserRepository.FindAllActiveUsers | src/main/java/com/example/taskmanager/repository/UserRepository.java:25-26 | returns exactly the stored users whose enabled flag is set |
| UserRepository.CountByRole | src/main/java/com/example/taskmanager/repository/UserRepository.java:28-29 | the count, computed on its own, equals the size of `findByRole` |
| UserRepository.RoleCountsPartition | src/main/java/com/example/taskmanager/model/Role.java:7-8 | the USER count plus the ADMIN count is the number of users |
| TaskRepository.FindById | src/main/java/com/example/taskmanager/service/TaskService.java:100 | the task found is stored and has the id; nothing is found exactly when no task has it |
| TaskRepository.FindByUser | src/main/java/com/example/taskmanager/repository/TaskRepository.java:15 | returns exactly the stored tasks whose owner is the user |
| TaskRepository.FindByUserOrderByCreatedAtDesc | src/main/java/com/example/taskmanager/repository/TaskRepository.java:17 | a permutation of `findByUser`, with the same elements, sorted newest first by creation stamp |
| TaskRepository.NewestFirstIsReverseCreation | src/main/java/com/example/taskmanager/repository/TaskRepository.java:17 | with creation-ordered storage, the sorted list is the user's tasks in reverse creation order; any tie-breaking gives the same answer |
| TaskRepository.FindByStatus | src/main/java/com/example/taskmanager/repository/TaskRepository.java:19 | returns exactly the stored tasks with the status |
| TaskRepository.FindByUserAndStatus | src/main/java/com/example/taskmanager/repository/TaskRepository.java:21 | returns exactly the stored tasks with that owner and status |
| TaskRepository.FindByUserAndTitleContaining | src/main/java/com/example/taskmanager/repository/TaskRepository.java:23-24 | returns exactly the stored tasks of the owner whose title contains the fragment as a substring |
| TaskRepository.CountByUserAndStatus | src/main/java/com/example/taskmanager/repository/TaskRepository.java:26-27 | the count, computed on its own, equals the size of `findByUserAndStatus` |
| TaskRepository.CountByStatus | src/main/java/com/example/taskmanager/repository/TaskRepository.java:29-30 | the count, computed on its own, equals the size of `findByStatus` |
| TaskRepository.Replace | src/main/java/com/example/taskmanager/service/TaskService.java:72 | `save` of a stored task, in place: the store keeps its length, it holds the task exactly when a task with that id was stored, and otherwise exactly the stored tasks with other ids |
| TaskRepository.ReplaceThenFind | src/main/java/com/example/taskmanager/service/TaskService.java:72 | read after write: after `save` over a stored id, `findById` of that id yields the saved task, and `findById` of any other id yields what it yielded before |
| TaskRepository.DeleteById | src/main/java/com/example/taskmanager/service/TaskService.java:84 | `delete`: a task remains exactly when it was stored and has a different id |
| TaskRepository.DeleteRemovesExactlyOne | src/main/java/com/example/taskmanager/service/TaskService.java:84 | in a well-formed store, deleting a stored task's id removes exactly that task |
| TaskRepository.DeletePreservesWf | src/main/java/com/example/taskmanager/service/TaskService.java:84 | deleting keeps ids distinct and creation order strictly increasing |
| TaskRepository.ReplacePreservesWf | src/main/java/com/example/taskmanager/service/TaskService.java:72 | saving a task under its own id and creation stamp keeps the store well formed |
| TaskRepository.ReplaceWithSameIsIdentity | src/main/java/com/example/taskmanager/service/TaskService.java:72 | saving an unchanged stored task leaves the store as it was |
| TaskRepository.AppendPreservesWf | src/main/java/com/example/taskmanager/service/TaskService.java:45 | saving a new task stamped with the counter keeps the store well formed |
| TaskRepository.FindByIdUnique | src/main/java/com/example/taskmanager/service/TaskService.java:99-102 | in a well-formed store, the lookup returns the one task with that id |
| UserService.LoadUserByUsername | src/main/java/com/example/taskmanager/service/UserService.java:33-39 | succeeds exactly when a user has the name, returns that user, and otherwise fails with `UsernameNotFound` |
| UserService.FindByUsername | src/main/java/com/example/taskmanager/service/UserService.java:64-67 | succeeds exactly when a user has the name, returns that user, and otherwise fails with `UserNotFound` |
| UserService.FindById | src/main/java/com/example/taskmanager/service/UserService.java:69-72 | succeeds exactly when a user has the id, returns that user, and otherwise fails with `UserNotFound` |
| UserService.RegisterUser | src/main/java/com/example/taskmanager/service/UserService.java:41-61 | a taken username fails first, then a taken email; success adds exactly one user with role USER, the given name and email, and `encode(raw)` as password |
| UserService.UpdateUserRole | src/main/java/com/example/taskmanager/service/UserService.java:82-88 | a missing id is `UserNotFound`; otherwise only the role of the user with that id changes, and the returned user is that stored user with the new role (same username, email, password and enabled flag), now in the registry |
| UserService.DeleteUser | src/main/java/com/example/taskmanager/service/UserService.java:90-94 | a missing id is `UserNotFound`; otherwise exactly the users without that id remain |
| UserService.FindActiveUsers | src/main/java/com/example/taskmanager/service/UserService.java:78-80 | returns exactly the enabled users |
| UserService.GetAdminCount | src/main/java/com/example/taskmanager/service/UserService.java:100-102 | equals the number of users with role ADMIN |
| UserService.GetRegularUserCount | src/main/java/com/example/taskmanager/service/UserService.java:104-106 | equals the number of users with role USER |
| UserService.IsUsernameAvailable | src/main/java/com/example/taskmanager/service/UserService.java:108-110 | a name is available exactly when `findByUsername` fails with `UserNotFound` |
| UserService.IsEmailAvailable | src/main/java/com/example/taskmanager/service/UserService.java:112-114 | an email is available exactly when `findByEmail` finds nobody |
| UserService.CountsAddUp | src/main/java/com/example/taskmanager/service/UserService.java:96-106 | the admin count plus the regular count equals the user count |
| UserService.AvailabilityMeansUnused | src/main/java/com/example/taskmanager/service/UserService.java:108-114 | a username is available exactly when no user has it; the same holds for an email |
| UserService.RegisterIffAvailable | src/main/java/com/example/taskmanager/service/UserService.java:44-50 | registration succeeds exactly when both the username and the email are available |
| UserService.RegisteredUserIsFound | src/main/java/com/example/taskmanager/service/UserService.java:52-58 | after registering, a lookup by the username returns the new user, and neither the name nor the email is available |
| UserService.RegisterPreservesWf | src/main/java/com/example/taskmanager/service/UserService.java:44-58 | registration keeps ids, usernames and emails unique, and the new id is fresh |
| UserService.UpdateUserRolePreservesWf | src/main/java/com/example/taskmanager/service/UserService.java:82-88 | a role change keeps the registry's uniqueness |
| UserService.DeleteUserPreservesWf | src/main/java/com/example/taskmanager/service/UserService.java:90-94 | deletion keeps the registry's uniqueness |
| UserService.DeleteUserRemovesExactlyOne | src/main/java/com/example/taskmanager/service/UserService.java:90-94 | with unique ids, deletion removes exactly the user that was found |
| TaskUpdateDto.FromEntity | src/main/java/com/example/taskmanager/dto/TaskUpdateDto.java:12-18 | the form carries the task's title and description, and a status string that parses back to the task's status |
| TaskService.Resolve | src/main/java/com/example/taskmanager/service/TaskService.java:37 | the actor resolves exactly when a user has the name; otherwise `UserNotFound` |
| TaskService.CanUserAccessTask | src/main/java/com/example/taskmanager/service/TaskService.java:149-151 | an admin may access every task, an owner their own; a regular user may access a task exactly when they own it |
| TaskService.FindTaskById | src/main/java/com/example/taskmanager/service/TaskService.java:99-102 | returns the stored task with the id, with no ownership check, or `TaskNotFound` exactly when no task has it |
| TaskService.CreateTask | src/main/java/com/example/taskmanager/service/TaskService.java:33-49 | an unknown actor is `UserNotFound`; otherwise exactly one PENDING task is added with the given title and description, owned by the resolved user; only the actor's cache entry is dropped |
| TaskService.ApplyUpdate | src/main/java/com/example/taskmanager/service/TaskService.java:62-70 | present fields overwrite, absent ones are kept; id, owner and creation stamp never change; an unknown status string is `InvalidStatus` |
| TaskService.UpdateTask | src/main/java/com/example/taskmanager/service/TaskService.java:51-76 | errors in the order `TaskNotFound`, `UserNotFound`, `Unauthorized`, `InvalidStatus`; success changes only the task with that id and drops only the actor's cache entry |
| TaskService.FindAndVerifyTaskAccess | src/main/java/com/example/taskmanager/service/TaskService.java:88-97 | errors in the order `UserNotFound`, `TaskNotFound`, `Unauthorized`; success returns the stored task |
| TaskService.DeleteTask | src/main/java/com/example/taskmanager/service/TaskService.java:78-86 | fails exactly as the access check does; success keeps every task except the one with that id and drops only the actor's cache entry |
| TaskService.FindUserTasks | src/main/java/com/example/taskmanager/service/TaskService.java:104-107 | an unknown user is `UserNotFound`; otherwise exactly the resolved user's tasks, newest first |
| TaskService.FindTasksByStatus | src/main/java/com/example/taskmanager/service/TaskService.java:113-115 | returns exactly the tasks with the status, whoever owns them |
| TaskService.FindUserTasksByStatus | src/main/java/com/example/taskmanager/service/TaskService.java:117-120 | an unknown user is `UserNotFound`; otherwise exactly the user's own tasks with the status |
| TaskService.SearchUserTasks | src/main/java/com/example/taskmanager/service/TaskService.java:122-125 | an unknown user is `UserNotFound`; otherwise exactly the user's own tasks whose title contains the fragment |
| TaskService.GetUserTaskCount | src/main/java/com/example/taskmanager/service/TaskService.java:127-130 | an unknown user is `UserNotFound`; otherwise the size of the user's own tasks with the status |
| TaskService.GetTotalTaskCount | src/main/java/com/example/taskmanager/service/TaskService.java:132-134 | the size of the list of tasks with the status |
| TaskService.FindUserTasksCached | src/main/java/com/example/taskmanager/service/TaskService.java:136-140 | a hit returns the stored list and leaves the state alone; a miss returns the fresh list and stores it; a failure stores nothing |
| TaskServiceProperties.GuardFacts | src/main/java/com/example/taskmanager/service/TaskService.java:149-151 | admins and owners pass; a regular user never passes on another user's task; the enabled flag is not consulted |
| TaskServiceProperties.GuardDependsOnOwnerAndActorOnly | src/main/java/com/example/taskmanager/service/TaskService.java:150 | the guard depends only on the owner id and the actor's id and role |
| TaskServiceProperties.UpdateAndDeleteOrderErrorsDifferently | src/main/java/com/example/taskmanager/service/TaskService.java:55-90 | with both the task and the user missing, update reports `TaskNotFound` and delete reports `UserNotFound` |
| TaskServiceProperties.GuardBeforeStatusParse | src/main/java/com/example/taskmanager/service/TaskService.java:58-69 | an unauthorized actor with a bogus status string gets `Unauthorized`, not `InvalidStatus` |
| TaskServiceProperties.FromEntityRoundTrip | src/main/java/com/example/taskmanager/dto/TaskUpdateDto.java:12-18 | applying the form built from a task gives the task back |
| TaskServiceProperties.NoChangesIsIdentity | src/main/java/com/example/taskmanager/dto/TaskUpdateDto.java:8-10 | an all-absent form leaves the task unchanged |
| TaskServiceProperties.IdentityUpdateKeepsStore | src/main/java/com/example/taskmanager/service/TaskService.java:55-72 | an authorized update whose form reproduces the task succeeds, returns the task and leaves the store as it was |
| TaskServiceProperties.FromEntityUpdateIsNoOp | src/main/java/com/example/taskmanager/service/TaskService.java:62-72 | an authorized update with the task's own form leaves the store as it was |
| TaskServiceProperties.EmptyUpdateIsNoOp | src/main/java/com/example/taskmanager/service/TaskService.java:62-72 | an authorized update with an all-absent form leaves the store as it was |
| TaskServiceProperties.StatusOnlyUpdate | src/main/java/com/example/taskmanager/service/TaskService.java:62-70 | updating only the status sets it and keeps the title, description and owner |
| TaskServiceProperties.UpdatedTaskIsFound | src/main/java/com/example/taskmanager/service/TaskService.java:51-76 | after a successful update, `findTaskById` of the task's id yields the updated task, and of every other id yields what it did before |
| TaskServiceProperties.CreatePreservesWf | src/main/java/com/example/taskmanager/service/TaskService.java:39-45 | creating keeps task ids distinct and creation order strictly increasing |
| TaskServiceProperties.UpdatePreservesWf | src/main/java/com/example/taskmanager/service/TaskService.java:62-72 | updating keeps the store well formed |
| TaskServiceProperties.DeletePreservesWf | src/main/java/com/example/taskmanager/service/TaskService.java:82-84 | deleting keeps the store well formed |
| TaskServiceProperties.DeleteRemovesExactlyTheTask | src/main/java/com/example/taskmanager/service/TaskService.java:82-84 | a successful delete removes exactly the task found under the id |
| TaskServiceProperties.UserTasksAreReverseCreationOrder | src/main/java/com/example/taskmanager/service/TaskService.java:104-107 | in a well-formed state, a user's list is their tasks in reverse creation order |
| TaskServiceProperties.CreatedTaskComesFirst | src/main/java/com/example/taskmanager/service/TaskService.java:34-48 | after a create, the creator's list is the new task followed by the previous list |
| TaskServiceProperties.Mutate | src/main/java/com/example/taskmanager/service/TaskService.java:33-86 | a successful create, update or delete never changes the user registry |
| TaskServiceProperties.MutationEvictsOnlyActor | src/main/java/com/example/taskmanager/service/TaskService.java:33-78 | a successful mutation drops the actor's entry and keeps every other entry unchanged |
| TaskServiceProperties.MutationResolvesActor | src/main/java/com/example/taskmanager/service/TaskService.java:37-89 | a mutation succeeds only for an actor who resolves |
| TaskServiceProperties.NoStaleReadForActor | src/main/java/com/example/taskmanager/service/TaskService.java:136-140 | after the actor's own successful mutation, the actor's next cached read equals a fresh `findUserTasks` |
| TaskServiceProperties.MutationPreservesWf | src/main/java/com/example/taskmanager/service/TaskService.java:33-86 | every successful mutation keeps the store well formed |
| TaskServiceProperties.CachedReadIsOwn | src/main/java/com/example/taskmanager/service/TaskService.java:136-140 | requires `CacheScoped(st)`, that every cached list holds only tasks of a user with the key's name; then a cached read returns only such tasks for the reader's name and keeps the cache scoped |
| TaskServiceProperties.MutationPreservesCacheScoped | src/main/java/com/example/taskmanager/service/TaskService.java:33-78 | task mutations (create, update, delete) keep every cached list scoped to its key's user; registry changes do not, see `CacheOutlivesReregistration` |
| TaskServiceProperties.CreatedTaskIsVisibleInCache | src/main/java/com/example/taskmanager/service/TaskService.java:33-49 | after a create, the creator's next cached read contains the new task |
| TaskServiceProperties.DeletedTaskIsGoneFromCache | src/main/java/com/example/taskmanager/service/TaskService.java:78-86 | after a delete, the deleter's next cached read contains no task with that id |
| TaskServiceProperties.AdminUpdateLeavesOwnerCacheStale | src/main/java/com/example/taskmanager/service/TaskService.java:51-52 | after an admin retitles bob's task, the store holds the new title while bob's cached read still returns the old task |
| TaskServiceProperties.CacheHitOutlivesUser | src/main/java/com/example/taskmanager/service/TaskService.java:136-140 | a cached entry is served even when no user has that name, while the uncached read fails |
| TaskServiceProperties.CacheOutlivesReregistration | src/main/java/com/example/taskmanager/service/UserService.java:90-94 | on a concrete state: bob's list is cached, an admin deletes bob's only task (evicting only the admin's entry), bob is deleted and "bob" registered again (new id 3); the new account is served the old task, the uncached read returns nothing, and the cache is no longer scoped |
| DashboardController.TallyFromCounts | src/main/java/com/example/taskmanager/controller/web/DashboardController.java:27-28 | the grouping fold adds each status's number of occurrences and creates a key only for statuses that occur |
| DashboardController.GroupByStatus | src/main/java/com/example/taskmanager/controller/web/DashboardController.java:27-28 | each status's `getOrDefault(s, 0)` is the number of tasks with it, and a status has a key exactly when some task has it |
| DashboardController.GroupByStatusCounts | src/main/java/com/example/taskmanager/controller/web/DashboardController.java:27-28 | each status's grouped count (default 0) is the number of tasks with it |
| DashboardController.Dashboard | src/main/java/com/example/taskmanager/controller/web/DashboardController.java:22-36 | the shown list is the user's `findUserTasks` list, and the pending, in-progress and completed counts count those statuses in that same list |
| DashboardController.StatusCountsPartition | src/main/java/com/example/taskmanager/model/TaskStatus.java:7-10 | the four per-status counts add up to the list length |
| DashboardController.ShownCountsAddUp | src/main/java/com/example/taskmanager/controller/web/DashboardController.java:27-33 | the three shown counts add up to the list length minus the cancelled tasks, and an absent status shows 0 |

## Left out

- `findAllTasksAsync` is not modelled. It is `@Async` and returns a `CompletableFuture`; its value is `FindAllTasks`. Thread pools, futures and concurrent cache access are not modelled: the model is sequential.
- Authentication, JWT handling, the security filter chain, CORS and CSRF are not modelled. Neither are `@PreAuthorize` role gates, HTTP controllers, views, the exception-to-HTTP mapping, configuration, mappers and the other DTOs. The dashboard is modelled only for its status counting.
- Password hashing is not modelled. The encoder is the uninterpreted parameter `encode`.
- The `Task` and `User` entity classes are not part of this model. Their fields are inferred from how the services, mappers and queries use them. The default of `enabled` for a newly registered user is one of those unknowns. It is the constant `NewUserEnabled`, and no contract depends on it.
- JPA id generation is not modelled. Task ids and creation stamps both come from the creation counter. User ids come from the registry's own counter.
- Tie-breaking among equal `createdAt` values is not modelled. The counter makes stamps distinct, and `NewestFirstIsReverseCreation` shows that the order then does not depend on ties.
- SQL `LIKE` wildcards inside the search term, and database collation and case rules, are not modelled. Title search is plain substring containment.
- What `deleteUser` does to the deleted user's tasks depends on entity mappings that are not part of this model. `DeleteUser` acts on the user registry only.
- Exception messages and logging are not modelled. The one exception is that `UserAlreadyExists` records which check failed (`UsernameTaken` or `EmailTaken`), because the two messages are the only way to tell the two checks apart.
- Java `long` counts are unbounded naturals here, because overflow needs more than 2^63 rows.
- Negative ids are not modelled. Task and user ids are naturals. A negative `Long` id matches no stored row, so in the source it ends in `TaskNotFound` or `UserNotFound`, which is what the absent-id branches here return.
- `CacheScoped` is proved to survive task mutations only. `deleteUser` evicts nothing and `registerUser` accepts the freed name, so a registry change can break it (`CacheOutlivesReregistration`). The model has no state-level user operations; that lemma applies them to the registry field directly.
- Null strings are not modelled. The optional fields of the update form are `Option`s, and every other string is present.
- UserService.FindAllUsers, UserService.GetUserCount, TaskService.FindAllTasks: these return the stored sequence or its length. They carry no contract of their own, and `CountsAddUp` constrains `GetUserCount`.
