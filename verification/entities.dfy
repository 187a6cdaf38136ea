/** The persistent entities and the typed errors the services raise.
    The entity classes themselves (Task.java, User.java) are not part of this
    model; their fields are the ones the services, mappers and queries use. */
module Entities {
  import TaskStatuses
  import Roles

  /** A registered account. `password` holds the encoder's output, never the raw secret. */
  datatype User = User(
    id: nat,
    username: string,
    email: string,
    password: string,
    role: Roles.Role,
    enabled: bool)

  /** A task. `ownerId` is the id of the owning user (the `user` association);
      `createdAt` is a creation counter standing for the creation timestamp. */
  datatype Task = Task(
    id: nat,
    title: string,
    description: string,
    status: TaskStatus,
    ownerId: nat,
    createdAt: nat)

  type TaskStatus = TaskStatuses.TaskStatus

  /** Which uniqueness check a registration failed. */
  datatype Clash = UsernameTaken | EmailTaken

  /** The exceptions the services throw, one constructor per kind:
      `UsernameNotFound` is Spring Security's `UsernameNotFoundException` (from
      `loadUserByUsername`), `UserNotFound` the service's own `UserNotFoundException`,
      and `InvalidStatus` the `IllegalArgumentException` of `TaskStatus.valueOf`. */
  datatype Error =
    | TaskNotFound
    | UserNotFound
    | UsernameNotFound
    | Unauthorized
    | InvalidStatus
    | UserAlreadyExists(clash: Clash)
}
