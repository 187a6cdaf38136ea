/** The user registry: registration with its two uniqueness checks, lookups,
    role change, deletion, counts and availability checks. */
module UserService {
  import opened Wrappers
  import opened Seqs
  import opened Entities
  import Roles
  import UserRepository

  /** The stored users and the next id the store will hand out. */
  datatype Registry = Registry(users: seq<User>, nextId: nat)

  /** The registration form: desired username, raw password, email. */
  datatype Registration = Registration(username: string, password: string, email: string)

  /** Enabled flag a freshly saved user carries; the entity's default is not part of this model. */
  const NewUserEnabled: bool := true

  /** Ids come from the counter and are distinct; usernames and emails are distinct. */
  ghost predicate RegistryWf(reg: Registry) {
    && UserRepository.Unique(reg.users)
    && forall i :: 0 <= i < |reg.users| ==> reg.users[i].id < reg.nextId
  }

  /** Spring Security's lookup; a miss is `UsernameNotFoundException`. */
  function LoadUserByUsername(reg: Registry, name: string): (r: Result<User, Error>)
    ensures r.Success? <==> UserRepository.ExistsByUsername(reg.users, name)
    ensures r.Success? ==> r.value in reg.users && r.value.username == name
    ensures r.Failure? ==> r.error == UsernameNotFound
  {
    OrElse(UserRepository.FindByUsername(reg.users, name), UsernameNotFound)
  }

  /** The service's own lookup; a miss is `UserNotFound`. */
  function FindByUsername(reg: Registry, name: string): (r: Result<User, Error>)
    ensures r.Success? <==> UserRepository.ExistsByUsername(reg.users, name)
    ensures r.Success? ==> r.value in reg.users && r.value.username == name
    ensures r.Failure? ==> r.error == UserNotFound
  {
    OrElse(UserRepository.FindByUsername(reg.users, name), UserNotFound)
  }

  function FindById(reg: Registry, id: nat): (r: Result<User, Error>)
    ensures r.Success? <==> exists u :: u in reg.users && u.id == id
    ensures r.Success? ==> r.value in reg.users && r.value.id == id
    ensures r.Failure? ==> r.error == UserNotFound
  {
    OrElse(UserRepository.FindById(reg.users, id), UserNotFound)
  }

  /** Registers a new account: the username is checked before the email; on
      success one user is appended with role USER and the encoded password.
      `encode` is the password encoder, left uninterpreted. */
  function RegisterUser(reg: Registry, dto: Registration, encode: string -> string): (r: Result<(Registry, User), Error>)
    ensures UserRepository.ExistsByUsername(reg.users, dto.username) ==>
      r == Failure(UserAlreadyExists(UsernameTaken))
    ensures !UserRepository.ExistsByUsername(reg.users, dto.username)
            && UserRepository.ExistsByEmail(reg.users, dto.email) ==>
      r == Failure(UserAlreadyExists(EmailTaken))
    ensures r.Success? <==>
      !UserRepository.ExistsByUsername(reg.users, dto.username)
      && !UserRepository.ExistsByEmail(reg.users, dto.email)
    ensures r.Success? ==>
      var (reg', u) := r.value;
      && u.username == dto.username
      && u.email == dto.email
      && u.password == encode(dto.password)
      && u.role == Roles.User
      && multiset(reg'.users) == multiset(reg.users) + multiset{u}
  {
    if UserRepository.ExistsByUsername(reg.users, dto.username) then
      Failure(UserAlreadyExists(UsernameTaken))
    else if UserRepository.ExistsByEmail(reg.users, dto.email) then
      Failure(UserAlreadyExists(EmailTaken))
    else
      var u := User(reg.nextId, dto.username, dto.email, encode(dto.password), Roles.User, NewUserEnabled);
      Success((Registry(reg.users + [u], reg.nextId + 1), u))
  }

  /** Sets the role of the user with that id; no other user and no other field changes. */
  function UpdateUserRole(reg: Registry, id: nat, role: Roles.Role): (r: Result<(Registry, User), Error>)
    ensures r.Failure? <==> forall u :: u in reg.users ==> u.id != id
    ensures r.Failure? ==> r.error == UserNotFound
    ensures r.Success? ==>
      var (reg', u) := r.value;
      && u.id == id && u.role == role
      && (exists v :: v in reg.users && v.id == id && u == v.(role := role))
      && u in reg'.users
      && reg'.nextId == reg.nextId
      && |reg'.users| == |reg.users|
      && forall i :: 0 <= i < |reg.users| ==>
           reg'.users[i] == (if reg.users[i].id == id then reg.users[i].(role := role) else reg.users[i])
  {
    var found :- FindById(reg, id);
    var updated := found.(role := role);
    var users := seq(|reg.users|, i requires 0 <= i < |reg.users| =>
      if reg.users[i].id == id then reg.users[i].(role := role) else reg.users[i]);
    assert updated in users by {
      var k :| 0 <= k < |reg.users| && reg.users[k] == found;
      assert users[k] == updated;
    }
    Success((Registry(users, reg.nextId), updated))
  }

  /** Removes the user with that id; a missing id is `UserNotFound`. */
  function DeleteUser(reg: Registry, id: nat): (r: Result<Registry, Error>)
    ensures r.Failure? <==> forall u :: u in reg.users ==> u.id != id
    ensures r.Failure? ==> r.error == UserNotFound
    ensures r.Success? ==>
      && r.value.nextId == reg.nextId
      && forall u :: u in r.value.users <==> u in reg.users && u.id != id
  {
    var found :- FindById(reg, id);
    Success(Registry(Filter(reg.users, UserRepository.WithoutId(id)), reg.nextId))
  }

  function FindAllUsers(reg: Registry): seq<User> {
    reg.users
  }

  function FindActiveUsers(reg: Registry): (r: seq<User>)
    ensures forall u :: u in r <==> u in reg.users && u.enabled
  {
    UserRepository.FindAllActiveUsers(reg.users)
  }

  function GetUserCount(reg: Registry): nat {
    |reg.users|
  }

  function GetAdminCount(reg: Registry): (n: nat)
    ensures n == |UserRepository.FindByRole(reg.users, Roles.Admin)|
  {
    UserRepository.CountByRole(reg.users, Roles.Admin)
  }

  function GetRegularUserCount(reg: Registry): (n: nat)
    ensures n == |UserRepository.FindByRole(reg.users, Roles.User)|
  {
    UserRepository.CountByRole(reg.users, Roles.User)
  }

  /** A name is available exactly when the service lookup under it fails. */
  function IsUsernameAvailable(reg: Registry, name: string): (ok: bool)
    ensures ok <==> FindByUsername(reg, name) == Failure(UserNotFound)
  {
    !UserRepository.ExistsByUsername(reg.users, name)
  }

  /** An email is available exactly when the email lookup finds nobody. */
  function IsEmailAvailable(reg: Registry, email: string): (ok: bool)
    ensures ok <==> UserRepository.FindByEmail(reg.users, email).None?
  {
    !UserRepository.ExistsByEmail(reg.users, email)
  }

  /** A name is available exactly when no stored user has it; likewise an email. */
  lemma AvailabilityMeansUnused(reg: Registry, name: string, email: string)
    ensures IsUsernameAvailable(reg, name) <==> forall u :: u in reg.users ==> u.username != name
    ensures IsEmailAvailable(reg, email) <==> forall u :: u in reg.users ==> u.email != email
  {
  }

  /** Registration succeeds exactly when both availability checks pass. */
  lemma RegisterIffAvailable(reg: Registry, dto: Registration, encode: string -> string)
    ensures RegisterUser(reg, dto, encode).Success? <==>
      IsUsernameAvailable(reg, dto.username) && IsEmailAvailable(reg, dto.email)
  {
  }

  /** After a successful registration the new user is found under its username. */
  lemma RegisteredUserIsFound(reg: Registry, dto: Registration, encode: string -> string)
    requires RegistryWf(reg)
    requires RegisterUser(reg, dto, encode).Success?
    ensures var (reg', u) := RegisterUser(reg, dto, encode).value;
      FindByUsername(reg', dto.username) == Success(u)
      && !IsUsernameAvailable(reg', dto.username)
      && !IsEmailAvailable(reg', dto.email)
  {
    var (reg', u) := RegisterUser(reg, dto, encode).value;
    RegisterPreservesWf(reg, dto, encode);
    UserRepository.FindByUsernameUnique(reg'.users, dto.username, u);
  }

  /** The admin and regular-user counts add up to the user count. */
  lemma CountsAddUp(reg: Registry)
    ensures GetAdminCount(reg) + GetRegularUserCount(reg) == GetUserCount(reg)
  {
    UserRepository.RoleCountsPartition(reg.users);
  }

  /** Registration keeps the registry well formed and hands out a fresh id. */
  lemma RegisterPreservesWf(reg: Registry, dto: Registration, encode: string -> string)
    requires RegistryWf(reg)
    requires RegisterUser(reg, dto, encode).Success?
    ensures RegistryWf(RegisterUser(reg, dto, encode).value.0)
    ensures forall v :: v in reg.users ==> v.id != RegisterUser(reg, dto, encode).value.1.id
  {
    var (reg', u) := RegisterUser(reg, dto, encode).value;
    assert reg'.users == reg.users + [u];
    forall i, j | 0 <= i < j < |reg'.users|
      ensures reg'.users[i].id != reg'.users[j].id
           && reg'.users[i].username != reg'.users[j].username
           && reg'.users[i].email != reg'.users[j].email
    {
      if j == |reg.users| {
        assert reg'.users[i] in reg.users;
      }
    }
  }

  lemma UpdateUserRolePreservesWf(reg: Registry, id: nat, role: Roles.Role)
    requires RegistryWf(reg)
    requires UpdateUserRole(reg, id, role).Success?
    ensures RegistryWf(UpdateUserRole(reg, id, role).value.0)
  {
  }

  lemma DeleteUserPreservesWf(reg: Registry, id: nat)
    requires RegistryWf(reg)
    requires DeleteUser(reg, id).Success?
    ensures RegistryWf(DeleteUser(reg, id).value)
  {
    var users := DeleteUser(reg, id).value.users;
    var distinct := (a: User, b: User) => a.id != b.id && a.username != b.username && a.email != b.email;
    assert Pairwise(reg.users, distinct);
    FilterPairwise(reg.users, UserRepository.WithoutId(id), distinct);
    assert forall i, j :: 0 <= i < j < |users| ==> distinct(users[i], users[j]);
    forall i | 0 <= i < |users| ensures users[i].id < reg.nextId {
      assert users[i] in reg.users;
    }
  }

  /** With unique ids, deletion removes exactly one user. */
  lemma DeleteUserRemovesExactlyOne(reg: Registry, id: nat)
    requires RegistryWf(reg)
    requires DeleteUser(reg, id).Success?
    ensures var u := FindById(reg, id).value;
      multiset(DeleteUser(reg, id).value.users) + multiset{u} == multiset(reg.users)
  {
    var u := FindById(reg, id).value;
    var k :| 0 <= k < |reg.users| && reg.users[k] == u;
    forall i | 0 <= i < |reg.users| && i != k ensures UserRepository.WithoutId(id)(reg.users[i]) {
      if reg.users[i].id == id {
        UserRepository.IdPinsPosition(reg.users, i, k);
      }
    }
    FilterDropsOne(reg.users, UserRepository.WithoutId(id), k);
  }
}
