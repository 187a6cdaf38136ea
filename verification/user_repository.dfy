/** The declared queries of the user repository, as pure functions over the
    sequence of stored users. */
module UserRepository {
  import opened Wrappers
  import opened Seqs
  import opened Entities
  import Roles

  function WithUsername(name: string): User -> bool {
    (u: User) => u.username == name
  }

  function WithEmail(email: string): User -> bool {
    (u: User) => u.email == email
  }

  function WithId(id: nat): User -> bool {
    (u: User) => u.id == id
  }

  function WithoutId(id: nat): User -> bool {
    (u: User) => u.id != id
  }

  function WithRole(r: Roles.Role): User -> bool {
    (u: User) => u.role == r
  }

  function IsEnabled(): User -> bool {
    (u: User) => u.enabled
  }

  /** No two stored users share an id, a username or an email. */
  ghost predicate Unique(users: seq<User>) {
    forall i, j :: 0 <= i < j < |users| ==>
      users[i].id != users[j].id
      && users[i].username != users[j].username
      && users[i].email != users[j].email
  }

  function FindById(users: seq<User>, id: nat): (r: Option<User>)
    ensures r.Some? ==> r.value in users && r.value.id == id
    ensures r.None? <==> forall u :: u in users ==> u.id != id
  {
    FindFirst(users, WithId(id))
  }

  function FindByUsername(users: seq<User>, name: string): (r: Option<User>)
    ensures r.Some? ==> r.value in users && r.value.username == name
    ensures r.None? <==> forall u :: u in users ==> u.username != name
  {
    FindFirst(users, WithUsername(name))
  }

  function FindByEmail(users: seq<User>, email: string): (r: Option<User>)
    ensures r.Some? ==> r.value in users && r.value.email == email
    ensures r.None? <==> forall u :: u in users ==> u.email != email
  {
    FindFirst(users, WithEmail(email))
  }

  /** `existsByUsername`: answered by its own query, it agrees with `findByUsername`. */
  function ExistsByUsername(users: seq<User>, name: string): (b: bool)
    ensures b <==> FindByUsername(users, name).Some?
  {
    exists u :: u in users && u.username == name
  }

  /** `existsByEmail`: answered by its own query, it agrees with `findByEmail`. */
  function ExistsByEmail(users: seq<User>, email: string): (b: bool)
    ensures b <==> FindByEmail(users, email).Some?
  {
    exists u :: u in users && u.email == email
  }

  function FindByRole(users: seq<User>, r: Roles.Role): (res: seq<User>)
    ensures forall u :: u in res <==> u in users && u.role == r
  {
    Filter(users, WithRole(r))
  }

  /** Users whose `enabled` flag is set. */
  function FindAllActiveUsers(users: seq<User>): (res: seq<User>)
    ensures forall u :: u in res <==> u in users && u.enabled
  {
    Filter(users, IsEnabled())
  }

  /** `COUNT` over users with the role: the size of `FindByRole`. */
  function CountByRole(users: seq<User>, r: Roles.Role): (n: nat)
    ensures n == |FindByRole(users, r)|
  {
    CountIsFilterLength(users, WithRole(r));
    Count(users, WithRole(r))
  }

  /** `existsByUsername` and `findByUsername` agree. */
  lemma ExistsByUsernameIffFound(users: seq<User>, name: string)
    ensures ExistsByUsername(users, name) <==> FindByUsername(users, name).Some?
  {
  }

  /** `existsByEmail` and `findByEmail` agree. */
  lemma ExistsByEmailIffFound(users: seq<User>, email: string)
    ensures ExistsByEmail(users, email) <==> FindByEmail(users, email).Some?
  {
  }

  /** With unique usernames, the lookup yields THE user of that name. */
  lemma FindByUsernameUnique(users: seq<User>, name: string, u: User)
    requires Unique(users)
    requires u in users && u.username == name
    ensures FindByUsername(users, name) == Some(u)
  {
    var v := FindByUsername(users, name).value;
    var i :| 0 <= i < |users| && users[i] == u;
    var j :| 0 <= j < |users| && users[j] == v;
    assert i == j by {
      assert users[i].username == users[j].username;
    }
  }

  /** With unique ids, the lookup yields THE user with that id. */
  lemma FindByIdUnique(users: seq<User>, id: nat, u: User)
    requires Unique(users)
    requires u in users && u.id == id
    ensures FindById(users, id) == Some(u)
  {
    var v := FindById(users, id).value;
    var i :| 0 <= i < |users| && users[i] == u;
    var j :| 0 <= j < |users| && users[j] == v;
    assert i == j by {
      assert users[i].id == users[j].id;
    }
  }

  /** Every user is either a regular user or an admin, so the two role counts add up. */
  lemma {:induction false} RoleCountsPartition(users: seq<User>)
    ensures CountByRole(users, Roles.User) + CountByRole(users, Roles.Admin) == |users|
  {
    RoleCountsPartitionRec(users);
    CountIsFilterLength(users, WithRole(Roles.User));
    CountIsFilterLength(users, WithRole(Roles.Admin));
  }

  lemma {:induction false} RoleCountsPartitionRec(users: seq<User>)
    ensures Count(users, WithRole(Roles.User)) + Count(users, WithRole(Roles.Admin)) == |users|
  {
    if |users| > 0 {
      RoleCountsPartitionRec(users[1..]);
    }
  }

  /** Among unique users an id determines its position. */
  lemma IdPinsPosition(users: seq<User>, i: int, k: int)
    requires Unique(users)
    requires 0 <= i < |users| && 0 <= k < |users| && users[i].id == users[k].id
    ensures i == k
  {
  }
}
