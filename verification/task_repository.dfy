/** The declared queries of the task repository, as pure functions over the
    sequence of stored tasks (kept in creation order), plus the writes the
    services perform through `save` and `delete`. */
module TaskRepository {
  import opened Wrappers
  import opened Seqs
  import opened Entities

  function WithId(id: nat): Task -> bool {
    (t: Task) => t.id == id
  }

  function WithoutId(id: nat): Task -> bool {
    (t: Task) => t.id != id
  }

  function OwnedBy(user: User): Task -> bool {
    (t: Task) => t.ownerId == user.id
  }

  function WithStatus(s: TaskStatus): Task -> bool {
    (t: Task) => t.status == s
  }

  function OwnedWithStatus(user: User, s: TaskStatus): Task -> bool {
    (t: Task) => t.ownerId == user.id && t.status == s
  }

  function OwnedWithTitle(user: User, fragment: string): Task -> bool {
    (t: Task) => t.ownerId == user.id && Contains(t.title, fragment)
  }

  function CreatedAt(t: Task): int {
    t.createdAt
  }

  /** `fragment` occurs in `text` as a contiguous substring (`LIKE %fragment%`). */
  predicate Contains(text: string, fragment: string) {
    exists i | 0 <= i <= |text| - |fragment| :: OccursAt(text, fragment, i)
  }

  /** `fragment` occurs in `text` starting at position `i`. */
  predicate OccursAt(text: string, fragment: string, i: int) {
    0 <= i && i + |fragment| <= |text| && text[i..i + |fragment|] == fragment
  }

  /** What the store keeps true: every id and creation stamp was drawn from the
      counter below `clock`, ids are distinct, and the sequence lists the tasks in
      strictly increasing creation order. */
  ghost predicate StoreWf(tasks: seq<Task>, clock: nat) {
    && (forall i :: 0 <= i < |tasks| ==> tasks[i].id < clock && tasks[i].createdAt < clock)
    && (forall i, j :: 0 <= i < j < |tasks| ==> tasks[i].id != tasks[j].id)
    && StrictlyAsc(tasks, CreatedAt)
  }

  function FindById(tasks: seq<Task>, id: nat): (r: Option<Task>)
    ensures r.Some? ==> r.value in tasks && r.value.id == id
    ensures r.None? <==> forall t :: t in tasks ==> t.id != id
  {
    FindFirst(tasks, WithId(id))
  }

  function FindByUser(tasks: seq<Task>, user: User): (r: seq<Task>)
    ensures forall t :: t in r <==> t in tasks && t.ownerId == user.id
  {
    Filter(tasks, OwnedBy(user))
  }

  /** The user's tasks, newest first. */
  function FindByUserOrderByCreatedAtDesc(tasks: seq<Task>, user: User): (r: seq<Task>)
    ensures forall t :: t in r <==> t in tasks && t.ownerId == user.id
    ensures multiset(r) == multiset(FindByUser(tasks, user))
    ensures SortedDesc(r, CreatedAt)
  {
    SortDesc(FindByUser(tasks, user), CreatedAt)
  }

  function FindByStatus(tasks: seq<Task>, s: TaskStatus): (r: seq<Task>)
    ensures forall t :: t in r <==> t in tasks && t.status == s
  {
    Filter(tasks, WithStatus(s))
  }

  function FindByUserAndStatus(tasks: seq<Task>, user: User, s: TaskStatus): (r: seq<Task>)
    ensures forall t :: t in r <==> t in tasks && t.ownerId == user.id && t.status == s
  {
    Filter(tasks, OwnedWithStatus(user, s))
  }

  /** Title search; SQL wildcards inside `fragment` are not interpreted. */
  function FindByUserAndTitleContaining(tasks: seq<Task>, user: User, fragment: string): (r: seq<Task>)
    ensures forall t :: t in r <==> t in tasks && t.ownerId == user.id && Contains(t.title, fragment)
  {
    Filter(tasks, OwnedWithTitle(user, fragment))
  }

  /** `COUNT` of the user's tasks with the status: the size of `FindByUserAndStatus`. */
  function CountByUserAndStatus(tasks: seq<Task>, user: User, s: TaskStatus): (n: nat)
    ensures n == |FindByUserAndStatus(tasks, user, s)|
  {
    CountIsFilterLength(tasks, OwnedWithStatus(user, s));
    Count(tasks, OwnedWithStatus(user, s))
  }

  /** `COUNT` of all tasks with the status: the size of `FindByStatus`. */
  function CountByStatus(tasks: seq<Task>, s: TaskStatus): (n: nat)
    ensures n == |FindByStatus(tasks, s)|
  {
    CountIsFilterLength(tasks, WithStatus(s));
    Count(tasks, WithStatus(s))
  }

  /** `save` of an entity that already has an id: the row with that id takes
      the new value in place. Afterwards the store holds `t` exactly when its id
      was stored, and otherwise exactly the tasks with other ids. */
  function Replace(tasks: seq<Task>, t: Task): (r: seq<Task>)
    ensures |r| == |tasks|
    ensures forall i :: 0 <= i < |tasks| ==> r[i] == (if tasks[i].id == t.id then t else tasks[i])
    ensures forall x :: x in r <==>
      (x == t && exists u :: u in tasks && u.id == t.id) || (x in tasks && x.id != t.id)
  {
    seq(|tasks|, i requires 0 <= i < |tasks| => if tasks[i].id == t.id then t else tasks[i])
  }

  /** `delete`: every row with the id disappears. */
  function DeleteById(tasks: seq<Task>, id: nat): (r: seq<Task>)
    ensures forall t :: t in r <==> t in tasks && t.id != id
  {
    Filter(tasks, WithoutId(id))
  }

  /** With creation-ordered storage, newest-first is the reverse of storage
      order restricted to the user; being strictly ordered, the answer does not
      depend on how a sort breaks ties. */
  lemma NewestFirstIsReverseCreation(tasks: seq<Task>, user: User)
    requires StrictlyAsc(tasks, CreatedAt)
    ensures FindByUserOrderByCreatedAtDesc(tasks, user) == Reverse(FindByUser(tasks, user))
  {
    var mine := FindByUser(tasks, user);
    FilterStrictlyAsc(tasks, OwnedBy(user), CreatedAt);
    ReverseStrictlyAsc(mine, CreatedAt);
    ReverseMultiset(mine);
    SortedUnique(FindByUserOrderByCreatedAtDesc(tasks, user), Reverse(mine), CreatedAt);
  }

  /** Deleting a stored id from a well-formed store removes exactly that one task. */
  lemma DeleteRemovesExactlyOne(tasks: seq<Task>, clock: nat, t: Task)
    requires StoreWf(tasks, clock)
    requires t in tasks
    ensures multiset(DeleteById(tasks, t.id)) + multiset{t} == multiset(tasks)
    ensures |DeleteById(tasks, t.id)| == |tasks| - 1
  {
    var k :| 0 <= k < |tasks| && tasks[k] == t;
    forall i | 0 <= i < |tasks| && i != k ensures WithoutId(t.id)(tasks[i]) {
      if tasks[i].id == t.id {
        IdPinsPosition(tasks, clock, i, k);
      }
    }
    FilterDropsOne(tasks, WithoutId(t.id), k);
  }

  /** Deleting keeps the store well formed. */
  lemma DeletePreservesWf(tasks: seq<Task>, clock: nat, id: nat)
    requires StoreWf(tasks, clock)
    ensures StoreWf(DeleteById(tasks, id), clock)
  {
    var r := DeleteById(tasks, id);
    var distinct := (a: Task, b: Task) => a.id != b.id;
    assert Pairwise(tasks, distinct);
    FilterPairwise(tasks, WithoutId(id), distinct);
    assert forall i, j :: 0 <= i < j < |r| ==> distinct(r[i], r[j]);
    FilterStrictlyAsc(tasks, WithoutId(id), CreatedAt);
    forall i | 0 <= i < |r| ensures r[i].id < clock && r[i].createdAt < clock {
      assert r[i] in tasks;
    }
  }

  /** Replacing a task by one with the same id and creation stamp keeps the store well formed. */
  lemma ReplacePreservesWf(tasks: seq<Task>, clock: nat, old_t: Task, t: Task)
    requires StoreWf(tasks, clock)
    requires old_t in tasks && t.id == old_t.id && t.createdAt == old_t.createdAt
    ensures StoreWf(Replace(tasks, t), clock)
  {
    var r := Replace(tasks, t);
    assert forall i :: 0 <= i < |tasks| ==> r[i].id == tasks[i].id && r[i].createdAt == tasks[i].createdAt by {
      forall i | 0 <= i < |tasks| ensures r[i].id == tasks[i].id && r[i].createdAt == tasks[i].createdAt {
        if tasks[i].id == t.id {
          var k :| 0 <= k < |tasks| && tasks[k] == old_t;
          IdPinsPosition(tasks, clock, i, k);
        }
      }
    }
  }

  /** Read after write: after saving `t` over the stored task with its id, the
      lookup under that id yields `t`, and the lookup under every other id yields
      what it yielded before. */
  lemma ReplaceThenFind(tasks: seq<Task>, t: Task, id: nat)
    requires exists u :: u in tasks && u.id == t.id
    ensures FindById(Replace(tasks, t), t.id) == Some(t)
    ensures id != t.id ==> FindById(Replace(tasks, t), id) == FindById(tasks, id)
  {
    var r := Replace(tasks, t);
    if id != t.id {
      FindFirstAgree(r, tasks, WithId(id));
    }
  }

  /** Replacing a stored task by itself changes nothing. */
  lemma ReplaceWithSameIsIdentity(tasks: seq<Task>, clock: nat, t: Task)
    requires StoreWf(tasks, clock)
    requires t in tasks
    ensures Replace(tasks, t) == tasks
  {
    var k :| 0 <= k < |tasks| && tasks[k] == t;
    var r := Replace(tasks, t);
    forall i | 0 <= i < |tasks| ensures r[i] == tasks[i] {
      if tasks[i].id == t.id {
        IdPinsPosition(tasks, clock, i, k);
      }
    }
  }

  /** Appending a task stamped with the counter keeps the store well formed. */
  lemma AppendPreservesWf(tasks: seq<Task>, clock: nat, t: Task)
    requires StoreWf(tasks, clock)
    requires t.id == clock && t.createdAt == clock
    ensures StoreWf(tasks + [t], clock + 1)
  {
  }

  /** In a well-formed store an id determines its position. */
  lemma IdPinsPosition(tasks: seq<Task>, clock: nat, i: int, k: int)
    requires StoreWf(tasks, clock)
    requires 0 <= i < |tasks| && 0 <= k < |tasks| && tasks[i].id == tasks[k].id
    ensures i == k
  {
  }

  /** In a well-formed store the lookup yields THE task with that id. */
  lemma FindByIdUnique(tasks: seq<Task>, clock: nat, t: Task)
    requires StoreWf(tasks, clock)
    requires t in tasks
    ensures FindById(tasks, t.id) == Some(t)
  {
    var v := FindById(tasks, t.id).value;
    var i :| 0 <= i < |tasks| && tasks[i] == t;
    var j :| 0 <= j < |tasks| && tasks[j] == v;
    IdPinsPosition(tasks, clock, i, j);
  }
}
