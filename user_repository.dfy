/** The user table and the lookups the services make in it (`findByUsername`,
    `existsByUsername`, `existsByEmail`, and `findById` inherited from JPA). */
module UserRepository {
  import opened Util
  import opened Domain

  /** No two rows share an id (the primary key). */
  ghost predicate UniqueIds(users: seq<User>) {
    forall i, j :: 0 <= i < j < |users| ==> users[i].id != users[j].id
  }

  /** No two accounts share a username or an email: what registration maintains. */
  ghost predicate UniqueAccounts(users: seq<User>) {
    forall i, j :: 0 <= i < j < |users| ==>
      users[i].username != users[j].username && users[i].email != users[j].email
  }

  /** `findByUsername(name)`: an account with this username, if any. */
  function FindByUsername(users: seq<User>, name: string): (r: Option<User>)
    ensures r.Some? ==> r.value in users && r.value.username == name
    ensures r.None? <==> forall u :: u in users ==> u.username != name
  {
    FindFirst(users, (u: User) => u.username == name)
  }

  /** With unique usernames the lookup returns exactly the stored account. */
  lemma FindByUsernameOfStored(users: seq<User>, u: User)
    requires UniqueAccounts(users) && u in users
    ensures FindByUsername(users, u.username) == Some(u)
  {
    var r := FindByUsername(users, u.username);
    var i :| 0 <= i < |users| && users[i] == r.value;
    var j :| 0 <= j < |users| && users[j] == u;
    assert !(i < j) && !(j < i);
  }

  /** `findById(id)`: the account with this id, if any. */
  function FindById(users: seq<User>, id: nat): (r: Option<User>)
    ensures r.Some? ==> r.value in users && r.value.id == id
    ensures r.None? <==> forall u :: u in users ==> u.id != id
  {
    FindFirst(users, (u: User) => u.id == id)
  }

  lemma FindByIdOfStored(users: seq<User>, u: User)
    requires UniqueIds(users) && u in users
    ensures FindById(users, u.id) == Some(u)
  {
    var r := FindById(users, u.id);
    var i :| 0 <= i < |users| && users[i] == r.value;
    var j :| 0 <= j < |users| && users[j] == u;
    assert !(i < j) && !(j < i);
  }

  /** `existsByUsername(name)`. */
  function ExistsByUsername(users: seq<User>, name: string): (r: bool)
    ensures r <==> exists u :: u in users && u.username == name
  {
    FindByUsername(users, name).Some?
  }

  /** `existsByEmail(email)`. */
  function ExistsByEmail(users: seq<User>, email: string): (r: bool)
    ensures r <==> exists u :: u in users && u.email == email
  {
    FindFirst(users, (u: User) => u.email == email).Some?
  }

  /** Appending an account whose username and email are both unused keeps every
      username and every email unique. */
  lemma AddingFreshAccountKeepsUnique(users: seq<User>, u: User)
    requires UniqueAccounts(users)
    requires !ExistsByUsername(users, u.username) && !ExistsByEmail(users, u.email)
    ensures UniqueAccounts(users + [u])
  {
    var s := users + [u];
    forall i, j | 0 <= i < j < |s|
      ensures s[i].username != s[j].username && s[i].email != s[j].email
    {
      if j == |users| {
        assert s[i] in users;
      }
    }
  }

  /** The user table. Ids come from an identity counter. */
  class UserStore {
    var users: seq<User>
    var nextId: nat

    ghost predicate Valid()
      reads this
    {
      UniqueIds(users) && forall i :: 0 <= i < |users| ==> users[i].id < nextId
    }

    constructor ()
      ensures Valid() && users == [] && nextId == 1
    {
      users := [];
      nextId := 1;
    }

    /** `save` of a new account: it gets the next id and is appended. */
    method Insert(username: string, password: string, email: string, role: Role) returns (saved: User)
      requires Valid()
      modifies this
      ensures Valid()
      ensures saved == User(old(nextId), username, password, email, role)
      ensures users == old(users) + [saved] && nextId == old(nextId) + 1
    {
      saved := User(nextId, username, password, email, role);
      users := users + [saved];
      nextId := nextId + 1;
    }
  }
}
