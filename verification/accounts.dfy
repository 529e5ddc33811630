/** The user store behind `UserRepository`: the derived queries
    `existsByEmail` and `findByEmail` compare emails exactly, and `save`
    gives a new user the next identity value. */
module Accounts {
  import opened Wrappers

  datatype Role = USER | ADMIN {
    /** `Enum.name()`, the text `AuthResponse` carries. */
    function Name(): (s: string)
      ensures s == "USER" || s == "ADMIN"
      ensures (s == "ADMIN") <==> this == ADMIN
    {
      match this
      case USER => "USER"
      case ADMIN => "ADMIN"
    }
  }

  /** A stored user; `password` is the encoded password. */
  datatype UserRecord = UserRecord(id: int, name: string, email: string, password: string, role: Role)

  /** The table, in insertion order, and the next identity value. */
  datatype Repository = Repository(users: seq<UserRecord>, nextId: int)

  /** `existsByEmail`. */
  predicate ExistsByEmail(repo: Repository, email: string)
  {
    exists i :: 0 <= i < |repo.users| && repo.users[i].email == email
  }

  /** The first user in `users` with this email. */
  function FindIn(users: seq<UserRecord>, email: string): (r: Option<UserRecord>)
    ensures r.Some? <==> exists i :: 0 <= i < |users| && users[i].email == email
    ensures r.Some? ==> r.value in users && r.value.email == email
  {
    if |users| == 0 then None
    else if users[0].email == email then Some(users[0])
    else
      var r := FindIn(users[1..], email);
      assert forall i :: 0 <= i < |users| - 1 ==> users[1..][i] == users[i + 1];
      r
  }

  /** `findByEmail`: present exactly when `existsByEmail` says so. */
  function FindByEmail(repo: Repository, email: string): (r: Option<UserRecord>)
    ensures r.Some? <==> ExistsByEmail(repo, email)
    ensures r.Some? ==> r.value in repo.users && r.value.email == email
  {
    FindIn(repo.users, email)
  }

  /** What the service relies on: one user per email, distinct ids below
      the next identity value. */
  ghost predicate Consistent(repo: Repository)
  {
    && (forall i, j :: 0 <= i < j < |repo.users| ==> repo.users[i].email != repo.users[j].email)
    && (forall i :: 0 <= i < |repo.users| ==> repo.users[i].id < repo.nextId)
    && (forall i, j :: 0 <= i < j < |repo.users| ==> repo.users[i].id != repo.users[j].id)
  }

  /** `save` of a new entity: it receives the next identity value and is
      appended; no stored user changes. */
  function Save(repo: Repository, name: string, email: string, password: string, role: Role): (r: (Repository, UserRecord))
    ensures r.1.id == repo.nextId && r.1.name == name && r.1.email == email
    ensures r.1.password == password && r.1.role == role
    ensures |r.0.users| == |repo.users| + 1 && r.0.users[..|repo.users|] == repo.users
    ensures Consistent(repo) && !ExistsByEmail(repo, email) ==> Consistent(r.0)
    ensures ExistsByEmail(r.0, email)
  {
    var u := UserRecord(repo.nextId, name, email, password, role);
    var repo' := Repository(repo.users + [u], repo.nextId + 1);
    assert repo'.users[|repo.users|] == u;
    (repo', u)
  }

  /** After saving a user under a fresh email, looking that email up finds
      the saved user, and every other email finds what it found before. */
  lemma FindAfterSave(repo: Repository, name: string, email: string, password: string,
                          role: Role, other: string)
    requires !ExistsByEmail(repo, email)
    ensures FindByEmail(Save(repo, name, email, password, role).0, email) == Some(Save(repo, name, email, password, role).1)
    ensures other != email ==> FindByEmail(Save(repo, name, email, password, role).0, other) == FindByEmail(repo, other)
  {
    var u := Save(repo, name, email, password, role).1;
    FindInSnoc(repo.users, u, email);
    FindInSnoc(repo.users, u, other);
  }

  /** Appending a user changes a lookup only where nothing matched before. */
  lemma {:induction false} FindInSnoc(users: seq<UserRecord>, u: UserRecord, email: string)
    ensures FindIn(users + [u], email) ==
              if FindIn(users, email).Some? then FindIn(users, email)
              else if u.email == email then Some(u) else None
    decreases |users|
  {
    if |users| > 0 {
      assert (users + [u])[1..] == users[1..] + [u];
      FindInSnoc(users[1..], u, email);
    }
  }

  /** In a consistent store the lookup finds the only user with that email. */
  lemma FindUnique(repo: Repository, email: string, i: int)
    requires Consistent(repo) && 0 <= i < |repo.users| && repo.users[i].email == email
    ensures FindByEmail(repo, email) == Some(repo.users[i])
  {
  }
}
