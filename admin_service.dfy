/** The admin registry: the `admins` table, registration with a uniqueness check, and the lookup
    that turns a stored admin into the security layer's user record. The password encoder is a
    function parameter about which nothing is assumed. */
module AdminService {
  import opened Wrappers
  import opened Entities
  import opened Tables

  /** The table invariant: generated ids below the counter, each row knowing its own id, the
      not-null username and password set, and no username stored twice. */
  ghost predicate AdminInvariant(m: map<int, Admin>, nextId: int)
  {
    && nextId >= 1
    && (forall k :: k in m ==> 1 <= k < nextId && m[k].id == Some(k) && m[k].username.Some? && m[k].password.Some?)
    && (forall a, b :: a in m && b in m && a != b ==> m[a].username != m[b].username)
  }

  /** Some stored admin has username `u`. */
  ghost predicate UsernameStored(m: map<int, Admin>, u: string)
  {
    exists k :: k in m && m[k].username == Some(u)
  }

  /** The first admin in `xs` named `u`. */
  function FirstNamed(xs: seq<Admin>, u: string): (r: Option<Admin>)
    ensures r.Some? <==> exists i :: 0 <= i < |xs| && xs[i].username == Some(u)
    ensures r.Some? ==> r.value in xs && r.value.username == Some(u)
  {
    if xs == [] then None
    else if xs[0].username == Some(u) then Some(xs[0])
    else
      assert forall i :: 1 <= i < |xs| ==> xs[i] == xs[1..][i - 1];
      FirstNamed(xs[1..], u)
  }

  /** `UserDetails` as built by `new User(username, password, authorities)`. */
  datatype UserDetails = User(username: string, password: string, authorities: seq<string>)

  /** `UsernameNotFoundException`, and the `IllegalArgumentException` that `User`'s constructor
      throws for an empty username. */
  datatype LookupError = UsernameNotFound(username: string) | EmptyUsername

  /** `ConflictException` from registration, and a violated column constraint of the table. */
  datatype RegisterError = Conflict(username: string) | ConstraintViolation

  /** The `admins` table behind `AdminRepository`. */
  class AdminRepository {
    var admins: map<int, Admin>
    var nextId: int

    ghost predicate Valid()
      reads this
    {
      AdminInvariant(admins, nextId)
    }

    /** An empty table whose first generated id is 1. */
    constructor ()
      ensures Valid() && admins == map[] && nextId == 1
    {
      admins := map[];
      nextId := 1;
    }

    /** `findByUsername`: the admin stored under username `u`, if any. */
    function FindByUsername(u: string): (r: Option<Admin>)
      reads this
      requires Valid()
      ensures r.Some? <==> UsernameStored(admins, u)
      ensures r.Some? ==> && r.value.id.Some? && r.value.id.value in admins
                          && admins[r.value.id.value] == r.value
                          && r.value.username == Some(u) && r.value.password.Some?
    {
      var xs := Ascending(admins, nextId);
      AscendingSpec(admins, nextId);
      assert forall i :: 0 <= i < |xs| ==> xs[i] in xs;
      assert UsernameStored(admins, u) ==> exists i :: 0 <= i < |xs| && xs[i].username == Some(u) by {
        if UsernameStored(admins, u) {
          var k :| k in admins && admins[k].username == Some(u);
          assert admins[k] in xs;
        }
      }
      FirstNamed(xs, u)
    }

    /** `count()`: the number of stored admins. */
    function Count(): (n: nat)
      reads this
      ensures n == 0 <==> admins == map[]
    {
      |admins|
    }

    /** `save` of a new admin: inserted under the next generated id, unless a column constraint
        fails, in which case the table is left as it was. */
    method Save(admin: Admin) returns (r: Result<Admin, RegisterError>)
      requires Valid()
      requires admin.id.None?
      modifies this
      ensures Valid()
      ensures r.Err? <==> admin.username.None? || admin.password.None? || UsernameStored(old(admins), admin.username.value)
      ensures r.Err? ==> r.error == ConstraintViolation && admins == old(admins) && nextId == old(nextId)
      ensures r.Ok? ==> && old(nextId) !in old(admins)
                        && r.value == admin.(id := Some(old(nextId)))
                        && admins == old(admins)[old(nextId) := r.value]
                        && nextId == old(nextId) + 1
    {
      if admin.username.None? || admin.password.None? || FindByUsername(admin.username.value).Some? {
        return Err(ConstraintViolation);
      }
      var saved := admin.(id := Some(nextId));
      admins := admins[nextId := saved];
      nextId := nextId + 1;
      r := Ok(saved);
    }
  }

  /** `register`: an already stored username raises `ConflictException` before anything is
      written; otherwise exactly one admin is added, holding `encode(password)` and not the raw
      password, after which the same username is stored (so registering it again conflicts). */
  method Register(repo: AdminRepository, username: string, password: string, encode: string -> string)
    returns (r: Outcome<RegisterError>)
    requires repo.Valid()
    modifies repo
    ensures repo.Valid()
    ensures r.Fail? <==> UsernameStored(old(repo.admins), username)
    ensures r.Fail? ==> r.error == Conflict(username) && repo.admins == old(repo.admins) && repo.nextId == old(repo.nextId)
    ensures r.Pass? ==>
      && old(repo.nextId) !in old(repo.admins)
      && repo.admins == old(repo.admins)[old(repo.nextId) := Admin(Some(old(repo.nextId)), Some(username), Some(encode(password)))]
      && |repo.admins| == |old(repo.admins)| + 1
      && repo.nextId == old(repo.nextId) + 1
      && UsernameStored(repo.admins, username)
      && repo.FindByUsername(username) == Some(Admin(Some(old(repo.nextId)), Some(username), Some(encode(password))))
  {
    if repo.FindByUsername(username).Some? {
      return Fail(Conflict(username));
    }
    var admin := Admin(None, Some(username), Some(encode(password)));
    var saved := repo.Save(admin);
    if saved.Err? {
      assert false;
    }
    ghost var k := repo.FindByUsername(username).value.id.value;
    assert repo.admins[k].username == repo.admins[saved.value.id.value].username;
    r := Pass;
  }

  /** `loadUserByUsername`: a stored admin becomes a user with its username, its stored (encoded)
      password and no authorities; an absent username raises `UsernameNotFoundException`, and a
      stored admin whose username is empty makes `User`'s constructor reject it. */
  function LoadUserByUsername(repo: AdminRepository, username: string): (r: Result<UserDetails, LookupError>)
    reads repo
    requires repo.Valid()
    ensures r.Ok? <==> UsernameStored(repo.admins, username) && username != ""
    ensures !UsernameStored(repo.admins, username) ==> r == Err(UsernameNotFound(username))
    ensures UsernameStored(repo.admins, username) && username == "" ==> r == Err(EmptyUsername)
    ensures r.Ok? ==> && r.value.username == username
                      && r.value.authorities == []
                      && exists k :: k in repo.admins && repo.admins[k] == Admin(Some(k), Some(username), Some(r.value.password))
  {
    match repo.FindByUsername(username)
    case Some(admin) =>
      if admin.username.value == "" then Err(EmptyUsername)
      else
      var k := admin.id.value;
      assert repo.admins[k] == Admin(Some(k), Some(username), Some(admin.password.value));
      Ok(User(admin.username.value, admin.password.value, []))
    case None => Err(UsernameNotFound(username))
  }
}
