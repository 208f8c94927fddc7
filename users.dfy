/**
 * UsersService: user creation with the uniqueness and role-id checks,
 * field-by-field update, activation, whole-set role replacement, removal,
 * the existence checks, and the user projection with its roles and
 * permissions.
 */
module Users {
  import opened Errors
  import opened Lists
  import opened Crypto
  import opened Identity
  import Pagination

  /** `formatUserResponse(user)`: no password hash. */
  datatype UserView = UserView(
    id: int, fullName: string, email: string, username: string, isActive: bool,
    roles: seq<string>, permissions: seq<string>)

  /** The body of `create`; `roles` is absent when the client sends none. */
  datatype CreateUserDto = CreateUserDto(
    fullName: string, email: string, username: string, password: string, roles: Option<seq<int>>)

  /** The body of `update`: every field optional. */
  datatype UpdateUserDto = UpdateUserDto(
    password: Option<string>, fullName: Option<string>, email: Option<string>,
    username: Option<string>, isActive: Option<bool>)

  const USER_NOT_FOUND := "User not found"
  const USER_EXISTS := "Email or username already exists"
  const INVALID_ROLES := "One or more role IDs are invalid"

  /** `formatUserResponse` over the joined rows: role names in assignment
      order and every role's permission names concatenated. */
  function FormatUser(t: Tables, u: User): (r: UserView)
    ensures r.id == u.id && r.fullName == u.fullName && r.email == u.email
    ensures r.username == u.username && r.isActive == u.isActive
    ensures |r.roles| <= |AssignedRoleIds(t.userRoles, u.id)|
  {
    var ids := AssignedRoleIds(t.userRoles, u.id);
    UserView(u.id, u.fullName, u.email, u.username, u.isActive,
             RoleNames(t.roles, ids), FlatPermissionNames(t.roles, t.permissions, t.rolePermissions, ids))
  }

  /** A user without role assignments has no roles and no permissions. */
  lemma FormatUserNoRoles(t: Tables, u: User)
    requires forall a :: a in t.userRoles ==> a.userId != u.id
    ensures FormatUser(t, u).roles == [] && FormatUser(t, u).permissions == []
  {
    AssignedRoleIdsNone(t.userRoles, u.id);
  }

  /** Assigning one more role only appends: its name to the roles and its
      permission names to the permissions, duplicates kept. */
  lemma FormatUserAddRole(t: Tables, u: User, roleId: int)
    ensures var after := FormatUser(t.(userRoles := t.userRoles + [UserRole(u.id, roleId)]), u);
      && after.roles == FormatUser(t, u).roles + RoleNames(t.roles, [roleId])
      && after.permissions == FormatUser(t, u).permissions
                              + FlatPermissionNames(t.roles, t.permissions, t.rolePermissions, [roleId])
  {
    var ids := AssignedRoleIds(t.userRoles, u.id);
    AssignedRoleIdsConcat(t.userRoles, [UserRole(u.id, roleId)], u.id);
    assert AssignedRoleIds([UserRole(u.id, roleId)], u.id) == [roleId];
    RoleNamesAppend(t.roles, ids, roleId);
    FlatPermissionNamesAppend(t.roles, t.permissions, t.rolePermissions, ids, roleId);
  }

  /** `findFirst({where: {OR: [{email}, {username}]}})` finds a row. */
  predicate Taken(users: seq<User>, email: string, username: string) {
    exists u :: u in users && (u.email == email || u.username == username)
  }

  /** `roleIds && roleIds.length > 0`. */
  function RequestedRoles(roles: Option<seq<int>>): seq<int> {
    if roles.Some? then roles.value else []
  }

  /** `role.findMany({where: {id: {in: roleIds}}}).length`. */
  function CountRolesIn(roles: seq<Role>, ids: seq<int>): nat {
    |Filter(roles, (r: Role) => r.id in ids)|
  }

  predicate AllExist(roles: seq<Role>, ids: seq<int>) {
    forall i :: i in ids ==> exists r :: r in roles && r.id == i
  }

  /** The role-id check `roles.length !== roleIds.length` passes exactly when
      every id names an existing role and no id is repeated: an unknown id and
      a duplicate id are both rejected. */
  lemma RoleCountCheck(roles: seq<Role>, ids: seq<int>)
    requires Unique(roles, RoleId)
    ensures CountRolesIn(roles, ids) == |ids| <==> NoDuplicates(ids) && AllExist(roles, ids)
  {
    var requested := set i | i in ids;
    var existing := set r | r in roles :: r.id;
    var found := MatchedIds(roles, ids);
    FilterCount(roles, ids);
    assert found == requested * existing;
    SeqSetCard(ids);
    SubsetCard(found, requested);
    if CountRolesIn(roles, ids) == |ids| {
      assert found == requested;
      forall i | i in ids ensures exists r :: r in roles && r.id == i {
        assert i in found;
      }
    }
    if NoDuplicates(ids) && AllExist(roles, ids) {
      forall i | i in requested ensures i in found {
        var r :| r in roles && r.id == i;
      }
      assert found == requested;
    }
  }

  /** The ids of the roles the `in` query matches. */
  function MatchedIds(roles: seq<Role>, ids: seq<int>): set<int> {
    set r | r in roles && r.id in ids :: r.id
  }

  /** With unique role ids, the query returns one row per matched id. */
  lemma {:induction false} FilterCount(roles: seq<Role>, ids: seq<int>)
    requires Unique(roles, RoleId)
    ensures CountRolesIn(roles, ids) == |MatchedIds(roles, ids)|
  {
    if roles != [] {
      var rest := roles[1..];
      assert Unique(rest, RoleId) by {
        forall i, j | 0 <= i < j < |rest| ensures rest[i].id != rest[j].id {
          assert rest[i] == roles[i + 1] && rest[j] == roles[j + 1];
        }
      }
      FilterCount(rest, ids);
      assert forall r :: r in rest ==> r.id != roles[0].id by {
        forall r | r in rest ensures r.id != roles[0].id {
          var k :| 0 <= k < |rest| && rest[k] == r;
          assert roles[k + 1] == r;
        }
      }
      if roles[0].id in ids {
        assert MatchedIds(roles, ids) == MatchedIds(rest, ids) + {roles[0].id};
        assert roles[0].id !in MatchedIds(rest, ids);
      } else {
        assert MatchedIds(roles, ids) == MatchedIds(rest, ids);
      }
    } else {
      assert MatchedIds(roles, ids) == {};
    }
  }

  /** A subset is no larger, and a subset of the same size is the whole set. */
  lemma SubsetCard<T>(a: set<T>, b: set<T>)
    requires a <= b
    ensures |a| <= |b|
    ensures |a| == |b| ==> a == b
  {
    assert b == a + (b - a);
    assert |b| == |a| + |b - a|;
    if |a| == |b| {
      assert |b - a| == 0;
      assert b - a == {};
    }
  }

  /** The `updateData` built field by field and applied to the row. */
  function ApplyUserUpdate(u: User, dto: UpdateUserDto): (r: User)
    ensures r.id == u.id
    ensures r.passwordHash == (if Given(dto.password) then Hash(dto.password.value, BCRYPT_COST) else u.passwordHash)
    ensures !Given(dto.fullName) ==> r.fullName == u.fullName
    ensures !Given(dto.email) ==> r.email == u.email
    ensures !Given(dto.username) ==> r.username == u.username
    ensures Given(dto.fullName) ==> r.fullName == dto.fullName.value
    ensures Given(dto.email) ==> r.email == dto.email.value
    ensures Given(dto.username) ==> r.username == dto.username.value
    ensures r.isActive == dto.isActive.GetOr(u.isActive)
  {
    User(u.id,
         if Given(dto.username) then dto.username.value else u.username,
         if Given(dto.email) then dto.email.value else u.email,
         if Given(dto.fullName) then dto.fullName.value else u.fullName,
         if Given(dto.password) then Hash(dto.password.value, BCRYPT_COST) else u.passwordHash,
         dto.isActive.GetOr(u.isActive))
  }

  /** An update that provides nothing changes nothing. */
  lemma EmptyUpdateIsIdentity(u: User)
    ensures ApplyUserUpdate(u, UpdateUserDto(None, None, None, None, None)) == u
  {
  }

  /** Without a new password, applying the same update twice is applying it
      once. (A new password is hashed again, which bcrypt salts afresh.) */
  lemma UpdateIdempotent(u: User, dto: UpdateUserDto)
    requires !Given(dto.password)
    ensures ApplyUserUpdate(ApplyUserUpdate(u, dto), dto) == ApplyUserUpdate(u, dto)
  {
  }

  /** The position of the user with this id. */
  function IndexOfUser(users: seq<User>, id: int): (r: Option<nat>)
    ensures r.Some? ==> r.value < |users| && users[r.value].id == id
    ensures r.None? <==> forall u :: u in users ==> u.id != id
  {
    FirstIndex(users, (u: User) => u.id == id)
  }

  /** Another row than position `i` has this key. */
  predicate ClashesElsewhere(users: seq<User>, i: int, email: string, username: string, byEmail: bool) {
    exists j :: 0 <= j < |users| && j != i && (if byEmail then users[j].email == email else users[j].username == username)
  }

  /** Every user passes the listing's (empty) filter. */
  function AnyUser(u: User): bool { true }

  /** `findAll(page, limit)`: a page of users in table order, each as
      `formatUserResponse` gives it, with the page metadata. */
  function FindAll(t: Tables, page: Option<int>, limit: Option<int>): (r: Result<Pagination.Page<UserView>>)
    requires limit.GetOr(Pagination.DEFAULT_LIMIT) > 0
    ensures r.Ok? <==> page.GetOr(Pagination.DEFAULT_PAGE) >= 1
    ensures r.Ok? ==> r.value.meta.totalItems == |t.users|
    ensures r.Ok? ==> |r.value.data| <= limit.GetOr(Pagination.DEFAULT_LIMIT)
    ensures r.Ok? ==> forall v :: v in r.value.data ==> exists u :: u in t.users && v == FormatUser(t, u)
    ensures r.Ok? ==>
      var o := Pagination.CreatePaginationOptions(page, limit);
      var w := Pagination.Window(t.users, o.skip, o.take);
      && r.value.meta == Pagination.CreatePaginationMeta(|t.users|, page, limit)
      && |r.value.data| == |w|
      && forall i :: 0 <= i < |w| ==> r.value.data[i] == FormatUser(t, w[i])
  {
    FilterAllPass(t.users, AnyUser);
    match Pagination.Paginate(t.users, AnyUser, page, limit)
    case Err(e) => Err(e)
    case Ok(p) =>
      var views := seq(|p.data|, i requires 0 <= i < |p.data| => FormatUser(t, p.data[i]));
      assert forall v :: v in views ==> exists u :: u in t.users && v == FormatUser(t, u) by {
        forall v | v in views ensures exists u :: u in t.users && v == FormatUser(t, u) {
          var i :| 0 <= i < |views| && views[i] == v;
          assert p.data[i] in p.data;
        }
      }
      Ok(Pagination.Page(views, p.meta))
  }

  class UsersService {
    const db: IdentityDb

    constructor(db: IdentityDb)
      ensures this.db == db
    {
      this.db := db;
    }

    /** `findOne(id)`. */
    method FindOne(id: int) returns (r: Result<UserView>)
      requires db.Valid()
      ensures r.Ok? <==> exists u :: u in db.users && u.id == id
      ensures r.Err? ==> r.error == NotFound(USER_NOT_FOUND)
      ensures forall u :: u in db.users && u.id == id ==> r == Ok(FormatUser(db.State(), u))
    {
      var user := FindUserById(db.users, id);
      if user.None? {
        return Err(NotFound(USER_NOT_FOUND));
      }
      forall u | u in db.users && u.id == id ensures u == user.value {
        UniqueKeyMember(db.users, UserId, u, user.value);
      }
      r := Ok(FormatUser(db.State(), user.value));
    }

    /** `create(dto)`: the conflict check, then the role-id check, then one
        insert of the user with its role assignments; a new user is active. */
    method Create(dto: CreateUserDto) returns (r: Result<UserView>)
      requires db.Valid()
      modifies db`users, db`userRoles, db`nextUserId
      ensures db.Valid()
      ensures Taken(old(db.users), dto.email, dto.username) ==>
        r == Err(Conflict(USER_EXISTS)) && db.users == old(db.users) && db.userRoles == old(db.userRoles)
      ensures !Taken(old(db.users), dto.email, dto.username)
              && CountRolesIn(db.roles, RequestedRoles(dto.roles)) != |RequestedRoles(dto.roles)| ==>
        r == Err(BadRequest(INVALID_ROLES)) && db.users == old(db.users) && db.userRoles == old(db.userRoles)
      ensures !Taken(old(db.users), dto.email, dto.username)
              && CountRolesIn(db.roles, RequestedRoles(dto.roles)) == |RequestedRoles(dto.roles)| ==>
        var u := User(old(db.nextUserId), dto.username, dto.email, dto.fullName, Hash(dto.password, BCRYPT_COST), true);
        && db.users == old(db.users) + [u]
        && db.userRoles == old(db.userRoles) + Assignments(u.id, RequestedRoles(dto.roles))
        && db.nextUserId == old(db.nextUserId) + 1
        && r == Ok(FormatUser(db.State(), u))
      ensures r.Err? ==> db.nextUserId == old(db.nextUserId)
    {
      var clash := Find(db.users, (v: User) => v.email == dto.email || v.username == dto.username);
      if clash.Some? {
        return Err(Conflict(USER_EXISTS));
      }
      var roleIds := RequestedRoles(dto.roles);
      if |roleIds| > 0 && CountRolesIn(db.roles, roleIds) != |roleIds| {
        return Err(BadRequest(INVALID_ROLES));
      }
      RoleCountCheck(db.roles, roleIds);
      var u := User(db.nextUserId, dto.username, dto.email, dto.fullName, Hash(dto.password, BCRYPT_COST), true);
      InsertUserValid(db.users, db.userRoles, db.nextUserId, u, roleIds);
      var added := Assignments(u.id, roleIds);
      db.users := db.users + [u];
      db.userRoles := db.userRoles + added;
      db.nextUserId := db.nextUserId + 1;
      r := Ok(FormatUser(db.State(), u));
    }

    /** `update(id, dto)`: `findOne` first, then the row update; a new email or
        username that another row holds violates its unique column. */
    method Update(id: int, dto: UpdateUserDto) returns (r: Result<UserView>)
      requires db.Valid()
      modifies db`users
      ensures db.Valid()
      ensures (forall u :: u in old(db.users) ==> u.id != id) ==> r == Err(NotFound(USER_NOT_FOUND)) && db.users == old(db.users)
      ensures r.Err? ==> db.users == old(db.users)
      ensures forall i :: 0 <= i < |old(db.users)| && old(db.users)[i].id == id ==>
        var u := ApplyUserUpdate(old(db.users)[i], dto);
        if ClashesElsewhere(old(db.users), i, u.email, u.username, true) then r == Err(UniqueViolation(["email"]))
        else if ClashesElsewhere(old(db.users), i, u.email, u.username, false) then r == Err(UniqueViolation(["username"]))
        else db.users == old(db.users)[i := u] && r == Ok(FormatUser(db.State(), u))
    {
      var index := IndexOfUser(db.users, id);
      if index.None? {
        return Err(NotFound(USER_NOT_FOUND));
      }
      var i := index.value;
      forall k | 0 <= k < |db.users| && db.users[k].id == id ensures k == i {
        UniqueIndex(db.users, UserId, k, i);
      }
      var u := ApplyUserUpdate(db.users[i], dto);
      if ClashesElsewhere(db.users, i, u.email, u.username, true) {
        return Err(UniqueViolation(["email"]));
      }
      if ClashesElsewhere(db.users, i, u.email, u.username, false) {
        return Err(UniqueViolation(["username"]));
      }
      forall j | 0 <= j < |db.users| && j != i ensures UserId(db.users[j]) != UserId(u) {
        IndexUnique(db.users, UserId, j, i);
      }
      UniqueReplace(db.users, i, u, UserId);
      UniqueReplace(db.users, i, u, Username);
      UniqueReplace(db.users, i, u, Email);
      db.users := db.users[i := u];
      r := Ok(FormatUser(db.State(), u));
    }

    /** `updateUserActive(id, {isActive})`: only that flag of that row changes. */
    method UpdateUserActive(id: int, isActive: bool) returns (r: Result<UserView>)
      requires db.Valid()
      modifies db`users
      ensures db.Valid()
      ensures (forall u :: u in old(db.users) ==> u.id != id) ==> r == Err(NotFound(USER_NOT_FOUND)) && db.users == old(db.users)
      ensures forall i :: 0 <= i < |old(db.users)| && old(db.users)[i].id == id ==>
        var u := old(db.users)[i].(isActive := isActive);
        db.users == old(db.users)[i := u] && r == Ok(FormatUser(db.State(), u))
    {
      var index := IndexOfUser(db.users, id);
      if index.None? {
        return Err(NotFound(USER_NOT_FOUND));
      }
      var i := index.value;
      forall k | 0 <= k < |db.users| && db.users[k].id == id ensures k == i {
        UniqueIndex(db.users, UserId, k, i);
      }
      var u := db.users[i].(isActive := isActive);
      forall j | 0 <= j < |db.users| && j != i
        ensures UserId(db.users[j]) != UserId(u) && Username(db.users[j]) != Username(u) && Email(db.users[j]) != Email(u)
      {
        IndexUnique(db.users, UserId, j, i);
        IndexUnique(db.users, Username, j, i);
        IndexUnique(db.users, Email, j, i);
      }
      UniqueReplace(db.users, i, u, UserId);
      UniqueReplace(db.users, i, u, Username);
      UniqueReplace(db.users, i, u, Email);
      db.users := db.users[i := u];
      r := Ok(FormatUser(db.State(), u));
    }

    /** `updateUserRoles(id, {roles})`: in one transaction, delete the user's
        assignments and insert one per requested id. */
    method UpdateUserRoles(id: int, roleIds: seq<int>) returns (r: Result<UserView>)
      requires db.Valid()
      modifies db`userRoles
      ensures db.Valid()
      ensures (forall u :: u in db.users ==> u.id != id) ==> r == Err(NotFound(USER_NOT_FOUND)) && db.userRoles == old(db.userRoles)
      ensures (exists u :: u in db.users && u.id == id) && CountRolesIn(db.roles, roleIds) != |roleIds| ==>
        r == Err(BadRequest(INVALID_ROLES)) && db.userRoles == old(db.userRoles)
      ensures r.Ok? <==> (exists u :: u in db.users && u.id == id) && CountRolesIn(db.roles, roleIds) == |roleIds|
      ensures r.Ok? ==>
        && db.userRoles == Filter(old(db.userRoles), NotOfUser(id)) + Assignments(id, roleIds)
        && (forall u :: u in db.users && u.id == id ==> r.value == FormatUser(db.State(), u))
    {
      var user := FindUserById(db.users, id);
      if user.None? {
        return Err(NotFound(USER_NOT_FOUND));
      }
      if CountRolesIn(db.roles, roleIds) != |roleIds| {
        return Err(BadRequest(INVALID_ROLES));
      }
      RoleCountCheck(db.roles, roleIds);
      assert 1 <= UserId(user.value) < db.nextUserId by {
        var k :| 0 <= k < |db.users| && db.users[k] == user.value;
      }
      var kept := Filter(db.userRoles, NotOfUser(id));
      var added := Assignments(id, roleIds);
      ReplaceRolesValid(db.userRoles, db.nextUserId, id, roleIds);
      db.userRoles := kept + added;
      forall u | u in db.users && u.id == id ensures u == user.value {
        UniqueKeyMember(db.users, UserId, u, user.value);
      }
      r := Ok(FormatUser(db.State(), user.value));
    }

    /** `remove(id)`: `findOne` first, then the delete; the user's role
        assignments go with the row. The response is the user as it was. */
    method Remove(id: int) returns (r: Result<UserView>)
      requires db.Valid()
      modifies db`users, db`userRoles
      ensures db.Valid()
      ensures (forall u :: u in old(db.users) ==> u.id != id) ==>
        r == Err(NotFound(USER_NOT_FOUND)) && db.users == old(db.users) && db.userRoles == old(db.userRoles)
      ensures forall u :: u in old(db.users) && u.id == id ==>
        && r == Ok(FormatUser(old(db.State()), u))
        && db.users == Filter(old(db.users), NotUser(id))
        && db.userRoles == Filter(old(db.userRoles), NotOfUser(id))
    {
      var user := FindUserById(db.users, id);
      if user.None? {
        return Err(NotFound(USER_NOT_FOUND));
      }
      forall u | u in db.users && u.id == id ensures u == user.value {
        UniqueKeyMember(db.users, UserId, u, user.value);
      }
      r := Ok(FormatUser(db.State(), user.value));
      FilterUnique(db.users, NotUser(id), UserId);
      FilterUnique(db.users, NotUser(id), Username);
      FilterUnique(db.users, NotUser(id), Email);
      FilterIdsBelow(db.users, NotUser(id), UserId, db.nextUserId);
      FilterIdsBelow(db.userRoles, NotOfUser(id), AssignedUser, db.nextUserId);
      FilterUnique(db.userRoles, NotOfUser(id), AssignmentKey);
      db.users := Filter(db.users, NotUser(id));
      db.userRoles := Filter(db.userRoles, NotOfUser(id));
    }

    /** `findByUsername(username)`: the user row, or none (no exception). */
    method FindByUsername(username: string) returns (r: Option<User>)
      requires db.Valid()
      ensures r.None? <==> forall u :: u in db.users ==> u.username != username
      ensures forall u :: u in db.users && u.username == username ==> r == Some(u)
    {
      r := FindUserByUsername(db.users, username);
      if r.Some? {
        forall u | u in db.users && u.username == username ensures r == Some(u) {
          UniqueKeyMember(db.users, Username, u, r.value);
        }
      }
    }

    /** `findByEmail(email)`: the user row, or none (no exception). */
    method FindByEmail(email: string) returns (r: Option<User>)
      requires db.Valid()
      ensures r.None? <==> forall u :: u in db.users ==> u.email != email
      ensures forall u :: u in db.users && u.email == email ==> r == Some(u)
    {
      r := Find(db.users, (u: User) => u.email == email);
      if r.Some? {
        forall u | u in db.users && u.email == email ensures r == Some(u) {
          UniqueKeyMember(db.users, Email, u, r.value);
        }
      }
    }

    /** `checkUserExists(id)`. */
    method CheckUserExists(id: int) returns (b: bool)
      ensures b <==> exists u :: u in db.users && u.id == id
    {
      b := FindUserById(db.users, id).Some?;
    }

    /** `checkEmailExists(email)`. */
    method CheckEmailExists(email: string) returns (b: bool)
      ensures b <==> exists u :: u in db.users && u.email == email
    {
      b := Find(db.users, (u: User) => u.email == email).Some?;
    }

    /** `checkUsernameExists(username)`. */
    method CheckUsernameExists(username: string) returns (b: bool)
      ensures b <==> exists u :: u in db.users && u.username == username
    {
      b := FindUserByUsername(db.users, username).Some?;
    }
  }

  /** Inserting a new user with its assignments keeps the user and
      assignment tables valid. */
  lemma InsertUserValid(users: seq<User>, userRoles: seq<UserRole>, next: int, u: User, roleIds: seq<int>)
    requires UsersValid(users, next) && AssignmentsValid(userRoles, next)
    requires u.id == next && next >= 1 && !Taken(users, u.email, u.username) && NoDuplicates(roleIds)
    ensures UsersValid(users + [u], next + 1)
    ensures AssignmentsValid(userRoles + Assignments(next, roleIds), next + 1)
  {
    UniqueAppend(users, u, UserId);
    UniqueAppend(users, u, Username);
    UniqueAppend(users, u, Email);
    var added := Assignments(next, roleIds);
    AssignmentsUnique(next, roleIds);
    UniqueConcat(userRoles, added, AssignmentKey);
    var all := userRoles + added;
    forall i | 0 <= i < |all| ensures 1 <= AssignedUser(all[i]) < next + 1 {
      if i >= |userRoles| {
        assert all[i] == added[i - |userRoles|] && added[i - |userRoles|] in added;
      }
    }
  }

  /** Replacing one user's assignments keeps the assignment table valid. */
  lemma ReplaceRolesValid(userRoles: seq<UserRole>, next: int, id: int, roleIds: seq<int>)
    requires AssignmentsValid(userRoles, next) && 1 <= id < next && NoDuplicates(roleIds)
    ensures AssignmentsValid(Filter(userRoles, NotOfUser(id)) + Assignments(id, roleIds), next)
  {
    var kept := Filter(userRoles, NotOfUser(id));
    var added := Assignments(id, roleIds);
    FilterUnique(userRoles, NotOfUser(id), AssignmentKey);
    FilterIdsBelow(userRoles, NotOfUser(id), AssignedUser, next);
    AssignmentsUnique(id, roleIds);
    forall x, y | x in kept && y in added ensures AssignmentKey(x) != AssignmentKey(y) {
      assert NotOfUser(id)(x);
    }
    UniqueConcat(kept, added, AssignmentKey);
    var all := kept + added;
    forall i | 0 <= i < |all| ensures 1 <= AssignedUser(all[i]) < next {
      if i >= |kept| {
        assert all[i] == added[i - |kept|] && added[i - |kept|] in added;
      } else {
        assert all[i] == kept[i];
      }
    }
  }

  /** Distinct role ids give distinct assignment rows. */
  lemma AssignmentsUnique(userId: int, roleIds: seq<int>)
    requires NoDuplicates(roleIds)
    ensures Unique(Assignments(userId, roleIds), AssignmentKey)
  {
    var added := Assignments(userId, roleIds);
    forall i, j | 0 <= i < j < |added| ensures AssignmentKey(added[i]) != AssignmentKey(added[j]) {
      AssignmentAt(userId, roleIds, i);
      AssignmentAt(userId, roleIds, j);
    }
  }

  lemma AssignmentAt(userId: int, roleIds: seq<int>, i: int)
    requires 0 <= i < |roleIds|
    ensures Assignments(userId, roleIds)[i] == UserRole(userId, roleIds[i])
  {
    if i > 0 {
      AssignmentAt(userId, roleIds[1..], i - 1);
    }
  }

  lemma IndexUnique<T, K>(rows: seq<T>, key: T -> K, i: int, j: int)
    requires Unique(rows, key) && 0 <= i < |rows| && 0 <= j < |rows| && i != j
    ensures key(rows[i]) != key(rows[j])
  {
  }

  /** After `updateUserRoles(id, roleIds)` the user's roles are exactly the
      requested ids, in request order (an empty list clears them), and every
      other user's assignments are as they were. */
  lemma RoleReplacement(userRoles: seq<UserRole>, id: int, roleIds: seq<int>, other: int)
    ensures AssignedRoleIds(Filter(userRoles, NotOfUser(id)) + Assignments(id, roleIds), id) == roleIds
    ensures other != id ==>
      AssignedRoleIds(Filter(userRoles, NotOfUser(id)) + Assignments(id, roleIds), other)
        == AssignedRoleIds(userRoles, other)
  {
    var kept := Filter(userRoles, NotOfUser(id));
    var added := Assignments(id, roleIds);
    AssignedRoleIdsWithout(userRoles, id, other);
    AssignedRoleIdsOfAssignments(id, roleIds, other);
    AssignedRoleIdsConcat(kept, added, id);
    assert AssignedRoleIds(kept, id) + AssignedRoleIds(added, id) == roleIds;
    if other != id {
      AssignedRoleIdsConcat(kept, added, other);
      assert AssignedRoleIds(kept, other) + AssignedRoleIds(added, other) == AssignedRoleIds(userRoles, other);
    }
  }
}
