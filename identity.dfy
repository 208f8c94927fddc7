/**
 * The identity tables of the database (users, roles, permissions, their
 * join tables, refresh tokens, the activity log and languages), held in
 * memory as sequences of rows in insertion order, and the joins the services
 * read through Prisma `include`s.
 */
module Identity {
  import opened Errors
  import opened Lists
  import opened Crypto

  datatype User = User(id: int, username: string, email: string, fullName: string, passwordHash: Digest, isActive: bool)
  datatype Role = Role(id: int, name: string, description: string)
  datatype Permission = Permission(id: int, name: string, description: string)
  datatype UserRole = UserRole(userId: int, roleId: int)
  datatype RolePermission = RolePermission(roleId: int, permissionId: int)
  datatype RefreshToken = RefreshToken(token: TokenString, userId: int)
  datatype ActivityLog = ActivityLog(
    id: int, userId: int, action: string, tableName: string, recordId: Option<int>,
    changes: Option<string>, ipAddress: Option<string>, userAgent: Option<string>, createdAt: int)
  datatype Language = Language(code: string, name: string, nativeName: string, isActive: bool)

  /** All rows of the identity tables at one moment. */
  datatype Tables = Tables(
    users: seq<User>, roles: seq<Role>, permissions: seq<Permission>,
    userRoles: seq<UserRole>, rolePermissions: seq<RolePermission>,
    refreshTokens: seq<RefreshToken>, activityLogs: seq<ActivityLog>, languages: seq<Language>)

  /** No two rows share a key (a primary key or a unique column). */
  ghost predicate Unique<T, K>(rows: seq<T>, key: T -> K) {
    forall i, j :: 0 <= i < j < |rows| ==> key(rows[i]) != key(rows[j])
  }

  /** Autoincrement ids handed out so far lie in [1, next). */
  ghost predicate IdsBelow<T>(rows: seq<T>, id: T -> int, next: int) {
    forall i :: 0 <= i < |rows| ==> 1 <= id(rows[i]) < next
  }

  /** Under a unique key, two rows with the same key are the same row. */
  lemma UniqueKeyMember<T, K>(rows: seq<T>, key: T -> K, a: T, b: T)
    requires Unique(rows, key) && a in rows && b in rows && key(a) == key(b)
    ensures a == b
  {
    var i :| 0 <= i < |rows| && rows[i] == a;
    var j :| 0 <= j < |rows| && rows[j] == b;
    UniqueIndex(rows, key, i, j);
  }

  /** Under a unique key, two positions with the same key are the same position. */
  lemma UniqueIndex<T, K>(rows: seq<T>, key: T -> K, i: int, j: int)
    requires Unique(rows, key) && 0 <= i < |rows| && 0 <= j < |rows| && key(rows[i]) == key(rows[j])
    ensures i == j
  {
  }

  /** Rows whose key is `k`. */
  function HasKey<T, K(==)>(key: T -> K, k: K): T -> bool {
    (x: T) => key(x) == k
  }

  /** The position of the row with key `k` (`findUnique` on a unique column). */
  function IndexBy<T, K(==)>(rows: seq<T>, key: T -> K, k: K): (r: Option<nat>)
    ensures r.Some? ==> r.value < |rows| && key(rows[r.value]) == k
    ensures r.None? <==> forall x :: x in rows ==> key(x) != k
  {
    FirstIndex(rows, HasKey(key, k))
  }

  /** The row with key `k`, if any. */
  function FindBy<T, K(==)>(rows: seq<T>, key: T -> K, k: K): (r: Option<T>)
    ensures r.Some? ==> r.value in rows && key(r.value) == k
    ensures r.None? <==> forall x :: x in rows ==> key(x) != k
  {
    match IndexBy(rows, key, k)
    case Some(i) => Some(rows[i])
    case None => None
  }

  /** Under a unique key, the lookup finds exactly the row that has the key. */
  lemma FindByUnique<T, K>(rows: seq<T>, key: T -> K, x: T)
    requires Unique(rows, key) && x in rows
    ensures FindBy(rows, key, key(x)) == Some(x)
  {
    var r := FindBy(rows, key, key(x));
    UniqueKeyMember(rows, key, r.value, x);
  }

  /** Users other than the given one. */
  function NotUser(id: int): User -> bool {
    (u: User) => u.id != id
  }

  /** Rows that do not belong to the given user. */
  function NotOfUser(userId: int): UserRole -> bool {
    (a: UserRole) => a.userId != userId
  }

  /** Deleting rows keeps every remaining id within its bounds. */
  lemma FilterIdsBelow<T>(rows: seq<T>, p: T -> bool, id: T -> int, next: int)
    requires IdsBelow(rows, id, next)
    ensures IdsBelow(Filter(rows, p), id, next)
  {
    var f := Filter(rows, p);
    forall i | 0 <= i < |f| ensures 1 <= id(f[i]) < next {
      assert f[i] in f;
      var k :| 0 <= k < |rows| && rows[k] == f[i];
    }
  }

  /** Appending a row whose key is new keeps the keys unique. */
  lemma UniqueAppend<T, K>(rows: seq<T>, x: T, key: T -> K)
    requires Unique(rows, key)
    requires forall y :: y in rows ==> key(y) != key(x)
    ensures Unique(rows + [x], key)
  {
    forall i, j | 0 <= i < j < |rows + [x]|
      ensures key((rows + [x])[i]) != key((rows + [x])[j])
    {
      if j == |rows| {
        assert (rows + [x])[i] in rows;
      }
    }
  }

  /** Two sequences with unique keys and no key in common concatenate to one. */
  lemma UniqueConcat<T, K>(a: seq<T>, b: seq<T>, key: T -> K)
    requires Unique(a, key) && Unique(b, key)
    requires forall x, y :: x in a && y in b ==> key(x) != key(y)
    ensures Unique(a + b, key)
  {
    forall i, j | 0 <= i < j < |a + b| ensures key((a + b)[i]) != key((a + b)[j]) {
      if j < |a| {
        assert (a + b)[i] == a[i] && (a + b)[j] == a[j];
      } else if i < |a| {
        assert (a + b)[i] == a[i] && (a + b)[j] == b[j - |a|];
      } else {
        assert (a + b)[i] == b[i - |a|] && (a + b)[j] == b[j - |a|];
      }
    }
  }

  /** Overwriting one row with a row whose key no other row has keeps the keys unique. */
  lemma UniqueReplace<T, K>(rows: seq<T>, i: int, x: T, key: T -> K)
    requires Unique(rows, key) && 0 <= i < |rows|
    requires forall j :: 0 <= j < |rows| && j != i ==> key(rows[j]) != key(x)
    ensures Unique(rows[i := x], key)
  {
  }

  /** Deleting rows keeps the keys unique. */
  lemma {:induction false} FilterUnique<T, K>(rows: seq<T>, p: T -> bool, key: T -> K)
    requires Unique(rows, key)
    ensures Unique(Filter(rows, p), key)
  {
    if rows != [] {
      var rest := rows[1..];
      assert Unique(rest, key) by {
        forall i, j | 0 <= i < j < |rest| ensures key(rest[i]) != key(rest[j]) {
          assert rest[i] == rows[i + 1] && rest[j] == rows[j + 1];
        }
      }
      FilterUnique(rest, p, key);
      if p(rows[0]) {
        forall y | y in Filter(rest, p) ensures key(y) != key(rows[0]) {
          var k :| 0 <= k < |rest| && rest[k] == y;
          assert rows[k + 1] == y;
        }
        var f := Filter(rest, p);
        assert Filter(rows, p) == [rows[0]] + f;
        forall i, j | 0 <= i < j < |[rows[0]] + f|
          ensures key(([rows[0]] + f)[i]) != key(([rows[0]] + f)[j])
        {
          if i == 0 {
            assert ([rows[0]] + f)[j] == f[j - 1] && f[j - 1] in f;
          } else {
            assert ([rows[0]] + f)[i] == f[i - 1] && ([rows[0]] + f)[j] == f[j - 1];
          }
        }
      } else {
        assert Filter(rows, p) == Filter(rest, p);
      }
    }
  }

  function UserId(u: User): int { u.id }
  function Username(u: User): string { u.username }
  function Email(u: User): string { u.email }
  function RoleId(r: Role): int { r.id }
  function RoleName(r: Role): string { r.name }
  function PermissionId(p: Permission): int { p.id }
  function PermissionName(p: Permission): string { p.name }
  function AssignedUser(a: UserRole): int { a.userId }
  function TokenOf(t: RefreshToken): TokenString { t.token }
  function LanguageCode(l: Language): string { l.code }

  /** Key of the `UserRole` and `RolePermission` join tables: the whole pair. */
  function AssignmentKey(a: UserRole): UserRole { a }
  function GrantKey(g: RolePermission): RolePermission { g }

  /** The database's key and unique constraints, table by table. */
  ghost predicate UsersValid(users: seq<User>, nextUserId: int) {
    Unique(users, UserId) && Unique(users, Username) && Unique(users, Email) && IdsBelow(users, UserId, nextUserId)
    && nextUserId >= 1
  }

  ghost predicate RolesValid(roles: seq<Role>, nextRoleId: int) {
    Unique(roles, RoleId) && Unique(roles, RoleName) && IdsBelow(roles, RoleId, nextRoleId) && nextRoleId >= 1
  }

  ghost predicate PermissionsValid(permissions: seq<Permission>, nextPermissionId: int) {
    Unique(permissions, PermissionId) && Unique(permissions, PermissionName)
    && IdsBelow(permissions, PermissionId, nextPermissionId) && nextPermissionId >= 1
  }

  /** Assignments are unique pairs and name users that were created. */
  ghost predicate AssignmentsValid(userRoles: seq<UserRole>, nextUserId: int) {
    Unique(userRoles, AssignmentKey) && IdsBelow(userRoles, AssignedUser, nextUserId)
  }

  ghost predicate TokensValid(refreshTokens: seq<RefreshToken>) {
    Unique(refreshTokens, TokenOf)
  }

  /** The identity part of the Prisma client: one field per table. */
  class IdentityDb {
    var users: seq<User>
    var roles: seq<Role>
    var permissions: seq<Permission>
    var userRoles: seq<UserRole>
    var rolePermissions: seq<RolePermission>
    var refreshTokens: seq<RefreshToken>
    var activityLogs: seq<ActivityLog>
    var languages: seq<Language>
    var nextUserId: int
    var nextRoleId: int
    var nextPermissionId: int
    var nextLogId: int

    function State(): Tables
      reads this
    {
      Tables(users, roles, permissions, userRoles, rolePermissions, refreshTokens, activityLogs, languages)
    }

    ghost predicate Valid()
      reads this
    {
      && UsersValid(users, nextUserId) && RolesValid(roles, nextRoleId)
      && PermissionsValid(permissions, nextPermissionId) && AssignmentsValid(userRoles, nextUserId)
      && Unique(rolePermissions, GrantKey) && TokensValid(refreshTokens) && nextLogId >= 1
      && Unique(languages, LanguageCode)
    }

    constructor Empty()
      ensures Valid()
      ensures State() == Tables([], [], [], [], [], [], [], [])
    {
      users, roles, permissions := [], [], [];
      userRoles, rolePermissions, refreshTokens, activityLogs, languages := [], [], [], [], [];
      nextUserId, nextRoleId, nextPermissionId, nextLogId := 1, 1, 1, 1;
    }
  }

  /** `user.findUnique({where: {id}})`. */
  function FindUserById(users: seq<User>, id: int): (r: Option<User>)
    ensures r.Some? ==> r.value in users && r.value.id == id
    ensures r.None? <==> forall u :: u in users ==> u.id != id
  {
    Find(users, (u: User) => u.id == id)
  }

  /** `user.findUnique({where: {username}})`. */
  function FindUserByUsername(users: seq<User>, username: string): (r: Option<User>)
    ensures r.Some? ==> r.value in users && r.value.username == username
    ensures r.None? <==> forall u :: u in users ==> u.username != username
  {
    Find(users, (u: User) => u.username == username)
  }

  /** `role.findUnique({where: {id}})`. */
  function FindRoleById(roles: seq<Role>, id: int): Option<Role> {
    Find(roles, (r: Role) => r.id == id)
  }

  function FindPermissionById(permissions: seq<Permission>, id: int): Option<Permission> {
    Find(permissions, (p: Permission) => p.id == id)
  }

  /** The role ids assigned to a user, in the order the assignments were made. */
  function AssignedRoleIds(userRoles: seq<UserRole>, userId: int): (r: seq<int>)
    ensures |r| <= |userRoles|
  {
    if userRoles == [] then []
    else (if userRoles[0].userId == userId then [userRoles[0].roleId] else [])
         + AssignedRoleIds(userRoles[1..], userId)
  }

  /** The rows `createMany(roleIds.map(roleId => ({userId, roleId})))` inserts, in order. */
  function Assignments(userId: int, roleIds: seq<int>): (r: seq<UserRole>)
    ensures |r| == |roleIds|
    ensures forall a :: a in r <==> a.userId == userId && a.roleId in roleIds
  {
    if roleIds == [] then [] else [UserRole(userId, roleIds[0])] + Assignments(userId, roleIds[1..])
  }

  /** A user without assignment rows has no role ids. */
  lemma {:induction false} AssignedRoleIdsNone(userRoles: seq<UserRole>, userId: int)
    requires forall a :: a in userRoles ==> a.userId != userId
    ensures AssignedRoleIds(userRoles, userId) == []
  {
    if userRoles != [] {
      assert userRoles[0] in userRoles;
      AssignedRoleIdsNone(userRoles[1..], userId);
    }
  }

  lemma {:induction false} AssignedRoleIdsConcat(a: seq<UserRole>, b: seq<UserRole>, userId: int)
    ensures AssignedRoleIds(a + b, userId) == AssignedRoleIds(a, userId) + AssignedRoleIds(b, userId)
  {
    if a != [] {
      assert (a + b)[1..] == a[1..] + b;
      AssignedRoleIdsConcat(a[1..], b, userId);
    } else {
      assert a + b == b;
    }
  }

  /** A user's own assignment rows give back the role ids, in order; another user sees none of them. */
  lemma {:induction false} AssignedRoleIdsOfAssignments(userId: int, roleIds: seq<int>, other: int)
    ensures AssignedRoleIds(Assignments(userId, roleIds), userId) == roleIds
    ensures other != userId ==> AssignedRoleIds(Assignments(userId, roleIds), other) == []
  {
    if roleIds != [] {
      var rest := Assignments(userId, roleIds[1..]);
      assert Assignments(userId, roleIds)[1..] == rest;
      AssignedRoleIdsOfAssignments(userId, roleIds[1..], other);
    }
  }

  /** Deleting one user's assignment rows leaves that user none and every other user's list as it was. */
  lemma {:induction false} AssignedRoleIdsWithout(userRoles: seq<UserRole>, userId: int, other: int)
    ensures AssignedRoleIds(Filter(userRoles, NotOfUser(userId)), userId) == []
    ensures other != userId ==>
      AssignedRoleIds(Filter(userRoles, NotOfUser(userId)), other) == AssignedRoleIds(userRoles, other)
  {
    if userRoles != [] {
      var p := NotOfUser(userId);
      var f := Filter(userRoles[1..], p);
      AssignedRoleIdsWithout(userRoles[1..], userId, other);
      if p(userRoles[0]) {
        assert Filter(userRoles, p) == [userRoles[0]] + f;
        assert ([userRoles[0]] + f)[1..] == f;
      } else {
        assert Filter(userRoles, p) == f;
      }
    }
  }

  /** `ur.role.name` for each assignment (`include: {roles: {include: {role: true}}}`). */
  function RoleNames(roles: seq<Role>, roleIds: seq<int>): (r: seq<string>)
    ensures |r| <= |roleIds|
  {
    if roleIds == [] then []
    else (match FindRoleById(roles, roleIds[0]) case Some(role) => [role.name] case None => [])
         + RoleNames(roles, roleIds[1..])
  }

  /** `rp.permission.name` for each permission granted to one role, in grant order. */
  function PermissionNamesOf(permissions: seq<Permission>, grants: seq<RolePermission>, roleId: int): seq<string> {
    if grants == [] then []
    else (if grants[0].roleId == roleId then
            match FindPermissionById(permissions, grants[0].permissionId)
            case Some(p) => [p.name]
            case None => []
          else [])
         + PermissionNamesOf(permissions, grants[1..], roleId)
  }

  /** `roles.flatMap(ur => ur.role.rolePermissions.map(rp => rp.permission.name))`:
      the roles' permission lists concatenated, duplicates kept. */
  function FlatPermissionNames(roles: seq<Role>, permissions: seq<Permission>, grants: seq<RolePermission>, roleIds: seq<int>)
    : seq<string>
  {
    if roleIds == [] then []
    else (if FindRoleById(roles, roleIds[0]).Some? then PermissionNamesOf(permissions, grants, roleIds[0]) else [])
         + FlatPermissionNames(roles, permissions, grants, roleIds[1..])
  }

  /** One more role only appends: the permission list of `roleIds + [r]`
      starts with that of `roleIds`. */
  lemma {:induction false} FlatPermissionNamesAppend(
    roles: seq<Role>, permissions: seq<Permission>, grants: seq<RolePermission>, roleIds: seq<int>, r: int)
    ensures FlatPermissionNames(roles, permissions, grants, roleIds + [r]) ==
            FlatPermissionNames(roles, permissions, grants, roleIds) + FlatPermissionNames(roles, permissions, grants, [r])
  {
    if roleIds == [] {
      assert roleIds + [r] == [r];
    } else {
      assert (roleIds + [r])[1..] == roleIds[1..] + [r];
      FlatPermissionNamesAppend(roles, permissions, grants, roleIds[1..], r);
    }
  }

  /** Role names appended the same way. */
  lemma {:induction false} RoleNamesAppend(roles: seq<Role>, roleIds: seq<int>, r: int)
    ensures RoleNames(roles, roleIds + [r]) == RoleNames(roles, roleIds) + RoleNames(roles, [r])
  {
    if roleIds == [] {
      assert roleIds + [r] == [r];
    } else {
      assert (roleIds + [r])[1..] == roleIds[1..] + [r];
      RoleNamesAppend(roles, roleIds[1..], r);
    }
  }

}
