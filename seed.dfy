/**
 * `main` of the database seed. In order it upserts the four roles, the
 * permission catalogue, the grants of SUPER_ADMIN, USER and EDITOR, the four
 * languages and the super administrator account, then reads that account
 * back and checks its password. Every write is an upsert keyed by a unique
 * column (a role or permission name, a language code, a username) or by the
 * (roleId, permissionId) pair, so a second run finds every row in place.
 */
module Seed {
  import opened Errors
  import opened Lists
  import opened Crypto
  import opened Identity
  import opened SeedCatalogue
  import Slugs
  import Users
  import Auth

  /** `role.upsert({where: {name}, update: {}, create: {name, description}})`:
      an existing role is left as it is. */
  method UpsertRole(db: IdentityDb, name: string) returns (id: int)
    requires db.Valid()
    modifies db`roles, db`nextRoleId
    ensures db.Valid()
    ensures FindBy(db.roles, RoleName, name) == RoleAfterUpsert(old(db.roles), name, id)
    ensures FindBy(db.roles, RoleName, name).Some? && FindBy(db.roles, RoleName, name).value.id == id
    ensures FindBy(old(db.roles), RoleName, name).Some? ==>
      db.roles == old(db.roles) && db.nextRoleId == old(db.nextRoleId)
    ensures FindBy(old(db.roles), RoleName, name).None? ==>
      && db.roles == old(db.roles) + [Role(old(db.nextRoleId), name, RoleDescription(name))]
      && db.nextRoleId == old(db.nextRoleId) + 1
    ensures forall n :: n != name ==> FindBy(db.roles, RoleName, n) == FindBy(old(db.roles), RoleName, n)
  {
    var existing := FindBy(db.roles, RoleName, name);
    if existing.Some? {
      return existing.value.id;
    }
    var before := db.roles;
    var role := Role(db.nextRoleId, name, RoleDescription(name));
    UniqueAppend(before, role, RoleId);
    UniqueAppend(before, role, RoleName);
    db.roles := before + [role];
    db.nextRoleId := db.nextRoleId + 1;
    FindByUnique(db.roles, RoleName, role);
    id := role.id;
    forall n | n != name ensures FindBy(db.roles, RoleName, n) == FindBy(before, RoleName, n) {
      FindByAppend(before, role, RoleName, n);
    }
  }

  /** Appending a row with another key leaves the lookup of a key as it was. */
  lemma FindByAppend<T, K>(rows: seq<T>, x: T, key: T -> K, k: K)
    requires Unique(rows + [x], key) && key(x) != k
    ensures FindBy(rows + [x], key, k) == FindBy(rows, key, k)
  {
    var found := FindBy(rows, key, k);
    if found.Some? {
      FindByUnique(rows + [x], key, found.value);
    }
  }

  /** Replacing the row at `i` by one with the same key leaves every other lookup as it was. */
  lemma FindByReplace<T, K>(rows: seq<T>, i: int, x: T, key: T -> K, k: K)
    requires 0 <= i < |rows| && key(rows[i]) == key(x) && key(x) != k
    requires Unique(rows, key) && Unique(rows[i := x], key)
    ensures FindBy(rows[i := x], key, k) == FindBy(rows, key, k)
  {
    var found := FindBy(rows, key, k);
    if found.Some? {
      var j :| 0 <= j < |rows| && rows[j] == found.value;
      assert rows[i := x][j] == found.value;
      FindByUnique(rows[i := x], key, found.value);
    }
  }

  /** `permission.upsert({where: {name}, update: {description}, create: {name, description}})`:
      an existing permission keeps its id and takes the new description. */
  method UpsertPermission(db: IdentityDb, name: string, description: string) returns (id: int)
    requires db.Valid()
    modifies db`permissions, db`nextPermissionId
    ensures db.Valid()
    ensures FindBy(db.permissions, PermissionName, name) == Some(Permission(id, name, description))
    ensures forall n :: n != name ==> FindBy(db.permissions, PermissionName, n) == FindBy(old(db.permissions), PermissionName, n)
    ensures FindBy(old(db.permissions), PermissionName, name).Some? ==>
      id == FindBy(old(db.permissions), PermissionName, name).value.id && |db.permissions| == |old(db.permissions)|
    ensures match IndexBy(old(db.permissions), PermissionName, name)
      case Some(i) =>
        && id == old(db.permissions)[i].id
        && db.permissions == old(db.permissions)[i := Permission(id, name, description)]
        && db.nextPermissionId == old(db.nextPermissionId)
      case None =>
        && id == old(db.nextPermissionId)
        && db.permissions == old(db.permissions) + [Permission(id, name, description)]
        && db.nextPermissionId == old(db.nextPermissionId) + 1
  {
    var before := db.permissions;
    var index := IndexBy(before, PermissionName, name);
    if index.Some? {
      var i := index.value;
      var p := Permission(before[i].id, name, description);
      forall j | 0 <= j < |before| && j != i ensures PermissionName(before[j]) != PermissionName(p) {
        Users.IndexUnique(before, PermissionName, j, i);
      }
      forall j | 0 <= j < |before| && j != i ensures PermissionId(before[j]) != PermissionId(p) {
        Users.IndexUnique(before, PermissionId, j, i);
      }
      UniqueReplace(before, i, p, PermissionName);
      UniqueReplace(before, i, p, PermissionId);
      db.permissions := before[i := p];
      id := p.id;
      assert db.permissions[i] == p;
      forall n | n != name ensures FindBy(db.permissions, PermissionName, n) == FindBy(before, PermissionName, n) {
        FindByReplace(before, i, p, PermissionName, n);
      }
    } else {
      var p := Permission(db.nextPermissionId, name, description);
      UniqueAppend(before, p, PermissionId);
      UniqueAppend(before, p, PermissionName);
      db.permissions := before + [p];
      db.nextPermissionId := db.nextPermissionId + 1;
      id := p.id;
      assert db.permissions[|before|] == p;
      forall n | n != name ensures FindBy(db.permissions, PermissionName, n) == FindBy(before, PermissionName, n) {
        FindByAppend(before, p, PermissionName, n);
      }
    }
    FindByUnique(db.permissions, PermissionName, Permission(id, name, description));
  }

  /** `rolePermission.upsert({where: {roleId_permissionId}, update: {}, create})`. */
  method UpsertGrant(db: IdentityDb, roleId: int, permissionId: int)
    requires db.Valid()
    modifies db`rolePermissions
    ensures db.Valid()
    ensures RolePermission(roleId, permissionId) in old(db.rolePermissions) ==>
      db.rolePermissions == old(db.rolePermissions)
    ensures RolePermission(roleId, permissionId) !in old(db.rolePermissions) ==>
      db.rolePermissions == old(db.rolePermissions) + [RolePermission(roleId, permissionId)]
  {
    var g := RolePermission(roleId, permissionId);
    if g !in db.rolePermissions {
      UniqueAppend(db.rolePermissions, g, GrantKey);
      db.rolePermissions := db.rolePermissions + [g];
    }
  }

  /** `language.upsert({where: {code}, update: {name, nativeName, isActive}, create: lang})`:
      either way the row becomes exactly `lang`. */
  method UpsertLanguage(db: IdentityDb, lang: Language)
    requires db.Valid()
    modifies db`languages
    ensures db.Valid()
    ensures FindBy(db.languages, LanguageCode, lang.code) == Some(lang)
    ensures forall c :: c != lang.code ==> FindBy(db.languages, LanguageCode, c) == FindBy(old(db.languages), LanguageCode, c)
    ensures match IndexBy(old(db.languages), LanguageCode, lang.code)
      case Some(i) => db.languages == old(db.languages)[i := lang]
      case None => db.languages == old(db.languages) + [lang]
  {
    var before := db.languages;
    var index := IndexBy(before, LanguageCode, lang.code);
    if index.Some? {
      var i := index.value;
      forall j | 0 <= j < |before| && j != i ensures LanguageCode(before[j]) != LanguageCode(lang) {
        Users.IndexUnique(before, LanguageCode, j, i);
      }
      UniqueReplace(before, i, lang, LanguageCode);
      db.languages := before[i := lang];
      assert db.languages[i] == lang;
      forall c | c != lang.code ensures FindBy(db.languages, LanguageCode, c) == FindBy(before, LanguageCode, c) {
        FindByReplace(before, i, lang, LanguageCode, c);
      }
    } else {
      UniqueAppend(before, lang, LanguageCode);
      db.languages := before + [lang];
      assert db.languages[|before|] == lang;
      forall c | c != lang.code ensures FindBy(db.languages, LanguageCode, c) == FindBy(before, LanguageCode, c) {
        FindByAppend(before, lang, LanguageCode, c);
      }
    }
    FindByUnique(db.languages, LanguageCode, lang);
  }

  /** What the role loop has established after its first `i` iterations: each
      of those names has its row, the one it had before the seed or a new one
      with its description, and the later names look up as before. */
  ghost predicate RolesUpTo(roles: seq<Role>, before: seq<Role>, roleMap: map<string, int>, i: int) {
    && 0 <= i <= |ROLE_NAMES|
    && (forall j :: 0 <= j < i ==>
          && ROLE_NAMES[j] in roleMap
          && FindBy(roles, RoleName, ROLE_NAMES[j]) == RoleAfterUpsert(before, ROLE_NAMES[j], roleMap[ROLE_NAMES[j]])
          && FindBy(roles, RoleName, ROLE_NAMES[j]).value.id == roleMap[ROLE_NAMES[j]])
    && (forall j :: i <= j < |ROLE_NAMES| ==> FindBy(roles, RoleName, ROLE_NAMES[j]) == FindBy(before, RoleName, ROLE_NAMES[j]))
  }

  /** One iteration of the role loop keeps `RolesUpTo`. */
  lemma RoleStep(roles: seq<Role>, next: seq<Role>, before: seq<Role>, roleMap: map<string, int>, i: int, id: int)
    requires RolesUpTo(roles, before, roleMap, i) && i < |ROLE_NAMES|
    requires FindBy(next, RoleName, ROLE_NAMES[i]) == RoleAfterUpsert(roles, ROLE_NAMES[i], id)
    requires FindBy(next, RoleName, ROLE_NAMES[i]).Some? && FindBy(next, RoleName, ROLE_NAMES[i]).value.id == id
    requires forall n :: n != ROLE_NAMES[i] ==> FindBy(next, RoleName, n) == FindBy(roles, RoleName, n)
    ensures RolesUpTo(next, before, roleMap[ROLE_NAMES[i] := id], i + 1)
  {
    LiteralsDistinct();
    var m := roleMap[ROLE_NAMES[i] := id];
    forall j | 0 <= j < i + 1
      ensures && ROLE_NAMES[j] in m
              && FindBy(next, RoleName, ROLE_NAMES[j]) == RoleAfterUpsert(before, ROLE_NAMES[j], m[ROLE_NAMES[j]])
              && FindBy(next, RoleName, ROLE_NAMES[j]).value.id == m[ROLE_NAMES[j]]
    {
      if j < i {
        assert ROLE_NAMES[j] != ROLE_NAMES[i];
      }
    }
    forall j | i + 1 <= j < |ROLE_NAMES|
      ensures FindBy(next, RoleName, ROLE_NAMES[j]) == FindBy(before, RoleName, ROLE_NAMES[j])
    {
      assert ROLE_NAMES[j] != ROLE_NAMES[i];
    }
  }

  /** Step 1: the roles. `roleMap` takes each role name to the id of its row;
      a role that already existed keeps its row, a missing one is created with
      its description. */
  method SeedRoles(db: IdentityDb) returns (roleMap: map<string, int>)
    requires db.Valid()
    modifies db`roles, db`nextRoleId
    ensures db.Valid()
    ensures RolesUpTo(db.roles, old(db.roles), roleMap, |ROLE_NAMES|)
    ensures (forall n :: n in ROLE_NAMES ==> FindBy(old(db.roles), RoleName, n).Some?) ==> db.roles == old(db.roles)
  {
    roleMap := map[];
    var i := 0;
    while i < |ROLE_NAMES|
      invariant db.Valid()
      invariant RolesUpTo(db.roles, old(db.roles), roleMap, i)
      invariant (forall n :: n in ROLE_NAMES ==> FindBy(old(db.roles), RoleName, n).Some?) ==> db.roles == old(db.roles)
    {
      var name := ROLE_NAMES[i];
      ghost var roles := db.roles;
      var id := UpsertRole(db, name);
      RoleStep(roles, db.roles, old(db.roles), roleMap, i, id);
      roleMap := roleMap[name := id];
      i := i + 1;
    }
  }

  /** The row a role name has after its upsert, given the table before. */
  function RoleAfterUpsert(before: seq<Role>, name: string, id: int): (r: Option<Role>)
    ensures FindBy(before, RoleName, name).None? ==> r.Some? && r.value.name == name && r.value.id == id
    ensures FindBy(before, RoleName, name).Some? ==> r == FindBy(before, RoleName, name)
  {
    match FindBy(before, RoleName, name)
    case Some(existing) => Some(existing)
    case None => Some(Role(id, name, RoleDescription(name)))
  }

  /** What the permission loops have established after `n` of the 112 iterations:
      the first n names, in order, each with its row carrying the id in the map
      and its description; an id that existed before the seed is kept; the
      later names look up as before. */
  ghost predicate PermissionsUpTo(perms: seq<Permission>, before: seq<Permission>, permissionMap: map<string, int>,
                                  keys: seq<string>, n: int)
  {
    && 0 <= n <= CATALOGUE_SIZE
    && KeysListed(permissionMap, keys, n)
    && RowsRecorded(perms, permissionMap, n)
    && IdsKept(before, permissionMap, n)
    && LaterUnchanged(perms, before, n)
  }

  /** `keys` lists the first n names in order, and the map holds only those. */
  ghost predicate KeysListed(permissionMap: map<string, int>, keys: seq<string>, n: int)
    requires 0 <= n <= CATALOGUE_SIZE
  {
    && |keys| == n
    && (forall k :: 0 <= k < n ==> keys[k] == NameAt(k))
    && (forall s :: s in permissionMap ==> s in keys)
  }

  /** Each of the first n names has its row, with the id the map holds. */
  ghost predicate RowsRecorded(perms: seq<Permission>, permissionMap: map<string, int>, n: int)
    requires 0 <= n <= CATALOGUE_SIZE
  {
    forall k :: 0 <= k < n ==> RowAt(perms, permissionMap, k)
  }

  /** The k-th name is in the map, and its row carries the mapped id and its description. */
  ghost predicate RowAt(perms: seq<Permission>, permissionMap: map<string, int>, k: int)
    requires 0 <= k < CATALOGUE_SIZE
  {
    NameAt(k) in permissionMap
    && FindBy(perms, PermissionName, NameAt(k)) == Some(Permission(permissionMap[NameAt(k)], NameAt(k), DescriptionAt(k)))
  }

  /** Among the first n names, one that had a row before the seed keeps that row's id. */
  ghost predicate IdsKept(before: seq<Permission>, permissionMap: map<string, int>, n: int)
    requires 0 <= n <= CATALOGUE_SIZE
  {
    forall k :: 0 <= k < n && FindBy(before, PermissionName, NameAt(k)).Some? ==>
      NameAt(k) in permissionMap && permissionMap[NameAt(k)] == FindBy(before, PermissionName, NameAt(k)).value.id
  }

  /** The names from the n-th on look up as they did before the seed. */
  ghost predicate LaterUnchanged(perms: seq<Permission>, before: seq<Permission>, n: int)
    requires 0 <= n <= CATALOGUE_SIZE
  {
    forall k :: n <= k < CATALOGUE_SIZE ==> FindBy(perms, PermissionName, NameAt(k)) == FindBy(before, PermissionName, NameAt(k))
  }

  /** Every generated name already has a permission row. */
  ghost predicate CatalogueStored(perms: seq<Permission>) {
    forall k :: 0 <= k < CATALOGUE_SIZE ==> FindBy(perms, PermissionName, NameAt(k)).Some?
  }

  /** The upsert of the n-th name keeps the rows of the earlier names and records its own. */
  lemma EarlierPermissionsKept(perms: seq<Permission>, next: seq<Permission>, permissionMap: map<string, int>, n: int, id: int)
    requires 0 <= n < CATALOGUE_SIZE && RowsRecorded(perms, permissionMap, n)
    requires RowAt(next, permissionMap[NameAt(n) := id], n)
    requires forall k :: 0 <= k < n ==> FindBy(next, PermissionName, NameAt(k)) == FindBy(perms, PermissionName, NameAt(k))
    ensures RowsRecorded(next, permissionMap[NameAt(n) := id], n + 1)
  {
    var m := permissionMap[NameAt(n) := id];
    forall k | 0 <= k < n ensures RowAt(next, m, k) {
      RowKept(perms, next, permissionMap, n, k, id);
    }
  }

  /** The upsert of the n-th name records its row under the id the map now holds. */
  lemma RowAdded(next: seq<Permission>, permissionMap: map<string, int>, n: int, id: int)
    requires 0 <= n < CATALOGUE_SIZE
    requires FindBy(next, PermissionName, NameAt(n)) == Some(Permission(id, NameAt(n), DescriptionAt(n)))
    ensures RowAt(next, permissionMap[NameAt(n) := id], n)
  {
  }

  /** The upsert of the n-th name leaves the row of an earlier name and its map entry alone. */
  lemma RowKept(perms: seq<Permission>, next: seq<Permission>, permissionMap: map<string, int>, n: int, k: int, id: int)
    requires 0 <= k < n < CATALOGUE_SIZE && RowAt(perms, permissionMap, k)
    requires FindBy(next, PermissionName, NameAt(k)) == FindBy(perms, PermissionName, NameAt(k))
    ensures RowAt(next, permissionMap[NameAt(n) := id], k)
  {
    NameAtFresh(n);
    assert NameAt(k) != NameAt(n);
  }

  /** The upsert of the n-th name leaves the earlier names' lookups alone. */
  lemma EarlierLookupsKept(perms: seq<Permission>, next: seq<Permission>, n: int)
    requires 0 <= n < CATALOGUE_SIZE
    requires forall s :: s != NameAt(n) ==> FindBy(next, PermissionName, s) == FindBy(perms, PermissionName, s)
    ensures forall k :: 0 <= k < n ==> FindBy(next, PermissionName, NameAt(k)) == FindBy(perms, PermissionName, NameAt(k))
  {
    NameAtFresh(n);
  }

  /** The upsert of the n-th name keeps the ids that existed before the seed. */
  lemma EarlierIdsKept(perms: seq<Permission>, before: seq<Permission>, permissionMap: map<string, int>, n: int, id: int)
    requires 0 <= n < CATALOGUE_SIZE && IdsKept(before, permissionMap, n)
    requires FindBy(perms, PermissionName, NameAt(n)) == FindBy(before, PermissionName, NameAt(n))
    requires FindBy(perms, PermissionName, NameAt(n)).Some? ==> id == FindBy(perms, PermissionName, NameAt(n)).value.id
    ensures IdsKept(before, permissionMap[NameAt(n) := id], n + 1)
  {
    forall k | 0 <= k < n && FindBy(before, PermissionName, NameAt(k)).Some?
      ensures NameAt(k) in permissionMap[NameAt(n) := id]
        && permissionMap[NameAt(n) := id][NameAt(k)] == FindBy(before, PermissionName, NameAt(k)).value.id
    {
      IdKept(before, permissionMap, n, k, id);
    }
  }

  /** Recording the id of the n-th name keeps the recorded id of an earlier name. */
  lemma IdKept(before: seq<Permission>, permissionMap: map<string, int>, n: int, k: int, id: int)
    requires 0 <= k < n < CATALOGUE_SIZE && IdsKept(before, permissionMap, n)
    requires FindBy(before, PermissionName, NameAt(k)).Some?
    ensures NameAt(k) in permissionMap[NameAt(n) := id]
    ensures permissionMap[NameAt(n) := id][NameAt(k)] == FindBy(before, PermissionName, NameAt(k)).value.id
  {
    NameAtFresh(n);
    var s := NameAt(k);
    assert s != NameAt(n);
    assert s in permissionMap && permissionMap[s] == FindBy(before, PermissionName, s).value.id;
  }

  /** The upsert of the n-th name leaves the later names' lookups alone. */
  lemma LaterPermissionsKept(perms: seq<Permission>, next: seq<Permission>, before: seq<Permission>, n: int)
    requires 0 <= n < CATALOGUE_SIZE && LaterUnchanged(perms, before, n)
    requires forall s :: s != NameAt(n) ==> FindBy(next, PermissionName, s) == FindBy(perms, PermissionName, s)
    ensures LaterUnchanged(next, before, n + 1)
  {
    forall k | n + 1 <= k < CATALOGUE_SIZE
      ensures FindBy(next, PermissionName, NameAt(k)) == FindBy(before, PermissionName, NameAt(k))
    {
      NameAtFresh(k);
    }
  }

  /** The n-th name is new to the keys and the map, and appending it keeps them in step. */
  lemma KeysStep(permissionMap: map<string, int>, keys: seq<string>, n: int, id: int)
    requires 0 <= n < CATALOGUE_SIZE && KeysListed(permissionMap, keys, n)
    ensures NameAt(n) !in keys && NameAt(n) !in permissionMap
    ensures KeysListed(permissionMap[NameAt(n) := id], keys + [NameAt(n)], n + 1)
  {
    NameAtFresh(n);
    var ks := keys + [NameAt(n)];
    forall k | 0 <= k < n + 1 ensures ks[k] == NameAt(k) {
      if k < n { assert ks[k] == keys[k]; }
    }
  }

  /** One iteration of the permission loops keeps `PermissionsUpTo`; the name it
      handles is new to the map. */
  lemma PermissionStep(perms: seq<Permission>, next: seq<Permission>, before: seq<Permission>,
                       permissionMap: map<string, int>, keys: seq<string>, n: int, id: int)
    requires PermissionsUpTo(perms, before, permissionMap, keys, n) && n < CATALOGUE_SIZE
    requires FindBy(next, PermissionName, NameAt(n)) == Some(Permission(id, NameAt(n), DescriptionAt(n)))
    requires FindBy(perms, PermissionName, NameAt(n)).Some? ==> id == FindBy(perms, PermissionName, NameAt(n)).value.id
    requires forall s :: s != NameAt(n) ==> FindBy(next, PermissionName, s) == FindBy(perms, PermissionName, s)
    ensures NameAt(n) !in permissionMap
    ensures CatalogueStored(before) ==> FindBy(perms, PermissionName, NameAt(n)).Some?
    ensures PermissionsUpTo(next, before, permissionMap[NameAt(n) := id], keys + [NameAt(n)], n + 1)
  {
    KeysStep(permissionMap, keys, n, id);
    EarlierLookupsKept(perms, next, n);
    RowAdded(next, permissionMap, n, id);
    EarlierPermissionsKept(perms, next, permissionMap, n, id);
    EarlierIdsKept(perms, before, permissionMap, n, id);
    LaterPermissionsKept(perms, next, before, n);
  }

  /** One iteration of the permission loops: the upsert of `${action}_${model}`
      and its entry in `permissionMap`. */
  method SeedPermission(db: IdentityDb, mi: int, ai: int, permissionMap: map<string, int>, keys: seq<string>,
                        ghost before: seq<Permission>)
    returns (permissionMap': map<string, int>, keys': seq<string>)
    requires db.Valid() && 0 <= mi < |MODELS| && 0 <= ai < |ACTIONS|
    requires PermissionsUpTo(db.permissions, before, permissionMap, keys, 4 * mi + ai)
    modifies db`permissions, db`nextPermissionId
    ensures db.Valid()
    ensures PermissionsUpTo(db.permissions, before, permissionMap', keys', 4 * mi + ai + 1)
    ensures CatalogueStored(before) ==> |db.permissions| == |old(db.permissions)|
  {
    var name := ACTIONS[ai] + "_" + MODELS[mi];
    var description := Slugs.ToLower(ACTIONS[ai]) + " " + Slugs.ToLower(MODELS[mi]);
    NameAtPosition(mi, ai);
    var id := UpsertPermission(db, name, description);
    PermissionStep(old(db.permissions), db.permissions, before, permissionMap, keys, 4 * mi + ai, id);
    keys' := keys;
    if name !in permissionMap {
      keys' := keys + [name];
    }
    permissionMap' := permissionMap[name := id];
  }

  /** Step 2: the permission catalogue, models outside and actions inside.
      `permissionMap` takes each generated name to its row's id and `keys`
      lists the names in insertion order, the order `Object.keys`,
      `Object.values` and `Object.entries` return them. */
  method SeedPermissions(db: IdentityDb) returns (permissionMap: map<string, int>, keys: seq<string>)
    requires db.Valid()
    modifies db`permissions, db`nextPermissionId
    ensures db.Valid()
    ensures PermissionsUpTo(db.permissions, old(db.permissions), permissionMap, keys, CATALOGUE_SIZE)
    ensures CatalogueStored(old(db.permissions)) ==> |db.permissions| == |old(db.permissions)|
  {
    permissionMap, keys := map[], [];
    var mi := 0;
    while mi < |MODELS|
      invariant 0 <= mi <= |MODELS|
      invariant db.Valid()
      invariant PermissionsUpTo(db.permissions, old(db.permissions), permissionMap, keys, 4 * mi)
      invariant CatalogueStored(old(db.permissions)) ==> |db.permissions| == |old(db.permissions)|
    {
      var ai := 0;
      while ai < |ACTIONS|
        invariant 0 <= ai <= |ACTIONS|
        invariant db.Valid()
        invariant PermissionsUpTo(db.permissions, old(db.permissions), permissionMap, keys, 4 * mi + ai)
        invariant CatalogueStored(old(db.permissions)) ==> |db.permissions| == |old(db.permissions)|
      {
        permissionMap, keys := SeedPermission(db, mi, ai, permissionMap, keys, old(db.permissions));
        ai := ai + 1;
      }
      mi := mi + 1;
    }
  }

  /** A grant this run added: to `roleId`, for the id of one of `names` that `p` accepts. */
  ghost predicate GrantedFrom(g: RolePermission, roleId: int, permissionMap: map<string, int>, names: seq<string>,
                              p: string -> bool)
  {
    g.roleId == roleId
    && exists k :: 0 <= k < |names| && p(names[k]) && names[k] in permissionMap && g.permissionId == permissionMap[names[k]]
  }

  /** Every name of `names` that `p` accepts is mapped and granted to `roleId` in `grants`. */
  ghost predicate AllGranted(grants: seq<RolePermission>, roleId: int, permissionMap: map<string, int>,
                             names: seq<string>, p: string -> bool, n: int)
  {
    forall j :: 0 <= j < n && j < |names| && p(names[j]) ==>
      names[j] in permissionMap && RolePermission(roleId, permissionMap[names[j]]) in grants
  }

  /** The state of a grant loop after visiting `names[..i]`, started from `before`. */
  ghost predicate GrantsUpTo(grants: seq<RolePermission>, before: seq<RolePermission>, roleId: int,
                             permissionMap: map<string, int>, names: seq<string>, p: string -> bool, i: int)
  {
    0 <= i <= |names|
    && (forall g :: g in before ==> g in grants)
    && AllGranted(grants, roleId, permissionMap, names, p, i)
    && (forall g :: g in grants ==> g in before || GrantedFrom(g, roleId, permissionMap, names, p))
    && (AllGranted(before, roleId, permissionMap, names, p, |names|) ==> grants == before)
  }

  /** One visit of a grant loop to a name it grants. */
  method GrantOne(db: IdentityDb, roleId: int, permissionMap: map<string, int>, names: seq<string>,
                  p: string -> bool, i: nat, ghost before: seq<RolePermission>)
    requires db.Valid() && i < |names| && p(names[i]) && names[i] in permissionMap
    requires GrantsUpTo(db.rolePermissions, before, roleId, permissionMap, names, p, i)
    modifies db`rolePermissions
    ensures db.Valid()
    ensures GrantsUpTo(db.rolePermissions, before, roleId, permissionMap, names, p, i + 1)
  {
    ghost var prev := db.rolePermissions;
    UpsertGrant(db, roleId, permissionMap[names[i]]);
    forall g | g in db.rolePermissions
      ensures g in before || GrantedFrom(g, roleId, permissionMap, names, p)
    {
      if g !in prev {
        assert g == RolePermission(roleId, permissionMap[names[i]]);
        assert GrantedFrom(g, roleId, permissionMap, names, p);
      }
    }
    if AllGranted(before, roleId, permissionMap, names, p, |names|) {
      assert RolePermission(roleId, permissionMap[names[i]]) in prev;
    }
  }

  /** One visit of a grant loop to a name it skips. */
  lemma GrantSkip(grants: seq<RolePermission>, before: seq<RolePermission>, roleId: int,
                  permissionMap: map<string, int>, names: seq<string>, p: string -> bool, i: nat)
    requires i < |names| && !p(names[i])
    requires GrantsUpTo(grants, before, roleId, permissionMap, names, p, i)
    ensures GrantsUpTo(grants, before, roleId, permissionMap, names, p, i + 1)
  {
  }

  /** Every name passes. */
  function AnyName(n: string): bool { true }

  /** `key.startsWith("READ_")`. */
  function ReadName(n: string): bool { StartsWith(n, "READ_") }

  /** `if (permissionMap[permissionName])`: the name is in the map with a non-zero id. */
  function Granted(permissionMap: map<string, int>): string -> bool {
    (n: string) => n in permissionMap && permissionMap[n] != 0
  }

  /** Step 4: `roleId` (SUPER_ADMIN) is granted every permission in the map,
      visited in key order, and the counter counts every visit. */
  method GrantAll(db: IdentityDb, roleId: int, permissionMap: map<string, int>, keys: seq<string>) returns (count: nat)
    requires db.Valid()
    requires forall k :: 0 <= k < |keys| ==> keys[k] in permissionMap
    modifies db`rolePermissions
    ensures db.Valid()
    ensures count == |keys|
    ensures GrantsUpTo(db.rolePermissions, old(db.rolePermissions), roleId, permissionMap, keys, AnyName, |keys|)
  {
    count := 0;
    var i := 0;
    while i < |keys|
      invariant count == i
      invariant db.Valid()
      invariant GrantsUpTo(db.rolePermissions, old(db.rolePermissions), roleId, permissionMap, keys, AnyName, i)
    {
      GrantOne(db, roleId, permissionMap, keys, AnyName, i, old(db.rolePermissions));
      count := count + 1;
      i := i + 1;
    }
  }

  /** Step 5: `roleId` (USER) is granted the permissions whose name starts with
      "READ_", visited in key order; the counter counts the grants. */
  method GrantReads(db: IdentityDb, roleId: int, permissionMap: map<string, int>, keys: seq<string>) returns (count: nat)
    requires db.Valid()
    requires forall k :: 0 <= k < |keys| ==> keys[k] in permissionMap
    modifies db`rolePermissions
    ensures db.Valid()
    ensures count == |Filter(keys, ReadName)|
    ensures GrantsUpTo(db.rolePermissions, old(db.rolePermissions), roleId, permissionMap, keys, ReadName, |keys|)
  {
    count := 0;
    var i := 0;
    while i < |keys|
      invariant 0 <= i <= |keys| && count == |Filter(keys[..i], ReadName)|
      invariant db.Valid()
      invariant GrantsUpTo(db.rolePermissions, old(db.rolePermissions), roleId, permissionMap, keys, ReadName, i)
    {
      var key := keys[i];
      FilterPrefixStep(keys, i, ReadName);
      if ReadName(key) {
        GrantOne(db, roleId, permissionMap, keys, ReadName, i, old(db.rolePermissions));
        count := count + 1;
      } else {
        GrantSkip(db.rolePermissions, old(db.rolePermissions), roleId, permissionMap, keys, ReadName, i);
      }
      i := i + 1;
    }
    assert keys[..i] == keys;
  }

  /** Step 6: `roleId` (EDITOR) is granted each name of `names` (the seed
      passes `EDITOR_PERMISSIONS`) that the map holds with a non-zero id; a
      missing name is skipped without a grant or a count. */
  method GrantEditor(db: IdentityDb, roleId: int, permissionMap: map<string, int>, names: seq<string>) returns (count: nat)
    requires db.Valid()
    modifies db`rolePermissions
    ensures db.Valid()
    ensures count == |Filter(names, Granted(permissionMap))|
    ensures GrantsUpTo(db.rolePermissions, old(db.rolePermissions), roleId, permissionMap, names, Granted(permissionMap), |names|)
  {
    var granted := Granted(permissionMap);
    count := 0;
    var i := 0;
    while i < |names|
      invariant 0 <= i <= |names| && count == |Filter(names[..i], granted)|
      invariant db.Valid()
      invariant GrantsUpTo(db.rolePermissions, old(db.rolePermissions), roleId, permissionMap, names, granted, i)
    {
      var permissionName := names[i];
      FilterPrefixStep(names, i, granted);
      if permissionName in permissionMap && permissionMap[permissionName] != 0 {
        assert granted(permissionName);
        GrantOne(db, roleId, permissionMap, names, granted, i, old(db.rolePermissions));
        count := count + 1;
      } else {
        assert !granted(permissionName);
        GrantSkip(db.rolePermissions, old(db.rolePermissions), roleId, permissionMap, names, granted, i);
      }
      i := i + 1;
    }
    assert names[..i] == names;
  }

  /** After the permission loops every generated name maps to a stored id,
      which is non-zero because autoincrement ids start at 1. */
  lemma CatalogueIdsGranted(perms: seq<Permission>, next: int, before: seq<Permission>,
                            permissionMap: map<string, int>, keys: seq<string>)
    requires PermissionsValid(perms, next)
    requires PermissionsUpTo(perms, before, permissionMap, keys, CATALOGUE_SIZE)
    ensures forall k :: 0 <= k < CATALOGUE_SIZE ==> Granted(permissionMap)(NameAt(k))
  {
    forall k | 0 <= k < CATALOGUE_SIZE ensures Granted(permissionMap)(NameAt(k)) {
      assert RowAt(perms, permissionMap, k);
      var p := FindBy(perms, PermissionName, NameAt(k)).value;
      var i :| 0 <= i < |perms| && perms[i] == p;
      assert PermissionId(perms[i]) >= 1;
    }
  }

  /** A generated name is a READ_ name exactly at the positions 1, 5, 9, ... */
  lemma ReadAt(k: int)
    requires 0 <= k < CATALOGUE_SIZE
    ensures ReadName(NameAt(k)) <==> k % 4 == 1
  {
    LiteralsDistinct();
    ReadPrefix(k % 4, k / 4);
  }

  lemma QuarterStep(n: int)
    requires n > 0
    ensures (n + 2) / 4 == (n + 1) / 4 + (if (n - 1) % 4 == 1 then 1 else 0)
  {
  }

  /** In a sequence whose READ_ names sit exactly at positions 1, 5, 9, ..., the
      first `n` entries hold (n + 2) / 4 of them. */
  lemma {:induction false} ReadCountUpTo(keys: seq<string>, n: nat)
    requires forall k :: 0 <= k < |keys| ==> (ReadName(keys[k]) <==> k % 4 == 1)
    requires n <= |keys|
    ensures |Filter(keys[..n], ReadName)| == (n + 2) / 4
  {
    if n > 0 {
      var prefix, x := keys[..n - 1], keys[n - 1];
      ReadCountUpTo(keys, n - 1);
      assert keys[..n] == prefix + [x];
      FilterSnoc(prefix, x, ReadName);
      QuarterStep(n);
    }
  }

  /** USER is granted one READ_ permission per model: 28. */
  lemma ReadCount(keys: seq<string>)
    requires |keys| == CATALOGUE_SIZE && forall k :: 0 <= k < CATALOGUE_SIZE ==> keys[k] == NameAt(k)
    ensures |Filter(keys, ReadName)| == |MODELS| == 28
  {
    forall k | 0 <= k < |keys| ensures ReadName(keys[k]) <==> k % 4 == 1 {
      ReadAt(k);
    }
    ReadCountUpTo(keys, CATALOGUE_SIZE);
    assert keys[..CATALOGUE_SIZE] == keys;
    LiteralsDistinct();
  }

  /** EDITOR is granted every one of its 69 listed names, since each of them is generated. */
  lemma EditorCount(permissionMap: map<string, int>)
    requires forall k :: 0 <= k < CATALOGUE_SIZE ==> Granted(permissionMap)(NameAt(k))
    ensures Filter(EDITOR_PERMISSIONS, Granted(permissionMap)) == EDITOR_PERMISSIONS
    ensures |Filter(EDITOR_PERMISSIONS, Granted(permissionMap))| == 69
  {
    EditorEntries();
    forall n | n in EDITOR_PERMISSIONS ensures Granted(permissionMap)(n) {
      var j :| 0 <= j < |EDITOR_PERMISSIONS| && EDITOR_PERMISSIONS[j] == n;
      EditorWithinCatalogue(j);
    }
    FilterAllPass(EDITOR_PERMISSIONS, Granted(permissionMap));
  }

  /** Role `roleName` holds permission `permName` in these tables. */
  ghost predicate GrantIn(roles: seq<Role>, perms: seq<Permission>, grants: seq<RolePermission>,
                          roleName: string, permName: string)
  {
    && FindBy(roles, RoleName, roleName).Some?
    && FindBy(perms, PermissionName, permName).Some?
    && RolePermission(FindBy(roles, RoleName, roleName).value.id, FindBy(perms, PermissionName, permName).value.id) in grants
  }

  /** Everything steps 1-6 write is in place: the four roles, the 112
      permissions and the grants of SUPER_ADMIN (all), USER (the READ_ ones)
      and EDITOR (its list). */
  ghost predicate AccessSeeded(roles: seq<Role>, perms: seq<Permission>, grants: seq<RolePermission>) {
    && (forall j :: 0 <= j < |ROLE_NAMES| ==> FindBy(roles, RoleName, ROLE_NAMES[j]).Some?)
    && CatalogueStored(perms)
    && (forall k :: 0 <= k < CATALOGUE_SIZE ==> GrantIn(roles, perms, grants, "SUPER_ADMIN", NameAt(k)))
    && (forall k :: 0 <= k < CATALOGUE_SIZE && k % 4 == 1 ==> GrantIn(roles, perms, grants, "USER", NameAt(k)))
    && (forall j :: 0 <= j < |EDITOR_PERMISSIONS| ==> GrantIn(roles, perms, grants, "EDITOR", EDITOR_PERMISSIONS[j]))
  }

  /** One of the 112 generated names. */
  ghost predicate InCatalogue(n: string) {
    exists k :: 0 <= k < CATALOGUE_SIZE && n == NameAt(k)
  }

  /** After the permission loops a generated name is in the map with the id of
      its row, and that is the id its row had before the seed, if it had one. */
  lemma MapAgrees(perms: seq<Permission>, before: seq<Permission>, permissionMap: map<string, int>,
                  keys: seq<string>, n: string)
    requires PermissionsUpTo(perms, before, permissionMap, keys, CATALOGUE_SIZE) && InCatalogue(n)
    ensures n in permissionMap
    ensures FindBy(perms, PermissionName, n).Some? && FindBy(perms, PermissionName, n).value.id == permissionMap[n]
    ensures FindBy(before, PermissionName, n).Some? ==> FindBy(before, PermissionName, n).value.id == permissionMap[n]
  {
    var k :| 0 <= k < CATALOGUE_SIZE && n == NameAt(k);
    assert RowAt(perms, permissionMap, k);
  }

  /** Role `roleName` holds every name of `names` that `p` accepts. */
  ghost predicate RoleGranted(roles: seq<Role>, perms: seq<Permission>, grants: seq<RolePermission>,
                              roleName: string, names: seq<string>, p: string -> bool)
  {
    forall j :: 0 <= j < |names| && p(names[j]) ==> GrantIn(roles, perms, grants, roleName, names[j])
  }

  /** What a grant loop achieves, in terms of the tables: the role holds every
      name the loop grants; and when it held them all beforehand (as after an
      earlier run, whose ids the permission loops kept), nothing was added. */
  lemma GrantLoopEffect(roles: seq<Role>, perms: seq<Permission>, before: seq<Permission>, permissionMap: map<string, int>,
                        keys: seq<string>, grantsOld: seq<RolePermission>, grantsNew: seq<RolePermission>,
                        roleName: string, roleId: int, names: seq<string>, p: string -> bool)
    requires PermissionsUpTo(perms, before, permissionMap, keys, CATALOGUE_SIZE)
    requires FindBy(roles, RoleName, roleName).Some? && FindBy(roles, RoleName, roleName).value.id == roleId
    requires forall j :: 0 <= j < |names| && p(names[j]) ==> InCatalogue(names[j])
    requires GrantsUpTo(grantsNew, grantsOld, roleId, permissionMap, names, p, |names|)
    ensures RoleGranted(roles, perms, grantsNew, roleName, names, p)
    ensures RoleGranted(roles, before, grantsOld, roleName, names, p) ==> grantsNew == grantsOld
  {
    forall j | 0 <= j < |names| && p(names[j]) ensures GrantIn(roles, perms, grantsNew, roleName, names[j]) {
      MapAgrees(perms, before, permissionMap, keys, names[j]);
    }
    if RoleGranted(roles, before, grantsOld, roleName, names, p) {
      forall j | 0 <= j < |names| && p(names[j])
        ensures names[j] in permissionMap && RolePermission(roleId, permissionMap[names[j]]) in grantsOld
      {
        MapAgrees(perms, before, permissionMap, keys, names[j]);
      }
    }
  }

  /** A role's grants survive into any table that contains them. */
  lemma RoleGrantedGrows(roles: seq<Role>, perms: seq<Permission>, grants: seq<RolePermission>, more: seq<RolePermission>,
                         roleName: string, names: seq<string>, p: string -> bool)
    requires RoleGranted(roles, perms, grants, roleName, names, p)
    requires forall g :: g in grants ==> g in more
    ensures RoleGranted(roles, perms, more, roleName, names, p)
  {
  }

  /** Every listed editor name is generated. */
  lemma EditorInCatalogue()
    ensures forall j :: 0 <= j < |EDITOR_PERMISSIONS| ==> InCatalogue(EDITOR_PERMISSIONS[j])
  {
    forall j | 0 <= j < |EDITOR_PERMISSIONS| ensures InCatalogue(EDITOR_PERMISSIONS[j]) {
      EditorWithinCatalogue(j);
    }
  }

  /** The key list holds the generated names in order. */
  lemma KeysInCatalogue(keys: seq<string>)
    requires |keys| == CATALOGUE_SIZE && forall k :: 0 <= k < CATALOGUE_SIZE ==> keys[k] == NameAt(k)
    ensures forall j :: 0 <= j < |keys| ==> InCatalogue(keys[j])
  {
    forall j | 0 <= j < |keys| ensures InCatalogue(keys[j]) {
      assert keys[j] == NameAt(j);
    }
  }

  /** After the permission loops every listed key is in the map. */
  lemma KeysMapped(perms: seq<Permission>, before: seq<Permission>, permissionMap: map<string, int>, keys: seq<string>)
    requires PermissionsUpTo(perms, before, permissionMap, keys, CATALOGUE_SIZE)
    ensures forall k :: 0 <= k < |keys| ==> keys[k] in permissionMap
  {
    forall k | 0 <= k < |keys| ensures keys[k] in permissionMap {
      assert RowAt(perms, permissionMap, k);
    }
  }

  /** The three grant loops' results, restated as `AccessSeeded`. */
  lemma SeededGrants(roles: seq<Role>, perms: seq<Permission>, grants: seq<RolePermission>,
                     keys: seq<string>, permissionMap: map<string, int>)
    requires |keys| == CATALOGUE_SIZE && forall k :: 0 <= k < CATALOGUE_SIZE ==> keys[k] == NameAt(k)
    requires forall j :: 0 <= j < |ROLE_NAMES| ==> FindBy(roles, RoleName, ROLE_NAMES[j]).Some?
    requires CatalogueStored(perms)
    requires forall k :: 0 <= k < CATALOGUE_SIZE ==> Granted(permissionMap)(NameAt(k))
    requires RoleGranted(roles, perms, grants, "SUPER_ADMIN", keys, AnyName)
    requires RoleGranted(roles, perms, grants, "USER", keys, ReadName)
    requires RoleGranted(roles, perms, grants, "EDITOR", EDITOR_PERMISSIONS, Granted(permissionMap))
    ensures AccessSeeded(roles, perms, grants)
  {
    forall k | 0 <= k < CATALOGUE_SIZE ensures GrantIn(roles, perms, grants, "SUPER_ADMIN", NameAt(k)) {
      assert AnyName(keys[k]);
    }
    forall k | 0 <= k < CATALOGUE_SIZE && k % 4 == 1 ensures GrantIn(roles, perms, grants, "USER", NameAt(k)) {
      ReadAt(k);
      assert ReadName(keys[k]);
    }
    EditorInCatalogue();
    forall j | 0 <= j < |EDITOR_PERMISSIONS| ensures Granted(permissionMap)(EDITOR_PERMISSIONS[j]) {
      var k :| 0 <= k < CATALOGUE_SIZE && EDITOR_PERMISSIONS[j] == NameAt(k);
    }
  }

  /** `AccessSeeded` gives what each grant loop would grant. */
  lemma SeededRoleGrants(roles: seq<Role>, perms: seq<Permission>, grants: seq<RolePermission>,
                         keys: seq<string>, permissionMap: map<string, int>)
    requires |keys| == CATALOGUE_SIZE && forall k :: 0 <= k < CATALOGUE_SIZE ==> keys[k] == NameAt(k)
    requires AccessSeeded(roles, perms, grants)
    ensures RoleGranted(roles, perms, grants, "SUPER_ADMIN", keys, AnyName)
    ensures RoleGranted(roles, perms, grants, "USER", keys, ReadName)
    ensures RoleGranted(roles, perms, grants, "EDITOR", EDITOR_PERMISSIONS, Granted(permissionMap))
  {
    forall j | 0 <= j < |keys| && ReadName(keys[j]) ensures GrantIn(roles, perms, grants, "USER", keys[j]) {
      ReadAt(j);
    }
  }

  /** ADMIN's row is none of the rows of the three roles that receive grants. */
  lemma AdminIsOther(roles: seq<Role>, superAdminId: int, userRoleId: int, editorRoleId: int)
    requires Unique(roles, RoleId)
    requires FindBy(roles, RoleName, "SUPER_ADMIN").Some? && FindBy(roles, RoleName, "SUPER_ADMIN").value.id == superAdminId
    requires FindBy(roles, RoleName, "USER").Some? && FindBy(roles, RoleName, "USER").value.id == userRoleId
    requires FindBy(roles, RoleName, "EDITOR").Some? && FindBy(roles, RoleName, "EDITOR").value.id == editorRoleId
    ensures forall r :: r in roles && r.name == "ADMIN" ==> r.id != superAdminId && r.id != userRoleId && r.id != editorRoleId
  {
    forall r | r in roles && r.name == "ADMIN"
      ensures r.id != superAdminId && r.id != userRoleId && r.id != editorRoleId
    {
      var names := ["SUPER_ADMIN", "USER", "EDITOR"];
      forall n | n in names ensures r.id != FindBy(roles, RoleName, n).value.id {
        var other := FindBy(roles, RoleName, n).value;
        if r.id == other.id {
          UniqueKeyMember(roles, RoleId, r, other);
        }
      }
    }
  }

  /** The counters steps 2, 4, 5 and 6 print: the size of the permission map and
      the grants made to SUPER_ADMIN, USER and EDITOR. */
  datatype AccessCounts = AccessCounts(permissions: nat, superAdmin: nat, user: nat, editor: nat)

  /** The role map holds the id of each role's row. */
  ghost predicate RoleIdsAgree(roles: seq<Role>, roleMap: map<string, int>) {
    forall j :: 0 <= j < |ROLE_NAMES| ==>
      && ROLE_NAMES[j] in roleMap
      && FindBy(roles, RoleName, ROLE_NAMES[j]).Some?
      && FindBy(roles, RoleName, ROLE_NAMES[j]).value.id == roleMap[ROLE_NAMES[j]]
  }

  /** Step 4 on the tables: SUPER_ADMIN holds all 112 permissions, and nothing is added for another role. */
  method SeedSuperAdminGrants(db: IdentityDb, roleId: int, permissionMap: map<string, int>, keys: seq<string>,
               ghost permsBefore: seq<Permission>) returns (count: nat)
    requires db.Valid()
    requires PermissionsUpTo(db.permissions, permsBefore, permissionMap, keys, CATALOGUE_SIZE)
    requires FindBy(db.roles, RoleName, "SUPER_ADMIN").Some? && FindBy(db.roles, RoleName, "SUPER_ADMIN").value.id == roleId
    modifies db`rolePermissions
    ensures db.Valid()
    ensures count == CATALOGUE_SIZE
    ensures RoleGranted(db.roles, db.permissions, db.rolePermissions, "SUPER_ADMIN", keys, AnyName)
    ensures forall g :: g in old(db.rolePermissions) ==> g in db.rolePermissions
    ensures forall g :: g in db.rolePermissions && g !in old(db.rolePermissions) ==> g.roleId == roleId
    ensures RoleGranted(db.roles, permsBefore, old(db.rolePermissions), "SUPER_ADMIN", keys, AnyName) ==>
      db.rolePermissions == old(db.rolePermissions)
  {
    KeysInCatalogue(keys);
    KeysMapped(db.permissions, permsBefore, permissionMap, keys);
    count := GrantAll(db, roleId, permissionMap, keys);
    GrantLoopEffect(db.roles, db.permissions, permsBefore, permissionMap, keys, old(db.rolePermissions), db.rolePermissions,
                    "SUPER_ADMIN", roleId, keys, AnyName);
  }

  /** Step 5 on the tables: USER holds the 28 READ_ permissions, and nothing is added for another role. */
  method SeedUserGrants(db: IdentityDb, roleId: int, permissionMap: map<string, int>, keys: seq<string>,
               ghost permsBefore: seq<Permission>) returns (count: nat)
    requires db.Valid()
    requires PermissionsUpTo(db.permissions, permsBefore, permissionMap, keys, CATALOGUE_SIZE)
    requires FindBy(db.roles, RoleName, "USER").Some? && FindBy(db.roles, RoleName, "USER").value.id == roleId
    modifies db`rolePermissions
    ensures db.Valid()
    ensures count == |MODELS|
    ensures RoleGranted(db.roles, db.permissions, db.rolePermissions, "USER", keys, ReadName)
    ensures forall g :: g in old(db.rolePermissions) ==> g in db.rolePermissions
    ensures forall g :: g in db.rolePermissions && g !in old(db.rolePermissions) ==> g.roleId == roleId
    ensures RoleGranted(db.roles, permsBefore, old(db.rolePermissions), "USER", keys, ReadName) ==>
      db.rolePermissions == old(db.rolePermissions)
  {
    KeysInCatalogue(keys);
    forall j | 0 <= j < |keys| ensures ReadName(keys[j]) <==> j % 4 == 1 {
      ReadAt(j);
    }
    ReadCount(keys);
    KeysMapped(db.permissions, permsBefore, permissionMap, keys);
    count := GrantReads(db, roleId, permissionMap, keys);
    GrantLoopEffect(db.roles, db.permissions, permsBefore, permissionMap, keys, old(db.rolePermissions), db.rolePermissions,
                    "USER", roleId, keys, ReadName);
  }

  /** Step 6 on the tables: EDITOR holds all 69 listed permissions, and nothing is added for another role. */
  method SeedEditorGrants(db: IdentityDb, roleId: int, permissionMap: map<string, int>, keys: seq<string>,
               ghost permsBefore: seq<Permission>) returns (count: nat)
    requires db.Valid()
    requires PermissionsUpTo(db.permissions, permsBefore, permissionMap, keys, CATALOGUE_SIZE)
    requires FindBy(db.roles, RoleName, "EDITOR").Some? && FindBy(db.roles, RoleName, "EDITOR").value.id == roleId
    modifies db`rolePermissions
    ensures db.Valid()
    ensures count == |EDITOR_PERMISSIONS|
    ensures RoleGranted(db.roles, db.permissions, db.rolePermissions, "EDITOR", EDITOR_PERMISSIONS, Granted(permissionMap))
    ensures forall g :: g in old(db.rolePermissions) ==> g in db.rolePermissions
    ensures forall g :: g in db.rolePermissions && g !in old(db.rolePermissions) ==> g.roleId == roleId
    ensures RoleGranted(db.roles, permsBefore, old(db.rolePermissions), "EDITOR", EDITOR_PERMISSIONS, Granted(permissionMap)) ==>
      db.rolePermissions == old(db.rolePermissions)
  {
    EditorInCatalogue();
    CatalogueIdsGranted(db.permissions, db.nextPermissionId, permsBefore, permissionMap, keys);
    EditorCount(permissionMap);
    count := GrantEditor(db, roleId, permissionMap, EDITOR_PERMISSIONS);
    GrantLoopEffect(db.roles, db.permissions, permsBefore, permissionMap, keys, old(db.rolePermissions), db.rolePermissions,
                    "EDITOR", roleId, EDITOR_PERMISSIONS, Granted(permissionMap));
  }

  /** Steps 4-6, given the role ids of step 1 and the permission map of steps 2-3. */
  method SeedGrants(db: IdentityDb, roleMap: map<string, int>, permissionMap: map<string, int>, keys: seq<string>,
                    ghost permsBefore: seq<Permission>)
    returns (superAdminCount: nat, userCount: nat, editorCount: nat)
    requires db.Valid()
    requires RoleIdsAgree(db.roles, roleMap)
    requires PermissionsUpTo(db.permissions, permsBefore, permissionMap, keys, CATALOGUE_SIZE)
    modifies db`rolePermissions
    ensures db.Valid()
    ensures superAdminCount == CATALOGUE_SIZE && userCount == |MODELS| && editorCount == |EDITOR_PERMISSIONS|
    ensures AccessSeeded(db.roles, db.permissions, db.rolePermissions)
    ensures forall g :: g in old(db.rolePermissions) ==> g in db.rolePermissions
    ensures forall role, g :: role in db.roles && role.name == "ADMIN" && g in db.rolePermissions && g.roleId == role.id ==>
      g in old(db.rolePermissions)
    ensures AccessSeeded(db.roles, permsBefore, old(db.rolePermissions)) ==> db.rolePermissions == old(db.rolePermissions)
  {
    ghost var roles, perms, grants0 := db.roles, db.permissions, db.rolePermissions;
    assert ROLE_NAMES[0] == "SUPER_ADMIN" && ROLE_NAMES[2] == "EDITOR" && ROLE_NAMES[3] == "USER";
    var superAdminId, userRoleId, editorRoleId := roleMap["SUPER_ADMIN"], roleMap["USER"], roleMap["EDITOR"];
    superAdminCount := SeedSuperAdminGrants(db, superAdminId, permissionMap, keys, permsBefore);
    ghost var grants1 := db.rolePermissions;
    userCount := SeedUserGrants(db, userRoleId, permissionMap, keys, permsBefore);
    ghost var grants2 := db.rolePermissions;
    editorCount := SeedEditorGrants(db, editorRoleId, permissionMap, keys, permsBefore);
    assert db.roles == roles && db.permissions == perms;
    GrantStepsCompose(db.roles, db.permissions, db.nextPermissionId, permsBefore, permissionMap, keys,
                      grants0, grants1, grants2, db.rolePermissions, superAdminId, userRoleId, editorRoleId);
  }

  /** The three grant steps together: every role holds its grants, no grant
      is lost, none is added for ADMIN, and on a re-run nothing is added. */
  lemma GrantStepsCompose(roles: seq<Role>, perms: seq<Permission>, next: int, before: seq<Permission>,
                          permissionMap: map<string, int>, keys: seq<string>,
                          grants0: seq<RolePermission>, grants1: seq<RolePermission>,
                          grants2: seq<RolePermission>, grants3: seq<RolePermission>,
                          superAdminId: int, userRoleId: int, editorRoleId: int)
    requires Unique(roles, RoleId) && PermissionsValid(perms, next)
    requires PermissionsUpTo(perms, before, permissionMap, keys, CATALOGUE_SIZE)
    requires FindBy(roles, RoleName, "SUPER_ADMIN").Some? && FindBy(roles, RoleName, "SUPER_ADMIN").value.id == superAdminId
    requires FindBy(roles, RoleName, "USER").Some? && FindBy(roles, RoleName, "USER").value.id == userRoleId
    requires FindBy(roles, RoleName, "EDITOR").Some? && FindBy(roles, RoleName, "EDITOR").value.id == editorRoleId
    requires forall j :: 0 <= j < |ROLE_NAMES| ==> FindBy(roles, RoleName, ROLE_NAMES[j]).Some?
    requires RoleGranted(roles, perms, grants1, "SUPER_ADMIN", keys, AnyName)
    requires RoleGranted(roles, perms, grants2, "USER", keys, ReadName)
    requires RoleGranted(roles, perms, grants3, "EDITOR", EDITOR_PERMISSIONS, Granted(permissionMap))
    requires forall g :: g in grants0 ==> g in grants1
    requires forall g :: g in grants1 ==> g in grants2
    requires forall g :: g in grants2 ==> g in grants3
    requires forall g :: g in grants1 && g !in grants0 ==> g.roleId == superAdminId
    requires forall g :: g in grants2 && g !in grants1 ==> g.roleId == userRoleId
    requires forall g :: g in grants3 && g !in grants2 ==> g.roleId == editorRoleId
    requires RoleGranted(roles, before, grants0, "SUPER_ADMIN", keys, AnyName) ==> grants1 == grants0
    requires RoleGranted(roles, before, grants1, "USER", keys, ReadName) ==> grants2 == grants1
    requires RoleGranted(roles, before, grants2, "EDITOR", EDITOR_PERMISSIONS, Granted(permissionMap)) ==> grants3 == grants2
    ensures AccessSeeded(roles, perms, grants3)
    ensures forall g :: g in grants0 ==> g in grants3
    ensures forall role, g :: role in roles && role.name == "ADMIN" && g in grants3 && g.roleId == role.id ==> g in grants0
    ensures AccessSeeded(roles, before, grants0) ==> grants3 == grants0
  {
    CatalogueIdsGranted(perms, next, before, permissionMap, keys);
    if AccessSeeded(roles, before, grants0) {
      SeededRoleGrants(roles, before, grants0, keys, permissionMap);
    }
    RoleGrantedGrows(roles, perms, grants1, grants3, "SUPER_ADMIN", keys, AnyName);
    RoleGrantedGrows(roles, perms, grants2, grants3, "USER", keys, ReadName);
    SeededGrants(roles, perms, grants3, keys, permissionMap);
    AdminIsOther(roles, superAdminId, userRoleId, editorRoleId);
  }

  /** Steps 1-6. Afterwards the roles, the catalogue and the three roles'
      grants are in place; grants are only added, never to ADMIN; and when all
      of it was in place already, no row is added. */
  method SeedAccessControl(db: IdentityDb) returns (counts: AccessCounts, superAdminId: int)
    requires db.Valid()
    modifies db`roles, db`nextRoleId, db`permissions, db`nextPermissionId, db`rolePermissions
    ensures db.Valid()
    ensures FindBy(db.roles, RoleName, "SUPER_ADMIN").Some? && FindBy(db.roles, RoleName, "SUPER_ADMIN").value.id == superAdminId
    ensures counts == AccessCounts(CATALOGUE_SIZE, CATALOGUE_SIZE, |MODELS|, |EDITOR_PERMISSIONS|)
    ensures AccessSeeded(db.roles, db.permissions, db.rolePermissions)
    ensures forall g :: g in old(db.rolePermissions) ==> g in db.rolePermissions
    ensures forall role, g :: role in db.roles && role.name == "ADMIN" && g in db.rolePermissions && g.roleId == role.id ==>
      g in old(db.rolePermissions)
    ensures AccessSeeded(old(db.roles), old(db.permissions), old(db.rolePermissions)) ==>
      db.roles == old(db.roles) && |db.permissions| == |old(db.permissions)| && db.rolePermissions == old(db.rolePermissions)
  {
    ghost var rerun := AccessSeeded(db.roles, db.permissions, db.rolePermissions);
    ghost var permsBefore := db.permissions;
    var roleMap := SeedRoles(db);
    assert ROLE_NAMES[0] == "SUPER_ADMIN";
    if rerun {
      assert forall n :: n in ROLE_NAMES ==> FindBy(old(db.roles), RoleName, n).Some?;
    }
    var permissionMap, keys := SeedPermissions(db);
    var superAdminCount, userCount, editorCount := SeedGrants(db, roleMap, permissionMap, keys, permsBefore);
    counts := AccessCounts(|keys|, superAdminCount, userCount, editorCount);
    superAdminId := roleMap["SUPER_ADMIN"];
  }

  /** Step 7: the four languages, all active. */
  const LANGUAGES: seq<Language> := [
    Language("ar", "Arabic", "العربية", true),
    Language("en", "English", "English", true),
    Language("fa", "Persian", "الفارسية", true),
    Language("ur", "Urdu", "اردو", true)
  ]

  /** Each seeded language's row is exactly its entry. */
  ghost predicate LanguagesSeeded(languages: seq<Language>) {
    forall j :: 0 <= j < |LANGUAGES| ==> FindBy(languages, LanguageCode, LANGUAGES[j].code) == Some(LANGUAGES[j])
  }

  /** No two entries of `list` share a code. */
  ghost predicate CodesDistinct(list: seq<Language>) {
    forall j, k :: 0 <= j < k < |list| ==> list[j].code != list[k].code
  }

  /** The four codes differ. */
  lemma LanguageCodesDistinct()
    ensures CodesDistinct(LANGUAGES)
  {
  }

  /** What the language loop has established after upserting `list[..i]`, started from `before`. */
  ghost predicate LanguagesUpTo(languages: seq<Language>, before: seq<Language>, list: seq<Language>, i: int) {
    && 0 <= i <= |list|
    && (forall j :: 0 <= j < i ==> FindBy(languages, LanguageCode, list[j].code) == Some(list[j]))
    && (forall j :: i <= j < |list| ==>
          FindBy(languages, LanguageCode, list[j].code) == FindBy(before, LanguageCode, list[j].code))
    && ((forall j :: 0 <= j < |list| ==> FindBy(before, LanguageCode, list[j].code).Some?) ==>
          |languages| == |before|)
  }

  /** The upsert of `list[i]` keeps the earlier entries' rows. */
  lemma EarlierLanguagesKept(languages: seq<Language>, next: seq<Language>, list: seq<Language>, i: int)
    requires CodesDistinct(list) && 0 <= i < |list|
    requires forall j :: 0 <= j < i ==> FindBy(languages, LanguageCode, list[j].code) == Some(list[j])
    requires FindBy(next, LanguageCode, list[i].code) == Some(list[i])
    requires forall c :: c != list[i].code ==> FindBy(next, LanguageCode, c) == FindBy(languages, LanguageCode, c)
    ensures forall j :: 0 <= j < i + 1 ==> FindBy(next, LanguageCode, list[j].code) == Some(list[j])
  {
    forall j | 0 <= j < i ensures FindBy(next, LanguageCode, list[j].code) == Some(list[j]) {
      assert list[j].code != list[i].code;
    }
  }

  /** The upsert of `list[i]` leaves the later entries' lookups alone. */
  lemma LaterLanguagesKept(languages: seq<Language>, next: seq<Language>, before: seq<Language>, list: seq<Language>, i: int)
    requires CodesDistinct(list) && 0 <= i < |list|
    requires forall j :: i <= j < |list| ==>
      FindBy(languages, LanguageCode, list[j].code) == FindBy(before, LanguageCode, list[j].code)
    requires forall c :: c != list[i].code ==> FindBy(next, LanguageCode, c) == FindBy(languages, LanguageCode, c)
    ensures forall j :: i + 1 <= j < |list| ==>
      FindBy(next, LanguageCode, list[j].code) == FindBy(before, LanguageCode, list[j].code)
  {
    forall j | i + 1 <= j < |list|
      ensures FindBy(next, LanguageCode, list[j].code) == FindBy(before, LanguageCode, list[j].code)
    {
      assert list[i].code != list[j].code;
    }
  }

  /** Upserting a code that already has a row adds no row. */
  lemma UpsertExistingKeepsSize(languages: seq<Language>, next: seq<Language>, lang: Language)
    requires FindBy(languages, LanguageCode, lang.code).Some?
    requires match IndexBy(languages, LanguageCode, lang.code)
      case Some(k) => next == languages[k := lang]
      case None => next == languages + [lang]
    ensures |next| == |languages|
  {
  }

  /** One upsert of the language loop keeps `LanguagesUpTo`. */
  lemma LanguageStep(languages: seq<Language>, next: seq<Language>, before: seq<Language>, list: seq<Language>, i: int)
    requires CodesDistinct(list)
    requires LanguagesUpTo(languages, before, list, i) && i < |list|
    requires FindBy(next, LanguageCode, list[i].code) == Some(list[i])
    requires forall c :: c != list[i].code ==> FindBy(next, LanguageCode, c) == FindBy(languages, LanguageCode, c)
    requires match IndexBy(languages, LanguageCode, list[i].code)
      case Some(k) => next == languages[k := list[i]]
      case None => next == languages + [list[i]]
    ensures LanguagesUpTo(next, before, list, i + 1)
  {
    EarlierLanguagesKept(languages, next, list, i);
    LaterLanguagesKept(languages, next, before, list, i);
    if forall j :: 0 <= j < |list| ==> FindBy(before, LanguageCode, list[j].code).Some? {
      assert FindBy(before, LanguageCode, list[i].code).Some?;
      UpsertExistingKeepsSize(languages, next, list[i]);
    }
  }

  /** Step 7: each language is upserted by its code; when every code already had
      a row, no row is added. */
  method SeedLanguages(db: IdentityDb) returns (count: nat)
    requires db.Valid()
    modifies db`languages
    ensures db.Valid()
    ensures count == |LANGUAGES| == 4
    ensures LanguagesSeeded(db.languages)
    ensures (forall j :: 0 <= j < |LANGUAGES| ==> FindBy(old(db.languages), LanguageCode, LANGUAGES[j].code).Some?) ==>
      |db.languages| == |old(db.languages)|
  {
    LanguageCodesDistinct();
    var i := 0;
    while i < |LANGUAGES|
      invariant db.Valid()
      invariant LanguagesUpTo(db.languages, old(db.languages), LANGUAGES, i)
    {
      ghost var prev := db.languages;
      UpsertLanguage(db, LANGUAGES[i]);
      LanguageStep(prev, db.languages, old(db.languages), LANGUAGES, i);
      i := i + 1;
    }
    count := |LANGUAGES|;
  }

  /** Step 8: `user.upsert({where: {username}, update: {passwordHash, email,
      fullName, isActive: true}, create: {..., roles: {create: {roleId}}}})`.
      An existing account is reset but gains no role; only a new account is
      assigned SUPER_ADMIN. An email held by another account violates the
      unique email column and nothing is written. */
  method UpsertSuperAdmin(db: IdentityDb, username: string, email: string, fullName: string, passwordHash: Digest,
                          superAdminId: int)
    returns (r: Result<User>)
    requires db.Valid()
    modifies db`users, db`userRoles, db`nextUserId
    ensures db.Valid()
    ensures r.Err? ==>
      && r.error == UniqueViolation(["email"])
      && db.users == old(db.users) && db.userRoles == old(db.userRoles) && db.nextUserId == old(db.nextUserId)
    ensures r.Ok? ==>
      && FindBy(db.users, Username, username) == Some(r.value)
      && r.value.email == email && r.value.fullName == fullName
      && r.value.passwordHash == passwordHash && r.value.isActive
    ensures match IndexBy(old(db.users), Username, username)
      case Some(i) =>
        var u := old(db.users)[i].(passwordHash := passwordHash, email := email, fullName := fullName, isActive := true);
        if Users.ClashesElsewhere(old(db.users), i, email, username, true) then r == Err(UniqueViolation(["email"]))
        else r == Ok(u) && db.users == old(db.users)[i := u] && db.userRoles == old(db.userRoles)
             && db.nextUserId == old(db.nextUserId)
      case None =>
        var u := User(old(db.nextUserId), username, email, fullName, passwordHash, true);
        if FindBy(old(db.users), Email, email).Some? then r == Err(UniqueViolation(["email"]))
        else r == Ok(u) && db.users == old(db.users) + [u]
             && db.userRoles == old(db.userRoles) + [UserRole(u.id, superAdminId)]
             && db.nextUserId == old(db.nextUserId) + 1
  {
    var index := IndexBy(db.users, Username, username);
    if index.Some? {
      r := ResetAccount(db, index.value, username, email, fullName, passwordHash);
    } else {
      r := CreateAccount(db, username, email, fullName, passwordHash, superAdminId);
    }
  }

  /** The update branch of step 8, on the row at `i`. */
  method ResetAccount(db: IdentityDb, i: nat, username: string, email: string, fullName: string, passwordHash: Digest)
    returns (r: Result<User>)
    requires db.Valid() && i < |db.users| && db.users[i].username == username
    modifies db`users
    ensures db.Valid()
    ensures var u := old(db.users)[i].(passwordHash := passwordHash, email := email, fullName := fullName, isActive := true);
      if Users.ClashesElsewhere(old(db.users), i, email, username, true) then
        r == Err(UniqueViolation(["email"])) && db.users == old(db.users)
      else r == Ok(u) && db.users == old(db.users)[i := u] && FindBy(db.users, Username, username) == Some(u)
  {
    var before := db.users;
    if Users.ClashesElsewhere(before, i, email, username, true) {
      return Err(UniqueViolation(["email"]));
    }
    var u := before[i].(passwordHash := passwordHash, email := email, fullName := fullName, isActive := true);
    forall j | 0 <= j < |before| && j != i
      ensures UserId(before[j]) != UserId(u) && Username(before[j]) != Username(u) && Email(before[j]) != Email(u)
    {
      Users.IndexUnique(before, UserId, j, i);
      Users.IndexUnique(before, Username, j, i);
    }
    UniqueReplace(before, i, u, UserId);
    UniqueReplace(before, i, u, Username);
    UniqueReplace(before, i, u, Email);
    db.users := before[i := u];
    assert db.users[i] == u;
    FindByUnique(db.users, Username, u);
    r := Ok(u);
  }

  /** The create branch of step 8: a new active account assigned `superAdminId`. */
  method CreateAccount(db: IdentityDb, username: string, email: string, fullName: string, passwordHash: Digest,
                       superAdminId: int)
    returns (r: Result<User>)
    requires db.Valid() && FindBy(db.users, Username, username).None?
    modifies db`users, db`userRoles, db`nextUserId
    ensures db.Valid()
    ensures var u := User(old(db.nextUserId), username, email, fullName, passwordHash, true);
      if FindBy(old(db.users), Email, email).Some? then
        r == Err(UniqueViolation(["email"]))
        && db.users == old(db.users) && db.userRoles == old(db.userRoles) && db.nextUserId == old(db.nextUserId)
      else
        && r == Ok(u) && db.users == old(db.users) + [u] && FindBy(db.users, Username, username) == Some(u)
        && db.userRoles == old(db.userRoles) + [UserRole(u.id, superAdminId)]
        && db.nextUserId == old(db.nextUserId) + 1
  {
    var before := db.users;
    if FindBy(before, Email, email).Some? {
      return Err(UniqueViolation(["email"]));
    }
    var u := User(db.nextUserId, username, email, fullName, passwordHash, true);
    assert !Users.Taken(before, email, username);
    Users.InsertUserValid(before, db.userRoles, db.nextUserId, u, [superAdminId]);
    assert Assignments(u.id, [superAdminId]) == [UserRole(u.id, superAdminId)];
    db.users := before + [u];
    db.userRoles := db.userRoles + [UserRole(u.id, superAdminId)];
    db.nextUserId := db.nextUserId + 1;
    assert db.users[|before|] == u;
    FindByUnique(db.users, Username, u);
    r := Ok(u);
  }

  /** The environment variables step 8 reads; `None` when unset. */
  datatype SeedEnv = SeedEnv(username: Option<string>, email: Option<string>, password: Option<string>,
                             fullName: Option<string>)

  /** `process.env.X || fallback`: an unset or empty variable takes the fallback. */
  function OrDefault(v: Option<string>, fallback: string): (r: string)
    ensures r == fallback || (v.Some? && r == v.value)
    ensures r == "" ==> fallback == ""
  {
    if v.Some? && v.value != "" then v.value else fallback
  }

  function SuperAdminUsername(env: SeedEnv): string { OrDefault(env.username, "superadmin") }
  function SuperAdminEmail(env: SeedEnv): string { OrDefault(env.email, "superadmin@example.com") }
  function SuperAdminPassword(env: SeedEnv): string { OrDefault(env.password, "q1w2e3r4@") }
  function SuperAdminFullName(env: SeedEnv): string { OrDefault(env.fullName, "Super Administrator") }

  /** Every row the seed writes is in place, with the account named `username`. */
  ghost predicate Seeded(t: Tables, username: string) {
    && AccessSeeded(t.roles, t.permissions, t.rolePermissions)
    && LanguagesSeeded(t.languages)
    && FindBy(t.users, Username, username).Some?
  }

  /** What the seed reports: the counters of steps 2-7, the account of step 8
      and the outcome of the check of step 9 (password accepted and account active). */
  datatype SeedReport = SeedReport(counts: AccessCounts, languages: nat, superAdmin: User, loginReady: bool)

  /** Steps 8 and 9: the account upsert, then the read-back that checks the
      password against the stored hash and the active flag. */
  method SeedAccount(db: IdentityDb, username: string, email: string, fullName: string, password: string,
                     superAdminId: int)
    returns (r: Result<(User, bool)>)
    requires db.Valid()
    modifies db`users, db`userRoles, db`nextUserId
    ensures db.Valid()
    ensures r.Err? ==> r.error == UniqueViolation(["email"])
    ensures r.Ok? ==>
      && FindBy(db.users, Username, username) == Some(r.value.0)
      && r.value.1
      && Auth.CredentialsValid(db.State(), username, password)
    ensures FindBy(old(db.users), Username, username).Some? ==>
      |db.users| == |old(db.users)| && db.userRoles == old(db.userRoles)
  {
    var passwordHash := Hash(password, BCRYPT_COST);
    var user := UpsertSuperAdmin(db, username, email, fullName, passwordHash, superAdminId);
    if user.Err? {
      return Err(user.error);
    }
    var testUser := FindBy(db.users, Username, username);
    var loginReady := false;
    if testUser.Some? {
      var isPasswordValid := Compare(password, testUser.value.passwordHash);
      loginReady := isPasswordValid && testUser.value.isActive;
    }
    HashCompare(password, password, BCRYPT_COST);
    r := Ok((user.value, loginReady));
  }

  /** `main()`. Steps 1-7 cannot fail; step 8 fails when another account holds
      the email, and then the rows of steps 1-7 stay written (there is no
      transaction). On success every row is in place and the super
      administrator can log in with the configured password. When every row
      was already in place, no table gains a row. */
  method SeedMain(db: IdentityDb, env: SeedEnv) returns (r: Result<SeedReport>)
    requires db.Valid()
    modifies db`roles, db`nextRoleId, db`permissions, db`nextPermissionId, db`rolePermissions,
             db`languages, db`users, db`userRoles, db`nextUserId
    ensures db.Valid()
    ensures AccessSeeded(db.roles, db.permissions, db.rolePermissions) && LanguagesSeeded(db.languages)
    ensures r.Err? ==> r.error == UniqueViolation(["email"])
    ensures r.Ok? ==>
      && Seeded(db.State(), SuperAdminUsername(env))
      && r.value.counts == AccessCounts(CATALOGUE_SIZE, CATALOGUE_SIZE, |MODELS|, |EDITOR_PERMISSIONS|)
      && r.value.languages == |LANGUAGES|
      && r.value.loginReady
      && Auth.CredentialsValid(db.State(), SuperAdminUsername(env), SuperAdminPassword(env))
    ensures forall role, g :: role in db.roles && role.name == "ADMIN" && g in db.rolePermissions && g.roleId == role.id ==>
      g in old(db.rolePermissions)
    ensures Seeded(old(db.State()), SuperAdminUsername(env)) ==>
      && db.roles == old(db.roles) && |db.permissions| == |old(db.permissions)|
      && db.rolePermissions == old(db.rolePermissions) && |db.languages| == |old(db.languages)|
      && |db.users| == |old(db.users)| && db.userRoles == old(db.userRoles)
  {
    var counts, superAdminId := SeedAccessControl(db);
    var languageCount := SeedLanguages(db);
    var username := SuperAdminUsername(env);
    var account := SeedAccount(db, username, SuperAdminEmail(env), SuperAdminFullName(env), SuperAdminPassword(env),
                               superAdminId);
    if account.Err? {
      return Err(account.error);
    }
    r := Ok(SeedReport(counts, languageCount, account.value.0, account.value.1));
  }
}
