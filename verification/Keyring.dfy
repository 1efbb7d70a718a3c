/** Users and their personal key rings. */
module Keyring {
  import opened Wrappers
  import opened Aead
  import opened Access

  type Id = string

  /** The three flags of a key's permissions column; a missing flag reads as false. */
  datatype Permissions = Permissions(encrypt: bool, decrypt: bool, rotate: bool)

  const ALL_PERMISSIONS := Permissions(true, true, true)

  datatype User = User(role: Role, active: bool, keyVersion: nat)

  datatype UserKey = UserKey(userId: Id, version: nat, wrapped: Sealed<Key>, nonce: Bytes,
                             permissions: Permissions, active: bool)

  /** The randomness one new key consumes. */
  datatype KeyDraw = KeyDraw(id: Id, key: Key, nonce: Nonce)

  datatype Ring = Ring(master: Key, users: map<Id, User>, keys: map<Id, UserKey>)

  predicate Owns(keys: map<Id, UserKey>, id: Id, user: Id, version: nat) {
    id in keys && keys[id].userId == user && keys[id].version == version
  }

  predicate HasKey(keys: map<Id, UserKey>, user: Id, version: nat) {
    exists id <- keys :: Owns(keys, id, user, version)
  }

  function NewKey(master: Key, user: Id, version: nat, draw: KeyDraw): UserKey {
    UserKey(user, version, Sealed(master, draw.nonce, Aad(UserKeyContext(user, version)), draw.key),
            draw.nonce, ALL_PERMISSIONS, true)
  }

  function EnsureUserKey(ring: Ring, user: Id, version: nat, draw: KeyDraw): Result<Ring> {
    if HasKey(ring.keys, user, version) then Ok(ring)
    else if draw.id in ring.keys then Err(Conflict)
    else if user !in ring.users then Err(Invalid)
    else Ok(ring.(keys := ring.keys[draw.id := NewKey(ring.master, user, version, draw)]))
  }

  /** CreateUser, BootstrapAdmin and UpsertOIDCUser on an account that is not there yet. */
  function AddUser(ring: Ring, user: Id, role: Role, draw: KeyDraw): Result<Ring> {
    if user in ring.users then Err(Conflict)
    else EnsureUserKey(ring.(users := ring.users[user := User(role, true, 1)]), user, 1, draw)
  }

  function EditUser(ring: Ring, user: Id, role: Role, active: bool): Result<Ring> {
    if user !in ring.users then Err(NotFound)
    else Ok(ring.(users := ring.users[user := ring.users[user].(role := role, active := active)]))
  }

  function Retire(keys: map<Id, UserKey>, user: Id): map<Id, UserKey> {
    map id | id in keys :: if keys[id].userId == user then keys[id].(active := false) else keys[id]
  }

  /** The ring between the UPDATE that retires the old keys and the INSERT of the new one. */
  function Retired(ring: Ring, user: Id): Ring
    requires user in ring.users
  {
    ring.(users := ring.users[user := ring.users[user].(keyVersion := ring.users[user].keyVersion + 1)],
          keys := Retire(ring.keys, user))
  }

  function MayRotate(key: UserKey, actor: Id, manageAll: bool): bool {
    manageAll || (key.userId == actor && key.active && key.permissions.rotate)
  }

  function RotateUserKey(ring: Ring, keyId: Id, actor: Id, manageAll: bool, draw: KeyDraw): Result<Ring> {
    if keyId !in ring.keys then Err(NotFound)
    else if !MayRotate(ring.keys[keyId], actor, manageAll) then Err(Forbidden)
    else
      var user := ring.keys[keyId].userId;
      if user !in ring.users then Err(NotFound)
      else EnsureUserKey(Retired(ring, user), user, ring.users[user].keyVersion + 1, draw)
  }

  /** A decoded JSON value of the permissions request. */
  datatype Flag = Bool(value: bool) | NotBool

  function On(raw: map<string, Flag>, name: string): bool {
    name in raw && raw[name] == Bool(true)
  }

  predicate PermissionEntry(name: string, flag: Flag) {
    name in {"encrypt", "decrypt", "rotate"} && flag.Bool?
  }

  function CleanPermissions(raw: map<string, Flag>): (r: Result<Permissions>)
    ensures r.Ok? ==> r.value.decrypt
  {
    if (forall name <- raw :: PermissionEntry(name, raw[name])) && On(raw, "decrypt")
    then Ok(Permissions(On(raw, "encrypt"), true, On(raw, "rotate")))
    else Err(Invalid)
  }

  function UpdateKeyPermissions(ring: Ring, keyId: Id, raw: map<string, Flag>, actor: Id, manageAll: bool)
    : Result<Ring>
  {
    var permissions :- CleanPermissions(raw);
    if keyId in ring.keys && ring.keys[keyId].active && (ring.keys[keyId].userId == actor || manageAll)
    then Ok(ring.(keys := ring.keys[keyId := ring.keys[keyId].(permissions := permissions)]))
    else Err(NotFound)
  }

  // ----- The ring invariant -----

  /** The wrapped key opens under the master key as its row says. */
  predicate Wrapped(master: Key, k: UserKey) {
    Open(k.wrapped, master, k.nonce, Aad(UserKeyContext(k.userId, k.version))).Ok?
  }

  predicate RowOk(ring: Ring, k: UserKey) {
    && k.userId in ring.users
    && 1 <= k.version <= ring.users[k.userId].keyVersion
    && (k.active <==> k.version == ring.users[k.userId].keyVersion)
    && k.permissions.decrypt
    && Wrapped(ring.master, k)
  }

  /** UNIQUE(user_id, version). */
  ghost predicate UniqueVersions(keys: map<Id, UserKey>) {
    forall a, b, user, version :: Owns(keys, a, user, version) && Owns(keys, b, user, version) ==> a == b
  }

  ghost predicate NoGaps(ring: Ring) {
    forall user, version: nat :: user in ring.users && 1 <= version <= ring.users[user].keyVersion
      ==> HasKey(ring.keys, user, version)
  }

  ghost predicate RingOk(ring: Ring) {
    && (forall user <- ring.users :: ring.users[user].keyVersion >= 1)
    && (forall id <- ring.keys :: RowOk(ring, ring.keys[id]))
    && UniqueVersions(ring.keys)
    && NoGaps(ring)
  }

  /** No key row is ever removed, re-wrapped or denied decryption. */
  ghost predicate KeysKept(before: map<Id, UserKey>, after: map<Id, UserKey>) {
    forall id <- before ::
      && id in after
      && after[id].userId == before[id].userId && after[id].version == before[id].version
      && after[id].wrapped == before[id].wrapped && after[id].nonce == before[id].nonce
      && (before[id].permissions.decrypt ==> after[id].permissions.decrypt)
  }

  /** A ring in which only the newest version of one user may lack its key. */
  ghost predicate MissingNewest(ring: Ring, user: Id) {
    && user in ring.users
    && (forall u <- ring.users :: ring.users[u].keyVersion >= 1)
    && (forall id <- ring.keys :: RowOk(ring, ring.keys[id]))
    && UniqueVersions(ring.keys)
    && (forall u, version: nat :: u in ring.users && 1 <= version <= ring.users[u].keyVersion ==>
          HasKey(ring.keys, u, version) || (u == user && version == ring.users[u].keyVersion))
  }

  /** Adding the row of a version that no row has. */
  lemma AddedKeepsUnique(keys: map<Id, UserKey>, id: Id, k: UserKey)
    requires UniqueVersions(keys) && id !in keys && !HasKey(keys, k.userId, k.version)
    ensures UniqueVersions(keys[id := k])
  {
    var after := keys[id := k];
    forall a, b, u, v | Owns(after, a, u, v) && Owns(after, b, u, v) ensures a == b {
      if a != id { assert Owns(keys, a, u, v); }
      if b != id { assert Owns(keys, b, u, v); }
    }
  }

  lemma AddedKeepsKey(keys: map<Id, UserKey>, id: Id, k: UserKey, user: Id, version: nat)
    requires id !in keys && (HasKey(keys, user, version) || (user == k.userId && version == k.version))
    ensures HasKey(keys[id := k], user, version)
  {
    if HasKey(keys, user, version) {
      var other :| other in keys && Owns(keys, other, user, version);
      assert Owns(keys[id := k], other, user, version);
    } else {
      assert Owns(keys[id := k], id, user, version);
    }
  }

  lemma EnsureCompletes(ring: Ring, user: Id, draw: KeyDraw)
    requires MissingNewest(ring, user)
    ensures var r := EnsureUserKey(ring, user, ring.users[user].keyVersion, draw);
            r.Ok? ==> RingOk(r.value) && KeysKept(ring.keys, r.value.keys) && r.value.users == ring.users
  {
    var version := ring.users[user].keyVersion;
    var r := EnsureUserKey(ring, user, version, draw);
    if r.Ok? && !HasKey(ring.keys, user, version) {
      var after := r.value;
      var k := NewKey(ring.master, user, version, draw);
      AddedKeepsUnique(ring.keys, draw.id, k);
      forall u, v: nat | u in after.users && 1 <= v <= after.users[u].keyVersion
        ensures HasKey(after.keys, u, v)
      {
        AddedKeepsKey(ring.keys, draw.id, k, u, v);
      }
    }
  }

  /** ensureUserKeyTx run again for a key that exists changes nothing. */
  lemma EnsureIdempotent(ring: Ring, user: Id, version: nat, draw: KeyDraw, again: KeyDraw)
    requires EnsureUserKey(ring, user, version, draw).Ok?
    ensures var once := EnsureUserKey(ring, user, version, draw).value;
            EnsureUserKey(once, user, version, again) == Ok(once)
  {
    var once := EnsureUserKey(ring, user, version, draw).value;
    if !HasKey(ring.keys, user, version) { assert Owns(once.keys, draw.id, user, version); }
  }

  lemma AddUserKeepsRing(ring: Ring, user: Id, role: Role, draw: KeyDraw)
    requires RingOk(ring) && AddUser(ring, user, role, draw).Ok?
    ensures var after := AddUser(ring, user, role, draw).value;
            RingOk(after) && KeysKept(ring.keys, after.keys)
  {
    var staged := ring.(users := ring.users[user := User(role, true, 1)]);
    assert forall id <- ring.keys :: ring.keys[id].userId in ring.users;
    EnsureCompletes(staged, user, draw);
  }

  lemma EditUserKeepsRing(ring: Ring, user: Id, role: Role, active: bool)
    requires RingOk(ring) && EditUser(ring, user, role, active).Ok?
    ensures RingOk(EditUser(ring, user, role, active).value)
  {
    var after := EditUser(ring, user, role, active).value;
    assert forall u <- ring.users :: after.users[u].keyVersion == ring.users[u].keyVersion;
    assert forall id <- ring.keys :: RowOk(ring, ring.keys[id]);
  }

  lemma SameOwnersKeepKey(before: map<Id, UserKey>, after: map<Id, UserKey>, user: Id, version: nat)
    requires KeysKept(before, after) && HasKey(before, user, version)
    ensures HasKey(after, user, version)
  {
    var id :| id in before && Owns(before, id, user, version);
    assert Owns(after, id, user, version);
  }

  lemma RetiringKeepsUnique(keys: map<Id, UserKey>, user: Id)
    requires UniqueVersions(keys)
    ensures UniqueVersions(Retire(keys, user))
  {
    assert forall id, u, v :: Owns(Retire(keys, user), id, u, v) <==> Owns(keys, id, u, v);
  }

  lemma RetiredRows(ring: Ring, user: Id)
    requires RingOk(ring) && user in ring.users
    ensures forall id <- Retired(ring, user).keys :: RowOk(Retired(ring, user), Retired(ring, user).keys[id])
    ensures UniqueVersions(Retired(ring, user).keys)
  {
    var after := Retired(ring, user);
    forall id <- after.keys ensures RowOk(after, after.keys[id]) {
      assert RowOk(ring, ring.keys[id]);
    }
    RetiringKeepsUnique(ring.keys, user);
  }

  lemma RetiredMissesNewest(ring: Ring, user: Id)
    requires RingOk(ring) && user in ring.users
    ensures MissingNewest(Retired(ring, user), user)
  {
    var after := Retired(ring, user);
    RetiredRows(ring, user);
    forall u, v: nat | u in after.users && 1 <= v <= after.users[u].keyVersion
      ensures HasKey(after.keys, u, v) || (u == user && v == after.users[u].keyVersion)
    {
      if v <= ring.users[u].keyVersion {
        assert HasKey(ring.keys, u, v);
        SameOwnersKeepKey(ring.keys, after.keys, u, v);
      }
    }
  }

  lemma RetiringKeepsKeys(ring: Ring, user: Id)
    requires user in ring.users
    ensures KeysKept(ring.keys, Retired(ring, user).keys)
  {
  }

  lemma KeysKeptTransitive(a: map<Id, UserKey>, b: map<Id, UserKey>, c: map<Id, UserKey>)
    requires KeysKept(a, b) && KeysKept(b, c)
    ensures KeysKept(a, c)
  {
  }

  lemma RotationKeepsRing(ring: Ring, keyId: Id, actor: Id, manageAll: bool, draw: KeyDraw)
    requires RingOk(ring) && RotateUserKey(ring, keyId, actor, manageAll, draw).Ok?
    ensures var after := RotateUserKey(ring, keyId, actor, manageAll, draw).value;
            RingOk(after) && KeysKept(ring.keys, after.keys)
  {
    var user := ring.keys[keyId].userId;
    var retired := Retired(ring, user);
    RetiredMissesNewest(ring, user);
    EnsureCompletes(retired, user, draw);
    RetiringKeepsKeys(ring, user);
    var after := EnsureUserKey(retired, user, retired.users[user].keyVersion, draw).value;
    KeysKeptTransitive(ring.keys, retired.keys, after.keys);
  }

  /** Rotation is allowed exactly to a manager of all keys and to the owner of an active
      key with the rotate flag; the new key then opens, is the newest and the only active
      one of its user, and nobody else's keys change. */
  lemma RotationMakesNewest(ring: Ring, keyId: Id, actor: Id, manageAll: bool, draw: KeyDraw)
    requires RingOk(ring) && draw.id !in ring.keys
    ensures RotateUserKey(ring, keyId, actor, manageAll, draw).Ok? <==>
      keyId in ring.keys &&
      var k := ring.keys[keyId];
      manageAll || (k.userId == actor && k.active && k.permissions.rotate)
    ensures keyId !in ring.keys ==> RotateUserKey(ring, keyId, actor, manageAll, draw) == Err(NotFound)
    ensures keyId in ring.keys && !manageAll &&
            (ring.keys[keyId].userId != actor || !ring.keys[keyId].active || !ring.keys[keyId].permissions.rotate) ==>
      RotateUserKey(ring, keyId, actor, manageAll, draw) == Err(Forbidden)
    ensures RotateUserKey(ring, keyId, actor, manageAll, draw).Ok? ==>
      var after := RotateUserKey(ring, keyId, actor, manageAll, draw).value;
      var user := ring.keys[keyId].userId;
      && after.users[user].keyVersion == ring.users[user].keyVersion + 1
      && after.users == ring.users[user := ring.users[user].(keyVersion := ring.users[user].keyVersion + 1)]
      && after.keys.Keys == ring.keys.Keys + {draw.id}
      && after.keys[draw.id].userId == user && after.keys[draw.id].version == after.users[user].keyVersion
      && after.keys[draw.id].active && after.keys[draw.id].permissions == Permissions(true, true, true)
      && Open(after.keys[draw.id].wrapped, ring.master, after.keys[draw.id].nonce,
              Aad(UserKeyContext(user, after.users[user].keyVersion))) == Ok(draw.key)
      && forall id <- ring.keys :: id in after.keys &&
           after.keys[id] == if ring.keys[id].userId == user then ring.keys[id].(active := false) else ring.keys[id]
  {
    if keyId in ring.keys {
      assert RowOk(ring, ring.keys[keyId]);
      NoKeyAhead(ring, ring.keys[keyId].userId);
    }
  }

  lemma NoKeyAhead(ring: Ring, user: Id)
    requires RingOk(ring) && user in ring.users
    ensures !HasKey(Retired(ring, user).keys, user, ring.users[user].keyVersion + 1)
  {
    forall id <- ring.keys ensures !Owns(ring.keys, id, user, ring.users[user].keyVersion + 1) {
      assert RowOk(ring, ring.keys[id]);
    }
  }

  lemma GrantKeepsRing(ring: Ring, keyId: Id, permissions: Permissions)
    requires RingOk(ring) && keyId in ring.keys && permissions.decrypt
    ensures var after := ring.(keys := ring.keys[keyId := ring.keys[keyId].(permissions := permissions)]);
            RingOk(after) && KeysKept(ring.keys, after.keys)
  {
    var after := ring.(keys := ring.keys[keyId := ring.keys[keyId].(permissions := permissions)]);
    GrantKeepsRows(ring, keyId, permissions);
    GrantKeepsUnique(ring.keys, keyId, permissions);
    forall u, v: nat | u in after.users && 1 <= v <= after.users[u].keyVersion ensures HasKey(after.keys, u, v) {
      assert HasKey(ring.keys, u, v);
      SameOwnersKeepKey(ring.keys, after.keys, u, v);
    }
  }

  lemma GrantKeepsRows(ring: Ring, keyId: Id, permissions: Permissions)
    requires RingOk(ring) && keyId in ring.keys && permissions.decrypt
    ensures var after := ring.(keys := ring.keys[keyId := ring.keys[keyId].(permissions := permissions)]);
            (forall id <- after.keys :: RowOk(after, after.keys[id])) && KeysKept(ring.keys, after.keys)
  {
    assert forall id <- ring.keys :: RowOk(ring, ring.keys[id]);
  }

  lemma GrantKeepsUnique(keys: map<Id, UserKey>, keyId: Id, permissions: Permissions)
    requires UniqueVersions(keys) && keyId in keys
    ensures UniqueVersions(keys[keyId := keys[keyId].(permissions := permissions)])
  {
    var after := keys[keyId := keys[keyId].(permissions := permissions)];
    assert forall id, u, v :: Owns(after, id, u, v) <==> Owns(keys, id, u, v);
  }

  lemma PermissionsKeepRing(ring: Ring, keyId: Id, raw: map<string, Flag>, actor: Id, manageAll: bool)
    requires RingOk(ring) && UpdateKeyPermissions(ring, keyId, raw, actor, manageAll).Ok?
    ensures var after := UpdateKeyPermissions(ring, keyId, raw, actor, manageAll).value;
            RingOk(after) && KeysKept(ring.keys, after.keys)
  {
    GrantKeepsRing(ring, keyId, CleanPermissions(raw).value);
  }

  /** The flags a request stores: it may name encrypt, decrypt and rotate and give each a
      boolean, and has to give decrypt true; a flag it does not name is stored as false. */
  lemma FlagsExactly(raw: map<string, Flag>)
    ensures CleanPermissions(raw).Ok? <==>
      && (forall name <- raw :: (name == "encrypt" || name == "decrypt" || name == "rotate") && raw[name].Bool?)
      && "decrypt" in raw && raw["decrypt"] == Bool(true)
    ensures CleanPermissions(raw).Ok? ==>
      CleanPermissions(raw).value == Permissions("encrypt" in raw && raw["encrypt"].value, true,
                                                 "rotate" in raw && raw["rotate"].value)
    ensures CleanPermissions(raw).Err? ==> CleanPermissions(raw) == Err(Invalid)
  {
    if "encrypt" in raw && CleanPermissions(raw).Ok? { assert PermissionEntry("encrypt", raw["encrypt"]); }
    if "rotate" in raw && CleanPermissions(raw).Ok? { assert PermissionEntry("rotate", raw["rotate"]); }
    if forall name <- raw :: (name == "encrypt" || name == "decrypt" || name == "rotate") && raw[name].Bool? {
      assert forall name <- raw :: PermissionEntry(name, raw[name]);
    }
    if forall name <- raw :: PermissionEntry(name, raw[name]) {
      forall name <- raw ensures (name == "encrypt" || name == "decrypt" || name == "rotate") && raw[name].Bool? {
        assert PermissionEntry(name, raw[name]);
      }
    }
  }

  /** With acceptable flags a permission edit succeeds exactly for an active key and its owner
      or a manager of all keys, and changes nothing but the flags of that row. */
  lemma PermissionEditExactly(ring: Ring, keyId: Id, raw: map<string, Flag>, actor: Id, manageAll: bool)
    ensures var r := UpdateKeyPermissions(ring, keyId, raw, actor, manageAll);
            if CleanPermissions(raw).Err? then r == Err(Invalid)
            else if keyId in ring.keys && ring.keys[keyId].active && (ring.keys[keyId].userId == actor || manageAll)
            then var row := ring.keys[keyId].(permissions := CleanPermissions(raw).value);
                 r == Ok(ring.(keys := ring.keys[keyId := row]))
            else r == Err(NotFound)
  {
    FlagsExactly(raw);
  }

  /** Ensuring a key leaves one that is there alone; otherwise it needs a free identifier and
      an existing user, in this order. */
  lemma EnsureRefusals(ring: Ring, user: Id, version: nat, draw: KeyDraw)
    ensures var r := EnsureUserKey(ring, user, version, draw);
            if exists id <- ring.keys :: ring.keys[id].userId == user && ring.keys[id].version == version
            then r == Ok(ring)
            else if draw.id in ring.keys then r == Err(Conflict)
            else if user !in ring.users then r == Err(Invalid)
            else r.Ok?
  {
    if id :| id in ring.keys && ring.keys[id].userId == user && ring.keys[id].version == version {
      assert Owns(ring.keys, id, user, version);
    }
  }

  /** A new account is active, starts with key version 1, and owns one key: active, with all
      three flags, that opens to the key drawn. */
  lemma AddUserStarts(ring: Ring, user: Id, role: Role, draw: KeyDraw)
    requires RingOk(ring)
    ensures user in ring.users ==> AddUser(ring, user, role, draw) == Err(Conflict)
    ensures user !in ring.users && draw.id !in ring.keys ==>
      var r := AddUser(ring, user, role, draw);
      && r.Ok? && r.value.master == ring.master
      && r.value.users == ring.users[user := User(role, true, 1)]
      && r.value.keys.Keys == ring.keys.Keys + {draw.id}
      && (forall id <- ring.keys :: r.value.keys[id] == ring.keys[id])
      && var k := r.value.keys[draw.id];
      && k.userId == user && k.version == 1 && k.active && k.permissions == Permissions(true, true, true)
      && Open(k.wrapped, ring.master, k.nonce, Aad(UserKeyContext(user, 1))) == Ok(draw.key)
  {
    assert forall id <- ring.keys :: RowOk(ring, ring.keys[id]);
  }

  /** Editing an account changes its role and whether it is active, and nothing else. */
  lemma EditUserExactly(ring: Ring, user: Id, role: Role, active: bool)
    ensures user !in ring.users ==> EditUser(ring, user, role, active) == Err(NotFound)
    ensures user in ring.users ==>
      EditUser(ring, user, role, active)
        == Ok(ring.(users := ring.users[user := User(role, active, ring.users[user].keyVersion)]))
  {
  }

  /** A user of a well-formed ring has exactly one active key, and it is the newest. */
  lemma ExactlyOneActiveKey(ring: Ring, user: Id) returns (active: Id)
    requires RingOk(ring) && user in ring.users
    ensures Owns(ring.keys, active, user, ring.users[user].keyVersion)
    ensures forall id <- ring.keys ::
      ring.keys[id].userId == user ==> (ring.keys[id].active <==> id == active)
  {
    var newest := ring.users[user].keyVersion;
    assert HasKey(ring.keys, user, newest);
    active :| active in ring.keys && Owns(ring.keys, active, user, newest);
    forall id <- ring.keys | ring.keys[id].userId == user
      ensures ring.keys[id].active <==> id == active
    {
      assert RowOk(ring, ring.keys[id]) && RowOk(ring, ring.keys[active]);
      if ring.keys[id].active { assert Owns(ring.keys, id, user, newest); }
    }
  }

  // ----- Data keys -----

  /** The row userDataKeyTx selects. */
  ghost function EncryptKeyId(ring: Ring, user: Id, version: nat): Option<Id> {
    if exists id :: Owns(ring.keys, id, user, version) && ring.keys[id].permissions.encrypt
    then
      var id :| Owns(ring.keys, id, user, version) && ring.keys[id].permissions.encrypt;
      Some(id)
    else None
  }

  /** Any two rows userDataKeyTx could select are the same row. */
  lemma EncryptKeyUnique(ring: Ring, user: Id, version: nat, id: Id)
    requires UniqueVersions(ring.keys)
    requires Owns(ring.keys, id, user, version) && ring.keys[id].permissions.encrypt
    ensures EncryptKeyId(ring, user, version) == Some(id)
  {
  }
}
