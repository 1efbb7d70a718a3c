/** The store as the program runs it: the tables are fields, and every operation changes
    them statement by statement inside a transaction it can roll back. Each method is
    proved to do exactly what the corresponding step of Vault does. */
module Database {
  import opened Wrappers
  import opened Text
  import opened Aead
  import opened Access
  import opened Keyring
  import opened Vault
  import opened VaultInvariant

  function CasOwnStep(path: string, data: Data, actor: Id, cas: Option<int>, a: Attempt): Step {
    if a.fault.Some? then Aborted else PutOpenBaoStep(path, data, actor, cas, a.draw)
  }

  /** One round of PutOpenBaoSecret's retry loop: what other clients commit before it, the
      database error that aborts it (if any), whether the request is cancelled after it,
      and its randomness. */
  datatype Attempt = Attempt(rivals: seq<Step>, fault: Option<Error>, cancelled: bool, draw: Draw)

  /** The steps a call interleaves with during its first attempts. */
  function Interleaving(path: string, data: Data, actor: Id, cas: Option<int>, attempts: seq<Attempt>): seq<Step> {
    if attempts == [] then []
    else
      var a := attempts[|attempts| - 1];
      Interleaving(path, data, actor, cas, attempts[..|attempts| - 1]) + a.rivals +
      [CasOwnStep(path, data, actor, cas, a)]
  }

  function Numbers(named: seq<int>): set<int> { set number | number in named }

  /** What the caller of a transaction is told. */
  function Outcome(r: Result<Tables>): Result<()> {
    match r case Ok(_) => Ok(()) case Err(error) => Err(error)
  }

  ghost function Exec(t: Tables, step: Step): Tables {
    match Apply(t, step) case Ok(after) => after case Err(_) => t
  }

  ghost function ExecAll(t: Tables, steps: seq<Step>): Tables {
    if steps == [] then t else Exec(ExecAll(t, steps[..|steps| - 1]), steps[|steps| - 1])
  }

  lemma {:induction false} ExecAllIsRun(w: World, steps: seq<Step>)
    ensures ExecAll(w.t, steps) == Run(w, steps).t
  {
    if steps != [] { ExecAllIsRun(w, steps[..|steps| - 1]); }
  }

  lemma {:induction false} ExecAllConcat(t: Tables, a: seq<Step>, b: seq<Step>)
    ensures ExecAll(t, a + b) == ExecAll(ExecAll(t, a), b)
  {
    if b == [] {
      assert a + b == a;
    } else {
      ExecAllConcat(t, a, b[..|b| - 1]);
      assert (a + b)[..|a + b| - 1] == a + b[..|b| - 1];
    }
  }

  /** A call of PutOpenBaoSecret: the tables it begins in, its arguments, and what its
      attempts meet. */
  datatype Call = Call(start: Tables, path: string, data: Data, actor: Id, cas: Option<int>, attempts: seq<Attempt>) {
    predicate Valid() { ValidPath(NormalizePath(path)) && !data.isNil }
  }

  /** The tables a call leaves behind after its first k attempts. */
  ghost function Reached(c: Call, k: nat): Tables
    requires k <= |c.attempts|
  {
    ExecAll(c.start, Interleaving(c.path, c.data, c.actor, c.cas, c.attempts[..k]))
  }

  lemma ReachedNothing(c: Call)
    ensures Reached(c, 0) == c.start
  {
    assert c.attempts[..0] == [];
  }

  /** What the call's own k-th transaction comes to, on what the rivals left it. */
  ghost function AttemptOutcome(c: Call, k: nat): Result<()>
    requires k < |c.attempts|
  {
    var a := c.attempts[k];
    if a.fault.Some? then Err(CasError(c.cas, a.fault.value))
    else Outcome(Apply(ExecAll(Reached(c, k), a.rivals), CasOwnStep(c.path, c.data, c.actor, c.cas, a)))
  }

  /** The outcomes the retry loop tries again after. */
  predicate LostRace(c: Call, r: Result<()>) {
    c.cas.None? && r.Err? && r.error in {Serialization, Conflict}
  }

  /** The first k attempts all lost a race, and the request was not cancelled. */
  ghost predicate AllLost(c: Call, k: nat)
    requires k <= |c.attempts|
  {
    forall j: nat :: j < k ==> LostRace(c, AttemptOutcome(c, j)) && !c.attempts[j].cancelled
  }

  /** What the call answers when its last attempt came to r: that, unless the request was
      cancelled behind a lost race. */
  function Answer(c: Call, k: nat, r: Result<()>): Result<()>
    requires k < |c.attempts|
  {
    if LostRace(c, r) && c.attempts[k].cancelled then Err(Driver) else r
  }

  /** An uncased attempt is tried again exactly after a serialization failure or a conflict. */
  lemma LostRaceExactly(c: Call, r: Result<()>)
    ensures LostRace(c, r) <==> c.cas == None && (r == Err(Serialization) || r == Err(Conflict))
  {
  }

  /** What the call answers: its last attempt's outcome, or the cancellation behind a lost race. */
  lemma AnswerExactly(c: Call, k: nat, r: Result<()>)
    requires k < |c.attempts|
    ensures c.cas == None && (r == Err(Serialization) || r == Err(Conflict)) && c.attempts[k].cancelled ==>
      Answer(c, k, r) == Err(Driver)
    ensures c.cas != None || r == Ok(()) || !c.attempts[k].cancelled ==> Answer(c, k, r) == r
  {
  }

  /** An attempt with a CAS value that the database aborts on a race answers that the check
      failed. */
  lemma CasRaceFailsCheck(c: Call, k: nat)
    requires k < |c.attempts| && c.cas.Some?
    requires c.attempts[k].fault == Some(Serialization) || c.attempts[k].fault == Some(Conflict)
    ensures AttemptOutcome(c, k) == Err(CheckAndSet)
  {
  }

  lemma ReachedGrows(c: Call, k: nat)
    requires k < |c.attempts|
    ensures Reached(c, k + 1)
         == Exec(ExecAll(Reached(c, k), c.attempts[k].rivals),
                 CasOwnStep(c.path, c.data, c.actor, c.cas, c.attempts[k]))
  {
    var steps := Interleaving(c.path, c.data, c.actor, c.cas, c.attempts[..k]);
    var own := CasOwnStep(c.path, c.data, c.actor, c.cas, c.attempts[k]);
    assert c.attempts[..k + 1][..k] == c.attempts[..k];
    ExecAllConcat(c.start, steps, c.attempts[k].rivals);
    var all := steps + c.attempts[k].rivals + [own];
    assert all[..|all| - 1] == steps + c.attempts[k].rivals;
  }

  lemma OwnStepApplies(t: Tables, path: string, data: Data, actor: Id, cas: Option<int>, a: Attempt)
    requires ValidPath(NormalizePath(path)) && !data.isNil && a.fault.None?
    ensures Apply(t, CasOwnStep(path, data, actor, cas, a))
         == PutOpenBaoOnce(t, NormalizePath(path), data, actor, cas, a.draw)
  {
    assert CasOwnStep(path, data, actor, cas, a) == PutOpenBaoStep(path, data, actor, cas, a.draw);
    assert PutOpenBao(t, path, data, actor, cas, a.draw)
        == PutOpenBaoOnce(t, NormalizePath(path), data, actor, cas, a.draw);
  }

  lemma MutateApplies(t: Tables, rawPath: string, named: seq<int>, op: Operation, now: int)
    requires var path := NormalizePath(rawPath);
             ValidPath(path) && named != [] && path in t.secrets && !t.secrets[path].quarantined
    ensures Apply(t, MutateStep(rawPath, named, op, now)) ==
      var id := t.secrets[NormalizePath(rawPath)].id;
      Ok(t.(versions := MutateRows(t.versions, id, PositiveVersions(named), op, now)))
  {
  }

  const MAX_ATTEMPTS: nat := 5

  class Store {
    const master: Key
    var users: map<Id, User>
    var keys: map<Id, UserKey>
    var secrets: map<string, Secret>
    var versions: map<Slot, Version>
    var approvals: map<Id, Approval>
    var policies: map<Id, seq<Policy>>
    var applications: set<Id>

    function State(): Tables
      reads this
    {
      Tables(Ring(master, users, keys), secrets, versions, approvals, policies, applications)
    }

    /** The schema's UNIQUE(user_id, version) on user_keys. */
    ghost predicate Valid()
      reads this
    {
      UniqueVersions(keys)
    }

    constructor (master: Key)
      ensures Valid() && State() == Start(master).t
    {
      this.master := master;
      users, keys, secrets, versions, approvals, policies := map[], map[], map[], map[], map[], map[];
      applications := {};
    }

    // ----- Users and keys -----

    method EnsureKey(user: Id, version: nat, draw: KeyDraw) returns (r: Result<()>)
      requires Valid()
      modifies this`keys
      ensures Valid()
      ensures var spec := EnsureUserKey(old(State().ring), user, version, draw);
              if spec.Ok? then r == Ok(()) && State() == old(State()).(ring := spec.value)
              else r == Err(spec.error) && keys == old(keys)
    {
      if exists id <- keys :: Owns(keys, id, user, version) { return Ok(()); }
      if draw.id in keys { return Err(Conflict); }
      if user !in users { return Err(Invalid); }
      keys := keys[draw.id := NewKey(master, user, version, draw)];
      forall a, b, u, v | Owns(keys, a, u, v) && Owns(keys, b, u, v) ensures a == b {
        assert a != draw.id ==> Owns(old(keys), a, u, v);
        assert b != draw.id ==> Owns(old(keys), b, u, v);
      }
      return Ok(());
    }

    method CreateUser(user: Id, role: Role, draw: KeyDraw) returns (r: Result<()>)
      requires Valid()
      modifies this`users, this`keys
      ensures Valid()
      ensures State() == Exec(old(State()), AddUserStep(user, role, draw))
      ensures r == Outcome(Apply(old(State()), AddUserStep(user, role, draw)))
    {
      if user in users { return Err(Conflict); }
      var before := users;
      users := users[user := User(role, true, 1)];
      r := EnsureKey(user, 1, draw);
      if r.Err? { users := before; }
    }

    method SetUser(user: Id, role: Role, active: bool) returns (r: Result<()>)
      requires Valid()
      modifies this`users
      ensures Valid()
      ensures State() == Exec(old(State()), EditUserStep(user, role, active))
      ensures r == Outcome(Apply(old(State()), EditUserStep(user, role, active)))
    {
      if user !in users { return Err(NotFound); }
      users := users[user := users[user].(role := role, active := active)];
      return Ok(());
    }

    method AttachPolicies(user: Id, attached: seq<Policy>)
      requires Valid()
      modifies this`policies
      ensures Valid()
      ensures State() == Exec(old(State()), AttachPoliciesStep(user, attached))
    {
      policies := policies[user := attached];
    }

    method DeleteApplication(application: Id) returns (r: Result<()>)
      requires Valid()
      modifies this`applications
      ensures Valid()
      ensures State() == Exec(old(State()), DropApplicationStep(application))
      ensures r == Outcome(Apply(old(State()), DropApplicationStep(application)))
    {
      if application !in applications { return Err(NotFound); }
      applications := applications - {application};
      return Ok(());
    }

    method RotateKey(keyId: Id, actor: Id, manageAll: bool, draw: KeyDraw) returns (r: Result<()>)
      requires Valid()
      modifies this`users, this`keys
      ensures Valid()
      ensures State() == Exec(old(State()), RotateKeyStep(keyId, actor, manageAll, draw))
      ensures r == Outcome(Apply(old(State()), RotateKeyStep(keyId, actor, manageAll, draw)))
    {
      if keyId !in keys { return Err(NotFound); }
      var user := keys[keyId].userId;
      if user != actor && !manageAll { return Err(Forbidden); }
      if (!keys[keyId].active || !keys[keyId].permissions.rotate) && !manageAll { return Err(Forbidden); }
      if user !in users { return Err(NotFound); }
      var usersBefore, keysBefore := users, keys;
      r := RotateTx(user, draw);
      if r.Err? { users, keys := usersBefore, keysBefore; }
    }

    /** The statements of RotateUserKey; after an error they are to be rolled back. */
    method RotateTx(user: Id, draw: KeyDraw) returns (r: Result<()>)
      requires Valid() && user in users
      modifies this`users, this`keys
      ensures Valid() || r.Err?
      ensures var ring := old(State().ring);
              var spec := EnsureUserKey(Retired(ring, user), user, ring.users[user].keyVersion + 1, draw);
              if spec.Ok? then r == Ok(()) && State() == old(State()).(ring := spec.value) else r == Err(spec.error)
    {
      var version := users[user].keyVersion + 1;
      RetiringKeepsUnique(keys, user);
      users := users[user := users[user].(keyVersion := version)];
      keys := map id | id in keys :: if keys[id].userId == user then keys[id].(active := false) else keys[id];
      assert Ring(master, users, keys) == Retired(old(State().ring), user);
      r := EnsureKey(user, version, draw);
    }

    /** cleanUserKeyPermissions: a loop over the request map in any order. */
    method CleanFlags(raw: map<string, Flag>) returns (r: Result<Permissions>)
      ensures r == CleanPermissions(raw)
    {
      var clean: map<string, bool> := map[];
      var rest := raw.Keys;
      while rest != {}
        invariant rest <= raw.Keys
        invariant forall name <- raw.Keys - rest :: PermissionEntry(name, raw[name])
        invariant clean == map name | name in raw && name !in rest && raw[name].Bool? :: raw[name].value
      {
        var name :| name in rest;
        if !raw[name].Bool? || name !in {"encrypt", "decrypt", "rotate"} {
          assert !PermissionEntry(name, raw[name]);
          return Err(Invalid);
        }
        clean := clean[name := raw[name].value];
        rest := rest - {name};
      }
      if !("decrypt" in clean && clean["decrypt"]) { return Err(Invalid); }
      return Ok(Permissions("encrypt" in clean && clean["encrypt"], true, "rotate" in clean && clean["rotate"]));
    }

    method UpdatePermissions(keyId: Id, raw: map<string, Flag>, actor: Id, manageAll: bool) returns (r: Result<()>)
      requires Valid()
      modifies this`keys
      ensures Valid()
      ensures State() == Exec(old(State()), EditKeyStep(keyId, raw, actor, manageAll))
      ensures r == Outcome(Apply(old(State()), EditKeyStep(keyId, raw, actor, manageAll)))
    {
      var clean := CleanFlags(raw);
      if clean.Err? { return Err(clean.error); }
      if keyId !in keys || !keys[keyId].active || (keys[keyId].userId != actor && !manageAll) {
        return Err(NotFound);
      }
      keys := keys[keyId := keys[keyId].(permissions := clean.value)];
      assert forall id, u, v :: Owns(keys, id, u, v) <==> Owns(old(keys), id, u, v);
      return Ok(());
    }

    // ----- Writing secrets -----

    method GetSecret(path: string, version: int) returns (r: Result<Bytes>)
      ensures r == ReadSecret(State(), path, version)
    {
      if path !in secrets || secrets[path].quarantined { return Err(NotFound); }
      var s := secrets[path];
      var number := if version == 0 then s.current else version;
      if number < 0 || Slot(s.id, number) !in versions { return Err(NotFound); }
      var row := versions[Slot(s.id, number)];
      if row.destroyed || row.deletedAt.Some? { return Err(NotFound); }
      if row.keyId !in keys || !keys[row.keyId].permissions.decrypt { return Err(NotFound); }
      var k := keys[row.keyId];
      var dataKey := Open(k.wrapped, master, k.nonce, Aad(UserKeyContext(k.userId, row.keyVersion)));
      if dataKey.Err? { return Err(dataKey.error); }
      return Open(row.ciphertext, dataKey.value, row.nonce, Aad(SecretContext(s.id, number)));
    }

    method UserDataKey(user: Id, version: nat) returns (r: Result<(Id, Key)>)
      requires Valid()
      ensures r == DataKey(State().ring, user, version)
    {
      if id :| id in keys && Owns(keys, id, user, version) && keys[id].permissions.encrypt {
        EncryptKeyUnique(State().ring, user, version, id);
        var k := keys[id];
        var dataKey := Open(k.wrapped, master, k.nonce, Aad(UserKeyContext(user, version)));
        if dataKey.Err? { return Err(dataKey.error); }
        return Ok((id, dataKey.value));
      }
      return Err(NotFound);
    }

    /** insertSecretVersionTx; after an error the transaction is to be rolled back. */
    method InsertVersionTx(path: string, data: Data, metadata: Bytes, actor: Id, nonce: Nonce) returns (r: Result<()>)
      requires Valid() && path in secrets
      modifies this`secrets, this`versions
      ensures var spec := InsertVersion(old(State()), path, data, metadata, actor, nonce);
              if spec.Ok? then r == Ok(()) && State() == spec.value else r == Err(spec.error)
    {
      var s := secrets[path];
      var slot := Slot(s.id, s.current + 1);
      if actor !in users { return Err(NotFound); }
      var keyVersion := users[actor].keyVersion;
      var key := UserDataKey(actor, keyVersion);
      if key.Err? { return Err(key.error); }
      if slot in versions { return Err(Conflict); }
      var row := SealedVersion(slot, key.value.1, key.value.0, keyVersion, data, metadata, actor, nonce);
      versions := versions[slot := row];
      secrets := secrets[path := s.(current := slot.number)];
      var read := GetSecret(path, slot.number);
      if read.Err? { return Err(read.error); }
      return Ok(());
    }

    /** The first half of both puts: find the row and clear its quarantine, or create it. */
    method UpsertTx(path: string, actor: Id, draw: Draw) returns (r: Result<()>)
      requires Valid()
      modifies this`secrets
      ensures var spec := UpsertSecret(old(State()), path, actor, draw);
              if spec.Ok? then r == Ok(()) && State() == spec.value && path in secrets else r == Err(spec.error)
    {
      if path in secrets {
        secrets := secrets[path := secrets[path].(quarantined := false)];
        return Ok(());
      }
      if exists p <- secrets :: secrets[p].id == draw.secretId { return Err(Conflict); }
      if actor !in users { return Err(Invalid); }
      secrets := secrets[path := Secret(draw.secretId, 0, actor, false)];
      return Ok(());
    }

    /** putSecretTx; after an error the transaction is to be rolled back. */
    method PutSecretTx(write: SecretWrite, actor: Id, draw: Draw) returns (r: Result<()>)
      requires Valid()
      modifies this`secrets, this`versions
      ensures var spec := PutTx(old(State()), write, actor, draw);
              if spec.Ok? then r == Ok(()) && State() == spec.value else r == Err(spec.error)
    {
      if !write.storable { return Err(Driver); }
      r := UpsertTx(write.path, actor, draw);
      if r.Ok? && write.application.Some? && write.application.value !in applications { return Err(Invalid); }
      if r.Ok? && write.owner.Some? && write.owner.value !in users { return Err(Invalid); }
      if r.Ok? { r := InsertVersionTx(write.path, write.data, write.metadata, actor, draw.nonce); }
    }

    method PutSecret(write: SecretWrite, actor: Id, draw: Draw) returns (r: Result<()>)
      requires Valid()
      modifies this`secrets, this`versions
      ensures Valid()
      ensures State() == Exec(old(State()), PutStep(write, actor, draw))
      ensures r == Outcome(Apply(old(State()), PutStep(write, actor, draw)))
    {
      var path := NormalizePath(write.path);
      if !ValidPath(path) || write.data.fields == 0 { return Err(Invalid); }
      var secretsBefore, versionsBefore := secrets, versions;
      r := PutSecretTx(write.(path := path), actor, draw);
      if r.Err? { secrets, versions := secretsBefore, versionsBefore; }
    }

    /** putOpenBaoSecretOnce, which the database aborts when fault is given. */
    method PutOpenBaoSecretOnce(path: string, data: Data, actor: Id, cas: Option<int>, fault: Option<Error>, draw: Draw)
      returns (r: Result<()>)
      requires Valid()
      modifies this`secrets, this`versions
      ensures Valid()
      ensures fault.Some? ==> r == Err(CasError(cas, fault.value)) && State() == old(State())
      ensures fault.None? ==>
        var spec := PutOpenBaoOnce(old(State()), path, data, actor, cas, draw);
        if spec.Ok? then r == Ok(()) && State() == spec.value else r == Err(spec.error) && State() == old(State())
    {
      if fault.Some? { return Err(CasError(cas, fault.value)); }
      var current := if path in secrets then secrets[path].current else 0;
      if !CasAllows(cas, current, path in secrets) { return Err(CheckAndSet); }
      var metadata := EMPTY_OBJECT;
      if path in secrets && secrets[path].current > 0 {
        var slot := Slot(secrets[path].id, secrets[path].current);
        if slot !in versions { return Err(NotFound); }
        metadata := versions[slot].metadata;
      }
      var secretsBefore, versionsBefore := secrets, versions;
      r := UpsertTx(path, actor, draw);
      if r.Err? {
        secrets := secretsBefore;
        return Err(CasError(cas, r.error));
      }
      r := InsertVersionTx(path, data, metadata, actor, draw.nonce);
      if r.Err? { secrets, versions := secretsBefore, versionsBefore; }
    }

    // ----- Deleting secrets -----

    method DeleteSecret(path: string) returns (r: Result<()>)
      requires Valid()
      modifies this`secrets
      ensures Valid()
      ensures var spec := Quarantine(old(State()), path);
              if spec.Ok? then r == Ok(()) && State() == spec.value else r == Err(spec.error) && State() == old(State())
    {
      if path !in secrets || secrets[path].quarantined { return Err(NotFound); }
      secrets := secrets[path := secrets[path].(quarantined := true)];
      return Ok(());
    }

    /** normalizeOpenBaoVersions, without the sorting that SQL's ANY makes irrelevant. */
    method NormalizeVersions(named: seq<int>) returns (r: Result<seq<int>>)
      ensures named == [] ==> r == Err(Invalid)
      ensures named != [] ==> r.Ok?
      ensures r.Ok? ==> Numbers(r.value) == PositiveVersions(named)
      ensures r.Ok? ==> forall i, j :: 0 <= i < j < |r.value| ==> r.value[i] != r.value[j]
    {
      if named == [] { return Err(Invalid); }
      var seen, result := {}, [];
      for i := 0 to |named|
        invariant seen == PositiveVersions(named[..i])
        invariant forall number :: number in result <==> number in seen
        invariant forall i, j :: 0 <= i < j < |result| ==> result[i] != result[j]
      {
        assert named[..i + 1] == named[..i] + [named[i]];
        if named[i] < 1 { continue; }
        if named[i] !in seen {
          seen := seen + {named[i]};
          result := result + [named[i]];
        }
      }
      assert named[..|named|] == named;
      assert forall number :: number in Numbers(result) <==> number in seen;
      return Ok(result);
    }

    method MutateOpenBaoVersions(rawPath: string, named: seq<int>, op: Operation, now: int) returns (r: Result<()>)
      requires Valid()
      modifies this`versions
      ensures Valid()
      ensures State() == Exec(old(State()), MutateStep(rawPath, named, op, now))
      ensures r == Outcome(Apply(old(State()), MutateStep(rawPath, named, op, now)))
    {
      var path := NormalizePath(rawPath);
      if !ValidPath(path) { return Err(Invalid); }
      var clean := NormalizeVersions(named);
      if clean.Err? { return Err(clean.error); }
      if path !in secrets || secrets[path].quarantined { return Err(NotFound); }
      MutateApplies(State(), rawPath, named, op, now);
      MutateTx(secrets[path].id, clean.value, op, now);
      return Ok(());
    }

    /** The UPDATE of mutateOpenBaoVersions, over the versions its ANY names. */
    method MutateTx(id: Id, named: seq<int>, op: Operation, now: int)
      modifies this`versions
      ensures versions == MutateRows(old(versions), id, Numbers(named), op, now)
    {
      versions := map slot | slot in versions ::
        if slot.secret == id && slot.number in named then MutateRow(op, versions[slot], now) else versions[slot];
    }

    method SoftDeleteLatestVersion(rawPath: string, now: int) returns (r: Result<()>)
      requires Valid()
      modifies this`versions
      ensures Valid()
      ensures State() == Exec(old(State()), SoftDeleteLatestStep(rawPath, now))
      ensures r == Outcome(Apply(old(State()), SoftDeleteLatestStep(rawPath, now)))
    {
      var path := NormalizePath(rawPath);
      if !ValidPath(path) { return Err(Invalid); }
      if path !in secrets || secrets[path].quarantined { return Err(NotFound); }
      var s := secrets[path];
      var slot := Slot(s.id, s.current);
      if slot in versions && !versions[slot].destroyed && versions[slot].deletedAt.None? {
        versions := versions[slot := versions[slot].(deletedAt := Some(now))];
      }
      assert versions == MutateRows(old(versions), s.id, {s.current}, SoftDelete, now);
      return Ok(());
    }

    method DeleteMetadata(rawPath: string) returns (r: Result<()>)
      requires Valid()
      modifies this`secrets, this`versions
      ensures Valid()
      ensures State() == Exec(old(State()), DropStep(rawPath))
      ensures r == Outcome(Apply(old(State()), DropStep(rawPath)))
    {
      var path := NormalizePath(rawPath);
      if !ValidPath(path) { return Err(Invalid); }
      if path !in secrets { return Err(NotFound); }
      var id := secrets[path].id;
      secrets := secrets - {path};
      versions := map slot | slot in versions && slot.secret != id :: versions[slot];
      return Ok(());
    }

    // ----- Approvals -----

    method CreateApproval(id: Id, action: string, resource: string, requester: Id, payload: SecretWrite, nonce: Nonce)
      returns (r: Result<()>)
      requires Valid()
      modifies this`approvals
      ensures Valid()
      ensures State() == Exec(old(State()), RequestStep(id, action, resource, requester, payload, nonce))
      ensures r == Outcome(Apply(old(State()), RequestStep(id, action, resource, requester, payload, nonce)))
    {
      if id in approvals { return Err(Conflict); }
      if requester !in users { return Err(Invalid); }
      var sealed_ := Sealed(master, nonce, Aad(ApprovalContext(id)), payload);
      approvals := approvals[id := Approval(action, resource, requester, None, Pending, sealed_, nonce)];
      return Ok(());
    }

    /** The body of an approving resolution; after an error it is to be rolled back. */
    method ExecuteTx(id: Id, a: Approval, draw: Draw) returns (r: Result<()>)
      requires Valid()
      modifies this`secrets, this`versions
      ensures var spec := Execute(old(State()), id, a, draw);
              if spec.Ok? then r == Ok(()) && State() == spec.value else r == Err(spec.error)
    {
      if a.requester !in users || !users[a.requester].active { return Err(Forbidden); }
      var capability := "";
      if a.action == PUT_ACTION {
        capability := "create";
        if a.resource in secrets && !secrets[a.resource].quarantined { capability := "update"; }
      } else if a.action == DELETE_ACTION {
        capability := "delete";
      } else {
        return Err(Invalid);
      }
      var rules := if a.requester in policies then policies[a.requester] else [];
      var allowed := CanAccess(users[a.requester].role, rules, a.resource, capability);
      if !allowed { return Err(Forbidden); }
      if a.action == PUT_ACTION {
        var write := Open(a.payload, master, a.nonce, Aad(ApprovalContext(id)));
        if write.Err? { return Err(write.error); }
        r := PutSecretTx(write.value, a.requester, draw);
      } else {
        r := DeleteSecret(a.resource);
      }
    }

    method Resolve(id: Id, approver: Id, decision: string, draw: Draw) returns (r: Result<()>)
      requires Valid()
      modifies this`secrets, this`versions, this`approvals
      ensures Valid()
      ensures State() == Exec(old(State()), ResolveStep(id, approver, decision, draw))
      ensures r == Outcome(Apply(old(State()), ResolveStep(id, approver, decision, draw)))
    {
      if decision != "approved" && decision != "rejected" { return Err(Invalid); }
      if id !in approvals { return Err(NotFound); }
      var a := approvals[id];
      if a.status != Pending { return Err(Conflict); }
      if a.requester == approver { return Err(RequesterMatch); }
      var secretsBefore, versionsBefore := secrets, versions;
      if decision == "approved" {
        r := ExecuteTx(id, a, draw);
        if r.Err? {
          secrets, versions := secretsBefore, versionsBefore;
          return;
        }
      }
      if approver !in users {
        secrets, versions := secretsBefore, versionsBefore;
        return Err(Driver);
      }
      var status := if decision == "approved" then Approved else Rejected;
      approvals := approvals[id := a.(status := status, approver := Some(approver))];
      return Ok(());
    }

    // ----- Any client, any step -----

    /** The store refines the transition system: whatever step a client takes, the tables
        move exactly as Vault says, and stay put when the step is refused. */
    method Perform(step: Step)
      requires Valid()
      modifies this
      ensures Valid() && State() == Exec(old(State()), step)
    {
      match step {
        case AddUserStep(user, role, key) => var _ := CreateUser(user, role, key);
        case EditUserStep(user, role, active) => var _ := SetUser(user, role, active);
        case AttachPoliciesStep(user, attached) => AttachPolicies(user, attached);
        case AddApplicationStep(application) => applications := applications + {application};
        case DropApplicationStep(application) => var _ := DeleteApplication(application);
        case RotateKeyStep(keyId, actor, manageAll, key) => var _ := RotateKey(keyId, actor, manageAll, key);
        case EditKeyStep(keyId, flags, actor, manageAll) => var _ := UpdatePermissions(keyId, flags, actor, manageAll);
        case PutStep(write, actor, draw) => var _ := PutSecret(write, actor, draw);
        case PutOpenBaoStep(path, data, actor, cas, draw) =>
          var normal := NormalizePath(path);
          if ValidPath(normal) && !data.isNil {
            var _ := PutOpenBaoSecretOnce(normal, data, actor, cas, None, draw);
          }
        case QuarantineStep(path) => var _ := DeleteSecret(TrimSlashes(path));
        case SoftDeleteLatestStep(path, now) => var _ := SoftDeleteLatestVersion(path, now);
        case MutateStep(path, named, op, now) => var _ := MutateOpenBaoVersions(path, named, op, now);
        case DropStep(path) => var _ := DeleteMetadata(path);
        case RequestStep(id, action, resource, requester, payload, nonce) =>
          var _ := CreateApproval(id, action, resource, requester, payload, nonce);
        case ResolveStep(id, approver, decision, draw) => var _ := Resolve(id, approver, decision, draw);
        case Aborted =>
      }
    }

    method PerformAll(steps: seq<Step>)
      requires Valid()
      modifies this
      ensures Valid() && State() == ExecAll(old(State()), steps)
    {
      for i := 0 to |steps|
        invariant Valid() && State() == ExecAll(old(State()), steps[..i])
      {
        assert steps[..i + 1][..i] == steps[..i];
        Perform(steps[i]);
      }
      assert steps[..|steps|] == steps;
    }

    /** The call's own transaction in one round of the retry loop. */
    method OwnAttempt(path: string, data: Data, actor: Id, cas: Option<int>, a: Attempt) returns (r: Result<()>)
      requires Valid() && ValidPath(NormalizePath(path)) && !data.isNil
      modifies this`secrets, this`versions
      ensures Valid()
      ensures State() == Exec(old(State()), CasOwnStep(path, data, actor, cas, a))
      ensures r.Ok? <==> Apply(old(State()), CasOwnStep(path, data, actor, cas, a)).Ok?
      ensures a.fault.Some? ==> r == Err(CasError(cas, a.fault.value))
      ensures a.fault.None? ==> r == Outcome(Apply(old(State()), CasOwnStep(path, data, actor, cas, a)))
    {
      if a.fault.None? { OwnStepApplies(State(), path, data, actor, cas, a); }
      r := PutOpenBaoSecretOnce(NormalizePath(path), data, actor, cas, a.fault, a.draw);
    }

    /** The k-th transaction of a call, behind what other clients commit before it. */
    method Attempted(c: Call, k: nat) returns (r: Result<()>)
      requires Valid() && c.Valid() && k < |c.attempts| && State() == Reached(c, k)
      modifies this
      ensures Valid() && State() == Reached(c, k + 1)
      ensures r == AttemptOutcome(c, k)
    {
      PerformAll(c.attempts[k].rivals);
      r := OwnAttempt(c.path, c.data, c.actor, c.cas, c.attempts[k]);
      ReachedGrows(c, k);
    }

    /** The body of the retry loop: what the call answers if it ends here, and whether it
        tries again; the last attempt allowed is the last. */
    method Round(c: Call, k: nat) returns (r: Result<()>, again: bool)
      requires Valid() && c.Valid() && k < |c.attempts| && State() == Reached(c, k)
      modifies this
      ensures Valid() && State() == Reached(c, k + 1)
      ensures r == Answer(c, k, AttemptOutcome(c, k))
      ensures again ==> c.cas.None? && k + 1 < MAX_ATTEMPTS
      ensures AllLost(c, k) ==> (again <==> AllLost(c, k + 1) && k + 1 < MAX_ATTEMPTS)
    {
      r := Attempted(c, k);
      if r.Ok? { return r, false; }
      if c.cas.Some? || r.error !in {Serialization, Conflict} { return r, false; }
      if c.attempts[k].cancelled { return Err(Driver), false; }
      return r, k + 1 < MAX_ATTEMPTS;
    }

    /** The retry loop: it goes on exactly after lost races, so that only the last of its
        attempts can have committed. */
    method Retry(c: Call) returns (r: Result<()>, tries: nat)
      requires Valid() && c.Valid() && |c.attempts| == MAX_ATTEMPTS && State() == c.start
      modifies this
      ensures Valid() && 1 <= tries <= MAX_ATTEMPTS && State() == Reached(c, tries)
      ensures AllLost(c, tries - 1) && (AllLost(c, tries) ==> tries == MAX_ATTEMPTS)
      ensures r == Answer(c, tries - 1, AttemptOutcome(c, tries - 1))
      ensures c.cas.Some? ==> tries == 1
    {
      ReachedNothing(c);
      tries := 0;
      while true
        invariant Valid() && tries < MAX_ATTEMPTS && State() == Reached(c, tries)
        invariant AllLost(c, tries) && (tries > 0 ==> c.cas.None?)
        decreases MAX_ATTEMPTS - tries
      {
        var again;
        r, again := Round(c, tries);
        tries := tries + 1;
        if !again { return; }
      }
    }

    /** PutOpenBaoSecret: retries an uncased write that lost a race, at most five times,
        and commits at most once, while other clients keep changing the tables. */
    method PutOpenBaoSecret(path: string, data: Data, actor: Id, cas: Option<int>, attempts: seq<Attempt>)
      returns (r: Result<()>, tries: nat)
      requires Valid() && |attempts| == 5
      modifies this
      ensures Valid() && tries <= 5 && (cas.Some? ==> tries <= 1)
      ensures var c := Call(old(State()), path, data, actor, cas, attempts);
              && State() == Reached(c, tries)
              && (tries == 0 <==> !c.Valid())
              && if tries == 0 then r == Err(Invalid)
                 else AllLost(c, tries - 1) && (AllLost(c, tries) ==> tries == 5)
                      && r == Answer(c, tries - 1, AttemptOutcome(c, tries - 1))
    {
      var c := Call(State(), path, data, actor, cas, attempts);
      ReachedNothing(c);
      if !ValidPath(NormalizePath(path)) || data.isNil { return Err(Invalid), 0; }
      r, tries := Retry(c);
    }
  }

  /** What the other clients commit during the attempts. */
  function Rivals(attempts: seq<Attempt>): seq<Step> {
    if attempts == [] then [] else Rivals(attempts[..|attempts| - 1]) + attempts[|attempts| - 1].rivals
  }

  /** The tables the other clients alone would have made by the end of the first k attempts. */
  ghost function WithoutCall(c: Call, k: nat): Tables
    requires k <= |c.attempts|
  {
    ExecAll(c.start, Rivals(c.attempts[..k]))
  }

  lemma WithoutCallGrows(c: Call, k: nat)
    requires k < |c.attempts|
    ensures WithoutCall(c, k + 1) == ExecAll(WithoutCall(c, k), c.attempts[k].rivals)
  {
    var init, last := c.attempts[..k], c.attempts[k];
    assert c.attempts[..k + 1] == init + [last];
    RivalsGrow(init, last);
    ExecAllConcat(c.start, Rivals(init), last.rivals);
  }

  lemma RivalsGrow(init: seq<Attempt>, last: Attempt)
    ensures Rivals(init + [last]) == Rivals(init) + last.rivals
  {
    assert (init + [last])[..|init|] == init;
  }

  /** The call's own k-th transaction commits. */
  ghost predicate OwnCommits(c: Call, k: nat, before: Tables)
    requires k < |c.attempts|
  {
    Apply(before, CasOwnStep(c.path, c.data, c.actor, c.cas, c.attempts[k])).Ok?
  }

  /** An attempt that fails is a transaction that was refused or aborted. */
  lemma OutcomeIsCommit(c: Call, k: nat)
    requires k < |c.attempts|
    ensures AttemptOutcome(c, k).Ok? <==> OwnCommits(c, k, ExecAll(Reached(c, k), c.attempts[k].rivals))
  {
  }

  lemma AnswerIsOutcome(c: Call, k: nat, r: Result<()>)
    requires k < |c.attempts|
    ensures Answer(c, k, r).Ok? <==> r.Ok?
  {
  }

  /** Attempts that lost a race leave no trace: the tables are those the other clients
      alone would have made. */
  lemma {:induction false} LostAttemptsLeaveNoTrace(c: Call, k: nat)
    requires k <= |c.attempts| && AllLost(c, k)
    ensures Reached(c, k) == WithoutCall(c, k)
  {
    if k == 0 {
      assert c.attempts[..k] == [];
    } else {
      LostAttemptsLeaveNoTrace(c, k - 1);
      ReachedGrows(c, k - 1);
      WithoutCallGrows(c, k - 1);
      OutcomeIsCommit(c, k - 1);
    }
  }

  /** A call that ends behind its last attempt commits at most one version: all it has
      done, besides what other clients did, is that attempt's transaction, which committed
      exactly when the caller is told so. */
  lemma CommitsAtMostOnce(c: Call, tries: nat)
    requires 1 <= tries <= |c.attempts| && AllLost(c, tries - 1)
    ensures var own := CasOwnStep(c.path, c.data, c.actor, c.cas, c.attempts[tries - 1]);
            && Reached(c, tries) == Exec(WithoutCall(c, tries), own)
            && (Answer(c, tries - 1, AttemptOutcome(c, tries - 1)).Ok? <==>
                 OwnCommits(c, tries - 1, WithoutCall(c, tries)))
  {
    ReachedAtLast(c, tries - 1);
    OutcomeIsCommit(c, tries - 1);
    AnswerIsOutcome(c, tries - 1, AttemptOutcome(c, tries - 1));
  }

  lemma ReachedAtLast(c: Call, k: nat)
    requires k < |c.attempts| && AllLost(c, k)
    ensures ExecAll(Reached(c, k), c.attempts[k].rivals) == WithoutCall(c, k + 1)
    ensures Reached(c, k + 1) == Exec(WithoutCall(c, k + 1), CasOwnStep(c.path, c.data, c.actor, c.cas, c.attempts[k]))
  {
    LostAttemptsLeaveNoTrace(c, k);
    ReachedGrows(c, k);
    WithoutCallGrows(c, k);
  }

  // ----- Runs of the store -----

  /** A store that starts empty and performs its clients' steps is in the state the theorems
      about runs speak of, and its invariant holds. */
  method RunFromEmpty(master: Key, steps: seq<Step>) returns (store: Store)
    ensures fresh(store) && store.Valid()
    ensures store.State() == Run(Start(master), steps).t && Inv(Run(Start(master), steps))
  {
    store := new Store(master);
    store.PerformAll(steps);
    ExecAllIsRun(Start(master), steps);
    StartInv(master);
    RunKeepsInv(Start(master), steps);
  }
}
