/** The vault's tables and what each committed transaction does to them. */
module Vault {
  import opened Wrappers
  import opened Text
  import opened Aead
  import opened Access
  import opened Keyring

  datatype Secret = Secret(id: Id, current: nat, createdBy: Id, quarantined: bool)

  /** The primary key of secret_versions. */
  datatype Slot = Slot(secret: Id, number: nat)

  datatype Version = Version(ciphertext: Sealed<Bytes>, nonce: Bytes, keyId: Id, keyVersion: nat,
                             metadata: Bytes, createdBy: Id, destroyed: bool, deletedAt: Option<int>)

  /** A JSON object of a request: its encoding, its number of fields, and whether it was nil. */
  datatype Data = Data(json: Bytes, fields: nat, isNil: bool)

  /** A request to write a secret. Two of its descriptive columns refer to other tables;
      storable says that PostgreSQL can hold its texts, which it cannot with a NUL. */
  datatype SecretWrite = SecretWrite(path: string, data: Data, metadata: Bytes,
                                     application: Option<Id>, owner: Option<Id>, storable: bool)

  datatype Status = Pending | Approved | Rejected

  datatype Approval = Approval(action: string, resource: string, requester: Id, approver: Option<Id>,
                               status: Status, payload: Sealed<SecretWrite>, nonce: Bytes)

  datatype Tables = Tables(ring: Ring, secrets: map<string, Secret>, versions: map<Slot, Version>,
                           approvals: map<Id, Approval>, policies: map<Id, seq<Policy>>, applications: set<Id>)

  /** The randomness a put consumes. */
  datatype Draw = Draw(secretId: Id, nonce: Nonce)

  /** The encoding of an empty JSON object. */
  const EMPTY_OBJECT: Bytes := [123, 125]

  function NormalizePath(path: string): string { TrimSlashes(TrimSpace(path)) }

  // ----- Reading -----

  /** The join of a version with its wrapping key, and the two decryptions. */
  function Unwrap(ring: Ring, slot: Slot, row: Version): Result<Bytes> {
    if row.keyId !in ring.keys || !ring.keys[row.keyId].permissions.decrypt then Err(NotFound)
    else
      var k := ring.keys[row.keyId];
      var dataKey :- Open(k.wrapped, ring.master, k.nonce, Aad(UserKeyContext(k.userId, row.keyVersion)));
      Open(row.ciphertext, dataKey, row.nonce, Aad(SecretContext(slot.secret, slot.number)))
  }

  /** getSecretRow: version 0 asks for the current one. */
  function ReadSecret(t: Tables, path: string, version: int): Result<Bytes> {
    if path !in t.secrets || t.secrets[path].quarantined then Err(NotFound)
    else
      var s := t.secrets[path];
      var number := if version == 0 then s.current else version;
      if number < 0 || Slot(s.id, number) !in t.versions then Err(NotFound)
      else
        var row := t.versions[Slot(s.id, number)];
        if row.destroyed || row.deletedAt.Some? then Err(NotFound)
        else Unwrap(t.ring, Slot(s.id, number), row)
  }

  // ----- Writing -----

  /** userDataKeyTx. */
  ghost function DataKey(ring: Ring, user: Id, version: nat): Result<(Id, Key)> {
    match EncryptKeyId(ring, user, version)
    case None => Err(NotFound)
    case Some(id) =>
      var k := ring.keys[id];
      var dataKey :- Open(k.wrapped, ring.master, k.nonce, Aad(UserKeyContext(user, version)));
      Ok((id, dataKey))
  }

  predicate IdTaken(secrets: map<string, Secret>, id: Id) {
    exists path <- secrets :: secrets[path].id == id
  }

  /** The secrets row of a put: revived when it exists, created at version 0 otherwise. */
  function UpsertSecret(t: Tables, path: string, actor: Id, draw: Draw): Result<Tables> {
    if path in t.secrets then
      Ok(t.(secrets := t.secrets[path := t.secrets[path].(quarantined := false)]))
    else if IdTaken(t.secrets, draw.secretId) then Err(Conflict)
    else if actor !in t.ring.users then Err(Invalid)
    else Ok(t.(secrets := t.secrets[path := Secret(draw.secretId, 0, actor, false)]))
  }

  function SealedVersion(slot: Slot, dataKey: Key, keyId: Id, keyVersion: nat, data: Data, metadata: Bytes,
                         actor: Id, nonce: Nonce): Version
  {
    Version(Sealed(dataKey, nonce, Aad(SecretContext(slot.secret, slot.number)), data.json),
            nonce, keyId, keyVersion, metadata, actor, false, None)
  }

  /** insertSecretVersionTx: seal under the actor's newest key, advance the row, read back. */
  ghost function InsertVersion(t: Tables, path: string, data: Data, metadata: Bytes, actor: Id, nonce: Nonce)
    : Result<Tables>
    requires path in t.secrets
  {
    var s := t.secrets[path];
    var slot := Slot(s.id, s.current + 1);
    if actor !in t.ring.users then Err(NotFound)
    else
      var keyVersion := t.ring.users[actor].keyVersion;
      var key :- DataKey(t.ring, actor, keyVersion);
      if slot in t.versions then Err(Conflict)
      else
        var row := SealedVersion(slot, key.1, key.0, keyVersion, data, metadata, actor, nonce);
        var after := t.(versions := t.versions[slot := row], secrets := t.secrets[path := s.(current := slot.number)]);
        var _ :- ReadSecret(after, path, slot.number);
        Ok(after)
  }

  /** The foreign keys of the secrets row a put writes. */
  predicate ReferencesExist(t: Tables, write: SecretWrite) {
    && (write.application.None? || write.application.value in t.applications)
    && (write.owner.None? || write.owner.value in t.ring.users)
  }

  /** putSecretTx: no check of the path or of the data. */
  ghost function PutTx(t: Tables, write: SecretWrite, actor: Id, draw: Draw): Result<Tables> {
    if !write.storable then Err(Driver)
    else
      var staged :- UpsertSecret(t, write.path, actor, draw);
      if !ReferencesExist(t, write) then Err(Invalid)
      else InsertVersion(staged, write.path, write.data, write.metadata, actor, draw.nonce)
  }

  ghost function PutSecret(t: Tables, write: SecretWrite, actor: Id, draw: Draw): Result<Tables> {
    var path := NormalizePath(write.path);
    if !ValidPath(path) || write.data.fields == 0 then Err(Invalid)
    else PutTx(t, write.(path := path), actor, draw)
  }

  /** validateOpenBaoCAS. */
  predicate CasAllows(cas: Option<int>, current: int, exists_: bool) {
    cas.None? || (cas.value >= 0 && ((!exists_ && cas.value == 0) || (exists_ && cas.value == current)))
  }

  function CarriedMetadata(t: Tables, path: string): Result<Bytes> {
    if path !in t.secrets || t.secrets[path].current == 0 then Ok(EMPTY_OBJECT)
    else
      var slot := Slot(t.secrets[path].id, t.secrets[path].current);
      if slot !in t.versions then Err(NotFound) else Ok(t.versions[slot].metadata)
  }

  /** A unique violation met with a CAS value becomes a CAS failure; without one it stays. */
  function CasError(cas: Option<int>, error: Error): Error {
    if cas.Some? && error in {Conflict, Serialization} then CheckAndSet else error
  }

  /** putOpenBaoSecretOnce on a normalised path. */
  ghost function PutOpenBaoOnce(t: Tables, path: string, data: Data, actor: Id, cas: Option<int>, draw: Draw)
    : Result<Tables>
  {
    var current := if path in t.secrets then t.secrets[path].current else 0;
    if !CasAllows(cas, current, path in t.secrets) then Err(CheckAndSet)
    else
      var metadata :- CarriedMetadata(t, path);
      match UpsertSecret(t, path, actor, draw)
      case Err(error) => Err(CasError(cas, error))
      case Ok(staged) => InsertVersion(staged, path, data, metadata, actor, draw.nonce)
  }

  ghost function PutOpenBao(t: Tables, rawPath: string, data: Data, actor: Id, cas: Option<int>, draw: Draw)
    : Result<Tables>
  {
    var path := NormalizePath(rawPath);
    if !ValidPath(path) || data.isNil then Err(Invalid)
    else PutOpenBaoOnce(t, path, data, actor, cas, draw)
  }

  // ----- Deleting -----

  /** DeleteSecret. */
  function Quarantine(t: Tables, path: string): Result<Tables> {
    if path !in t.secrets || t.secrets[path].quarantined then Err(NotFound)
    else Ok(t.(secrets := t.secrets[path := t.secrets[path].(quarantined := true)]))
  }

  datatype Operation = SoftDelete | Undelete | Destroy

  function MutateRow(op: Operation, row: Version, now: int): Version {
    if row.destroyed then row
    else match op
      case SoftDelete => row.(deletedAt := if row.deletedAt.None? then Some(now) else row.deletedAt)
      case Undelete => row.(deletedAt := None)
      case Destroy => row.(destroyed := true, deletedAt := None, ciphertext := Sealed.Empty, nonce := [])
  }

  function MutateRows(versions: map<Slot, Version>, secret: Id, numbers: set<int>, op: Operation, now: int)
    : map<Slot, Version>
  {
    map slot | slot in versions ::
      if slot.secret == secret && slot.number in numbers then MutateRow(op, versions[slot], now) else versions[slot]
  }

  function PositiveVersions(named: seq<int>): set<int> {
    set number | number in named && number >= 1
  }

  /** mutateOpenBaoVersions. */
  function MutateVersions(t: Tables, rawPath: string, named: seq<int>, op: Operation, now: int): Result<Tables> {
    var path := NormalizePath(rawPath);
    if !ValidPath(path) || named == [] then Err(Invalid)
    else if path !in t.secrets || t.secrets[path].quarantined then Err(NotFound)
    else Ok(t.(versions := MutateRows(t.versions, t.secrets[path].id, PositiveVersions(named), op, now)))
  }

  function SoftDeleteLatest(t: Tables, rawPath: string, now: int): Result<Tables> {
    var path := NormalizePath(rawPath);
    if !ValidPath(path) then Err(Invalid)
    else if path !in t.secrets || t.secrets[path].quarantined then Err(NotFound)
    else
      var s := t.secrets[path];
      Ok(t.(versions := MutateRows(t.versions, s.id, {s.current}, SoftDelete, now)))
  }

  /** DeleteOpenBaoMetadata: the versions go with their secret. */
  function DropSecret(t: Tables, rawPath: string): Result<Tables> {
    var path := NormalizePath(rawPath);
    if !ValidPath(path) then Err(Invalid)
    else if path !in t.secrets then Err(NotFound)
    else
      var id := t.secrets[path].id;
      Ok(t.(secrets := t.secrets - {path},
            versions := map slot | slot in t.versions && slot.secret != id :: t.versions[slot]))
  }

  // ----- Approvals -----

  const PUT_ACTION := "secret.put"
  const DELETE_ACTION := "secret.delete"

  function RequestApproval(t: Tables, id: Id, action: string, resource: string, requester: Id,
                           payload: SecretWrite, nonce: Nonce): Result<Tables>
  {
    if id in t.approvals then Err(Conflict)
    else if requester !in t.ring.users then Err(Invalid)
    else
      var sealed_ := Sealed(t.ring.master, nonce, Aad(ApprovalContext(id)), payload);
      Ok(t.(approvals := t.approvals[id := Approval(action, resource, requester, None, Pending, sealed_, nonce)]))
  }

  function PoliciesOf(t: Tables, user: Id): seq<Policy> {
    if user in t.policies then t.policies[user] else []
  }

  /** The capability an approved action needs at the moment it is executed. */
  function NeededCapability(t: Tables, a: Approval): Result<string> {
    if a.action == PUT_ACTION then
      Ok(if a.resource in t.secrets && !t.secrets[a.resource].quarantined then "update" else "create")
    else if a.action == DELETE_ACTION then Ok("delete")
    else Err(Invalid)
  }

  /** What approving a request does to the secrets. */
  ghost function Execute(t: Tables, id: Id, a: Approval, draw: Draw): Result<Tables> {
    if a.requester !in t.ring.users || !t.ring.users[a.requester].active then Err(Forbidden)
    else
      var capability :- NeededCapability(t, a);
      if !Allows(t.ring.users[a.requester].role, PoliciesOf(t, a.requester), a.resource, capability) then Err(Forbidden)
      else if a.action == PUT_ACTION then
        var write :- Open(a.payload, t.ring.master, a.nonce, Aad(ApprovalContext(id)));
        PutTx(t, write, a.requester, draw)
      else Quarantine(t, a.resource)
  }

  ghost function ResolveApproval(t: Tables, id: Id, approver: Id, decision: string, draw: Draw): Result<Tables> {
    if decision != "approved" && decision != "rejected" then Err(Invalid)
    else if id !in t.approvals then Err(NotFound)
    else
      var a := t.approvals[id];
      if a.status != Pending then Err(Conflict)
      else if a.requester == approver then Err(RequesterMatch)
      else
        var done :- if decision == "approved" then Execute(t, id, a, draw) else Ok(t);
        if approver !in t.ring.users then Err(Driver)
        else
          var status := if decision == "approved" then Approved else Rejected;
          Ok(done.(approvals := done.approvals[id := a.(status := status, approver := Some(approver))]))
  }

  // ----- Steps and runs -----

  /** One transaction of one client. Serializable transactions take effect one at a
      time; Aborted stands for any that failed inside PostgreSQL. */
  datatype Step =
    | AddUserStep(user: Id, role: Role, key: KeyDraw)
    | EditUserStep(user: Id, role: Role, active: bool)
    | AttachPoliciesStep(user: Id, policies: seq<Policy>)
    | AddApplicationStep(application: Id)
    | DropApplicationStep(application: Id)
    | RotateKeyStep(keyId: Id, actor: Id, manageAll: bool, key: KeyDraw)
    | EditKeyStep(keyId: Id, flags: map<string, Flag>, actor: Id, manageAll: bool)
    | PutStep(write: SecretWrite, actor: Id, draw: Draw)
    | PutOpenBaoStep(path: string, data: Data, actor: Id, cas: Option<int>, draw: Draw)
    | QuarantineStep(path: string)
    | SoftDeleteLatestStep(path: string, now: int)
    | MutateStep(path: string, named: seq<int>, op: Operation, now: int)
    | DropStep(path: string)
    | RequestStep(id: Id, action: string, resource: string, requester: Id, payload: SecretWrite, nonce: Nonce)
    | ResolveStep(id: Id, approver: Id, decision: string, draw: Draw)
    | Aborted

  function WithRing(t: Tables, ring: Result<Ring>): Result<Tables> {
    var after :- ring;
    Ok(t.(ring := after))
  }

  ghost function Apply(t: Tables, step: Step): Result<Tables> {
    match step
    case AddUserStep(user, role, key) => WithRing(t, AddUser(t.ring, user, role, key))
    case EditUserStep(user, role, active) => WithRing(t, EditUser(t.ring, user, role, active))
    case AttachPoliciesStep(user, policies) => Ok(t.(policies := t.policies[user := policies]))
    case AddApplicationStep(application) => Ok(t.(applications := t.applications + {application}))
    case DropApplicationStep(application) =>
      if application !in t.applications then Err(NotFound)
      else Ok(t.(applications := t.applications - {application}))
    case RotateKeyStep(keyId, actor, manageAll, key) =>
      WithRing(t, RotateUserKey(t.ring, keyId, actor, manageAll, key))
    case EditKeyStep(keyId, flags, actor, manageAll) =>
      WithRing(t, UpdateKeyPermissions(t.ring, keyId, flags, actor, manageAll))
    case PutStep(write, actor, draw) => PutSecret(t, write, actor, draw)
    case PutOpenBaoStep(path, data, actor, cas, draw) => PutOpenBao(t, path, data, actor, cas, draw)
    case QuarantineStep(path) => Quarantine(t, TrimSlashes(path))
    case SoftDeleteLatestStep(path, now) => SoftDeleteLatest(t, path, now)
    case MutateStep(path, named, op, now) => MutateVersions(t, path, named, op, now)
    case DropStep(path) => DropSecret(t, path)
    case RequestStep(id, action, resource, requester, payload, nonce) =>
      RequestApproval(t, id, action, resource, requester, payload, nonce)
    case ResolveStep(id, approver, decision, draw) => ResolveApproval(t, id, approver, decision, draw)
    case Aborted => Err(Serialization)
  }

  /** The write a committed step performs, under the path it is stored at. */
  function WriteOf(t: Tables, step: Step): Option<(string, Bytes)> {
    match step
    case PutStep(write, _, _) => Some((NormalizePath(write.path), write.data.json))
    case PutOpenBaoStep(path, data, _, _, _) => Some((NormalizePath(path), data.json))
    case ResolveStep(id, _, decision, _) =>
      if decision == "approved" && id in t.approvals && t.approvals[id].action == PUT_ACTION
         && t.approvals[id].payload.Sealed?
      then Some((t.approvals[id].payload.plaintext.path, t.approvals[id].payload.plaintext.data.json))
      else None
    case _ => None
  }

  /** The tables together with the plaintext each version was written with. */
  datatype World = World(t: Tables, ledger: map<Slot, Bytes>)

  ghost function Next(w: World, step: Step): World {
    match Apply(w.t, step)
    case Err(_) => w
    case Ok(after) =>
      match WriteOf(w.t, step)
      case Some((path, bytes)) =>
        if path in after.secrets
        then World(after, w.ledger[Slot(after.secrets[path].id, after.secrets[path].current) := bytes])
        else World(after, w.ledger)
      case None => World(after, w.ledger)
  }

  function Start(master: Key): World {
    World(Tables(Ring(master, map[], map[]), map[], map[], map[], map[], {}), map[])
  }

  ghost function Run(w: World, steps: seq<Step>): World {
    if steps == [] then w else Next(Run(w, steps[..|steps| - 1]), steps[|steps| - 1])
  }
}
