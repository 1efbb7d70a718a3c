/** What every committed transaction keeps: the version ledger, the link from each
    version to its wrapping key, the key rings and the approval records. */
module VaultInvariant {
  import opened Wrappers
  import opened Text
  import opened Aead
  import opened Access
  import opened Keyring
  import opened Vault

  // ----- The invariant -----

  predicate Holds(secrets: map<string, Secret>, path: string, slot: Slot) {
    path in secrets && secrets[path].id == slot.secret && 1 <= slot.number <= secrets[path].current
  }

  /** The versions of every secret are exactly 1..current_version, and there are no others. */
  ghost predicate LedgerOk(secrets: map<string, Secret>, versions: map<Slot, Version>) {
    && (forall p, q :: p in secrets && q in secrets && secrets[p].id == secrets[q].id ==> p == q)
    && (forall p <- secrets :: secrets[p].current >= 1)
    && (forall slot <- versions :: exists p :: Holds(secrets, p, slot))
    && (forall p, slot :: Holds(secrets, p, slot) ==> slot in versions)
  }

  /** A version that is not destroyed opens to the plaintext it was written with, under
      the key its row records; a destroyed one is blank. */
  predicate LinkOk(ring: Ring, ledger: map<Slot, Bytes>, slot: Slot, row: Version) {
    if row.destroyed then row.ciphertext == Sealed.Empty && row.nonce == [] && row.deletedAt.None?
    else
      && slot in ledger
      && Owns(ring.keys, row.keyId, row.createdBy, row.keyVersion)
      && Unwrap(ring, slot, row) == Ok(ledger[slot])
  }

  ghost predicate LinksOk(ring: Ring, versions: map<Slot, Version>, ledger: map<Slot, Bytes>) {
    forall slot <- versions :: LinkOk(ring, ledger, slot, versions[slot])
  }

  /** A request is undecided without an approver, and otherwise decided by somebody else. */
  predicate ApprovalOk(ring: Ring, id: Id, a: Approval) {
    && (a.status == Pending <==> a.approver.None?)
    && (a.approver.Some? ==> a.approver.value != a.requester)
    && Open(a.payload, ring.master, a.nonce, Aad(ApprovalContext(id))).Ok?
  }

  ghost predicate Inv(w: World) {
    && RingOk(w.t.ring)
    && LedgerOk(w.t.secrets, w.t.versions)
    && LinksOk(w.t.ring, w.t.versions, w.ledger)
    && forall id <- w.t.approvals :: ApprovalOk(w.t.ring, id, w.t.approvals[id])
  }

  // ----- Adding a version -----

  /** The one version a put adds: the next number of its secret, sealed for the actor. */
  ghost predicate Adds(t: Tables, after: Tables, path: string, bytes: Bytes, actor: Id) {
    && after.ring == t.ring && after.policies == t.policies && after.applications == t.applications
    && after.approvals == t.approvals
    && path in after.secrets
    && var s := after.secrets[path];
    var slot := Slot(s.id, s.current);
    && s.current >= 1 && !s.quarantined
    && after.secrets == t.secrets[path := s]
    && (path in t.secrets ==> s.id == t.secrets[path].id && s.current == t.secrets[path].current + 1)
    && (path !in t.secrets ==> !IdTaken(t.secrets, s.id) && s.current == 1)
    && slot !in t.versions && slot in after.versions
    && after.versions == t.versions[slot := after.versions[slot]]
    && var row := after.versions[slot];
    && actor in t.ring.users
    && row.createdBy == actor && !row.destroyed && row.deletedAt.None?
    && row.keyVersion == t.ring.users[actor].keyVersion
    && Owns(t.ring.keys, row.keyId, actor, row.keyVersion)
    && Unwrap(t.ring, slot, row) == Ok(bytes)
  }

  lemma DataKeyOpens(ring: Ring, user: Id, version: nat)
    requires DataKey(ring, user, version).Ok?
    ensures var (id, key) := DataKey(ring, user, version).value;
            Owns(ring.keys, id, user, version) &&
            Open(ring.keys[id].wrapped, ring.master, ring.keys[id].nonce, Aad(UserKeyContext(user, version))) == Ok(key)
  {
  }

  /** A version sealed for a user is readable as soon as its key may decrypt. */
  lemma SealedVersionOpens(ring: Ring, slot: Slot, user: Id, version: nat, data: Data, metadata: Bytes, nonce: Nonce)
    requires DataKey(ring, user, version).Ok?
    ensures var (id, key) := DataKey(ring, user, version).value;
            var row := SealedVersion(slot, key, id, version, data, metadata, user, nonce);
            Unwrap(ring, slot, row).Ok? ==> Unwrap(ring, slot, row) == Ok(data.json)
  {
    DataKeyOpens(ring, user, version);
  }

  /** The row a put finds or creates before it inserts the version. */
  ghost predicate Stages(t: Tables, staged: Tables, path: string) {
    && path in staged.secrets
    && var s := staged.secrets[path];
    && staged == t.(secrets := t.secrets[path := s])
    && !s.quarantined
    && (path in t.secrets ==> s.id == t.secrets[path].id && s.current == t.secrets[path].current)
    && (path !in t.secrets ==> !IdTaken(t.secrets, s.id) && s.current == 0)
  }

  lemma UpsertStages(t: Tables, path: string, actor: Id, draw: Draw)
    requires UpsertSecret(t, path, actor, draw).Ok?
    ensures Stages(t, UpsertSecret(t, path, actor, draw).value, path)
  {
  }

  lemma InsertAdds(t: Tables, staged: Tables, path: string, data: Data, metadata: Bytes, actor: Id, nonce: Nonce)
    requires Stages(t, staged, path)
    requires InsertVersion(staged, path, data, metadata, actor, nonce).Ok?
    ensures Adds(t, InsertVersion(staged, path, data, metadata, actor, nonce).value, path, data.json, actor)
  {
    var after := InsertVersion(staged, path, data, metadata, actor, nonce).value;
    var s := after.secrets[path];
    var slot := Slot(s.id, s.current);
    var version := t.ring.users[actor].keyVersion;
    DataKeyOpens(t.ring, actor, version);
    SealedVersionOpens(t.ring, slot, actor, version, data, metadata, nonce);
    var key := DataKey(t.ring, actor, version).value;
    var row := SealedVersion(slot, key.1, key.0, version, data, metadata, actor, nonce);
    assert after.versions == t.versions[slot := row];
    assert ReadSecret(after, path, s.current) == Unwrap(t.ring, slot, row);
    assert after.secrets == t.secrets[path := s];
  }

  lemma PutTxAdds(t: Tables, write: SecretWrite, actor: Id, draw: Draw)
    requires PutTx(t, write, actor, draw).Ok?
    ensures Adds(t, PutTx(t, write, actor, draw).value, write.path, write.data.json, actor)
  {
    var staged := UpsertSecret(t, write.path, actor, draw).value;
    UpsertStages(t, write.path, actor, draw);
    InsertAdds(t, staged, write.path, write.data, write.metadata, actor, draw.nonce);
  }

  lemma PutOpenBaoAdds(t: Tables, path: string, data: Data, actor: Id, cas: Option<int>, draw: Draw)
    requires PutOpenBaoOnce(t, path, data, actor, cas, draw).Ok?
    ensures Adds(t, PutOpenBaoOnce(t, path, data, actor, cas, draw).value, path, data.json, actor)
  {
    var staged := UpsertSecret(t, path, actor, draw).value;
    UpsertStages(t, path, actor, draw);
    InsertAdds(t, staged, path, data, CarriedMetadata(t, path).value, actor, draw.nonce);
  }

  lemma AddKeepsLedger(t: Tables, after: Tables, path: string, bytes: Bytes, actor: Id)
    requires LedgerOk(t.secrets, t.versions) && Adds(t, after, path, bytes, actor)
    ensures LedgerOk(after.secrets, after.versions)
  {
    var s := after.secrets[path];
    var added := Slot(s.id, s.current);
    assert forall p <- t.secrets :: p != path ==> t.secrets[p].id != s.id;
    forall slot <- after.versions ensures exists p :: Holds(after.secrets, p, slot) {
      if slot == added {
        assert Holds(after.secrets, path, slot);
      } else {
        var p :| Holds(t.secrets, p, slot);
        assert Holds(after.secrets, p, slot);
      }
    }
    forall p, slot | Holds(after.secrets, p, slot) ensures slot in after.versions {
      if slot != added { assert Holds(t.secrets, p, slot); }
    }
  }

  lemma AddKeepsLinks(t: Tables, after: Tables, path: string, bytes: Bytes, actor: Id, ledger: map<Slot, Bytes>)
    requires LinksOk(t.ring, t.versions, ledger) && Adds(t, after, path, bytes, actor)
    ensures LinksOk(after.ring, after.versions,
                    ledger[Slot(after.secrets[path].id, after.secrets[path].current) := bytes])
  {
  }

  // ----- Changing rows in place -----

  lemma MutateKeepsLedger(t: Tables, secret: Id, numbers: set<int>, op: Operation, now: int)
    requires LedgerOk(t.secrets, t.versions)
    ensures LedgerOk(t.secrets, MutateRows(t.versions, secret, numbers, op, now))
  {
  }

  lemma MutateKeepsLinks(t: Tables, secret: Id, numbers: set<int>, op: Operation, now: int, ledger: map<Slot, Bytes>)
    requires LinksOk(t.ring, t.versions, ledger)
    ensures LinksOk(t.ring, MutateRows(t.versions, secret, numbers, op, now), ledger)
  {
    var after := MutateRows(t.versions, secret, numbers, op, now);
    forall slot <- after ensures LinkOk(t.ring, ledger, slot, after[slot]) {
      assert LinkOk(t.ring, ledger, slot, t.versions[slot]);
    }
  }

  lemma DropKeepsLedger(t: Tables, path: string)
    requires LedgerOk(t.secrets, t.versions) && DropSecret(t, path).Ok?
    ensures var after := DropSecret(t, path).value; LedgerOk(after.secrets, after.versions)
  {
    var after := DropSecret(t, path).value;
    forall slot <- after.versions ensures exists p :: Holds(after.secrets, p, slot) {
      var p :| Holds(t.secrets, p, slot);
      assert Holds(after.secrets, p, slot);
    }
    forall p, slot | Holds(after.secrets, p, slot) ensures slot in after.versions {
      assert Holds(t.secrets, p, slot);
    }
  }

  lemma FlagKeepsLedger(t: Tables, path: string, quarantined: bool)
    requires LedgerOk(t.secrets, t.versions) && path in t.secrets
    ensures LedgerOk(t.secrets[path := t.secrets[path].(quarantined := quarantined)], t.versions)
  {
    var after := t.secrets[path := t.secrets[path].(quarantined := quarantined)];
    assert forall p, slot :: Holds(after, p, slot) <==> Holds(t.secrets, p, slot);
  }

  // ----- Changing the ring -----

  ghost predicate RingStep(before: Ring, after: Ring) {
    after.master == before.master && KeysKept(before.keys, after.keys)
  }

  lemma UnwrapKept(before: Ring, after: Ring, slot: Slot, row: Version)
    requires RingStep(before, after) && Unwrap(before, slot, row).Ok?
    ensures Unwrap(after, slot, row) == Unwrap(before, slot, row)
  {
  }

  lemma RingStepKeepsLinks(before: Ring, after: Ring, versions: map<Slot, Version>, ledger: map<Slot, Bytes>)
    requires LinksOk(before, versions, ledger) && RingStep(before, after)
    ensures LinksOk(after, versions, ledger)
  {
    forall slot <- versions ensures LinkOk(after, ledger, slot, versions[slot]) {
      assert LinkOk(before, ledger, slot, versions[slot]);
      if !versions[slot].destroyed { UnwrapKept(before, after, slot, versions[slot]); }
    }
  }

  predicate RingOnly(step: Step) {
    step.AddUserStep? || step.EditUserStep? || step.RotateKeyStep? || step.EditKeyStep?
  }

  /** The ring such a step makes. */
  function RingAfter(ring: Ring, step: Step): Result<Ring>
    requires RingOnly(step)
  {
    match step
    case AddUserStep(user, role, key) => AddUser(ring, user, role, key)
    case EditUserStep(user, role, active) => EditUser(ring, user, role, active)
    case RotateKeyStep(keyId, actor, manageAll, key) => RotateUserKey(ring, keyId, actor, manageAll, key)
    case EditKeyStep(keyId, flags, actor, manageAll) => UpdateKeyPermissions(ring, keyId, flags, actor, manageAll)
  }

  lemma RingStepApplies(t: Tables, step: Step)
    requires RingOnly(step)
    ensures Apply(t, step) == WithRing(t, RingAfter(t.ring, step))
  {
  }

  lemma RingStepKeepsRing(ring: Ring, step: Step)
    requires RingOk(ring) && RingOnly(step) && RingAfter(ring, step).Ok?
    ensures RingOk(RingAfter(ring, step).value) && RingStep(ring, RingAfter(ring, step).value)
  {
    match step
    case AddUserStep(user, role, key) => AddUserKeepsRing(ring, user, role, key);
    case EditUserStep(user, role, active) => EditUserKeepsRing(ring, user, role, active);
    case RotateKeyStep(keyId, actor, manageAll, key) => RotationKeepsRing(ring, keyId, actor, manageAll, key);
    case EditKeyStep(keyId, flags, actor, manageAll) => PermissionsKeepRing(ring, keyId, flags, actor, manageAll);
  }

  lemma RingStepOfApply(t: Tables, step: Step)
    requires RingOk(t.ring) && RingOnly(step) && Apply(t, step).Ok?
    ensures var after := Apply(t, step).value;
            RingOk(after.ring) && RingStep(t.ring, after.ring) && after == t.(ring := after.ring)
  {
    RingStepApplies(t, step);
    RingStepKeepsRing(t.ring, step);
  }

  // ----- Approvals -----

  /** The user is active and has the capability on the resource. */
  predicate Holding(t: Tables, user: Id, resource: string, capability: string) {
    && user in t.ring.users && t.ring.users[user].active
    && Allows(t.ring.users[user].role, if user in t.policies then t.policies[user] else [], resource, capability)
  }

  /** The requester holds what the action needs on the resource as it is stored. */
  predicate RequesterMay(t: Tables, a: Approval) {
    if a.action == "secret.delete" then Holding(t, a.requester, a.resource, "delete")
    else if a.resource in t.secrets && !t.secrets[a.resource].quarantined
    then Holding(t, a.requester, a.resource, "update")
    else Holding(t, a.requester, a.resource, "create")
  }

  /** An approval resolved by another user, and what its execution did to the secrets. */
  ghost predicate Resolves(t: Tables, after: Tables, id: Id, approver: Id, decision: string) {
    && id in t.approvals
    && var a := t.approvals[id];
    && a.status == Pending && a.requester != approver
    && decision in {"approved", "rejected"}
    && after.approvals == t.approvals[id := a.(status := if decision == "approved" then Approved else Rejected,
                                               approver := Some(approver))]
    && after.ring == t.ring && after.policies == t.policies && after.applications == t.applications
    && (decision == "rejected" ==> after.secrets == t.secrets && after.versions == t.versions)
    && (decision == "approved" ==> RequesterMay(t, a) && Executes(t, after.(approvals := t.approvals), a))
  }

  /** The action of a request took effect, on behalf of the requester. */
  ghost predicate Executes(t: Tables, after: Tables, a: Approval) {
    if a.action == PUT_ACTION then
      && a.payload.Sealed?
      && Adds(t, after, a.payload.plaintext.path, a.payload.plaintext.data.json, a.requester)
    else
      a.action == DELETE_ACTION && Quarantine(t, a.resource) == Ok(after)
  }

  lemma ResolveResolves(t: Tables, id: Id, approver: Id, decision: string, draw: Draw)
    requires ResolveApproval(t, id, approver, decision, draw).Ok?
    ensures Resolves(t, ResolveApproval(t, id, approver, decision, draw).value, id, approver, decision)
  {
    var a := t.approvals[id];
    var after := ResolveApproval(t, id, approver, decision, draw).value;
    if decision == "approved" {
      var done := Execute(t, id, a, draw).value;
      if a.action == PUT_ACTION {
        var write := Open(a.payload, t.ring.master, a.nonce, Aad(ApprovalContext(id))).value;
        PutTxAdds(t, write, a.requester, draw);
      }
      assert after.(approvals := t.approvals) == done;
    }
  }

  // ----- Every step keeps the invariant -----

  lemma AddingStepKeepsInv(w: World, after: Tables, path: string, bytes: Bytes, actor: Id)
    requires Inv(w) && Adds(w.t, after, path, bytes, actor)
    ensures Inv(World(after, w.ledger[Slot(after.secrets[path].id, after.secrets[path].current) := bytes]))
  {
    AddKeepsLedger(w.t, after, path, bytes, actor);
    AddKeepsLinks(w.t, after, path, bytes, actor, w.ledger);
  }

  lemma ResolveKeepsInv(w: World, id: Id, approver: Id, decision: string, draw: Draw)
    requires Inv(w)
    ensures Inv(Next(w, ResolveStep(id, approver, decision, draw)))
  {
    var r := ResolveApproval(w.t, id, approver, decision, draw);
    if r.Ok? {
      ResolveResolves(w.t, id, approver, decision, draw);
      var a := w.t.approvals[id];
      var next := Next(w, ResolveStep(id, approver, decision, draw));
      if decision == "approved" { ExecutionKeepsInv(w, r.value.(approvals := w.t.approvals), a); }
      assert next.t == r.value;
      assert ApprovalOk(w.t.ring, id, a);
    }
  }

  lemma ExecutionKeepsInv(w: World, after: Tables, a: Approval)
    requires Inv(w) && Executes(w.t, after, a)
    ensures a.action == PUT_ACTION ==>
      var write := a.payload.plaintext;
      Inv(World(after, w.ledger[Slot(after.secrets[write.path].id, after.secrets[write.path].current)
                                := write.data.json]))
    ensures a.action != PUT_ACTION ==> Inv(World(after, w.ledger))
  {
    if a.action == PUT_ACTION {
      AddingStepKeepsInv(w, after, a.payload.plaintext.path, a.payload.plaintext.data.json, a.requester);
    } else {
      FlagKeepsLedger(w.t, a.resource, true);
    }
  }

  lemma PutKeepsInv(w: World, write: SecretWrite, actor: Id, draw: Draw)
    requires Inv(w)
    ensures Inv(Next(w, PutStep(write, actor, draw)))
  {
    var r := PutSecret(w.t, write, actor, draw);
    if r.Ok? {
      PutTxAdds(w.t, write.(path := NormalizePath(write.path)), actor, draw);
      AddingStepKeepsInv(w, r.value, NormalizePath(write.path), write.data.json, actor);
    }
  }

  lemma PutOpenBaoKeepsInv(w: World, path: string, data: Data, actor: Id, cas: Option<int>, draw: Draw)
    requires Inv(w)
    ensures Inv(Next(w, PutOpenBaoStep(path, data, actor, cas, draw)))
  {
    var r := PutOpenBao(w.t, path, data, actor, cas, draw);
    if r.Ok? {
      PutOpenBaoAdds(w.t, NormalizePath(path), data, actor, cas, draw);
      AddingStepKeepsInv(w, r.value, NormalizePath(path), data.json, actor);
    }
  }

  lemma MutateRowsKeepsInv(w: World, secret: Id, numbers: set<int>, op: Operation, now: int)
    requires Inv(w)
    ensures Inv(w.(t := w.t.(versions := MutateRows(w.t.versions, secret, numbers, op, now))))
  {
    MutateKeepsLedger(w.t, secret, numbers, op, now);
    MutateKeepsLinks(w.t, secret, numbers, op, now, w.ledger);
  }

  lemma DropKeepsInv(w: World, path: string)
    requires Inv(w)
    ensures Inv(Next(w, DropStep(path)))
  {
    if DropSecret(w.t, path).Ok? { DropKeepsLedger(w.t, path); }
  }

  lemma QuarantineKeepsInv(w: World, path: string)
    requires Inv(w)
    ensures Inv(Next(w, QuarantineStep(path)))
  {
    if Quarantine(w.t, TrimSlashes(path)).Ok? { FlagKeepsLedger(w.t, TrimSlashes(path), true); }
  }

  lemma RingStepKeepsInv(w: World, step: Step)
    requires Inv(w) && RingOnly(step)
    ensures Inv(Next(w, step))
  {
    if Apply(w.t, step).Ok? {
      RingStepOfApply(w.t, step);
      RingStepKeepsLinks(w.t.ring, Apply(w.t, step).value.ring, w.t.versions, w.ledger);
    }
  }

  lemma RequestKeepsInv(w: World, id: Id, action: string, resource: string, requester: Id,
                        payload: SecretWrite, nonce: Nonce)
    requires Inv(w)
    ensures Inv(Next(w, RequestStep(id, action, resource, requester, payload, nonce)))
  {
  }

  lemma StepKeepsInv(w: World, step: Step)
    requires Inv(w)
    ensures Inv(Next(w, step))
  {
    match step {
      case PutStep(write, actor, draw) => PutKeepsInv(w, write, actor, draw);
      case PutOpenBaoStep(path, data, actor, cas, draw) => PutOpenBaoKeepsInv(w, path, data, actor, cas, draw);
      case QuarantineStep(path) => QuarantineKeepsInv(w, path);
      case SoftDeleteLatestStep(path, now) =>
        if SoftDeleteLatest(w.t, path, now).Ok? {
          var s := w.t.secrets[NormalizePath(path)];
          MutateRowsKeepsInv(w, s.id, {s.current}, SoftDelete, now);
        }
      case MutateStep(path, named, op, now) =>
        if MutateVersions(w.t, path, named, op, now).Ok? {
          MutateRowsKeepsInv(w, w.t.secrets[NormalizePath(path)].id, PositiveVersions(named), op, now);
        }
      case DropStep(path) => DropKeepsInv(w, path);
      case RequestStep(id, action, resource, requester, payload, nonce) =>
        RequestKeepsInv(w, id, action, resource, requester, payload, nonce);
      case ResolveStep(id, approver, decision, draw) => ResolveKeepsInv(w, id, approver, decision, draw);
      case AttachPoliciesStep(_, _) =>
      case AddApplicationStep(_) =>
      case DropApplicationStep(_) =>
      case Aborted =>
      case _ => RingStepKeepsInv(w, step);
    }
  }

  /** Every state of every run from an empty database satisfies the invariant. */
  lemma {:induction false} RunKeepsInv(w: World, steps: seq<Step>)
    requires Inv(w)
    ensures Inv(Run(w, steps))
  {
    if steps != [] {
      RunKeepsInv(w, steps[..|steps| - 1]);
      StepKeepsInv(Run(w, steps[..|steps| - 1]), steps[|steps| - 1]);
    }
  }

  lemma StartInv(master: Key)
    ensures Inv(Start(master))
  {
  }
}
