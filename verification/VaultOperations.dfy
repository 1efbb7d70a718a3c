/** What each operation of the vault answers and stores, said about the columns of the tables. */
module VaultOperations {
  import opened Wrappers
  import opened Text
  import opened Aead
  import opened Access
  import opened Keyring
  import opened Vault
  import opened VaultInvariant
  import opened VaultTheorems

  // ----- Reading -----

  /** A secret that is absent or in quarantine is not found, whatever version is asked for. */
  lemma HiddenSecretNotFound(t: Tables, path: string, version: int)
    requires path !in t.secrets || t.secrets[path].quarantined
    ensures ReadSecret(t, path, version) == Err(NotFound)
  {
  }

  /** In reachable states a read answers the recorded bytes of the version asked for, the
      current one for 0, exactly when the secret is not in quarantine, has that version, and
      the version is neither destroyed nor deleted; otherwise it finds nothing. */
  lemma ReadIsExact(master: Key, steps: seq<Step>, path: string, version: int)
    ensures var w := Run(Start(master), steps);
            if path !in w.t.secrets || w.t.secrets[path].quarantined then
              ReadSecret(w.t, path, version) == Err(NotFound)
            else
              var s := w.t.secrets[path];
              var number := if version == 0 then s.current else version;
              if number < 1 || number > s.current then ReadSecret(w.t, path, version) == Err(NotFound)
              else
                var slot := Slot(s.id, number);
                slot in w.t.versions &&
                if w.t.versions[slot].destroyed || w.t.versions[slot].deletedAt.Some?
                then ReadSecret(w.t, path, version) == Err(NotFound)
                else slot in w.ledger && ReadSecret(w.t, path, version) == Ok(w.ledger[slot])
  {
    StartInv(master);
    RunKeepsInv(Start(master), steps);
    ReadIsExactIn(Run(Start(master), steps), path, version);
  }

  lemma ReadIsExactIn(w: World, path: string, version: int)
    requires Inv(w)
    ensures if path !in w.t.secrets || w.t.secrets[path].quarantined then
              ReadSecret(w.t, path, version) == Err(NotFound)
            else
              var s := w.t.secrets[path];
              var number := if version == 0 then s.current else version;
              if number < 1 || number > s.current then ReadSecret(w.t, path, version) == Err(NotFound)
              else
                var slot := Slot(s.id, number);
                slot in w.t.versions &&
                if w.t.versions[slot].destroyed || w.t.versions[slot].deletedAt.Some?
                then ReadSecret(w.t, path, version) == Err(NotFound)
                else slot in w.ledger && ReadSecret(w.t, path, version) == Ok(w.ledger[slot])
  {
    if path in w.t.secrets && !w.t.secrets[path].quarantined {
      var s := w.t.secrets[path];
      var number := if version == 0 then s.current else version;
      if 1 <= number <= s.current {
        var slot := Slot(s.id, number);
        assert Holds(w.t.secrets, path, slot);
        assert LinkOk(w.t.ring, w.ledger, slot, w.t.versions[slot]);
      } else if number >= 0 {
        NoSuchNumber(w, path, number);
      }
    }
  }

  lemma NoSuchNumber(w: World, path: string, number: nat)
    requires Inv(w) && path in w.t.secrets && !(1 <= number <= w.t.secrets[path].current)
    ensures Slot(w.t.secrets[path].id, number) !in w.t.versions
  {
    var slot := Slot(w.t.secrets[path].id, number);
    forall p ensures !Holds(w.t.secrets, p, slot) {
      if p in w.t.secrets && w.t.secrets[p].id == slot.secret { assert p == path; }
    }
  }

  // ----- What a write stores -----

  /** The row a write makes current. */
  predicate Stored(t: Tables, after: Tables, path: string, metadata: Bytes, actor: Id) {
    && path in after.secrets
    && var s := after.secrets[path];
    && s.createdBy == (if path in t.secrets then t.secrets[path].createdBy else actor)
    && Slot(s.id, s.current) in after.versions
    && after.versions[Slot(s.id, s.current)].metadata == metadata
    && after.versions[Slot(s.id, s.current)].createdBy == actor
  }

  lemma InsertStores(t: Tables, path: string, data: Data, metadata: Bytes, actor: Id, nonce: Nonce)
    requires path in t.secrets && InsertVersion(t, path, data, metadata, actor, nonce).Ok?
    ensures Stored(t, InsertVersion(t, path, data, metadata, actor, nonce).value, path, metadata, actor)
  {
  }

  lemma UpsertStores(t: Tables, path: string, actor: Id, draw: Draw)
    requires UpsertSecret(t, path, actor, draw).Ok?
    ensures var after := UpsertSecret(t, path, actor, draw).value;
            path in after.secrets && after.versions == t.versions &&
            after.secrets[path].createdBy == if path in t.secrets then t.secrets[path].createdBy else actor
  {
  }

  /** putSecretTx stores the metadata of the request. */
  lemma PutStoresMetadata(t: Tables, write: SecretWrite, actor: Id, draw: Draw)
    requires PutTx(t, write, actor, draw).Ok?
    ensures Stored(t, PutTx(t, write, actor, draw).value, write.path, write.metadata, actor)
  {
    var staged := UpsertSecret(t, write.path, actor, draw).value;
    UpsertStores(t, write.path, actor, draw);
    InsertStores(staged, write.path, write.data, write.metadata, actor, draw.nonce);
  }

  /** What the metadata of a KV v2 write is: that of the version before, or {}. */
  lemma CarriedExactly(t: Tables, path: string)
    ensures path !in t.secrets ==> CarriedMetadata(t, path) == Ok([123, 125])
    ensures path in t.secrets && t.secrets[path].current >= 1 &&
            Slot(t.secrets[path].id, t.secrets[path].current) in t.versions ==>
      CarriedMetadata(t, path) == Ok(t.versions[Slot(t.secrets[path].id, t.secrets[path].current)].metadata)
  {
  }

  lemma KvStores(t: Tables, path: string, data: Data, actor: Id, cas: Option<int>, draw: Draw)
    requires PutOpenBaoOnce(t, path, data, actor, cas, draw).Ok? && CarriedMetadata(t, path).Ok?
    ensures var after := PutOpenBaoOnce(t, path, data, actor, cas, draw).value;
            Stored(t, after, path, CarriedMetadata(t, path).value, actor)
  {
    var staged := UpsertSecret(t, path, actor, draw).value;
    UpsertStores(t, path, actor, draw);
    InsertStores(staged, path, data, CarriedMetadata(t, path).value, actor, draw.nonce);
  }

  /** A committed KV v2 write carries the metadata of the version before over to the next,
      and starts a new secret with the empty object, the bytes "{}". */
  lemma KvWriteCarriesMetadata(w: World, path: string, data: Data, actor: Id, cas: Option<int>, draw: Draw)
    requires Inv(w) && PutOpenBaoOnce(w.t, path, data, actor, cas, draw).Ok?
    ensures var after := PutOpenBaoOnce(w.t, path, data, actor, cas, draw).value;
            path in after.secrets &&
            var s := after.secrets[path];
            Slot(s.id, s.current) in after.versions &&
            var row := after.versions[Slot(s.id, s.current)];
            row.createdBy == actor &&
            if path in w.t.secrets
            then s.id == w.t.secrets[path].id && s.createdBy == w.t.secrets[path].createdBy
                 && s.current == w.t.secrets[path].current + 1
                 && Slot(s.id, s.current - 1) in w.t.versions
                 && row.metadata == w.t.versions[Slot(s.id, s.current - 1)].metadata
            else s.createdBy == actor && s.current == 1 && row.metadata == [123, 125]
  {
    CarriedMetadataFound(w, path);
    CarriedExactly(w.t, path);
    KvStores(w.t, path, data, actor, cas, draw);
    PutOpenBaoAdds(w.t, path, data, actor, cas, draw);
    if path in w.t.secrets {
      assert Holds(w.t.secrets, path, Slot(w.t.secrets[path].id, w.t.secrets[path].current));
    }
  }

  /** A committed put stores its own metadata, and an approved one that of its payload. */
  lemma PutWriteStoresMetadata(t: Tables, write: SecretWrite, actor: Id, draw: Draw)
    requires PutSecret(t, write, actor, draw).Ok?
    ensures var after := PutSecret(t, write, actor, draw).value;
            var path := NormalizePath(write.path);
            path in after.secrets &&
            var s := after.secrets[path];
            Slot(s.id, s.current) in after.versions &&
            after.versions[Slot(s.id, s.current)].metadata == write.metadata &&
            after.versions[Slot(s.id, s.current)].createdBy == actor
  {
    PutStoresMetadata(t, write.(path := NormalizePath(write.path)), actor, draw);
  }

  lemma ApprovedPutStoresMetadata(t: Tables, id: Id, approver: Id, draw: Draw)
    requires ResolveApproval(t, id, approver, "approved", draw).Ok? && t.approvals[id].action == "secret.put"
    ensures t.approvals[id].payload.Sealed?
    ensures var write := t.approvals[id].payload.plaintext;
            var after := ResolveApproval(t, id, approver, "approved", draw).value;
            write.path in after.secrets &&
            var s := after.secrets[write.path];
            Slot(s.id, s.current) in after.versions &&
            after.versions[Slot(s.id, s.current)].metadata == write.metadata &&
            after.versions[Slot(s.id, s.current)].createdBy == t.approvals[id].requester
  {
    var a := t.approvals[id];
    PutStoresMetadata(t, a.payload.plaintext, a.requester, draw);
  }

  // ----- When a write goes through -----

  /** A put succeeds exactly when its trimmed path is valid, its data has a field, its texts
      can be stored, its application and owner exist, the actor's newest key may encrypt, and
      a new secret's random identifier is free. */
  lemma PutSucceedsExactly(w: World, write: SecretWrite, actor: Id, draw: Draw)
    requires Inv(w)
    ensures var path := NormalizePath(write.path);
            PutSecret(w.t, write, actor, draw).Ok? <==>
              && ValidPath(path) && write.data.fields != 0 && write.storable
              && (write.application.Some? ==> write.application.value in w.t.applications)
              && (write.owner.Some? ==> write.owner.value in w.t.ring.users)
              && MayWrite(w.t.ring, actor)
              && (path in w.t.secrets || forall other <- w.t.secrets :: w.t.secrets[other].id != draw.secretId)
    ensures !ValidPath(NormalizePath(write.path)) || write.data.fields == 0 ==>
      PutSecret(w.t, write, actor, draw) == Err(Invalid)
  {
    var path := NormalizePath(write.path);
    var staged := UpsertSecret(w.t, path, actor, draw);
    if staged.Ok? {
      UpsertStages(w.t, path, actor, draw);
      InsertSucceeds(w, staged.value, path, write.data, write.metadata, actor, draw.nonce);
    }
  }

  /** A KV v2 write with an invalid path or without data is refused as invalid. */
  lemma KvRefusesInvalid(t: Tables, path: string, data: Data, actor: Id, cas: Option<int>, draw: Draw)
    requires !ValidPath(NormalizePath(path)) || data.isNil
    ensures PutOpenBao(t, path, data, actor, cas, draw) == Err(Invalid)
  {
  }

  /** A CAS write that meets a unique violation or a serialization failure answers that the
      check failed; without a CAS value it keeps the error, and so do all other errors. */
  lemma LostRaceAnswers(cas: Option<int>, error: Error)
    ensures cas.Some? && (error == Conflict || error == Serialization) ==> CasError(cas, error) == CheckAndSet
    ensures cas.None? || (error != Conflict && error != Serialization) ==> CasError(cas, error) == error
  {
  }

  /** An actor whose newest key may not encrypt, or who does not exist, writes nothing. */
  lemma WriteNeedsKey(w: World, staged: Tables, path: string, data: Data, metadata: Bytes, actor: Id, nonce: Nonce)
    requires Inv(w) && Stages(w.t, staged, path)
    requires actor !in w.t.ring.users || forall id <- w.t.ring.keys ::
      w.t.ring.keys[id].userId == actor && w.t.ring.keys[id].version == w.t.ring.users[actor].keyVersion ==>
        !w.t.ring.keys[id].permissions.encrypt
    ensures InsertVersion(staged, path, data, metadata, actor, nonce) == Err(NotFound)
  {
  }

  /** A CAS write that creates a secret under a taken identifier answers the same. */
  lemma TakenIdentifierFailsCheck(t: Tables, path: string, data: Data, actor: Id, draw: Draw)
    requires path !in t.secrets && exists other <- t.secrets :: t.secrets[other].id == draw.secretId
    ensures PutOpenBaoOnce(t, path, data, actor, Some(0), draw) == Err(CheckAndSet)
    ensures PutOpenBaoOnce(t, path, data, actor, None, draw) == Err(Conflict)
  {
  }

  /** A path with slashes and spaces around it is stored under its inner text. */
  lemma StoredUnderInnerText(spaces: string, slashes: string, inner: string, slashes': string, spaces': string)
    requires IsBlank(spaces) && IsBlank(spaces')
    requires forall i :: 0 <= i < |slashes| ==> slashes[i] == '/'
    requires forall i :: 0 <= i < |slashes'| ==> slashes'[i] == '/'
    requires ValidPath(inner)
    ensures NormalizePath(spaces + (slashes + inner + slashes') + spaces') == inner
  {
    var middle := slashes + inner + slashes';
    assert PathChar(inner[0]) && PathChar(inner[|inner| - 1]);
    assert middle[0] == (if slashes == "" then inner[0] else slashes[0]);
    assert middle[|middle| - 1] == if slashes' == "" then inner[|inner| - 1] else slashes'[|slashes'| - 1];
    TrimSpaceExact(spaces, middle, spaces');
    TrimSlashesExact(slashes, inner, slashes');
  }

  // ----- Applications -----

  /** Adding one adds it, and attaching policies to a user replaces those attached before. */
  lemma AddsAndAttaches(t: Tables, application: Id, user: Id, policies: seq<Policy>)
    ensures Apply(t, AddApplicationStep(application)) == Ok(t.(applications := {application} + t.applications))
    ensures var r := Apply(t, AttachPoliciesStep(user, policies));
            && r.Ok? && r.value == t.(policies := r.value.policies)
            && user in r.value.policies && r.value.policies[user] == policies
            && r.value.policies.Keys == t.policies.Keys + {user}
            && forall other <- t.policies :: other != user ==> r.value.policies[other] == t.policies[other]
  {
    assert {application} + t.applications == t.applications + {application};
  }

  /** Deleting an application finds nothing or removes exactly that one. */
  lemma DropApplicationExactly(t: Tables, application: Id)
    ensures var r := Apply(t, DropApplicationStep(application));
            if application !in t.applications then r == Err(NotFound)
            else r.Ok? && r.value == t.(applications := r.value.applications)
                 && forall other :: other in r.value.applications <==> other in t.applications && other != application
  {
  }

  // ----- Deleting -----

  /** Quarantine hides exactly the stored secret it names and keeps all its versions; it
      finds nothing when the secret is absent or hidden already. */
  lemma QuarantineExactly(t: Tables, path: string, version: int)
    ensures path in t.secrets && !t.secrets[path].quarantined ==>
      var r := Quarantine(t, path);
      && r.Ok? && r.value.versions == t.versions && r.value.ring == t.ring && r.value.approvals == t.approvals
      && r.value.secrets
         == t.secrets[path := Secret(t.secrets[path].id, t.secrets[path].current, t.secrets[path].createdBy, true)]
      && ReadSecret(r.value, path, version) == Err(NotFound)
    ensures path !in t.secrets || t.secrets[path].quarantined ==> Quarantine(t, path) == Err(NotFound)
  {
  }

  /** Soft delete, undelete and destroy are refused as invalid for an invalid path or an
      empty list, find nothing when the secret is absent or in quarantine, and succeed otherwise. */
  lemma MutationSucceedsExactly(t: Tables, rawPath: string, named: seq<int>, op: Operation, now: int)
    ensures var path := NormalizePath(rawPath);
            var r := MutateVersions(t, rawPath, named, op, now);
            if !ValidPath(path) || |named| == 0 then r == Err(Invalid)
            else if path !in t.secrets || t.secrets[path].quarantined then r == Err(NotFound)
            else r.Ok?
  {
  }

  /** A secret can be dropped whether or not it is in quarantine. */
  lemma DropSucceedsExactly(t: Tables, rawPath: string)
    ensures var path := NormalizePath(rawPath);
            var r := DropSecret(t, rawPath);
            if !ValidPath(path) then r == Err(Invalid)
            else if path !in t.secrets then r == Err(NotFound)
            else r.Ok?
  {
  }

  // ----- Approvals -----

  /** A request is filed pending, without an approver, and with a payload that opens to the
      write; it needs a free identifier and an existing requester. */
  lemma RequestFiles(t: Tables, id: Id, action: string, resource: string, requester: Id, payload: SecretWrite,
                     nonce: Nonce)
    ensures var r := RequestApproval(t, id, action, resource, requester, payload, nonce);
            && (r.Ok? <==> id !in t.approvals && requester in t.ring.users)
            && (r.Ok? ==>
                 && r.value == t.(approvals := r.value.approvals)
                 && r.value.approvals.Keys == t.approvals.Keys + {id}
                 && (forall other <- t.approvals :: r.value.approvals[other] == t.approvals[other])
                 && var a := r.value.approvals[id];
                 && a.action == action && a.resource == resource && a.requester == requester
                 && a.status == Pending && a.approver == None
                 && Open(a.payload, t.ring.master, a.nonce, Aad(ApprovalContext(id))) == Ok(payload))
  {
  }

  /** A committed approval of a put means that its requester is active and holds "update"
      on the resource if that is stored and not in quarantine, and "create" otherwise; a
      committed approval of a delete that it holds "delete". */
  lemma ApprovalNeedsCapability(t: Tables, id: Id, approver: Id, draw: Draw)
    requires ResolveApproval(t, id, approver, "approved", draw).Ok?
    ensures var a := t.approvals[id];
            && (a.action == "secret.put" || a.action == "secret.delete")
            && (a.action == "secret.put" && a.resource in t.secrets && !t.secrets[a.resource].quarantined ==>
                 Holding(t, a.requester, a.resource, "update"))
            && (a.action == "secret.put" && (a.resource !in t.secrets || t.secrets[a.resource].quarantined) ==>
                 Holding(t, a.requester, a.resource, "create"))
            && (a.action == "secret.delete" ==> Holding(t, a.requester, a.resource, "delete"))
  {
  }

  /** An approved delete succeeds exactly when the request is pending, the approver is another
      account, the requester is active and holds "delete", and the resource is stored and not
      in quarantine. */
  lemma ApprovedDeleteSucceedsExactly(t: Tables, id: Id, approver: Id, draw: Draw)
    requires id in t.approvals && t.approvals[id].action == "secret.delete"
    ensures var a := t.approvals[id];
            ResolveApproval(t, id, approver, "approved", draw).Ok? <==>
              && a.status == Pending && a.requester != approver && approver in t.ring.users
              && Holding(t, a.requester, a.resource, "delete")
              && a.resource in t.secrets && !t.secrets[a.resource].quarantined
  {
  }

  /** A rejection needs a pending request and another account, and changes only the request. */
  lemma RejectionExactly(t: Tables, id: Id, approver: Id, draw: Draw)
    ensures var r := ResolveApproval(t, id, approver, "rejected", draw);
            && (r.Ok? <==> id in t.approvals && t.approvals[id].status == Pending
                           && t.approvals[id].requester != approver && approver in t.ring.users)
            && (r.Ok? ==>
                 var row := t.approvals[id].(status := Rejected, approver := Some(approver));
                 r.value == t.(approvals := t.approvals[id := row]))
  {
  }

  /** How a decision is refused before it is looked into. */
  lemma DecisionRefusals(t: Tables, id: Id, approver: Id, decision: string, draw: Draw)
    ensures var r := ResolveApproval(t, id, approver, decision, draw);
            if decision != "approved" && decision != "rejected" then r == Err(Invalid)
            else if id !in t.approvals then r == Err(NotFound)
            else if t.approvals[id].status != Pending then r == Err(Conflict)
            else if t.approvals[id].requester == approver then r == Err(RequesterMatch)
            else true
  {
  }

  /** How an approval is refused on account of its requester or its action. */
  lemma ApprovalRefusals(t: Tables, id: Id, approver: Id, draw: Draw)
    requires id in t.approvals && t.approvals[id].status == Pending && t.approvals[id].requester != approver
    ensures var a := t.approvals[id];
            var r := ResolveApproval(t, id, approver, "approved", draw);
            if a.requester !in t.ring.users || !t.ring.users[a.requester].active then r == Err(Forbidden)
            else if a.action != "secret.put" && a.action != "secret.delete" then r == Err(Invalid)
            else
              var capability := if a.action == "secret.delete" then "delete"
                else if a.resource in t.secrets && !t.secrets[a.resource].quarantined then "update" else "create";
              !Holding(t, a.requester, a.resource, capability) ==> r == Err(Forbidden)
  {
  }
}
