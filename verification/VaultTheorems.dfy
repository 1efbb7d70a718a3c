/** Properties of whole runs of the vault. */
module VaultTheorems {
  import opened Wrappers
  import opened Text
  import opened Aead
  import opened Access
  import opened Keyring
  import opened Vault
  import opened VaultInvariant

  /** The state after the first i steps. */
  ghost function At(w: World, steps: seq<Step>, i: nat): World
    requires i <= |steps|
  {
    Run(w, steps[..i])
  }

  lemma AtNext(w: World, steps: seq<Step>, i: nat)
    requires i < |steps|
    ensures At(w, steps, i + 1) == Next(At(w, steps, i), steps[i])
  {
    assert steps[..i + 1][..i] == steps[..i];
  }

  predicate Drops(step: Step, path: string) { step.DropStep? && NormalizePath(step.path) == path }

  ghost predicate Commits(w: World, steps: seq<Step>, i: nat)
    requires i < |steps|
  {
    Apply(At(w, steps, i).t, steps[i]).Ok?
  }

  // ----- No secret is lost -----

  /** How a stored version may change: only its deletion time, until it is destroyed. */
  predicate RowEvolves(before: Version, after: Version) {
    && after.keyId == before.keyId && after.keyVersion == before.keyVersion
    && after.createdBy == before.createdBy && after.metadata == before.metadata
    && (before.destroyed ==> after == before)
    && (!after.destroyed ==> after.ciphertext == before.ciphertext && after.nonce == before.nonce)
  }

  /** The secret at path and its versions survived, with what they were written with. */
  ghost predicate Remembers(before: World, after: World, path: string) {
    && path in before.t.secrets && path in after.t.secrets
    && after.t.secrets[path].id == before.t.secrets[path].id
    && after.t.secrets[path].current >= before.t.secrets[path].current
    && forall slot :: Holds(before.t.secrets, path, slot) ==>
         && slot in before.t.versions && slot in after.t.versions
         && RowEvolves(before.t.versions[slot], after.t.versions[slot])
         && (slot in before.ledger ==> slot in after.ledger && after.ledger[slot] == before.ledger[slot])
  }

  /** The slot a put adds is none of those any secret held before. */
  lemma AddedIsNew(w: World, after: Tables, added: string, bytes: Bytes, actor: Id, path: string, slot: Slot)
    requires Inv(w) && Adds(w.t, after, added, bytes, actor) && Holds(w.t.secrets, path, slot)
    ensures slot in w.t.versions && slot != Slot(after.secrets[added].id, after.secrets[added].current)
    ensures slot in after.versions && after.versions[slot] == w.t.versions[slot]
  {
  }

  lemma AddKeepsSecret(w: World, after: Tables, added: string, bytes: Bytes, actor: Id, path: string)
    requires Inv(w) && Adds(w.t, after, added, bytes, actor) && path in w.t.secrets
    ensures path in after.secrets && after.secrets[path].id == w.t.secrets[path].id
    ensures after.secrets[path].current >= w.t.secrets[path].current
  {
  }

  lemma AddRemembers(w: World, after: Tables, added: string, bytes: Bytes, actor: Id, path: string)
    requires Inv(w) && Adds(w.t, after, added, bytes, actor) && path in w.t.secrets
    ensures var slot := Slot(after.secrets[added].id, after.secrets[added].current);
            Remembers(w, World(after, w.ledger[slot := bytes]), path)
  {
    AddKeepsSecret(w, after, added, bytes, actor, path);
    forall slot | Holds(w.t.secrets, path, slot)
      ensures slot in w.t.versions && slot != Slot(after.secrets[added].id, after.secrets[added].current)
      ensures slot in after.versions && after.versions[slot] == w.t.versions[slot]
    {
      AddedIsNew(w, after, added, bytes, actor, path, slot);
    }
  }

  /** A step that leaves versions and ledger alone and at most flags secrets. */
  lemma FlagRemembers(before: World, after: World, path: string)
    requires Inv(before) && path in before.t.secrets && path in after.t.secrets
    requires after.t.versions == before.t.versions && after.ledger == before.ledger
    requires after.t.secrets[path].(quarantined := false) == before.t.secrets[path].(quarantined := false)
    ensures Remembers(before, after, path)
  {
  }

  lemma MutatedRowEvolves(op: Operation, row: Version, now: int)
    ensures RowEvolves(row, MutateRow(op, row, now))
  {
  }

  lemma MutateRemembers(w: World, secret: Id, numbers: set<int>, op: Operation, now: int, path: string)
    requires Inv(w) && path in w.t.secrets
    ensures Remembers(w, w.(t := w.t.(versions := MutateRows(w.t.versions, secret, numbers, op, now))), path)
  {
    var after := MutateRows(w.t.versions, secret, numbers, op, now);
    forall slot | Holds(w.t.secrets, path, slot)
      ensures slot in w.t.versions && slot in after && RowEvolves(w.t.versions[slot], after[slot])
    {
      MutatedRowEvolves(op, w.t.versions[slot], now);
    }
  }

  lemma DropRemembers(w: World, dropped: string, path: string)
    requires Inv(w) && path in w.t.secrets && NormalizePath(dropped) != path && DropSecret(w.t, dropped).Ok?
    ensures Remembers(w, w.(t := DropSecret(w.t, dropped).value), path)
  {
  }

  /** Remembering speaks about secrets, versions and the ledger only. */
  lemma RemembersAnyApprovals(before: World, after: World, approvals: map<Id, Approval>, path: string)
    requires Remembers(before, after, path)
    ensures Remembers(before, after.(t := after.t.(approvals := approvals)), path)
  {
  }

  lemma ResolvedPutRemembers(w: World, after: Tables, id: Id, approver: Id, path: string)
    requires Inv(w) && path in w.t.secrets && Resolves(w.t, after, id, approver, "approved")
    requires w.t.approvals[id].action == PUT_ACTION
    ensures var write := w.t.approvals[id].payload.plaintext;
            Remembers(w, World(after, w.ledger[Slot(after.secrets[write.path].id, after.secrets[write.path].current)
                                               := write.data.json]), path)
  {
    var a := w.t.approvals[id];
    var write := a.payload.plaintext;
    var quiet := after.(approvals := w.t.approvals);
    AddRemembers(w, quiet, write.path, write.data.json, a.requester, path);
    var slot := Slot(after.secrets[write.path].id, after.secrets[write.path].current);
    RemembersAnyApprovals(w, World(quiet, w.ledger[slot := write.data.json]), after.approvals, path);
  }

  lemma ResolvedOtherRemembers(w: World, after: World, id: Id, approver: Id, decision: string, path: string)
    requires Inv(w) && path in w.t.secrets && Resolves(w.t, after.t, id, approver, decision)
    requires !(decision == "approved" && w.t.approvals[id].action == PUT_ACTION) && after.ledger == w.ledger
    ensures Remembers(w, after, path)
  {
    FlagRemembers(w, after, path);
  }

  lemma ResolveRemembers(w: World, id: Id, approver: Id, decision: string, draw: Draw, path: string)
    requires Inv(w) && path in w.t.secrets
    ensures Remembers(w, Next(w, ResolveStep(id, approver, decision, draw)), path)
  {
    var after := Next(w, ResolveStep(id, approver, decision, draw));
    if ResolveApproval(w.t, id, approver, decision, draw).Ok? {
      ResolveResolves(w.t, id, approver, decision, draw);
      if decision == "approved" && w.t.approvals[id].action == PUT_ACTION {
        ResolvedPutRemembers(w, after.t, id, approver, path);
      } else {
        ResolvedOtherRemembers(w, after, id, approver, decision, path);
      }
    } else {
      FlagRemembers(w, w, path);
    }
  }

  /** What the two kinds of put have in common. */
  lemma PutStepAdds(w: World, step: Step)
    requires (step.PutStep? || step.PutOpenBaoStep?) && Apply(w.t, step).Ok?
    ensures WriteOf(w.t, step).Some?
    ensures var (path, bytes) := WriteOf(w.t, step).value;
            var after := Apply(w.t, step).value;
            Adds(w.t, after, path, bytes, step.actor) &&
            Next(w, step) == World(after, w.ledger[Slot(after.secrets[path].id, after.secrets[path].current) := bytes])
  {
    match step
    case PutStep(write, actor, draw) =>
      PutTxAdds(w.t, write.(path := NormalizePath(write.path)), actor, draw);
    case PutOpenBaoStep(path, data, actor, cas, draw) =>
      PutOpenBaoAdds(w.t, NormalizePath(path), data, actor, cas, draw);
  }

  lemma StepRemembers(w: World, step: Step, path: string)
    requires Inv(w) && path in w.t.secrets && !Drops(step, path)
    ensures Remembers(w, Next(w, step), path)
  {
    if Apply(w.t, step).Err? {
      FlagRemembers(w, w, path);
    } else if step.PutStep? || step.PutOpenBaoStep? {
      PutStepAdds(w, step);
      var (added, bytes) := WriteOf(w.t, step).value;
      AddRemembers(w, Apply(w.t, step).value, added, bytes, step.actor, path);
    } else if step.ResolveStep? {
      ResolveRemembers(w, step.id, step.approver, step.decision, step.draw, path);
    } else if step.MutateStep? {
      var id := w.t.secrets[NormalizePath(step.path)].id;
      MutateRemembers(w, id, PositiveVersions(step.named), step.op, step.now, path);
    } else if step.SoftDeleteLatestStep? {
      var s := w.t.secrets[NormalizePath(step.path)];
      MutateRemembers(w, s.id, {s.current}, SoftDelete, step.now, path);
    } else if step.DropStep? {
      DropRemembers(w, step.path, path);
    } else {
      OtherStepRemembers(w, step, path);
    }
  }

  /** The steps that leave versions and ledger alone. */
  lemma OtherStepRemembers(w: World, step: Step, path: string)
    requires Inv(w) && path in w.t.secrets && Apply(w.t, step).Ok?
    requires !step.PutStep? && !step.PutOpenBaoStep? && !step.ResolveStep?
    requires !step.MutateStep? && !step.SoftDeleteLatestStep? && !step.DropStep?
    ensures Remembers(w, Next(w, step), path)
  {
    if RingOnly(step) { RingStepOfApply(w.t, step); }
    FlagRemembers(w, Next(w, step), path);
  }

  /** Between two moments of a run in which the secret is not dropped, every version
      keeps its number, its sealed bytes and its plaintext; only destroying blanks it. */
  lemma {:induction false} RunRemembers(w: World, steps: seq<Step>, i: nat, j: nat, path: string)
    requires Inv(w) && i <= j <= |steps| && path in At(w, steps, i).t.secrets
    requires forall k :: i <= k < j ==> !Drops(steps[k], path)
    ensures Remembers(At(w, steps, i), At(w, steps, j), path)
  {
    RunKeepsInv(w, steps[..i]);
    if i < j {
      RunRemembers(w, steps, i, j - 1, path);
      RunKeepsInv(w, steps[..j - 1]);
      StepRemembers(At(w, steps, j - 1), steps[j - 1], path);
      AtNext(w, steps, j - 1);
      RemembersTransitive(At(w, steps, i), At(w, steps, j - 1), At(w, steps, j), path);
    }
  }

  lemma RemembersTransitive(a: World, b: World, c: World, path: string)
    requires Remembers(a, b, path) && Remembers(b, c, path)
    ensures Remembers(a, c, path)
  {
    assert forall slot :: Holds(a.t.secrets, path, slot) ==> Holds(b.t.secrets, path, slot);
  }

  lemma AddedReads(t: Tables, after: Tables, path: string, bytes: Bytes, actor: Id)
    requires Adds(t, after, path, bytes, actor)
    ensures ReadSecret(after, path, 0) == Ok(bytes)
  {
  }

  lemma ReadIgnoresApprovals(t: Tables, approvals: map<Id, Approval>, path: string, version: int)
    ensures ReadSecret(t.(approvals := approvals), path, version) == ReadSecret(t, path, version)
  {
  }

  /** A committed write adds the version it is about, apart from what it does to approvals. */
  lemma WriteAdds(w: World, step: Step) returns (actor: Id)
    requires Apply(w.t, step).Ok? && WriteOf(w.t, step).Some?
    ensures var (path, bytes) := WriteOf(w.t, step).value;
            Adds(w.t, Apply(w.t, step).value.(approvals := w.t.approvals), path, bytes, actor)
  {
    if step.ResolveStep? {
      ResolveResolves(w.t, step.id, step.approver, step.decision, step.draw);
      actor := w.t.approvals[step.id].requester;
    } else {
      PutStepAdds(w, step);
      actor := step.actor;
    }
  }

  /** A committed write records exactly its bytes, at the version it makes current. */
  lemma WriteIsRecorded(w: World, step: Step)
    requires Inv(w) && Apply(w.t, step).Ok? && WriteOf(w.t, step).Some?
    ensures var (path, bytes) := WriteOf(w.t, step).value;
            var after := Next(w, step);
            path in after.t.secrets && !after.t.secrets[path].quarantined &&
            var slot := Slot(after.t.secrets[path].id, after.t.secrets[path].current);
            slot !in w.t.versions && slot in after.t.versions &&
            slot in after.ledger && after.ledger[slot] == bytes &&
            ReadSecret(after.t, path, 0) == Ok(bytes)
  {
    var (path, bytes) := WriteOf(w.t, step).value;
    var actor := WriteAdds(w, step);
    var after := Apply(w.t, step).value;
    AddedReads(w.t, after.(approvals := w.t.approvals), path, bytes, actor);
    ReadIgnoresApprovals(after, w.t.approvals, path, 0);
  }

  /** In every reachable state every version that is neither destroyed nor soft-deleted,
      of a secret not in quarantine, reads back as the bytes recorded for it; and a
      version that is not destroyed still has its wrapping key, at the recorded user
      and version, with decryption on. */
  lemma NoSecretIsLost(master: Key, steps: seq<Step>, path: string, number: nat)
    requires var t := Run(Start(master), steps).t;
             path in t.secrets && 1 <= number <= t.secrets[path].current
    ensures var w := Run(Start(master), steps);
            var slot := Slot(w.t.secrets[path].id, number);
            slot in w.t.versions &&
            var row := w.t.versions[slot];
            (!row.destroyed ==>
              && slot in w.ledger
              && Owns(w.t.ring.keys, row.keyId, row.createdBy, row.keyVersion)
              && w.t.ring.keys[row.keyId].permissions.decrypt
              && Unwrap(w.t.ring, slot, row) == Ok(w.ledger[slot]))
            && (!row.destroyed && row.deletedAt.None? && !w.t.secrets[path].quarantined ==>
                 ReadSecret(w.t, path, number) == Ok(w.ledger[slot]))
            && (row.destroyed || row.deletedAt.Some? || w.t.secrets[path].quarantined ==>
                 ReadSecret(w.t, path, number) == Err(NotFound))
  {
    StartInv(master);
    RunKeepsInv(Start(master), steps);
    var w := Run(Start(master), steps);
    var slot := Slot(w.t.secrets[path].id, number);
    assert Holds(w.t.secrets, path, slot);
    assert LinkOk(w.t.ring, w.ledger, slot, w.t.versions[slot]);
  }

  /** The bytes a write committed at step i are read back at any later moment j, as long
      as the secret was not dropped and the version is neither destroyed nor hidden. */
  lemma WrittenBytesSurvive(master: Key, steps: seq<Step>, i: nat, j: nat, path: string, bytes: Bytes)
    requires i < j <= |steps| && Commits(Start(master), steps, i)
    requires WriteOf(At(Start(master), steps, i).t, steps[i]) == Some((path, bytes))
    requires forall k :: i < k < j ==> !Drops(steps[k], path)
    ensures var made, now := At(Start(master), steps, i + 1), At(Start(master), steps, j);
            path in made.t.secrets && path in now.t.secrets &&
            var number := made.t.secrets[path].current;
            var slot := Slot(now.t.secrets[path].id, number);
            slot in now.t.versions &&
            (!now.t.versions[slot].destroyed ==> Unwrap(now.t.ring, slot, now.t.versions[slot]) == Ok(bytes)) &&
            (!now.t.versions[slot].destroyed && now.t.versions[slot].deletedAt.None?
             && !now.t.secrets[path].quarantined ==>
              ReadSecret(now.t, path, number) == Ok(bytes))
  {
    StartInv(master);
    RunKeepsInv(Start(master), steps[..i]);
    AtNext(Start(master), steps, i);
    WriteIsRecorded(At(Start(master), steps, i), steps[i]);
    var made, now := At(Start(master), steps, i + 1), At(Start(master), steps, j);
    RunKeepsInv(Start(master), steps[..i + 1]);
    var number := made.t.secrets[path].current;
    assert Holds(made.t.secrets, path, Slot(made.t.secrets[path].id, number));
    RunRemembers(Start(master), steps, i + 1, j, path);
    NoSecretIsLost(master, steps[..j], path, number);
  }

  // ----- Key rings -----

  /** In every reachable state each user owns key versions 1..keyVersion without gaps,
      of which exactly the newest is active, and no key is denied decryption. */
  lemma KeyRingOverRuns(master: Key, steps: seq<Step>, user: Id) returns (active: Id)
    requires user in Run(Start(master), steps).t.ring.users
    ensures var ring := Run(Start(master), steps).t.ring;
            && Owns(ring.keys, active, user, ring.users[user].keyVersion)
            && (forall id <- ring.keys :: ring.keys[id].userId == user ==>
                 1 <= ring.keys[id].version <= ring.users[user].keyVersion &&
                 ring.keys[id].permissions.decrypt && (ring.keys[id].active <==> id == active))
            && (forall version: nat :: 1 <= version <= ring.users[user].keyVersion ==> HasKey(ring.keys, user, version))
            && UniqueVersions(ring.keys)
  {
    StartInv(master);
    RunKeepsInv(Start(master), steps);
    var ring := Run(Start(master), steps).t.ring;
    active := ExactlyOneActiveKey(ring, user);
    assert forall id <- ring.keys :: RowOk(ring, ring.keys[id]);
  }

  // ----- Check-and-set -----

  /** An existing secret has at least one version, and an added version is one more row. */
  lemma AddedOnTop(w: World, after: Tables, path: string, bytes: Bytes, actor: Id)
    requires Inv(w) && Adds(w.t, after, path, bytes, actor)
    ensures path in w.t.secrets ==> w.t.secrets[path].current >= 1
    ensures path in after.secrets
    ensures var s := after.secrets[path];
            && s.current == 1 + (if path in w.t.secrets then w.t.secrets[path].current else 0)
            && Slot(s.id, s.current) !in w.t.versions && Slot(s.id, s.current) in after.versions
            && |after.versions| == |w.t.versions| + 1
  {
    var s := after.secrets[path];
    var row := after.versions[Slot(s.id, s.current)];
    assert after.versions == w.t.versions[Slot(s.id, s.current) := row];
  }

  /** What one more version on top of version c comes to. */
  predicate OnTop(t: Tables, after: Tables, path: string, c: int) {
    && (path in t.secrets <==> c != 0)
    && (path in t.secrets ==> t.secrets[path].current == c)
    && path in after.secrets && after.secrets[path].current == c + 1
    && Slot(after.secrets[path].id, c + 1) !in t.versions
    && Slot(after.secrets[path].id, c + 1) in after.versions
    && |after.versions| == |t.versions| + 1
  }

  lemma CasOnTop(w: World, path: string, data: Data, actor: Id, cas: Option<int>, draw: Draw)
    requires Inv(w) && cas.Some? && PutOpenBaoOnce(w.t, path, data, actor, cas, draw).Ok?
    ensures OnTop(w.t, PutOpenBaoOnce(w.t, path, data, actor, cas, draw).value, path, cas.value)
  {
    PutOpenBaoAdds(w.t, path, data, actor, cas, draw);
    AddedOnTop(w, PutOpenBaoOnce(w.t, path, data, actor, cas, draw).value, path, data.json, actor);
  }

  /** A write carrying a CAS value commits only on top of that version and makes the next. */
  lemma CasCommitsOnTop(w: World, step: Step)
    requires Inv(w) && step.PutOpenBaoStep? && step.cas.Some? && Apply(w.t, step).Ok?
    ensures OnTop(w.t, Next(w, step).t, NormalizePath(step.path), step.cas.value)
  {
    CasOnTop(w, NormalizePath(step.path), step.data, step.actor, step.cas, step.draw);
  }

  /** Conversely a CAS value that does not name the current version is refused, and a
      refused or aborted transaction of any kind leaves every table as it was. */
  lemma CasMismatchRefused(w: World, step: Step)
    requires Inv(w) && step.PutOpenBaoStep? && step.cas.Some?
    requires ValidPath(NormalizePath(step.path)) && !step.data.isNil
    requires var path := NormalizePath(step.path);
             step.cas.value != if path in w.t.secrets then w.t.secrets[path].current else 0
    ensures Apply(w.t, step) == Err(CheckAndSet)
    ensures Next(w, step) == w
  {
  }

  /** The user's newest key allows encryption. */
  ghost predicate MayWrite(ring: Ring, actor: Id) {
    actor in ring.users &&
    exists id :: Owns(ring.keys, id, actor, ring.users[actor].keyVersion) && ring.keys[id].permissions.encrypt
  }

  lemma DataKeyExactly(ring: Ring, actor: Id)
    requires RingOk(ring) && actor in ring.users
    ensures DataKey(ring, actor, ring.users[actor].keyVersion).Ok? <==> MayWrite(ring, actor)
  {
    if MayWrite(ring, actor) {
      var id := EncryptKeyId(ring, actor, ring.users[actor].keyVersion).value;
      assert RowOk(ring, ring.keys[id]);
    }
  }

  /** The next number of a staged secret is free. */
  lemma StagedSlotFree(w: World, staged: Tables, path: string)
    requires Inv(w) && Stages(w.t, staged, path)
    ensures Slot(staged.secrets[path].id, staged.secrets[path].current + 1) !in w.t.versions
  {
    var s := staged.secrets[path];
    var slot := Slot(s.id, s.current + 1);
    forall p ensures !Holds(w.t.secrets, p, slot) {
      if p in w.t.secrets && w.t.secrets[p].id == s.id { assert p == path; }
    }
  }

  /** A row sealed under the actor's key unwraps to the data it was made of. */
  lemma SealedVersionUnwraps(ring: Ring, slot: Slot, actor: Id, data: Data, metadata: Bytes, nonce: Nonce)
    requires RingOk(ring) && actor in ring.users && DataKey(ring, actor, ring.users[actor].keyVersion).Ok?
    ensures var version := ring.users[actor].keyVersion;
            var (id, key) := DataKey(ring, actor, version).value;
            Unwrap(ring, slot, SealedVersion(slot, key, id, version, data, metadata, actor, nonce)) == Ok(data.json)
  {
    var version := ring.users[actor].keyVersion;
    DataKeyOpens(ring, actor, version);
    assert RowOk(ring, ring.keys[DataKey(ring, actor, version).value.0]);
  }

  /** Reading back the row that was just stored is unwrapping it. */
  lemma ReadsBack(t: Tables, path: string, slot: Slot, row: Version)
    requires path in t.secrets && !t.secrets[path].quarantined && slot == Slot(t.secrets[path].id, slot.number)
    requires slot.number > 0 && !row.destroyed && row.deletedAt.None?
    requires slot in t.versions && t.versions[slot] == row
    ensures ReadSecret(t, path, slot.number) == Unwrap(t.ring, slot, row)
  {
  }

  /** The insert as soon as its key, its slot and its read are settled. */
  lemma InsertGoesThrough(t: Tables, path: string, data: Data, metadata: Bytes, actor: Id, nonce: Nonce)
    requires path in t.secrets && actor in t.ring.users
    requires DataKey(t.ring, actor, t.ring.users[actor].keyVersion).Ok?
    requires var s := t.secrets[path];
             var slot := Slot(s.id, s.current + 1);
             var version := t.ring.users[actor].keyVersion;
             var (id, key) := DataKey(t.ring, actor, version).value;
             var row := SealedVersion(slot, key, id, version, data, metadata, actor, nonce);
             var after := t.(versions := t.versions[slot := row],
                             secrets := t.secrets[path := s.(current := slot.number)]);
             slot !in t.versions && ReadSecret(after, path, slot.number).Ok?
    ensures InsertVersion(t, path, data, metadata, actor, nonce).Ok?
  {
  }

  /** Once the actor's data key opens, the insert and the read behind it succeed. */
  lemma InsertWithKey(w: World, staged: Tables, path: string, data: Data, metadata: Bytes, actor: Id, nonce: Nonce)
    requires Inv(w) && Stages(w.t, staged, path)
    requires actor in w.t.ring.users && DataKey(w.t.ring, actor, w.t.ring.users[actor].keyVersion).Ok?
    ensures InsertVersion(staged, path, data, metadata, actor, nonce).Ok?
  {
    var s := staged.secrets[path];
    var slot := Slot(s.id, s.current + 1);
    var version := w.t.ring.users[actor].keyVersion;
    var (id, key) := DataKey(w.t.ring, actor, version).value;
    var row := SealedVersion(slot, key, id, version, data, metadata, actor, nonce);
    var after := staged.(versions := staged.versions[slot := row],
                         secrets := staged.secrets[path := s.(current := slot.number)]);
    StagedSlotFree(w, staged, path);
    SealedVersionUnwraps(w.t.ring, slot, actor, data, metadata, nonce);
    ReadsBack(after, path, slot, row);
    InsertGoesThrough(staged, path, data, metadata, actor, nonce);
  }

  lemma InsertSucceeds(w: World, staged: Tables, path: string, data: Data, metadata: Bytes, actor: Id, nonce: Nonce)
    requires Inv(w) && Stages(w.t, staged, path)
    ensures InsertVersion(staged, path, data, metadata, actor, nonce).Ok? <==> MayWrite(w.t.ring, actor)
  {
    if actor in w.t.ring.users {
      DataKeyExactly(w.t.ring, actor);
      if MayWrite(w.t.ring, actor) { InsertWithKey(w, staged, path, data, metadata, actor, nonce); }
    }
  }

  lemma CarriedMetadataFound(w: World, path: string)
    requires Inv(w)
    ensures CarriedMetadata(w.t, path).Ok?
  {
    if path in w.t.secrets {
      assert Holds(w.t.secrets, path, Slot(w.t.secrets[path].id, w.t.secrets[path].current));
    }
  }

  lemma PutOnceExactly(w: World, path: string, data: Data, actor: Id, cas: Option<int>, draw: Draw)
    requires Inv(w)
    ensures PutOpenBaoOnce(w.t, path, data, actor, cas, draw).Ok? <==>
      && CasAllows(cas, if path in w.t.secrets then w.t.secrets[path].current else 0, path in w.t.secrets)
      && UpsertSecret(w.t, path, actor, draw).Ok?
      && MayWrite(w.t.ring, actor)
  {
    CarriedMetadataFound(w, path);
    if UpsertSecret(w.t, path, actor, draw).Ok? {
      UpsertStages(w.t, path, actor, draw);
      InsertSucceeds(w, UpsertSecret(w.t, path, actor, draw).value, path, data,
                     CarriedMetadata(w.t, path).value, actor, draw.nonce);
    }
  }

  lemma CasAllowsExactly(w: World, cas: Option<int>, path: string)
    requires Inv(w)
    ensures var current := if path in w.t.secrets then w.t.secrets[path].current else 0;
            CasAllows(cas, current, path in w.t.secrets) <==> cas.None? || cas.value == current
  {
    if path in w.t.secrets {
      assert Holds(w.t.secrets, path, Slot(w.t.secrets[path].id, w.t.secrets[path].current));
    }
  }

  lemma UpsertExactly(t: Tables, path: string, actor: Id, draw: Draw)
    requires MayWrite(t.ring, actor)
    ensures UpsertSecret(t, path, actor, draw).Ok? <==> path in t.secrets || !IdTaken(t.secrets, draw.secretId)
  {
  }

  lemma ApplyPut(t: Tables, path: string, data: Data, actor: Id, cas: Option<int>, draw: Draw)
    ensures Apply(t, PutOpenBaoStep(path, data, actor, cas, draw)).Ok?
       <==> PutOpenBao(t, path, data, actor, cas, draw).Ok?
  {
  }

  lemma PutOfValid(t: Tables, path: string, data: Data, actor: Id, cas: Option<int>, draw: Draw)
    requires ValidPath(NormalizePath(path)) && !data.isNil
    ensures PutOpenBao(t, path, data, actor, cas, draw)
         == PutOpenBaoOnce(t, NormalizePath(path), data, actor, cas, draw)
  {
  }

  /** A KV v2 write succeeds exactly when its CAS value names the current version and the
      actor's newest key may encrypt; nothing else in a reachable state can refuse it but
      a collision of the random identifier of a new secret. */
  lemma PutOpenBaoSucceedsExactly(w: World, step: Step)
    requires Inv(w) && step.PutOpenBaoStep?
    requires ValidPath(NormalizePath(step.path)) && !step.data.isNil
    ensures var path := NormalizePath(step.path);
            var current := if path in w.t.secrets then w.t.secrets[path].current else 0;
            Apply(w.t, step).Ok? <==>
              && (step.cas.None? || step.cas.value == current)
              && MayWrite(w.t.ring, step.actor)
              && (path in w.t.secrets || !IdTaken(w.t.secrets, step.draw.secretId))
  {
    var path := NormalizePath(step.path);
    ApplyPut(w.t, step.path, step.data, step.actor, step.cas, step.draw);
    PutOfValid(w.t, step.path, step.data, step.actor, step.cas, step.draw);
    PutOnceExactly(w, path, step.data, step.actor, step.cas, step.draw);
    CasAllowsExactly(w, step.cas, path);
    if MayWrite(w.t.ring, step.actor) { UpsertExactly(w.t, path, step.actor, step.draw); }
  }

  /** Of all writers racing with the same CAS value on one incarnation of a secret, at
      most one commits. */
  lemma CasLosesNoUpdate(w: World, steps: seq<Step>, i: nat, j: nat, path: string, c: int)
    requires Inv(w) && i < j < |steps|
    requires steps[i].PutOpenBaoStep? && NormalizePath(steps[i].path) == path && steps[i].cas == Some(c)
    requires steps[j].PutOpenBaoStep? && NormalizePath(steps[j].path) == path && steps[j].cas == Some(c)
    requires forall k :: i < k < j ==> !Drops(steps[k], path)
    requires Commits(w, steps, i)
    ensures !Commits(w, steps, j)
  {
    RunKeepsInv(w, steps[..i]);
    RunKeepsInv(w, steps[..i + 1]);
    RunKeepsInv(w, steps[..j]);
    AtNext(w, steps, i);
    CasCommitsOnTop(At(w, steps, i), steps[i]);
    RunRemembers(w, steps, i + 1, j, path);
    if Commits(w, steps, j) { CasCommitsOnTop(At(w, steps, j), steps[j]); }
  }

  // ----- The version ledger -----

  /** The versions of a secret are exactly 1..current, over every run. */
  lemma VersionsAreContiguous(master: Key, steps: seq<Step>, path: string, number: nat)
    requires path in Run(Start(master), steps).t.secrets
    ensures var t := Run(Start(master), steps).t;
            t.secrets[path].current >= 1 &&
            (Slot(t.secrets[path].id, number) in t.versions <==> 1 <= number <= t.secrets[path].current)
  {
    StartInv(master);
    RunKeepsInv(Start(master), steps);
    var t := Run(Start(master), steps).t;
    var slot := Slot(t.secrets[path].id, number);
    if slot in t.versions {
      var p :| Holds(t.secrets, p, slot);
      assert p == path;
    } else {
      assert !Holds(t.secrets, path, slot);
    }
  }

  /** A write after a quarantine continues the numbering: no number is handed out twice
      while the secret is not dropped. */
  lemma NumbersNotReused(w: World, steps: seq<Step>, i: nat, j: nat, path: string, bytes: Bytes, bytes': Bytes)
    requires Inv(w) && i < j < |steps| && Commits(w, steps, i) && Commits(w, steps, j)
    requires WriteOf(At(w, steps, i).t, steps[i]) == Some((path, bytes))
    requires WriteOf(At(w, steps, j).t, steps[j]) == Some((path, bytes'))
    requires forall k :: i < k < j ==> !Drops(steps[k], path)
    ensures path in At(w, steps, i + 1).t.secrets && path in At(w, steps, j + 1).t.secrets
    ensures At(w, steps, i + 1).t.secrets[path].id == At(w, steps, j + 1).t.secrets[path].id
    ensures At(w, steps, i + 1).t.secrets[path].current < At(w, steps, j + 1).t.secrets[path].current
  {
    RunKeepsInv(w, steps[..i]);
    RunKeepsInv(w, steps[..i + 1]);
    RunKeepsInv(w, steps[..j]);
    AtNext(w, steps, i);
    AtNext(w, steps, j);
    WriteIsRecorded(At(w, steps, i), steps[i]);
    RunRemembers(w, steps, i + 1, j, path);
    var before, after := At(w, steps, j), At(w, steps, j + 1);
    WriteAdvances(before, steps[j]);
  }

  lemma WriteAdvances(w: World, step: Step)
    requires Inv(w) && Apply(w.t, step).Ok? && WriteOf(w.t, step).Some?
    ensures var path := WriteOf(w.t, step).value.0;
            path in Next(w, step).t.secrets &&
            (path in w.t.secrets ==>
              Next(w, step).t.secrets[path].id == w.t.secrets[path].id &&
              Next(w, step).t.secrets[path].current == w.t.secrets[path].current + 1)
  {
    if step.ResolveStep? {
      ResolveResolves(w.t, step.id, step.approver, step.decision, step.draw);
    } else {
      PutStepAdds(w, step);
    }
  }

  /** A version once destroyed stays exactly as destroying left it. */
  lemma DestroyedIsAbsorbing(w: World, steps: seq<Step>, i: nat, j: nat, path: string, slot: Slot)
    requires Inv(w) && i <= j <= |steps|
    requires Holds(At(w, steps, i).t.secrets, path, slot)
    requires slot in At(w, steps, i).t.versions && At(w, steps, i).t.versions[slot].destroyed
    requires forall k :: i <= k < j ==> !Drops(steps[k], path)
    ensures slot in At(w, steps, j).t.versions
    ensures var row := At(w, steps, j).t.versions[slot];
            row == At(w, steps, i).t.versions[slot] &&
            row.ciphertext == Sealed.Empty && row.nonce == [] && row.deletedAt.None?
  {
    RunKeepsInv(w, steps[..i]);
    RunRemembers(w, steps, i, j, path);
  }

  /** A mutation depends only on which positive versions its list names: not on their
      order, their repetition, or the non-positive entries. */
  lemma MutationsDependOnNamedSet(t: Tables, path: string, named: seq<int>, named': seq<int>, op: Operation, now: int)
    requires named != [] && named' != []
    requires forall number :: number >= 1 ==> (number in named <==> number in named')
    ensures MutateVersions(t, path, named, op, now) == MutateVersions(t, path, named', op, now)
  {
    assert PositiveVersions(named) == PositiveVersions(named');
  }

  /** Undeleting restores every named version that is not destroyed, with the data it was
      written with, and touches no other. */
  lemma UndeleteRestores(w: World, path: string, named: seq<int>, now: int, number: nat)
    requires Inv(w) && MutateVersions(w.t, path, named, Undelete, now).Ok?
    requires 1 <= number <= w.t.secrets[NormalizePath(path)].current
    ensures var p := NormalizePath(path);
            var after := MutateVersions(w.t, path, named, Undelete, now).value;
            var slot := Slot(w.t.secrets[p].id, number);
            slot in w.t.versions && after.secrets == w.t.secrets &&
            (number in named && !w.t.versions[slot].destroyed ==>
              slot in w.ledger && ReadSecret(after, p, number) == Ok(w.ledger[slot])) &&
            (number !in named || w.t.versions[slot].destroyed ==>
              after.versions[slot] == w.t.versions[slot])
  {
    var p := NormalizePath(path);
    var slot := Slot(w.t.secrets[p].id, number);
    assert Holds(w.t.secrets, p, slot);
    var after := MutateVersions(w.t, path, named, Undelete, now).value;
    UndeletedRow(w.t, path, named, now, number);
    if number in named && !w.t.versions[slot].destroyed { VisibleReads(w, after, p, number); }
  }

  lemma UndeletedRow(t: Tables, path: string, named: seq<int>, now: int, number: nat)
    requires MutateVersions(t, path, named, Undelete, now).Ok? && number >= 1
    requires Slot(t.secrets[NormalizePath(path)].id, number) in t.versions
    ensures var slot := Slot(t.secrets[NormalizePath(path)].id, number);
            var after := MutateVersions(t, path, named, Undelete, now).value;
            slot in after.versions && after == t.(versions := after.versions) &&
            after.versions[slot] ==
              if number in named && !t.versions[slot].destroyed then t.versions[slot].(deletedAt := None)
              else t.versions[slot]
  {
  }

  /** A version that is not destroyed reads as its recorded bytes once its deletion time
      is gone. */
  lemma VisibleReads(w: World, after: Tables, path: string, number: nat)
    requires Inv(w) && number >= 1 && path in w.t.secrets && !w.t.secrets[path].quarantined
    requires var slot := Slot(w.t.secrets[path].id, number);
             && slot in w.t.versions && !w.t.versions[slot].destroyed && slot in after.versions
             && after.ring == w.t.ring && after.secrets == w.t.secrets
             && after.versions[slot] == w.t.versions[slot].(deletedAt := None)
    ensures var slot := Slot(w.t.secrets[path].id, number);
            slot in w.ledger && ReadSecret(after, path, number) == Ok(w.ledger[slot])
  {
    var slot := Slot(w.t.secrets[path].id, number);
    assert LinkOk(w.t.ring, w.ledger, slot, w.t.versions[slot]);
    assert ReadSecret(after, path, number) == Unwrap(w.t.ring, slot, after.versions[slot]);
  }

  /** Soft-deleting and then undeleting the same versions gives the tables back, except
      that versions deleted before are undeleted too. */
  lemma UndeleteInvertsSoftDelete(t: Tables, secret: Id, numbers: set<int>, now: int, later: int)
    ensures MutateRows(MutateRows(t.versions, secret, numbers, SoftDelete, now), secret, numbers, Undelete, later)
         == MutateRows(t.versions, secret, numbers, Undelete, later)
  {
  }

  /** What a mutation leaves of one version. */
  lemma MutatedRow(t: Tables, path: string, named: seq<int>, op: Operation, now: int, number: nat)
    requires MutateVersions(t, path, named, op, now).Ok? && number >= 1
    requires Slot(t.secrets[NormalizePath(path)].id, number) in t.versions
    ensures var slot := Slot(t.secrets[NormalizePath(path)].id, number);
            var after := MutateVersions(t, path, named, op, now).value;
            slot in after.versions && after == t.(versions := after.versions) &&
            after.versions[slot] == if number in named then MutateRow(op, t.versions[slot], now) else t.versions[slot]
  {
  }

  /** Soft-deleting hides exactly the named versions, keeps what they hold and the time
      they were first deleted, and a read of any other version is as before. */
  lemma SoftDeleteHides(w: World, path: string, named: seq<int>, now: int, number: nat)
    requires Inv(w) && MutateVersions(w.t, path, named, SoftDelete, now).Ok?
    requires 1 <= number <= w.t.secrets[NormalizePath(path)].current
    ensures var p := NormalizePath(path);
            var after := MutateVersions(w.t, path, named, SoftDelete, now).value;
            var slot := Slot(w.t.secrets[p].id, number);
            slot in w.t.versions && slot in after.versions &&
            RowEvolves(w.t.versions[slot], after.versions[slot]) &&
            after.versions[slot].destroyed == w.t.versions[slot].destroyed &&
            (number in named ==> ReadSecret(after, p, number) == Err(NotFound)) &&
            (number in named && !w.t.versions[slot].destroyed ==>
              after.versions[slot].deletedAt ==
                (if w.t.versions[slot].deletedAt.Some? then w.t.versions[slot].deletedAt else Some(now))) &&
            (number !in named ==> ReadSecret(after, p, number) == ReadSecret(w.t, p, number))
  {
    assert Holds(w.t.secrets, NormalizePath(path), Slot(w.t.secrets[NormalizePath(path)].id, number));
    MutatedRow(w.t, path, named, SoftDelete, now, number);
  }

  /** Destroying erases exactly the named versions: their rows hold nothing to open, under
      any key. (What an approved put wrote stays sealed in its request.) */
  lemma DestroyErases(w: World, path: string, named: seq<int>, now: int, number: nat)
    requires Inv(w) && MutateVersions(w.t, path, named, Destroy, now).Ok?
    requires 1 <= number <= w.t.secrets[NormalizePath(path)].current
    ensures var p := NormalizePath(path);
            var after := MutateVersions(w.t, path, named, Destroy, now).value;
            var slot := Slot(w.t.secrets[p].id, number);
            slot in w.t.versions && slot in after.versions &&
            (number in named ==>
              after.versions[slot].destroyed && after.versions[slot].ciphertext == Sealed.Empty &&
              after.versions[slot].deletedAt.None? && ReadSecret(after, p, number) == Err(NotFound)) &&
            (number !in named ==> after.versions[slot] == w.t.versions[slot])
  {
    var slot := Slot(w.t.secrets[NormalizePath(path)].id, number);
    assert Holds(w.t.secrets, NormalizePath(path), slot);
    assert LinkOk(w.t.ring, w.ledger, slot, w.t.versions[slot]);
    MutatedRow(w.t, path, named, Destroy, now, number);
  }

  /** Dropping a secret removes it with exactly its own versions. */
  lemma DropErases(w: World, path: string)
    requires Inv(w) && DropSecret(w.t, path).Ok?
    ensures var p := NormalizePath(path);
            var after := DropSecret(w.t, path).value;
            && after.secrets.Keys == w.t.secrets.Keys - {p}
            && (forall number: nat :: Slot(w.t.secrets[p].id, number) !in after.versions)
            && forall other, number: nat :: other in after.secrets ==>
                 ReadSecret(after, other, number) == ReadSecret(w.t, other, number)
  {
    var after := DropSecret(w.t, path).value;
    forall other, number: nat | other in after.secrets
      ensures ReadSecret(after, other, number) == ReadSecret(w.t, other, number)
    {
      assert w.t.secrets[other].id != w.t.secrets[NormalizePath(path)].id;
    }
  }

  /** A soft delete without numbers names the current version. */
  lemma LatestIsCurrent(t: Tables, path: string, now: int)
    requires forall p <- t.secrets :: t.secrets[p].current >= 1
    ensures SoftDeleteLatest(t, path, now) ==
      var p := NormalizePath(path);
      MutateVersions(t, path, [if p in t.secrets then t.secrets[p].current else 1], SoftDelete, now)
  {
    var p := NormalizePath(path);
    if p in t.secrets {
      assert PositiveVersions([t.secrets[p].current]) == {t.secrets[p].current};
    }
  }

  // ----- Sealed rows cannot be moved -----

  /** A ciphertext column copied from one version to another never authenticates. */
  lemma RowsAreNotInterchangeable(w: World, from: Slot, to: Slot, row: Version)
    requires Inv(w) && from in w.t.versions && !w.t.versions[from].destroyed && from != to
    requires row.ciphertext == w.t.versions[from].ciphertext
    ensures Unwrap(w.t.ring, to, row).Err?
  {
    assert LinkOk(w.t.ring, w.ledger, from, w.t.versions[from]);
    if Aad(SecretContext(from.secret, from.number)) == Aad(SecretContext(to.secret, to.number)) {
      AadInjective(SecretContext(from.secret, from.number), SecretContext(to.secret, to.number));
    }
  }

  // ----- Approvals -----

  lemma OtherStepsKeepApprovals(w: World, step: Step, id: Id)
    requires id in w.t.approvals && !step.PutStep? && !step.PutOpenBaoStep? && !step.ResolveStep?
    ensures id in Next(w, step).t.approvals && Next(w, step).t.approvals[id] == w.t.approvals[id]
  {
  }

  lemma ApprovalsKept(w: World, step: Step, id: Id)
    requires id in w.t.approvals
    ensures id in Next(w, step).t.approvals
    ensures w.t.approvals[id].status != Pending ==> Next(w, step).t.approvals[id] == w.t.approvals[id]
  {
    if !step.PutStep? && !step.PutOpenBaoStep? && !step.ResolveStep? {
      OtherStepsKeepApprovals(w, step, id);
    } else if Apply(w.t, step).Ok? {
      if step.PutStep? || step.PutOpenBaoStep? {
        PutStepAdds(w, step);
      } else {
        ResolveResolves(w.t, step.id, step.approver, step.decision, step.draw);
      }
    }
  }

  lemma {:induction false} DecidedStaysDecided(w: World, steps: seq<Step>, i: nat, j: nat, id: Id)
    requires i <= j <= |steps|
    requires id in At(w, steps, i).t.approvals && At(w, steps, i).t.approvals[id].status != Pending
    ensures id in At(w, steps, j).t.approvals
    ensures At(w, steps, j).t.approvals[id] == At(w, steps, i).t.approvals[id]
  {
    if i < j {
      DecidedStaysDecided(w, steps, i, j - 1, id);
      ApprovalsKept(At(w, steps, j - 1), steps[j - 1], id);
      AtNext(w, steps, j - 1);
    }
  }

  /** A request is resolved, and so executed, at most once in any run. */
  lemma ApprovalsExecuteOnce(w: World, steps: seq<Step>, i: nat, j: nat)
    requires i < j < |steps|
    requires steps[i].ResolveStep? && steps[j].ResolveStep? && steps[i].id == steps[j].id
    requires Commits(w, steps, i)
    ensures !Commits(w, steps, j)
  {
    var s := steps[i];
    ResolveResolves(At(w, steps, i).t, s.id, s.approver, s.decision, s.draw);
    AtNext(w, steps, i);
    DecidedStaysDecided(w, steps, i + 1, j, s.id);
  }

  /** In every reachable state a decided request was decided by somebody other than its
      requester, and an undecided one names nobody. */
  lemma FourEyes(master: Key, steps: seq<Step>, id: Id)
    requires id in Run(Start(master), steps).t.approvals
    ensures var a := Run(Start(master), steps).t.approvals[id];
            if a.status == Pending then a.approver.None?
            else a.approver.Some? && a.approver.value != a.requester
  {
    StartInv(master);
    RunKeepsInv(Start(master), steps);
    assert ApprovalOk(Run(Start(master), steps).t.ring, id, Run(Start(master), steps).t.approvals[id]);
  }

  /** What a committed decision does: rejecting touches no secret; approving happens only
      while the requester is active and still holds the capability, and then adds exactly
      one version authored by the requester or quarantines exactly the named path. */
  lemma ApprovalEffect(w: World, id: Id, approver: Id, decision: string, draw: Draw)
    requires Inv(w) && ResolveApproval(w.t, id, approver, decision, draw).Ok?
    ensures Resolves(w.t, ResolveApproval(w.t, id, approver, decision, draw).value, id, approver, decision)
    ensures var a := w.t.approvals[id];
            var after := ResolveApproval(w.t, id, approver, decision, draw).value;
            && (decision == "approved" && a.action == PUT_ACTION ==>
                 exists slot :: slot !in w.t.versions && slot in after.versions &&
                   after.versions == w.t.versions[slot := after.versions[slot]] &&
                   after.versions[slot].createdBy == a.requester)
            && (decision == "approved" && a.action == DELETE_ACTION ==>
                 a.resource in w.t.secrets && !w.t.secrets[a.resource].quarantined &&
                 after.versions == w.t.versions &&
                 after.secrets == w.t.secrets[a.resource := w.t.secrets[a.resource].(quarantined := true)])
  {
    ResolveResolves(w.t, id, approver, decision, draw);
    var a := w.t.approvals[id];
    var after := ResolveApproval(w.t, id, approver, decision, draw).value;
    if decision == "approved" && a.action == PUT_ACTION {
      var s := after.secrets[a.payload.plaintext.path];
      assert Slot(s.id, s.current) !in w.t.versions;
    }
  }

  /** The capability is checked on the request's resource, but the write goes to the path
      inside the sealed payload: the approved resource receives the version exactly when
      the two are equal. */
  lemma ApprovedPutReachesResource(w: World, id: Id, approver: Id, draw: Draw)
    requires Inv(w) && ResolveApproval(w.t, id, approver, "approved", draw).Ok?
    requires w.t.approvals[id].action == PUT_ACTION
    ensures var a := w.t.approvals[id];
            var after := ResolveApproval(w.t, id, approver, "approved", draw).value;
            a.payload.Sealed? &&
            (a.payload.plaintext.path == a.resource <==>
              a.resource in after.secrets &&
              after.secrets[a.resource].current ==
                1 + if a.resource in w.t.secrets then w.t.secrets[a.resource].current else 0)
  {
    ResolveResolves(w.t, id, approver, "approved", draw);
    var a := w.t.approvals[id];
    var after := ResolveApproval(w.t, id, approver, "approved", draw).value;
    var write := a.payload.plaintext;
    assert Adds(w.t, after.(approvals := w.t.approvals), write.path, write.data.json, a.requester);
  }

  /** An approved put executes exactly when the request is pending, the approver is another
      account, the requester is active, holds "update" on the resource if that is stored and
      not in quarantine and "create" otherwise, and may encrypt, the payload's texts can be
      stored and its application and owner still exist, and no random identifier collides. */
  lemma ApprovedPutSucceedsExactly(w: World, id: Id, approver: Id, draw: Draw)
    requires Inv(w) && id in w.t.approvals && w.t.approvals[id].action == "secret.put"
    ensures w.t.approvals[id].payload.Sealed?
    ensures var a := w.t.approvals[id];
            ResolveApproval(w.t, id, approver, "approved", draw).Ok? <==>
              && a.status == Pending && a.requester != approver && approver in w.t.ring.users
              && (var live := a.resource in w.t.secrets && !w.t.secrets[a.resource].quarantined;
                  Holding(w.t, a.requester, a.resource, if live then "update" else "create"))
              && MayWrite(w.t.ring, a.requester)
              && var write := a.payload.plaintext;
              && write.storable
              && (write.application.Some? ==> write.application.value in w.t.applications)
              && (write.owner.Some? ==> write.owner.value in w.t.ring.users)
              && (write.path in w.t.secrets || forall other <- w.t.secrets :: w.t.secrets[other].id != draw.secretId)
  {
    var a := w.t.approvals[id];
    assert ApprovalOk(w.t.ring, id, a);
    var write := a.payload.plaintext;
    var staged := UpsertSecret(w.t, write.path, a.requester, draw);
    if staged.Ok? {
      UpsertStages(w.t, write.path, a.requester, draw);
      InsertSucceeds(w, staged.value, write.path, write.data, write.metadata, a.requester, draw.nonce);
    }
  }

  lemma RunSnoc(w: World, init: seq<Step>, step: Step)
    ensures Run(w, init + [step]) == Next(Run(w, init), step)
  {
    assert (init + [step])[..|init|] == init;
  }

  lemma RunThree(w: World, a: Step, b: Step, c: Step)
    ensures Run(w, [a] + [b] + [c]) == Next(Next(Next(w, a), b), c)
  {
    assert [a] == [] + [a];
    RunSnoc(w, [], a);
    RunSnoc(w, [a], b);
    RunSnoc(w, [a] + [b], c);
  }

  /** A run with two managers in which the first files a put under a resource. */
  function Filing(first: Id, second: Id, key: KeyDraw, key': KeyDraw,
                  resource: string, write: SecretWrite, nonce: Nonce): seq<Step>
  {
    [AddUserStep(first, Manager, key)] + [AddUserStep(second, Manager, key')] +
    [RequestStep("r", PUT_ACTION, resource, first, write, nonce)]
  }

  lemma ManagerAdded(w: World, user: Id, draw: KeyDraw)
    requires user !in w.t.ring.users && draw.id !in w.t.ring.keys
    requires forall id <- w.t.ring.keys :: w.t.ring.keys[id].userId != user
    ensures Next(w, AddUserStep(user, Manager, draw)) ==
      w.(t := w.t.(ring := w.t.ring.(users := w.t.ring.users[user := User(Manager, true, 1)],
                                     keys := w.t.ring.keys[draw.id := NewKey(w.t.ring.master, user, 1, draw)])))
  {
    var step := AddUserStep(user, Manager, draw);
    assert Apply(w.t, step) == WithRing(w.t, AddUser(w.t.ring, user, Manager, draw));
    assert WriteOf(w.t, step) == None;
  }

  lemma PutFiled(w: World, resource: string, requester: Id, write: SecretWrite, nonce: Nonce)
    requires "r" !in w.t.approvals && requester in w.t.ring.users
    ensures Next(w, RequestStep("r", PUT_ACTION, resource, requester, write, nonce)) ==
      w.(t := w.t.(approvals := w.t.approvals["r" :=
        Approval(PUT_ACTION, resource, requester, None, Pending,
                 Sealed(w.t.ring.master, nonce, Aad(ApprovalContext("r")), write), nonce)]))
  {
    var step := RequestStep("r", PUT_ACTION, resource, requester, write, nonce);
    assert Apply(w.t, step) == RequestApproval(w.t, "r", PUT_ACTION, resource, requester, write, nonce);
    assert WriteOf(w.t, step) == None;
  }

  lemma FilingReaches(master: Key, first: Id, second: Id, key: KeyDraw, key': KeyDraw,
                      resource: string, write: SecretWrite, nonce: Nonce)
    requires first != second && key.id != key'.id
    ensures var t := Run(Start(master), Filing(first, second, key, key', resource, write, nonce)).t;
            && t.secrets == map[] && t.ring.master == master
            && t.ring.users == map[first := User(Manager, true, 1), second := User(Manager, true, 1)]
            && t.ring.keys == map[key.id := NewKey(master, first, 1, key), key'.id := NewKey(master, second, 1, key')]
            && t.approvals == map["r" := Approval(PUT_ACTION, resource, first, None, Pending,
                 Sealed(master, nonce, Aad(ApprovalContext("r")), write), nonce)]
  {
    var w := Start(master);
    var add, add' := AddUserStep(first, Manager, key), AddUserStep(second, Manager, key');
    RunThree(w, add, add', RequestStep("r", PUT_ACTION, resource, first, write, nonce));
    ManagerAdded(w, first, key);
    ManagerAdded(Next(w, add), second, key');
    PutFiled(Next(Next(w, add), add'), resource, first, write, nonce);
  }

  /** An approved put can miss its resource: filed under "a" with the path "/a", it is
      approved and stored as "/a", and "a" still does not exist. */
  lemma ApprovedPutCanMiss(master: Key, first: Id, second: Id, key: KeyDraw, key': KeyDraw,
                           data: Data, nonce: Nonce, draw: Draw)
    requires first != second && key.id != key'.id
    ensures var write := SecretWrite("/a", data, EMPTY_OBJECT, None, None, true);
            var w := Run(Start(master), Filing(first, second, key, key', TrimSlashes("/a"), write, nonce));
            var after := ResolveApproval(w.t, "r", second, "approved", draw);
            after.Ok? && "/a" in after.value.secrets && TrimSlashes("/a") !in after.value.secrets
  {
    var write := SecretWrite("/a", data, EMPTY_OBJECT, None, None, true);
    var resource := TrimSlashes("/a");
    assert resource != "/a";
    var w := FiledRun(master, first, second, key, key', resource, write, nonce);
    FiledPutIsStored(w, first, second, key, resource, write, nonce, draw);
  }

  lemma FiledRun(master: Key, first: Id, second: Id, key: KeyDraw, key': KeyDraw,
                 resource: string, write: SecretWrite, nonce: Nonce) returns (w: World)
    requires first != second && key.id != key'.id
    ensures w == Run(Start(master), Filing(first, second, key, key', resource, write, nonce))
    ensures Inv(w) && w.t.secrets == map[] && second in w.t.ring.users
    ensures first in w.t.ring.users && w.t.ring.users[first] == User(Manager, true, 1)
    ensures key.id in w.t.ring.keys && w.t.ring.keys[key.id] == NewKey(w.t.ring.master, first, 1, key)
    ensures "r" in w.t.approvals && w.t.approvals["r"] ==
      Approval(PUT_ACTION, resource, first, None, Pending,
               Sealed(w.t.ring.master, nonce, Aad(ApprovalContext("r")), write), nonce)
  {
    w := Run(Start(master), Filing(first, second, key, key', resource, write, nonce));
    FilingReaches(master, first, second, key, key', resource, write, nonce);
    StartInv(master);
    RunKeepsInv(Start(master), Filing(first, second, key, key', resource, write, nonce));
  }

  lemma FiledPutIsStored(w: World, first: Id, second: Id, key: KeyDraw, resource: string, write: SecretWrite,
                         nonce: Nonce, draw: Draw)
    requires Inv(w) && w.t.secrets == map[] && first != second && second in w.t.ring.users
    requires first in w.t.ring.users && w.t.ring.users[first] == User(Manager, true, 1)
    requires key.id in w.t.ring.keys && w.t.ring.keys[key.id] == NewKey(w.t.ring.master, first, 1, key)
    requires "r" in w.t.approvals && w.t.approvals["r"] ==
      Approval(PUT_ACTION, resource, first, None, Pending,
               Sealed(w.t.ring.master, nonce, Aad(ApprovalContext("r")), write), nonce)
    requires write.storable && write.application.None? && write.owner.None?
    ensures var after := ResolveApproval(w.t, "r", second, "approved", draw);
            after.Ok? && after.value.secrets.Keys == {write.path}
  {
    assert Owns(w.t.ring.keys, key.id, first, 1);
    ApprovedPutSucceedsExactly(w, "r", second, draw);
    ResolveResolves(w.t, "r", second, "approved", draw);
  }

  /** The HTTP handler files a put under its path without the outer slashes. Once approved,
      the version reaches the resource exactly when there were none: filed as "/a", it is
      approved as "a" and stored as "/a". */
  lemma FiledPutReachesResource(w: World, id: Id, approver: Id, draw: Draw, submitted: string)
    requires Inv(w) && ResolveApproval(w.t, id, approver, "approved", draw).Ok?
    requires w.t.approvals[id].action == PUT_ACTION && w.t.approvals[id].resource == TrimSlashes(submitted)
    requires w.t.approvals[id].payload.Sealed? && w.t.approvals[id].payload.plaintext.path == submitted
    ensures var resource := TrimSlashes(submitted);
            var after := ResolveApproval(w.t, id, approver, "approved", draw).value;
            (resource in after.secrets &&
             after.secrets[resource].current ==
               1 + if resource in w.t.secrets then w.t.secrets[resource].current else 0)
            <==> submitted == [] || (submitted[0] != '/' && submitted[|submitted| - 1] != '/')
  {
    ApprovedPutReachesResource(w, id, approver, draw);
  }
}
