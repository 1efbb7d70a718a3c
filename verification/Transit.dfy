/** Transit keys with their version history, and the ciphertexts made with them. */
module Transit {
  import opened Wrappers
  import opened Text
  import opened Aead
  import opened Access
  import opened Codec
  import opened Decimals

  type Id = string

  datatype Permissions = Permissions(encrypt: bool, decrypt: bool, rotate: bool, manage: bool)

  const ALL_PERMISSIONS := Permissions(true, true, true, true)

  /** A key wrapped under the master key, as both tables store it. */
  datatype Wrapped = Wrapped(box: Sealed<Key>, nonce: Bytes)

  datatype TransitKey = TransitKey(version: nat, current: Wrapped, permissions: Permissions, createdBy: Id)

  datatype KeySlot = KeySlot(name: string, version: nat)

  datatype Tables = Tables(master: Key, users: set<Id>, keys: map<string, TransitKey>, versions: map<KeySlot, Wrapped>)

  datatype KeyDraw = KeyDraw(key: Key, nonce: Nonce)

  function Wrap(master: Key, name: string, version: nat, draw: KeyDraw): Wrapped {
    Wrapped(Sealed(master, draw.nonce, Aad(TransitKeyContext(name, version)), draw.key), draw.nonce)
  }

  function Unwrap(master: Key, name: string, version: nat, w: Wrapped): Result<Key> {
    Open(w.box, master, w.nonce, Aad(TransitKeyContext(name, version)))
  }

  // ----- Transactions -----

  function Inserted(t: Tables, name: string, permissions: Permissions, actor: Id, draw: KeyDraw): Tables {
    var w := Wrap(t.master, name, 1, draw);
    t.(keys := t.keys[name := TransitKey(1, w, permissions, actor)], versions := t.versions[KeySlot(name, 1) := w])
  }

  /** The transaction inside transitKey: insert, or do nothing when the name exists. */
  function InsertIfAbsent(t: Tables, name: string, actor: Id, draw: KeyDraw): Result<Tables> {
    if name in t.keys then Ok(t)
    else if actor !in t.users then Err(Invalid)
    else if KeySlot(name, 1) in t.versions then Err(Conflict)
    else Ok(Inserted(t, name, ALL_PERMISSIONS, actor, draw))
  }

  /** CreateTransitKey, once its permission map is reduced to the four flags. */
  function CreateTransitKey(t: Tables, rawName: string, permissions: Permissions, actor: Id, draw: KeyDraw)
    : Result<Tables>
  {
    var name := TrimSpace(rawName);
    if !ValidName(name) then Err(Invalid)
    else if name in t.keys || KeySlot(name, 1) in t.versions then Err(Conflict)
    else if actor !in t.users then Err(Invalid)
    else Ok(Inserted(t, name, permissions, actor, draw))
  }

  function RotateTransitKey(t: Tables, name: string, draw: KeyDraw): Result<Tables> {
    if name !in t.keys || t.keys[name].createdBy !in t.users then Err(NotFound)
    else
      var version := t.keys[name].version + 1;
      var slot := KeySlot(name, version);
      if slot in t.versions then Err(Conflict)
      else
        var w := Wrap(t.master, name, version, draw);
        Ok(t.(versions := t.versions[slot := w],
              keys := t.keys[name := t.keys[name].(version := version, current := w)]))
  }

  function UpdateTransitPermissions(t: Tables, name: string, permissions: Permissions): Result<Tables> {
    if name !in t.keys then Err(NotFound)
    else Ok(t.(keys := t.keys[name := t.keys[name].(permissions := permissions)]))
  }

  datatype Step =
    | InsertStep(name: string, actor: Id, draw: KeyDraw)
    | CreateStep(name: string, permissions: Permissions, actor: Id, draw: KeyDraw)
    | RotateStep(name: string, draw: KeyDraw)
    | PermitStep(name: string, permissions: Permissions)
    | AddUserStep(user: Id)
    | Aborted

  function Apply(t: Tables, step: Step): Result<Tables> {
    match step
    case InsertStep(name, actor, draw) => InsertIfAbsent(t, name, actor, draw)
    case CreateStep(name, permissions, actor, draw) => CreateTransitKey(t, name, permissions, actor, draw)
    case RotateStep(name, draw) => RotateTransitKey(t, name, draw)
    case PermitStep(name, permissions) => UpdateTransitPermissions(t, name, permissions)
    case AddUserStep(user) => Ok(t.(users := t.users + {user}))
    case Aborted => Err(Serialization)
  }

  function Exec(t: Tables, step: Step): Tables {
    match Apply(t, step) case Ok(after) => after case Err(_) => t
  }

  function ExecAll(t: Tables, steps: seq<Step>): Tables {
    if steps == [] then t else Exec(ExecAll(t, steps[..|steps| - 1]), steps[|steps| - 1])
  }

  function Start(master: Key): Tables { Tables(master, {}, map[], map[]) }

  // ----- Invariant -----

  /** Every name has exactly the versions 1..version, and names none besides. */
  ghost predicate SlotsOk(t: Tables) {
    forall slot :: slot in t.versions <==> slot.name in t.keys && 1 <= slot.version <= t.keys[slot.name].version
  }

  /** The key row repeats its current version. */
  predicate CurrentOk(t: Tables, name: string)
    requires name in t.keys
  {
    var slot := KeySlot(name, t.keys[name].version);
    slot in t.versions && t.versions[slot] == t.keys[name].current && t.keys[name].version >= 1
  }

  ghost predicate Inv(t: Tables) {
    && SlotsOk(t)
    && (forall name <- t.keys :: CurrentOk(t, name))
    && (forall slot <- t.versions :: Unwrap(t.master, slot.name, slot.version, t.versions[slot]).Ok?)
  }

  /** Stored key versions never change and never disappear. */
  ghost predicate Keeps(before: Tables, after: Tables) {
    && after.master == before.master
    && (forall slot <- before.versions :: slot in after.versions && after.versions[slot] == before.versions[slot])
    && (forall name <- before.keys :: name in after.keys && after.keys[name].version >= before.keys[name].version)
  }

  /** A new newest version of one name, with every other row as it was. */
  ghost predicate Extends(t: Tables, after: Tables, name: string, draw: KeyDraw) {
    && name in after.keys
    && var version := after.keys[name].version;
    && version == 1 + (if name in t.keys then t.keys[name].version else 0)
    && after.master == t.master
    && after.keys == t.keys[name := after.keys[name]]
    && after.keys[name].current == Wrap(t.master, name, version, draw)
    && after.versions == t.versions[KeySlot(name, version) := Wrap(t.master, name, version, draw)]
  }

  lemma ExtensionKeepsSlots(t: Tables, after: Tables, name: string, draw: KeyDraw)
    requires SlotsOk(t) && Extends(t, after, name, draw)
    ensures SlotsOk(after)
    ensures KeySlot(name, after.keys[name].version) !in t.versions
  {
  }

  lemma ExtensionUnwraps(t: Tables, after: Tables, name: string, draw: KeyDraw)
    requires Inv(t) && Extends(t, after, name, draw)
    ensures forall slot <- after.versions :: Unwrap(after.master, slot.name, slot.version, after.versions[slot]).Ok?
  {
    var version := after.keys[name].version;
    assert Unwrap(t.master, name, version, Wrap(t.master, name, version, draw)).Ok?;
  }

  lemma ExtensionKeepsCurrent(t: Tables, after: Tables, name: string, draw: KeyDraw)
    requires Inv(t) && Extends(t, after, name, draw)
    ensures forall other <- after.keys :: CurrentOk(after, other)
  {
    ExtensionKeepsSlots(t, after, name, draw);
    forall other <- after.keys ensures CurrentOk(after, other) {
      if other != name { assert CurrentOk(t, other); }
    }
  }

  lemma ExtensionKeeps(t: Tables, after: Tables, name: string, draw: KeyDraw)
    requires Inv(t) && Extends(t, after, name, draw)
    ensures Inv(after) && Keeps(t, after)
  {
    ExtensionKeepsSlots(t, after, name, draw);
    ExtensionKeepsCurrent(t, after, name, draw);
    ExtensionUnwraps(t, after, name, draw);
  }

  lemma InsertKeeps(t: Tables, name: string, permissions: Permissions, actor: Id, draw: KeyDraw)
    requires Inv(t) && name !in t.keys
    ensures KeySlot(name, 1) !in t.versions
    ensures var after := Inserted(t, name, permissions, actor, draw); Inv(after) && Keeps(t, after)
  {
    ExtensionKeeps(t, Inserted(t, name, permissions, actor, draw), name, draw);
  }

  lemma RotateKeeps(t: Tables, name: string, draw: KeyDraw)
    requires Inv(t) && RotateTransitKey(t, name, draw).Ok?
    ensures var after := RotateTransitKey(t, name, draw).value; Inv(after) && Keeps(t, after)
  {
    ExtensionKeeps(t, RotateTransitKey(t, name, draw).value, name, draw);
  }

  lemma PermitKeeps(t: Tables, name: string, permissions: Permissions)
    requires Inv(t) && name in t.keys
    ensures var after := UpdateTransitPermissions(t, name, permissions).value; Inv(after) && Keeps(t, after)
  {
    var after := UpdateTransitPermissions(t, name, permissions).value;
    forall other <- after.keys ensures CurrentOk(after, other) { assert CurrentOk(t, other); }
  }

  lemma StepKeeps(t: Tables, step: Step)
    requires Inv(t)
    ensures Inv(Exec(t, step)) && Keeps(t, Exec(t, step))
  {
    if Apply(t, step).Ok? {
      match step {
        case InsertStep(name, actor, draw) =>
          if name !in t.keys { InsertKeeps(t, name, ALL_PERMISSIONS, actor, draw); }
        case CreateStep(name, permissions, actor, draw) => InsertKeeps(t, TrimSpace(name), permissions, actor, draw);
        case RotateStep(name, draw) => RotateKeeps(t, name, draw);
        case PermitStep(name, permissions) => PermitKeeps(t, name, permissions);
        case AddUserStep(_) =>
          assert forall name <- t.keys :: CurrentOk(t, name) && CurrentOk(Exec(t, step), name);
        case Aborted =>
      }
    }
  }

  lemma {:induction false} RunKeeps(t: Tables, steps: seq<Step>)
    requires Inv(t)
    ensures Inv(ExecAll(t, steps)) && Keeps(t, ExecAll(t, steps))
  {
    if steps != [] {
      RunKeeps(t, steps[..|steps| - 1]);
      StepKeeps(ExecAll(t, steps[..|steps| - 1]), steps[|steps| - 1]);
    }
  }

  /** So every state of every run from an empty database satisfies the invariant. */
  lemma StartInv(master: Key)
    ensures Inv(Start(master))
  {
  }

  lemma RunFromStart(master: Key, steps: seq<Step>)
    ensures Inv(ExecAll(Start(master), steps))
  {
    StartInv(master);
    RunKeeps(Start(master), steps);
  }

  // ----- Loading a key -----

  /** The join of transit_keys with transit_key_versions; version 0 asks for the current one. */
  function Load(t: Tables, name: string, requested: nat): Result<(nat, Key)> {
    if name !in t.keys then Err(NotFound)
    else
      var version := if requested == 0 then t.keys[name].version else requested;
      if KeySlot(name, version) !in t.versions then Err(NotFound)
      else
        var key :- Unwrap(t.master, name, version, t.versions[KeySlot(name, version)]);
        Ok((version, key))
  }

  class TransitStore {
    const master: Key
    var users: set<Id>
    var keys: map<string, TransitKey>
    var versions: map<KeySlot, Wrapped>

    function State(): Tables
      reads this
    {
      Tables(master, users, keys, versions)
    }

    constructor (master: Key)
      ensures State() == Start(master)
    {
      this.master := master;
      users, keys, versions := {}, map[], map[];
    }

    method LoadKey(name: string, requested: nat) returns (r: Result<(nat, Key)>)
      ensures r == Load(State(), name, requested)
    {
      if name !in keys { return Err(NotFound); }
      var version := if requested == 0 then keys[name].version else requested;
      if KeySlot(name, version) !in versions { return Err(NotFound); }
      var key := Unwrap(master, name, version, versions[KeySlot(name, version)]);
      if key.Err? { return Err(key.error); }
      return Ok((version, key.value));
    }

    method InsertKeyTx(name: string, permissions: Permissions, actor: Id, draw: KeyDraw)
      requires name !in keys && KeySlot(name, 1) !in versions
      modifies this`keys, this`versions
      ensures State() == Inserted(old(State()), name, permissions, actor, draw)
    {
      var w := Wrap(master, name, 1, draw);
      keys := keys[name := TransitKey(1, w, permissions, actor)];
      versions := versions[KeySlot(name, 1) := w];
    }

    method Rotate(name: string, draw: KeyDraw) returns (r: Result<()>)
      modifies this`keys, this`versions
      ensures State() == Exec(old(State()), RotateStep(name, draw))
      ensures r.Ok? <==> Apply(old(State()), RotateStep(name, draw)).Ok?
    {
      if name !in keys || keys[name].createdBy !in users { return Err(NotFound); }
      var version := keys[name].version + 1;
      var w := Wrap(master, name, version, draw);
      if KeySlot(name, version) in versions { return Err(Conflict); }
      versions := versions[KeySlot(name, version) := w];
      keys := keys[name := keys[name].(version := version, current := w)];
      return Ok(());
    }

    method Perform(step: Step)
      modifies this
      ensures State() == Exec(old(State()), step)
    {
      match step {
        case InsertStep(name, actor, draw) =>
          if name !in keys && actor in users && KeySlot(name, 1) !in versions {
            InsertKeyTx(name, ALL_PERMISSIONS, actor, draw);
          }
        case CreateStep(rawName, permissions, actor, draw) =>
          var name := TrimSpace(rawName);
          if ValidName(name) && name !in keys && KeySlot(name, 1) !in versions && actor in users {
            InsertKeyTx(name, permissions, actor, draw);
          }
        case RotateStep(name, draw) => var _ := Rotate(name, draw);
        case PermitStep(name, permissions) =>
          if name in keys { keys := keys[name := keys[name].(permissions := permissions)]; }
        case AddUserStep(user) => users := users + {user};
        case Aborted =>
      }
    }

    method PerformAll(steps: seq<Step>)
      modifies this
      ensures State() == ExecAll(old(State()), steps)
    {
      for i := 0 to |steps|
        invariant State() == ExecAll(old(State()), steps[..i])
      {
        assert steps[..i + 1][..i] == steps[..i];
        Perform(steps[i]);
      }
      assert steps[..|steps|] == steps;
    }

    /** The creating transaction of transitKey, after whatever other clients committed
        since the key was found missing; fault says the database aborts it. */
    method CreateTx(name: string, actor: Id, draw: KeyDraw, rivals: seq<Step>, fault: bool) returns (r: Result<()>)
      requires Inv(State())
      modifies this
      ensures Inv(State()) && Keeps(old(State()), State())
      ensures r.Ok? ==> name in keys
      ensures !fault && actor in old(users) ==> r.Ok?
    {
      RunKeeps(State(), rivals);
      UsersKept(State(), rivals, actor);
      PerformAll(rivals);
      if fault { return Err(Serialization); }
      if name !in keys {
        if actor !in users { return Err(Invalid); }
        InsertKeeps(State(), name, ALL_PERMISSIONS, actor, draw);
        InsertKeyTx(name, ALL_PERMISSIONS, actor, draw);
      }
      return Ok(());
    }

    /** transitKey, with the transactions other clients commit between its three steps. A
        creator that loses the race uses the winner's key: what is returned is always the
        stored current version. */
    method TransitKeyFor(name: string, requested: nat, actor: Id, create: bool, draw: KeyDraw,
                         first: seq<Step>, second: seq<Step>, fault: bool) returns (r: Result<(nat, Key)>)
      requires Inv(State())
      modifies this
      ensures Inv(State()) && Keeps(old(State()), State())
      ensures Load(old(State()), name, requested).Ok? ==>
        r == Load(old(State()), name, requested) && State() == old(State())
      ensures r.Ok? && Load(old(State()), name, requested).Err? ==> create && r == Load(State(), name, 0)
      ensures Load(old(State()), name, requested).Err? && (!create || actor == "") ==>
        r == Err(NotFound) && State() == old(State())
      ensures Load(old(State()), name, requested).Err? && create && actor != "" && !fault && actor in old(users) ==>
        r.Ok?
    {
      r := LoadKey(name, requested);
      if r.Ok? { return; }
      LoadFailsNotFound(State(), name, requested);
      if !create || actor == "" { return Err(NotFound); }
      var created := CreateTx(name, actor, draw, first, fault);
      if created.Err? { return Err(created.error); }
      RunKeeps(State(), second);
      PerformAll(second);
      r := LoadKey(name, 0);
    }

    /** TransitEncrypt: under the stored current key, and what it returns decrypts, then and
        in every later state, to the bytes it was given. It fails only on a bad name, bad
        base64, or when it has to create the key and may not. */
    method TransitEncrypt(wire: Wire, name: string, plaintext64: string, actor: Id, draw: KeyDraw, nonce: Nonce,
                          first: seq<Step>, second: seq<Step>, fault: bool) returns (r: Result<string>)
      requires Ideal(wire) && Inv(State())
      modifies this
      ensures Inv(State()) && Keeps(old(State()), State())
      ensures !ValidName(name) || Decode64(plaintext64, true).None? ==> r == Err(Invalid) && State() == old(State())
      ensures r.Ok? ==> r == EncryptWith(wire, name, plaintext64, Load(State(), name, 0), nonce)
      ensures (ValidName(name) && Decode64(plaintext64, true).Some? &&
               (Load(old(State()), name, 0).Ok? || (actor != "" && !fault && actor in old(users)))) ==> r.Ok?
      ensures r.Ok? ==> Load(State(), name, 0).Ok?
      ensures r.Ok? && Load(State(), name, 0).value.0 <= MAX_INT ==>
        forall steps :: Decrypt(wire, ExecAll(State(), steps), name, r.value)
                     == Ok(Encode64(Decode64(plaintext64, true).value, true))
    {
      if !ValidName(name) { return Err(Invalid); }
      var plaintext := Decode64(plaintext64, true);
      if plaintext.None? { return Err(Invalid); }
      var key := TransitKeyFor(name, 0, actor, true, draw, first, second, fault);
      if key.Err? { return Err(key.error); }
      r := Ok(Ciphertext(wire, name, key.value.0, key.value.1, nonce, plaintext.value));
      if key.value.0 <= MAX_INT {
        forall steps
          ensures Decrypt(wire, ExecAll(State(), steps), name, r.value) == Ok(Encode64(plaintext.value, true))
        {
          TransitRoundTrip(wire, State(), steps, name, plaintext64, nonce);
        }
      }
    }
  }

  lemma LoadFailsNotFound(t: Tables, name: string, requested: nat)
    requires Inv(t) && Load(t, name, requested).Err?
    ensures Load(t, name, requested) == Err(NotFound)
  {
  }

  lemma {:induction false} UsersKept(t: Tables, steps: seq<Step>, user: Id)
    ensures user in t.users ==> user in ExecAll(t, steps).users
  {
    if steps != [] { UsersKept(t, steps[..|steps| - 1], user); }
  }

  // ----- Ciphertexts -----

  /** How sealed values appear as bytes. */
  datatype Wire = Wire(bytes: Sealed<Bytes> -> Bytes, read: Bytes -> Sealed<Bytes>)

  const TAG_SIZE: nat := 16

  /** An ideal AEAD: the ciphertext bytes, which include the tag, determine what was
      sealed; bytes nobody sealed read as something that opens nowhere. */
  ghost predicate Ideal(wire: Wire) {
    forall box: Sealed<Bytes> :: box.Sealed? ==> wire.read(wire.bytes(box)) == box && |wire.bytes(box)| >= TAG_SIZE
  }

  predicate ValidName(name: string) { ValidPath(name) && '/' !in name }

  function Ciphertext(wire: Wire, name: string, version: nat, key: Key, nonce: Nonce, plaintext: Bytes): string {
    var box := Sealed(key, nonce, Aad(TransitContext(name, version)), plaintext);
    Assemble(version, nonce + wire.bytes(box))
  }

  /** "vault:v<version>:<payload>". */
  function Assemble(version: nat, payload: Bytes): string {
    "vault" + [':'] + (Token(version) + [':'] + Encode64(payload, false))
  }

  /** TransitEncrypt once its key is loaded. */
  function EncryptWith(wire: Wire, name: string, plaintext64: string, loaded: Result<(nat, Key)>, nonce: Nonce)
    : Result<string>
  {
    if !ValidName(name) then Err(Invalid)
    else match Decode64(plaintext64, true)
      case None => Err(Invalid)
      case Some(plaintext) =>
        var key :- loaded;
        Ok(Ciphertext(wire, name, key.0, key.1, nonce, plaintext))
  }

  /** TransitDecrypt. */
  function Decrypt(wire: Wire, t: Tables, name: string, encoded: string): Result<string> {
    match SplitThree(encoded, ':')
    case None => Err(Invalid)
    case Some((scheme, token, body)) =>
      if scheme != "vault" then Err(Invalid)
      else match (StrictVersion(token), Decode64(body, false))
        case (Some(version), Some(payload)) =>
          if |payload| <= NONCE_SIZE then Err(Invalid)
          else
            var key :- Load(t, name, version);
            var aad := Aad(TransitContext(name, version));
            (match Open(wire.read(payload[NONCE_SIZE..]), key.1, payload[..NONCE_SIZE], aad)
            case Ok(plaintext) => Ok(Encode64(plaintext, true))
            case Err(_) => Err(Invalid))
        case _ => Err(Invalid)
  }

  /** A well-formed ciphertext is decrypted with the named key's row of its version. */
  lemma DecryptAssembled(wire: Wire, t: Tables, name: string, version: nat, payload: Bytes)
    requires 1 <= version <= MAX_INT && |payload| > NONCE_SIZE
    ensures Decrypt(wire, t, name, Assemble(version, payload)) ==
      match Load(t, name, version)
      case Err(error) => Err(error)
      case Ok(key) =>
        match Open(wire.read(payload[NONCE_SIZE..]), key.1, payload[..NONCE_SIZE], Aad(TransitContext(name, version)))
        case Ok(plaintext) => Ok(Encode64(plaintext, true))
        case Err(_) => Err(Invalid)
  {
    assert ':' !in "vault" && ':' !in Token(version);
    SplitThreeOfJoin("vault", Token(version), Encode64(payload, false), ':');
    StrictVersionExact(Token(version), version);
    Base64RoundTrip(payload, false);
  }

  /** Whatever was encrypted decrypts to the same bytes in every later state: after any
      rotations, permission changes, and creations by anybody. */
  lemma TransitRoundTrip(wire: Wire, t: Tables, steps: seq<Step>, name: string, plaintext64: string, nonce: Nonce)
    requires Ideal(wire) && Inv(t) && EncryptWith(wire, name, plaintext64, Load(t, name, 0), nonce).Ok?
    requires Load(t, name, 0).value.0 <= MAX_INT
    ensures Decode64(plaintext64, true).Some?
    ensures Decrypt(wire, ExecAll(t, steps), name, EncryptWith(wire, name, plaintext64, Load(t, name, 0), nonce).value)
         == Ok(Encode64(Decode64(plaintext64, true).value, true))
  {
    RunKeeps(t, steps);
    var (version, key) := Load(t, name, 0).value;
    var plaintext := Decode64(plaintext64, true).value;
    var box := Sealed(key, nonce, Aad(TransitContext(name, version)), plaintext);
    var payload: Bytes := nonce + wire.bytes(box);
    assert payload[..NONCE_SIZE] == nonce && payload[NONCE_SIZE..] == wire.bytes(box);
    assert CurrentOk(t, name) && KeySlot(name, version) in t.versions;
    DecryptAssembled(wire, ExecAll(t, steps), name, version, payload);
  }

  /** The same payload offered under any other key name, or with any other version in its
      token, is refused in every state. */
  lemma TransitRefusesOtherContext(wire: Wire, t: Tables, name: string, version: nat, key: Key, nonce: Nonce,
                                   plaintext: Bytes, other: string, otherVersion: nat)
    requires Ideal(wire) && Inv(t)
    requires 1 <= otherVersion <= MAX_INT && (other != name || otherVersion != version)
    ensures var box := Sealed(key, nonce, Aad(TransitContext(name, version)), plaintext);
            Decrypt(wire, t, other, Assemble(otherVersion, nonce + wire.bytes(box))).Err?
  {
    var box := Sealed(key, nonce, Aad(TransitContext(name, version)), plaintext);
    var payload: Bytes := nonce + wire.bytes(box);
    assert payload[..NONCE_SIZE] == nonce && payload[NONCE_SIZE..] == wire.bytes(box);
    DecryptAssembled(wire, t, other, otherVersion, payload);
    if Load(t, other, otherVersion).Ok? {
      OpensOnlyInItsContext(box, TransitContext(name, version), TransitContext(other, otherVersion),
                            Load(t, other, otherVersion).value.1, nonce);
    }
  }

  /** After a rotation the new key is the one that encryption loads, and every older
      version still reads as before. */
  lemma RotationTakesEffect(t: Tables, name: string, draw: KeyDraw)
    requires Inv(t)
    ensures RotateTransitKey(t, name, draw).Ok? <==> name in t.keys && t.keys[name].createdBy in t.users
    ensures RotateTransitKey(t, name, draw).Ok? ==>
      var after := RotateTransitKey(t, name, draw).value;
      && Load(after, name, 0) == Ok((t.keys[name].version + 1, draw.key))
      && forall version: nat :: 1 <= version <= t.keys[name].version ==>
           Load(after, name, version) == Load(t, name, version) && Load(t, name, version).Ok?
  {
    if name in t.keys { assert CurrentOk(t, name); }
    if RotateTransitKey(t, name, draw).Ok? {
      RotateKeeps(t, name, draw);
      var after := RotateTransitKey(t, name, draw).value;
      forall version: nat | 1 <= version <= t.keys[name].version
        ensures Load(after, name, version) == Load(t, name, version) && Load(t, name, version).Ok?
      {
        assert KeySlot(name, version) in t.versions;
      }
    }
  }

  /** A rotation changes no permission, no creator and no other key. */
  lemma RotationKeepsTheRest(t: Tables, name: string, draw: KeyDraw)
    requires name in t.keys && RotateTransitKey(t, name, draw).Ok?
    ensures var after, was := RotateTransitKey(t, name, draw).value.keys, t.keys[name];
            && after.Keys == t.keys.Keys && (forall other <- t.keys :: other != name ==> after[other] == t.keys[other])
            && after[name].version == was.version + 1
            && after[name].permissions == was.permissions && after[name].createdBy == was.createdBy
  {
  }

  /** Two creators racing on a new name end up with the same key for the same version, in
      whatever later states they reload it. */
  lemma RacersShareTheKey(t: Tables, first: seq<Step>, second: seq<Step>, name: string, version: nat)
    requires Inv(t) && Load(ExecAll(t, first), name, version).Ok? && version >= 1
    ensures Load(ExecAll(ExecAll(t, first), second), name, version) == Load(ExecAll(t, first), name, version)
  {
    RunKeeps(t, first);
    RunKeeps(ExecAll(t, first), second);
  }

  // ----- The format, and what is refused -----

  /** A ciphertext reads vault:v<version>:<payload>, in decimal and raw base64. */
  lemma CiphertextIs(version: nat, payload: Bytes)
    ensures Assemble(version, payload) == "vault:v" + Decimal(version) + ":" + Encode64(payload, false)
  {
    Joined(Decimal(version), Encode64(payload, false));
  }

  lemma Joined(number: string, body: string)
    ensures "vault" + [':'] + ("v" + number + [':'] + body) == "vault:v" + number + ":" + body
  {
    assert "vault:v" == "vault" + [':'] + "v";
  }

  /** What decryption accepts: three fields, the scheme, the exact version token, a payload in
      raw base64 longer than a nonce, an existing key version, and a box that opens under it. */
  lemma DecryptAcceptsOnly(wire: Wire, t: Tables, name: string, encoded: string)
    requires Decrypt(wire, t, name, encoded).Ok?
    ensures SplitThree(encoded, ':').Some?
    ensures var (scheme, token, body) := SplitThree(encoded, ':').value;
            && scheme == "vault" && StrictVersion(token).Some? && Decode64(body, false).Some?
            && var (version, payload) := (StrictVersion(token).value, Decode64(body, false).value);
            && |payload| > 12 && name in t.keys && KeySlot(name, version) in t.versions
            && Load(t, name, version).Ok?
            && var r := Open(wire.read(payload[12..]), Load(t, name, version).value.1, payload[..12],
                             Aad(TransitContext(name, version)));
            && r.Ok? && Decrypt(wire, t, name, encoded) == Ok(Encode64(r.value, true))
  {
  }

  lemma LoadRefusals(t: Tables, name: string, version: nat)
    requires Inv(t) && version >= 1 && Load(t, name, version).Err?
    ensures Load(t, name, version) == Err(NotFound) && KeySlot(name, version) !in t.versions
  {
  }

  /** An unknown key or version is not found; everything else that is refused is invalid. */
  lemma DecryptRefusals(wire: Wire, t: Tables, name: string, encoded: string)
    requires Inv(t) && Decrypt(wire, t, name, encoded).Err? && Decrypt(wire, t, name, encoded) != Err(Invalid)
    ensures Decrypt(wire, t, name, encoded) == Err(NotFound)
    ensures SplitThree(encoded, ':').Some? && StrictVersion(SplitThree(encoded, ':').value.1).Some? &&
      KeySlot(name, StrictVersion(SplitThree(encoded, ':').value.1).value) !in t.versions
  {
    var version := StrictVersion(SplitThree(encoded, ':').value.1).value;
    LoadRefusals(t, name, version);
  }

  /** A key is created at version 1, with the permissions given, if its trimmed name is a
      valid path without a slash and free, and its creator exists; encryption then loads it. */
  lemma CreationExactly(t: Tables, rawName: string, permissions: Permissions, actor: Id, draw: KeyDraw)
    requires Inv(t)
    ensures var name := TrimSpace(rawName);
            var r := CreateTransitKey(t, rawName, permissions, actor, draw);
            && (r.Ok? <==> ValidPath(name) && '/' !in name && name !in t.keys && actor in t.users)
            && (ValidPath(name) && '/' !in name && name in t.keys ==> r == Err(Conflict))
            && (!ValidPath(name) || '/' in name || (name !in t.keys && actor !in t.users) ==> r == Err(Invalid))
            && (r.Ok? ==> name in r.value.keys && r.value.keys[name].version == 1
                          && r.value.keys[name].permissions == permissions && r.value.keys[name].createdBy == actor
                          && Load(r.value, name, 0) == Ok((1, draw.key)))
  {
    var name := TrimSpace(rawName);
    if name !in t.keys { InsertKeeps(t, name, permissions, actor, draw); }
  }

  /** The key a first encryption makes has all four permissions; an existing one stays. */
  lemma FirstUseCreates(t: Tables, name: string, actor: Id, draw: KeyDraw)
    requires Inv(t)
    ensures name in t.keys ==> InsertIfAbsent(t, name, actor, draw) == Ok(t)
    ensures name !in t.keys && actor !in t.users ==> InsertIfAbsent(t, name, actor, draw) == Err(Invalid)
    ensures name !in t.keys && actor in t.users ==>
      var r := InsertIfAbsent(t, name, actor, draw);
      && r.Ok? && name in r.value.keys && r.value.keys[name].version == 1
      && r.value.keys[name].permissions == Permissions(true, true, true, true) && r.value.keys[name].createdBy == actor
      && Load(r.value, name, 0) == Ok((1, draw.key))
  {
    if name !in t.keys { InsertKeeps(t, name, ALL_PERMISSIONS, actor, draw); }
  }

  /** A user that was added can create keys from then on, and adding one touches no key. */
  lemma AddedUserCreates(t: Tables, user: Id, name: string, permissions: Permissions, draw: KeyDraw)
    requires Inv(t) && ValidPath(name) && '/' !in name && name !in t.keys
    ensures var after := Exec(t, AddUserStep(user));
            && after == t.(users := {user} + t.users)
            && CreateTransitKey(after, name, permissions, user, draw).Ok?
  {
    assert {user} + t.users == t.users + {user};
    ValidPathTrimmed(name);
  }

  /** Editing the permissions of a key changes nothing else. */
  lemma PermissionsExactly(t: Tables, name: string, permissions: Permissions)
    ensures name !in t.keys ==> UpdateTransitPermissions(t, name, permissions) == Err(NotFound)
    ensures name in t.keys ==>
      var r := UpdateTransitPermissions(t, name, permissions);
      && r.Ok? && r.value.versions == t.versions && r.value.users == t.users && r.value.master == t.master
      && r.value.keys.Keys == t.keys.Keys && r.value.keys[name].permissions == permissions
      && (forall other <- t.keys :: other != name ==> r.value.keys[other] == t.keys[other])
      && r.value.keys[name]
         == TransitKey(t.keys[name].version, t.keys[name].current, permissions, t.keys[name].createdBy)
  {
  }
}
