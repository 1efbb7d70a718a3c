/** AES-GCM as an ideal cipher: a sealed value remembers what it was sealed with
    and opens only under the same key, nonce and additional data. */
module Aead {
  import opened Wrappers
  import opened Text

  type byte = b: int | 0 <= b < 256
  type Bytes = seq<byte>

  /** A 32-byte key, named by the random draw that produced it. */
  type Key = nat

  const NONCE_SIZE: nat := 12

  /** A nonce drawn by Encrypt. */
  type Nonce = n: Bytes | |n| == NONCE_SIZE witness seq(NONCE_SIZE, _ => 0)

  /** A ciphertext column; Empty is the blank bytea a destroyed version holds. */
  datatype Sealed<T> = Empty | Sealed(key: Key, nonce: Nonce, aad: string, plaintext: T)

  function Open<T>(c: Sealed<T>, key: Key, nonce: Bytes, aad: string): Result<T> {
    if |nonce| == NONCE_SIZE && c.Sealed? && c.key == key && c.nonce == nonce && c.aad == aad
    then Ok(c.plaintext) else Err(Authentication)
  }

  /** Everything the program seals, with the additional data it prints for it. */
  datatype Context =
    | UserKeyContext(user: string, version: nat)
    | SecretContext(secret: string, version: nat)
    | TransitKeyContext(name: string, version: nat)
    | TransitContext(name: string, version: nat)
    | ApprovalContext(id: string)
    | SettingContext(key: string)
    | OidcStateContext
    | SentinelContext

  function Kind(c: Context): string {
    match c
    case UserKeyContext(_, _) => "user-key"
    case SecretContext(_, _) => "secret"
    case TransitKeyContext(_, _) => "transit-key"
    case TransitContext(_, _) => "transit"
    case ApprovalContext(_) => "approval"
    case SettingContext(_) => "setting"
    case OidcStateContext => "oidc-state"
    case SentinelContext => "master-key-sentinel"
  }

  function Body(c: Context): string {
    match c
    case UserKeyContext(user, version) => user + ":" + Decimal(version)
    case SecretContext(secret, version) => secret + ":" + Decimal(version)
    case TransitKeyContext(name, version) => name + ":" + ("v" + Decimal(version))
    case TransitContext(name, version) => name + ":" + ("v" + Decimal(version))
    case ApprovalContext(id) => id
    case SettingContext(key) => key
    case OidcStateContext => "v1"
    case SentinelContext => ""
  }

  /** The printed additional data, such as "secret:<id>:<version>" or
      "transit:<name>:v<version>". */
  function Aad(c: Context): string {
    if c.SentinelContext? then Kind(c) else Kind(c) + ":" + Body(c)
  }

  lemma NumberedInjective(name: string, mark: string, version: nat, name': string, version': nat)
    requires ':' !in mark
    requires name + ":" + (mark + Decimal(version)) == name' + ":" + (mark + Decimal(version'))
    ensures name == name' && version == version'
  {
    SplitUnique(name, mark + Decimal(version), name', mark + Decimal(version'), ':');
    assert Decimal(version) == (mark + Decimal(version))[|mark|..];
    assert Decimal(version') == (mark + Decimal(version'))[|mark|..];
    DecimalInjective(version, version');
  }

  lemma BodyInjective(c: Context, d: Context)
    requires Kind(c) == Kind(d) && Body(c) == Body(d)
    ensures c == d
  {
    match c {
      case UserKeyContext(user, version) =>
        assert forall n: nat :: "" + Decimal(n) == Decimal(n);
        NumberedInjective(user, "", version, d.user, d.version);
      case SecretContext(secret, version) =>
        assert forall n: nat :: "" + Decimal(n) == Decimal(n);
        NumberedInjective(secret, "", version, d.secret, d.version);
      case TransitKeyContext(name, version) => NumberedInjective(name, "v", version, d.name, d.version);
      case TransitContext(name, version) => NumberedInjective(name, "v", version, d.name, d.version);
      case _ =>
    }
  }

  lemma PrintedKind(c: Context)
    ensures ':' !in Kind(c)
    ensures c.SentinelContext? <==> ':' !in Aad(c)
  {
    if !c.SentinelContext? { assert Aad(c)[|Kind(c)|] == ':'; }
  }

  /** Distinct contexts print distinct additional data, whatever the names contain:
      ciphertexts can be moved neither between rows nor between tables. */
  lemma AadInjective(c: Context, d: Context)
    requires Aad(c) == Aad(d)
    ensures c == d
  {
    PrintedKind(c);
    PrintedKind(d);
    if !c.SentinelContext? {
      SplitUnique(Kind(c), Body(c), Kind(d), Body(d), ':');
      BodyInjective(c, d);
    }
  }

  /** A ciphertext sealed for one context never authenticates in another. */
  lemma OpensOnlyInItsContext<T>(c: Sealed<T>, made: Context, used: Context, key: Key, nonce: Bytes)
    requires c.Sealed? && c.aad == Aad(made)
    ensures Open(c, key, nonce, Aad(used)).Ok? <==> made == used && c.key == key && c.nonce == nonce
  {
    if Aad(made) == Aad(used) { AadInjective(made, used); }
  }

  lemma Printed(kind: string, colon: string, id: string, mark: string, number: string)
    requires colon == kind + ":"
    ensures kind + ":" + (id + ":" + (mark + number)) == colon + id + ":" + mark + number
    ensures kind + ":" + (id + ":" + number) == colon + id + ":" + number
  {
  }

  /** The additional data of user keys and of versions, as the program prints it. */
  lemma KeyAndSecretAad(id: string, version: nat)
    ensures Aad(UserKeyContext(id, version)) == "user-key:" + id + ":" + Decimal(version)
    ensures Aad(SecretContext(id, version)) == "secret:" + id + ":" + Decimal(version)
  {
    Printed("user-key", "user-key:", id, "", Decimal(version));
    Printed("secret", "secret:", id, "", Decimal(version));
  }

  /** And that of transit keys and their ciphertexts. */
  lemma TransitAad(id: string, version: nat)
    ensures Aad(TransitKeyContext(id, version)) == "transit-key:" + id + ":" + "v" + Decimal(version)
    ensures Aad(TransitContext(id, version)) == "transit:" + id + ":" + "v" + Decimal(version)
  {
    Printed("transit-key", "transit-key:", id, "v", Decimal(version));
    Printed("transit", "transit:", id, "v", Decimal(version));
  }

  lemma OtherAad(id: string)
    ensures Aad(ApprovalContext(id)) == "approval:" + id && Aad(SettingContext(id)) == "setting:" + id
    ensures Aad(OidcStateContext) == "oidc-state:v1" && Aad(SentinelContext) == "master-key-sentinel"
  {
    assert "approval" + ":" == "approval:" && "setting" + ":" == "setting:";
  }
}
