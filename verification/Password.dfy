/** Password hashing: the PBKDF2 loops against section 5.2 of RFC 8018, and the encoded
    hash format. HMAC-SHA-256 is any function with 32-byte results. */
module Password {
  import opened Wrappers
  import opened Text
  import opened Aead
  import opened Codec

  const HASH_LENGTH: nat := 32
  const ITERATIONS: nat := 310_000
  const SALT_SIZE: nat := 16
  const KEY_SIZE: nat := 32

  type Block = b: Bytes | |b| == HASH_LENGTH witness seq(HASH_LENGTH, _ => 0)

  /** HMAC-SHA-256 as a function of key and message. */
  type Prf = (Bytes, Bytes) -> Block

  function Xor(a: byte, b: byte): byte { ((a as bv8) ^ (b as bv8)) as int }

  function XorBlocks(a: Block, b: Block): Block {
    seq(HASH_LENGTH, i requires 0 <= i < HASH_LENGTH => Xor(a[i], b[i]))
  }

  // ----- Section 5.2 of RFC 8018 -----

  /** INT(i): four octets, most significant first. */
  function IntOctets(i: nat): Bytes {
    [i / 0x100_0000 % 0x100, i / 0x1_0000 % 0x100, i / 0x100 % 0x100, i % 0x100]
  }

  function BigEndian(b: Bytes): nat {
    if b == [] then 0 else BigEndian(b[..|b| - 1]) * 0x100 + b[|b| - 1]
  }

  /** U_c for the i-th block. */
  function U(prf: Prf, password: Bytes, salt: Bytes, i: nat, c: nat): Block
    requires c >= 1
  {
    if c == 1 then prf(password, salt + IntOctets(i)) else prf(password, U(prf, password, salt, i, c - 1))
  }

  /** F(P, S, c, i), the exclusive or of U_1 to U_c. */
  function F(prf: Prf, password: Bytes, salt: Bytes, c: nat, i: nat): Block
    requires c >= 1
  {
    if c == 1 then U(prf, password, salt, i, 1)
    else XorBlocks(F(prf, password, salt, c - 1, i), U(prf, password, salt, i, c))
  }

  /** T_1 || ... || T_l. */
  function Blocks(prf: Prf, password: Bytes, salt: Bytes, c: nat, l: nat): (b: Bytes)
    requires c >= 1
    ensures |b| == l * HASH_LENGTH
  {
    if l == 0 then [] else Blocks(prf, password, salt, c, l - 1) + F(prf, password, salt, c, l)
  }

  function BlockCount(length: nat): nat { (length + HASH_LENGTH - 1) / HASH_LENGTH }

  /** The derived key of the given length. */
  function DerivedKey(prf: Prf, password: Bytes, salt: Bytes, c: nat, length: nat): (key: Bytes)
    requires c >= 1
    ensures |key| == length
  {
    Blocks(prf, password, salt, c, BlockCount(length))[..length]
  }

  lemma BigEndianSnoc(b: Bytes, x: byte)
    ensures BigEndian(b + [x]) == BigEndian(b) * 0x100 + x
  {
    assert (b + [x])[..|b|] == b;
  }

  lemma OctetsAddUp(i: nat)
    requires i < 0x1_0000_0000
    ensures var front := i / 0x100_0000 % 0x100 * 0x100 + i / 0x1_0000 % 0x100;
            (front * 0x100 + i / 0x100 % 0x100) * 0x100 + i % 0x100 == i
  {
  }

  /** The block index octets are the big-endian representation the standard asks for. */
  lemma IntOctetsBigEndian(i: nat)
    requires i < 0x1_0000_0000
    ensures BigEndian(IntOctets(i)) == i
  {
    var a: byte, b: byte := i / 0x100_0000 % 0x100, i / 0x1_0000 % 0x100;
    var c: byte, d: byte := i / 0x100 % 0x100, i % 0x100;
    BigEndianSnoc([], a);
    BigEndianSnoc([] + [a], b);
    BigEndianSnoc([] + [a] + [b], c);
    BigEndianSnoc([] + [a] + [b] + [c], d);
    assert IntOctets(i) == [] + [a] + [b] + [c] + [d];
    OctetsAddUp(i);
  }

  // ----- The loops -----

  /** t[j] ^= u[j] for every j. */
  method XorInto(t: array<byte>, u: Block)
    requires t.Length == HASH_LENGTH
    modifies t
    ensures t[..] == XorBlocks(old(t[..]), u)
  {
    for j := 0 to t.Length
      invariant forall k :: 0 <= k < j ==> t[k] == Xor(old(t[k]), u[k])
      invariant forall k :: j <= k < t.Length ==> t[k] == old(t[k])
    {
      t[j] := Xor(t[j], u[j]);
    }
  }

  method DeriveBlock(prf: Prf, password: Bytes, salt: Bytes, iter: nat, block: nat) returns (t: array<byte>)
    requires iter >= 1
    ensures fresh(t) && t.Length == HASH_LENGTH
    ensures t[..] == F(prf, password, salt, iter, block)
  {
    var u := prf(password, salt + IntOctets(block));
    t := new byte[HASH_LENGTH](k requires 0 <= k < HASH_LENGTH => u[k]);
    assert t[..] == u;
    for i := 1 to iter
      invariant u == U(prf, password, salt, block, i)
      invariant t[..] == F(prf, password, salt, i, block)
    {
      u := prf(password, u);
      XorInto(t, u);
    }
  }

  method Pbkdf2(prf: Prf, password: Bytes, salt: Bytes, iter: nat, length: nat) returns (key: Bytes)
    requires iter >= 1
    ensures key == DerivedKey(prf, password, salt, iter, length)
  {
    var blocks := (length + HASH_LENGTH - 1) / HASH_LENGTH;
    var out: Bytes := [];
    for block := 1 to blocks + 1
      invariant out == Blocks(prf, password, salt, iter, block - 1)
    {
      var t := DeriveBlock(prf, password, salt, iter, block);
      out := out + t[..];
    }
    return out[..length];
  }

  lemma {:induction false} BlocksPrefix(prf: Prf, password: Bytes, salt: Bytes, c: nat, k: nat, l: nat)
    requires c >= 1 && k <= l
    ensures Blocks(prf, password, salt, c, k) <= Blocks(prf, password, salt, c, l)
  {
    if k < l { BlocksPrefix(prf, password, salt, c, k, l - 1); }
  }

  /** A shorter derived key is a prefix of a longer one. */
  lemma ShorterKeyIsPrefix(prf: Prf, password: Bytes, salt: Bytes, c: nat, short: nat, long: nat)
    requires c >= 1 && short <= long
    ensures DerivedKey(prf, password, salt, c, short) == DerivedKey(prf, password, salt, c, long)[..short]
  {
    BlocksPrefix(prf, password, salt, c, BlockCount(short), BlockCount(long));
  }

  // ----- The encoded form -----

  const SCHEME := "pbkdf2-sha256"

  datatype Hash = Hash(iter: nat, salt: Bytes, want: Bytes)

  function EncodeFields(iter: nat, salt: Bytes, derived: Bytes): string {
    [] + ['$'] + (SCHEME + ['$'] + (Decimal(iter) + ['$'] + (Encode64(salt, false) + ['$'] + Encode64(derived, false))))
  }

  /** encodeHash. */
  function EncodeHash(prf: Prf, value: Bytes, salt: Bytes): string {
    EncodeFields(ITERATIONS, salt, DerivedKey(prf, value, salt, ITERATIONS, KEY_SIZE))
  }

  function ParseHash(encoded: string): Option<Hash> {
    var parts := Split(encoded, '$');
    if |parts| != 5 || parts[1] != SCHEME then None
    else match (Atoi(parts[2]), Decode64(parts[3], false), Decode64(parts[4], false))
      case (Some(iter), Some(salt), Some(want)) =>
        if 100_000 <= iter <= 2_000_000 && |salt| >= 16 && |want| >= 32 then Some(Hash(iter, salt, want)) else None
      case _ => None
  }

  /** The bytes of "jikim-invalid-account-password" and "jikim-auth-dummy". */
  const DUMMY_PASSWORD: Bytes :=
    [106, 105, 107, 105, 109, 45, 105, 110, 118, 97, 108, 105, 100, 45, 97, 99, 99, 111, 117, 110, 116, 45,
     112, 97, 115, 115, 119, 111, 114, 100]
  const DUMMY_SALT: Bytes := [106, 105, 107, 105, 109, 45, 97, 117, 116, 104, 45, 100, 117, 109, 109, 121]

  /** Verify: a malformed hash costs one derivation against the dummy and is refused. */
  method Verify(prf: Prf, encoded: string, value: Bytes) returns (ok: bool)
    ensures ok <==> Accepts(prf, encoded, value)
  {
    var parsed := ParseHash(encoded);
    var h;
    if parsed.Some? {
      h := parsed.value;
    } else {
      DummyParses(prf, DUMMY_PASSWORD, DUMMY_SALT);
      h := ParseHash(EncodeHash(prf, DUMMY_PASSWORD, DUMMY_SALT)).value;
    }
    var got := Pbkdf2(prf, value, h.salt, h.iter, |h.want|);
    return parsed.Some? && got == h.want;
  }

  lemma DummyParses(prf: Prf, password: Bytes, salt: Bytes)
    requires |salt| >= SALT_SIZE
    ensures ParseHash(EncodeHash(prf, password, salt)).Some?
  {
    ParseInvertsEncode(ITERATIONS, salt, DerivedKey(prf, password, salt, ITERATIONS, KEY_SIZE));
  }

  predicate Accepts(prf: Prf, encoded: string, value: Bytes) {
    match ParseHash(encoded)
    case None => false
    case Some(h) => DerivedKey(prf, value, h.salt, h.iter, |h.want|) == h.want
  }

  lemma SplitCons(a: string, tail: string, parts: seq<string>, sep: char)
    requires sep !in a && Split(tail, sep) == parts
    ensures Split(a + [sep] + tail, sep) == [a] + parts
  {
    SplitFirst(a, tail, sep);
  }

  lemma SplitFive(s: string, c: string, a: string, b: string, sep: char)
    requires sep !in s && sep !in c && sep !in a && sep !in b
    ensures Split([] + [sep] + (s + [sep] + (c + [sep] + (a + [sep] + b))), sep) == [[], s, c, a, b]
  {
    var last := a + [sep] + b;
    SplitFirst(b, [], sep);
    SplitCons(a, b, [b], sep);
    SplitFromThree(s, c, last, [a, b], sep);
  }

  lemma SplitFromThree(s: string, c: string, last: string, parts: seq<string>, sep: char)
    requires sep !in s && sep !in c && Split(last, sep) == parts
    ensures Split([] + [sep] + (s + [sep] + (c + [sep] + last)), sep) == [[], s, c] + parts
  {
    SplitCons(c, last, parts, sep);
    SplitFromTwo(s, c + [sep] + last, [c] + parts, sep);
  }

  lemma SplitFromTwo(s: string, last: string, parts: seq<string>, sep: char)
    requires sep !in s && Split(last, sep) == parts
    ensures Split([] + [sep] + (s + [sep] + last), sep) == [[], s] + parts
  {
    SplitCons(s, last, parts, sep);
    SplitCons([], s + [sep] + last, [s] + parts, sep);
  }

  lemma SplitFields(iter: nat, salt: Bytes, derived: Bytes)
    ensures Split(EncodeFields(iter, salt, derived), '$')
         == ["", SCHEME, Decimal(iter), Encode64(salt, false), Encode64(derived, false)]
  {
    EncodedAlphabet(salt, false);
    EncodedAlphabet(derived, false);
    var a, b, c := Encode64(salt, false), Encode64(derived, false), Decimal(iter);
    assert '$' !in a && '$' !in b && '$' !in c && '$' !in SCHEME;
    SplitFive(SCHEME, c, a, b, '$');
  }

  /** Parsing inverts printing, exactly when the fields are within the accepted bounds. */
  lemma ParseInvertsEncode(iter: nat, salt: Bytes, derived: Bytes)
    requires iter <= MAX_INT
    ensures ParseHash(EncodeFields(iter, salt, derived)) ==
      if 100_000 <= iter <= 2_000_000 && |salt| >= 16 && |derived| >= 32 then Some(Hash(iter, salt, derived)) else None
  {
    SplitFields(iter, salt, derived);
    AtoiOfDecimal(iter);
    Base64RoundTrip(salt, false);
    Base64RoundTrip(derived, false);
  }

  /** A hash made for one password accepts another exactly when their derived keys agree,
      for every salt at least as long as the one Hash draws. */
  lemma VerifyAcceptsSameKey(prf: Prf, value: Bytes, salt: Bytes, other: Bytes)
    requires |salt| >= SALT_SIZE
    ensures Accepts(prf, EncodeHash(prf, value, salt), other) <==>
      DerivedKey(prf, other, salt, 310_000, 32) == DerivedKey(prf, value, salt, 310_000, 32)
    ensures Accepts(prf, EncodeHash(prf, value, salt), value)
  {
    ParseInvertsEncode(ITERATIONS, salt, DerivedKey(prf, value, salt, ITERATIONS, KEY_SIZE));
  }

  // ----- The format and the function in plain words -----

  /** A stored hash reads $pbkdf2-sha256$310000$salt$key, in raw base64. */
  lemma StoredHashIs(prf: Prf, value: Bytes, salt: Bytes)
    ensures EncodeHash(prf, value, salt) ==
      "$pbkdf2-sha256$" + Decimal(310_000) + "$" + Encode64(salt, false) + "$" +
      Encode64(DerivedKey(prf, value, salt, 310_000, 32), false)
  {
    var key := Encode64(DerivedKey(prf, value, salt, 310_000, 32), false);
    FieldsJoined(Decimal(310_000), Encode64(salt, false), key);
  }

  lemma FieldsJoined(iter: string, salt: string, key: string)
    ensures [] + ['$'] + (SCHEME + ['$'] + (iter + ['$'] + (salt + ['$'] + key)))
         == "$pbkdf2-sha256$" + iter + "$" + salt + "$" + key
  {
    assert "$pbkdf2-sha256$" == ['$'] + SCHEME + ['$'];
  }

  /** The hashes Verify accepts: five fields, of which the first may be any text, the scheme's
      name, bounds on each value, and the derived key. */
  lemma AcceptsExactly(prf: Prf, encoded: string, value: Bytes)
    ensures Accepts(prf, encoded, value) <==>
      var parts := Split(encoded, '$');
      && |parts| == 5 && parts[1] == "pbkdf2-sha256"
      && Atoi(parts[2]).Some? && 100_000 <= Atoi(parts[2]).value <= 2_000_000
      && Decode64(parts[3], false).Some? && |Decode64(parts[3], false).value| >= 16
      && Decode64(parts[4], false).Some? && |Decode64(parts[4], false).value| >= 32
      && DerivedKey(prf, value, Decode64(parts[3], false).value, Atoi(parts[2]).value,
                    |Decode64(parts[4], false).value|) == Decode64(parts[4], false).value
  {
  }

  /** U_1 is the keyed hash of the salt and the block number, and each next one that of the
      one before. */
  lemma ChainIs(prf: Prf, password: Bytes, salt: Bytes, i: nat, c: nat)
    requires c >= 1
    ensures U(prf, password, salt, i, 1) == prf(password, salt + IntOctets(i))
    ensures U(prf, password, salt, i, c + 1) == prf(password, U(prf, password, salt, i, c))
  {
  }

  /** Each byte of a block is the exclusive or of that byte of U_1 to U_c. */
  lemma BlockByteIs(prf: Prf, password: Bytes, salt: Bytes, i: nat, c: nat, j: nat)
    requires c >= 1 && j < HASH_LENGTH
    ensures F(prf, password, salt, 1, i)[j] == U(prf, password, salt, i, 1)[j]
    ensures F(prf, password, salt, c + 1, i)[j] as bv8
         == (F(prf, password, salt, c, i)[j] as bv8) ^ (U(prf, password, salt, i, c + 1)[j] as bv8)
  {
  }

  lemma {:induction false} BlockOf(prf: Prf, password: Bytes, salt: Bytes, c: nat, l: nat, j: nat)
    requires c >= 1 && j < l * 32
    ensures Blocks(prf, password, salt, c, l)[j] == F(prf, password, salt, c, j / 32 + 1)[j % 32]
  {
    if j < (l - 1) * 32 {
      BlockOf(prf, password, salt, c, l - 1, j);
    } else {
      assert j / 32 == l - 1;
    }
  }

  /** Byte j of the derived key is byte j % 32 of block j / 32 + 1. */
  lemma KeyByteIs(prf: Prf, password: Bytes, salt: Bytes, c: nat, length: nat, j: nat)
    requires c >= 1 && j < length
    ensures DerivedKey(prf, password, salt, c, length)[j] == F(prf, password, salt, c, j / 32 + 1)[j % 32]
  {
    BlockOf(prf, password, salt, c, BlockCount(length), j);
  }
}
