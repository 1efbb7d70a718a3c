/** The program's readers of decimal numbers. */
module Decimals {
  import opened Wrappers
  import opened Text
  import opened Codec

  // ----- Transit version tokens -----

  /** transitCiphertextKeyVersion: only the spelling the encryptor emits. */
  function StrictVersion(token: string): Option<nat> {
    if token == [] || token[0] != 'v' then None
    else
      var digits := token[1..];
      if digits == [] || (|digits| > 1 && digits[0] == '0') || !AllDigits(digits) then None
      else match Atoi(digits)
        case Some(version) => if version < 1 then None else Some(version)
        case None => None
  }

  /** transitCiphertextVersion of the HTTP layer, which trusts its own encryptor. */
  function LaxVersion(ciphertext: string): Option<nat> {
    match SplitThree(ciphertext, ':')
    case None => None
    case Some((scheme, token, _)) =>
      if scheme != "vault" || token == [] || token[0] != 'v' then None
      else match Atoi(token[1..])
        case Some(version) => if version < 1 then None else Some(version)
        case None => None
  }

  function Token(version: nat): string { "v" + Decimal(version) }

  /** A token is accepted exactly when it is "v" and the canonical decimal of a version in
      1..MaxInt. */
  lemma StrictVersionExact(token: string, version: nat)
    ensures StrictVersion(token) == Some(version) <==> token == Token(version) && 1 <= version <= MAX_INT
  {
    if token == Token(version) && 1 <= version <= MAX_INT {
      AtoiOfDecimal(version);
      assert token[1..] == Decimal(version);
    }
    if StrictVersion(token) == Some(version) {
      var digits := token[1..];
      assert IsDigit(digits[0]);
      DecimalOfValue(digits);
      assert token == "v" + digits;
    }
  }

  /** On everything the encryptor emits both readers return the version. */
  lemma ReadersAgreeOnEmitted(version: nat, payload: string)
    requires 1 <= version <= MAX_INT
    ensures StrictVersion(Token(version)) == Some(version)
    ensures LaxVersion("vault" + [':'] + (Token(version) + [':'] + payload)) == Some(version)
  {
    StrictVersionExact(Token(version), version);
    assert ':' !in "vault" && ':' !in Token(version);
    SplitThreeOfJoin("vault", Token(version), payload, ':');
    AtoiOfDecimal(version);
    assert Token(version)[1..] == Decimal(version);
  }

  /** A token whose number the lax reader accepts is accepted by the strict one exactly
      when it is spelled canonically: signs and leading zeros are refused. */
  lemma StrictRefusesOtherSpellings(digits: string, version: nat)
    requires Atoi(digits) == Some(version) && version >= 1
    ensures StrictVersion("v" + digits) == Some(version) <==> digits == Decimal(version)
    ensures digits != Decimal(version) ==> StrictVersion("v" + digits) == None
    ensures digits == Decimal(version) || digits[0] == '+' || digits[0] == '0'
  {
    StrictVersionExact("v" + digits, version);
    assert ("v" + digits)[1..] == digits;
    assert Token(version)[1..] == Decimal(version);
    if AllDigits(digits) && digits[0] != '0' { DecimalOfValue(digits); }
    match StrictVersion("v" + digits) {
      case None =>
      case Some(other) => StrictVersionExact("v" + digits, other);
    }
  }

  /** The HTTP layer's reader takes the number behind the "v" of the second of three fields,
      in any spelling strconv reads, if the first is "vault" and the number positive. */
  lemma LaxVersionExact(ciphertext: string, version: nat)
    ensures LaxVersion(ciphertext) == Some(version) <==>
      && SplitThree(ciphertext, ':').Some?
      && SplitThree(ciphertext, ':').value.0 == "vault"
      && "v" <= SplitThree(ciphertext, ':').value.1
      && Atoi(SplitThree(ciphertext, ':').value.1[1..]) == Some(version) && version >= 1
  {
  }

  // ----- Page numbers -----

  /** The integer variable a pointer argument refers to. */
  class IntVar {
    var value: int

    constructor (value: int)
      ensures this.value == value
    {
      this.value := value;
    }
  }

  /** A digit string, possibly empty, whose value fits in int. */
  predicate Readable(s: string) { AllDigits(s) && Value(s) <= MAX_INT }

  lemma {:induction false} PrefixValueSmaller(s: string, i: nat)
    requires AllDigits(s) && i <= |s|
    ensures Value(s[..i]) <= Value(s)
  {
    if i == |s| {
      assert s[..i] == s;
    } else {
      PrefixValueSmaller(s[..|s| - 1], i);
      assert s[..|s| - 1][..i] == s[..i];
    }
  }

  /** The exact value is stored if and only if the text is readable, the accumulator never
      exceeds int, and otherwise the target is untouched. The empty text counts as
      readable and stores 0; parsePage never passes it. */
  method FmtSscanf(value: string, dst: IntVar) returns (ok: bool)
    modifies dst
    ensures ok <==> Readable(value)
    ensures dst.value == if Readable(value) then Value(value) else old(dst.value)
  {
    var n: int := 0;
    for i := 0 to |value|
      invariant AllDigits(value[..i]) && n == Value(value[..i]) && 0 <= n <= MAX_INT
    {
      var c := value[i];
      if !IsDigit(c) { return false; }
      var digit := DigitValue(c);
      assert value[..i + 1][..i] == value[..i];
      assert Value(value[..i + 1]) == 10 * n + digit;
      if n > (MAX_INT - digit) / 10 {
        assert !Readable(value) by {
          if AllDigits(value) { PrefixValueSmaller(value, i + 1); }
        }
        return false;
      }
      n := n * 10 + digit;
    }
    assert value[..|value|] == value;
    dst.value := n;
    return true;
  }

  /** parsePage for one parameter: the default stands unless the text is readable. */
  method PageNumber(value: string, default: int) returns (n: int)
    ensures n == if value != "" && Readable(value) then Value(value) else default
  {
    var dst := new IntVar(default);
    if value != "" { var _ := FmtSscanf(value, dst); }
    n := dst.value;
  }
}
