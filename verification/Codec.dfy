/** The encodings the program leans on: splitting at a separator, strconv.Atoi, and the
    two standard base64 alphabets (section 4 of RFC 4648), padded and raw. */
module Codec {
  import opened Wrappers
  import opened Text
  import opened Aead

  // ----- Splitting -----

  /** strings.Split at a one-character separator. */
  function Split(s: string, c: char): (parts: seq<string>)
    ensures |parts| >= 1
  {
    var i := FirstIndex(s, c);
    if i == |s| then [s] else [s[..i]] + Split(s[i + 1..], c)
  }

  lemma SplitFirst(a: string, b: string, c: char)
    requires c !in a
    ensures Split(a + [c] + b, c) == [a] + Split(b, c)
    ensures Split(a, c) == [a]
  {
    FirstIndexIn(a, b, c);
    var s := a + [c] + b;
    assert s[..|a|] == a && s[|a| + 1..] == b;
  }

  /** strings.SplitN(s, c, 3), None when there are fewer than three parts. */
  function SplitThree(s: string, c: char): Option<(string, string, string)> {
    var i := FirstIndex(s, c);
    if i == |s| then None
    else
      var rest := s[i + 1..];
      var j := FirstIndex(rest, c);
      if j == |rest| then None else Some((s[..i], rest[..j], rest[j + 1..]))
  }

  lemma SplitThreeOfJoin(a: string, b: string, rest: string, c: char)
    requires c !in a && c !in b
    ensures SplitThree(a + [c] + (b + [c] + rest), c) == Some((a, b, rest))
  {
    FirstIndexIn(a, b + [c] + rest, c);
    FirstIndexIn(b, rest, c);
    var s := a + [c] + (b + [c] + rest);
    assert s[..|a|] == a && s[|a| + 1..] == b + [c] + rest;
    assert (b + [c] + rest)[..|b|] == b && (b + [c] + rest)[|b| + 1..] == rest;
  }

  // ----- strconv.Atoi -----

  const MAX_INT: int := 0x7FFF_FFFF_FFFF_FFFF

  /** strconv.Atoi on a 64-bit platform: an optional sign, then digits, within int. */
  function Atoi(s: string): Option<int> {
    var signed := s != [] && (s[0] == '+' || s[0] == '-');
    var digits := if signed then s[1..] else s;
    if digits == [] || !AllDigits(digits) then None
    else
      var magnitude: int := Value(digits);
      var value: int := if s[0] == '-' then 0 - magnitude else magnitude;
      if -MAX_INT - 1 <= value <= MAX_INT then Some(value) else None
  }

  /** strconv.Atoi reads digits behind at most one sign, within the range of int. */
  lemma AtoiReads(digits: string)
    requires digits != "" && AllDigits(digits)
    ensures Value(digits) <= 0x7FFF_FFFF_FFFF_FFFF ==>
      Atoi(digits) == Some(Value(digits)) && Atoi(['+'] + digits) == Some(Value(digits))
      && Atoi(['-'] + digits) == Some(0 - Value(digits) as int)
    ensures Value(digits) > 0x7FFF_FFFF_FFFF_FFFF ==> Atoi(digits) == None && Atoi(['+'] + digits) == None
  {
    assert IsDigit(digits[0]);
    assert (['+'] + digits)[1..] == digits && (['-'] + digits)[1..] == digits;
  }

  lemma AtoiOfDecimal(n: nat)
    requires n <= MAX_INT
    ensures Atoi(Decimal(n)) == Some(n)
  {
    ValueOfDecimal(n);
    assert IsDigit(Decimal(n)[0]);
  }

  // ----- Base64 -----

  type sextet = x: int | 0 <= x < 64

  function SextetChar(x: sextet): char {
    if x < 26 then 'A' + x as char
    else if x < 52 then 'a' + (x - 26) as char
    else if x < 62 then '0' + (x - 52) as char
    else if x == 62 then '+' else '/'
  }

  function CharSextet(c: char): Option<sextet> {
    if 'A' <= c <= 'Z' then Some(c as int - 'A' as int)
    else if 'a' <= c <= 'z' then Some(c as int - 'a' as int + 26)
    else if '0' <= c <= '9' then Some(c as int - '0' as int + 52)
    else if c == '+' then Some(62) else if c == '/' then Some(63) else None
  }

  lemma SextetRoundTrip(x: sextet)
    ensures CharSextet(SextetChar(x)) == Some(x)
    ensures SextetChar(x) !in ":$=\r\n"
  {
  }

  /** RawStdEncoding.EncodeToString, and StdEncoding.EncodeToString when padded. */
  function Encode64(b: Bytes, padded: bool): string {
    if b == [] then []
    else if |b| == 1 then
      [SextetChar(b[0] / 4), SextetChar(b[0] % 4 * 16)] + (if padded then "==" else "")
    else if |b| == 2 then
      [SextetChar(b[0] / 4), SextetChar(b[0] % 4 * 16 + b[1] / 16), SextetChar(b[1] % 16 * 4)] +
      (if padded then "=" else "")
    else
      [SextetChar(b[0] / 4), SextetChar(b[0] % 4 * 16 + b[1] / 16),
       SextetChar(b[1] % 16 * 4 + b[2] / 64), SextetChar(b[2] % 64)] + Encode64(b[3..], padded)
  }

  function SkipNewlines(s: string): string {
    if s == [] then []
    else if s[0] == '\r' || s[0] == '\n' then SkipNewlines(s[1..])
    else [s[0]] + SkipNewlines(s[1..])
  }

  /** The decoders' loop over four-character groups; unused trailing bits are ignored. */
  function DecodeGroups(s: string, padded: bool): Option<Bytes>
    decreases |s|
  {
    if s == [] then Some([])
    else if |s| < 2 then None
    else match (CharSextet(s[0]), CharSextet(s[1]))
      case (Some(x), Some(y)) =>
        var first := x * 4 + y / 16;
        if s[2..] == (if padded then "==" else "") then Some([first])
        else if |s| < 3 then None
        else (match CharSextet(s[2])
          case None => None
          case Some(z) =>
            var second := y % 16 * 16 + z / 4;
            if s[3..] == (if padded then "=" else "") then Some([first, second])
            else if |s| < 4 then None
            else (match CharSextet(s[3])
              case None => None
              case Some(w) =>
                match DecodeGroups(s[4..], padded)
                case None => None
                case Some(rest) => Some([first, second, z % 4 * 64 + w] + rest)))
      case _ => None
  }

  function Decode64(s: string, padded: bool): Option<Bytes> { DecodeGroups(SkipNewlines(s), padded) }

  lemma {:induction false} EncodedAlphabet(b: Bytes, padded: bool)
    ensures forall c <- Encode64(b, padded) :: c !in ":$\r\n"
  {
    if |b| >= 3 { EncodedAlphabet(b[3..], padded); }
  }

  lemma {:induction false} NoNewlinesSkipped(s: string)
    requires '\r' !in s && '\n' !in s
    ensures SkipNewlines(s) == s
  {
    if s != [] {
      assert forall c :: c in s[1..] ==> c in s;
      NoNewlinesSkipped(s[1..]);
    }
  }

  lemma LastByte(a: byte, padded: bool)
    ensures DecodeGroups(Encode64([a], padded), padded) == Some([a])
  {
    SextetRoundTrip(a / 4);
    SextetRoundTrip(a % 4 * 16);
    assert Encode64([a], padded)[2..] == if padded then "==" else "";
  }

  lemma LastTwoBytes(a: byte, b: byte, padded: bool)
    ensures DecodeGroups(Encode64([a, b], padded), padded) == Some([a, b])
  {
    SextetRoundTrip(a / 4);
    SextetRoundTrip(a % 4 * 16 + b / 16);
    SextetRoundTrip(b % 16 * 4);
    var s := Encode64([a, b], padded);
    assert s[2..][0] == s[2] != '=';
    assert s[3..] == if padded then "=" else "";
  }

  lemma ThreeBytes(x: sextet, y: sextet, z: sextet, w: sextet, tail: string, rest: Bytes, padded: bool)
    requires DecodeGroups(tail, padded) == Some(rest)
    ensures DecodeGroups([SextetChar(x), SextetChar(y), SextetChar(z), SextetChar(w)] + tail, padded)
         == Some([x * 4 + y / 16, y % 16 * 16 + z / 4, z % 4 * 64 + w] + rest)
  {
    SextetRoundTrip(x);
    SextetRoundTrip(y);
    SextetRoundTrip(z);
    SextetRoundTrip(w);
    var s := [SextetChar(x), SextetChar(y), SextetChar(z), SextetChar(w)] + tail;
    assert s[2..][0] == s[2] != '=' && s[3..][0] == s[3] != '=';
    assert s[4..] == tail;
  }

  lemma Regroup(a: byte, b: byte, c: byte)
    ensures var y, z := a % 4 * 16 + b / 16, b % 16 * 4 + c / 64;
            a / 4 * 4 + y / 16 == a && y % 16 * 16 + z / 4 == b && z % 4 * 64 + c % 64 == c
  {
  }

  lemma GroupStep(a: byte, b: byte, c: byte, tail: string, rest: Bytes, padded: bool)
    requires DecodeGroups(tail, padded) == Some(rest)
    ensures var s := [SextetChar(a / 4), SextetChar(a % 4 * 16 + b / 16),
                      SextetChar(b % 16 * 4 + c / 64), SextetChar(c % 64)] + tail;
            DecodeGroups(s, padded) == Some([a, b, c] + rest)
  {
    ThreeBytes(a / 4, a % 4 * 16 + b / 16, b % 16 * 4 + c / 64, c % 64, tail, rest, padded);
    Regroup(a, b, c);
  }

  lemma {:induction false} GroupsRoundTrip(b: Bytes, padded: bool)
    ensures DecodeGroups(Encode64(b, padded), padded) == Some(b)
  {
    if |b| == 1 {
      LastByte(b[0], padded);
      assert b == [b[0]];
    } else if |b| == 2 {
      LastTwoBytes(b[0], b[1], padded);
      assert b == [b[0], b[1]];
    } else if |b| >= 3 {
      GroupsRoundTrip(b[3..], padded);
      GroupStep(b[0], b[1], b[2], Encode64(b[3..], padded), b[3..], padded);
      assert [b[0], b[1], b[2]] + b[3..] == b;
    }
  }

  /** Both base64 encoders are inverted by their decoders. */
  lemma Base64RoundTrip(b: Bytes, padded: bool)
    ensures Decode64(Encode64(b, padded), padded) == Some(b)
  {
    EncodedAlphabet(b, padded);
    NoNewlinesSkipped(Encode64(b, padded));
    GroupsRoundTrip(b, padded);
  }

  // ----- The alphabet -----

  /** The test vectors of section 10 of RFC 4648. */
  lemma Rfc4648Vectors(f: byte, o: byte, b: byte, a: byte, r: byte)
    requires f == 102 && o == 111 && b == 98 && a == 97 && r == 114
    ensures Encode64([], true) == ""
    ensures Encode64([f], true) == "Zg==" && Encode64([f], false) == "Zg"
    ensures Encode64([f, o], true) == "Zm8=" && Encode64([f, o], false) == "Zm8"
    ensures Encode64([f, o, o], true) == "Zm9v"
    ensures Encode64([f, o, o, b, a, r], true) == "Zm9vYmFy"
  {
    assert [f, o, o][3..] == [];
    assert [f, o, o, b, a, r][3..] == [b, a, r] && [b, a, r][3..] == [];
    assert Encode64([b, a, r], true) == "YmFy" + Encode64([], true);
  }

  /** Table 1 of RFC 4648. */
  lemma AlphabetIs(x: sextet)
    ensures x < 26 ==> SextetChar(x) as int == 'A' as int + x
    ensures 26 <= x < 52 ==> SextetChar(x) as int == 'a' as int + x - 26
    ensures 52 <= x < 62 ==> SextetChar(x) as int == '0' as int + x - 52
    ensures SextetChar(62) == '+' && SextetChar(63) == '/'
  {
  }

  lemma CharSextetExact(c: char, x: sextet)
    ensures CharSextet(c) == Some(x) <==> SextetChar(x) == c
  {
  }

  /** A line break changes nothing wherever it stands. */
  lemma LineBreaksAreSkipped(a: string, c: char, b: string, padded: bool)
    requires c == '\r' || c == '\n'
    ensures Decode64(a + ([c] + b), padded) == Decode64(a + b, padded)
  {
    SkipConcat(a, [c] + b);
    SkipConcat(a, b);
  }

  lemma {:induction false} SkipConcat(a: string, b: string)
    ensures SkipNewlines(a + b) == SkipNewlines(a) + SkipNewlines(b)
  {
    if a == [] {
      assert a + b == b;
    } else {
      SkipConcat(a[1..], b);
      assert a + b == [a[0]] + (a[1..] + b);
    }
  }

  /** A last group may have any bits where no byte is left to fill. */
  lemma UnusedBitsAreIgnored(x: sextet, y: sextet, z: sextet)
    ensures DecodeGroups([SextetChar(x), SextetChar(y), '=', '='], true) == Some([x * 4 + y / 16])
    ensures DecodeGroups([SextetChar(x), SextetChar(y)], false) == Some([x * 4 + y / 16])
    ensures DecodeGroups([SextetChar(x), SextetChar(y), SextetChar(z), '='], true)
         == Some([x * 4 + y / 16, y % 16 * 16 + z / 4])
    ensures DecodeGroups([SextetChar(x), SextetChar(y), SextetChar(z)], false)
         == Some([x * 4 + y / 16, y % 16 * 16 + z / 4])
  {
    CharSextetExact(SextetChar(x), x);
    CharSextetExact(SextetChar(y), y);
    CharSextetExact(SextetChar(z), z);
  }

  /** Only texts over the alphabet, with '=' if padded, decode; line breaks are skipped. */
  lemma {:induction false} GroupsAreAlphabet(s: string, padded: bool)
    requires DecodeGroups(s, padded).Some?
    ensures forall c <- s :: CharSextet(c).Some? || (padded && c == '=')
    decreases |s|
  {
    if |s| >= 4 && DecodeGroups(s[4..], padded).Some? {
      GroupsAreAlphabet(s[4..], padded);
      assert s == [s[0], s[1], s[2], s[3]] + s[4..];
    } else if |s| >= 3 {
      assert s == [s[0], s[1], s[2]] + s[3..];
    } else if |s| >= 2 {
      assert s == [s[0], s[1]] + s[2..];
    }
  }

  lemma {:induction false} SkippedAreBreaks(s: string, c: char)
    requires c in s && c != '\r' && c != '\n'
    ensures c in SkipNewlines(s)
  {
    if s[0] != c { SkippedAreBreaks(s[1..], c); }
  }

  lemma DecodesOnlyAlphabet(s: string, padded: bool)
    requires Decode64(s, padded).Some?
    ensures forall c <- s :: CharSextet(c).Some? || (padded && c == '=') || c == '\r' || c == '\n'
  {
    GroupsAreAlphabet(SkipNewlines(s), padded);
    forall c <- s ensures CharSextet(c).Some? || (padded && c == '=') || c == '\r' || c == '\n' {
      if c != '\r' && c != '\n' { SkippedAreBreaks(s, c); }
    }
  }
}
