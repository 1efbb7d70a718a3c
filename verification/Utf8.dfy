/** UTF-8 as defined in sections 3 and 4 of RFC 3629, Go's backward decoder, and the cut
    that keeps a stored page name within its byte limit. */
module Utf8 {
  import opened Aead

  predicate Within(b: byte, low: int, high: int) { low <= b <= high }

  predicate Continuation(b: byte) { Within(b, 0x80, 0xBF) }

  /** The length of the UTF-8 character s begins with, or 0 when it begins with none. */
  function RuneSize(s: Bytes): (n: nat)
    ensures n <= 4 && n <= |s|
  {
    if s == [] then 0
    else if s[0] < 0x80 then 1
    else if |s| >= 2 && Within(s[0], 0xC2, 0xDF) && Continuation(s[1]) then 2
    else if |s| >= 3 && Continuation(s[2]) && SecondOfThree(s[0], s[1]) then 3
    else if |s| >= 4 && Continuation(s[2]) && Continuation(s[3]) && SecondOfFour(s[0], s[1]) then 4
    else 0
  }

  predicate SecondOfThree(first: byte, second: byte) {
    || (first == 0xE0 && Within(second, 0xA0, 0xBF))
    || (Within(first, 0xE1, 0xEC) && Continuation(second))
    || (first == 0xED && Within(second, 0x80, 0x9F))
    || (Within(first, 0xEE, 0xEF) && Continuation(second))
  }

  predicate SecondOfFour(first: byte, second: byte) {
    || (first == 0xF0 && Within(second, 0x90, 0xBF))
    || (Within(first, 0xF1, 0xF3) && Continuation(second))
    || (first == 0xF4 && Within(second, 0x80, 0x8F))
  }

  /** UTF8-octets = *( UTF8-char ). */
  predicate Valid(s: Bytes)
    decreases |s|
  {
    s == [] || (RuneSize(s) > 0 && Valid(s[RuneSize(s)..]))
  }

  /** One whole character and nothing else. */
  predicate IsRune(s: Bytes) { s != [] && RuneSize(s) == |s| }

  lemma RuneAlone(s: Bytes)
    requires RuneSize(s) > 0
    ensures IsRune(s[..RuneSize(s)])
    ensures !Continuation(s[0])
    ensures forall i :: 1 <= i < RuneSize(s) ==> Continuation(s[i])
  {
  }

  lemma RuneInFront(r: Bytes, rest: Bytes)
    requires IsRune(r)
    ensures RuneSize(r + rest) == |r|
  {
  }

  lemma ValidInFront(r: Bytes, rest: Bytes)
    requires IsRune(r) && Valid(rest)
    ensures Valid(r + rest)
  {
    RuneInFront(r, rest);
    assert (r + rest)[|r|..] == rest;
  }

  lemma Regroup(s: Bytes, n: nat, r: Bytes)
    requires n <= |s|
    ensures s[..n] + (s[n..] + r) == s + r
  {
  }

  lemma {:induction false} AppendRune(s: Bytes, r: Bytes)
    requires Valid(s) && IsRune(r)
    ensures Valid(s + r)
    decreases |s|
  {
    if s == [] {
      assert s + r == r && r[|r|..] == [];
    } else {
      var n := RuneSize(s);
      RuneAlone(s);
      AppendRune(s[n..], r);
      ValidInFront(s[..n], s[n..] + r);
      Regroup(s, n, r);
    }
  }

  /** In valid text every byte that is no continuation byte begins a character. */
  lemma {:induction false} LeadIsBoundary(s: Bytes, a: nat)
    requires Valid(s) && a < |s| && !Continuation(s[a])
    ensures Valid(s[..a])
    decreases |s|
  {
    var n := RuneSize(s);
    RuneAlone(s);
    if a >= n {
      LeadIsBoundary(s[n..], a - n);
      assert s[..a] == s[..n] + s[n..][..a - n];
      RuneInFront(s[..n], s[n..][..a - n]);
      assert s[..a][n..] == s[n..][..a - n];
    } else {
      assert a == 0;
    }
  }

  /** Valid text that is not empty ends with a character behind valid text. */
  lemma {:induction false} LastRune(s: Bytes) returns (a: nat)
    requires Valid(s) && s != []
    ensures a < |s| && Valid(s[..a]) && IsRune(s[a..])
    decreases |s|
  {
    var n := RuneSize(s);
    RuneAlone(s);
    if n == |s| {
      a := 0;
      assert s[0..] == s && s[..n] == s;
    } else {
      var b := LastRune(s[n..]);
      a := n + b;
      assert s[a..] == s[n..][b..];
      assert s[..a] == s[..n] + s[n..][..b];
      RuneInFront(s[..n], s[n..][..b]);
      assert s[..a][n..] == s[n..][..b];
    }
  }

  // ----- Decoding backwards -----

  /** The search of utf8.DecodeLastRune for a byte that can start a character: from start
      down to limit, or one below the limit when there is none. */
  function FindStart(s: Bytes, start: int, limit: nat): (r: int)
    requires limit - 1 <= start < |s|
    ensures limit - 1 <= r <= start
    decreases start - limit + 1
  {
    if start < limit || !Continuation(s[start]) then start else FindStart(s, start - 1, limit)
  }

  /** The size utf8.DecodeLastRuneInString reports, with 0 for its error of size at most 1. */
  function LastRuneSize(s: Bytes): nat {
    if s == [] then 0
    else if s[|s| - 1] < 0x80 then 1
    else
      var limit := if |s| < 4 then 0 else |s| - 4;
      var found := FindStart(s, |s| - 2, limit);
      var start := if found < 0 then 0 else found;
      if IsRune(s[start..]) then |s| - start else 0
  }

  lemma {:induction false} FindsStart(s: Bytes, start: int, limit: nat, a: nat)
    requires limit <= a <= start < |s| && !Continuation(s[a])
    requires forall i :: a < i <= start ==> Continuation(s[i])
    ensures FindStart(s, start, limit) == a
    decreases start - a
  {
    if a < start { FindsStart(s, start - 1, limit, a); }
  }

  /** The backward decoder recognises the end of valid text. */
  lemma ValidEndAccepted(s: Bytes)
    requires Valid(s) && s != []
    ensures LastRuneSize(s) > 0
  {
    var a := LastRune(s);
    var r := s[a..];
    RuneAlone(r);
    assert r[..|r|] == r;
    if s[|s| - 1] >= 0x80 {
      assert |r| >= 2 by { assert r[|r| - 1] == s[|s| - 1]; }
      assert s[a] == r[0];
      forall i | a < i < |s| ensures Continuation(s[i]) { assert s[i] == r[i - a]; }
      FindsStart(s, |s| - 2, if |s| < 4 then 0 else |s| - 4, a);
    }
  }

  lemma AcceptedEnd(cut: Bytes)
    requires LastRuneSize(cut) > 0
    ensures LastRuneSize(cut) <= |cut| && IsRune(cut[|cut| - LastRuneSize(cut)..])
  {
    if cut[|cut| - 1] < 0x80 { assert cut[|cut| - 1..] == [cut[|cut| - 1]]; }
  }

  lemma AcceptedPrefix(s: Bytes, cut: Bytes, a: nat)
    requires Valid(s) && cut <= s && a < |cut| && IsRune(cut[a..])
    ensures Valid(cut)
  {
    RuneAlone(cut[a..]);
    assert s[a] == cut[a] == cut[a..][0];
    LeadIsBoundary(s, a);
    assert s[..a] == cut[..a];
    AppendRune(cut[..a], cut[a..]);
    assert cut == cut[..a] + cut[a..];
  }

  /** Cut short inside a character, valid text is rejected by the backward decoder. */
  lemma BrokenEndRejected(s: Bytes, t: nat)
    requires Valid(s) && t <= |s| && !Valid(s[..t])
    ensures LastRuneSize(s[..t]) == 0
  {
    var cut := s[..t];
    if LastRuneSize(cut) > 0 {
      AcceptedEnd(cut);
      AcceptedPrefix(s, cut, t - LastRuneSize(cut));
    }
  }

  // ----- Cutting a page name -----

  const PAGE_LIMIT: nat := 512

  ghost predicate LongestValidPrefix(page: Bytes, kept: Bytes) {
    && kept <= page && |kept| <= PAGE_LIMIT && Valid(kept)
    && forall t :: |kept| < t <= |page| && t <= PAGE_LIMIT ==> !Valid(page[..t])
  }

  /** The cut inside Record: for valid text, the longest valid prefix within the limit. */
  method CutPage(page: Bytes) returns (kept: Bytes)
    ensures |kept| <= 512 && kept <= page
    ensures |page| <= 512 ==> kept == page
    ensures Valid(page) ==> LongestValidPrefix(page, kept)
  {
    if |page| <= PAGE_LIMIT { return page; }
    kept := page[..PAGE_LIMIT];
    while |kept| > 0
      invariant |kept| <= PAGE_LIMIT && kept == page[..|kept|]
      invariant Valid(page) ==> forall t :: |kept| < t <= PAGE_LIMIT ==> !Valid(page[..t])
    {
      if LastRuneSize(kept) != 0 { break; }
      if Valid(page) && Valid(kept) { ValidEndAccepted(kept); }
      kept := kept[..|kept| - 1];
    }
    if Valid(page) && !Valid(kept) { BrokenEndRejected(page, |kept|); }
  }

  /** The longest valid prefix is unique, so the cut is determined. */
  lemma LongestPrefixUnique(page: Bytes, a: Bytes, b: Bytes)
    requires LongestValidPrefix(page, a) && LongestValidPrefix(page, b)
    ensures a == b
  {
    assert a == page[..|a|] && b == page[..|b|];
  }

  // ----- Characters -----

  /** The Unicode characters, without the surrogates. */
  predicate Scalar(c: int) { 0 <= c <= 0x10FFFF && !(0xD800 <= c <= 0xDFFF) }

  /** The table of section 3 of RFC 3629. */
  function Encoded(c: int): Bytes
    requires Scalar(c)
  {
    if c < 0x80 then [c]
    else if c < 0x800 then [0xC0 + c / 64, 0x80 + c % 64]
    else if c < 0x10000 then [0xE0 + c / 4096, 0x80 + c / 64 % 64, 0x80 + c % 64]
    else [0xF0 + c / 262144, 0x80 + c / 4096 % 64, 0x80 + c / 64 % 64, 0x80 + c % 64]
  }

  lemma EncodedIsRune(c: int)
    requires Scalar(c)
    ensures IsRune(Encoded(c))
  {
  }

  function Decoded(s: Bytes): int
    requires IsRune(s)
  {
    if |s| == 1 then s[0] as int
    else if |s| == 2 then (s[0] as int - 0xC0) * 64 + (s[1] as int - 0x80)
    else if |s| == 3 then ((s[0] as int - 0xE0) * 64 + (s[1] as int - 0x80)) * 64 + (s[2] as int - 0x80)
    else (((s[0] as int - 0xF0) * 64 + (s[1] as int - 0x80)) * 64 + (s[2] as int - 0x80)) * 64 + (s[3] as int - 0x80)
  }

  lemma Shift(a: int, b: int)
    requires 0 <= b < 64
    ensures (a * 64 + b) / 64 == a && (a * 64 + b) % 64 == b
  {
  }

  lemma TwoBytes(s: Bytes)
    requires IsRune(s) && |s| == 2
    ensures 0x80 <= Decoded(s) < 0x800 && Encoded(Decoded(s)) == s
  {
    Shift(s[0] as int - 0xC0, s[1] as int - 0x80);
  }

  lemma ThreeBytes(s: Bytes)
    requires IsRune(s) && |s| == 3
    ensures Scalar(Decoded(s)) && 0x800 <= Decoded(s) < 0x10000 && Encoded(Decoded(s)) == s
  {
    var high := (s[0] as int - 0xE0) * 64 + (s[1] as int - 0x80);
    Shift(s[0] as int - 0xE0, s[1] as int - 0x80);
    Shift(high, s[2] as int - 0x80);
    assert Decoded(s) / 4096 == Decoded(s) / 64 / 64;
  }

  lemma FourBytes(s: Bytes)
    requires IsRune(s) && |s| == 4
    ensures 0x10000 <= Decoded(s) <= 0x10FFFF && Encoded(Decoded(s)) == s
  {
    var high := (s[0] as int - 0xF0) * 64 + (s[1] as int - 0x80);
    var middle := high * 64 + (s[2] as int - 0x80);
    Shift(s[0] as int - 0xF0, s[1] as int - 0x80);
    Shift(high, s[2] as int - 0x80);
    Shift(middle, s[3] as int - 0x80);
    assert Decoded(s) / 4096 == Decoded(s) / 64 / 64;
    assert Decoded(s) / 262144 == Decoded(s) / 4096 / 64;
  }

  lemma RuneIsEncoded(s: Bytes)
    requires IsRune(s)
    ensures Scalar(Decoded(s)) && Encoded(Decoded(s)) == s
  {
    if |s| == 2 {
      TwoBytes(s);
    } else if |s| == 3 {
      ThreeBytes(s);
    } else if |s| == 4 {
      FourBytes(s);
    }
  }

  /** The byte strings accepted as one character are exactly the encodings of characters. */
  lemma RunesAreEncodings(s: Bytes)
    ensures IsRune(s) <==> exists c :: Scalar(c) && Encoded(c) == s
  {
    if IsRune(s) { RuneIsEncoded(s); }
    if exists c :: Scalar(c) && Encoded(c) == s {
      var c :| Scalar(c) && Encoded(c) == s;
      EncodedIsRune(c);
    }
  }
}
