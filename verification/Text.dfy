/** String operations of the Go library that the model needs, with the laws the
    proofs use. */
module Text {

  /** strings.Trim with the one-character cut set "/". */
  function TrimSlashes(s: string): (r: string)
    ensures r == [] || (r[0] != '/' && r[|r| - 1] != '/')
    ensures |r| <= |s|
    ensures s == [] || (s[0] != '/' && s[|s| - 1] != '/') ==> r == s
    decreases |s|
  {
    if s == [] then s
    else if s[0] == '/' then TrimSlashes(s[1..])
    else if s[|s| - 1] == '/' then TrimSlashes(s[..|s| - 1])
    else s
  }

  /** The white space unicode.IsSpace recognises. */
  predicate IsSpace(c: char) {
    || '\t' <= c <= '\r' || c == ' '
    || c as int in {0x85, 0xA0, 0x1680, 0x2028, 0x2029, 0x202F, 0x205F, 0x3000}
    || 0x2000 <= c as int <= 0x200A
  }

  lemma AsciiSpaces(c: char)
    requires c in " \t\n\r"
    ensures IsSpace(c)
  {
  }

  function TrimSpace(s: string): (r: string)
    ensures r == [] || (!IsSpace(r[0]) && !IsSpace(r[|r| - 1]))
    ensures |r| <= |s|
    ensures s == [] || (!IsSpace(s[0]) && !IsSpace(s[|s| - 1])) ==> r == s
    decreases |s|
  {
    if s == [] then s
    else if IsSpace(s[0]) then TrimSpace(s[1..])
    else if IsSpace(s[|s| - 1]) then TrimSpace(s[..|s| - 1])
    else s
  }

  /** Trimming takes off exactly the outer slashes. */
  lemma {:induction false} TrimSlashesExact(front: string, inner: string, back: string)
    requires (forall i :: 0 <= i < |front| ==> front[i] == '/') && (forall i :: 0 <= i < |back| ==> back[i] == '/')
    requires inner != "" && inner[0] != '/' && inner[|inner| - 1] != '/'
    ensures TrimSlashes(front + inner + back) == inner
    decreases |front| + |back|
  {
    var s := front + inner + back;
    if front != "" {
      assert s[1..] == front[1..] + inner + back;
      TrimSlashesExact(front[1..], inner, back);
    } else if back != "" {
      assert s[..|s| - 1] == front + inner + back[..|back| - 1];
      TrimSlashesExact(front, inner, back[..|back| - 1]);
    } else {
      assert s == inner;
    }
  }

  predicate IsBlank(s: string) { forall i :: 0 <= i < |s| ==> IsSpace(s[i]) }

  /** And exactly the outer white space. */
  lemma {:induction false} TrimSpaceExact(front: string, inner: string, back: string)
    requires IsBlank(front) && IsBlank(back)
    requires inner != "" && !IsSpace(inner[0]) && !IsSpace(inner[|inner| - 1])
    ensures TrimSpace(front + inner + back) == inner
    decreases |front| + |back|
  {
    var s := front + inner + back;
    if front != "" {
      assert IsSpace(front[0]) && IsBlank(front[1..]);
      assert s[1..] == front[1..] + inner + back;
      TrimSpaceExact(front[1..], inner, back);
    } else if back != "" {
      var rest := back[..|back| - 1];
      assert IsSpace(back[|back| - 1]) && IsBlank(rest);
      assert s[..|s| - 1] == front + inner + rest;
      TrimSpaceExact(front, inner, rest);
    } else {
      assert s == inner;
    }
  }

  lemma {:induction false} BlankTrims(s: string)
    requires IsBlank(s)
    ensures TrimSpace(s) == ""
  {
    if s != "" {
      assert IsSpace(s[0]) && IsBlank(s[1..]);
      BlankTrims(s[1..]);
    }
  }

  lemma {:induction false} TrimmedAwayIsBlank(s: string)
    requires TrimSpace(s) == ""
    ensures IsBlank(s)
    decreases |s|
  {
    if s != "" {
      if IsSpace(s[0]) {
        TrimmedAwayIsBlank(s[1..]);
        assert s == [s[0]] + s[1..];
      } else {
        TrimmedAwayIsBlank(s[..|s| - 1]);
      }
    }
  }

  predicate IsDigit(c: char) { '0' <= c <= '9' }

  predicate AllDigits(s: string) { forall i :: 0 <= i < |s| ==> IsDigit(s[i]) }

  function Digit(n: nat): (c: char)
    requires n < 10
    ensures IsDigit(c)
  { '0' + n as char }

  function DigitValue(c: char): (n: nat)
    requires IsDigit(c)
    ensures n < 10
    ensures Digit(n) == c
  { c as int - '0' as int }

  /** How %d and strconv print a non-negative number. */
  function Decimal(n: nat): (s: string)
    ensures |s| > 0 && AllDigits(s)
    ensures |s| > 1 ==> s[0] != '0'
    ensures n > 0 ==> s[0] != '0'
  {
    if n < 10 then [Digit(n)] else Decimal(n / 10) + [Digit(n % 10)]
  }

  /** The number a digit string denotes in base ten; the empty string denotes 0. */
  function Value(s: string): nat
    requires AllDigits(s)
  {
    if s == [] then 0 else 10 * Value(s[..|s| - 1]) + DigitValue(s[|s| - 1])
  }

  /** A digit string no decimal printer would produce has a leading zero. */
  predicate Canonical(s: string) {
    |s| > 0 && AllDigits(s) && (|s| > 1 ==> s[0] != '0')
  }

  lemma {:induction false} ValueOfDecimal(n: nat)
    ensures Value(Decimal(n)) == n
  {
    if n >= 10 {
      ValueOfDecimal(n / 10);
      var s := Decimal(n);
      assert s[..|s| - 1] == Decimal(n / 10);
    }
  }

  lemma DecimalInjective(m: nat, n: nat)
    requires Decimal(m) == Decimal(n)
    ensures m == n
  {
    ValueOfDecimal(m);
    ValueOfDecimal(n);
  }

  /** A non-empty digit string that does not start with zero denotes a positive number. */
  lemma {:induction false} LeadingDigitPositive(s: string)
    requires |s| > 0 && AllDigits(s) && s[0] != '0'
    ensures Value(s) > 0
  {
    if |s| > 1 { LeadingDigitPositive(s[..|s| - 1]); }
  }

  lemma {:induction false} DecimalOfValue(s: string)
    requires Canonical(s)
    ensures Decimal(Value(s)) == s
  {
    var init, last := s[..|s| - 1], s[|s| - 1];
    if |s| > 1 {
      LeadingDigitPositive(init);
      DecimalOfValue(init);
      assert s == init + [last];
    }
  }

  function IndexFrom(s: string, c: char, from: nat): (i: nat)
    requires from <= |s|
    ensures from <= i <= |s|
    decreases |s| - from
  {
    if from == |s| || s[from] == c then from else IndexFrom(s, c, from + 1)
  }

  /** The position of the first occurrence of c, or |s|. */
  function FirstIndex(s: string, c: char): (i: nat)
    ensures i <= |s|
  {
    IndexFrom(s, c, 0)
  }

  lemma {:induction false} IndexFromIsFirst(s: string, c: char, from: nat, i: nat)
    requires from <= i <= |s| && c !in s[from..i]
    requires i < |s| ==> s[i] == c
    ensures IndexFrom(s, c, from) == i
    decreases |s| - from
  {
    if from < i {
      assert s[from] == s[from..i][0];
      assert s[from + 1..i] == s[from..i][1..];
      IndexFromIsFirst(s, c, from + 1, i);
    }
  }

  lemma {:induction false} IndexFromFinds(s: string, c: char, from: nat)
    requires from <= |s|
    ensures var i := IndexFrom(s, c, from); c !in s[from..i] && (i < |s| ==> s[i] == c)
    decreases |s| - from
  {
    if from < |s| && s[from] != c {
      IndexFromFinds(s, c, from + 1);
      var i := IndexFrom(s, c, from);
      assert s[from..i] == [s[from]] + s[from + 1..i];
    }
  }

  lemma FirstIndexFinds(s: string, c: char)
    ensures var i := FirstIndex(s, c); c !in s[..i] && (i < |s| ==> s[i] == c)
  {
    IndexFromFinds(s, c, 0);
    assert s[0..FirstIndex(s, c)] == s[..FirstIndex(s, c)];
  }

  /** A separator behind text that does not contain it is found where it stands. */
  lemma FirstIndexIn(a: string, b: string, c: char)
    requires c !in a
    ensures FirstIndex(a + [c] + b, c) == |a|
    ensures FirstIndex(a, c) == |a|
  {
    var s := a + [c] + b;
    assert s[0..|a|] == a && a[0..|a|] == a;
    IndexFromIsFirst(s, c, 0, |a|);
    IndexFromIsFirst(a, c, 0, |a|);
  }

  lemma FirstIndexConcat(a: string, b: string, c: char)
    requires c !in a
    ensures FirstIndex(a + b, c) == |a| + FirstIndex(b, c)
  {
    FirstIndexFinds(b, c);
    var i := FirstIndex(b, c);
    assert (a + b)[0..|a| + i] == a + b[..i];
    IndexFromIsFirst(a + b, c, 0, |a| + i);
  }

  /** Of two separator positions in one text, the earlier lies inside the other left part. */
  lemma EarlierSeparatorInside(a: string, b: string, a': string, b': string, c: char)
    requires a + [c] + b == a' + [c] + b'
    requires |a| < |a'|
    ensures c in a' && c in b
  {
    var s := a + [c] + b;
    assert s[|a|] == a'[|a|];
    assert s[|a'|] == b[|a'| - |a| - 1];
    assert (a' + [c] + b')[|a'|] == c;
  }

  /** A separator that does not occur on its left (or, on both sides, on its right)
      splits a text in one way only. */
  lemma SplitUnique(a: string, b: string, a': string, b': string, c: char)
    requires a + [c] + b == a' + [c] + b'
    requires (c !in a && c !in a') || (c !in b && c !in b')
    ensures a == a' && b == b'
  {
    if |a| < |a'| { EarlierSeparatorInside(a, b, a', b', c); }
    if |a'| < |a| { EarlierSeparatorInside(a', b', a, b, c); }
    var s := a + [c] + b;
    assert a == s[..|a|] && a' == s[..|a'|];
    assert b == s[|a| + 1..] && b' == s[|a'| + 1..];
  }

  /** The order of sort.Strings. */
  predicate Less(a: string, b: string) {
    b != [] && (a == [] || a[0] < b[0] || (a[0] == b[0] && Less(a[1..], b[1..])))
  }

  lemma {:induction false} LessTotal(a: string, b: string)
    ensures a == b || Less(a, b) || Less(b, a)
  {
    if a != [] && b != [] && a[0] == b[0] {
      LessTotal(a[1..], b[1..]);
      assert a == [a[0]] + a[1..] && b == [b[0]] + b[1..];
    }
  }

  lemma {:induction false} LessTransitive(a: string, b: string, c: string)
    requires Less(a, b) && Less(b, c)
    ensures Less(a, c)
  {
    if a != [] && a[0] == b[0] == c[0] { LessTransitive(a[1..], b[1..], c[1..]); }
  }

  lemma {:induction false} LessIrreflexive(a: string)
    ensures !Less(a, a)
  {
    if a != [] { LessIrreflexive(a[1..]); }
  }

  /** At i, and not before it, a and b differ, and a has the smaller character. */
  predicate SmallerAt(a: string, b: string, i: nat) {
    i < |a| && i < |b| && a[..i] == b[..i] && a[i] < b[i]
  }

  /** The order is the lexicographic one of the characters. */
  lemma {:induction false} LessIsLexicographic(a: string, b: string)
    ensures Less(a, b) <==> (a <= b && a != b) || exists i: nat :: SmallerAt(a, b, i)
  {
    if a != "" && b != "" {
      LessIsLexicographic(a[1..], b[1..]);
      assert a == [a[0]] + a[1..] && b == [b[0]] + b[1..];
      if a[0] < b[0] {
        assert SmallerAt(a, b, 0);
      }
      if a[0] == b[0] { LexicographicStep(a, b); }
    }
  }

  lemma LexicographicStep(a: string, b: string)
    requires a != "" && b != "" && a[0] == b[0]
    ensures (exists i: nat :: SmallerAt(a, b, i)) <==> exists i: nat :: SmallerAt(a[1..], b[1..], i)
  {
    if i: nat :| SmallerAt(a, b, i) {
      assert i > 0;
      assert a[1..][..i - 1] == a[..i][1..] && b[1..][..i - 1] == b[..i][1..];
      assert SmallerAt(a[1..], b[1..], i - 1);
    }
    if i: nat :| SmallerAt(a[1..], b[1..], i) {
      assert a[..i + 1] == [a[0]] + a[1..][..i] && b[..i + 1] == [b[0]] + b[1..][..i];
      assert SmallerAt(a, b, i + 1);
    }
  }
}
