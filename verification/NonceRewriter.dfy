/** Adding the content-security nonce to every script tag of a snippet. The model lowers
    ASCII letters only, so it is the program's behaviour on ASCII snippets. */
module NonceRewriter {
  import opened Text

  /** The two texts the rewriter looks for. */
  datatype Syntax = Syntax(open: string, mark: string) {
    predicate Valid() {
      && open != [] && open[0] == '<' && '<' !in open[1..] && '>' !in open
      && mark != [] && '>' !in mark && open[|open| - 1] !in mark
    }
  }

  const HTML := Syntax("<script", "nonce=")

  function Lower(c: char): char {
    if 'A' <= c <= 'Z' then c + 32 as char else c
  }

  /** The lowered text has the pattern at a position. */
  predicate Occurs(s: string, at: nat, pattern: string) {
    at + |pattern| <= |s| && Matches(s, at, pattern)
  }

  predicate Matches(s: string, at: nat, pattern: string)
    requires at + |pattern| <= |s|
    decreases |pattern|
  {
    pattern == [] || (Lower(s[at]) == pattern[0] && Matches(s, at + 1, pattern[1..]))
  }

  ghost predicate OccursSpelled(s: string, at: nat, pattern: string) {
    at + |pattern| <= |s| && forall k :: at <= k < at + |pattern| ==> Lower(s[k]) == pattern[k - at]
  }

  lemma {:induction false} Spell(s: string, at: nat, pattern: string)
    ensures Occurs(s, at, pattern) <==> OccursSpelled(s, at, pattern)
    decreases |pattern|
  {
    if pattern != [] && at + |pattern| <= |s| {
      Spell(s, at + 1, pattern[1..]);
      if OccursSpelled(s, at + 1, pattern[1..]) && Lower(s[at]) == pattern[0] {
        forall k | at <= k < at + |pattern| ensures Lower(s[k]) == pattern[k - at] {
          if k > at { assert pattern[k - at] == pattern[1..][k - at - 1]; }
        }
      }
      if OccursSpelled(s, at, pattern) {
        forall k | at + 1 <= k < at + |pattern| ensures Lower(s[k]) == pattern[1..][k - at - 1] {
          assert Lower(s[k]) == pattern[k - at];
        }
      }
    }
  }

  function FirstFrom(s: string, pattern: string, from: nat): (i: nat)
    requires pattern != [] && from <= |s|
    ensures i < |s| ==> i + |pattern| <= |s|
    ensures i <= |s|
    decreases |s| - from
  {
    if from + |pattern| > |s| then |s|
    else if Occurs(s, from, pattern) then from
    else FirstFrom(s, pattern, from + 1)
  }

  /** strings.Index on the lowered text, with |s| for "not found". */
  function FirstOccurrence(s: string, pattern: string): (i: nat)
    requires pattern != []
    ensures i < |s| ==> i + |pattern| <= |s|
    ensures i <= |s|
  {
    FirstFrom(s, pattern, 0)
  }

  lemma {:induction false} FirstFromIsFirst(s: string, pattern: string, from: nat)
    requires pattern != [] && from <= |s|
    ensures var i := FirstFrom(s, pattern, from);
            from <= i && (i < |s| ==> Occurs(s, i, pattern)) &&
            forall q: nat :: from <= q < i ==> !Occurs(s, q, pattern)
    decreases |s| - from
  {
    if from + |pattern| <= |s| && !Occurs(s, from, pattern) {
      FirstFromIsFirst(s, pattern, from + 1);
    }
  }

  lemma FirstOccurrenceIsFirst(s: string, pattern: string)
    requires pattern != []
    ensures var i := FirstOccurrence(s, pattern);
            (i < |s| ==> Occurs(s, i, pattern)) && forall q: nat :: q < i ==> !Occurs(s, q, pattern)
  {
    FirstFromIsFirst(s, pattern, 0);
  }

  predicate Contains(s: string, pattern: string)
    requires pattern != []
  {
    FirstOccurrence(s, pattern) < |s|
  }

  lemma ContainsAt(s: string, pattern: string, q: nat)
    requires pattern != [] && Occurs(s, q, pattern)
    ensures Contains(s, pattern)
  {
    FirstOccurrenceIsFirst(s, pattern);
  }

  lemma ContainsWhere(s: string, pattern: string) returns (q: nat)
    requires pattern != [] && Contains(s, pattern)
    ensures Occurs(s, q, pattern)
  {
    FirstOccurrenceIsFirst(s, pattern);
    q := FirstOccurrence(s, pattern);
  }

  /** The rest of a tag up to, and without, the next '>'. */
  function Tag(rest: string): string { rest[..FirstIndex(rest, '>')] }

  predicate Carries(x: Syntax, rest: string)
    requires x.Valid()
  {
    Contains(Tag(rest), x.mark)
  }

  function EscapeChar(c: char): string {
    if c == '&' then "&amp;" else if c == '\'' then "&#39;" else if c == '<' then "&lt;"
    else if c == '>' then "&gt;" else if c == '"' then "&#34;" else [c]
  }

  /** html.EscapeString. */
  function Escape(s: string): (r: string)
    ensures '<' !in r && '>' !in r && '"' !in r
  {
    if s == [] then [] else EscapeChar(s[0]) + Escape(s[1..])
  }

  function Attribute(nonce: string): string { " nonce=\"" + Escape(nonce) + "\"" }

  /** Where the next script name ends; |s| + 1 when there is none. */
  function NextEnd(x: Syntax, s: string): (end: nat)
    requires x.Valid()
    ensures end >= |x.open| || end > |s|
  {
    var i := FirstOccurrence(s, x.open);
    if i == |s| then |s| + 1 else i + |x.open|
  }

  lemma NextEndIsNext(x: Syntax, s: string)
    requires x.Valid()
    ensures var end := NextEnd(x, s);
            (end <= |s| ==> end >= |x.open| && Occurs(s, end - |x.open|, x.open)) &&
            forall q: nat :: q + |x.open| < end ==> !Occurs(s, q, x.open)
  {
    FirstOccurrenceIsFirst(s, x.open);
  }

  function Rewrite(x: Syntax, s: string, attribute: string): string
    requires x.Valid()
    decreases |s|
  {
    var end := NextEnd(x, s);
    if end > |s| then s
    else s[..end] + (Middle(x, s[end..], attribute) + Rewrite(x, s[end..], attribute))
  }

  function Middle(x: Syntax, rest: string, attribute: string): string
    requires x.Valid()
  {
    if Carries(x, rest) then [] else attribute
  }

  function WithNonceOf(snippet: string, nonce: string): string {
    if nonce == "" || snippet == "" then snippet else Rewrite(HTML, snippet, Attribute(nonce))
  }

  lemma RewriteStep(x: Syntax, builder: string, s: string, attribute: string, end: nat, middle: string)
    requires x.Valid() && end == NextEnd(x, s) <= |s| && middle == Middle(x, s[end..], attribute)
    ensures (builder + s[..end] + middle) + Rewrite(x, s[end..], attribute) == builder + Rewrite(x, s, attribute)
  {
    assert Rewrite(x, s, attribute) == s[..end] + (middle + Rewrite(x, s[end..], attribute));
  }

  /** The loop of withNonce over the builder and the remaining text. */
  method RewriteLoop(x: Syntax, snippet: string, attribute: string) returns (builder: string)
    requires x.Valid()
    ensures builder == Rewrite(x, snippet, attribute)
  {
    builder := "";
    var remaining := snippet;
    while true
      invariant builder + Rewrite(x, remaining, attribute) == Rewrite(x, snippet, attribute)
      decreases |remaining|
    {
      var index := FirstOccurrence(remaining, x.open);
      if index == |remaining| { return builder + remaining; }
      var end := index + |x.open|;
      var tag := Tag(remaining[end..]);
      ghost var middle := Middle(x, remaining[end..], attribute);
      RewriteStep(x, builder, remaining, attribute, end, middle);
      builder := builder + remaining[..end];
      if !Contains(tag, x.mark) {
        builder := builder + attribute;
      } else {
        assert builder + middle == builder;
      }
      remaining := remaining[end..];
    }
  }

  method WithNonce(snippet: string, nonce: string) returns (r: string)
    ensures r == WithNonceOf(snippet, nonce)
  {
    if nonce == "" || snippet == "" { return snippet; }
    r := RewriteLoop(HTML, snippet, Attribute(nonce));
  }

  // ----- Where the attribute goes -----

  /** A stretch of the snippet up to the end of a script name (or of the snippet), and
      whether the attribute is inserted behind it. */
  datatype Piece = Piece(text: string, cut: bool)

  function Pieces(x: Syntax, s: string): seq<Piece>
    requires x.Valid()
    decreases |s|
  {
    var end := NextEnd(x, s);
    if end > |s| then [Piece(s, false)]
    else [Piece(s[..end], !Carries(x, s[end..]))] + Pieces(x, s[end..])
  }

  /** The pieces in order, with text inserted behind those that are cut. */
  function Render(pieces: seq<Piece>, text: string): string {
    if pieces == [] then []
    else pieces[0].text + ((if pieces[0].cut then text else []) + Render(pieces[1..], text))
  }

  /** The positions, counted from offset, at which Render inserts. */
  function Cuts(pieces: seq<Piece>, offset: nat): set<nat> {
    if pieces == [] then {}
    else
      var next := offset + |pieces[0].text|;
      (if pieces[0].cut then {next} else {}) + Cuts(pieces[1..], next)
  }

  /** A script name ends at p and its tag has no nonce before its '>'. */
  predicate NeedsNonce(x: Syntax, s: string, p: int)
    requires x.Valid()
  {
    |x.open| <= p <= |s| && Occurs(s, p - |x.open|, x.open) && !Carries(x, s[p..])
  }

  lemma OccursInTail(s: string, end: nat, q: nat, pattern: string)
    requires end <= |s| && pattern != []
    ensures Occurs(s, end + q, pattern) <==> Occurs(s[end..], q, pattern)
  {
    Spell(s, end + q, pattern);
    Spell(s[end..], q, pattern);
    if OccursSpelled(s[end..], q, pattern) {
      forall k | end + q <= k < end + q + |pattern| ensures Lower(s[k]) == pattern[k - end - q] {
        assert s[k] == s[end..][k - end];
      }
    }
  }

  /** Script names do not overlap: after its first character the name has no '<'. */
  lemma ScriptsDoNotOverlap(x: Syntax, s: string, i: nat, j: nat)
    requires x.Valid() && Occurs(s, i, x.open) && Occurs(s, j, x.open) && i < j
    ensures i + |x.open| <= j
  {
    Spell(s, i, x.open);
    Spell(s, j, x.open);
    assert Lower(s[j]) == '<';
    assert forall k :: 1 <= k < |x.open| ==> x.open[k] == x.open[1..][k - 1];
  }

  lemma FirstNeed(x: Syntax, s: string, q: int)
    requires x.Valid() && NextEnd(x, s) <= |s| && q <= NextEnd(x, s)
    ensures NeedsNonce(x, s, q) <==> q == NextEnd(x, s) && !Carries(x, s[NextEnd(x, s)..])
  {
    NextEndIsNext(x, s);
  }

  lemma LaterNeed(x: Syntax, s: string, q: int)
    requires x.Valid() && NextEnd(x, s) <= |s| && q > NextEnd(x, s)
    ensures NeedsNonce(x, s, q) <==> NeedsNonce(x, s[NextEnd(x, s)..], q - NextEnd(x, s))
  {
    var end := NextEnd(x, s);
    NextEndIsNext(x, s);
    if |x.open| <= q <= |s| {
      assert s[end..][q - end..] == s[q..];
      if Occurs(s, q - |x.open|, x.open) { ScriptsDoNotOverlap(x, s, end - |x.open|, q - |x.open|); }
      if q - |x.open| >= end { OccursInTail(s, end, q - |x.open| - end, x.open); }
    }
  }

  lemma NeedStep(x: Syntax, s: string, q: int)
    requires x.Valid() && NextEnd(x, s) <= |s|
    ensures var end := NextEnd(x, s);
            NeedsNonce(x, s, q) <==> (q == end && !Carries(x, s[end..])) || NeedsNonce(x, s[end..], q - end)
  {
    if q <= NextEnd(x, s) { FirstNeed(x, s, q); } else { LaterNeed(x, s, q); }
  }

  lemma {:induction false} CutsAreWhereNeeded(x: Syntax, s: string, offset: nat, p: nat)
    requires x.Valid()
    ensures p in Cuts(Pieces(x, s), offset) <==> NeedsNonce(x, s, p - offset)
    decreases |s|
  {
    var end := NextEnd(x, s);
    if end <= |s| {
      CutsAreWhereNeeded(x, s[end..], offset + end, p);
      CutAndNeed(x, s, s[end..], !Carries(x, s[end..]), offset, p);
    } else {
      NoCuts(x, s, offset, p);
    }
  }

  lemma CutAndNeed(x: Syntax, s: string, rest: string, inserts: bool, offset: nat, p: nat)
    requires x.Valid() && NextEnd(x, s) <= |s| && rest == s[NextEnd(x, s)..] && inserts == !Carries(x, rest)
    requires p in Cuts(Pieces(x, rest), offset + NextEnd(x, s)) <==> NeedsNonce(x, rest, p - offset - NextEnd(x, s))
    ensures p in Cuts(Pieces(x, s), offset) <==> NeedsNonce(x, s, p - offset)
  {
    CutStep(x, s, rest, inserts, offset, p);
    NeedStep(x, s, p - offset);
  }

  /** Where a text is cut: behind its first script name, or where the rest is. */
  lemma CutStep(x: Syntax, s: string, rest: string, inserts: bool, offset: nat, p: nat)
    requires x.Valid() && NextEnd(x, s) <= |s| && rest == s[NextEnd(x, s)..] && inserts == !Carries(x, rest)
    ensures var next := offset + NextEnd(x, s);
            p in Cuts(Pieces(x, s), offset) <==> (p == next && inserts) || p in Cuts(Pieces(x, rest), next)
  {
    PieceStep(x, s, offset);
  }

  lemma NoCuts(x: Syntax, s: string, offset: nat, p: nat)
    requires x.Valid() && NextEnd(x, s) > |s|
    ensures Cuts(Pieces(x, s), offset) == {}
    ensures !NeedsNonce(x, s, p - offset)
  {
    NextEndIsNext(x, s);
    assert Pieces(x, s)[1..] == [];
  }

  lemma PieceStep(x: Syntax, s: string, offset: nat)
    requires x.Valid() && NextEnd(x, s) <= |s|
    ensures var end := NextEnd(x, s);
            Cuts(Pieces(x, s), offset) ==
              (if Carries(x, s[end..]) then {} else {offset + end}) + Cuts(Pieces(x, s[end..]), offset + end)
  {
    var end := NextEnd(x, s);
    assert Pieces(x, s)[1..] == Pieces(x, s[end..]);
  }

  lemma {:induction false} PiecesRender(x: Syntax, s: string, attribute: string)
    requires x.Valid()
    ensures Rewrite(x, s, attribute) == Render(Pieces(x, s), attribute)
    ensures Render(Pieces(x, s), []) == s
    decreases |s|
  {
    var end := NextEnd(x, s);
    if end <= |s| {
      PiecesRender(x, s[end..], attribute);
      assert Pieces(x, s)[1..] == Pieces(x, s[end..]);
      assert Render(Pieces(x, s), []) == s[..end] + ([] + s[end..]);
    } else {
      assert Pieces(x, s)[1..] == [];
      assert Render([Piece(s, false)], attribute) == s + ([] + []);
      assert Render([Piece(s, false)], []) == s + ([] + []);
    }
  }

  lemma RewriteIsExact(x: Syntax, snippet: string, attribute: string)
    requires x.Valid()
    ensures Rewrite(x, snippet, attribute) == Render(Pieces(x, snippet), attribute)
    ensures Render(Pieces(x, snippet), []) == snippet
    ensures forall p: nat :: p in Cuts(Pieces(x, snippet), 0) <==> NeedsNonce(x, snippet, p)
  {
    PiecesRender(x, snippet, attribute);
    CutsAreNeeds(x, snippet);
  }

  lemma CutsAreNeeds(x: Syntax, snippet: string)
    requires x.Valid()
    ensures forall p: nat :: p in Cuts(Pieces(x, snippet), 0) <==> NeedsNonce(x, snippet, p)
  {
    forall p: nat ensures p in Cuts(Pieces(x, snippet), 0) <==> NeedsNonce(x, snippet, p) {
      CutsAreWhereNeeded(x, snippet, 0, p);
    }
  }

  /** The output is the snippet with the attribute inserted behind exactly those script
      names whose tag has no nonce yet, and leaving the insertions out restores the snippet. */
  lemma InsertionsAreExact(x: Syntax, snippet: string, nonce: string)
    requires x == HTML && nonce != "" && snippet != ""
    ensures x.Valid()
    ensures WithNonceOf(snippet, nonce) == Render(Pieces(x, snippet), Attribute(nonce))
    ensures Render(Pieces(x, snippet), []) == snippet
    ensures forall p: nat :: p in Cuts(Pieces(x, snippet), 0) <==> NeedsNonce(x, snippet, p)
  {
    RewriteIsExact(x, snippet, Attribute(nonce));
  }

  // ----- Every script tag carries a nonce -----

  /** What the attribute needs for the proofs: it names the nonce and opens or closes no tag. */
  predicate GoodAttribute(x: Syntax, a: string)
    requires x.Valid()
  {
    '<' !in a && '>' !in a && Contains(a, x.mark)
  }

  lemma OccursInConcat(a: string, b: string, q: nat, pattern: string)
    requires pattern != []
    ensures Occurs(a + b, |a| + q, pattern) <==> Occurs(b, q, pattern)
  {
    assert (a + b)[|a|..] == b;
    OccursInTail(a + b, |a|, q, pattern);
  }

  lemma OccursInFront(a: string, b: string, q: nat, pattern: string)
    requires pattern != [] && q + |pattern| <= |a|
    ensures Occurs(a + b, q, pattern) <==> Occurs(a, q, pattern)
  {
    Spell(a + b, q, pattern);
    Spell(a, q, pattern);
    assert forall k :: q <= k < q + |pattern| ==> (a + b)[k] == a[k];
  }

  lemma ContainsConcat(a: string, b: string, pattern: string)
    requires pattern != [] && (Contains(a, pattern) || Contains(b, pattern))
    ensures Contains(a + b, pattern)
  {
    if Contains(a, pattern) {
      var q := ContainsWhere(a, pattern);
      OccursInFront(a, b, q, pattern);
      ContainsAt(a + b, pattern, q);
    } else {
      var q := ContainsWhere(b, pattern);
      OccursInConcat(a, b, q, pattern);
      ContainsAt(a + b, pattern, |a| + q);
    }
  }

  lemma MarkedIsContained(before: string, mark: string, after: string)
    requires mark != [] && forall k :: 0 <= k < |mark| ==> Lower(mark[k]) == mark[k]
    ensures Contains(before + mark + after, mark)
  {
    Spell(mark, 0, mark);
    ContainsAt(mark, mark, 0);
    ContainsConcat(before, mark, mark);
    ContainsConcat(before + mark, after, mark);
  }

  lemma AttributeSplits(escaped: string)
    ensures " nonce=\"" + escaped + "\"" == " " + "nonce=" + ("\"" + escaped + "\"")
  {
  }

  lemma AttributeIsGood(x: Syntax, nonce: string)
    requires x == HTML
    ensures x.Valid() && GoodAttribute(x, Attribute(nonce))
  {
    var escaped := Escape(nonce);
    AttributeSplits(escaped);
    MarkedIsContained(" ", x.mark, "\"" + escaped + "\"");
  }

  /** Text without '>' in front only lengthens the tag. */
  lemma TagConcat(a: string, b: string)
    requires '>' !in a
    ensures Tag(a + b) == a + Tag(b)
  {
    FirstIndexConcat(a, b, '>');
  }

  lemma CarriesConcat(x: Syntax, a: string, b: string)
    requires x.Valid() && '>' !in a && (Contains(a, x.mark) || Carries(x, b))
    ensures Carries(x, a + b)
  {
    TagConcat(a, b);
    ContainsConcat(a, Tag(b), x.mark);
  }

  /** A nonce mark lies wholly before or wholly behind the end of a script name. */
  lemma MarkAvoidsScript(x: Syntax, s: string, i: nat, k: nat)
    requires x.Valid() && Occurs(s, i, x.open) && Occurs(s, k, x.mark)
    ensures k + |x.mark| <= i + |x.open| || i + |x.open| <= k
  {
    var last := i + |x.open| - 1;
    Spell(s, i, x.open);
    Spell(s, k, x.mark);
    assert Lower(s[last]) == x.open[|x.open| - 1];
  }

  /** Where the mark of a carrying text lies relative to a script name in it. */
  lemma CarryingSplits(x: Syntax, head: string, rest: string)
    requires x.Valid() && Carries(x, head + rest)
    requires |head| >= |x.open| && Occurs(head, |head| - |x.open|, x.open)
    ensures Contains(Tag(head), x.mark) || ('>' !in head && Carries(x, rest))
  {
    var s := head + rest;
    var k := ContainsWhere(Tag(s), x.mark);
    var n := |Tag(s)|;
    assert Tag(s) + s[n..] == s;
    OccursInFront(Tag(s), s[n..], k, x.mark);
    assert head + [] == head;
    OccursInFront(head, rest, |head| - |x.open|, x.open);
    MarkAvoidsScript(x, s, |head| - |x.open|, k);
    if '>' in head {
      TagOfHead(head, rest);
      ContainsAt(Tag(head), x.mark, k);
    } else {
      TagConcat(head, rest);
      assert Tag(head) == head by { assert head + [] == head; TagConcat(head, []); }
      if k + |x.mark| <= |head| {
        OccursInFront(head, rest, k, x.mark);
        ContainsAt(head, x.mark, k);
      } else {
        OccursInConcat(head, Tag(rest), k - |head|, x.mark);
        ContainsAt(Tag(rest), x.mark, k - |head|);
      }
    }
  }

  lemma {:induction false} TagOfHead(head: string, rest: string)
    requires '>' in head
    ensures Tag(head + rest) == Tag(head)
  {
    var n := FirstIndex(head, '>');
    FirstIndexFinds(head, '>');
    assert head[..|head|] == head;
    var a, b := head[..n], head[n..];
    assert head == a + b && b[0] == '>';
    assert head + rest == a + (b + rest);
    FirstIndexConcat(a, b + rest, '>');
    FirstIndexConcat(a, b, '>');
  }

  lemma {:induction false} RewriteKeepsCarrying(x: Syntax, s: string, attribute: string)
    requires x.Valid() && Carries(x, s) && GoodAttribute(x, attribute)
    ensures Carries(x, Rewrite(x, s, attribute))
    decreases |s|
  {
    var end := NextEnd(x, s);
    if end <= |s| {
      var head, rest := s[..end], s[end..];
      assert s == head + rest;
      NextEndIsNext(x, s);
      OccursInFront(head, rest, |head| - |x.open|, x.open);
      CarryingSplits(x, head, rest);
      if !Contains(Tag(head), x.mark) { RewriteKeepsCarrying(x, rest, attribute); }
      StretchKeepsCarrying(x, head, Middle(x, rest, attribute), Rewrite(x, rest, attribute));
    }
  }

  lemma StretchKeepsCarrying(x: Syntax, head: string, middle: string, tail: string)
    requires x.Valid()
    requires Contains(Tag(head), x.mark) || ('>' !in head && middle == [] && Carries(x, tail))
    ensures Carries(x, head + (middle + tail))
  {
    if Contains(Tag(head), x.mark) {
      TagContainsCarries(x, head, middle + tail);
    } else {
      assert middle + tail == tail;
      CarriesConcat(x, head, tail);
    }
  }

  lemma TagContainsCarries(x: Syntax, head: string, tail: string)
    requires x.Valid() && Contains(Tag(head), x.mark)
    ensures Carries(x, head + tail)
  {
    if '>' in head {
      TagOfHead(head, tail);
    } else {
      assert Tag(head) == head by { assert head + [] == head; TagConcat(head, []); }
      CarriesConcat(x, head, tail);
    }
  }

  lemma BehindScriptCarries(x: Syntax, rest: string, attribute: string)
    requires x.Valid() && GoodAttribute(x, attribute)
    ensures Carries(x, Middle(x, rest, attribute) + Rewrite(x, rest, attribute))
  {
    var tail := Rewrite(x, rest, attribute);
    if Carries(x, rest) {
      RewriteKeepsCarrying(x, rest, attribute);
      assert [] + tail == tail;
    } else {
      CarriesConcat(x, attribute, tail);
    }
  }

  /** Every script tag of a text has a nonce before its '>'. */
  ghost predicate AllCarry(x: Syntax, s: string)
    requires x.Valid()
  {
    forall q: nat :: Occurs(s, q, x.open) ==> Carries(x, s[q + |x.open|..])
  }

  /** A script name of the output is the first of the input or lies behind the insertion. */
  lemma OutputTagPosition(x: Syntax, s: string, end: nat, middle: string, tail: string, q: nat)
    requires x.Valid() && |x.open| <= end <= |s| && Occurs(s, end - |x.open|, x.open)
    requires forall m: nat :: m + |x.open| < end ==> !Occurs(s, m, x.open)
    requires '<' !in middle && Occurs(s[..end] + (middle + tail), q, x.open)
    ensures q + |x.open| == end || q >= end + |middle|
  {
    var out := s[..end] + (middle + tail);
    Spell(out, q, x.open);
    Spell(s, end - |x.open|, x.open);
    assert Lower(out[q]) == '<' && out[q] == '<';
    assert forall k :: 1 <= k < |x.open| ==> x.open[k] == x.open[1..][k - 1];
    if q + |x.open| < end {
      OccursInFront(s[..end], middle + tail, q, x.open);
      assert s == s[..end] + s[end..];
      OccursInFront(s[..end], s[end..], q, x.open);
    }
  }

  lemma {:induction false} RewriteCarriesEverywhere(x: Syntax, s: string, attribute: string)
    requires x.Valid() && GoodAttribute(x, attribute)
    ensures AllCarry(x, Rewrite(x, s, attribute))
    decreases |s|
  {
    var end := NextEnd(x, s);
    if end <= |s| {
      var rest := s[end..];
      RewriteCarriesEverywhere(x, rest, attribute);
      BehindScriptCarries(x, rest, attribute);
      NextEndIsNext(x, s);
      var middle, tail := Middle(x, rest, attribute), Rewrite(x, rest, attribute);
      var out := s[..end] + (middle + tail);
      forall q: nat | Occurs(out, q, x.open) ensures Carries(x, out[q + |x.open|..]) {
        OutputTagCarries(x, s, end, middle, tail, q);
      }
    } else {
      NextEndIsNext(x, s);
    }
  }

  lemma OutputTagCarries(x: Syntax, s: string, end: nat, middle: string, tail: string, q: nat)
    requires x.Valid() && |x.open| <= end <= |s| && Occurs(s, end - |x.open|, x.open)
    requires forall m: nat :: m + |x.open| < end ==> !Occurs(s, m, x.open)
    requires '<' !in middle && AllCarry(x, tail) && Carries(x, middle + tail)
    requires Occurs(s[..end] + (middle + tail), q, x.open)
    ensures Carries(x, (s[..end] + (middle + tail))[q + |x.open|..])
  {
    var out := s[..end] + (middle + tail);
    OutputTagPosition(x, s, end, middle, tail, q);
    if q + |x.open| == end {
      assert out[end..] == middle + tail;
    } else {
      var front := s[..end] + middle;
      assert out == front + tail;
      OccursInConcat(front, tail, q - |front|, x.open);
      assert out[q + |x.open|..] == tail[q - |front| + |x.open|..];
    }
  }

  lemma {:induction false} NothingLeftToRewrite(x: Syntax, s: string, attribute: string)
    requires x.Valid() && AllCarry(x, s)
    ensures Rewrite(x, s, attribute) == s
    decreases |s|
  {
    var end := NextEnd(x, s);
    if end <= |s| {
      var rest := s[end..];
      forall q: nat | Occurs(rest, q, x.open) ensures Carries(x, rest[q + |x.open|..]) {
        OccursInTail(s, end, q, x.open);
        assert rest[q + |x.open|..] == s[end + q + |x.open|..];
      }
      NothingLeftToRewrite(x, rest, attribute);
      NextEndIsNext(x, s);
      assert s == s[..end] + rest;
      assert [] + rest == rest;
    }
  }

  /** In the output every script tag carries a nonce before its next '>'. */
  lemma EveryScriptCarriesNonce(x: Syntax, snippet: string, nonce: string)
    requires x == HTML && nonce != "" && snippet != ""
    ensures x.Valid() && AllCarry(x, WithNonceOf(snippet, nonce))
  {
    AttributeIsGood(x, nonce);
    RewriteCarriesEverywhere(x, snippet, Attribute(nonce));
  }

  /** Rewriting twice, even with different nonces, equals rewriting once. */
  lemma RewritingIsIdempotent(x: Syntax, snippet: string, nonce: string, again: string)
    requires x == HTML && nonce != ""
    ensures WithNonceOf(WithNonceOf(snippet, nonce), again) == WithNonceOf(snippet, nonce)
  {
    if snippet != "" {
      EveryScriptCarriesNonce(x, snippet, nonce);
      NothingLeftToRewrite(x, WithNonceOf(snippet, nonce), Attribute(again));
    }
  }

  // ----- The inserted nonce -----

  /** What an HTML reader makes of an attribute value, as far as the five references that
      html.EscapeString writes. */
  function Unescape(s: string): string
    decreases |s|
  {
    if s == [] then []
    else if "&amp;" <= s then "&" + Unescape(s[5..])
    else if "&#39;" <= s then "'" + Unescape(s[5..])
    else if "&lt;" <= s then "<" + Unescape(s[4..])
    else if "&gt;" <= s then ">" + Unescape(s[4..])
    else if "&#34;" <= s then "\"" + Unescape(s[5..])
    else [s[0]] + Unescape(s[1..])
  }

  lemma UnescapeReference(reference: string, c: char, rest: string)
    requires (reference, c) in {("&amp;", '&'), ("&#39;", '\''), ("&lt;", '<'), ("&gt;", '>'), ("&#34;", '"')}
    ensures Unescape(reference + rest) == [c] + Unescape(rest)
  {
    var s := reference + rest;
    assert s[..|reference|] == reference && s[|reference|..] == rest;
    assert s[0] == reference[0] && s[1] == reference[1] && s[2] == reference[2] && s[3] == reference[3];
  }

  lemma UnescapeOther(c: char, rest: string)
    requires c != '&'
    ensures Unescape([c] + rest) == [c] + Unescape(rest)
  {
    var s := [c] + rest;
    assert s[0] == c && s[1..] == rest;
  }

  lemma UnescapeChar(c: char, rest: string)
    ensures Unescape(EscapeChar(c) + rest) == [c] + Unescape(rest)
  {
    if c in {'&', '\'', '<', '>', '"'} {
      UnescapeReference(EscapeChar(c), c, rest);
    } else {
      UnescapeOther(c, rest);
    }
  }

  /** A reader of the escaped text gets the text back. */
  lemma {:induction false} UnescapeInvertsEscape(s: string)
    ensures Unescape(Escape(s)) == s
  {
    if s != [] {
      UnescapeChar(s[0], Escape(s[1..]));
      UnescapeInvertsEscape(s[1..]);
    }
  }

  predicate Plain(s: string) { '&' !in s && '\'' !in s && '<' !in s && '>' !in s && '"' !in s }

  /** And a text without the five characters is written as it is. */
  lemma {:induction false} PlainTextStays(s: string)
    requires Plain(s)
    ensures Escape(s) == s
  {
    if s != [] {
      var c := s[0];
      assert c in s;
      assert EscapeChar(c) == [c];
      assert Plain(s[1..]) by { assert forall d <- s[1..] :: d in s; }
      PlainTextStays(s[1..]);
    }
  }

  /** The inserted text is an attribute nonce="v" whose value a reader reads as the nonce. */
  lemma InsertedNonceReads(nonce: string) returns (v: string)
    ensures Attribute(nonce) == " nonce=\"" + v + "\""
    ensures '"' !in v && '<' !in v && '>' !in v && Unescape(v) == nonce
    ensures Plain(nonce) ==> v == nonce
  {
    v := Escape(nonce);
    UnescapeInvertsEscape(nonce);
    if Plain(nonce) { PlainTextStays(nonce); }
  }

  // ----- The rewriting in plain words -----

  /** The two characters are the same letter, or the same character. */
  predicate SameUpToCase(c: char, lower: char) {
    c == lower || ('a' <= lower <= 'z' && c as int + 32 == lower as int)
  }

  /** The text has the word at a position, in any case. */
  predicate HasWord(s: string, at: nat, word: string) {
    at + |word| <= |s| && forall k :: 0 <= k < |word| ==> SameUpToCase(s[at + k], word[k])
  }

  lemma OccursIsHasWord(s: string, at: nat, word: string)
    requires LowerCase(word)
    ensures Occurs(s, at, word) <==> HasWord(s, at, word)
  {
    Spell(s, at, word);
    if OccursSpelled(s, at, word) {
      forall k | 0 <= k < |word| ensures SameUpToCase(s[at + k], word[k]) {
        assert Lower(s[at + k]) == word[at + k - at];
      }
    }
    if HasWord(s, at, word) {
      forall k | at <= k < at + |word| ensures Lower(s[k]) == word[k - at] {
        assert SameUpToCase(s[at + (k - at)], word[k - at]);
      }
    }
  }

  /** Before the next '>' behind a position, or the end, stands the word in any case. */
  ghost predicate Follows(s: string, at: nat, word: string) {
    exists m: nat :: at <= m && HasWord(s, m, word) && forall k :: at <= k < m + |word| ==> s[k] != '>'
  }

  lemma WordInTail(s: string, at: nat, tag: string, q: nat, word: string)
    requires at + |tag| <= |s| && (forall k :: 0 <= k < |tag| ==> tag[k] == s[at + k]) && q + |word| <= |tag|
    ensures HasWord(tag, q, word) <==> HasWord(s, at + q, word)
  {
    forall k | 0 <= k < |word| ensures SameUpToCase(tag[q + k], word[k]) <==> SameUpToCase(s[at + q + k], word[k]) {
      assert tag[q + k] == s[at + (q + k)];
    }
  }

  predicate LowerCase(word: string) { forall k :: 0 <= k < |word| ==> !('A' <= word[k] <= 'Z') }

  lemma CarriedFollows(x: Syntax, s: string, at: nat)
    requires x.Valid() && LowerCase(x.mark) && at <= |s| && Carries(x, s[at..])
    ensures Follows(s, at, x.mark)
  {
    var tag := Tag(s[at..]);
    FirstIndexFinds(s[at..], '>');
    var q := ContainsWhere(tag, x.mark);
    OccursIsHasWord(tag, q, x.mark);
    forall k | 0 <= k < |tag| ensures tag[k] == s[at + k] && s[at + k] != '>' { assert tag[k] in tag; }
    WordInTail(s, at, tag, q, x.mark);
    forall k | at <= k < at + q + |x.mark| ensures s[k] != '>' { assert s[k] == tag[k - at]; }
  }

  lemma FollowingIsCarried(x: Syntax, s: string, at: nat)
    requires x.Valid() && LowerCase(x.mark) && at <= |s| && Follows(s, at, x.mark)
    ensures Carries(x, s[at..])
  {
    var tag := Tag(s[at..]);
    var m: nat :| at <= m && HasWord(s, m, x.mark) && forall k :: at <= k < m + |x.mark| ==> s[k] != '>';
    TagReaches(s, at, m + |x.mark|);
    assert forall k :: 0 <= k < |tag| ==> tag[k] == s[at + k];
    WordInTail(s, at, tag, m - at, x.mark);
    OccursIsHasWord(tag, m - at, x.mark);
    ContainsAt(tag, x.mark, m - at);
  }

  lemma CarriesIsFollows(x: Syntax, s: string, at: nat)
    requires x.Valid() && LowerCase(x.mark) && at <= |s|
    ensures Carries(x, s[at..]) <==> Follows(s, at, x.mark)
  {
    if Carries(x, s[at..]) { CarriedFollows(x, s, at); }
    if Follows(s, at, x.mark) { FollowingIsCarried(x, s, at); }
  }

  lemma TagReaches(s: string, at: nat, end: nat)
    requires at <= end <= |s| && forall k :: at <= k < end ==> s[k] != '>'
    ensures |Tag(s[at..])| >= end - at
  {
    var rest := s[at..];
    var i := FirstIndex(rest, '>');
    FirstIndexFinds(rest, '>');
    assert forall k :: 0 <= k < end - at ==> rest[k] == s[at + k];
  }

  lemma NonceBehindScript(x: Syntax, out: string, q: nat)
    requires x.Valid() && LowerCase(x.mark) && LowerCase(x.open) && AllCarry(x, out) && HasWord(out, q, x.open)
    ensures Follows(out, q + |x.open|, x.mark)
  {
    OccursIsHasWord(out, q, x.open);
    CarriesIsFollows(x, out, q + |x.open|);
  }

  lemma HtmlIsLowerCase(x: Syntax)
    requires x == HTML
    ensures x.Valid() && LowerCase(x.mark) && LowerCase(x.open)
    ensures x.open == "<script" && |x.open| == 7 && x.mark == "nonce="
  {
  }

  /** In the output every "<script", in any case, is followed by "nonce=" before the next '>'. */
  lemma EveryScriptTagHasNonce(snippet: string, nonce: string, q: nat)
    requires nonce != "" && snippet != "" && HasWord(WithNonceOf(snippet, nonce), q, "<script")
    ensures Follows(WithNonceOf(snippet, nonce), q + 7, "nonce=")
  {
    EveryScriptCarriesNonce(HTML, snippet, nonce);
    HtmlIsLowerCase(HTML);
    NonceBehindScript(HTML, WithNonceOf(snippet, nonce), q);
  }

  lemma NeedsInPlainWords(x: Syntax, s: string, p: nat)
    requires x.Valid() && LowerCase(x.mark) && LowerCase(x.open)
    ensures NeedsNonce(x, s, p) <==>
      |x.open| <= p <= |s| && HasWord(s, p - |x.open|, x.open) && !Follows(s, p, x.mark)
  {
    if |x.open| <= p <= |s| {
      OccursIsHasWord(s, p - |x.open|, x.open);
      CarriesIsFollows(x, s, p);
    }
  }

  /** The attribute is inserted exactly behind those "<script", in any case, that no "nonce="
      follows before the next '>'. */
  lemma InsertsExactlyWhereMissing(x: Syntax, snippet: string, p: nat)
    requires x == HTML
    ensures x.Valid()
    ensures p in Cuts(Pieces(x, snippet), 0) <==>
      7 <= p <= |snippet| && HasWord(snippet, p - 7, "<script") && !Follows(snippet, p, "nonce=")
  {
    HtmlIsLowerCase(x);
    NeedsInPlainWords(x, snippet, p);
    CutsAreNeeds(x, snippet);
  }

  /** An empty nonce or an empty snippet changes nothing. */
  lemma NothingToAdd(snippet: string, nonce: string)
    requires nonce == "" || snippet == ""
    ensures WithNonceOf(snippet, nonce) == snippet
  {
  }
}
