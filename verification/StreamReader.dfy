/** The chat client's line reader: it handles exactly the complete lines of the streamed
    text, however the text was cut into chunks. */
module StreamReader {
  import opened Text
  import opened Codec

  /** What JSON.parse makes of a payload, reduced to the text the client takes from it;
      an event without text has the empty one. */
  datatype Parsed = Malformed | Null | Event(content: string)

  type Parser = string -> Parsed

  /** The white space String.prototype.trim removes. */
  predicate JsSpace(c: char) {
    c as int == 0xFEFF || (IsSpace(c) && c as int != 0x85)
  }

  function JsTrim(s: string): (r: string)
    ensures r == [] || (!JsSpace(r[0]) && !JsSpace(r[|r| - 1]))
    decreases |s|
  {
    if s == [] then s
    else if JsSpace(s[0]) then JsTrim(s[1..])
    else if JsSpace(s[|s| - 1]) then JsTrim(s[..|s| - 1])
    else s
  }

  /** The chunks one line hands to the callback: none or one. */
  function HandleLine(parse: Parser, line: string): seq<string> {
    if !("data:" <= line) then []
    else
      var raw := JsTrim(line[5..]);
      if raw == "" || raw == "[DONE]" then []
      else match parse(raw)
        case Malformed => [raw]
        case Null => [raw]
        case Event(content) => if content != "" then [content] else []
  }

  /** What the callback gets for a list of lines, each handled on its own. */
  function HandleAll(handle: string -> seq<string>, lines: seq<string>): seq<string> {
    if lines == [] then [] else HandleAll(handle, lines[..|lines| - 1]) + handle(lines[|lines| - 1])
  }

  /** The newline-terminated lines of a text. */
  function CompleteLines(text: string): seq<string>
    decreases |text|
  {
    var i := FirstIndex(text, '\n');
    if i == |text| then [] else [text[..i]] + CompleteLines(text[i + 1..])
  }

  /** What follows the last newline. */
  function Remainder(text: string): string
    decreases |text|
  {
    var i := FirstIndex(text, '\n');
    if i == |text| then text else Remainder(text[i + 1..])
  }

  function Concat(chunks: seq<string>): string {
    if chunks == [] then [] else Concat(chunks[..|chunks| - 1]) + chunks[|chunks| - 1]
  }

  /** The lines each ended by a newline, one after the other. */
  function Terminated(lines: seq<string>): string {
    if lines == [] then [] else lines[0] + ['\n'] + Terminated(lines[1..])
  }

  lemma {:induction false} HandleAllConcat(handle: string -> seq<string>, a: seq<string>, b: seq<string>)
    ensures HandleAll(handle, a + b) == HandleAll(handle, a) + HandleAll(handle, b)
  {
    if b == [] {
      assert a + b == a;
    } else {
      HandleAllConcat(handle, a, b[..|b| - 1]);
      assert (a + b)[..|a + b| - 1] == a + b[..|b| - 1];
    }
  }

  /** split('\n') yields the complete lines and, last, the remainder. */
  lemma {:induction false} SplitIsLines(text: string)
    ensures Split(text, '\n') == CompleteLines(text) + [Remainder(text)]
    decreases |text|
  {
    var i := FirstIndex(text, '\n');
    if i < |text| { SplitIsLines(text[i + 1..]); }
  }

  lemma TerminatedCons(line: string, lines: seq<string>, tail: string)
    ensures Terminated([line] + lines) + tail == line + ['\n'] + (Terminated(lines) + tail)
  {
    assert ([line] + lines)[1..] == lines;
  }

  lemma {:induction false} LinesHaveNoNewline(text: string)
    ensures '\n' !in Remainder(text)
    ensures forall k :: 0 <= k < |CompleteLines(text)| ==> '\n' !in CompleteLines(text)[k]
    decreases |text|
  {
    var i := FirstIndex(text, '\n');
    FirstIndexFinds(text, '\n');
    if i == |text| { assert text[..i] == text; } else { LinesHaveNoNewline(text[i + 1..]); }
  }

  lemma Rejoin(text: string, i: nat)
    requires i < |text| && text[i] == '\n'
    ensures text == text[..i] + ['\n'] + text[i + 1..]
  {
  }

  /** The complete lines and the remainder are the text: none is lost, reordered or split. */
  lemma {:induction false} LinesAreTheText(text: string)
    ensures Terminated(CompleteLines(text)) + Remainder(text) == text
    decreases |text|
  {
    var i := FirstIndex(text, '\n');
    if i < |text| {
      FirstIndexFinds(text, '\n');
      var line, rest := text[..i], text[i + 1..];
      LinesAreTheText(rest);
      TerminatedCons(line, CompleteLines(rest), Remainder(rest));
      Rejoin(text, i);
    }
  }

  lemma FirstLine(line: string, rest: string)
    requires '\n' !in line
    ensures CompleteLines(line + ['\n'] + rest) == [line] + CompleteLines(rest)
    ensures Remainder(line + ['\n'] + rest) == Remainder(rest)
  {
    FirstIndexIn(line, rest, '\n');
    var text := line + ['\n'] + rest;
    assert text[..|line|] == line && text[|line| + 1..] == rest;
  }

  /** Reading on from the remainder continues where the lines so far ended. */
  lemma {:induction false} LinesResume(text: string, more: string)
    ensures CompleteLines(text + more) == CompleteLines(text) + CompleteLines(Remainder(text) + more)
    ensures Remainder(text + more) == Remainder(Remainder(text) + more)
    decreases |text|
  {
    var i := FirstIndex(text, '\n');
    if i < |text| {
      FirstIndexFinds(text, '\n');
      var line, rest := text[..i], text[i + 1..];
      LinesResume(rest, more);
      FirstLine(line, rest + more);
      Rejoin(text, i);
      Regroup(line, rest, more);
      Prefixed(line, CompleteLines(rest), CompleteLines(Remainder(rest) + more));
    }
  }

  lemma Regroup(line: string, rest: string, more: string)
    ensures line + ['\n'] + rest + more == line + ['\n'] + (rest + more)
  {
  }

  lemma Prefixed(line: string, a: seq<string>, b: seq<string>)
    ensures [line] + (a + b) == [line] + a + b
  {
  }

  /** The inner loop over the lines of one round. */
  method HandleEach(handle: string -> seq<string>, lines: seq<string>) returns (heard: seq<string>)
    ensures heard == HandleAll(handle, lines)
  {
    heard := [];
    for j := 0 to |lines|
      invariant heard == HandleAll(handle, lines[..j])
    {
      assert lines[..j + 1][..j] == lines[..j];
      heard := heard + handle(lines[j]);
    }
    assert lines[..|lines|] == lines;
  }

  lemma RoundResumes(handle: string -> seq<string>, before: string, chunk: string)
    ensures var parts := Split(Remainder(before) + chunk, '\n');
            parts[|parts| - 1] == Remainder(before + chunk) &&
            HandleAll(handle, CompleteLines(before)) + HandleAll(handle, parts[..|parts| - 1])
              == HandleAll(handle, CompleteLines(before + chunk))
  {
    LinesResume(before, chunk);
    SplitIsLines(Remainder(before) + chunk);
    HandleAllConcat(handle, CompleteLines(before), CompleteLines(Remainder(before) + chunk));
    var parts := Split(Remainder(before) + chunk, '\n');
    assert parts[..|parts| - 1] == CompleteLines(Remainder(before) + chunk);
  }

  /** What the reader holds between chunks: the unfinished line, and what was heard. */
  datatype Reader = Reader(buffer: string, heard: seq<string>)

  function Receive(handle: string -> seq<string>, r: Reader, chunk: string): Reader {
    var parts := Split(r.buffer + chunk, '\n');
    Reader(parts[|parts| - 1], r.heard + HandleAll(handle, parts[..|parts| - 1]))
  }

  function Session(handle: string -> seq<string>, chunks: seq<string>): Reader {
    if chunks == [] then Reader("", [])
    else Receive(handle, Session(handle, chunks[..|chunks| - 1]), chunks[|chunks| - 1])
  }

  /** After any chunks the reader has handled exactly the complete lines of the text so far
      and holds the rest. */
  lemma {:induction false} SessionHearsLines(handle: string -> seq<string>, chunks: seq<string>)
    ensures var text := Concat(chunks);
            Session(handle, chunks) == Reader(Remainder(text), HandleAll(handle, CompleteLines(text)))
  {
    if chunks != [] {
      var init, chunk := chunks[..|chunks| - 1], chunks[|chunks| - 1];
      SessionHearsLines(handle, init);
      RoundResumes(handle, Concat(init), chunk);
    }
  }

  /** The read loop over the decoded chunks. */
  method ReadChunks(handle: string -> seq<string>, chunks: seq<string>) returns (heard: seq<string>)
    ensures heard == Session(handle, chunks).heard
    ensures heard == HandleAll(handle, CompleteLines(Concat(chunks)))
  {
    var buffer := "";
    heard := [];
    for i := 0 to |chunks|
      invariant Reader(buffer, heard) == Session(handle, chunks[..i])
    {
      assert chunks[..i + 1][..i] == chunks[..i];
      buffer := buffer + chunks[i];
      var parts := Split(buffer, '\n');
      var round := HandleEach(handle, parts[..|parts| - 1]);
      heard := heard + round;
      buffer := parts[|parts| - 1];
    }
    assert chunks[..|chunks|] == chunks;
    SessionHearsLines(handle, chunks);
  }

  /** streamChat after its request succeeded; heard is what the callback got. */
  method StreamChat(parse: Parser, chunks: seq<string>) returns (heard: seq<string>)
    ensures heard == HandleAll(line => HandleLine(parse, line), CompleteLines(Concat(chunks)))
  {
    heard := ReadChunks(line => HandleLine(parse, line), chunks);
  }

  /** Two ways of cutting one text into chunks leave the reader in the same state. */
  lemma ChunkingIsUnobservable(handle: string -> seq<string>, chunks: seq<string>, other: seq<string>)
    requires Concat(chunks) == Concat(other)
    ensures Session(handle, chunks) == Session(handle, other)
  {
    SessionHearsLines(handle, chunks);
    SessionHearsLines(handle, other);
  }

  /** The lines handled and the rest held spell the text: no line is lost, repeated, split
      or reordered. */
  lemma LinesSpellText(text: string)
    ensures Terminated(CompleteLines(text)) + Remainder(text) == text && '\n' !in Remainder(text)
    ensures forall k :: 0 <= k < |CompleteLines(text)| ==> '\n' !in CompleteLines(text)[k]
  {
    LinesAreTheText(text);
    LinesHaveNoNewline(text);
  }

  // ----- What a line hands on -----

  lemma {:induction false} JsTrimExact(front: string, inner: string, back: string)
    requires (forall c <- front :: JsSpace(c)) && (forall c <- back :: JsSpace(c))
    requires inner != "" && !JsSpace(inner[0]) && !JsSpace(inner[|inner| - 1])
    ensures JsTrim(front + inner + back) == inner
    decreases |front| + |back|
  {
    var s := front + inner + back;
    if front != "" {
      assert front[0] in front && forall c <- front[1..] :: c in front;
      assert s[1..] == front[1..] + inner + back;
      JsTrimExact(front[1..], inner, back);
    } else if back != "" {
      assert back[|back| - 1] in back && forall c <- back[..|back| - 1] :: c in back;
      assert s[..|s| - 1] == front + inner + back[..|back| - 1];
      JsTrimExact(front, inner, back[..|back| - 1]);
    } else {
      assert s == inner;
    }
  }

  /** A line "data:" with a payload between white space hands on the payload's content if it
      is JSON with one, the payload itself if it is not JSON or null, and nothing for the
      end mark. */
  lemma DataLineHandsOn(parse: Parser, front: string, payload: string, back: string)
    requires (forall c <- front :: JsSpace(c)) && (forall c <- back :: JsSpace(c))
    requires payload != "" && !JsSpace(payload[0]) && !JsSpace(payload[|payload| - 1])
    ensures HandleLine(parse, "data:" + (front + payload + back)) ==
      if payload == "[DONE]" then []
      else if parse(payload) == Malformed || parse(payload) == Null then [payload]
      else if parse(payload).content == "" then []
      else [parse(payload).content]
  {
    var line := "data:" + (front + payload + back);
    assert line[5..] == front + payload + back && line[..5] == "data:";
    JsTrimExact(front, payload, back);
  }

  /** Any other line, and one with nothing behind its "data:", hands on nothing. */
  lemma OtherLinesHandOnNothing(parse: Parser, line: string)
    requires !("data:" <= line) || JsTrim(line[5..]) == ""
    ensures HandleLine(parse, line) == []
  {
  }

  /** Handling lines is handling each, in order. */
  lemma HandleAllOfOne(handle: string -> seq<string>, line: string)
    ensures HandleAll(handle, []) == [] && HandleAll(handle, [line]) == handle(line)
  {
    assert [line][..0] == [];
  }
}
