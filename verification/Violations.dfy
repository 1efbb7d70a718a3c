/** The bounded recorder of refused origins. originOf is a parameter: a report carries the
    origin it was reduced to, or "" when it names none. */
module Violations {
  import opened Text
  import opened Aead
  import opened Utf8

  type Time = int

  const MAX_VIOLATIONS: nat := 100

  datatype Violation = Violation(origin: string, directive: string, page: Bytes,
                                 count: nat, firstSeen: Time, lastSeen: Time)

  type Table = map<string, Violation>

  function LowerAscii(s: string): string {
    seq(|s|, i requires 0 <= i < |s| => if 'A' <= s[i] <= 'Z' then s[i] + 32 as char else s[i])
  }

  /** The directive's name: lowered, trimmed, cut at its first space, connect-src if empty. */
  function DirectiveName(raw: string): (d: string)
    ensures d != "" && ' ' !in d
  {
    var trimmed := TrimSpace(LowerAscii(raw));
    var space := FirstIndex(trimmed, ' ');
    FirstIndexFinds(trimmed, ' ');
    if trimmed == "" then "connect-src"
    else if 0 < space < |trimmed| then trimmed[..space]
    else
      assert space == |trimmed| && trimmed[..space] == trimmed;
      trimmed
  }

  function KeyOf(directive: string, origin: string): string { directive + [' '] + origin }

  /** Directives contain no space, so distinct refusals have distinct keys. */
  lemma KeyInjective(d: string, o: string, d': string, o': string)
    requires ' ' !in d && ' ' !in d' && KeyOf(d, o) == KeyOf(d', o')
    ensures d == d' && o == o'
  {
    SplitUnique(d, o, d', o', ' ');
  }

  // ----- The total of the counters -----

  ghost function Total(t: Table): nat
    decreases |t|
  {
    if t == map[] then 0
    else
      var key :| key in t;
      t[key].count + Total(t - {key})
  }

  lemma {:induction false} TotalWithout(t: Table, key: string)
    requires key in t
    ensures Total(t) == t[key].count + Total(t - {key})
    decreases |t|
  {
    var first :| first in t && Total(t) == t[first].count + Total(t - {first});
    if first != key {
      var a, b := t - {first}, t - {key};
      TotalWithout(a, key);
      TotalWithout(b, first);
      assert a - {key} == b - {first};
    }
  }

  lemma TotalWith(t: Table, key: string, v: Violation)
    ensures Total(t[key := v]) == v.count + Total(t - {key})
  {
    TotalWithout(t[key := v], key);
    assert t[key := v] - {key} == t - {key};
  }

  lemma TotalOfRest(t: Table, key: string)
    ensures Total(t - {key}) + (if key in t then t[key].count else 0) == Total(t)
  {
    if key in t { TotalWithout(t, key); } else { assert t - {key} == t; }
  }

  // ----- What a report does -----

  /** A least recently seen entry: the one evictOldest may pick. */
  predicate Oldest(t: Table, key: string) {
    key in t && forall other <- t :: t[key].lastSeen <= t[other].lastSeen
  }

  function Seen(t: Table, key: string, origin: string, directive: string, page: Bytes, now: Time): Violation {
    if key in t then t[key].(count := t[key].count + 1, lastSeen := now, page := page)
    else Violation(origin, directive, page, 1, now, now)
  }

  /** Every table a report may leave, whichever of several oldest entries goes. */
  ghost predicate RecordsTo(t: Table, after: Table, origin: string, directive: string, page: Bytes, now: Time) {
    if origin == "" then after == t
    else
      var key := KeyOf(directive, origin);
      var seen := Seen(t, key, origin, directive, page, now);
      if key in t || |t| < MAX_VIOLATIONS then after == t[key := seen]
      else exists gone <- t :: Oldest(t, gone) && after == (t - {gone})[key := seen]
  }

  /** Entries are filed under their own directive and origin. */
  ghost predicate WellFiled(t: Table) {
    forall key <- t :: key == KeyOf(t[key].directive, t[key].origin) && ' ' !in t[key].directive
  }

  // ----- The recorder -----

  /** The comparison List sorts by. */
  predicate ListedBefore(a: Violation, b: Violation) {
    a.lastSeen > b.lastSeen || (a.lastSeen == b.lastSeen && Less(a.origin, b.origin))
  }

  class Recorder {
    var violations: Table

    ghost predicate Valid()
      reads this
    {
      |violations| <= MAX_VIOLATIONS && WellFiled(violations)
    }

    constructor ()
      ensures Valid() && violations == map[]
    {
      violations := map[];
    }

    /** The loop over the map, in any order; the first of several oldest entries stays
        the candidate. */
    method EvictOldest()
      requires violations != map[]
      modifies this
      ensures exists gone <- old(violations) :: Oldest(old(violations), gone) && violations == old(violations) - {gone}
    {
      var rest := violations.Keys;
      var oldestKey :| oldestKey in rest;
      rest := rest - {oldestKey};
      while rest != {}
        invariant rest <= violations.Keys && oldestKey in violations
        invariant forall key <- violations :: key in rest || violations[oldestKey].lastSeen <= violations[key].lastSeen
      {
        var key :| key in rest;
        rest := rest - {key};
        if violations[key].lastSeen < violations[oldestKey].lastSeen { oldestKey := key; }
      }
      assert Oldest(violations, oldestKey);
      violations := violations - {oldestKey};
    }

    /** Record of a report whose trimmed page is given; kept is the page it stores. */
    method Record(origin: string, rawDirective: string, rawPage: Bytes, now: Time) returns (kept: Bytes)
      requires Valid()
      modifies this
      ensures Valid()
      ensures RecordsTo(old(violations), violations, origin, DirectiveName(rawDirective), kept, now)
      ensures kept <= rawPage && |kept| <= PAGE_LIMIT
      ensures Utf8.Valid(rawPage) ==> LongestValidPrefix(rawPage, kept)
    {
      var directive := DirectiveName(rawDirective);
      kept := CutPage(rawPage);
      if origin == "" { return; }
      RecordCut(origin, directive, kept, now);
    }

    /** The part of Record behind the mutex. */
    method RecordCut(origin: string, directive: string, page: Bytes, now: Time)
      requires Valid() && origin != "" && ' ' !in directive
      modifies this
      ensures Valid()
      ensures RecordsTo(old(violations), violations, origin, directive, page, now)
    {
      var key := KeyOf(directive, origin);
      if key in violations {
        var existing := violations[key];
        violations := violations[key := existing.(count := existing.count + 1, lastSeen := now, page := page)];
      } else {
        if |violations| >= MAX_VIOLATIONS { EvictOldest(); }
        violations := violations[key := Violation(origin, directive, page, 1, now, now)];
      }
      StepConserves(old(violations), violations, origin, directive, page, now);
      StepKeepsFiling(old(violations), violations, origin, directive, page, now);
    }

    method Forget()
      modifies this
      ensures Valid() && violations == map[]
    {
      violations := map[];
    }

    /** List, without its marking of origins the configuration already allows. */
    method List() returns (items: seq<Violation>)
      requires Valid()
      ensures forall v :: v in items <==> v in violations.Values
      ensures forall i, j :: 0 <= i < j < |items| ==> items[i] != items[j]
      ensures forall i, j :: 0 <= i < j < |items| ==>
        items[i].lastSeen > items[j].lastSeen ||
        (items[i].lastSeen == items[j].lastSeen &&
          (Less(items[i].origin, items[j].origin) ||
           (items[i].origin == items[j].origin && items[i].directive != items[j].directive)))
      ensures |items| == |violations|
    {
      OneViolationPerKey(violations);
      items := SortListed(violations.Values);
      forall i, j | 0 <= i < j < |items| && !ListedBefore(items[i], items[j])
        ensures items[i].origin == items[j].origin && items[i].directive != items[j].directive
      {
        TiesDiffer(violations, items[i], items[j]);
      }
    }
  }

  /** sort.Slice with that comparison, on entries that all differ. */
  method SortListed(all: set<Violation>) returns (items: seq<Violation>)
    ensures forall v :: v in items <==> v in all
    ensures forall i, j :: 0 <= i < j < |items| ==> items[i] != items[j]
    ensures forall i, j :: 0 <= i < j < |items| ==> !ListedBefore(items[j], items[i])
    ensures |items| == |all|
  {
    var rest := all;
    items := [];
    while rest != {}
      invariant rest <= all && |items| + |rest| == |all|
      invariant forall v :: v in items <==> v in all && v !in rest
      invariant forall i, j :: 0 <= i < j < |items| ==> items[i] != items[j]
      invariant forall i, j :: 0 <= i < j < |items| ==> !ListedBefore(items[j], items[i])
      invariant forall i, v :: 0 <= i < |items| && v in rest ==> !ListedBefore(v, items[i])
    {
      FirstListedExists(rest);
      var v :| v in rest && forall other <- rest :: !ListedBefore(other, v);
      rest := rest - {v};
      items := items + [v];
    }
  }

  lemma TiesDiffer(t: Table, v: Violation, w: Violation)
    requires WellFiled(t) && v in t.Values && w in t.Values && v != w
    requires !ListedBefore(v, w) && !ListedBefore(w, v)
    ensures v.origin == w.origin && v.directive != w.directive
  {
    var a :| a in t && t[a] == v;
    var b :| b in t && t[b] == w;
    TiesDifferInDirective(t, a, b);
  }

  lemma ValuesWithout(t: Table, key: string)
    requires key in t
    ensures t.Values == (t - {key}).Values + {t[key]}
  {
    var rest := t - {key};
    forall v ensures v in t.Values <==> v in rest.Values || v == t[key] {
      if v in t.Values {
        var k :| k in t && t[k] == v;
        if k != key { assert k in rest && rest[k] == v; }
      }
    }
  }

  /** Filed under its directive and origin, no entry occurs twice. */
  lemma {:induction false} OneViolationPerKey(t: Table)
    requires WellFiled(t)
    ensures |t.Values| == |t|
  {
    if t != map[] {
      var key :| key in t;
      var rest := t - {key};
      assert rest.Keys == t.Keys - {key} && |rest| == |rest.Keys| && |t| == |t.Keys|;
      OneViolationPerKey(rest);
      ValuesWithout(t, key);
      assert t[key] !in rest.Values;
    }
  }

  lemma SameKeysSameSize(a: Table, b: Table)
    requires a.Keys == b.Keys
    ensures |a| == |b|
  {
    assert |a| == |a.Keys| && |b| == |b.Keys|;
  }

  lemma {:induction false} ListedBeforeTransitive(a: Violation, b: Violation, c: Violation)
    requires ListedBefore(a, b) && !ListedBefore(c, b)
    ensures !ListedBefore(c, a)
  {
    if ListedBefore(c, a) && c.lastSeen == a.lastSeen == b.lastSeen {
      LessTransitive(c.origin, a.origin, b.origin);
    }
  }

  lemma {:induction false} FirstListedExists(vs: set<Violation>)
    requires vs != {}
    ensures exists v <- vs :: forall other <- vs :: !ListedBefore(other, v)
  {
    var v :| v in vs;
    if vs != {v} {
      var rest := vs - {v};
      FirstListedExists(rest);
      var first :| first in rest && forall other <- rest :: !ListedBefore(other, first);
      if ListedBefore(v, first) {
        forall other <- vs ensures !ListedBefore(other, v) {
          if other == v { LessIrreflexive(v.origin); } else { ListedBeforeTransitive(v, first, other); }
        }
      } else {
        assert forall other <- vs :: !ListedBefore(other, first);
      }
    } else {
      LessIrreflexive(v.origin);
    }
  }

  /** An entry keeps a single place in the list: entries that tie in time and origin differ
      in their directive. */
  lemma TiesDifferInDirective(t: Table, a: string, b: string)
    requires WellFiled(t) && a in t && b in t && a != b
    requires !ListedBefore(t[a], t[b]) && !ListedBefore(t[b], t[a])
    ensures t[a].origin == t[b].origin && t[a].directive != t[b].directive
  {
    LessTotal(t[a].origin, t[b].origin);
  }

  // ----- Runs -----

  datatype Event = Report(origin: string, directive: string, page: Bytes, now: Time) | Forgotten

  ghost predicate StepAt(tables: seq<Table>, events: seq<Event>, i: nat) {
    && i < |events| && i + 1 < |tables|
    && match events[i]
       case Report(origin, directive, page, now) => RecordsTo(tables[i], tables[i + 1], origin, directive, page, now)
       case Forgotten => tables[i + 1] == map[]
  }

  ghost predicate IsRun(tables: seq<Table>, events: seq<Event>) {
    && |tables| == |events| + 1 && tables[0] == map[]
    && forall i :: 0 <= i < |events| ==> StepAt(tables, events, i)
  }

  function Accepted(events: seq<Event>): nat {
    if events == [] then 0
    else
      Accepted(events[..|events| - 1]) +
      if events[|events| - 1].Report? && events[|events| - 1].origin != "" then 1 else 0
  }

  /** The counts of the entries a step dropped, by eviction or by forgetting. */
  ghost function Dropped(before: Table, after: Table): nat { Total(before - after.Keys) }

  ghost function DroppedUpTo(tables: seq<Table>, i: nat): nat
    requires i < |tables|
  {
    if i == 0 then 0 else DroppedUpTo(tables, i - 1) + Dropped(tables[i - 1], tables[i])
  }

  lemma PlainRecordConserves(t: Table, key: string, seen: Violation)
    requires seen.count == 1 + if key in t then t[key].count else 0
    ensures Total(t[key := seen]) == Total(t) + 1
    ensures Dropped(t, t[key := seen]) == 0
  {
    TotalWith(t, key, seen);
    TotalOfRest(t, key);
    assert t - t[key := seen].Keys == map[];
  }

  lemma EvictingRecordConserves(t: Table, gone: string, key: string, seen: Violation)
    requires gone in t && key !in t && seen.count == 1
    ensures var after := (t - {gone})[key := seen];
            Total(after) + Dropped(t, after) == Total(t) + 1 && |after| == |t|
  {
    var rest := t - {gone};
    PlainRecordConserves(rest, key, seen);
    TotalWithout(t, gone);
    var lost := map[gone := t[gone]];
    assert t - rest[key := seen].Keys == lost;
    TotalWithout(lost, gone);
    assert lost - {gone} == map[];
    assert rest.Keys == t.Keys - {gone} && |rest.Keys| == |rest|;
  }

  lemma KeptRecordConserves(t: Table, after: Table, key: string, seen: Violation)
    requires after == t[key := seen] && |t| <= MAX_VIOLATIONS && (key in t || |t| < MAX_VIOLATIONS)
    requires seen.count == 1 + if key in t then t[key].count else 0
    ensures Total(after) + Dropped(t, after) == Total(t) + 1 && |after| <= MAX_VIOLATIONS
  {
    PlainRecordConserves(t, key, seen);
    if key in t { SameKeysSameSize(t, after); }
  }

  lemma StepConserves(t: Table, after: Table, origin: string, directive: string, page: Bytes, now: Time)
    requires RecordsTo(t, after, origin, directive, page, now) && |t| <= MAX_VIOLATIONS
    ensures Total(after) + Dropped(t, after) == Total(t) + if origin != "" then 1 else 0
    ensures |after| <= MAX_VIOLATIONS
  {
    if origin == "" {
      assert t - t.Keys == map[];
    } else {
      var key := KeyOf(directive, origin);
      var seen := Seen(t, key, origin, directive, page, now);
      if key in t || |t| < MAX_VIOLATIONS {
        KeptRecordConserves(t, after, key, seen);
      } else {
        var gone :| gone in t && Oldest(t, gone) && after == (t - {gone})[key := seen];
        EvictingRecordConserves(t, gone, key, seen);
      }
    }
  }

  lemma StepKeepsFiling(t: Table, after: Table, origin: string, directive: string, page: Bytes, now: Time)
    requires RecordsTo(t, after, origin, directive, page, now) && WellFiled(t) && ' ' !in directive
    ensures WellFiled(after)
  {
    if origin != "" {
      var key := KeyOf(directive, origin);
      if key in t { KeyInjective(t[key].directive, t[key].origin, directive, origin); }
    }
  }

  /** Over every run the table stays bounded, and the live counts together with the counts
      evicted or forgotten add up to the accepted reports. */
  lemma {:induction false} CountsAreConserved(tables: seq<Table>, events: seq<Event>, i: nat)
    requires IsRun(tables, events) && i <= |events|
    ensures |tables[i]| <= 100
    ensures Total(tables[i]) + DroppedUpTo(tables, i) == Accepted(events[..i])
  {
    if i > 0 {
      CountsAreConserved(tables, events, i - 1);
      assert StepAt(tables, events, i - 1);
      assert events[..i][..i - 1] == events[..i - 1];
      match events[i - 1] {
        case Report(origin, directive, page, now) =>
          StepConserves(tables[i - 1], tables[i], origin, directive, page, now);
        case Forgotten =>
          assert tables[i - 1] - tables[i].Keys == tables[i - 1];
      }
    }
  }

  /** An eviction removes exactly one entry, none of the others having been seen earlier,
      and never the one just reported. */
  lemma EvictionIsLeastRecent(t: Table, after: Table, origin: string, directive: string,
                              page: Bytes, now: Time, gone: string)
    requires RecordsTo(t, after, origin, directive, page, now) && gone in t && gone !in after
    ensures origin != "" && |t| >= 100 && gone != KeyOf(directive, origin)
    ensures forall other <- t :: t[gone].lastSeen <= t[other].lastSeen
    ensures forall other <- t :: other != gone ==> other in after && after[other] == t[other]
  {
  }

  // ----- What a report stores -----

  lemma LowerConcat(a: string, b: string)
    ensures LowerAscii(a + b) == LowerAscii(a) + LowerAscii(b)
  {
  }

  /** Lowering leaves white space, and makes none. */
  lemma LowerKeepsSpace(s: string, i: nat)
    requires i < |s|
    ensures IsSpace(LowerAscii(s)[i]) <==> IsSpace(s[i])
    ensures LowerAscii(s)[i] == ' ' <==> s[i] == ' '
  {
  }

  lemma TrimLowered(front: string, inner: string, back: string)
    requires IsBlank(front) && IsBlank(back)
    requires inner != "" && !IsSpace(inner[0]) && !IsSpace(inner[|inner| - 1])
    ensures TrimSpace(LowerAscii(front + inner + back)) == LowerAscii(inner)
  {
    LowerConcat(front + inner, back);
    LowerConcat(front, inner);
    forall i | 0 <= i < |front| ensures IsSpace(LowerAscii(front)[i]) { LowerKeepsSpace(front, i); }
    forall i | 0 <= i < |back| ensures IsSpace(LowerAscii(back)[i]) { LowerKeepsSpace(back, i); }
    LowerKeepsSpace(inner, 0);
    LowerKeepsSpace(inner, |inner| - 1);
    TrimSpaceExact(LowerAscii(front), LowerAscii(inner), LowerAscii(back));
  }

  lemma NoSpaceLowered(word: string)
    requires ' ' !in word
    ensures ' ' !in LowerAscii(word)
  {
    forall i | 0 <= i < |word| ensures LowerAscii(word)[i] != ' ' {
      assert word[i] in word;
      LowerKeepsSpace(word, i);
    }
  }

  /** A directive is filed under its first word in lower case, whatever white space stands
      around it and whatever follows the word; rest is empty or begins with a space. */
  lemma DirectiveIsFirstWord(front: string, word: string, rest: string, back: string)
    requires IsBlank(front) && IsBlank(back)
    requires word != "" && ' ' !in word && !IsSpace(word[0])
    requires if rest == "" then !IsSpace(word[|word| - 1]) else rest[0] == ' ' && !IsSpace(rest[|rest| - 1])
    ensures DirectiveName(front + (word + rest) + back) == LowerAscii(word)
  {
    var inner := word + rest;
    var low, tail := LowerAscii(word), LowerAscii(rest);
    TrimLowered(front, inner, back);
    LowerConcat(word, rest);
    NoSpaceLowered(word);
    if rest == "" {
      assert low + tail == low;
      FirstIndexFinds(low, ' ');
    } else {
      LowerKeepsSpace(rest, 0);
      assert low + tail == low + [' '] + tail[1..];
      FirstIndexIn(low, tail[1..], ' ');
      assert (low + tail)[..|low|] == low;
    }
  }

  /** A directive that is empty or white space is filed as connect-src. */
  lemma EmptyDirective(raw: string)
    requires IsBlank(raw)
    ensures DirectiveName(raw) == "connect-src"
  {
    forall i | 0 <= i < |raw| ensures IsSpace(LowerAscii(raw)[i]) { LowerKeepsSpace(raw, i); }
    BlankTrims(LowerAscii(raw));
  }

  /** A report with an origin counts one more under its directive and origin, notes its time
      and page, and keeps the time of the first; without an origin it changes nothing. */
  lemma ReportIsNoted(t: Table, after: Table, origin: string, directive: string, page: Bytes, now: Time)
    requires RecordsTo(t, after, origin, directive, page, now)
    ensures origin == "" ==> after == t
    ensures origin != "" ==>
      var key := directive + " " + origin;
      && key in after
      && (key in t ==> var was := t[key];
            after[key] == Violation(was.origin, was.directive, page, was.count + 1, was.firstSeen, now))
      && (key !in t ==> after[key] == Violation(origin, directive, page, 1, now, now))
      && forall other <- after :: other != key ==> other in t && after[other] == t[other]
  {
    assert [' '] == " ";
  }
}
