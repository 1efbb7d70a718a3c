/** Policy documents, and the two readings the program makes of a stored one: by
    encoding/json in Go and by the jsonb operators in SQL. */
module PolicyDocument {
  import opened Wrappers
  import opened Text

  /** Other is a number or a boolean, by its text. */
  datatype Json =
    | Null
    | String(text: string)
    | Array(items: seq<Json>)
    | Object(members: seq<Entry>)
    | Other(printed: string)

  datatype Entry = Entry(key: string, value: Json)

  datatype PathRule = PathRule(path: string, capabilities: seq<string>)

  function Each<S, T>(read: S -> T, items: seq<S>): (r: seq<T>)
    ensures |r| == |items| && forall i :: 0 <= i < |items| ==> r[i] == read(items[i])
  {
    if items == [] then [] else Each(read, items[..|items| - 1]) + [read(items[|items| - 1])]
  }

  // ----- Keys -----

  /** Case folding as far as it reaches an ASCII letter: the long s and the Kelvin sign
      fold to one too. */
  function Fold(c: char): char {
    if 'A' <= c <= 'Z' then c + 32 as char
    else if c == '\U{017F}' then 's'
    else if c == '\U{212A}' then 'k'
    else c
  }

  /** The keys encoding/json takes for a field: equal to its name up to case. */
  predicate Spells(key: string, name: string) {
    |key| == |name| && forall i :: 0 <= i < |key| ==> Fold(key[i]) == name[i]
  }

  function ByteLength(s: string): nat {
    if s == [] then 0
    else
      var c := s[|s| - 1] as int;
      ByteLength(s[..|s| - 1]) + if c < 0x80 then 1 else if c < 0x800 then 2 else if c < 0x10000 then 3 else 4
  }

  lemma {:induction false} ByteLengthAtLeast(s: string)
    ensures ByteLength(s) >= |s|
  {
    if s != [] { ByteLengthAtLeast(s[..|s| - 1]); }
  }

  lemma {:induction false} ByteLengthOfAscii(s: string)
    requires forall i :: 0 <= i < |s| ==> s[i] as int < 0x80
    ensures ByteLength(s) == |s|
  {
    if s != [] { ByteLengthOfAscii(s[..|s| - 1]); }
  }

  /** jsonb keeps keys by length in bytes first, and each once. */
  predicate StorageLess(a: string, b: string) {
    ByteLength(a) < ByteLength(b) || (ByteLength(a) == ByteLength(b) && Less(a, b))
  }

  ghost predicate Sorted(members: seq<Entry>) {
    forall i, j :: 0 <= i < j < |members| ==> StorageLess(members[i].key, members[j].key)
  }

  lemma SortedKeysDiffer(members: seq<Entry>, i: nat, j: nat)
    requires Sorted(members) && i < j < |members|
    ensures members[i].key != members[j].key
  {
    LessIrreflexive(members[i].key);
  }

  ghost predicate HasKey(members: seq<Entry>, key: string) {
    exists m <- members :: m.key == key
  }

  ghost predicate LastOfKey(members: seq<Entry>, i: nat) {
    i < |members| && forall j :: i < j < |members| ==> members[j].key != members[i].key
  }

  /** What jsonb makes of a document: of equal keys the last one stays, keys are sorted. */
  ghost predicate StoredAs(raw: Json, stored: Json)
    decreases raw, 1
  {
    match (raw, stored)
    case (Object(from), Object(to)) =>
      && Sorted(to)
      && (forall m <- from :: HasKey(to, m.key))
      && forall m <- to :: ComesFrom(raw, m)
    case (Array(a), Array(b)) => |a| == |b| && forall i | 0 <= i < |a| :: StoredAs(a[i], b[i])
    case (Other(_), Other(_)) => true
    case _ => stored == raw
  }

  ghost predicate ComesFrom(raw: Json, m: Entry)
    requires raw.Object?
    decreases raw, 0
  {
    exists i: nat | i < |raw.members| ::
      LastOfKey(raw.members, i) && raw.members[i].key == m.key && StoredAs(raw.members[i].value, m.value)
  }

  /** A document as jsonb holds it. */
  ghost predicate InStorage(doc: Json)
    decreases doc
  {
    match doc
    case Object(members) => Sorted(members) && forall i | 0 <= i < |members| :: InStorage(members[i].value)
    case Array(items) => forall i | 0 <= i < |items| :: InStorage(items[i])
    case _ => true
  }

  lemma SortedIsLast(members: seq<Entry>, j: nat)
    requires Sorted(members) && j < |members|
    ensures LastOfKey(members, j) && HasKey(members, members[j].key)
  {
    forall k | j < k < |members| ensures members[k].key != members[j].key { SortedKeysDiffer(members, j, k); }
    assert members[j] in members;
  }

  /** Storing it again changes nothing. */
  lemma {:induction false} StoringIsIdempotent(doc: Json)
    requires InStorage(doc)
    ensures StoredAs(doc, doc)
    decreases doc
  {
    match doc {
      case Object(members) =>
        forall m <- members ensures HasKey(members, m.key) && ComesFrom(doc, m) {
          var i: nat :| i < |members| && members[i] == m;
          StoringIsIdempotent(members[i].value);
          SortedIsLast(members, i);
        }
      case Array(items) =>
        forall i | 0 <= i < |items| ensures StoredAs(items[i], items[i]) { StoringIsIdempotent(items[i]); }
      case _ =>
    }
  }

  // ----- Every document is stored -----

  lemma StorageTransitive(a: string, b: string, c: string)
    requires StorageLess(a, b) && StorageLess(b, c)
    ensures StorageLess(a, c)
  {
    if Less(a, b) && Less(b, c) { LessTransitive(a, b, c); }
  }

  lemma StorageTotal(a: string, b: string)
    requires a != b
    ensures StorageLess(a, b) || StorageLess(b, a)
  {
    LessTotal(a, b);
  }

  /** Puts an entry at its place, over the one that has its key. */
  function Insert(members: seq<Entry>, e: Entry): (r: seq<Entry>)
    ensures forall m :: m in r ==> m == e || m in members
  {
    if members == [] then [e]
    else if members[0].key == e.key then [e] + members[1..]
    else if StorageLess(e.key, members[0].key) then [e] + members
    else [members[0]] + Insert(members[1..], e)
  }

  lemma SortedCons(first: Entry, rest: seq<Entry>)
    requires Sorted(rest) && forall m <- rest :: StorageLess(first.key, m.key)
    ensures Sorted([first] + rest)
  {
    var all := [first] + rest;
    forall i, j | 0 <= i < j < |all| ensures StorageLess(all[i].key, all[j].key) {
      assert all[j] == rest[j - 1];
      if i > 0 { assert all[i] == rest[i - 1]; }
    }
  }

  lemma SortedHead(members: seq<Entry>)
    requires Sorted(members) && members != []
    ensures Sorted(members[1..]) && forall m <- members[1..] :: StorageLess(members[0].key, m.key)
  {
    var rest := members[1..];
    forall m <- rest ensures StorageLess(members[0].key, m.key) {
      var i :| 0 <= i < |rest| && rest[i] == m;
      assert members[i + 1] == m;
    }
  }

  lemma {:induction false} InsertStaysSorted(members: seq<Entry>, e: Entry)
    requires Sorted(members)
    ensures Sorted(Insert(members, e))
  {
    if members == [] {
    } else {
      var first, rest := members[0], members[1..];
      SortedHead(members);
      if first.key == e.key {
        SortedCons(e, rest);
      } else if StorageLess(e.key, first.key) {
        forall m <- members ensures StorageLess(e.key, m.key) {
          if m != first {
            assert m in rest;
            StorageTransitive(e.key, first.key, m.key);
          }
        }
        SortedCons(e, members);
      } else {
        StorageTotal(e.key, first.key);
        InsertStaysSorted(rest, e);
        SortedCons(first, Insert(rest, e));
      }
    }
  }

  lemma {:induction false} InsertHolds(members: seq<Entry>, e: Entry)
    requires Sorted(members)
    ensures e in Insert(members, e)
    ensures forall m <- members :: m.key != e.key ==> m in Insert(members, e)
    ensures forall m <- Insert(members, e) :: m == e || m.key != e.key
  {
    if members != [] {
      var first, rest := members[0], members[1..];
      SortedHead(members);
      assert members == [first] + rest;
      LessIrreflexive(e.key);
      if first.key == e.key {
      } else if StorageLess(e.key, first.key) {
        forall m <- members ensures m.key != e.key {
          if m != first { StorageTransitive(e.key, first.key, m.key); }
        }
      } else {
        InsertHolds(rest, e);
      }
    }
  }

  /** An entry comes from the last of the first n members with its key. */
  ghost predicate ComesFromFirst(raw: Json, n: nat, m: Entry)
    requires raw.Object? && n <= |raw.members|
  {
    exists i: nat | i < n ::
      && (forall j | i < j < n :: raw.members[j].key != raw.members[i].key)
      && raw.members[i].key == m.key && StoredAs(raw.members[i].value, m.value)
  }

  lemma KeyStaysHeld(before: seq<Entry>, to: seq<Entry>, e: Entry, key: string)
    requires e in to && (forall m <- before :: m.key != e.key ==> m in to)
    requires key == e.key || HasKey(before, key)
    ensures HasKey(to, key)
  {
    if key != e.key {
      var m :| m in before && m.key == key;
      assert m in to;
    }
  }

  lemma OriginStays(raw: Json, n: nat, m: Entry)
    requires raw.Object? && 0 < n <= |raw.members|
    requires ComesFromFirst(raw, n - 1, m) && raw.members[n - 1].key != m.key
    ensures ComesFromFirst(raw, n, m)
  {
  }

  lemma OriginIsLast(raw: Json, n: nat, v: Json)
    requires raw.Object? && 0 < n <= |raw.members| && StoredAs(raw.members[n - 1].value, v)
    ensures ComesFromFirst(raw, n, Entry(raw.members[n - 1].key, v))
  {
    var i: nat := n - 1;
    assert raw.members[i].key == raw.members[n - 1].key;
  }

  lemma {:induction false} EntriesStored(raw: Json, n: nat) returns (to: seq<Entry>)
    requires raw.Object? && n <= |raw.members|
    ensures Sorted(to)
    ensures forall i | 0 <= i < n :: HasKey(to, raw.members[i].key)
    ensures forall m <- to :: ComesFromFirst(raw, n, m)
    decreases raw, 0, n
  {
    if n == 0 { return []; }
    var before := EntriesStored(raw, n - 1);
    var v := StoredFormExists(raw.members[n - 1].value);
    var e := Entry(raw.members[n - 1].key, v);
    to := Insert(before, e);
    InsertStaysSorted(before, e);
    InsertHolds(before, e);
    forall i | 0 <= i < n ensures HasKey(to, raw.members[i].key) {
      KeyStaysHeld(before, to, e, raw.members[i].key);
    }
    OriginIsLast(raw, n, v);
    forall m <- to ensures ComesFromFirst(raw, n, m) {
      if m != e { OriginStays(raw, n, m); }
    }
  }

  lemma {:induction false} ItemsStored(raw: Json, n: nat) returns (to: seq<Json>)
    requires raw.Array? && n <= |raw.items|
    ensures |to| == n && forall i | 0 <= i < n :: StoredAs(raw.items[i], to[i])
    decreases raw, 0, n
  {
    if n == 0 { return []; }
    var before := ItemsStored(raw, n - 1);
    var v := StoredFormExists(raw.items[n - 1]);
    to := before + [v];
  }

  /** Every document has a stored form. */
  lemma {:induction false} StoredFormExists(raw: Json) returns (stored: Json)
    ensures StoredAs(raw, stored)
    decreases raw, 1
  {
    match raw {
      case Object(members) =>
        var to := EntriesStored(raw, |members|);
        stored := Object(to);
        forall m <- to ensures ComesFrom(raw, m) {
          assert ComesFromFirst(raw, |members|, m);
          var i: nat :| i < |members| && (forall j | i < j < |members| :: members[j].key != members[i].key)
            && members[i].key == m.key && StoredAs(members[i].value, m.value);
          assert LastOfKey(members, i);
        }
        forall m <- members ensures HasKey(to, m.key) { }
      case Array(items) =>
        var to := ItemsStored(raw, |items|);
        stored := Array(to);
      case _ => stored := raw;
    }
  }

  // ----- Go's reading -----

  /** A slice with what its spare capacity still holds: decoding into it again reuses the
      old elements. */
  datatype Slice<T> = Slice(shown: seq<T>, spare: seq<T>)

  /** Decodes each item over the element that is already at its place. */
  function Fill<T>(decode: (T, Json) -> Option<T>, zero: T, buffer: seq<T>, items: seq<Json>): (r: Option<seq<T>>)
    ensures r.Some? ==> |r.value| == if |buffer| > |items| then |buffer| else |items|
  {
    if items == [] then Some(buffer)
    else
      var last := |items| - 1;
      match Fill(decode, zero, buffer, items[..last])
      case None => None
      case Some(b) =>
        match decode(if last < |b| then b[last] else zero, items[last])
        case None => None
        case Some(x) => Some(b[..last] + [x] + if last < |b| then b[last + 1..] else [])
  }

  function GoSlice<T>(decode: (T, Json) -> Option<T>, zero: T, was: Slice<T>, v: Json): Option<Slice<T>> {
    match v
    case Null => Some(Slice([], []))
    case Array(items) =>
      if items == [] then Some(Slice([], []))
      else (match Fill(decode, zero, was.shown + was.spare, items)
        case None => None
        case Some(b) => Some(Slice(b[..|items|], b[|items|..])))
    case _ => None
  }

  function GoString(was: string, v: Json): Option<string> {
    match v
    case Null => Some(was)
    case String(text) => Some(text)
    case _ => None
  }

  /** A PathRule while it is being decoded. */
  datatype RuleSlot = RuleSlot(path: string, capabilities: Slice<string>)

  const ZERO_RULE := RuleSlot("", Slice([], []))

  function GoField(was: RuleSlot, m: Entry): Option<RuleSlot> {
    if Spells(m.key, "path") then
      (match GoString(was.path, m.value) case None => None case Some(path) => Some(was.(path := path)))
    else if Spells(m.key, "capabilities") then
      (match GoSlice(GoString, "", was.capabilities, m.value)
      case None => None
      case Some(list) => Some(was.(capabilities := list)))
    else Some(was)
  }

  function GoFields(was: RuleSlot, members: seq<Entry>): Option<RuleSlot> {
    if members == [] then Some(was)
    else match GoFields(was, members[..|members| - 1])
      case None => None
      case Some(slot) => GoField(slot, members[|members| - 1])
  }

  function GoRule(was: RuleSlot, v: Json): Option<RuleSlot> {
    match v
    case Null => Some(was)
    case Object(members) => GoFields(was, members)
    case _ => None
  }

  function GoPaths(was: Slice<RuleSlot>, members: seq<Entry>): Option<Slice<RuleSlot>> {
    if members == [] then Some(was)
    else
      var m := members[|members| - 1];
      match GoPaths(was, members[..|members| - 1])
      case None => None
      case Some(slots) => if Spells(m.key, "paths") then GoSlice(GoRule, ZERO_RULE, slots, m.value) else Some(slots)
  }

  function RuleOf(slot: RuleSlot): PathRule { PathRule(slot.path, slot.capabilities.shown) }

  /** json.Unmarshal into a fresh PolicyRules. */
  function Unmarshal(doc: Json): Option<seq<PathRule>> {
    match doc
    case Null => Some([])
    case Object(members) =>
      (match GoPaths(Slice([], []), members)
      case None => None
      case Some(slots) => Some(Each(RuleOf, slots.shown)))
    case _ => None
  }

  // ----- What decodes -----

  predicate TextTyped(v: Json) { v.Null? || v.String? }

  predicate TextsTyped(v: Json) { v.Null? || (v.Array? && forall x <- v.items :: TextTyped(x)) }

  predicate FieldTyped(m: Entry) {
    (Spells(m.key, "path") ==> TextTyped(m.value)) && (Spells(m.key, "capabilities") ==> TextsTyped(m.value))
  }

  predicate RuleTyped(v: Json) { v.Null? || (v.Object? && forall m <- v.members :: FieldTyped(m)) }

  predicate RulesTyped(v: Json) { v.Null? || (v.Array? && forall x <- v.items :: RuleTyped(x)) }

  predicate WellTyped(doc: Json) {
    doc.Null? || (doc.Object? && forall m <- doc.members :: Spells(m.key, "paths") ==> RulesTyped(m.value))
  }

  lemma {:induction false} FillSucceeds<T>(decode: (T, Json) -> Option<T>, zero: T, buffer: seq<T>, items: seq<Json>,
                                           typed: Json -> bool)
    requires forall was, v :: decode(was, v).Some? <==> typed(v)
    ensures Fill(decode, zero, buffer, items).Some? <==> forall v <- items :: typed(v)
  {
    if items != [] {
      var init, last := items[..|items| - 1], items[|items| - 1];
      FillSucceeds(decode, zero, buffer, init, typed);
      assert items == init + [last];
      assert forall v :: v in items <==> v in init || v == last;
      match Fill(decode, zero, buffer, init) {
        case None =>
        case Some(b) => assert decode(if |init| < |b| then b[|init|] else zero, last).Some? <==> typed(last);
      }
    }
  }

  lemma CapabilitiesDecode(was: Slice<string>, v: Json)
    ensures GoSlice(GoString, "", was, v).Some? <==> TextsTyped(v)
  {
    if v.Array? { FillSucceeds(GoString, "", was.shown + was.spare, v.items, TextTyped); }
  }

  lemma FieldDecodes(was: RuleSlot, m: Entry)
    ensures GoField(was, m).Some? <==> FieldTyped(m)
  {
    if Spells(m.key, "path") {
      assert !Spells(m.key, "capabilities");
    } else {
      CapabilitiesDecode(was.capabilities, m.value);
    }
  }

  lemma {:induction false} FieldsDecode(was: RuleSlot, members: seq<Entry>)
    ensures GoFields(was, members).Some? <==> forall m <- members :: FieldTyped(m)
  {
    if members != [] {
      var init, last := members[..|members| - 1], members[|members| - 1];
      FieldsDecode(was, init);
      if GoFields(was, init).Some? { FieldDecodes(GoFields(was, init).value, last); }
      assert members == init + [last];
      assert forall m :: m in members <==> m in init || m == last;
    }
  }

  lemma RuleDecodes(was: RuleSlot, v: Json)
    ensures GoRule(was, v).Some? <==> RuleTyped(v)
  {
    if v.Object? { FieldsDecode(was, v.members); }
  }

  lemma RulesDecode(was: Slice<RuleSlot>, v: Json)
    ensures GoSlice(GoRule, ZERO_RULE, was, v).Some? <==> RulesTyped(v)
  {
    if v.Array? {
      forall slot, x ensures GoRule(slot, x).Some? <==> RuleTyped(x) { RuleDecodes(slot, x); }
      FillSucceeds(GoRule, ZERO_RULE, was.shown + was.spare, v.items, RuleTyped);
    }
  }

  lemma {:induction false} PathsDecode(was: Slice<RuleSlot>, members: seq<Entry>)
    ensures GoPaths(was, members).Some? <==> forall m <- members :: Spells(m.key, "paths") ==> RulesTyped(m.value)
  {
    if members != [] {
      var init, last := members[..|members| - 1], members[|members| - 1];
      PathsDecode(was, init);
      if GoPaths(was, init).Some? { RulesDecode(GoPaths(was, init).value, last.value); }
      assert members == init + [last];
    }
  }

  /** Go decodes exactly the documents whose recognised fields have the right types. */
  lemma DecodesExactly(doc: Json)
    ensures Unmarshal(doc).Some? <==> WellTyped(doc)
  {
    if doc.Object? { PathsDecode(Slice([], []), doc.members); }
  }

  // ----- Reading without repeated spellings -----

  /** The last member that spells a field. */
  function Field(members: seq<Entry>, name: string): (r: Option<Entry>)
    ensures r.Some? ==> r.value in members && Spells(r.value.key, name)
    ensures r.None? ==> forall m <- members :: !Spells(m.key, name)
  {
    if members == [] then None
    else if Spells(members[|members| - 1].key, name) then Some(members[|members| - 1])
    else
      assert members == members[..|members| - 1] + [members[|members| - 1]];
      Field(members[..|members| - 1], name)
  }

  predicate SpeltOnce(members: seq<Entry>, name: string) {
    forall i, j :: 0 <= i < j < |members| ==> !(Spells(members[i].key, name) && Spells(members[j].key, name))
  }

  predicate RuleSpeltOnce(v: Json) {
    v.Object? ==> SpeltOnce(v.members, "path") && SpeltOnce(v.members, "capabilities")
  }

  /** No object of the document spells one field twice. */
  predicate Unambiguous(doc: Json) {
    doc.Object? ==>
      && SpeltOnce(doc.members, "paths")
      && forall m <- doc.members :: Spells(m.key, "paths") && m.value.Array? ==>
           forall x <- m.value.items :: RuleSpeltOnce(x)
  }

  function TextOf(v: Json): string { if v.String? then v.text else "" }

  function TextsOf(v: Json): seq<string> {
    if v.Array? then Each(TextOf, v.items) else []
  }

  function PathOf(members: seq<Entry>): string {
    match Field(members, "path") case None => "" case Some(m) => TextOf(m.value)
  }

  function CapabilitiesIn(members: seq<Entry>): seq<string> {
    match Field(members, "capabilities") case None => [] case Some(m) => TextsOf(m.value)
  }

  function ReadRule(v: Json): PathRule {
    if v.Object? then PathRule(PathOf(v.members), CapabilitiesIn(v.members)) else PathRule("", [])
  }

  /** The items Go makes rules of. */
  function RuleItems(doc: Json): seq<Json> {
    if !doc.Object? then []
    else match Field(doc.members, "paths")
      case None => []
      case Some(m) => if m.value.Array? then m.value.items else []
  }

  lemma {:induction false} FillFresh<T>(decode: (T, Json) -> Option<T>, zero: T, items: seq<Json>, read: Json -> T)
    requires forall v <- items :: decode(zero, v) == Some(read(v))
    ensures Fill(decode, zero, [], items) == Some(Each(read, items))
  {
    if items != [] {
      var init := items[..|items| - 1];
      FillFresh(decode, zero, init, read);
      var b := Fill(decode, zero, [], init).value;
      var last := items[|items| - 1];
      assert last in items && b == Each(read, init) && |b| == |init|;
      assert b[..|init|] + [read(last)] + [] == b + [read(last)];
    }
  }

  lemma FreshSlice<T>(decode: (T, Json) -> Option<T>, zero: T, v: Json, read: Json -> T)
    requires v.Array? && forall x <- v.items :: decode(zero, x) == Some(read(x))
    ensures GoSlice(decode, zero, Slice([], []), v) == Some(Slice(Each(read, v.items), []))
  {
    FillFresh(decode, zero, v.items, read);
    var none: seq<T> := [];
    assert none + none == none;
    var b := Each(read, v.items);
    assert b[..|v.items|] == b && b[|v.items|..] == none;
  }

  lemma FreshCapabilities(v: Json)
    requires TextsTyped(v)
    ensures GoSlice(GoString, "", Slice([], []), v) == Some(Slice(TextsOf(v), []))
  {
    if v.Array? { FreshSlice(GoString, "", v, TextOf); }
  }

  lemma SpeltOnceInit(members: seq<Entry>, name: string)
    requires members != [] && SpeltOnce(members, name)
    ensures var init := members[..|members| - 1];
            SpeltOnce(init, name) && (Spells(members[|members| - 1].key, name) ==> Field(init, name).None?)
  {
    var init := members[..|members| - 1];
    if Field(init, name).Some? {
      var i :| 0 <= i < |init| && init[i] == Field(init, name).value;
      assert members[i] == init[i];
    }
  }

  lemma {:induction false} FieldsRead(members: seq<Entry>)
    requires forall m <- members :: FieldTyped(m)
    requires SpeltOnce(members, "path") && SpeltOnce(members, "capabilities")
    ensures GoFields(ZERO_RULE, members) == Some(RuleSlot(PathOf(members), Slice(CapabilitiesIn(members), [])))
  {
    if members != [] {
      var init, last := members[..|members| - 1], members[|members| - 1];
      assert members == init + [last];
      SpeltOnceInit(members, "path");
      SpeltOnceInit(members, "capabilities");
      FieldsRead(init);
      assert FieldTyped(last);
      if Spells(last.key, "capabilities") { FreshCapabilities(last.value); }
    }
  }

  lemma RuleReads(v: Json)
    requires RuleTyped(v) && RuleSpeltOnce(v)
    ensures GoRule(ZERO_RULE, v).Some? && RuleOf(GoRule(ZERO_RULE, v).value) == ReadRule(v)
  {
    if v.Object? { FieldsRead(v.members); }
  }

  function FreshRule(v: Json): RuleSlot {
    match GoRule(ZERO_RULE, v) case None => ZERO_RULE case Some(slot) => slot
  }

  lemma {:induction false} PathsRead(members: seq<Entry>)
    requires forall m <- members :: Spells(m.key, "paths") ==> RulesTyped(m.value)
    requires SpeltOnce(members, "paths")
    ensures GoPaths(Slice([], []), members) == Some(Slice(Each(FreshRule, RuleItems(Object(members))), []))
  {
    if members != [] {
      var init, last := members[..|members| - 1], members[|members| - 1];
      assert members == init + [last];
      SpeltOnceInit(members, "paths");
      PathsRead(init);
      if Spells(last.key, "paths") && last.value.Array? {
        forall x <- last.value.items ensures GoRule(ZERO_RULE, x) == Some(FreshRule(x)) { RuleDecodes(ZERO_RULE, x); }
        FreshSlice(GoRule, ZERO_RULE, last.value, FreshRule);
      }
    }
  }

  /** Of an unambiguous document Go reads each rule off its own item. */
  lemma UnmarshalReads(doc: Json)
    requires WellTyped(doc) && Unambiguous(doc)
    ensures Unmarshal(doc).Some? && |Unmarshal(doc).value| == |RuleItems(doc)|
    ensures forall i :: 0 <= i < |RuleItems(doc)| ==> Unmarshal(doc).value[i] == ReadRule(RuleItems(doc)[i])
  {
    if doc.Object? {
      PathsRead(doc.members);
      forall i | 0 <= i < |RuleItems(doc)| ensures Unmarshal(doc).value[i] == ReadRule(RuleItems(doc)[i]) {
        var field := Field(doc.members, "paths").value;
        assert RuleItems(doc)[i] in field.value.items;
        RuleReads(RuleItems(doc)[i]);
      }
    }
  }

  // ----- SQL's reading -----

  function Lookup(members: seq<Entry>, key: string): Option<Json> {
    if members == [] then None
    else if members[|members| - 1].key == key then Some(members[|members| - 1].value)
    else Lookup(members[..|members| - 1], key)
  }

  /** The operator -> with a key. */
  function SqlGet(j: Json, key: string): Option<Json> {
    if j.Object? then Lookup(j.members, key) else None
  }

  /** The operator ->>. The text of an array or an object begins with a bracket, and so
      does no path; it counts as none here. */
  function SqlText(j: Option<Json>): Option<string> {
    match j
    case Some(String(text)) => Some(text)
    case Some(Other(printed)) => Some(printed)
    case _ => None
  }

  /** The operator ?: an element, a key, or the text itself. */
  predicate SqlHas(j: Option<Json>, text: string) {
    match j
    case Some(Array(items)) => String(text) in items
    case Some(Object(members)) => exists m <- members :: m.key == text
    case Some(String(own)) => own == text
    case _ => false
  }

  /** jsonb_array_elements over the "paths" of a document. */
  function SqlElements(doc: Json): seq<Json> {
    match SqlGet(doc, "paths") case Some(Array(items)) => items case _ => []
  }

  lemma {:induction false} LookupOfField(members: seq<Entry>, name: string)
    requires SpeltOnce(members, name) && Spells(name, name)
    ensures Lookup(members, name) ==
      match Field(members, name) case None => None case Some(m) => if m.key == name then Some(m.value) else None
  {
    if members != [] {
      SpeltOnceInit(members, name);
      LookupOfField(members[..|members| - 1], name);
    }
  }

  // ----- When the two readings agree -----

  /** The pattern a rule offers for listing; one without a character besides slashes
      matches no secret. */
  function GoPattern(rule: PathRule): Option<string> {
    if "list" in rule.capabilities && TrimSlashes(rule.path) != "" then Some(rule.path) else None
  }

  function SqlPattern(element: Json): Option<string> {
    if !SqlHas(SqlGet(element, "capabilities"), "list") then None
    else match SqlText(SqlGet(element, "path"))
      case None => None
      case Some(path) => if TrimSlashes(path) != "" then Some(path) else None
  }

  function GoListing(doc: Json): seq<Option<string>> {
    match Unmarshal(doc)
    case None => []
    case Some(rules) => Each(GoPattern, rules)
  }

  function SqlListing(doc: Json): seq<Option<string>> {
    Each(SqlPattern, SqlElements(doc))
  }

  predicate FieldExact(members: seq<Entry>, name: string) {
    Field(members, name).Some? ==> Field(members, name).value.key == name
  }

  predicate RuleExact(v: Json) {
    v.Object? ==> FieldExact(v.members, "path") && FieldExact(v.members, "capabilities")
  }

  /** Every rule that allows listing stands behind keys in their exact spelling. */
  predicate ListingKeysExact(doc: Json) {
    && (RuleItems(doc) != [] ==> FieldExact(doc.members, "paths"))
    && forall x <- RuleItems(doc) :: GoPattern(ReadRule(x)).Some? ==> RuleExact(x)
  }

  lemma TextAmong(v: Json, text: string)
    requires TextsTyped(v) && text != ""
    ensures text in TextsOf(v) <==> SqlHas(Some(v), text)
  {
    if v.Array? && text in TextsOf(v) {
      var i :| 0 <= i < |v.items| && TextsOf(v)[i] == text;
      assert v.items[i] == String(text);
    }
    if v.Array? && String(text) in v.items {
      var i :| 0 <= i < |v.items| && v.items[i] == String(text);
      assert TextsOf(v)[i] == text;
    }
  }

  lemma RulesReadAlike(v: Json)
    requires RuleTyped(v) && RuleSpeltOnce(v)
    ensures GoPattern(ReadRule(v)) == SqlPattern(v) <==> (GoPattern(ReadRule(v)).Some? ==> RuleExact(v))
    ensures SqlPattern(v).None? || SqlPattern(v) == GoPattern(ReadRule(v))
  {
    if v.Object? {
      LookupOfField(v.members, "path");
      LookupOfField(v.members, "capabilities");
      var field := Field(v.members, "capabilities");
      if field.Some? { TextAmong(field.value.value, "list"); }
    }
  }

  lemma SqlElementsOf(doc: Json)
    requires WellTyped(doc) && Unambiguous(doc)
    ensures SqlElements(doc) == if RuleItems(doc) != [] && FieldExact(doc.members, "paths") then RuleItems(doc) else []
  {
    if doc.Object? { LookupOfField(doc.members, "paths"); }
  }

  lemma ItemIsTyped(doc: Json, x: Json)
    requires WellTyped(doc) && Unambiguous(doc) && x in RuleItems(doc)
    ensures RuleTyped(x) && RuleSpeltOnce(x)
  {
  }

  lemma GoListingOf(doc: Json)
    requires WellTyped(doc) && Unambiguous(doc)
    ensures |GoListing(doc)| == |RuleItems(doc)|
    ensures forall i :: 0 <= i < |RuleItems(doc)| ==> GoListing(doc)[i] == GoPattern(ReadRule(RuleItems(doc)[i]))
  {
    UnmarshalReads(doc);
  }

  lemma ListingsAgree(go: seq<Option<string>>, items: seq<Json>)
    requires |go| == |items| && forall i :: 0 <= i < |items| ==> go[i] == GoPattern(ReadRule(items[i]))
    requires forall x <- items ::
      GoPattern(ReadRule(x)) == SqlPattern(x) <==> (GoPattern(ReadRule(x)).Some? ==> RuleExact(x))
    ensures go == Each(SqlPattern, items) <==> forall x <- items :: GoPattern(ReadRule(x)).Some? ==> RuleExact(x)
  {
    if go == Each(SqlPattern, items) {
      forall x <- items ensures GoPattern(ReadRule(x)) == SqlPattern(x) {
        var i :| 0 <= i < |items| && items[i] == x;
        assert go[i] == Each(SqlPattern, items)[i];
      }
    }
  }

  /** Go and SQL read the same listing patterns off a document that spells no field twice
      if and only if its listing rules stand behind exactly spelt keys. */
  lemma ReadAlikeExactly(doc: Json)
    requires WellTyped(doc) && Unambiguous(doc)
    ensures GoListing(doc) == SqlListing(doc) <==> ListingKeysExact(doc)
  {
    var items := RuleItems(doc);
    GoListingOf(doc);
    SqlElementsOf(doc);
    if items != [] && FieldExact(doc.members, "paths") {
      forall x <- items
        ensures GoPattern(ReadRule(x)) == SqlPattern(x) <==> (GoPattern(ReadRule(x)).Some? ==> RuleExact(x))
      {
        ItemIsTyped(doc, x);
        RulesReadAlike(x);
      }
      ListingsAgree(GoListing(doc), items);
    }
  }

  // ----- Exact keys -----

  predicate KeysExact(members: seq<Entry>, name: string) {
    forall m <- members :: Spells(m.key, name) ==> m.key == name
  }

  predicate RuleKeysExact(v: Json) {
    v.Object? ==> KeysExact(v.members, "path") && KeysExact(v.members, "capabilities")
  }

  /** The document names its fields in lower case, as documented, and not otherwise. */
  predicate ExactKeys(doc: Json) {
    doc.Object? ==>
      && KeysExact(doc.members, "paths")
      && forall m <- doc.members :: m.key == "paths" && m.value.Array? ==> forall x <- m.value.items :: RuleKeysExact(x)
  }

  /** A stored document keeps each of its keys once. */
  ghost predicate KeysStored(doc: Json) {
    doc.Object? ==>
      && Sorted(doc.members)
      && forall m <- doc.members :: m.value.Array? ==> forall x <- m.value.items :: x.Object? ==> Sorted(x.members)
  }

  lemma ExactIsSpeltOnce(members: seq<Entry>, name: string)
    requires Sorted(members) && KeysExact(members, name)
    ensures SpeltOnce(members, name) && FieldExact(members, name)
  {
    forall i, j | 0 <= i < j < |members| ensures !(Spells(members[i].key, name) && Spells(members[j].key, name)) {
      SortedKeysDiffer(members, i, j);
      assert members[i] in members && members[j] in members;
    }
  }

  lemma ExactRuleIsSpeltOnce(x: Json)
    requires RuleKeysExact(x) && (x.Object? ==> Sorted(x.members))
    ensures RuleSpeltOnce(x) && RuleExact(x)
  {
    if x.Object? {
      ExactIsSpeltOnce(x.members, "path");
      ExactIsSpeltOnce(x.members, "capabilities");
    }
  }

  lemma ExactItem(doc: Json, m: Entry, x: Json)
    requires KeysStored(doc) && ExactKeys(doc) && doc.Object? && m in doc.members
    requires Spells(m.key, "paths") && m.value.Array? && x in m.value.items
    ensures RuleSpeltOnce(x) && RuleExact(x)
  {
    assert m.key == "paths";
    ExactRuleIsSpeltOnce(x);
  }

  lemma ExactKeysSuffice(doc: Json)
    requires KeysStored(doc) && ExactKeys(doc)
    ensures Unambiguous(doc) && ListingKeysExact(doc)
  {
    if doc.Object? {
      ExactIsSpeltOnce(doc.members, "paths");
      forall m | m in doc.members && Spells(m.key, "paths") && m.value.Array?
        ensures forall x <- m.value.items :: RuleSpeltOnce(x)
      {
        forall x <- m.value.items ensures RuleSpeltOnce(x) { ExactItem(doc, m, x); }
      }
      forall x <- RuleItems(doc) ensures RuleExact(x) { ExactItem(doc, Field(doc.members, "paths").value, x); }
    }
  }

  // ----- What storing keeps -----

  /** Every stored member comes from a raw one of the same key. */
  lemma Origin(raw: Json, stored: Json, m: Entry) returns (from: Entry)
    requires StoredAs(raw, stored) && stored.Object? && m in stored.members
    ensures raw.Object? && from in raw.members && from.key == m.key && StoredAs(from.value, m.value)
  {
    assert ComesFrom(raw, m);
    var i: nat :| i < |raw.members| && LastOfKey(raw.members, i) && raw.members[i].key == m.key
      && StoredAs(raw.members[i].value, m.value);
    from := raw.members[i];
  }

  lemma OriginItem(raw: Json, stored: Json, x: Json) returns (from: Json)
    requires StoredAs(raw, stored) && stored.Array? && x in stored.items
    ensures raw.Array? && from in raw.items && StoredAs(from, x)
  {
    var i :| 0 <= i < |stored.items| && stored.items[i] == x;
    from := raw.items[i];
  }

  lemma TextsStayTyped(raw: Json, stored: Json)
    requires StoredAs(raw, stored) && TextsTyped(raw)
    ensures TextsTyped(stored)
  {
    if stored.Array? {
      forall x <- stored.items ensures TextTyped(x) {
        var from := OriginItem(raw, stored, x);
        assert TextTyped(from);
      }
    }
  }

  lemma RuleStaysTyped(raw: Json, stored: Json)
    requires StoredAs(raw, stored) && RuleTyped(raw)
    ensures RuleTyped(stored)
  {
    if stored.Object? {
      forall m <- stored.members ensures FieldTyped(m) {
        var from := Origin(raw, stored, m);
        assert FieldTyped(from);
        if Spells(m.key, "capabilities") { TextsStayTyped(from.value, m.value); }
      }
    }
  }

  lemma RulesStayTyped(raw: Json, stored: Json)
    requires StoredAs(raw, stored) && RulesTyped(raw)
    ensures RulesTyped(stored)
  {
    if stored.Array? {
      forall x <- stored.items ensures RuleTyped(x) {
        var from := OriginItem(raw, stored, x);
        RuleStaysTyped(from, x);
      }
    }
  }

  /** A document Go decodes is stored as one that it decodes. */
  lemma StaysTyped(raw: Json, stored: Json)
    requires StoredAs(raw, stored) && WellTyped(raw)
    ensures WellTyped(stored)
  {
    if stored.Object? {
      forall m <- stored.members ensures Spells(m.key, "paths") ==> RulesTyped(m.value) {
        var from := Origin(raw, stored, m);
        if Spells(m.key, "paths") { RulesStayTyped(from.value, m.value); }
      }
    }
  }

  lemma KeysStayExact(raw: Json, stored: Json, name: string)
    requires StoredAs(raw, stored) && stored.Object? && raw.Object? && KeysExact(raw.members, name)
    ensures KeysExact(stored.members, name)
  {
    forall m <- stored.members ensures Spells(m.key, name) ==> m.key == name {
      var from := Origin(raw, stored, m);
    }
  }

  lemma RuleKeysStayExact(raw: Json, stored: Json)
    requires StoredAs(raw, stored) && RuleKeysExact(raw)
    ensures RuleKeysExact(stored)
  {
    if stored.Object? {
      KeysStayExact(raw, stored, "path");
      KeysStayExact(raw, stored, "capabilities");
    }
  }

  lemma ExactKeysStay(raw: Json, stored: Json)
    requires StoredAs(raw, stored) && ExactKeys(raw)
    ensures ExactKeys(stored)
  {
    if stored.Object? {
      KeysStayExact(raw, stored, "paths");
      forall m | m in stored.members && m.key == "paths" && m.value.Array?
        ensures forall x <- m.value.items :: RuleKeysExact(x)
      {
        var from := Origin(raw, stored, m);
        forall x <- m.value.items ensures RuleKeysExact(x) {
          var item := OriginItem(from.value, m.value, x);
          RuleKeysStayExact(item, x);
        }
      }
    }
  }

  lemma KeysAreStored(raw: Json, stored: Json)
    requires StoredAs(raw, stored)
    ensures KeysStored(stored)
  {
    if stored.Object? {
      forall m | m in stored.members && m.value.Array?
        ensures forall x <- m.value.items :: x.Object? ==> Sorted(x.members)
      {
        var from := Origin(raw, stored, m);
        forall x | x in m.value.items && x.Object? ensures Sorted(x.members) {
          var item := OriginItem(from.value, m.value, x);
        }
      }
    }
  }
}
