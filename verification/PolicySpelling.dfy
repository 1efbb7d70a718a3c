/** Why the keys of a policy document have to be spelt exactly: any other spelling is
    accepted, and makes Go and SQL differ. */
module PolicySpelling {
  import opened Wrappers
  import opened Text
  import opened PolicyDocument
  import opened Access

  // ----- One rule that lists by one pattern -----

  function ListRule(pattern: string, path: string, capabilities: string): Json {
    Object([Entry(path, String(pattern)), Entry(capabilities, Array([String("list")]))])
  }

  /** The document with that rule, its three keys spelt as given. */
  function ListOne(pattern: string, paths: string, path: string, capabilities: string): Json {
    Object([Entry(paths, Array([ListRule(pattern, path, capabilities)]))])
  }

  lemma RuleInStorage(pattern: string, path: string, capabilities: string)
    requires Spells(path, "path") && Spells(capabilities, "capabilities")
    ensures InStorage(ListRule(pattern, path, capabilities))
  {
    assert forall i :: 0 <= i < |path| ==> Fold(path[i]) in "path";
    ByteLengthOfAscii(path);
    ByteLengthAtLeast(capabilities);
    assert InStorage(String("list")) && InStorage(String(pattern));
    assert InStorage(Array([String("list")]));
  }

  lemma DocumentInStorage(pattern: string, paths: string, path: string, capabilities: string)
    requires Spells(path, "path") && Spells(capabilities, "capabilities")
    ensures InStorage(ListOne(pattern, paths, path, capabilities))
  {
    RuleInStorage(pattern, path, capabilities);
    assert InStorage(Array([ListRule(pattern, path, capabilities)]));
  }

  lemma FieldOfFirst(first: Entry, second: Entry, name: string)
    requires Spells(first.key, name) && !Spells(second.key, name)
    ensures SpeltOnce([first, second], name) && Field([first, second], name) == Some(first)
  {
    assert [first, second][..1] == [first];
  }

  lemma FieldOfSecond(first: Entry, second: Entry, name: string)
    requires Spells(second.key, name) && !Spells(first.key, name)
    ensures SpeltOnce([first, second], name) && Field([first, second], name) == Some(second)
  {
  }

  lemma RuleReadsInGo(pattern: string, path: string, capabilities: string)
    requires Spells(path, "path") && Spells(capabilities, "capabilities")
    ensures var rule := ListRule(pattern, path, capabilities);
            RuleTyped(rule) && RuleSpeltOnce(rule) && ReadRule(rule) == PathRule(pattern, ["list"])
  {
    var first, second := Entry(path, String(pattern)), Entry(capabilities, Array([String("list")]));
    FieldOfFirst(first, second, "path");
    FieldOfSecond(first, second, "capabilities");
    assert TextsOf(second.value) == ["list"];
  }

  lemma RuleReadsInSql(pattern: string, path: string, capabilities: string)
    requires Spells(path, "path") && Spells(capabilities, "capabilities") && TrimSlashes(pattern) != ""
    ensures SqlPattern(ListRule(pattern, path, capabilities))
         == if path == "path" && capabilities == "capabilities" then Some(pattern) else None
  {
    var first, second := Entry(path, String(pattern)), Entry(capabilities, Array([String("list")]));
    FieldOfFirst(first, second, "path");
    FieldOfSecond(first, second, "capabilities");
    LookupOfField([first, second], "path");
    LookupOfField([first, second], "capabilities");
    assert String("list") in second.value.items;
  }

  lemma DocumentReads(pattern: string, paths: string, path: string, capabilities: string)
    requires Spells(paths, "paths") && Spells(path, "path") && Spells(capabilities, "capabilities")
    ensures var doc := ListOne(pattern, paths, path, capabilities);
            && Unmarshal(doc) == Some([PathRule(pattern, ["list"])])
            && SqlElements(doc) == if paths == "paths" then [ListRule(pattern, path, capabilities)] else []
  {
    var doc := ListOne(pattern, paths, path, capabilities);
    var rule := ListRule(pattern, path, capabilities);
    RuleReadsInGo(pattern, path, capabilities);
    assert Field(doc.members, "paths") == Some(doc.members[0]);
    LookupOfField(doc.members, "paths");
    assert RuleItems(doc) == [rule];
    assert RulesTyped(Array([rule]));
    UnmarshalReads(doc);
    assert Unmarshal(doc).value == [PathRule(pattern, ["list"])];
  }

  lemma RuleAcceptable(name: string, doc: Json, pattern: string)
    requires Unmarshal(doc) == Some([PathRule(pattern, ["list"])])
    requires TrimSpace(name) != "" && TrimSpace(pattern) != ""
    ensures Acceptable(name, doc)
  {
    assert ValidCapability("list") by { assert ORDERED_CAPABILITIES[4] == "list"; }
  }

  lemma GoListsEverything(policy: Policy, secret: string)
    requires Unmarshal(policy.document) == Some([PathRule("*", ["list"])])
    ensures PolicyGrants(policy, secret, "list")
  {
    var rule := PathRule("*", ["list"]);
    assert rule in Rules(policy);
    assert TrimSlashes("*") == "*";
    assert RuleGrants(rule, secret, "list");
  }

  lemma SqlListsEverything(policy: Policy, rule: Json, secret: string)
    requires SqlElements(policy.document) == [rule] && SqlPattern(rule) in {Some("*"), None}
    requires TrimSlashes(secret) == secret != ""
    ensures SqlPolicyLists(policy, secret) <==> SqlPattern(rule) == Some("*")
  {
    SqlListsByPattern(policy, secret);
    var listing := SqlListing(policy.document);
    assert listing == [SqlPattern(rule)];
    assert TrimSlashes("*") == "*" && PathMatches("*", secret);
    if SqlPattern(rule) == Some("*") { assert Some("*") in listing; }
  }

  /** However its keys are spelt, PutPolicy accepts the document, it is stored as it is,
      and Go lists everything; the queries do so if and only if the spelling is exact. */
  lemma SpellingDecides(paths: string, path: string, capabilities: string, secret: string)
    requires Spells(paths, "paths") && Spells(path, "path") && Spells(capabilities, "capabilities")
    requires TrimSlashes(secret) == secret != ""
    ensures var doc := ListOne("*", paths, path, capabilities);
            var policy := Policy("p", "p", doc);
            && StoredAs(doc, doc) && Acceptable("p", doc)
            && PolicyGrants(policy, secret, "list")
            && (SqlPolicyLists(policy, secret) <==>
                 paths == "paths" && path == "path" && capabilities == "capabilities")
  {
    var doc := ListOne("*", paths, path, capabilities);
    DocumentInStorage("*", paths, path, capabilities);
    StoringIsIdempotent(doc);
    DocumentReads("*", paths, path, capabilities);
    assert TrimSpace("*") == "*" && TrimSpace("p") == "p";
    RuleAcceptable("p", doc, "*");
    var policy := Policy("p", "p", doc);
    GoListsEverything(policy, secret);
    if paths == "paths" {
      RuleReadsInSql("*", path, capabilities);
      SqlListsEverything(policy, ListRule("*", path, capabilities), secret);
    }
  }

  // ----- A second spelling -----

  /** The exact document followed by an empty list under a longer spelling of its key. */
  function Shadowed(paths: string): Json {
    Object([Entry("paths", Array([ListRule("*", "path", "capabilities")])), Entry(paths, Array([]))])
  }

  /** A key that Go takes for "paths" and jsonb orders after it. */
  ghost predicate LaterSpelling(paths: string) {
    Spells(paths, "paths") && StorageLess("paths", paths)
  }

  /** With a long s the key is longer. */
  lemma LongSIsLater(paths: string)
    requires paths == "path\U{017F}"
    ensures LaterSpelling(paths)
  {
    ByteLengthOfAscii("paths");
    ByteLengthOfAscii("path");
    assert paths[..4] == "path";
    assert ByteLength(paths) == 6;
  }

  lemma ShadowedInStorage(paths: string)
    requires LaterSpelling(paths)
    ensures InStorage(Shadowed(paths))
  {
    RuleInStorage("*", "path", "capabilities");
    assert InStorage(Array([ListRule("*", "path", "capabilities")])) && InStorage(Array([]));
  }

  lemma ShadowedReads(doc: Json, first: Entry, second: Entry)
    requires doc == Object([first, second]) && Spells(first.key, "paths") && Spells(second.key, "paths")
    requires RulesTyped(first.value) && second.value == Array([])
    ensures Unmarshal(doc) == Some([])
  {
    var init := doc.members[..1];
    assert init == [first];
    PathsDecode(Slice([], []), init);
  }

  lemma ShadowedInSql(doc: Json, first: Entry, second: Entry)
    requires doc == Object([first, second]) && first.key == "paths" != second.key && first.value.Array?
    ensures SqlElements(doc) == first.value.items
  {
    var init := doc.members[..1];
    assert init == [first];
    assert Lookup(init, "paths") == Some(first.value);
  }

  lemma SqlAloneLists(name: string, doc: Json, rule: Json, secret: string)
    requires Unmarshal(doc) == Some([]) && SqlElements(doc) == [rule] && SqlPattern(rule) == Some("*")
    requires TrimSpace(name) != "" && TrimSlashes(secret) == secret != ""
    ensures Acceptable(name, doc)
    ensures !PolicyGrants(Policy(name, name, doc), secret, "list") && SqlPolicyLists(Policy(name, name, doc), secret)
  {
    SqlListsEverything(Policy(name, name, doc), rule, secret);
  }

  /** The opposite disagreement, also behind a document PutPolicy accepts: a key that jsonb
      orders after "paths" empties the list Go has read, and the queries still list. */
  lemma SecondSpellingHides(name: string, paths: string, secret: string)
    requires LaterSpelling(paths) && TrimSpace(name) != "" && TrimSlashes(secret) == secret != ""
    ensures var doc := Shadowed(paths);
            var policy := Policy(name, name, doc);
            && StoredAs(doc, doc) && Acceptable(name, doc)
            && !PolicyGrants(policy, secret, "list") && SqlPolicyLists(policy, secret)
  {
    ShadowedInStorage(paths);
    StoringIsIdempotent(Shadowed(paths));
    LessIrreflexive(paths);
    assert TrimSlashes("*") == "*";
    var rule := ExactRule("*");
    ShadowedLists(name, Shadowed(paths), paths, rule, secret);
  }

  lemma ExactRule(pattern: string) returns (rule: Json)
    requires TrimSlashes(pattern) != ""
    ensures rule == ListRule(pattern, "path", "capabilities") && RuleTyped(rule) && SqlPattern(rule) == Some(pattern)
  {
    rule := ListRule(pattern, "path", "capabilities");
    RuleReadsInGo(pattern, "path", "capabilities");
    RuleReadsInSql(pattern, "path", "capabilities");
  }

  lemma ShadowedLists(name: string, doc: Json, paths: string, rule: Json, secret: string)
    requires doc == Object([Entry("paths", Array([rule])), Entry(paths, Array([]))])
    requires Spells(paths, "paths") && paths != "paths" && RuleTyped(rule) && SqlPattern(rule) == Some("*")
    requires TrimSpace(name) != "" && TrimSlashes(secret) == secret != ""
    ensures Acceptable(name, doc)
    ensures !PolicyGrants(Policy(name, name, doc), secret, "list") && SqlPolicyLists(Policy(name, name, doc), secret)
  {
    var first, second := Entry("paths", Array([rule])), Entry(paths, Array([]));
    assert RulesTyped(first.value);
    ShadowedReads(doc, first, second);
    ShadowedInSql(doc, first, second);
    SqlAloneLists(name, doc, rule, secret);
  }

  // ----- Which keys are safe -----

  const FIELDS: set<string> := {"paths", "path", "capabilities"}

  /** All keys of the document, at any depth, are among the given ones. */
  ghost predicate KeysAmong(doc: Json, keys: set<string>)
    decreases doc
  {
    match doc
    case Object(members) => forall i | 0 <= i < |members| :: members[i].key in keys && KeysAmong(members[i].value, keys)
    case Array(items) => forall i | 0 <= i < |items| :: KeysAmong(items[i], keys)
    case _ => true
  }

  /** Go and SQL decide alike, on every path, for a policy with this document. */
  ghost predicate Agrees(doc: Json) {
    forall path | TrimSlashes(path) == path != "" ::
      SqlPolicyLists(Policy("p", "p", doc), path) <==> PolicyGrants(Policy("p", "p", doc), path, "list")
  }

  ghost predicate ExactNames(keys: set<string>) {
    forall key <- keys, name <- FIELDS :: Spells(key, name) ==> key == name
  }

  lemma AmongExactNames(doc: Json, keys: set<string>)
    requires KeysAmong(doc, keys) && ExactNames(keys)
    ensures ExactKeys(doc)
  {
    if doc.Object? {
      assert "paths" in FIELDS && "path" in FIELDS && "capabilities" in FIELDS;
      forall m | m in doc.members && m.key == "paths" && m.value.Array?
        ensures forall x <- m.value.items :: RuleKeysExact(x)
      {
        var i :| 0 <= i < |doc.members| && doc.members[i] == m;
        assert KeysAmong(m.value, keys);
        forall x <- m.value.items ensures RuleKeysExact(x) {
          var k :| 0 <= k < |m.value.items| && m.value.items[k] == x;
          assert KeysAmong(x, keys);
        }
      }
    }
  }

  /** A path that a pattern matches. */
  function Witness(pattern: string): string {
    var p := TrimSlashes(pattern);
    if p != [] && p[|p| - 1] == '*' then p[..|p| - 1] + "a" else p
  }

  lemma WitnessMatches(pattern: string)
    requires TrimSlashes(pattern) != ""
    ensures var path := Witness(pattern);
            TrimSlashes(path) == path != "" && PathMatches(pattern, path)
  {
    var p, path := TrimSlashes(pattern), Witness(pattern);
    assert path[0] != '/' && path[|path| - 1] != '/';
    if p[|p| - 1] == '*' {
      assert path[..|p| - 1] == p[..|p| - 1];
      if p == "*" { assert p[..|p| - 1] == []; }
    }
  }

  lemma ReadAlikeAgrees(doc: Json)
    requires GoListing(doc) == SqlListing(doc)
    ensures Agrees(doc)
  {
    forall path | TrimSlashes(path) == path != ""
      ensures SqlPolicyLists(Policy("p", "p", doc), path) <==> PolicyGrants(Policy("p", "p", doc), path, "list")
    {
      GoGrantsByPattern(Policy("p", "p", doc), path);
      SqlListsByPattern(Policy("p", "p", doc), path);
    }
  }

  /** SQL reads no pattern off a document whose only listing rule is not spelt exactly. */
  lemma NoPatternInSql(doc: Json, only: nat)
    requires WellTyped(doc) && Unambiguous(doc) && only < |RuleItems(doc)|
    requires forall i :: 0 <= i < |RuleItems(doc)| && i != only ==> GoPattern(ReadRule(RuleItems(doc)[i])).None?
    requires !ListingKeysExact(doc)
    ensures forall i :: 0 <= i < |SqlListing(doc)| ==> SqlListing(doc)[i].None?
  {
    SqlElementsOf(doc);
    forall i | 0 <= i < |SqlListing(doc)| ensures SqlListing(doc)[i].None? {
      var x := RuleItems(doc)[i];
      ItemIsTyped(doc, x);
      RulesReadAlike(x);
    }
  }

  /** With one listing rule and no field spelt twice, Go and SQL decide alike on every path
      if and only if that rule stands behind exactly spelt keys. */
  lemma SingleRuleAgreesExactly(doc: Json, only: nat)
    requires WellTyped(doc) && Unambiguous(doc) && only < |RuleItems(doc)|
    requires forall i :: 0 <= i < |RuleItems(doc)| ==>
      (GoPattern(ReadRule(RuleItems(doc)[i])).Some? <==> i == only)
    ensures Agrees(doc) <==> ListingKeysExact(doc)
  {
    ReadAlikeExactly(doc);
    if ListingKeysExact(doc) {
      ReadAlikeAgrees(doc);
    } else {
      GoListingOf(doc);
      NoPatternInSql(doc, only);
      var pattern := GoListing(doc)[only].value;
      var path := Witness(pattern);
      WitnessMatches(pattern);
      assert Some(pattern) in GoListing(doc);
      GoGrantsByPattern(Policy("p", "p", doc), path);
      SqlListsByPattern(Policy("p", "p", doc), path);
      Disagrees(doc, path);
    }
  }

  lemma ExactNamesAgree(keys: set<string>, name: string, raw: Json, stored: Json)
    requires ExactNames(keys) && KeysAmong(raw, keys) && Acceptable(name, raw) && StoredAs(raw, stored)
    ensures Agrees(stored)
  {
    AmongExactNames(raw, keys);
    AcceptedIsStoredDecodable(name, raw, stored);
    RegularReadAlike(stored);
    ReadAlikeAgrees(stored);
  }

  lemma ListOneAmong(keys: set<string>, paths: string, path: string, capabilities: string)
    requires paths in keys && path in keys && capabilities in keys
    ensures KeysAmong(ListOne("*", paths, path, capabilities), keys)
  {
    assert KeysAmong(String("*"), keys) && KeysAmong(String("list"), keys);
    assert KeysAmong(Array([String("list")]), keys);
    assert KeysAmong(ListRule("*", path, capabilities), keys);
    assert KeysAmong(Array([ListRule("*", path, capabilities)]), keys);
  }

  lemma Disagrees(doc: Json, path: string)
    requires TrimSlashes(path) == path != ""
    requires PolicyGrants(Policy("p", "p", doc), path, "list") && !SqlPolicyLists(Policy("p", "p", doc), path)
    ensures !Agrees(doc)
  {
  }

  lemma ListOneDisagrees(paths: string, path: string, capabilities: string, secret: string)
    requires Spells(paths, "paths") && Spells(path, "path") && Spells(capabilities, "capabilities")
    requires !(paths == "paths" && path == "path" && capabilities == "capabilities")
    requires TrimSlashes(secret) == secret != ""
    ensures var doc := ListOne("*", paths, path, capabilities);
            Acceptable("p", doc) && StoredAs(doc, doc) && !Agrees(doc)
  {
    SpellingDecides(paths, path, capabilities, secret);
    Disagrees(ListOne("*", paths, path, capabilities), secret);
  }

  /** The document that uses a key in the place of the field it spells. */
  function ListOneWith(name: string, key: string): Json {
    ListOne("*", if name == "paths" then key else "paths", if name == "path" then key else "path",
            if name == "capabilities" then key else "capabilities")
  }

  lemma FieldsSpellThemselves(name: string)
    requires name in FIELDS
    ensures Spells(name, name)
  {
  }

  /** A set of keys that offers another spelling of a field admits an accepted document on
      which Go and SQL differ. */
  lemma OtherSpellingDisagrees(keys: set<string>, key: string, name: string, secret: string)
    requires FIELDS <= keys && key in keys && name in FIELDS && Spells(key, name) && key != name
    requires TrimSlashes(secret) == secret != ""
    ensures var doc := ListOneWith(name, key);
            KeysAmong(doc, keys) && Acceptable("p", doc) && StoredAs(doc, doc) && !Agrees(doc)
  {
    var paths := if name == "paths" then key else "paths";
    var path := if name == "path" then key else "path";
    var capabilities := if name == "capabilities" then key else "capabilities";
    FieldsSpellThemselves("paths");
    FieldsSpellThemselves("path");
    FieldsSpellThemselves("capabilities");
    ListOneAmong(keys, paths, path, capabilities);
    ListOneDisagrees(paths, path, capabilities, secret);
  }

  /** Go and SQL decide alike on every document PutPolicy stores that uses only these keys. */
  ghost predicate SafeKeys(keys: set<string>) {
    forall raw, stored :: KeysAmong(raw, keys) && Acceptable("p", raw) && StoredAs(raw, stored) ==> Agrees(stored)
  }

  lemma ExactNamesAreSafe(keys: set<string>)
    requires ExactNames(keys)
    ensures SafeKeys(keys)
  {
    forall raw, stored | KeysAmong(raw, keys) && Acceptable("p", raw) && StoredAs(raw, stored) ensures Agrees(stored) {
      ExactNamesAgree(keys, "p", raw, stored);
    }
  }

  /** A set of keys that contains the three field names is safe if and only if it spells no
      field otherwise. */
  lemma KeysAreSafeExactly(keys: set<string>)
    requires FIELDS <= keys
    ensures SafeKeys(keys) <==> ExactNames(keys)
  {
    if ExactNames(keys) {
      ExactNamesAreSafe(keys);
    } else {
      var key, name :| key in keys && name in FIELDS && Spells(key, name) && key != name;
      var secret := SomeSecret();
      OtherSpellingDisagrees(keys, key, name, secret);
    }
  }

  lemma SomeSecret() returns (path: string)
    ensures TrimSlashes(path) == path != ""
  {
    path := "a";
  }

  // ----- Documents PutPolicy refuses -----

  function KeyedRule(): Json {
    Object([Entry("path", String("*")), Entry("capabilities", Object([Entry("list", Null)]))])
  }

  function KeyedCapabilities(): Json {
    Object([Entry("paths", Array([KeyedRule()]))])
  }

  lemma MistypedRule(rule: Json, first: Entry, second: Entry)
    requires rule == Object([first, second]) && first == Entry("path", String("*")) && second.key == "capabilities"
    requires second.value.Object?
    ensures !RuleTyped(rule)
    ensures SqlPattern(rule) == if SqlHas(Some(second.value), "list") then Some("*") else None
  {
    assert !FieldTyped(second) && second in rule.members;
    FieldOfFirst(first, second, "path");
    FieldOfSecond(first, second, "capabilities");
    LookupOfField([first, second], "path");
    LookupOfField([first, second], "capabilities");
    assert TrimSlashes("*") == "*";
  }

  lemma MistypedDocument(doc: Json, rule: Json)
    requires doc == Object([Entry("paths", Array([rule]))]) && !RuleTyped(rule)
    ensures Unmarshal(doc).None? && SqlElements(doc) == [rule]
  {
    var field := doc.members[0];
    assert field in doc.members && rule in field.value.items && !RulesTyped(field.value);
    assert Spells("paths", "paths");
    DecodesExactly(doc);
  }

  /** A document Go cannot decode is skipped by the Go evaluators, while its elements still
      count in SQL; PutPolicy refuses it. */
  lemma UndecodablePolicyDisagrees(secret: string)
    requires TrimSlashes(secret) == secret != ""
    ensures var policy := Policy("p", "p", KeyedCapabilities());
            && !Acceptable("p", policy.document)
            && SqlPolicyLists(policy, secret) && !PolicyGrants(policy, secret, "list")
  {
    var doc, rule := KeyedCapabilities(), KeyedRule();
    var capabilities := Object([Entry("list", Null)]);
    assert capabilities.members[0] in capabilities.members;
    MistypedRule(rule, Entry("path", String("*")), Entry("capabilities", capabilities));
    MistypedDocument(doc, rule);
    SqlListsEverything(Policy("p", "p", doc), rule, secret);
  }
}
