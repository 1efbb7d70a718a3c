/** On which stored paths Go and SQL decide alike: exactly the trimmed and non-empty ones. */
module PolicyPaths {
  import opened Wrappers
  import opened Text
  import opened PolicyDocument
  import opened Access
  import opened PolicySpelling

  /** For every document that PutPolicy accepts with exact keys, Go and SQL decide alike
      whether "list" is allowed on the path. */
  ghost predicate AgreesAt(path: string) {
    forall raw, stored :: Acceptable("p", raw) && ExactKeys(raw) && StoredAs(raw, stored) ==> AgreeOn(stored, path)
  }

  predicate AgreeOn(doc: Json, path: string) {
    SqlPolicyLists(Policy("p", "p", doc), path) <==> PolicyGrants(Policy("p", "p", doc), path, "list")
  }

  // ----- One pattern -----

  /** The names of the three keys. */
  datatype Names = Names(paths: string, path: string, capabilities: string)

  const NAMES := Names("paths", "path", "capabilities")

  /** A document with exact keys and one listing rule. */
  function Exact(n: Names, pattern: string): Json { ListOne(pattern, n.paths, n.path, n.capabilities) }

  lemma ExactIsStored(n: Names, pattern: string)
    requires n == NAMES
    ensures StoredAs(Exact(n, pattern), Exact(n, pattern))
  {
    DocumentInStorage(pattern, n.paths, n.path, n.capabilities);
    StoringIsIdempotent(Exact(n, pattern));
  }

  lemma ExactHasExactKeys(n: Names, pattern: string)
    requires n == NAMES
    ensures ExactKeys(Exact(n, pattern))
  {
    assert |n.path| != |n.capabilities|;
    assert RuleKeysExact(ListRule(pattern, n.path, n.capabilities));
  }

  lemma ExactIsAcceptable(n: Names, pattern: string, name: string)
    requires n == NAMES && TrimSpace(pattern) != "" && TrimSpace(name) != ""
    ensures Acceptable(name, Exact(n, pattern))
  {
    DocumentReads(pattern, n.paths, n.path, n.capabilities);
    RuleAcceptable(name, Exact(n, pattern), pattern);
  }

  lemma SingleRuleInGo(policy: Policy, pattern: string, path: string)
    requires Unmarshal(policy.document) == Some([PathRule(pattern, ["list"])])
    ensures PolicyGrants(policy, path, "list") <==> PathMatches(pattern, path)
  {
    assert PathRule(pattern, ["list"]) in Rules(policy);
  }

  lemma RuleListsInSql(n: Names, pattern: string, path: string)
    requires n == NAMES
    ensures SqlLists(ListRule(pattern, n.path, n.capabilities), path) <==> SqlPathMatches(pattern, path)
  {
    var first, second := Entry(n.path, String(pattern)), Entry(n.capabilities, Array([String("list")]));
    FieldOfFirst(first, second, "path");
    FieldOfSecond(first, second, "capabilities");
    LookupOfField([first, second], "path");
    LookupOfField([first, second], "capabilities");
    assert String("list") in second.value.items;
  }

  lemma SingleRuleInSql(policy: Policy, rule: Json, path: string)
    requires SqlElements(policy.document) == [rule]
    ensures SqlPolicyLists(policy, path) <==> SqlLists(rule, path)
  {
    assert rule in SqlElements(policy.document);
  }

  /** Go and SQL decide on a one-rule document as their path expressions do. */
  lemma ExactDecides(n: Names, pattern: string, path: string)
    requires n == NAMES
    ensures var policy := Policy("p", "p", Exact(n, pattern));
            && (PolicyGrants(policy, path, "list") <==> PathMatches(pattern, path))
            && (SqlPolicyLists(policy, path) <==> SqlPathMatches(pattern, path))
  {
    var policy := Policy("p", "p", Exact(n, pattern));
    DocumentReads(pattern, n.paths, n.path, n.capabilities);
    SingleRuleInGo(policy, pattern, path);
    SingleRuleInSql(policy, ListRule(pattern, n.path, n.capabilities), path);
    RuleListsInSql(n, pattern, path);
  }

  // ----- Paths with outer slashes -----

  lemma {:induction false} SomethingLeft(s: string, i: nat)
    requires i < |s| && !IsSpace(s[i])
    ensures TrimSpace(s) != ""
    decreases |s|
  {
    if IsSpace(s[0]) {
      SomethingLeft(s[1..], i - 1);
    } else if IsSpace(s[|s| - 1]) {
      SomethingLeft(s[..|s| - 1], i);
    }
  }

  /** Of a path that begins with no slash only slashes at the end are trimmed. */
  lemma {:induction false} TrimsTheEnd(path: string)
    requires path != "" && path[0] != '/'
    ensures var v := TrimSlashes(path);
            v != "" && v <= path && (v != path ==> v + "/" <= path)
    decreases |path|
  {
    if path[|path| - 1] == '/' {
      var init := path[..|path| - 1];
      TrimsTheEnd(init);
      assert path == init + "/";
    }
  }

  lemma OnlySlashesDiffer(path: string)
    requires TrimSlashes(path) == "" && path != ""
    ensures PathMatches("/", path) && !SqlPathMatches("/", path)
  {
    assert TrimSlashes("/") == TrimSlashes("/"[1..]) == "";
  }

  lemma LeadingSlashDiffers(path: string)
    requires TrimSlashes(path) != "" && path[0] == '/' && |TrimSlashes(path)| <= |path|
    ensures PathMatches(TrimSlashes(path) + "*", path) && !SqlPathMatches(TrimSlashes(path) + "*", path)
  {
    var v := TrimSlashes(path);
    var p := v + "*";
    assert TrimSlashes(p) == p && p[..|p| - 1] == v;
    assert SqlRight(p, 1) == "*";
    assert SqlLeft(path, |v|)[0] != SqlLeft(p, |v|)[0];
  }

  lemma TrailingSlashDiffers(path: string)
    requires path != "" && path[0] != '/' && TrimSlashes(path) != path
    ensures !PathMatches(TrimSlashes(path) + "/*", path) && SqlPathMatches(TrimSlashes(path) + "/*", path)
  {
    var v := TrimSlashes(path);
    TrimsTheEnd(path);
    var p := v + "/" + "*";
    assert v + "/*" == p;
    assert TrimSlashes(p) == p && p[..|p| - 1] == v + "/";
    SqlWildcard(v + "/", path);
    assert SqlRight(p, 1) == "*";
  }

  /** The pattern on which the two path expressions differ for a path with outer slashes. */
  lemma SomePatternDiffers(path: string) returns (pattern: string)
    requires TrimSlashes(path) != path
    ensures TrimSpace(pattern) != "" && (PathMatches(pattern, path) <==> !SqlPathMatches(pattern, path))
  {
    var v := TrimSlashes(path);
    if v == "" {
      OnlySlashesDiffer(path);
      pattern := "/";
      SomethingLeft(pattern, 0);
    } else if path[0] == '/' {
      LeadingSlashDiffers(path);
      pattern := v + "*";
      SomethingLeft(pattern, |v|);
    } else {
      TrailingSlashDiffers(path);
      pattern := v + "/*";
      SomethingLeft(pattern, |v|);
    }
  }

  /** The SQL path expression decides as pathMatches on every pattern if and only if the
      stored path has no outer slash. */
  lemma PatternsAgreeExactly(path: string)
    ensures (forall pattern :: SqlPathMatches(pattern, path) <==> PathMatches(pattern, path))
       <==> TrimSlashes(path) == path
  {
    if TrimSlashes(path) == path {
      forall pattern ensures SqlPathMatches(pattern, path) <==> PathMatches(pattern, path) {
        SqlMatchesAsGo(pattern, path);
      }
    } else {
      var pattern := SomePatternDiffers(path);
    }
  }

  /** A secret stored as "/a", as an approved put can store it, is listable in Go under the
      pattern "a" and hidden by the queries. */
  lemma SlashedSecretDisagrees(n: Names, pattern: string, path: string)
    requires n == NAMES && pattern == "a" && path == "/a"
    ensures var doc := Exact(n, pattern);
            var policy := Policy("p", "p", doc);
            && StoredAs(doc, doc) && Acceptable("p", doc) && ExactKeys(doc)
            && PolicyGrants(policy, path, "list") && !SqlPolicyLists(policy, path)
  {
    SomethingLeft(pattern, 0);
    ExactIsStored(n, pattern);
    ExactHasExactKeys(n, pattern);
    ExactIsAcceptable(n, pattern, "p");
    ExactDecides(n, pattern, path);
    assert path[1..] == pattern && TrimSlashes(pattern) == pattern;
    assert TrimSlashes(path) == TrimSlashes(path[1..]);
  }

  // ----- The empty path -----

  function PathOnly(path: string): Json { Object([Entry("path", String(path))]) }

  function ListOnly(): Json { Object([Entry("capabilities", Array([String("list")]))]) }

  function Paths(rule: Json): Entry { Entry("paths", Array([rule])) }

  /** A document that names its rules twice: Go merges them, jsonb keeps the last. */
  function Twice(path: string): Json { Object([Paths(PathOnly(path)), Paths(ListOnly())]) }

  function Once(): Json { Object([Paths(ListOnly())]) }

  lemma OnceInStorage()
    ensures InStorage(Paths(ListOnly()).value) && StoredAs(Paths(ListOnly()).value, Paths(ListOnly()).value)
  {
    assert InStorage(String("list"));
    assert InStorage(Array([String("list")]));
    assert InStorage(ListOnly());
    StoringIsIdempotent(Paths(ListOnly()).value);
  }

  lemma TwiceIsStoredOnce(path: string)
    ensures StoredAs(Twice(path), Once())
  {
    OnceInStorage();
    var raw, m := Twice(path), Paths(ListOnly());
    assert LastOfKey(raw.members, 1) && raw.members[1] == m;
    assert ComesFrom(raw, m);
    assert m in Once().members;
    assert forall x <- raw.members :: x.key == m.key;
    assert forall x <- raw.members :: HasKey(Once().members, x.key);
  }

  lemma SingleField(was: RuleSlot, m: Entry)
    ensures GoFields(was, [m]) == GoField(was, m)
  {
    assert [m][..0] == [];
  }

  lemma PathOnlyDecodes(path: string)
    ensures GoRule(ZERO_RULE, PathOnly(path)) == Some(RuleSlot(path, Slice([], [])))
  {
    SingleField(ZERO_RULE, Entry("path", String(path)));
    assert Spells("path", "path");
  }

  lemma ListOnlyDecodes(was: RuleSlot)
    requires was.capabilities == Slice([], [])
    ensures GoRule(was, ListOnly()) == Some(was.(capabilities := Slice(["list"], [])))
  {
    var list := Array([String("list")]);
    SingleField(was, Entry("capabilities", list));
    assert Spells("capabilities", "capabilities") && !Spells("capabilities", "path");
    FreshCapabilities(list);
    assert TextsOf(list) == ["list"];
  }

  lemma OneItem(was: Slice<RuleSlot>, item: Json, slot: RuleSlot)
    requires |was.shown| <= 1 && was.spare == []
    requires GoRule(if was.shown == [] then ZERO_RULE else was.shown[0], item) == Some(slot)
    ensures GoSlice(GoRule, ZERO_RULE, was, Array([item])) == Some(Slice([slot], []))
  {
    var buffer := was.shown + was.spare;
    assert buffer == was.shown && [item][..0] == [];
    assert Fill(GoRule, ZERO_RULE, buffer, [item][..0]) == Some(buffer);
    assert buffer[..0] + [slot] + (if 0 < |buffer| then buffer[1..] else []) == [slot];
    assert Fill(GoRule, ZERO_RULE, buffer, [item]) == Some([slot]);
    assert [slot][..1] == [slot] && [slot][1..] == [];
  }

  lemma OnePaths(was: Slice<RuleSlot>, init: seq<Entry>, rule: Json, slot: RuleSlot)
    requires GoPaths(Slice([], []), init) == Some(was) && |was.shown| <= 1 && was.spare == []
    requires GoRule(if was.shown == [] then ZERO_RULE else was.shown[0], rule) == Some(slot)
    ensures GoPaths(Slice([], []), init + [Paths(rule)]) == Some(Slice([slot], []))
  {
    assert (init + [Paths(rule)])[..|init|] == init;
    assert Spells("paths", "paths");
    OneItem(was, rule, slot);
  }

  lemma OneSlotReads(doc: Json, slot: RuleSlot)
    requires doc.Object? && GoPaths(Slice([], []), doc.members) == Some(Slice([slot], []))
    ensures Unmarshal(doc) == Some([RuleOf(slot)])
  {
    assert Each(RuleOf, [slot]) == [RuleOf(slot)];
  }

  lemma TwiceReads(path: string)
    ensures Unmarshal(Twice(path)) == Some([PathRule(path, ["list"])])
  {
    var slot := RuleSlot(path, Slice([], []));
    var merged := slot.(capabilities := Slice(["list"], []));
    PathOnlyDecodes(path);
    OnePaths(Slice([], []), [], PathOnly(path), slot);
    assert [] + [Paths(PathOnly(path))] == [Paths(PathOnly(path))];
    ListOnlyDecodes(slot);
    OnePaths(Slice([slot], []), [Paths(PathOnly(path))], ListOnly(), merged);
    assert Twice(path).members == [Paths(PathOnly(path))] + [Paths(ListOnly())];
    OneSlotReads(Twice(path), merged);
  }

  lemma OnceReads()
    ensures Unmarshal(Once()) == Some([PathRule("", ["list"])])
    ensures SqlElements(Once()) == [ListOnly()]
  {
    var slot := ZERO_RULE.(capabilities := Slice(["list"], []));
    ListOnlyDecodes(ZERO_RULE);
    OnePaths(Slice([], []), [], ListOnly(), slot);
    assert Once().members == [] + [Paths(ListOnly())];
    OneSlotReads(Once(), slot);
  }

  lemma TwiceKeysExact(path: string)
    ensures ExactKeys(Twice(path))
  {
    assert |"path"| != |"capabilities"|;
    assert RuleKeysExact(PathOnly(path)) && RuleKeysExact(ListOnly());
  }

  /** A rule that loses its path in storage allows the empty path in Go and nothing in SQL. */
  lemma EmptyPathDisagrees(path: string, empty: string)
    requires TrimSpace(path) != "" && empty == ""
    ensures StoredAs(Twice(path), Once()) && Acceptable("p", Twice(path)) && ExactKeys(Twice(path))
    ensures !AgreeOn(Once(), empty)
  {
    TwiceIsStoredOnce(path);
    TwiceReads(path);
    RuleAcceptable("p", Twice(path), path);
    TwiceKeysExact(path);
    OnceReads();
    OnceDisagrees(empty);
  }

  lemma OnceDisagrees(empty: string)
    requires empty == "" && Unmarshal(Once()) == Some([PathRule("", ["list"])]) && SqlElements(Once()) == [ListOnly()]
    ensures !AgreeOn(Once(), empty)
  {
    var policy := Policy("p", "p", Once());
    SingleRuleInGo(policy, "", empty);
    SingleRuleInSql(policy, ListOnly(), empty);
    assert SqlGet(ListOnly(), "path") == None by { assert ListOnly().members[..0] == []; }
  }

  // ----- The exact condition -----

  lemma TrimmedPathsAgree(path: string)
    requires TrimSlashes(path) == path != ""
    ensures AgreesAt(path)
  {
    forall raw, stored | Acceptable("p", raw) && ExactKeys(raw) && StoredAs(raw, stored) ensures AgreeOn(stored, path) {
      AcceptedIsStoredDecodable("p", raw, stored);
      RegularPolicyAgrees(Policy("p", "p", stored), path);
    }
  }

  lemma PatternDisagrees(n: Names, pattern: string, path: string)
    requires n == NAMES && TrimSpace(pattern) != "" && (PathMatches(pattern, path) <==> !SqlPathMatches(pattern, path))
    ensures !AgreesAt(path)
  {
    ExactIsStored(n, pattern);
    ExactHasExactKeys(n, pattern);
    ExactIsAcceptable(n, pattern, "p");
    ExactDecides(n, pattern, path);
    assert !AgreeOn(Exact(n, pattern), path);
  }

  /** Go and SQL decide alike on a stored path, for every document accepted with exact keys,
      if and only if the path is not empty and has no outer slash. */
  lemma PathsAgreeExactly(path: string)
    ensures AgreesAt(path) <==> TrimSlashes(path) == path != ""
  {
    if path == "" {
      SomethingLeft("x", 0);
      EmptyPathDisagrees("x", path);
    } else if TrimSlashes(path) == path {
      TrimmedPathsAgree(path);
    } else {
      var pattern := SomePatternDiffers(path);
      PatternDisagrees(NAMES, pattern, path);
    }
  }
}
