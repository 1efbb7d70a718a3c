/** Path policies: the three evaluators written in Go and the predicate the list
    queries evaluate in SQL. */
module Access {
  import opened Wrappers
  import opened Text
  import opened PolicyDocument

  /** The database admits exactly these four roles; Member is "user". */
  datatype Role = Admin | Manager | Auditor | Member

  /** A row of policies, with its rules column as it is stored. */
  datatype Policy = Policy(id: string, name: string, document: Json)

  /** The rules an evaluator sees; a document that does not decode is skipped. */
  function Rules(policy: Policy): seq<PathRule> {
    match Unmarshal(policy.document) case None => [] case Some(rules) => rules
  }

  const ORDERED_CAPABILITIES: seq<string> :=
    ["create", "read", "update", "delete", "list", "rotate", "encrypt", "decrypt"]

  predicate ValidCapability(c: string) { c in ORDERED_CAPABILITIES }

  predicate PathMatches(pattern: string, value: string) {
    var p, v := TrimSlashes(pattern), TrimSlashes(value);
    if p == "*" then true
    else if p != [] && p[|p| - 1] == '*' then p[..|p| - 1] <= v
    else p == v
  }

  predicate RuleGrants(rule: PathRule, path: string, capability: string) {
    PathMatches(rule.path, path) && capability in rule.capabilities
  }

  predicate RulesGrant(rules: seq<PathRule>, path: string, capability: string) {
    exists rule <- rules :: RuleGrants(rule, path, capability)
  }

  predicate PolicyGrants(policy: Policy, path: string, capability: string) {
    RulesGrant(Rules(policy), path, capability)
  }

  /** What the policies and the role of a user allow, whatever order the query returns them in. */
  predicate Allows(role: Role, policies: seq<Policy>, path: string, capability: string) {
    match role
    case Admin => true
    case Manager => true
    case Auditor => capability == "list"
    case Member => exists policy <- policies :: PolicyGrants(policy, path, capability)
  }

  /** canAccessWith: a search with early return. */
  method CanAccess(role: Role, policies: seq<Policy>, path: string, capability: string) returns (allowed: bool)
    ensures allowed <==> Allows(role, policies, path, capability)
  {
    match role {
      case Admin => return true;
      case Manager => return true;
      case Auditor => return capability == "list";
      case Member =>
    }
    for i := 0 to |policies|
      invariant forall k :: 0 <= k < i ==> !PolicyGrants(policies[k], path, capability)
    {
      var decoded := Unmarshal(policies[i].document);
      if decoded.None? { continue; }
      var rules := decoded.value;
      for j := 0 to |rules|
        invariant forall k :: 0 <= k < j ==> !RuleGrants(rules[k], path, capability)
      {
        if !PathMatches(rules[j].path, path) { continue; }
        for c := 0 to |rules[j].capabilities|
          invariant capability !in rules[j].capabilities[..c]
        {
          if rules[j].capabilities[c] == capability {
            assert RuleGrants(rules[j], path, capability);
            assert PolicyGrants(policies[i], path, capability);
            return true;
          }
        }
      }
    }
    return false;
  }

  // ----- ValidateSecretPath -----

  predicate PathHead(c: char) { 'A' <= c <= 'Z' || 'a' <= c <= 'z' || '0' <= c <= '9' }

  predicate PathChar(c: char) { PathHead(c) || c in "._/-" }

  /** The secret path pattern together with the three substring tests. */
  predicate ValidPath(path: string) {
    && 1 <= |path| <= 512
    && PathHead(path[0])
    && (forall i :: 0 <= i < |path| ==> PathChar(path[i]))
    && (forall i :: 1 <= i < |path| && path[i] in "/." ==> path[i - 1] != path[i])
    && path[|path| - 1] != '/'
  }

  /** Such a path has 1 to 512 characters, all of them letters, digits, dots, underscores,
      slashes and dashes, begins with a letter or digit, does not end in a slash, and holds
      neither ".." nor "//" anywhere. */
  lemma ValidPathExactly(path: string)
    ensures ValidPath(path) <==>
      && 0 < |path| < 513
      && !(path[0] == '.' || path[0] == '_' || path[0] == '/' || path[0] == '-') && path[|path| - 1] != '/'
      && (forall c <- path :: 'a' <= c <= 'z' || 'A' <= c <= 'Z' || '0' <= c <= '9' ||
                              c == '.' || c == '_' || c == '/' || c == '-')
      && !(exists i :: 0 <= i < |path| - 1 && (path[i..][..2] == "//" || path[i..][..2] == ".."))
  {
    forall i | 0 <= i < |path| - 1
      ensures path[i..][..2] == [path[i], path[i + 1]]
    {
    }
    if ValidPath(path) {
      assert forall c <- path :: PathChar(c);
      forall i | 0 <= i < |path| - 1
        ensures path[i..][..2] != "//" && path[i..][..2] != ".."
      {
        var k := i + 1;
        assert path[k] in "/." ==> path[k - 1] != path[k];
      }
    } else if 1 <= |path| <= 512 {
      assert path[0] in path;
      if i :| 0 <= i < |path| && !PathChar(path[i]) {
        assert path[i] in path;
      }
      if i :| 1 <= i < |path| && path[i] in "/." && path[i - 1] == path[i] {
        assert path[i - 1..][..2] == [path[i], path[i]];
      }
    }
  }

  lemma ValidPathTrimmed(path: string)
    requires ValidPath(path)
    ensures TrimSlashes(path) == path
    ensures TrimSpace(path) == path
  {
    assert PathChar(path[0]) && PathChar(path[|path| - 1]);
  }

  // ----- SimulateAccess -----

  datatype Match = Match(policyId: string, policyName: string, rulePath: string,
                         capabilities: seq<string>, grants: bool)

  datatype Simulation = Simulation(allowed: bool, roleOverride: bool, path: string, matches: seq<Match>)

  function RuleMatches(policy: Policy, rules: seq<PathRule>, path: string, capability: string): seq<Match> {
    if rules == [] then []
    else
      var rule := rules[|rules| - 1];
      RuleMatches(policy, rules[..|rules| - 1], path, capability) +
      if !PathMatches(rule.path, path) then []
      else [Match(policy.id, policy.name, rule.path, rule.capabilities, capability in rule.capabilities)]
  }

  /** The matches of policies whose rules have been decoded. */
  function PolicyMatches(policies: seq<Policy>, decoded: seq<seq<PathRule>>, path: string, capability: string)
    : seq<Match>
    requires |decoded| == |policies|
  {
    if policies == [] then []
    else
      var last := |policies| - 1;
      PolicyMatches(policies[..last], decoded[..last], path, capability) +
      RuleMatches(policies[last], decoded[last], path, capability)
  }

  predicate AnyGrants(matches: seq<Match>) { exists m <- matches :: m.grants }

  function SimulationOf(role: Role, active: bool, policies: seq<Policy>, rawPath: string, capability: string)
    : Result<Simulation>
  {
    var path := TrimSlashes(rawPath);
    if !ValidPath(path) || !ValidCapability(capability) then Err(Invalid)
    else if !active then Ok(Simulation(false, false, path, []))
    else match role
      case Admin => Ok(Simulation(true, true, path, []))
      case Manager => Ok(Simulation(true, true, path, []))
      case Auditor => Ok(Simulation(capability == "list", capability == "list", path, []))
      case Member =>
        var matches := PolicyMatches(policies, Each(Rules, policies), path, capability);
        Ok(Simulation(AnyGrants(matches), false, path, matches))
  }

  lemma AnyGrantsConcat(a: seq<Match>, b: seq<Match>)
    ensures AnyGrants(a + b) <==> AnyGrants(a) || AnyGrants(b)
  {
    if AnyGrants(a) { var m :| m in a && m.grants; assert m in a + b; }
    if AnyGrants(b) { var m :| m in b && m.grants; assert m in a + b; }
  }

  lemma AnyGrantsWith(a: seq<Match>, m: Match)
    ensures AnyGrants(a + [m]) <==> AnyGrants(a) || m.grants
  {
    AnyGrantsConcat(a, [m]);
    assert [m][0] == m;
  }

  lemma SnocGrants(rules: seq<PathRule>, path: string, capability: string)
    requires rules != []
    ensures var init, last := rules[..|rules| - 1], rules[|rules| - 1];
            RulesGrant(rules, path, capability) <==>
              RulesGrant(init, path, capability) || RuleGrants(last, path, capability)
  {
    assert rules == rules[..|rules| - 1] + [rules[|rules| - 1]];
  }

  lemma {:induction false} RuleMatchesGrant(policy: Policy, rules: seq<PathRule>, path: string, capability: string)
    ensures AnyGrants(RuleMatches(policy, rules, path, capability)) <==> RulesGrant(rules, path, capability)
  {
    if rules != [] {
      var init, last := rules[..|rules| - 1], rules[|rules| - 1];
      RuleMatchesGrant(policy, init, path, capability);
      SnocGrants(rules, path, capability);
      if PathMatches(last.path, path) {
        AnyGrantsWith(RuleMatches(policy, init, path, capability),
                      Match(policy.id, policy.name, last.path, last.capabilities, capability in last.capabilities));
      }
    }
  }

  predicate SomeGrant(decoded: seq<seq<PathRule>>, path: string, capability: string) {
    exists rules <- decoded :: RulesGrant(rules, path, capability)
  }

  lemma SnocSomeGrant(decoded: seq<seq<PathRule>>, path: string, capability: string)
    requires decoded != []
    ensures SomeGrant(decoded, path, capability) <==>
      SomeGrant(decoded[..|decoded| - 1], path, capability) || RulesGrant(decoded[|decoded| - 1], path, capability)
  {
    assert decoded == decoded[..|decoded| - 1] + [decoded[|decoded| - 1]];
  }

  lemma {:induction false} PolicyMatchesGrant(policies: seq<Policy>, decoded: seq<seq<PathRule>>,
                                              path: string, capability: string)
    requires |decoded| == |policies|
    ensures AnyGrants(PolicyMatches(policies, decoded, path, capability)) <==> SomeGrant(decoded, path, capability)
  {
    if policies != [] {
      var last := |policies| - 1;
      PolicyMatchesGrant(policies[..last], decoded[..last], path, capability);
      AnyGrantsConcat(PolicyMatches(policies[..last], decoded[..last], path, capability),
                      RuleMatches(policies[last], decoded[last], path, capability));
      RuleMatchesGrant(policies[last], decoded[last], path, capability);
      SnocSomeGrant(decoded, path, capability);
    }
  }

  /** Decoding the policies first or one by one decides the same. */
  lemma SomePolicyGrants(policies: seq<Policy>, path: string, capability: string)
    ensures SomeGrant(Each(Rules, policies), path, capability)
       <==> exists policy <- policies :: PolicyGrants(policy, path, capability)
  {
    var decoded := Each(Rules, policies);
    if SomeGrant(decoded, path, capability) {
      var i :| 0 <= i < |decoded| && RulesGrant(decoded[i], path, capability);
      assert policies[i] in policies && PolicyGrants(policies[i], path, capability);
    }
    if exists policy <- policies :: PolicyGrants(policy, path, capability) {
      var i :| 0 <= i < |policies| && PolicyGrants(policies[i], path, capability);
      assert decoded[i] in decoded;
    }
  }

  /** The two inner loops of SimulateAccess: the matches one policy adds. */
  method MatchRules(policy: Policy, rules: seq<PathRule>, path: string, capability: string)
    returns (allowed: bool, matches: seq<Match>)
    ensures matches == RuleMatches(policy, rules, path, capability)
    ensures allowed <==> AnyGrants(matches)
  {
    allowed, matches := false, [];
    for j := 0 to |rules|
      invariant matches == RuleMatches(policy, rules[..j], path, capability)
      invariant allowed <==> AnyGrants(matches)
    {
      assert rules[..j + 1][..j] == rules[..j];
      if !PathMatches(rules[j].path, path) { continue; }
      var grants := false;
      for c := 0 to |rules[j].capabilities|
        invariant grants <==> capability in rules[j].capabilities[..c]
      {
        if rules[j].capabilities[c] == capability { grants := true; }
      }
      var found := [Match(policy.id, policy.name, rules[j].path, rules[j].capabilities, grants)];
      AnyGrantsWith(matches, found[0]);
      allowed := allowed || grants;
      matches := matches + found;
    }
    assert rules[..|rules|] == rules;
  }

  method SimulateAccess(role: Role, active: bool, policies: seq<Policy>, rawPath: string, capability: string)
    returns (r: Result<Simulation>)
    ensures r == SimulationOf(role, active, policies, rawPath, capability)
  {
    var path := TrimSlashes(rawPath);
    if !ValidPath(path) || !ValidCapability(capability) { return Err(Invalid); }
    if !active { return Ok(Simulation(false, false, path, [])); }
    if role == Admin || role == Manager { return Ok(Simulation(true, true, path, [])); }
    if role == Auditor { return Ok(Simulation(capability == "list", capability == "list", path, [])); }
    var allowed, matches := false, [];
    ghost var rules := Each(Rules, policies);
    for i := 0 to |policies|
      invariant matches == PolicyMatches(policies[..i], rules[..i], path, capability)
      invariant allowed <==> AnyGrants(matches)
    {
      assert policies[..i + 1][..i] == policies[..i] && rules[..i + 1][..i] == rules[..i];
      var decoded := Unmarshal(policies[i].document);
      if decoded.None? {
        assert RuleMatches(policies[i], rules[i], path, capability) == [];
        continue;
      }
      var any, found := MatchRules(policies[i], decoded.value, path, capability);
      AnyGrantsConcat(matches, found);
      allowed, matches := allowed || any, matches + found;
    }
    assert policies[..|policies|] == policies && rules[..|policies|] == rules;
    return Ok(Simulation(allowed, false, path, matches));
  }

  // ----- CapabilitiesForPaths -----

  /** The capabilities of ordered, in that order, that granted contains. */
  function Select(ordered: seq<string>, granted: set<string>): seq<string> {
    if ordered == [] then []
    else
      var init, last := ordered[..|ordered| - 1], ordered[|ordered| - 1];
      Select(init, granted) + if last in granted then [last] else []
  }

  function Repeat(list: seq<string>, times: nat): seq<string> {
    if times == 0 then [] else Repeat(list, times - 1) + list
  }

  /** What is repeated occurs as often as it is repeated. */
  lemma {:induction false} RepeatCounts(list: seq<string>, times: nat, capability: string)
    ensures multiset(Repeat(list, times))[capability] == times * multiset(list)[capability]
  {
    if times > 0 {
      RepeatCounts(list, times - 1, capability);
      OneMore(Repeat(list, times - 1), list, capability);
      Times(times, multiset(list)[capability]);
    }
  }

  lemma OneMore(a: seq<string>, b: seq<string>, x: string)
    ensures multiset(a + b)[x] == multiset(a)[x] + multiset(b)[x]
  {
  }

  lemma Times(n: nat, m: nat)
    requires n >= 1
    ensures n * m == (n - 1) * m + m
  {
  }

  function Flatten(lists: seq<seq<PathRule>>): seq<PathRule> {
    if lists == [] then [] else Flatten(lists[..|lists| - 1]) + lists[|lists| - 1]
  }

  function AllRules(policies: seq<Policy>): seq<PathRule> { Flatten(Each(Rules, policies)) }

  ghost function Granted(rules: seq<PathRule>, path: string): set<string> {
    set rule, capability | rule in rules && capability in rule.capabilities && PathMatches(rule.path, path)
      :: capability
  }

  /** The answer for one path of a list that names it the given number of times. */
  ghost function CapabilitiesOf(role: Role, policies: seq<Policy>, path: string, times: nat): seq<string> {
    match role
    case Admin => ORDERED_CAPABILITIES
    case Manager => ORDERED_CAPABILITIES
    case Auditor => ["list"]
    case Member => Repeat(Select(ORDERED_CAPABILITIES, Granted(AllRules(policies), path)), times)
  }

  ghost function CapabilityTable(role: Role, policies: seq<Policy>, paths: seq<string>): map<string, seq<string>> {
    map path | path in paths :: CapabilitiesOf(role, policies, path, multiset(paths)[path])
  }

  method GrantedFor(rules: seq<PathRule>, path: string) returns (granted: set<string>)
    ensures granted == Granted(rules, path)
  {
    granted := {};
    for i := 0 to |rules|
      invariant granted == Granted(rules[..i], path)
    {
      assert rules[..i + 1] == rules[..i] + [rules[i]];
      if !PathMatches(rules[i].path, path) { continue; }
      ghost var before := granted;
      for c := 0 to |rules[i].capabilities|
        invariant granted == before + set capability | capability in rules[i].capabilities[..c]
      {
        granted := granted + {rules[i].capabilities[c]};
      }
      assert rules[i].capabilities[..|rules[i].capabilities|] == rules[i].capabilities;
    }
    assert rules[..|rules|] == rules;
  }

  method SelectGranted(ordered: seq<string>, granted: set<string>) returns (list: seq<string>)
    ensures list == Select(ordered, granted)
  {
    list := [];
    for c := 0 to |ordered|
      invariant list == Select(ordered[..c], granted)
    {
      assert ordered[..c + 1][..c] == ordered[..c];
      if ordered[c] in granted { list := list + [ordered[c]]; }
    }
    assert ordered[..|ordered|] == ordered;
  }

  method DecodedRules(policies: seq<Policy>) returns (rules: seq<PathRule>)
    ensures rules == AllRules(policies)
  {
    rules := [];
    ghost var lists := Each(Rules, policies);
    for i := 0 to |policies|
      invariant rules == Flatten(lists[..i])
    {
      assert lists[..i + 1][..i] == lists[..i];
      var decoded := Unmarshal(policies[i].document);
      if decoded.Some? { rules := rules + decoded.value; }
    }
    assert lists[..|policies|] == lists;
  }

  /** Each list as often as its path occurs among the first i. */
  ghost function RepeatedUpTo(want: map<string, seq<string>>, paths: seq<string>, i: nat): map<string, seq<string>>
    requires i <= |paths|
  {
    map path | path in want :: Repeat(want[path], multiset(paths[..i])[path])
  }

  lemma RepeatedGrows(want: map<string, seq<string>>, paths: seq<string>, i: nat)
    requires i < |paths| && paths[i] in want
    ensures var before := RepeatedUpTo(want, paths, i);
            RepeatedUpTo(want, paths, i + 1) == before[paths[i] := before[paths[i]] + want[paths[i]]]
  {
    assert paths[..i + 1] == paths[..i] + [paths[i]];
  }

  /** The branch of CapabilitiesForPaths that evaluates rules: a path named twice is
      answered with its list written twice. */
  method RuleCapabilities(ordered: seq<string>, rules: seq<PathRule>, paths: seq<string>)
    returns (result: map<string, seq<string>>)
    ensures result == map path | path in paths ::
      Repeat(Select(ordered, Granted(rules, path)), multiset(paths)[path])
  {
    ghost var want := map path | path in paths :: Select(ordered, Granted(rules, path));
    result := map path | path in paths :: [];
    for i := 0 to |paths|
      invariant result == RepeatedUpTo(want, paths, i)
    {
      var granted := GrantedFor(rules, paths[i]);
      var list := SelectGranted(ordered, granted);
      assert paths[i] in want && list == want[paths[i]];
      RepeatedGrows(want, paths, i);
      result := result[paths[i] := result[paths[i]] + list];
    }
    assert paths[..|paths|] == paths;
  }

  method CapabilitiesForPaths(role: Role, policies: seq<Policy>, paths: seq<string>)
    returns (result: map<string, seq<string>>)
    ensures result == CapabilityTable(role, policies, paths)
  {
    if role == Admin || role == Manager {
      result := map path | path in paths :: ORDERED_CAPABILITIES;
    } else if role == Auditor {
      result := map path | path in paths :: ["list"];
    } else {
      var rules := DecodedRules(policies);
      result := RuleCapabilities(ORDERED_CAPABILITIES, rules, paths);
    }
  }

  lemma {:induction false} SelectMember(ordered: seq<string>, granted: set<string>, capability: string)
    ensures capability in Select(ordered, granted) <==> capability in ordered && capability in granted
  {
    if ordered != [] {
      SelectMember(ordered[..|ordered| - 1], granted, capability);
      assert ordered == ordered[..|ordered| - 1] + [ordered[|ordered| - 1]];
    }
  }

  lemma {:induction false} RepeatMember(list: seq<string>, times: nat, capability: string)
    ensures capability in Repeat(list, times) <==> times > 0 && capability in list
  {
    if times > 0 { RepeatMember(list, times - 1, capability); }
  }

  lemma GrantedByRule(rules: seq<PathRule>, path: string, capability: string)
    ensures capability in Granted(rules, path) <==> RulesGrant(rules, path, capability)
  {
    if RulesGrant(rules, path, capability) {
      var rule :| rule in rules && RuleGrants(rule, path, capability);
      assert capability in rule.capabilities && PathMatches(rule.path, path);
    }
    if capability in Granted(rules, path) {
      var rule :| rule in rules && capability in rule.capabilities && PathMatches(rule.path, path);
      assert RuleGrants(rule, path, capability);
    }
  }

  lemma GrantedConcat(a: seq<PathRule>, b: seq<PathRule>, path: string)
    ensures Granted(a + b, path) == Granted(a, path) + Granted(b, path)
  {
  }

  lemma {:induction false} FlattenGrants(lists: seq<seq<PathRule>>, path: string, capability: string)
    ensures capability in Granted(Flatten(lists), path) <==> SomeGrant(lists, path, capability)
  {
    if lists != [] {
      var init, last := lists[..|lists| - 1], lists[|lists| - 1];
      FlattenGrants(init, path, capability);
      GrantedByRule(last, path, capability);
      GrantedConcat(Flatten(init), last, path);
      SnocSomeGrant(lists, path, capability);
    }
  }

  // ----- The list queries -----

  /** PostgreSQL left(text, n): a negative n drops characters from the end. */
  function SqlLeft(s: string, n: int): string {
    if n >= 0 then (if n <= |s| then s[..n] else s)
    else if -n <= |s| then s[..|s| + n] else ""
  }

  function SqlRight(s: string, n: nat): string {
    if n <= |s| then s[|s| - n..] else s
  }

  predicate SqlPathMatches(pattern: string, path: string) {
    var p := TrimSlashes(pattern);
    || p == "*"
    || (SqlRight(p, 1) == "*" && SqlLeft(path, |p| - 1) == SqlLeft(p, |p| - 1))
    || path == p
  }

  /** One element of "paths" lets its pattern list the path. */
  predicate SqlLists(element: Json, path: string) {
    && SqlHas(SqlGet(element, "capabilities"), "list")
    && var pattern := SqlText(SqlGet(element, "path"));
       pattern.Some? && SqlPathMatches(pattern.value, path)
  }

  predicate SqlPolicyLists(policy: Policy, path: string) {
    exists element <- SqlElements(policy.document) :: SqlLists(element, path)
  }

  /** The EXISTS subquery shared by the secret list and the user dashboard. */
  predicate SqlListable(policies: seq<Policy>, path: string) {
    exists policy <- policies :: SqlPolicyLists(policy, path)
  }

  /** The WHERE clause of ListSecretsAuthorizedFiltered for one stored path. */
  predicate SqlVisible(role: Role, policies: seq<Policy>, path: string) {
    role in {Admin, Manager, Auditor} || SqlListable(policies, path)
  }

  lemma SqlWildcard(stem: string, path: string)
    ensures SqlLeft(path, |stem|) == SqlLeft(stem + "*", |stem|) <==> stem <= path
  {
    assert (stem + "*")[..|stem|] == stem;
    if |stem| <= |path| { assert stem <= path <==> path[..|stem|] == stem; }
  }

  /** On a path without outer slashes the SQL expression decides as pathMatches does. */
  lemma SqlMatchesAsGo(pattern: string, path: string)
    requires TrimSlashes(path) == path
    ensures SqlPathMatches(pattern, path) <==> PathMatches(pattern, path)
  {
    var p := TrimSlashes(pattern);
    if p != [] {
      assert SqlRight(p, 1) == [p[|p| - 1]];
      if p[|p| - 1] == '*' {
        assert p == p[..|p| - 1] + "*";
        SqlWildcard(p[..|p| - 1], path);
      }
    }
  }

  // ----- PutPolicy -----

  predicate RuleAccepted(rule: PathRule) {
    TrimSpace(rule.path) != "" && forall capability <- rule.capabilities :: ValidCapability(capability)
  }

  predicate RulesAccepted(rules: seq<PathRule>) { forall rule <- rules :: RuleAccepted(rule) }

  /** The documents PutPolicy accepts. */
  predicate Acceptable(name: string, raw: Json) {
    && TrimSpace(name) != ""
    && Unmarshal(raw).Some?
    && RulesAccepted(Unmarshal(raw).value)
  }

  /** The checks of PutPolicy, in front of its statement. */
  method CheckPolicy(name: string, raw: Json) returns (r: Result<()>)
    ensures r == if Acceptable(name, raw) then Ok(()) else Err(Invalid)
  {
    if TrimSpace(name) == "" { return Err(Invalid); }
    var parsed := Unmarshal(raw);
    if parsed.None? { return Err(Invalid); }
    for i := 0 to |parsed.value|
      invariant forall k :: 0 <= k < i ==> RuleAccepted(parsed.value[k])
    {
      var rule := parsed.value[i];
      assert rule in parsed.value;
      if TrimSpace(rule.path) == "" { return Err(Invalid); }
      for c := 0 to |rule.capabilities|
        invariant forall k :: 0 <= k < c ==> ValidCapability(rule.capabilities[k])
      {
        if !ValidCapability(rule.capabilities[c]) {
          assert rule.capabilities[c] in rule.capabilities;
          assert !RuleAccepted(rule);
          return Err(Invalid);
        }
      }
      assert RuleAccepted(rule);
    }
    assert RulesAccepted(parsed.value);
    return Ok(());
  }

  /** A policy is acceptable exactly when its name is not blank and its document decodes to
      rules with a path that is not blank and none but the eight capabilities. */
  lemma AcceptableExactly(name: string, raw: Json)
    ensures Acceptable(name, raw) <==>
      && !IsBlank(name)
      && Unmarshal(raw).Some?
      && forall rule <- Unmarshal(raw).value ::
           !IsBlank(rule.path) && forall capability <- rule.capabilities :: Known(capability)
  {
    BlankIsTrimmedAway(name);
    if Unmarshal(raw).Some? {
      forall rule <- Unmarshal(raw).value
        ensures RuleAccepted(rule) <==>
          !IsBlank(rule.path) && forall capability <- rule.capabilities :: Known(capability)
      {
        BlankIsTrimmedAway(rule.path);
        forall capability <- rule.capabilities ensures ValidCapability(capability) <==> Known(capability) {
          CapabilityNames(capability);
        }
      }
    }
  }

  predicate Known(c: string) {
    c == "create" || c == "read" || c == "update" || c == "delete" ||
    c == "list" || c == "rotate" || c == "encrypt" || c == "decrypt"
  }

  lemma BlankIsTrimmedAway(s: string)
    ensures IsBlank(s) <==> TrimSpace(s) == ""
  {
    if IsBlank(s) { BlankTrims(s); }
    if TrimSpace(s) == "" { TrimmedAwayIsBlank(s); }
  }

  /** A stored document whose fields carry their exact names. */
  ghost predicate Regular(doc: Json) { WellTyped(doc) && KeysStored(doc) && ExactKeys(doc) }

  /** What PutPolicy accepts is stored so that Go decodes it; and if it was written with
      exact names, it is stored with them. */
  lemma AcceptedIsStoredDecodable(name: string, raw: Json, stored: Json)
    requires Acceptable(name, raw) && StoredAs(raw, stored)
    ensures Unmarshal(stored).Some?
    ensures ExactKeys(raw) ==> Regular(stored)
  {
    DecodesExactly(raw);
    StaysTyped(raw, stored);
    DecodesExactly(stored);
    KeysAreStored(raw, stored);
    if ExactKeys(raw) { ExactKeysStay(raw, stored); }
  }

  // ----- The list queries agree -----

  lemma GoGrantsByPattern(policy: Policy, path: string)
    requires TrimSlashes(path) == path != ""
    ensures PolicyGrants(policy, path, "list") <==>
      exists p :: Some(p) in GoListing(policy.document) && PathMatches(p, path)
  {
    var rules, listing := Rules(policy), GoListing(policy.document);
    if PolicyGrants(policy, path, "list") {
      var rule :| rule in rules && RuleGrants(rule, path, "list");
      var i :| 0 <= i < |rules| && rules[i] == rule;
      assert listing[i] == Some(rule.path);
    }
    if exists p :: Some(p) in listing && PathMatches(p, path) {
      var p :| Some(p) in listing && PathMatches(p, path);
      var i :| 0 <= i < |listing| && listing[i] == Some(p);
      assert GoPattern(rules[i]) == Some(p);
      assert RuleGrants(rules[i], path, "list");
    }
  }

  lemma SqlListsByPattern(policy: Policy, path: string)
    requires TrimSlashes(path) == path != ""
    ensures SqlPolicyLists(policy, path) <==>
      exists p :: Some(p) in SqlListing(policy.document) && PathMatches(p, path)
  {
    var elements, listing := SqlElements(policy.document), SqlListing(policy.document);
    if SqlPolicyLists(policy, path) {
      var element :| element in elements && SqlLists(element, path);
      var i :| 0 <= i < |elements| && elements[i] == element;
      var p := SqlText(SqlGet(element, "path")).value;
      SqlMatchesAsGo(p, path);
      assert listing[i] == Some(p);
    }
    if exists p :: Some(p) in listing && PathMatches(p, path) {
      var p :| Some(p) in listing && PathMatches(p, path);
      var i :| 0 <= i < |listing| && listing[i] == Some(p);
      SqlMatchesAsGo(p, path);
      assert SqlLists(elements[i], path);
    }
  }

  lemma RegularReadAlike(doc: Json)
    requires Regular(doc)
    ensures GoListing(doc) == SqlListing(doc)
  {
    ExactKeysSuffice(doc);
    ReadAlikeExactly(doc);
  }

  lemma RegularPolicyAgrees(policy: Policy, path: string)
    requires Regular(policy.document) && TrimSlashes(path) == path != ""
    ensures SqlPolicyLists(policy, path) <==> PolicyGrants(policy, path, "list")
  {
    RegularReadAlike(policy.document);
    GoGrantsByPattern(policy, path);
    SqlListsByPattern(policy, path);
  }

  // ----- Agreement -----

  /** The three Go evaluators decide alike for every active user, valid path and
      valid capability, in whatever orders their queries return the policies. */
  lemma DecidersAgree(role: Role, policies: seq<Policy>, byName: seq<Policy>, paths: seq<string>,
                      path: string, capability: string)
    requires ValidPath(path) && ValidCapability(capability) && path in paths
    requires forall policy :: policy in policies <==> policy in byName
    ensures Allows(role, policies, path, capability) <==> Allows(role, byName, path, capability)
    ensures SimulationOf(role, true, byName, path, capability).Ok?
    ensures SimulationOf(role, true, byName, path, capability).value.allowed
       <==> Allows(role, policies, path, capability)
    ensures capability in CapabilityTable(role, policies, paths)[path]
       <==> Allows(role, policies, path, capability)
  {
    ValidPathTrimmed(path);
    PolicyMatchesGrant(byName, Each(Rules, byName), path, capability);
    SomePolicyGrants(byName, path, capability);
    SomePolicyGrants(policies, path, capability);
    var granted := Granted(AllRules(policies), path);
    FlattenGrants(Each(Rules, policies), path, capability);
    SelectMember(ORDERED_CAPABILITIES, granted, capability);
    RepeatMember(Select(ORDERED_CAPABILITIES, granted), multiset(paths)[path], capability);
    assert path in multiset(paths);
  }

  /** With regular policies the list query shows exactly the stored paths on which "list"
      is allowed, and the dashboard query does so for exactly the users it is run for. */
  lemma ListQueriesAgree(role: Role, policies: seq<Policy>, path: string)
    requires TrimSlashes(path) == path != ""
    requires forall policy <- policies :: Regular(policy.document)
    ensures SqlVisible(role, policies, path) <==> Allows(role, policies, path, "list")
    ensures role == Member ==> (SqlListable(policies, path) <==> Allows(role, policies, path, "list"))
  {
    forall policy <- policies ensures SqlPolicyLists(policy, path) <==> PolicyGrants(policy, path, "list") {
      RegularPolicyAgrees(policy, path);
    }
  }

  // ----- The deciders in plain words -----

  lemma CapabilityNames(c: string)
    ensures ValidCapability(c) <==> Known(c)
  {
    var names := ORDERED_CAPABILITIES;
    assert names[0] == "create" && names[1] == "read" && names[2] == "update" && names[3] == "delete";
    assert names[4] == "list" && names[5] == "rotate" && names[6] == "encrypt" && names[7] == "decrypt";
  }

  /** A pattern that ends in a star matches the paths that begin with what is before it. */
  lemma WildcardMatches(stem: string, path: string)
    requires (stem == "" || stem[0] != '/') && TrimSlashes(path) == path
    ensures PathMatches(stem + "*", path) <==> stem <= path
  {
    var p := stem + "*";
    assert TrimSlashes(p) == p && p[..|p| - 1] == stem;
    if p == "*" { assert stem == p[..|p| - 1] == []; }
  }

  /** Any other pattern matches only itself, up to outer slashes. */
  lemma PlainMatches(pattern: string, path: string)
    requires TrimSlashes(pattern) == pattern && TrimSlashes(path) == path
    requires pattern == "" || pattern[|pattern| - 1] != '*'
    ensures PathMatches(pattern, path) <==> pattern == path
  {
  }

  /** What each role may do. */
  lemma RolesDecide(role: Role, policies: seq<Policy>, path: string, capability: string)
    ensures role == Admin || role == Manager ==> Allows(role, policies, path, capability)
    ensures role == Auditor ==> (Allows(role, policies, path, capability) <==> capability == "list")
    ensures role == Member ==> (Allows(role, policies, path, capability) <==>
      exists policy <- policies :: exists rule <- Rules(policy) ::
        PathMatches(rule.path, path) && capability in rule.capabilities)
  {
    if role == Member {
      if Allows(role, policies, path, capability) {
        var policy :| policy in policies && PolicyGrants(policy, path, capability);
        var rule :| rule in Rules(policy) && RuleGrants(rule, path, capability);
        assert PathMatches(rule.path, path) && capability in rule.capabilities;
      }
      if exists policy <- policies :: exists rule <- Rules(policy) ::
           PathMatches(rule.path, path) && capability in rule.capabilities {
        var policy :| policy in policies && exists rule <- Rules(policy) ::
          PathMatches(rule.path, path) && capability in rule.capabilities;
        var rule :| rule in Rules(policy) && PathMatches(rule.path, path) && capability in rule.capabilities;
        assert RuleGrants(rule, path, capability);
        assert PolicyGrants(policy, path, capability);
      }
    }
  }

  /** The match is the report on one of the policy's rules that matches the path. */
  predicate Reports(m: Match, policy: Policy, rules: seq<PathRule>, path: string, capability: string) {
    && m.policyId == policy.id && m.policyName == policy.name
    && exists rule <- rules ::
         (PathMatches(rule.path, path) && m.rulePath == rule.path && m.capabilities == rule.capabilities
          && (m.grants <==> capability in rule.capabilities))
  }

  lemma {:induction false} RuleMatchIs(policy: Policy, rules: seq<PathRule>, path: string, capability: string, m: Match)
    ensures m in RuleMatches(policy, rules, path, capability) <==> Reports(m, policy, rules, path, capability)
  {
    if rules != [] {
      var init, last := rules[..|rules| - 1], rules[|rules| - 1];
      RuleMatchIs(policy, init, path, capability, m);
      assert rules == init + [last];
      assert forall rule :: rule in rules <==> rule in init || rule == last;
    }
  }

  lemma {:induction false} MatchIs(policies: seq<Policy>, decoded: seq<seq<PathRule>>, path: string, capability: string,
                                   m: Match)
    requires |decoded| == |policies|
    ensures m in PolicyMatches(policies, decoded, path, capability) <==>
      exists i :: 0 <= i < |policies| && Reports(m, policies[i], decoded[i], path, capability)
  {
    if policies != [] {
      var last := |policies| - 1;
      MatchIs(policies[..last], decoded[..last], path, capability, m);
      RuleMatchIs(policies[last], decoded[last], path, capability, m);
      forall i | 0 <= i < last ensures policies[..last][i] == policies[i] && decoded[..last][i] == decoded[i] { }
      SomeReport(policies, decoded, path, capability, m);
    }
  }

  lemma SomeReport(policies: seq<Policy>, decoded: seq<seq<PathRule>>, path: string, capability: string, m: Match)
    requires |decoded| == |policies| > 0
    ensures var last := |policies| - 1;
            (exists i :: 0 <= i < |policies| && Reports(m, policies[i], decoded[i], path, capability)) <==>
            ((exists i :: 0 <= i < last && Reports(m, policies[..last][i], decoded[..last][i], path, capability)) ||
             Reports(m, policies[last], decoded[last], path, capability))
  {
    var last := |policies| - 1;
    forall i | 0 <= i < last
      ensures Reports(m, policies[..last][i], decoded[..last][i], path, capability)
         <==> Reports(m, policies[i], decoded[i], path, capability)
    {
    }
  }

  /** The simulation's answer: refused for an invalid path or capability; nothing for an
      inactive user; by role alone for all but members; and for a member allowed exactly
      when canAccess allows, with a report on each matching rule. */
  lemma SimulationVerdict(role: Role, active: bool, policies: seq<Policy>, rawPath: string, capability: string)
    ensures var path := TrimSlashes(rawPath);
            var r := SimulationOf(role, active, policies, rawPath, capability);
            if !ValidPath(path) || !ValidCapability(capability) then r == Err(Invalid)
            else
              && r.Ok? && r.value.path == path
              && (r.value.allowed <==> active && Allows(role, policies, path, capability))
              && (r.value.roleOverride <==>
                   active && (role == Admin || role == Manager || (role == Auditor && capability == "list")))
              && (!active || role != Member ==> r.value.matches == [])
              && (active && role == Member ==>
                   forall m :: m in r.value.matches <==>
                     exists i :: 0 <= i < |policies| && Reports(m, policies[i], Rules(policies[i]), path, capability))
  {
    var path := TrimSlashes(rawPath);
    var decoded := Each(Rules, policies);
    PolicyMatchesGrant(policies, decoded, path, capability);
    SomePolicyGrants(policies, path, capability);
    forall m ensures m in PolicyMatches(policies, decoded, path, capability) <==>
      exists i :: 0 <= i < |policies| && Reports(m, policies[i], Rules(policies[i]), path, capability)
    {
      MatchIs(policies, decoded, path, capability, m);
    }
  }

  /** The capabilities of a path are listed in the fixed order, each once. */
  lemma {:induction false} SelectInOrder(ordered: seq<string>, granted: set<string>) returns (at: seq<nat>)
    ensures |at| == |Select(ordered, granted)|
    ensures forall i :: 0 <= i < |at| ==> at[i] < |ordered| && ordered[at[i]] == Select(ordered, granted)[i]
    ensures forall i, j :: 0 <= i < j < |at| ==> at[i] < at[j]
  {
    at := [];
    if ordered != [] {
      var init, last := ordered[..|ordered| - 1], ordered[|ordered| - 1];
      at := SelectInOrder(init, granted);
      if last in granted { at := at + [|ordered| - 1]; }
    }
  }
}
