/** LIKE patterns and the folder view of the flat set of secret paths. */
module SecretTree {
  import opened Text
  import opened Access

  // ----- LIKE -----

  function EscapeLikeChar(c: char): string {
    if c == '\\' then "\\\\" else if c == '%' then "\\%" else if c == '_' then "\\_" else [c]
  }

  /** escapeLike: the replacer rewrites each character on its own. */
  function EscapeLike(value: string): string {
    if value == [] then [] else EscapeLikeChar(value[0]) + EscapeLike(value[1..])
  }

  /** PostgreSQL's LIKE with its default escape character, the backslash. */
  predicate Like(pattern: string, s: string)
    decreases |pattern| + |s|
  {
    if pattern == [] then s == []
    else if pattern[0] == '%' then Like(pattern[1..], s) || (s != [] && Like(pattern, s[1..]))
    else if pattern[0] == '_' then s != [] && Like(pattern[1..], s[1..])
    else if pattern[0] == '\\' then
      |pattern| >= 2 && s != [] && s[0] == pattern[1] && Like(pattern[2..], s[1..])
    else s != [] && s[0] == pattern[0] && Like(pattern[1..], s[1..])
  }

  /** secretChildrenPattern. */
  function ChildrenPattern(prefix: string): string {
    if prefix == "" then "%" else EscapeLike(prefix) + "/%"
  }

  lemma {:induction false} PercentMatchesAll(s: string)
    ensures Like("%", s)
  {
    if s != [] { PercentMatchesAll(s[1..]); }
    assert "%"[1..] == [];
  }

  /** An escaped text in front of a pattern matches exactly itself. */
  lemma {:induction false} EscapedMatchesItself(value: string, tail: string, s: string)
    ensures Like(EscapeLike(value) + tail, s) <==> value <= s && Like(tail, s[|value|..])
  {
    if value == [] {
      assert EscapeLike(value) + tail == tail;
    } else {
      var head, rest := EscapeLikeChar(value[0]), EscapeLike(value[1..]) + tail;
      assert EscapeLike(value) + tail == head + rest;
      assert (head + rest)[|head|..] == rest;
      assert Like(head + rest, s) <==> s != [] && s[0] == value[0] && Like(rest, s[1..]);
      if s != [] {
        EscapedMatchesItself(value[1..], tail, s[1..]);
        assert value <= s <==> s[0] == value[0] && value[1..] <= s[1..] by {
          assert value == [value[0]] + value[1..] && s == [s[0]] + s[1..];
        }
        if value <= s { assert s[1..][|value| - 1..] == s[|value|..]; }
      }
    }
  }

  function Base(prefix: string): string { if prefix == "" then "" else prefix + "/" }

  /** The children pattern selects exactly the paths below the prefix, whatever wildcard
      characters the prefix contains. */
  lemma ChildrenPatternSelects(prefix: string, s: string)
    ensures Like(ChildrenPattern(prefix), s) <==> Base(prefix) <= s
  {
    if prefix == "" {
      PercentMatchesAll(s);
    } else {
      EscapedMatchesItself(prefix, "/%", s);
      if prefix <= s {
        var rest := s[|prefix|..];
        assert "/%"[1..] == "%";
        if rest != [] { PercentMatchesAll(rest[1..]); }
        assert Like("/%", rest) <==> rest != [] && rest[0] == '/';
        assert s == prefix + rest;
        assert Base(prefix) <= s <==> rest != [] && rest[0] == '/';
      }
    }
  }

  ghost predicate ContainsText(value: string, s: string) {
    exists i :: 0 <= i <= |s| && value <= s[i..]
  }

  lemma ContainsLater(value: string, s: string)
    requires s != []
    ensures ContainsText(value, s) <==> value <= s || ContainsText(value, s[1..])
  {
    if value <= s { assert s[0..] == s; }
    if ContainsText(value, s[1..]) {
      var i :| 0 <= i <= |s[1..]| && value <= s[1..][i..];
      assert s[1..][i..] == s[i + 1..];
    }
    if ContainsText(value, s) {
      var i :| 0 <= i <= |s| && value <= s[i..];
      if i == 0 { assert s[0..] == s; } else { assert s[1..][i - 1..] == s[i..]; }
    }
  }

  lemma SearchStep(value: string, s: string)
    ensures Like("%" + EscapeLike(value) + "%", s)
       <==> value <= s || (s != [] && Like("%" + EscapeLike(value) + "%", s[1..]))
  {
    var pattern := "%" + EscapeLike(value) + "%";
    assert pattern[1..] == EscapeLike(value) + "%";
    EscapedMatchesItself(value, "%", s);
    if value <= s { PercentMatchesAll(s[|value|..]); }
  }

  /** The search pattern of the list query matches exactly the texts that contain the value. */
  lemma {:induction false} SearchPatternSelects(value: string, s: string)
    ensures Like("%" + EscapeLike(value) + "%", s) <==> ContainsText(value, s)
  {
    SearchStep(value, s);
    if s != [] {
      SearchPatternSelects(value, s[1..]);
      ContainsLater(value, s);
    } else {
      assert ContainsText(value, s) <==> value <= s by { assert s[0..] == s; }
    }
  }

  // ----- Sorting -----

  lemma {:induction false} LeastExists(keys: set<string>)
    requires keys != {}
    ensures exists key <- keys :: forall other <- keys :: other == key || Less(key, other)
  {
    var key :| key in keys;
    if keys != {key} {
      var rest := keys - {key};
      LeastExists(rest);
      var first :| first in rest && forall other <- rest :: other == first || Less(first, other);
      LesserOfTwo(keys, key, first);
    }
  }

  lemma LesserOfTwo(keys: set<string>, key: string, first: string)
    requires key in keys && first in keys && key != first
    requires forall other <- keys - {key} :: other == first || Less(first, other)
    ensures exists least <- keys :: forall other <- keys :: other == least || Less(least, other)
  {
    LessTotal(key, first);
    var least := if Less(key, first) then key else first;
    forall other <- keys ensures other == least || Less(least, other) {
      if other != key && other != first && least == key { LessTransitive(key, first, other); }
    }
  }

  ghost predicate Increasing(keys: seq<string>) {
    forall i, j :: 0 <= i < j < |keys| ==> keys[i] != keys[j] && Less(keys[i], keys[j])
  }

  method SortStrings(keys: set<string>) returns (sorted: seq<string>)
    ensures Increasing(sorted)
    ensures forall key :: key in sorted <==> key in keys
  {
    sorted := [];
    var rest := keys;
    while rest != {}
      invariant rest <= keys
      invariant forall key :: key in sorted <==> key in keys && key !in rest
      invariant Increasing(sorted)
      invariant forall i, other :: 0 <= i < |sorted| && other in rest ==> Less(sorted[i], other)
    {
      LeastExists(rest);
      var key :| key in rest && forall other <- rest :: other == key || Less(key, other);
      rest := rest - {key};
      sorted := sorted + [key];
    }
  }

  // ----- Folder listing -----

  /** The name under which a path appears in its folder: its first component, with a slash
      when there is more below it. */
  function ChildName(rest: string): string {
    var i := FirstIndex(rest, '/');
    if i < |rest| then rest[..i] + "/" else rest[..i]
  }

  /** The stored paths below a base ("" or a prefix with its slash). */
  function Under(paths: set<string>, base: string): set<string> {
    set full | full in paths && base <= full
  }

  function ChildNames(paths: set<string>, base: string): set<string> {
    set full | full in Under(paths, base) :: ChildName(full[|base|..])
  }

  /** A name that ends in its only slash. */
  predicate SubfolderName(name: string) {
    name != "" && name[|name| - 1] == '/' && '/' !in name[..|name| - 1]
  }

  lemma ChildNameIs(rest: string, name: string)
    ensures ChildName(rest) == name <==>
      (rest == name && '/' !in name) || (SubfolderName(name) && name <= rest)
  {
    var i := FirstIndex(rest, '/');
    FirstIndexFinds(rest, '/');
    assert rest[..|rest|] == rest;
    if SubfolderName(name) && name <= rest {
      var c, below := name[..|name| - 1], rest[|name|..];
      assert rest == c + ['/'] + below by { assert name == c + ['/']; assert rest == name + below; }
      FirstIndexIn(c, below, '/');
      assert rest[..|c|] == c && name == c + "/";
    }
    if i < |rest| { assert ChildName(rest) == rest[..i + 1]; }
  }

  lemma ListsPath(paths: set<string>, base: string, name: string)
    requires base + name in paths && '/' !in name
    ensures name in ChildNames(paths, base)
  {
    var full := base + name;
    assert full[|base|..] == name && full[..|base|] == base;
    ChildNameIs(name, name);
    assert full in Under(paths, base);
  }

  predicate LeadsTo(paths: set<string>, prefix: string) { exists full <- paths :: prefix <= full }

  lemma ListsFolder(paths: set<string>, base: string, name: string)
    requires SubfolderName(name) && LeadsTo(paths, base + name)
    ensures name in ChildNames(paths, base)
  {
    var full :| full in paths && base + name <= full;
    var below := full[|base + name|..];
    assert full == base + (name + below);
    assert full[..|base|] == base && full[|base|..] == name + below;
    ChildNameIs(name + below, name);
    assert full in Under(paths, base);
  }

  lemma PrefixBelow(full: string, base: string, name: string)
    requires base <= full && name <= full[|base|..]
    ensures base + name <= full
  {
    var rest := full[|base|..];
    assert full == base + rest && rest == name + rest[|name|..];
    assert full == (base + name) + rest[|name|..];
  }

  lemma ListedIs(paths: set<string>, base: string, name: string)
    requires name in ChildNames(paths, base)
    ensures (base + name in paths && '/' !in name) || (SubfolderName(name) && LeadsTo(paths, base + name))
  {
    var full :| full in Under(paths, base) && ChildName(full[|base|..]) == name;
    var rest := full[|base|..];
    ChildNameIs(rest, name);
    if rest == name && '/' !in name {
      assert full == base + name;
    } else {
      PrefixBelow(full, base, name);
    }
  }

  /** A folder lists the paths directly in it by their last component, and each subfolder
      that leads to a path by its name and a slash; nothing else. */
  lemma ChildNamesExactly(paths: set<string>, base: string, name: string)
    ensures name in ChildNames(paths, base) <==>
      (base + name in paths && '/' !in name) || (SubfolderName(name) && LeadsTo(paths, base + name))
  {
    if name in ChildNames(paths, base) { ListedIs(paths, base, name); }
    if base + name in paths && '/' !in name { ListsPath(paths, base, name); }
    if SubfolderName(name) && LeadsTo(paths, base + name) { ListsFolder(paths, base, name); }
  }

  /** The rows of the listing query are visited in any order. */
  method ListSecretChildren(paths: set<string>, rawPrefix: string) returns (keys: seq<string>)
    ensures Increasing(keys)
    ensures forall name :: name in keys <==> name in ChildNames(paths, Base(TrimSlashes(rawPrefix)))
  {
    var prefix := TrimSlashes(rawPrefix);
    var rows := set full | full in paths && Like(ChildrenPattern(prefix), full);
    assert rows == Under(paths, Base(prefix)) by {
      forall full ensures Like(ChildrenPattern(prefix), full) <==> Base(prefix) <= full {
        ChildrenPatternSelects(prefix, full);
      }
    }
    var seen := {};
    var rest := rows;
    while rest != {}
      invariant rest <= rows
      invariant seen == set full | full in rows && full !in rest :: ChildName(full[|Base(prefix)|..])
    {
      var full :| full in rest;
      var below := full;
      if prefix != "" {
        assert prefix + "/" <= full;
        below := full[|prefix| + 1..];
      }
      assert below == full[|Base(prefix)|..];
      var slash := FirstIndex(below, '/');
      var name := below[..slash];
      if slash < |below| { name := name + "/"; }
      seen := seen + {name};
      rest := rest - {full};
    }
    keys := SortStrings(seen);
  }

  // ----- Walking the tree -----

  predicate IsFolder(name: string) { name != [] && name[|name| - 1] == '/' }

  /** The stored paths whose child name below base is among the given names. */
  ghost function Grouped(paths: set<string>, base: string, names: seq<string>): set<string> {
    set full | full in Under(paths, base) && ChildName(full[|base|..]) in names
  }

  lemma FolderName(rest: string)
    ensures var i := FirstIndex(rest, '/');
            (IsFolder(ChildName(rest)) <==> i < |rest|) &&
            (i == |rest| ==> ChildName(rest) == rest) &&
            (i < |rest| ==> ChildName(rest) <= rest)
  {
    var i := FirstIndex(rest, '/');
    FirstIndexFinds(rest, '/');
    if i < |rest| {
      assert ChildName(rest) == rest[..i + 1];
    } else {
      assert rest[..i] == rest;
    }
  }

  lemma MemberOfChild(full: string, base: string, name: string)
    requires base <= full && ChildName(full[|base|..]) == name
    ensures if IsFolder(name) then base + name <= full else full == base + name
  {
    var rest := full[|base|..];
    assert full == base + rest;
    FolderName(rest);
  }

  lemma SubfolderMember(below: string, rest: string, name: string)
    requires name == ChildName(rest) && IsFolder(name) && name <= below
    ensures ChildName(below) == name
  {
    FolderName(rest);
    FirstIndexFinds(rest, '/');
    var head := rest[..FirstIndex(rest, '/')];
    assert below == head + "/" + below[|name|..] by { assert below[..|name|] == name; }
    FirstIndexIn(head, below[|name|..], '/');
    assert below[..|head|] == head;
  }

  lemma PathInSubfolder(full: string, sibling: string, base: string, name: string)
    requires IsFolder(name) && base <= sibling && ChildName(sibling[|base|..]) == name && base + name <= full
    ensures base <= full && ChildName(full[|base|..]) == name
  {
    assert full[..|base| + |name|] == base + name;
    assert base == full[..|base|];
    assert name == full[|base|..][..|name|];
    SubfolderMember(full[|base|..], sibling[|base|..], name);
  }

  /** The path appears below base under the given name. */
  predicate Named(full: string, base: string, name: string) {
    base <= full && ChildName(full[|base|..]) == name
  }

  lemma NamedBySibling(full: string, sibling: string, base: string, name: string)
    requires Named(sibling, base, name)
    ensures Named(full, base, name) <==> if IsFolder(name) then base + name <= full else full == base + name
  {
    MemberOfChild(sibling, base, name);
    if Named(full, base, name) { MemberOfChild(full, base, name); }
    if IsFolder(name) && base + name <= full { PathInSubfolder(full, sibling, base, name); }
  }

  lemma GroupOfOne(paths: set<string>, base: string, name: string, full: string)
    ensures full in Grouped(paths, base, [name]) <==> full in paths && Named(full, base, name)
  {
  }

  lemma SiblingExists(paths: set<string>, base: string, name: string) returns (sibling: string)
    requires name in ChildNames(paths, base)
    ensures sibling in paths && Named(sibling, base, name)
  {
    sibling :| sibling in Under(paths, base) && ChildName(sibling[|base|..]) == name;
  }

  /** One child of a folder stands for exactly the path it names, or for exactly the paths
      in the subfolder it names. */
  lemma ChildStandsFor(paths: set<string>, base: string, name: string)
    requires name in ChildNames(paths, base)
    ensures Grouped(paths, base, [name]) == if IsFolder(name) then Under(paths, base + name) else {base + name}
  {
    var sibling := SiblingExists(paths, base, name);
    NamedBySibling(sibling, sibling, base, name);
    var right := if IsFolder(name) then Under(paths, base + name) else {base + name};
    forall full ensures full in Grouped(paths, base, [name]) <==> full in right {
      GroupOfOne(paths, base, name, full);
      NamedBySibling(full, sibling, base, name);
    }
  }

  /** The valid ones among some paths. */
  function ValidOnes(paths: set<string>): set<string> {
    set path | path in paths && ValidPath(path)
  }

  /** A folder that leads to a valid path is itself a valid path. */
  lemma FolderOfValidPath(folder: string, path: string)
    requires ValidPath(path) && folder + "/" <= path
    ensures ValidPath(folder)
  {
    assert path[|folder|] == (folder + "/")[|folder|] == '/';
    assert folder == path[..|folder|];
    assert |path| > |folder| + 1 by { assert path[|path| - 1] != '/'; }
    assert forall i :: 0 <= i < |folder| ==> folder[i] == path[i];
  }

  /** Walks the listing recursively, into folders and to leaves that are valid paths: from
      the root it ends, and yields every valid stored path exactly once, whatever other
      paths are stored. */
  method Walk(paths: set<string>, prefix: string) returns (leaves: seq<string>)
    requires prefix == "" || ValidPath(prefix)
    ensures multiset(leaves) == multiset(ValidOnes(Under(paths, Base(prefix))))
    decreases 512 - |prefix|, 2
  {
    var base := Base(prefix);
    if prefix != "" { ValidPathTrimmed(prefix); }
    var names := ListSecretChildren(paths, prefix);
    leaves := [];
    for i := 0 to |names|
      invariant multiset(leaves) == multiset(ValidOnes(Grouped(paths, base, names[..i])))
    {
      GroupGrows(paths, base, names, i);
      assert names[i] in names;
      var below := WalkChild(paths, prefix, names[i]);
      leaves := leaves + below;
    }
    assert names[..|names|] == names;
    assert Grouped(paths, base, names) == Under(paths, base);
  }

  /** The leaves one listed child stands for. */
  method WalkChild(paths: set<string>, prefix: string, name: string) returns (leaves: seq<string>)
    requires prefix == "" || ValidPath(prefix)
    requires name in ChildNames(paths, Base(prefix))
    ensures multiset(leaves) == multiset(ValidOnes(Grouped(paths, Base(prefix), [name])))
    decreases 512 - |prefix|, 1
  {
    ChildStandsFor(paths, Base(prefix), name);
    if IsFolder(name) {
      leaves := WalkFolder(paths, prefix, name);
    } else {
      leaves := LeafOf(Base(prefix) + name);
    }
  }

  method LeafOf(leaf: string) returns (leaves: seq<string>)
    ensures multiset(leaves) == multiset(ValidOnes({leaf}))
  {
    leaves := if ValidPath(leaf) then [leaf] else [];
    assert ValidOnes({leaf}) == if ValidPath(leaf) then {leaf} else {};
  }

  method WalkFolder(paths: set<string>, prefix: string, name: string) returns (leaves: seq<string>)
    requires IsFolder(name) && (prefix == "" || ValidPath(prefix))
    ensures multiset(leaves) == multiset(ValidOnes(Under(paths, Base(prefix) + name)))
    decreases 512 - |prefix|, 0
  {
    var next := Base(prefix) + name[..|name| - 1];
    if !ValidPath(next) {
      NothingValidBelow(paths, Base(prefix), name);
      return [];
    }
    FolderBase(Base(prefix), name);
    FolderIsDeeper(prefix, name);
    leaves := Walk(paths, next);
  }

  lemma FolderIsDeeper(prefix: string, name: string)
    requires IsFolder(name) && ValidPath(Base(prefix) + name[..|name| - 1])
    ensures |prefix| < |Base(prefix) + name[..|name| - 1]| <= 512
  {
    var next := Base(prefix) + name[..|name| - 1];
    assert next != [] && next[|next| - 1] != '/';
  }

  lemma NothingValidBelow(paths: set<string>, base: string, name: string)
    requires IsFolder(name) && !ValidPath(base + name[..|name| - 1])
    ensures ValidOnes(Under(paths, base + name)) == {}
  {
    forall path | path in Under(paths, base + name) ensures !ValidPath(path) {
      assert name == name[..|name| - 1] + "/";
      assert base + name == base + name[..|name| - 1] + "/";
      if ValidPath(path) { FolderOfValidPath(base + name[..|name| - 1], path); }
    }
  }

  lemma FolderBase(base: string, name: string)
    requires IsFolder(name) && base + name[..|name| - 1] != ""
    ensures Base(base + name[..|name| - 1]) == base + name
  {
    assert name == name[..|name| - 1] + "/";
  }

  lemma GroupGrows(paths: set<string>, base: string, names: seq<string>, i: nat)
    requires i < |names| && Increasing(names)
    ensures var before, one := Grouped(paths, base, names[..i]), Grouped(paths, base, [names[i]]);
            multiset(ValidOnes(Grouped(paths, base, names[..i + 1])))
              == multiset(ValidOnes(before)) + multiset(ValidOnes(one))
  {
    assert names[..i + 1] == names[..i] + [names[i]];
    assert names[i] !in names[..i];
    var before, one := ValidOnes(Grouped(paths, base, names[..i])), ValidOnes(Grouped(paths, base, [names[i]]));
    assert ValidOnes(Grouped(paths, base, names[..i + 1])) == before + one && before !! one;
  }
}
