/** The CODEOWNERS engine: parsing, memoised group expansion, owner look-up, counting and approval. */
module CodeOwners {
  import opened Approvals
  import opened FileExpansion
  import opened GroupExpansion
  import opened GroupGraph
  import opened Options
  import opened Ordering
  import opened OwnersFile

  // ----- The parsed file

  ghost predicate HasRead(lines: seq<Line>, pathList: seq<string>, ignoreList: seq<string>, c: Contents) {
    pathList == PathPatterns(lines) && ignoreList == IgnorePatterns(lines) && c == FileContents(lines)
  }

  lemma HasReadOneMore(before: seq<Line>, line: Line, pathList: seq<string>, ignoreList: seq<string>, c: Contents)
    requires HasRead(before, pathList, ignoreList, c)
    ensures HasRead(before + [line],
                    pathList + if line.IsPath() then [NormalizePattern(line.pathPattern)] else [],
                    ignoreList + if line.IsIgnore() then [NormalizePattern(line.pathPattern[1..])] else [],
                    Contents(WithGroupLine(c.groups, line), WithPathLine(c.paths, line), c.users))
  {
    OneMorePattern(before, line);
    OneMoreGroupLine(before, line);
    OneMorePathLine(before, line);
  }

  class ParsedFile {
    var pathList: seq<string>
    var ignoreList: seq<string>
    var groups: Groups
    var paths: map<string, seq<string>>
    var users: set<string>

    const matches: Matcher

    ghost function View(): Contents
      reads this
    {
      Contents(groups, paths, users)
    }

    /** Reads the lines of a file, before any expansion. */
    constructor (lines: seq<Line>, matches: Matcher)
      ensures this.matches == matches
      ensures pathList == Reverse(PathPatterns(lines)) && ignoreList == IgnorePatterns(lines)
      ensures View() == FileContents(lines)
    {
      this.matches := matches;
      pathList, ignoreList, groups, paths, users := [], [], map[], map[], {};
      new;
      for i := 0 to |lines|
        invariant HasRead(lines[..i], pathList, ignoreList, View())
      {
        assert lines[..i + 1] == lines[..i] + [lines[i]];
        HasReadOneMore(lines[..i], lines[i], pathList, ignoreList, View());
        AddLine(lines[i]);
      }
      assert lines[..|lines|] == lines;
      pathList := Reverse(pathList);
    }

    /** Adds one line: the body of the loop. */
    method AddLine(line: Line)
      modifies `pathList, `ignoreList, `groups, `paths
      ensures pathList == old(pathList) + if line.IsPath() then [NormalizePattern(line.pathPattern)] else []
      ensures ignoreList == old(ignoreList) + if line.IsIgnore() then [NormalizePattern(line.pathPattern[1..])] else []
      ensures groups == WithGroupLine(old(groups), line) && paths == WithPathLine(old(paths), line)
    {
      if line.IsIgnore() {
        ignoreList := ignoreList + [NormalizePattern(line.pathPattern[1..])];
      } else if line.IsPath() {
        var pattern := NormalizePattern(line.pathPattern);
        pathList := pathList + [pattern];
        paths := paths[pattern := Lookup(paths, pattern) + line.members];
      } else if line.IsGroup() {
        groups := groups[line.group := Lookup(groups, line.group) + line.members];
      }
    }

    /**
     * Replaces group references by individual members in all path entries, or in none.
     * The order in which the paths are walked is not for the program to choose.
     */
    method ExpandGroups(walk: seq<string>) returns (ok: bool)
      requires Terminates(View()) && IsWalk(View(), walk)
      modifies `groups, `paths, `users
      ensures Expansion(old(View()), walk, View(), ok)
    {
      ghost var before := View();
      var expandedPaths: Paths := map[];
      NoStep(groups, groups, users);
      for i := 0 to |walk|
        invariant paths == before.paths && PathsExpanded(before, walk, i, expandedPaths)
        invariant ExpandedFirst(before, walk, i, View(), true)
      {
        assert walk[i] in walk;
        var expanded, good := ExpandEntry(before, walk, i);
        if !good {
          AbortedExpansion(before, View(), walk, i + 1);
          return false;
        }
        OneMorePathExpanded(before, walk, i, expandedPaths, expanded);
        expandedPaths := expandedPaths[walk[i] := expanded];
      }
      paths := expandedPaths;
      CompletedExpansion(before, View(), walk);
      return true;
    }

    /** The body of the loop over the path entries. */
    method ExpandEntry(ghost before: Contents, walk: seq<string>, i: nat) returns (expanded: seq<string>, ok: bool)
      requires Terminates(before) && IsWalk(before, walk) && i < |walk| && paths == before.paths
      requires ExpandedFirst(before, walk, i, View(), true)
      modifies `groups, `users
      ensures ExpandedFirst(before, walk, i + 1, View(), ok)
      ensures ok ==> FlatOf(before.groups, paths[walk[i]], expanded)
    {
      assert walk[i] in walk;
      AlongOneMore(paths, walk, i);
      expanded, ok := ExpandMembers(before.groups, paths[walk[i]]);
      StepsCompose(before.groups, MembersAlong(paths, walk[..i]), paths[walk[i]], before.groups, old(groups), groups,
                   before.users, old(users), users, ok);
    }

    /** Expands a list of members, as both path entries and groups do. `g` is the file before any expansion. */
    method ExpandMembers(ghost g: Groups, members: seq<string>) returns (expanded: seq<string>, ok: bool)
      requires AllAcyclic(g, members) && Memo(g, groups) && Settled(g, groups)
      modifies `groups, `users
      ensures Step(g, members, old(groups), groups, old(users), users, ok)
      ensures ok ==> FlatOf(g, members, expanded) && (members != [] ==> expanded != [])
      decreases BelowAny(g, members), 1
    {
      expanded := [];
      var i := 0;
      NoStep(g, groups, users);
      assert members[..0] == [];
      while i < |members|
        invariant i <= |members|
        invariant Step(g, members[..i], old(groups), groups, old(users), users, true)
        invariant forall u :: u in expanded <==> UserOfAny(g, members[..i], u)
        invariant i > 0 ==> expanded != []
      {
        assert members[..i + 1] == members[..i] + [members[i]];
        BelowAnyOne(g, members, members[i]);
        label L:
        var found, size := ExpandMember(g, members[i]);
        StepsCompose(g, members[..i], [members[i]], old(groups), old@L(groups), groups,
                     old(users), old@L(users), users, size > 0);
        if size == 0 {
          assert members[..i + 1] + members[i + 1..] == members;
          StepFails(g, members[..i + 1], members[i + 1..], old(groups), groups, old(users), users);
          return [], false;
        }
        expanded := expanded + found;
        i := i + 1;
      }
      assert members[..|members|] == members;
      assert expanded != [] ==> expanded[0] in SortCompact(expanded);
      expanded := SortCompact(expanded);
      return expanded, true;
    }

    method ExpandMember(ghost g: Groups, name: string) returns (found: seq<string>, size: nat)
      requires AcyclicFrom(g, name) && Memo(g, groups) && Settled(g, groups)
      modifies `groups, `users
      ensures Step(g, [name], old(groups), groups, old(users), users, size > 0)
      ensures size == |found|
      ensures size > 0 ==> FlatGroup(g, name, found)
      decreases Below(g, name), 0
    {
      if !IsGroup(name) {
        users := users + {name};
        IndividualStep(g, name, groups, old(users));
        return [name], 1;
      }
      if name !in groups {
        UndefinedGroupFails(g, name, groups, users);
        return [], 0;
      }
      var members := groups[name];
      MembersBelowGroup(g, groups, name);
      var expanded, ok := ExpandMembers(g, members);
      if !ok {
        GroupStepFails(g, name, old(groups), groups, old(users), users, false);
        return [], 0;
      }
      if members == [] {
        EmptyGroupFails(g, name, old(groups), groups, old(users), users, expanded);
      } else {
        GroupStepSucceeds(g, name, old(groups), groups, old(users), users, expanded);
      }
      groups := groups[name := expanded]; // Other groups may contain this one.
      return expanded, |expanded|;
    }

    /** Whether one owner (or every owner, or a fallback owner) approved. The groups must not be cyclic. */
    method AllApproved(approvers: seq<string>, owners: seq<string>, needAll: bool) returns (r: bool)
      requires AllAcyclic(groups, owners)
      requires needAll && FALLBACK_OWNERS in groups ==> AllAcyclic(groups, groups[FALLBACK_OWNERS])
      ensures r <==> if needAll then NeedAll(groups, approvers, owners) else NeedOne(groups, approvers, owners)
      decreases needAll, BelowAny(groups, owners)
    {
      if needAll && FALLBACK_OWNERS in groups {
        var fallback := AllApproved(approvers, groups[FALLBACK_OWNERS], false);
        if fallback {
          return true;
        }
      }
      NeedOneUnfolds(groups, approvers, owners);
      var approvals := 0;
      for i := 0 to |owners|
        invariant approvals <= i
        invariant AllDefined(groups, owners[..i])
        invariant approvals == i <==> forall j :: 0 <= j < i ==> OwnerApproved(groups, approvers, owners[j])
        invariant approvals > 0 <==> exists j :: 0 <= j < i && OwnerApproved(groups, approvers, owners[j])
      {
        var name := owners[i];
        if !IsGroup(name) {
          if name in approvers {
            approvals := approvals + 1;
          }
        } else if name !in groups {
          return false;
        } else {
          MembersShrink(groups, name);
          BelowAnyOne(groups, owners, name);
          var approved := AllApproved(approvers, groups[name], false);
          if approved {
            approvals := approvals + 1;
          }
        }
        assert owners[..i + 1] == owners[..i] + [name];
      }
      assert owners[..|owners|] == owners;
      return (needAll && approvals == |owners|) || (!needAll && approvals > 0);
    }

    method IgnorePath(path: string) returns (r: bool)
      ensures r <==> Ignored(matches, ignoreList, path)
    {
      for i := 0 to |ignoreList|
        invariant forall j :: 0 <= j < i ==> matches(ignoreList[j], path) != Yes
      {
        if matches(ignoreList[i], path) == Yes { // Malformed patterns are skipped here.
          return true;
        }
      }
      return false;
    }

    method GetOwners(filePath: string) returns (r: Result<seq<string>>)
      ensures r == match FirstDeciding(matches, ignoreList, pathList, Slashed(filePath))
                   case None => Ok([])
                   case Some(p) =>
                     if matches(p, Slashed(filePath)) == Malformed then BadPattern else Ok(Lookup(paths, p))
      ensures (&& (exists p :: p in ignoreList && matches(p, Slashed(filePath)) == Yes)
               && (forall p :: p in pathList ==> matches(p, Slashed(filePath)) != Malformed)) ==> r == Ok([])
      ensures var ignored := exists p :: p in ignoreList && matches(p, Slashed(filePath)) == Yes;
              && (forall i: nat :: EndsSearch(matches, ignored, pathList, Slashed(filePath), i) ==>
                                     r == if matches(pathList[i], Slashed(filePath)) == Malformed then BadPattern
                                          else Ok(Lookup(paths, pathList[i])))
              && ((forall i: nat :: !EndsSearch(matches, ignored, pathList, Slashed(filePath), i)) ==> r == Ok([]))
    {
      SearchMeans(matches, ignoreList, pathList, Slashed(filePath));
      var path := Slashed(filePath);
      assert pathList[0..] == pathList;
      for i := 0 to |pathList|
        invariant FirstDeciding(matches, ignoreList, pathList, path) ==
                  FirstDeciding(matches, ignoreList, pathList[i..], path)
      {
        var pattern := pathList[i];
        assert pathList[i..] == [pattern] + pathList[i + 1..];
        if matches(pattern, path) == Malformed {
          return BadPattern;
        }
        if matches(pattern, path) == Yes {
          var ignored := IgnorePath(path);
          if !ignored {
            return Ok(Lookup(paths, pattern));
          }
        }
      }
      return Ok([]);
    }
  }

  // ----- Questions about a whole file

  /** The parsed form of a file, expanded if possible when `flatten` is set. There is none for an empty file. */
  method ParseCodeOwnersFile(lines: seq<Line>, matches: Matcher, flatten: bool, walk: seq<string>)
    returns (c: ParsedFile?)
    requires flatten ==> Terminates(FileContents(lines)) && IsWalk(FileContents(lines), walk)
    ensures c == null <==> lines == []
    ensures c != null ==> && fresh(c) && c.matches == matches
                          && c.pathList == Reverse(PathPatterns(lines)) && c.ignoreList == IgnorePatterns(lines)
    ensures c != null && flatten ==> Expansion(FileContents(lines), walk, c.View(), Expandable(FileContents(lines)))
    ensures c != null && !flatten ==> c.View() == FileContents(lines)
  {
    if lines == [] {
      return null;
    }
    var parsed := new ParsedFile(lines, matches);
    if flatten {
      var _ := parsed.ExpandGroups(walk);
    }
    return parsed;
  }

  function FileContents(lines: seq<Line>): Contents {
    Contents(FileGroups(lines), FilePaths(lines), {})
  }

  ghost predicate AnyBadPattern(matches: Matcher, lines: seq<Line>, paths: seq<string>) {
    exists p :: p in paths && OwnersInFile(matches, lines, p).BadPattern?
  }

  /** One of the names owns the path, directly or (if groups are expanded) through groups. */
  ghost predicate OwnedByAny(matches: Matcher, lines: seq<Line>, expanded: bool, names: seq<string>, path: string) {
    var owners := OwnersInFile(matches, lines, path);
    owners.Ok? && exists n :: n in names &&
                              if expanded then UserOfAny(FileGroups(lines), owners.value, n) else n in owners.value
  }

  ghost function CountOwned(matches: Matcher, lines: seq<Line>, expanded: bool, names: seq<string>,
                            paths: seq<string>): nat {
    if paths == [] then 0
    else
      var k := |paths| - 1;
      CountOwned(matches, lines, expanded, names, paths[..k]) +
      if OwnedByAny(matches, lines, expanded, names, paths[k]) then 1 else 0
  }

  lemma {:induction false} NothingOwned(matches: Matcher, lines: seq<Line>, expanded: bool, names: seq<string>,
                                        paths: seq<string>)
    requires forall p :: p in paths ==> !OwnedByAny(matches, lines, expanded, names, p)
    ensures CountOwned(matches, lines, expanded, names, paths) == 0
  {
    if paths != [] {
      NothingOwned(matches, lines, expanded, names, paths[..|paths| - 1]);
    }
  }

  /** The owners found in the parsed file are those in the file itself, expanded if the file could be. */
  ghost predicate FoundOwners(lines: seq<Line>, inFile: Result<seq<string>>, found: Result<seq<string>>) {
    && (found.BadPattern? <==> inFile.BadPattern?)
    && (found.Ok? ==>
          if Expandable(FileContents(lines)) then FlatOf(FileGroups(lines), inFile.value, found.value)
          else found.value == inFile.value)
  }

  lemma LookupFindsOwners(matches: Matcher, lines: seq<Line>, walk: seq<string>, c: Contents, filePath: string,
                          found: Result<seq<string>>)
    requires Expansion(FileContents(lines), walk, c, Expandable(FileContents(lines)))
    requires found == Searched(matches, lines, c.paths, filePath)
    ensures FoundOwners(lines, OwnersInFile(matches, lines, filePath), found)
  {
    SearchFindsLastLine(matches, lines, c.paths, filePath);
    assert FlatOf(FileGroups(lines), [], []);
  }

  lemma FoundOwnersOwn(matches: Matcher, lines: seq<Line>, names: seq<string>, path: string, found: Result<seq<string>>)
    requires FoundOwners(lines, OwnersInFile(matches, lines, path), found) && found.Ok?
    ensures OwnedByAny(matches, lines, Expandable(FileContents(lines)), names, path) <==>
            exists n :: n in names && n in found.value
  {
  }

  /** Owners of a path are members of some path line. */
  lemma OwnersAreOnPaths(matches: Matcher, lines: seq<Line>, path: string)
    requires OwnersInFile(matches, lines, path).Ok?
    ensures var owners := OwnersInFile(matches, lines, path).value;
            owners == [] || exists p :: p in FilePaths(lines) && owners == FilePaths(lines)[p]
  {
    var last := LastDeciding(matches, IgnorePatterns(lines), lines, |lines|, Slashed(path));
    if last.Some? {
      PatternIsListed(lines, last.value);
      var pattern := NormalizePattern(lines[last.value].pathPattern);
      assert pattern in FilePaths(lines);
    }
  }

  /** If expansion met none of the names, none of them owns anything. */
  lemma UnknownNamesOwnNothing(matches: Matcher, lines: seq<Line>, walk: seq<string>, c: Contents, names: seq<string>,
                               path: string)
    requires Expandable(FileContents(lines)) && Expansion(FileContents(lines), walk, c, true)
    requires forall n :: n in names ==> n !in c.users
    ensures !OwnedByAny(matches, lines, true, names, path)
  {
    var owners := OwnersInFile(matches, lines, path);
    if OwnedByAny(matches, lines, true, names, path) {
      OwnersAreOnPaths(matches, lines, path);
      var n :| n in names && UserOfAny(FileGroups(lines), owners.value, n);
      var m :| m in owners.value && UserOf(FileGroups(lines), m, n);
      var p :| p in FilePaths(lines) && owners.value == FilePaths(lines)[p];
      SuccessNotesAll(FileContents(lines), walk, c, p, m, n);
    }
  }

  lemma UnknownNamesCountNothing(matches: Matcher, lines: seq<Line>, walk: seq<string>, c: Contents, names: seq<string>,
                                 paths: seq<string>)
    requires Expansion(FileContents(lines), walk, c, Expandable(FileContents(lines)))
    requires forall n :: n in names ==> n !in c.users
    ensures CountAlong(matches, lines, names, paths, walk) == 0
  {
    if Expandable(FileContents(lines)) {
      forall p
        ensures !OwnedByAny(matches, lines, true, names, p)
      {
        UnknownNamesOwnNothing(matches, lines, walk, c, names, p);
      }
      NothingOwned(matches, lines, true, names, paths);
    }
  }

  /** The count, unless a pattern is malformed: one such pattern voids it. */
  ghost function CountIfWellFormed(matches: Matcher, lines: seq<Line>, names: seq<string>, paths: seq<string>): nat {
    if AnyBadPattern(matches, lines, paths) then 0
    else CountOwned(matches, lines, Expandable(FileContents(lines)), names, paths)
  }

  /** What is counted if paths are walked in this order; it only matters if expansion fails. */
  ghost function CountAlong(matches: Matcher, lines: seq<Line>, names: seq<string>, paths: seq<string>,
                            walk: seq<string>): nat
    requires IsWalk(FileContents(lines), walk)
  {
    if !Expandable(FileContents(lines)) && !WalkNotes(FileContents(lines), walk, names) then 0
    else CountIfWellFormed(matches, lines, names, paths)
  }

  /** How many of the paths are owned by one of the names. */
  method CountOwnedFiles(lines: seq<Line>, matches: Matcher, fullNames: seq<string>, paths: seq<string>,
                         walk: seq<string>) returns (count: nat)
    requires Terminates(FileContents(lines)) && IsWalk(FileContents(lines), walk)
    ensures count == CountAlong(matches, lines, fullNames, paths, walk)
  {
    ghost var expanded := Expandable(FileContents(lines));
    if fullNames == [] || paths == [] {
      NothingOwned(matches, lines, expanded, fullNames, paths);
      return 0;
    }
    var c := ParseCodeOwnersFile(lines, matches, true, walk);
    if c == null {
      EmptyFileOwnsNothing(matches, expanded, fullNames, paths);
      return 0;
    }
    if forall n :: n in fullNames ==> n !in c.users {
      UnknownNamesCountNothing(matches, lines, walk, c.View(), fullNames, paths);
      return 0;
    }
    count := CountOwnedIn(c, lines, fullNames, paths, walk);
  }

  /** The count itself, in a parsed file. */
  method CountOwnedIn(c: ParsedFile, lines: seq<Line>, names: seq<string>, paths: seq<string>, ghost walk: seq<string>)
    returns (count: nat)
    requires c.pathList == Reverse(PathPatterns(lines)) && c.ignoreList == IgnorePatterns(lines)
    requires Expansion(FileContents(lines), walk, c.View(), Expandable(FileContents(lines)))
    ensures count == CountIfWellFormed(c.matches, lines, names, paths)
  {
    count := 0;
    for i := 0 to |paths|
      invariant count == CountOwned(c.matches, lines, Expandable(FileContents(lines)), names, paths[..i])
      invariant !AnyBadPattern(c.matches, lines, paths[..i])
    {
      var owners := c.GetOwners(paths[i]);
      LookupFindsOwners(c.matches, lines, walk, c.View(), paths[i], owners);
      if owners == BadPattern {
        return 0;
      }
      FoundOwnersOwn(c.matches, lines, names, paths[i], owners);
      OneMorePath(c.matches, lines, Expandable(FileContents(lines)), names, paths, i);
      if exists n :: n in names && n in owners.value {
        count := count + 1;
      }
    }
    assert paths[..|paths|] == paths;
  }

  lemma OneMorePath(matches: Matcher, lines: seq<Line>, expanded: bool, names: seq<string>, paths: seq<string>, i: nat)
    requires i < |paths|
    ensures CountOwned(matches, lines, expanded, names, paths[..i + 1]) ==
            CountOwned(matches, lines, expanded, names, paths[..i]) +
            if OwnedByAny(matches, lines, expanded, names, paths[i]) then 1 else 0
    ensures AnyBadPattern(matches, lines, paths[..i + 1]) <==>
            AnyBadPattern(matches, lines, paths[..i]) || OwnersInFile(matches, lines, paths[i]).BadPattern?
  {
    assert paths[..i + 1] == paths[..i] + [paths[i]];
    assert paths[..i + 1][..i] == paths[..i];
  }

  /** Which of the first `n` numbers have a property. */
  ghost function Positions(p: nat -> bool, n: nat): set<nat> {
    set i: nat | i < n && p(i)
  }

  lemma OneMorePosition(p: nat -> bool, n: nat)
    ensures |Positions(p, n + 1)| == |Positions(p, n)| + if p(n) then 1 else 0
  {
    assert Positions(p, n + 1) == if p(n) then Positions(p, n) + {n} else Positions(p, n);
  }

  /** Which of the paths are owned by one of the names, told from the owners that the file names for them. */
  ghost function OwnedAt(matches: Matcher, lines: seq<Line>, expanded: bool, names: seq<string>,
                         paths: seq<string>): nat -> bool {
    (i: nat) => i < |paths| && OwnedByAny(matches, lines, expanded, names, paths[i])
  }

  lemma {:induction false} CountOwnedUpTo(matches: Matcher, lines: seq<Line>, expanded: bool, names: seq<string>,
                                          paths: seq<string>, n: nat)
    requires n <= |paths|
    ensures CountOwned(matches, lines, expanded, names, paths[..n])
            == |Positions(OwnedAt(matches, lines, expanded, names, paths), n)|
  {
    var owned := OwnedAt(matches, lines, expanded, names, paths);
    if n == 0 {
      assert Positions(owned, 0) == {};
    } else {
      CountOwnedUpTo(matches, lines, expanded, names, paths, n - 1);
      OneMorePath(matches, lines, expanded, names, paths, n - 1);
      OneMorePosition(owned, n - 1);
    }
  }

  /** The count is the number of owned paths, those listed twice counting twice. */
  lemma CountOwnedMeans(matches: Matcher, lines: seq<Line>, expanded: bool, names: seq<string>, paths: seq<string>)
    ensures CountOwned(matches, lines, expanded, names, paths) ==
            |Positions(OwnedAt(matches, lines, expanded, names, paths), |paths|)|
  {
    CountOwnedUpTo(matches, lines, expanded, names, paths, |paths|);
    assert paths[..|paths|] == paths;
  }

  /** A path is owned if one of its owners in the file is one of the names, or stands for it in an expanded file. */
  lemma OwnedMeans(matches: Matcher, lines: seq<Line>, expanded: bool, names: seq<string>, path: string)
    ensures OwnedByAny(matches, lines, expanded, names, path) <==>
            && OwnersInFile(matches, lines, path).Ok?
            && exists n, m :: n in names && m in OwnersInFile(matches, lines, path).value &&
                              if expanded then UserOf(FileGroups(lines), m, n) else m == n
  {
    var owners := OwnersInFile(matches, lines, path);
    if owners.Ok? && expanded {
      if n :| n in names && UserOfAny(FileGroups(lines), owners.value, n) {
        var m :| m in owners.value && UserOf(FileGroups(lines), m, n);
      }
      if n, m :| n in names && m in owners.value && UserOf(FileGroups(lines), m, n) {
        assert UserOfAny(FileGroups(lines), owners.value, n);
      }
    }
  }

  lemma EmptyFileOwnsNothing(matches: Matcher, expanded: bool, names: seq<string>, paths: seq<string>)
    ensures CountOwned(matches, [], expanded, names, paths) == 0
  {
    NothingOwned(matches, [], expanded, names, paths);
  }

  // ----- When the count depends on the order in which paths are walked

  /**
   * In a file that can't be expanded, nothing may be counted, although there is something to count,
   * exactly if an ill-formed entry, expanded first, notes none of the names.
   */
  lemma ZeroIsPossibleExactly(matches: Matcher, lines: seq<Line>, names: seq<string>, paths: seq<string>)
    requires !Expandable(FileContents(lines))
    ensures (exists walk ::
               IsWalk(FileContents(lines), walk) && CountAlong(matches, lines, names, paths, walk) == 0) <==>
            || CountIfWellFormed(matches, lines, names, paths) == 0
            || exists p :: BadEntry(FileContents(lines), p) && !EntryNotes(FileContents(lines), p, names)
  {
    var file := FileContents(lines);
    SomeWalkNotesNoneExactly(file, names);
    var p :| p in file.paths && !AllWellFormed(file.groups, file.paths[p]);
    var some := WalkFrom(file, p);
    if CountIfWellFormed(matches, lines, names, paths) == 0 {
      assert CountAlong(matches, lines, names, paths, some) == 0;
    }
    if walk :| IsWalk(file, walk) && !WalkNotes(file, walk, names) {
      assert CountAlong(matches, lines, names, paths, walk) == 0;
    }
  }

  /** What its path entries say directly may be counted exactly if some entry, expanded first, notes a name. */
  lemma CountIsPossibleExactly(matches: Matcher, lines: seq<Line>, names: seq<string>, paths: seq<string>)
    requires !Expandable(FileContents(lines)) && CountIfWellFormed(matches, lines, names, paths) != 0
    ensures (exists walk ::
               && IsWalk(FileContents(lines), walk)
               && CountAlong(matches, lines, names, paths, walk)
                  == CountIfWellFormed(matches, lines, names, paths)) <==>
            exists p :: p in FilePaths(lines) && EntryNotes(FileContents(lines), p, names)
  {
    var file := FileContents(lines);
    SomeWalkNotesExactly(file, names);
    if walk :| IsWalk(file, walk) && WalkNotes(file, walk, names) {
      assert CountAlong(matches, lines, names, paths, walk) == CountIfWellFormed(matches, lines, names, paths);
    }
  }

  ghost predicate CountsAlike(matches: Matcher, lines: seq<Line>, names: seq<string>, paths: seq<string>) {
    forall v, w :: IsWalk(FileContents(lines), v) && IsWalk(FileContents(lines), w) ==>
                     CountAlong(matches, lines, names, paths, v) == CountAlong(matches, lines, names, paths, w)
  }

  /** The count is the same for all orders, except if some ill-formed entry notes no name and another entry does. */
  lemma CountIgnoresOrderExactly(matches: Matcher, lines: seq<Line>, names: seq<string>, paths: seq<string>)
    ensures CountsAlike(matches, lines, names, paths) <==>
            || Expandable(FileContents(lines))
            || CountIfWellFormed(matches, lines, names, paths) == 0
            || (forall p :: BadEntry(FileContents(lines), p) ==> EntryNotes(FileContents(lines), p, names))
            || (forall p :: p in FilePaths(lines) ==> !EntryNotes(FileContents(lines), p, names))
  {
    var file := FileContents(lines);
    var all := CountIfWellFormed(matches, lines, names, paths);
    if !Expandable(file) && all != 0 {
      ZeroIsPossibleExactly(matches, lines, names, paths);
      CountIsPossibleExactly(matches, lines, names, paths);
      if v, w :| && IsWalk(file, v) && CountAlong(matches, lines, names, paths, v) == 0
                 && IsWalk(file, w) && CountAlong(matches, lines, names, paths, w) == all {
        assert !CountsAlike(matches, lines, names, paths);
      }
    }
  }

  /** A path with an owner, and another one whose owner is an undefined group. */
  const HALF_BAD_LINES: seq<Line> := [Line("/a", "", ["x"]), Line("/b", "", ["@U"])]

  function Literally(pattern: string, path: string): Match {
    if pattern == path then Yes else No
  }

  lemma PlainPatterns()
    ensures NormalizePattern("/a") == "/a" && NormalizePattern("/b") == "/b" && "/a" != "/b"
  {
    assert "/a"[0] == '/' && "/b"[0] == '/' && "/a"[1] == 'a' && "/b"[1] == 'b';
    SuffixChars("/a");
    SuffixChars("/b");
  }

  /** A file of two path lines that need no normalizing. */
  lemma TwoPathLines(a: string, b: string, m: seq<string>, n: seq<string>)
    requires a != "" && a[0] != '!' && b != "" && b[0] != '!' && a != b
    requires NormalizePattern(a) == a && NormalizePattern(b) == b
    ensures var lines := [Line(a, "", m), Line(b, "", n)];
            && PathPatterns(lines) == [a, b] && IgnorePatterns(lines) == []
            && FileContents(lines) == Contents(map[], map[a := m, b := n], {})
  {
    var first, second := Line(a, "", m), Line(b, "", n);
    var lines := [first, second];
    assert [] + [first] == [first] && [first] + [second] == lines;
    OneMorePattern([], first);
    OneMorePattern([first], second);
    OneMorePathLine([], first);
    OneMorePathLine([first], second);
    assert FilePaths([]) == map[];
    assert [] + m == m && [] + n == n;
    assert FilePaths(lines) == map[a := m, b := n];
    assert FileGroups(lines) == map[];
  }

  lemma HalfBadFile()
    ensures PathPatterns(HALF_BAD_LINES) == ["/a", "/b"] && IgnorePatterns(HALF_BAD_LINES) == []
    ensures FileContents(HALF_BAD_LINES) == HALF_BAD
  {
    PlainPatterns();
    assert "/a"[0] == '/' && "/b"[0] == '/';
    TwoPathLines("/a", "/b", ["x"], ["@U"]);
  }

  /** Of two patterns, the one that is literally the path decides. */
  lemma SecondLiteralDecides(a: string, b: string)
    requires a != b
    ensures FirstDeciding(Literally, [], Reverse([a, b]), a) == Some(a)
  {
    assert [a, b][..1] == [a] && [a][..0] == [];
    assert Reverse([a, b]) == [b] + Reverse([a]) && Reverse([a]) == [a] + [];
    FirstDecidingCons(Literally, [], b, [a] + [], a);
    FirstDecidingCons(Literally, [], a, [], a);
  }

  lemma HalfBadOwner()
    ensures OwnersInFile(Literally, HALF_BAD_LINES, "/a") == Ok(["x"])
  {
    HalfBadFile();
    PlainPatterns();
    SecondLiteralDecides("/a", "/b");
    SearchFindsLastLine(Literally, HALF_BAD_LINES, HALF_BAD.paths, "/a");
    assert Slashed("/a") == "/a";
  }

  /** Asking about one path, in a file that can't be expanded, for a name that owns it directly. */
  lemma OnePathCounts(matches: Matcher, lines: seq<Line>, name: string, path: string)
    requires !Expandable(FileContents(lines))
    requires OwnersInFile(matches, lines, path).Ok? && name in OwnersInFile(matches, lines, path).value
    ensures CountIfWellFormed(matches, lines, [name], [path]) == 1
  {
    var names, paths := [name], [path];
    assert names[0] == name && paths[0] == path && paths[..0] == [];
    assert OwnedByAny(matches, lines, false, names, path);
    assert forall p :: p in paths ==> p == path;
    assert !AnyBadPattern(matches, lines, paths);
    assert CountOwned(matches, lines, false, names, []) == 0;
  }

  /** The same file and the same question, counted in both orders: one, or none. */
  lemma OrderDecidesCount()
    ensures IsWalk(FileContents(HALF_BAD_LINES), ["/a", "/b"]) && IsWalk(FileContents(HALF_BAD_LINES), ["/b", "/a"])
    ensures CountAlong(Literally, HALF_BAD_LINES, ["x"], ["/a"], ["/a", "/b"]) == 1
    ensures CountAlong(Literally, HALF_BAD_LINES, ["x"], ["/a"], ["/b", "/a"]) == 0
  {
    HalfBadFile();
    OrderDecidesUsers();
    HalfBadOwner();
    OnePathCounts(Literally, HALF_BAD_LINES, "x", "/a");
  }

  /** What approval of one path takes: in an expandable file every single user must approve, or a fallback owner. */
  ghost predicate PathApproved(matches: Matcher, lines: seq<Line>, approvers: seq<string>, path: string) {
    var owners := OwnersInFile(matches, lines, path);
    var groups := FileGroups(lines);
    && owners.Ok?
    && if Expandable(FileContents(lines))
       then FallbackApproved(groups, approvers) || forall u :: UserOfAny(groups, owners.value, u) ==> u in approvers
       else NeedAll(groups, approvers, owners.value)
  }

  /** Told from the owners that the file names: a fallback owner approved, or everyone whom it takes. */
  lemma PathApprovedMeans(matches: Matcher, lines: seq<Line>, approvers: seq<string>, path: string)
    ensures OwnersInFile(matches, lines, path).BadPattern? ==> !PathApproved(matches, lines, approvers, path)
    ensures var owners, groups := OwnersInFile(matches, lines, path), FileGroups(lines);
            owners.Ok? && Expandable(FileContents(lines)) ==>
              (PathApproved(matches, lines, approvers, path) <==>
               || FallbackApproved(groups, approvers)
               || forall n, u :: n in owners.value && UserOf(groups, n, u) ==> u in approvers)
    ensures var owners, groups := OwnersInFile(matches, lines, path), FileGroups(lines);
            owners.Ok? && !Expandable(FileContents(lines)) ==>
              (PathApproved(matches, lines, approvers, path) <==>
               || FallbackApproved(groups, approvers)
               || (&& AllDefined(groups, owners.value)
                   && forall n :: n in owners.value ==> OwnerApproved(groups, approvers, n)))
  {
    var owners, groups := OwnersInFile(matches, lines, path), FileGroups(lines);
    if owners.Ok? {
      forall n, u | n in owners.value && UserOf(groups, n, u)
        ensures UserOfAny(groups, owners.value, u)
      {
      }
    }
  }

  ghost predicate AllPathsApproved(matches: Matcher, lines: seq<Line>, approvers: seq<string>, paths: seq<string>) {
    paths != [] ==>
      PathApproved(matches, lines, approvers, paths[0]) && AllPathsApproved(matches, lines, approvers, paths[1..])
  }

  lemma {:induction false} AllPathsApprovedMeans(matches: Matcher, lines: seq<Line>, approvers: seq<string>,
                                                 paths: seq<string>)
    ensures AllPathsApproved(matches, lines, approvers, paths) <==>
            forall p :: p in paths ==> PathApproved(matches, lines, approvers, p)
  {
    if paths != [] {
      AllPathsApprovedMeans(matches, lines, approvers, paths[1..]);
      assert paths == [paths[0]] + paths[1..];
    }
  }

  /** Whether the owners of every path have approved. */
  method GotAllRequiredApprovals(lines: seq<Line>, matches: Matcher, paths: seq<string>, approvers: seq<string>,
                                 walk: seq<string>) returns (r: bool)
    requires Terminates(FileContents(lines)) && IsWalk(FileContents(lines), walk)
    requires FALLBACK_OWNERS in FileGroups(lines) ==> AcyclicFrom(FileGroups(lines), FALLBACK_OWNERS)
    ensures r <==> paths != [] && lines != [] && forall p :: p in paths ==> PathApproved(matches, lines, approvers, p)
  {
    if paths == [] {
      return false;
    }
    var c := ParseCodeOwnersFile(lines, matches, true, walk);
    if c == null {
      return false;
    }
    r := AllApprovedIn(c, lines, paths, approvers, walk);
    AllPathsApprovedMeans(matches, lines, approvers, paths);
  }

  /** The check of all paths, in a parsed file. */
  method AllApprovedIn(c: ParsedFile, lines: seq<Line>, paths: seq<string>, approvers: seq<string>,
                       ghost walk: seq<string>) returns (r: bool)
    requires c.pathList == Reverse(PathPatterns(lines)) && c.ignoreList == IgnorePatterns(lines)
    requires Checkable(lines, walk, c.View())
    ensures r <==> AllPathsApproved(c.matches, lines, approvers, paths)
  {
    assert paths[0..] == paths;
    for i := 0 to |paths|
      invariant AllPathsApproved(c.matches, lines, approvers, paths) <==>
                AllPathsApproved(c.matches, lines, approvers, paths[i..])
    {
      assert paths[i..][1..] == paths[i + 1..];
      var approved := ApprovedIn(c, lines, paths[i], approvers, walk);
      if !approved {
        return false;
      }
    }
    return true;
  }

  /** The check of one path, in a parsed file. */
  method ApprovedIn(c: ParsedFile, lines: seq<Line>, path: string, approvers: seq<string>, ghost walk: seq<string>)
    returns (r: bool)
    requires c.pathList == Reverse(PathPatterns(lines)) && c.ignoreList == IgnorePatterns(lines)
    requires Checkable(lines, walk, c.View())
    ensures r <==> PathApproved(c.matches, lines, approvers, path)
  {
    var owners := c.GetOwners(path);
    LookupFindsOwners(c.matches, lines, walk, c.View(), path, owners);
    if owners == BadPattern {
      return false;
    }
    ExpansionIsMemo(FileContents(lines), walk, c.View(), Expandable(FileContents(lines)));
    FoundOwnersApprove(c.matches, lines, c.groups, approvers, path, owners.value);
    r := c.AllApproved(approvers, owners.value, true);
  }

  /** The parsed file was expanded as far as possible, and checking approvals in it terminates. */
  ghost predicate Checkable(lines: seq<Line>, walk: seq<string>, c: Contents) {
    var file := FileContents(lines);
    && Expansion(file, walk, c, Expandable(file)) && Terminates(file)
    && (FALLBACK_OWNERS in file.groups ==> AcyclicFrom(file.groups, FALLBACK_OWNERS))
  }

  /** What the look-up of a path yields, given the owners by pattern. */
  function Searched(matches: Matcher, lines: seq<Line>, paths: Paths, filePath: string): Result<seq<string>> {
    match FirstDeciding(matches, IgnorePatterns(lines), Reverse(PathPatterns(lines)), Slashed(filePath))
    case None => Ok([])
    case Some(p) => if matches(p, Slashed(filePath)) == Malformed then BadPattern else Ok(Lookup(paths, p))
  }

  /** The owners found can be checked, and the check is about what the file says. */
  ghost predicate ApprovalIsDecided(matches: Matcher, lines: seq<Line>, groups: Groups, approvers: seq<string>,
                                    path: string, owners: seq<string>) {
    && AllAcyclic(groups, owners)
    && (FALLBACK_OWNERS in groups ==> AllAcyclic(groups, groups[FALLBACK_OWNERS]))
    && (NeedAll(groups, approvers, owners) <==> PathApproved(matches, lines, approvers, path))
  }

  lemma FoundOwnersAreAcyclic(matches: Matcher, lines: seq<Line>, groups: Groups, path: string, owners: seq<string>)
    requires Terminates(FileContents(lines)) && Memo(FileGroups(lines), groups)
    requires FALLBACK_OWNERS in FileGroups(lines) ==> AcyclicFrom(FileGroups(lines), FALLBACK_OWNERS)
    requires FoundOwners(lines, OwnersInFile(matches, lines, path), Ok(owners))
    ensures AllAcyclic(groups, owners)
    ensures FALLBACK_OWNERS in groups ==> AllAcyclic(groups, groups[FALLBACK_OWNERS])
  {
    var g := FileGroups(lines);
    OwnersAreOnPaths(matches, lines, path);
    var inFile := OwnersInFile(matches, lines, path).value;
    forall n | n in owners
      ensures AcyclicFrom(groups, n)
    {
      if Expandable(FileContents(lines)) {
        var m :| m in inFile && UserOf(g, m, n);
        AcyclicBelow(g, m, n);
      }
      MemoKeepsAcyclic(g, groups, n);
    }
    if FALLBACK_OWNERS in groups {
      assert IsGroup(FALLBACK_OWNERS);
      MemoKeepsAcyclic(g, groups, FALLBACK_OWNERS);
      MembersShrink(groups, FALLBACK_OWNERS);
    }
  }

  lemma FoundOwnersApprove(matches: Matcher, lines: seq<Line>, groups: Groups, approvers: seq<string>,
                           path: string, owners: seq<string>)
    requires Terminates(FileContents(lines)) && Memo(FileGroups(lines), groups)
    requires FALLBACK_OWNERS in FileGroups(lines) ==> AcyclicFrom(FileGroups(lines), FALLBACK_OWNERS)
    requires FoundOwners(lines, OwnersInFile(matches, lines, path), Ok(owners))
    ensures ApprovalIsDecided(matches, lines, groups, approvers, path, owners)
  {
    FoundOwnersAreAcyclic(matches, lines, groups, path, owners);
    MemoKeepsApproval(FileGroups(lines), groups, approvers, owners);
    if Expandable(FileContents(lines)) {
      FlattenedNeedsEveryUser(FileGroups(lines), approvers, OwnersInFile(matches, lines, path).value, owners);
    }
  }
}
