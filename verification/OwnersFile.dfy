/** A CODEOWNERS file line by line, and the meaning of "the last matching line wins". */
module OwnersFile {
  import opened GroupGraph
  import opened Options

  datatype Result<T> = Ok(value: T) | BadPattern

  /** The outcome of matching a path against a glob pattern, which the program leaves to a library. */
  datatype Match = Yes | No | Malformed

  type Matcher = (string, string) -> Match

  // ----- The file, line by line

  /** A line after it was split: a path pattern and its owners, or a group and its members, or neither. */
  datatype Line = Line(pathPattern: string, group: string, members: seq<string>) {
    predicate IsIgnore() {
      pathPattern != "" && pathPattern[0] == '!'
    }

    predicate IsPath() {
      pathPattern != "" && pathPattern[0] != '!'
    }

    predicate IsGroup() {
      pathPattern == "" && group != ""
    }
  }

  predicate HasSuffix(s: string, suffix: string) {
    |s| >= |suffix| && s[|s| - |suffix|..] == suffix
  }

  /** Anchors relative patterns anywhere, and lets directory patterns match the files below them. */
  function NormalizePattern(pattern: string): (r: string) {
    var p := if "/" <= pattern || "**/" <= pattern then pattern else "**/" + pattern;
    var q := if HasSuffix(p, "/") then p + "**/*" else p;
    if HasSuffix(q, "/**") then q + "/*" else q
  }

  lemma SuffixChars(s: string)
    ensures HasSuffix(s, "/") <==> s != "" && s[|s| - 1] == '/'
    ensures HasSuffix(s, "/**") <==> |s| >= 3 && s[|s| - 3] == '/' && s[|s| - 2] == s[|s| - 1] == '*'
  {
  }

  lemma PrefixStays(p: string, q: string)
    requires "/" <= p || "**/" <= p
    ensures "/" <= p + q || "**/" <= p + q
  {
  }

  /**
   * A normalized pattern is the pattern itself, anchored anywhere unless it was anchored already, and followed
   * by what it takes to match files if it named a directory or a whole tree, which it no longer does.
   */
  lemma NormalizePatternMeans(pattern: string) returns (anchor: string, tail: string)
    ensures NormalizePattern(pattern) == anchor + pattern + tail
    ensures anchor == if "/" <= pattern || "**/" <= pattern then "" else "**/"
    ensures tail == if HasSuffix(anchor + pattern, "/") then "**/*"
                    else if HasSuffix(anchor + pattern, "/**") then "/*"
                    else ""
  {
    anchor := if "/" <= pattern || "**/" <= pattern then "" else "**/";
    var p := if anchor == "" then pattern else "**/" + pattern;
    assert anchor + pattern == p;
    tail := if HasSuffix(p, "/") then "**/*" else if HasSuffix(p, "/**") then "/*" else "";
    NoTreeAgain(p);
    assert p + "" == p;
  }

  lemma NoTreeAgain(p: string)
    ensures HasSuffix(p, "/") ==> !HasSuffix(p + "**/*", "/**")
  {
    SuffixChars(p + "**/*");
  }

  /** No normalized pattern names just a directory or a tree: both were extended to the files in them. */
  lemma NormalizedMatchesFiles(pattern: string)
    ensures !HasSuffix(NormalizePattern(pattern), "/") && !HasSuffix(NormalizePattern(pattern), "/**")
  {
    var anchor, tail := NormalizePatternMeans(pattern);
    SuffixChars(anchor + pattern);
    SuffixChars(NormalizePattern(pattern));
    if tail == "" {
      assert anchor + pattern + tail == anchor + pattern;
    }
  }

  lemma NormalizePatternIsIdempotent(pattern: string)
    ensures NormalizePattern(NormalizePattern(pattern)) == NormalizePattern(pattern)
  {
    var p := if "/" <= pattern || "**/" <= pattern then pattern else "**/" + pattern;
    var q := if HasSuffix(p, "/") then p + "**/*" else p;
    var r := NormalizePattern(pattern);
    SuffixChars(p);
    SuffixChars(q);
    SuffixChars(r);
    PrefixStays(p, "**/*");
    PrefixStays(q, "/*");
    assert "/" <= r || "**/" <= r;
    assert !HasSuffix(r, "/") && !HasSuffix(r, "/**");
  }

  function PathPatterns(lines: seq<Line>): seq<string> {
    if lines == [] then []
    else
      var k := |lines| - 1;
      PathPatterns(lines[..k]) + if lines[k].IsPath() then [NormalizePattern(lines[k].pathPattern)] else []
  }

  function IgnorePatterns(lines: seq<Line>): seq<string> {
    if lines == [] then []
    else
      var k := |lines| - 1;
      IgnorePatterns(lines[..k]) + if lines[k].IsIgnore() then [NormalizePattern(lines[k].pathPattern[1..])] else []
  }

  /** The owners of all the lines with the same pattern, pooled. */
  function PathOwners(lines: seq<Line>, pattern: string): seq<string> {
    if lines == [] then []
    else
      var k := |lines| - 1;
      PathOwners(lines[..k], pattern) +
      if lines[k].IsPath() && NormalizePattern(lines[k].pathPattern) == pattern then lines[k].members else []
  }

  /** The members of all the lines that define the same group, pooled. */
  function GroupMembers(lines: seq<Line>, group: string): seq<string> {
    if lines == [] then []
    else
      var k := |lines| - 1;
      GroupMembers(lines[..k], group) +
      if lines[k].IsGroup() && lines[k].group == group then lines[k].members else []
  }

  function FileGroups(lines: seq<Line>): Groups {
    var names := set l | l in lines && l.IsGroup() :: l.group;
    map h | h in names :: GroupMembers(lines, h)
  }

  function FilePaths(lines: seq<Line>): map<string, seq<string>> {
    map p | p in PathPatterns(lines) :: PathOwners(lines, p)
  }

  function Reverse(s: seq<string>): seq<string> {
    if s == [] then [] else [s[|s| - 1]] + Reverse(s[..|s| - 1])
  }

  lemma {:induction false} NoPathOwners(lines: seq<Line>, pattern: string)
    requires pattern !in PathPatterns(lines)
    ensures PathOwners(lines, pattern) == []
  {
    if lines != [] {
      NoPathOwners(lines[..|lines| - 1], pattern);
    }
  }

  lemma {:induction false} NoGroupMembers(lines: seq<Line>, group: string)
    requires forall l :: l in lines && l.IsGroup() ==> l.group != group
    ensures GroupMembers(lines, group) == []
  {
    if lines != [] {
      NoGroupMembers(lines[..|lines| - 1], group);
    }
  }

  lemma OneMoreLine(before: seq<Line>, line: Line, key: string)
    ensures GroupMembers(before + [line], key) ==
            GroupMembers(before, key) + if line.IsGroup() && line.group == key then line.members else []
    ensures PathOwners(before + [line], key) ==
            PathOwners(before, key) +
            if line.IsPath() && NormalizePattern(line.pathPattern) == key then line.members else []
  {
  }

  function WithGroupLine(groups: Groups, line: Line): Groups {
    if line.IsGroup() then groups[line.group := Lookup(groups, line.group) + line.members] else groups
  }

  function WithPathLine(paths: map<string, seq<string>>, line: Line): map<string, seq<string>> {
    var pattern := NormalizePattern(line.pathPattern);
    if line.IsPath() then paths[pattern := Lookup(paths, pattern) + line.members] else paths
  }

  lemma GroupNames(before: seq<Line>, line: Line, h: string)
    ensures h in FileGroups(before + [line]) <==> h in FileGroups(before) || (line.IsGroup() && line.group == h)
  {
  }

  lemma OneMoreGroupLine(before: seq<Line>, line: Line)
    ensures FileGroups(before + [line]) == WithGroupLine(FileGroups(before), line)
  {
    forall h
      ensures h in FileGroups(before + [line]) <==> h in WithGroupLine(FileGroups(before), line)
    {
      GroupNames(before, line, h);
    }
    forall h | h in FileGroups(before + [line])
      ensures FileGroups(before + [line])[h] == WithGroupLine(FileGroups(before), line)[h]
    {
      OneMoreLine(before, line, h);
      if h !in FileGroups(before) {
        NoGroupMembers(before, h);
      }
    }
  }

  lemma OneMorePattern(before: seq<Line>, line: Line)
    ensures PathPatterns(before + [line]) ==
            PathPatterns(before) + if line.IsPath() then [NormalizePattern(line.pathPattern)] else []
    ensures IgnorePatterns(before + [line]) ==
            IgnorePatterns(before) + if line.IsIgnore() then [NormalizePattern(line.pathPattern[1..])] else []
  {
  }

  lemma OneMorePathLine(before: seq<Line>, line: Line)
    ensures FilePaths(before + [line]) == WithPathLine(FilePaths(before), line)
  {
    OneMorePattern(before, line);
    forall p | p in FilePaths(before + [line])
      ensures FilePaths(before + [line])[p] == WithPathLine(FilePaths(before), line)[p]
    {
      OneMoreLine(before, line, p);
      if p !in PathPatterns(before) {
        NoPathOwners(before, p);
      }
    }
  }

  // ----- Which line decides who owns a path

  function Slashed(path: string): string {
    if "/" <= path then path else "/" + path
  }

  /** Paths are always matched from the root, and with or without the leading slash they are the same. */
  lemma PathsAreAnchored(path: string)
    ensures "/" <= Slashed(path) && path == Slashed(path)[|Slashed(path)| - |path|..]
    ensures !("/" <= path) ==> Slashed("/" + path) == Slashed(path)
  {
  }

  predicate Ignored(matches: Matcher, ignoreList: seq<string>, path: string) {
    exists p :: p in ignoreList && matches(p, path) == Yes
  }

  /** Looking for the owner of a path stops here: the pattern matches and the path isn't ignored, or it is malformed. */
  predicate Decides(matches: Matcher, ignoreList: seq<string>, pattern: string, path: string) {
    var m := matches(pattern, path);
    m == Malformed || (m == Yes && !Ignored(matches, ignoreList, path))
  }

  ghost predicate Deciding(matches: Matcher, ignoreList: seq<string>, line: Line, path: string) {
    line.IsPath() && Decides(matches, ignoreList, NormalizePattern(line.pathPattern), path)
  }

  function FirstDeciding(matches: Matcher, ignoreList: seq<string>, patterns: seq<string>,
                         path: string): Option<string> {
    if patterns == [] then None
    else if Decides(matches, ignoreList, patterns[0], path) then Some(patterns[0])
    else FirstDeciding(matches, ignoreList, patterns[1..], path)
  }

  lemma ReversedPatterns(lines: seq<Line>, k: nat)
    requires k < |lines|
    ensures Reverse(PathPatterns(lines[..k + 1])) ==
            if lines[k].IsPath() then [NormalizePattern(lines[k].pathPattern)] + Reverse(PathPatterns(lines[..k]))
            else Reverse(PathPatterns(lines[..k]))
  {
    assert lines[..k + 1] == lines[..k] + [lines[k]];
    OneMorePattern(lines[..k], lines[k]);
    var before := PathPatterns(lines[..k]);
    if lines[k].IsPath() {
      var after := before + [NormalizePattern(lines[k].pathPattern)];
      assert after[..|after| - 1] == before;
    } else {
      assert before + [] == before;
    }
  }

  lemma FirstDecidingCons(matches: Matcher, ignoreList: seq<string>, p: string, rest: seq<string>, path: string)
    ensures FirstDeciding(matches, ignoreList, [p] + rest, path) ==
            if Decides(matches, ignoreList, p, path) then Some(p) else FirstDeciding(matches, ignoreList, rest, path)
  {
  }

  /** Position `i` ends a search: its pattern is malformed, or matches a path that isn't ignored; none before it did. */
  ghost predicate EndsSearch(matches: Matcher, ignored: bool, patterns: seq<string>, path: string, i: nat) {
    && i < |patterns|
    && (matches(patterns[i], path) == Malformed || (matches(patterns[i], path) == Yes && !ignored))
    && forall j :: 0 <= j < i ==> matches(patterns[j], path) == No || (matches(patterns[j], path) == Yes && ignored)
  }

  /** What a search comes to is told from the matcher and the two lists alone. */
  lemma {:induction false} SearchMeans(matches: Matcher, ignoreList: seq<string>, patterns: seq<string>, path: string)
    ensures var ignored := exists p :: p in ignoreList && matches(p, path) == Yes;
            var found := FirstDeciding(matches, ignoreList, patterns, path);
            && (found.Some? ==> exists i: nat :: EndsSearch(matches, ignored, patterns, path, i)
                                                 && found.value == patterns[i])
            && (forall i: nat :: EndsSearch(matches, ignored, patterns, path, i) ==> found == Some(patterns[i]))
  {
    var ignored := exists p :: p in ignoreList && matches(p, path) == Yes;
    var found := FirstDeciding(matches, ignoreList, patterns, path);
    if patterns != [] {
      var rest := patterns[1..];
      SearchMeans(matches, ignoreList, rest, path);
      if Decides(matches, ignoreList, patterns[0], path) {
        assert EndsSearch(matches, ignored, patterns, path, 0);
      } else if found.Some? {
        var i: nat :| EndsSearch(matches, ignored, rest, path, i) && found.value == rest[i];
        assert EndsSearch(matches, ignored, patterns, path, i + 1);
      }
      forall i: nat | EndsSearch(matches, ignored, patterns, path, i)
        ensures found == Some(patterns[i])
      {
        if i > 0 {
          assert matches(patterns[0], path) == No || (matches(patterns[0], path) == Yes && ignored);
          assert forall j :: 0 <= j < |rest| ==> rest[j] == patterns[j + 1];
          assert EndsSearch(matches, ignored, rest, path, i - 1);
        }
      }
    }
  }

  /** The last of the first `n` numbers with a property. */
  ghost function LastIndex(p: nat -> bool, n: nat): (k: Option<nat>)
    ensures k.Some? ==> k.value < n && p(k.value) && forall j: nat :: k.value < j < n ==> !p(j)
    ensures k.None? ==> forall j: nat :: j < n ==> !p(j)
  {
    if n == 0 then None else if p(n - 1) then Some(n - 1) else LastIndex(p, n - 1)
  }

  lemma LastIndexExactly(p: nat -> bool, n: nat, k: nat)
    ensures LastIndex(p, n) == Some(k) <==> k < n && p(k) && forall j: nat :: k < j < n ==> !p(j)
  {
  }

  lemma LastIndexOneMore(p: nat -> bool, n: nat)
    requires n > 0
    ensures LastIndex(p, n) == if p(n - 1) then Some(n - 1) else LastIndex(p, n - 1)
  {
  }

  /** Which lines decide. `ignoreList` and `path` are as used for matching. */
  ghost function DecidingAt(matches: Matcher, ignoreList: seq<string>, lines: seq<Line>, path: string): nat -> bool {
    (j: nat) => j < |lines| && Deciding(matches, ignoreList, lines[j], path)
  }

  /** The last line, among the first `n`, whose pattern decides. */
  ghost function LastDeciding(matches: Matcher, ignoreList: seq<string>, lines: seq<Line>, n: nat,
                              path: string): (k: Option<nat>)
    requires n <= |lines|
  {
    LastIndex(DecidingAt(matches, ignoreList, lines, path), n)
  }

  /** The pattern of a line, by its number. */
  function PatternAt(lines: seq<Line>, k: Option<nat>): Option<string>
    requires k.Some? ==> k.value < |lines|
  {
    if k.None? then None else Some(NormalizePattern(lines[k.value].pathPattern))
  }

  lemma ReversedOneMore(matches: Matcher, ignoreList: seq<string>, lines: seq<Line>, n: nat, path: string)
    requires 0 < n <= |lines|
    ensures FirstDeciding(matches, ignoreList, Reverse(PathPatterns(lines[..n])), path) ==
            if Deciding(matches, ignoreList, lines[n - 1], path) then Some(NormalizePattern(lines[n - 1].pathPattern))
            else FirstDeciding(matches, ignoreList, Reverse(PathPatterns(lines[..n - 1])), path)
  {
    ReversedPatterns(lines, n - 1);
    FirstDecidingCons(matches, ignoreList, NormalizePattern(lines[n - 1].pathPattern),
                      Reverse(PathPatterns(lines[..n - 1])), path);
  }

  /** A search of the reversed patterns finds the last line that decides. */
  lemma {:induction false} FirstOfReversedIsLast(matches: Matcher, ignoreList: seq<string>, lines: seq<Line>, n: nat,
                                                 path: string)
    requires n <= |lines|
    ensures FirstDeciding(matches, ignoreList, Reverse(PathPatterns(lines[..n])), path) ==
            PatternAt(lines, LastDeciding(matches, ignoreList, lines, n, path))
  {
    if n == 0 {
      assert lines[..0] == [];
    } else {
      FirstOfReversedIsLast(matches, ignoreList, lines, n - 1, path);
      ReversedOneMore(matches, ignoreList, lines, n, path);
      LastIndexOneMore(DecidingAt(matches, ignoreList, lines, path), n);
    }
  }

  /** The owners that the file names for a path: the pooled owners of the last line that decides, if any. */
  ghost function OwnersInFile(matches: Matcher, lines: seq<Line>, filePath: string): Result<seq<string>> {
    match LastDeciding(matches, IgnorePatterns(lines), lines, |lines|, Slashed(filePath))
    case None => Ok([])
    case Some(k) =>
      var pattern := NormalizePattern(lines[k].pathPattern);
      if matches(pattern, Slashed(filePath)) == Malformed then BadPattern else Ok(PathOwners(lines, pattern))
  }

  lemma {:induction false} PatternIsListed(lines: seq<Line>, k: nat)
    requires k < |lines| && lines[k].IsPath()
    ensures NormalizePattern(lines[k].pathPattern) in PathPatterns(lines)
  {
    var n := |lines| - 1;
    assert lines == lines[..n] + [lines[n]];
    OneMorePattern(lines[..n], lines[n]);
    if k < n {
      PatternIsListed(lines[..n], k);
    }
  }

  // ----- What a file says, told from its lines alone

  predicate IsPathLine(line: Line) {
    line.pathPattern != "" && line.pathPattern[0] != '!'
  }

  /** How the pattern of a path line matches a path. */
  function LineMatch(matches: Matcher, line: Line, filePath: string): Match {
    matches(NormalizePattern(line.pathPattern), Slashed(filePath))
  }

  /** Some line is "!" and a pattern that matches the path. */
  ghost predicate IgnoredByFile(matches: Matcher, lines: seq<Line>, filePath: string) {
    exists l :: l in lines && l.pathPattern != "" && l.pathPattern[0] == '!'
                && matches(NormalizePattern(l.pathPattern[1..]), Slashed(filePath)) == Yes
  }

  lemma {:induction false} PatternsInFile(lines: seq<Line>, p: string)
    ensures p in PathPatterns(lines) <==>
            exists l :: l in lines && IsPathLine(l) && NormalizePattern(l.pathPattern) == p
    ensures p in IgnorePatterns(lines) <==>
            exists l :: l in lines && l.pathPattern != "" && l.pathPattern[0] == '!'
                        && NormalizePattern(l.pathPattern[1..]) == p
  {
    if lines != [] {
      var k := |lines| - 1;
      assert lines == lines[..k] + [lines[k]];
      PatternsInFile(lines[..k], p);
    }
  }

  lemma IgnoredMeans(matches: Matcher, lines: seq<Line>, filePath: string)
    ensures Ignored(matches, IgnorePatterns(lines), Slashed(filePath)) <==> IgnoredByFile(matches, lines, filePath)
  {
    var path := Slashed(filePath);
    if Ignored(matches, IgnorePatterns(lines), path) {
      var p :| p in IgnorePatterns(lines) && matches(p, path) == Yes;
      PatternsInFile(lines, p);
    }
    if IgnoredByFile(matches, lines, filePath) {
      var l :| l in lines && l.pathPattern != "" && l.pathPattern[0] == '!'
               && matches(NormalizePattern(l.pathPattern[1..]), path) == Yes;
      PatternsInFile(lines, NormalizePattern(l.pathPattern[1..]));
    }
  }

  lemma Regrouped<T>(a: seq<T>, b: seq<T>, c: seq<T>)
    ensures a + (b + c) == (a + b) + c
  {
  }

  /** The members of all path lines with the same pattern are pooled, in order. */
  lemma {:induction false} OwnersArePooled(a: seq<Line>, b: seq<Line>, pattern: string)
    ensures PathOwners(a + b, pattern) == PathOwners(a, pattern) + PathOwners(b, pattern)
  {
    if b == [] {
      assert a + b == a;
    } else {
      var before, line := b[..|b| - 1], b[|b| - 1];
      OwnersArePooled(a, before, pattern);
      assert (a + b)[..|a + b| - 1] == a + before && (a + b)[|a + b| - 1] == line;
      var more := if line.IsPath() && NormalizePattern(line.pathPattern) == pattern then line.members else [];
      Regrouped(PathOwners(a, pattern), PathOwners(before, pattern), more);
    }
  }

  /** The members of all lines for the same group are pooled, in order. */
  lemma {:induction false} MembersArePooled(a: seq<Line>, b: seq<Line>, group: string)
    ensures GroupMembers(a + b, group) == GroupMembers(a, group) + GroupMembers(b, group)
  {
    if b == [] {
      assert a + b == a;
    } else {
      var before, line := b[..|b| - 1], b[|b| - 1];
      MembersArePooled(a, before, group);
      assert (a + b)[..|a + b| - 1] == a + before && (a + b)[|a + b| - 1] == line;
      var more := if line.IsGroup() && line.group == group then line.members else [];
      Regrouped(GroupMembers(a, group), GroupMembers(before, group), more);
    }
  }

  lemma OneLinePooled(l: Line, key: string)
    ensures PathOwners([l], key) == if IsPathLine(l) && NormalizePattern(l.pathPattern) == key then l.members else []
    ensures GroupMembers([l], key) == if l.pathPattern == "" && l.group == key != "" then l.members else []
  {
    assert [l][..0] == [];
  }

  /** Groups are what the lines without a path pattern define. */
  lemma GroupsInFile(lines: seq<Line>, h: string)
    ensures h in FileGroups(lines) <==> exists l :: l in lines && l.pathPattern == "" && l.group == h && h != ""
    ensures h in FileGroups(lines) ==> FileGroups(lines)[h] == GroupMembers(lines, h)
  {
    if l :| l in lines && l.pathPattern == "" && l.group == h && h != "" {
      assert l.IsGroup();
    }
  }

  /** The look-up passes over this line: it doesn't match, or the path is ignored. */
  ghost predicate PassedOver(matches: Matcher, lines: seq<Line>, line: Line, filePath: string) {
    || LineMatch(matches, line, filePath) == No
    || (LineMatch(matches, line, filePath) == Yes && IgnoredByFile(matches, lines, filePath))
  }

  lemma LineDecidesMeans(matches: Matcher, lines: seq<Line>, filePath: string, j: nat)
    requires j < |lines|
    ensures DecidingAt(matches, IgnorePatterns(lines), lines, Slashed(filePath))(j) <==>
            IsPathLine(lines[j]) && !PassedOver(matches, lines, lines[j], filePath)
  {
    IgnoredMeans(matches, lines, filePath);
  }

  lemma NoLineDecides(matches: Matcher, lines: seq<Line>, filePath: string)
    requires forall l :: l in lines && IsPathLine(l) ==> PassedOver(matches, lines, l, filePath)
    ensures OwnersInFile(matches, lines, filePath) == Ok([])
  {
    forall j: nat | j < |lines|
      ensures !DecidingAt(matches, IgnorePatterns(lines), lines, Slashed(filePath))(j)
    {
      LineDecidesMeans(matches, lines, filePath, j);
      assert lines[j] in lines;
    }
  }

  /** Ignored paths have no owners, unless the look-up meets a malformed pattern. */
  lemma IgnoredPathsAreUnowned(matches: Matcher, lines: seq<Line>, filePath: string)
    requires IgnoredByFile(matches, lines, filePath)
    requires forall l :: l in lines && IsPathLine(l) ==> LineMatch(matches, l, filePath) != Malformed
    ensures OwnersInFile(matches, lines, filePath) == Ok([])
  {
    NoLineDecides(matches, lines, filePath);
  }

  /** Paths that match no line have no owners. */
  lemma UnmatchedPathsAreUnowned(matches: Matcher, lines: seq<Line>, filePath: string)
    requires forall l :: l in lines && IsPathLine(l) ==> LineMatch(matches, l, filePath) == No
    ensures OwnersInFile(matches, lines, filePath) == Ok([])
  {
    NoLineDecides(matches, lines, filePath);
  }

  /** Otherwise the last line that matches wins, along with the others that have its pattern. */
  lemma LastMatchWins(matches: Matcher, lines: seq<Line>, filePath: string, k: nat)
    requires k < |lines| && IsPathLine(lines[k]) && LineMatch(matches, lines[k], filePath) == Yes
    requires forall j :: k < j < |lines| && IsPathLine(lines[j]) ==> LineMatch(matches, lines[j], filePath) == No
    requires !IgnoredByFile(matches, lines, filePath)
    ensures OwnersInFile(matches, lines, filePath) == Ok(PathOwners(lines, NormalizePattern(lines[k].pathPattern)))
  {
    IgnoredMeans(matches, lines, filePath);
    LastIndexExactly(DecidingAt(matches, IgnorePatterns(lines), lines, Slashed(filePath)), |lines|, k);
  }

  /** Line `k` has a malformed pattern, and all later lines are passed over. */
  ghost predicate StopsAtMalformed(matches: Matcher, lines: seq<Line>, filePath: string, k: nat) {
    && k < |lines| && IsPathLine(lines[k]) && LineMatch(matches, lines[k], filePath) == Malformed
    && forall j :: k < j < |lines| && IsPathLine(lines[j]) ==> PassedOver(matches, lines, lines[j], filePath)
  }

  lemma MalformedIsReported(matches: Matcher, lines: seq<Line>, filePath: string, k: nat)
    requires StopsAtMalformed(matches, lines, filePath, k)
    ensures OwnersInFile(matches, lines, filePath).BadPattern?
  {
    var p := DecidingAt(matches, IgnorePatterns(lines), lines, Slashed(filePath));
    forall j: nat | j < |lines|
      ensures p(j) <==> IsPathLine(lines[j]) && !PassedOver(matches, lines, lines[j], filePath)
    {
      LineDecidesMeans(matches, lines, filePath, j);
    }
    LastIndexExactly(p, |lines|, k);
  }

  /** A malformed pattern is an error exactly if the look-up comes to it. */
  lemma MalformedPatternIsReported(matches: Matcher, lines: seq<Line>, filePath: string)
    ensures OwnersInFile(matches, lines, filePath).BadPattern? <==>
            exists k: nat :: StopsAtMalformed(matches, lines, filePath, k)
  {
    if k: nat :| StopsAtMalformed(matches, lines, filePath, k) {
      MalformedIsReported(matches, lines, filePath, k);
    } else if OwnersInFile(matches, lines, filePath).BadPattern? {
      var k := LastDeciding(matches, IgnorePatterns(lines), lines, |lines|, Slashed(filePath)).value;
      forall j: nat | k < j < |lines| && IsPathLine(lines[j])
        ensures PassedOver(matches, lines, lines[j], filePath)
      {
        LineDecidesMeans(matches, lines, filePath, j);
      }
      assert StopsAtMalformed(matches, lines, filePath, k);
    }
  }

  /** Searching the reversed patterns, with any table of owners by pattern, finds the line that the file means. */
  lemma SearchFindsLastLine(matches: Matcher, lines: seq<Line>, table: map<string, seq<string>>, filePath: string)
    requires table.Keys == FilePaths(lines).Keys
    ensures match FirstDeciding(matches, IgnorePatterns(lines), Reverse(PathPatterns(lines)), Slashed(filePath))
            case None => OwnersInFile(matches, lines, filePath) == Ok([])
            case Some(p) =>
              && p in table && p in FilePaths(lines)
              && OwnersInFile(matches, lines, filePath) ==
                 if matches(p, Slashed(filePath)) == Malformed then BadPattern else Ok(FilePaths(lines)[p])
  {
    assert lines[..|lines|] == lines;
    FirstOfReversedIsLast(matches, IgnorePatterns(lines), lines, |lines|, Slashed(filePath));
    var last := LastDeciding(matches, IgnorePatterns(lines), lines, |lines|, Slashed(filePath));
    if last.Some? {
      PatternIsListed(lines, last.value);
    }
  }

  /** A map look-up that yields an empty list for a missing key, as in Go. */
  function Lookup(m: map<string, seq<string>>, key: string): seq<string> {
    if key in m then m[key] else []
  }
}
