/** Verbosity by module: the glob matcher, and the search for the first pattern that matches. */
module Vlog {
  import opened Wrappers

  predicate IsSlash(c: char) {
    c == '/' || c == '\\'
  }

  /** Either slash matches either slash, `?` matches anything, all else is literal. */
  predicate CharMatches(p: char, c: char) {
    if IsSlash(p) then IsSlash(c) else p == '?' || p == c
  }

  function Joined(pieces: seq<string>): string {
    if pieces == [] then "" else pieces[0] + Joined(pieces[1..])
  }

  /** A pattern character covers any run when it is a star, any one character when it is a question
      mark, and otherwise itself, where the two slashes count as the same. */
  predicate Covers(p: char, piece: string) {
    p == '*' || (|piece| == 1 && (p == '?' || p == piece[0] || (p in "/\\" && piece[0] in "/\\")))
  }

  /** The string falls into one piece for each pattern character. */
  ghost predicate Globs(s: string, p: string) {
    exists pieces :: FallsInto(s, p, pieces)
  }

  ghost predicate FallsInto(s: string, p: string, pieces: seq<string>) {
    |pieces| == |p| && Joined(pieces) == s && forall i :: 0 <= i < |p| ==> Covers(p[i], pieces[i])
  }

  /** The same, one pattern character at a time. */
  predicate Matches(s: string, p: string)
    decreases |p|
  {
    if p == "" then s == ""
    else if p[0] == '*' then exists k :: 0 <= k <= |s| && Matches(s[k..], p[1..])
    else s != "" && CharMatches(p[0], s[0]) && Matches(s[1..], p[1..])
  }

  lemma {:induction false} MatchesFalls(s: string, p: string) returns (pieces: seq<string>)
    requires Matches(s, p)
    ensures FallsInto(s, p, pieces)
    decreases |p|
  {
    if p == "" {
      pieces := [];
    } else {
      var k: nat := 1;
      if p[0] == '*' {
        k :| 0 <= k <= |s| && Matches(s[k..], p[1..]);
      }
      var rest := MatchesFalls(s[k..], p[1..]);
      pieces := [s[..k]] + rest;
      assert pieces[1..] == rest;
      assert s == s[..k] + s[k..];
    }
  }

  lemma {:induction false} FallsMatches(s: string, p: string, pieces: seq<string>)
    requires FallsInto(s, p, pieces)
    ensures Matches(s, p)
    decreases |p|
  {
    if p != "" {
      var k, rest := |pieces[0]|, pieces[1..];
      assert s[k..] == Joined(rest);
      assert Covers(p[0], pieces[0]);
      FallsMatches(s[k..], p[1..], rest);
    }
  }

  /** Matching is globbing. */
  lemma MatchesIsGlobs(s: string, p: string)
    ensures Matches(s, p) <==> Globs(s, p)
  {
    if Matches(s, p) {
      var pieces := MatchesFalls(s, p);
    }
    if pieces :| FallsInto(s, p, pieces) {
      FallsMatches(s, p, pieces);
    }
  }

  // ----- the matcher -----

  predicate SomeSuffix(s: string, p: string) {
    exists k :: 0 <= k <= |s| && Matches(s[k..], p)
  }

  /** A second star adds nothing. */
  lemma StarsCoalesce(s: string, p: string)
    requires p != "" && p[0] == '*'
    ensures SomeSuffix(s, p) <==> SomeSuffix(s, p[1..])
  {
    if SomeSuffix(s, p) {
      var k :| 0 <= k <= |s| && Matches(s[k..], p);
      var j :| 0 <= j <= |s[k..]| && Matches(s[k..][j..], p[1..]);
      assert s[k..][j..] == s[k + j..];
    }
    if SomeSuffix(s, p[1..]) {
      assert s[0..] == s;
      assert Matches(s[0..], p);
    }
  }

  /** The literal prefix, then the stars, then every nonempty suffix in turn: no match is lost. */
  method MatchVlogPattern(text: string, vlogPattern: string) returns (matched: bool)
    ensures matched == Matches(text, vlogPattern)
    decreases |vlogPattern|
  {
    var p, s := vlogPattern, text;
    while p != "" && s != "" && p[0] != '*'
      invariant |p| <= |vlogPattern|
      invariant Matches(text, vlogPattern) == Matches(s, p)
      decreases |p|
    {
      if IsSlash(p[0]) {
        if !IsSlash(s[0]) {
          return false;
        }
      } else if p[0] != '?' {
        if p[0] != s[0] {
          return false;
        }
      }
      p, s := p[1..], s[1..];
    }
    if p == "" {
      return s == "";
    }
    ghost var starred := p;
    while p != "" && p[0] == '*'
      invariant |p| <= |starred|
      invariant if |p| == |starred| then p == starred else Matches(s, starred) == SomeSuffix(s, p)
      decreases |p|
    {
      if p != starred {
        StarsCoalesce(s, p);
      }
      p := p[1..];
    }
    if p == "" {
      assert Matches(s[|s|..], p);
      return true;
    }
    ghost var whole, i := s, 0;
    while s != ""
      invariant 0 <= i <= |whole| && s == whole[i..]
      invariant forall k :: 0 <= k < i ==> !Matches(whole[k..], p)
      decreases |s|
    {
      var suffixMatches := MatchVlogPattern(s, p);
      if suffixMatches {
        return true;
      }
      s, i := s[1..], i + 1;
    }
    return false;
  }

  // ----- choosing the level of a file -----

  datatype Pattern = Pattern(pattern: string, level: int)

  /** A pattern with a slash is about the whole file name, any other one about the module. */
  predicate IsFilePattern(p: Pattern) {
    exists c :: c in p.pattern && IsSlash(c)
  }

  /** Everything behind the last slash. */
  function BaseName(file: string): (r: string)
    ensures |r| <= |file| && r == file[|file| - |r|..] && forall c :: c in r ==> !IsSlash(c)
    ensures |r| < |file| ==> IsSlash(file[|file| - |r| - 1])
  {
    if file == "" || IsSlash(file[|file| - 1]) then ""
    else BaseName(file[..|file| - 1]) + [file[|file| - 1]]
  }

  /** Everything before the last dot. */
  function WithoutExtension(name: string): (r: string)
    ensures |r| <= |name| && r == name[..|r|]
    ensures if '.' in name then |r| < |name| && name[|r|] == '.' && '.' !in name[|r| + 1..] else r == name
  {
    if '.' !in name then name
    else if name[|name| - 1] == '.' then name[..|name| - 1]
    else
      var r := WithoutExtension(name[..|name| - 1]);
      assert name[|r| + 1..] == name[..|name| - 1][|r| + 1..] + [name[|name| - 1]];
      r
  }

  const INL_SUFFIX := "-inl"

  /** The module of a base name without extension.  The suffix is looked for four characters before
      the end, which throws when there are not that many. */
  function ModuleOf(name: string): (r: Option<string>)
    ensures r == None <==> |name| < 4
  {
    if |name| < |INL_SUFFIX| then None
    else if name[|name| - |INL_SUFFIX|..] == INL_SUFFIX then Some(name[..|name| - |INL_SUFFIX|])
    else Some(name)
  }

  function GetModule(file: string): (r: Option<string>)
    ensures r == None <==> |WithoutExtension(BaseName(file))| < 4
  {
    ModuleOf(WithoutExtension(BaseName(file)))
  }

  /** `-inl` at the end is cut off. */
  lemma SuffixIsCut(name: string, start: string, suffix: string)
    requires suffix == "-inl" && name == start + suffix
    ensures ModuleOf(name) == Some(start)
  {
    assert name[|start|..] == suffix && name[..|start|] == start;
  }

  /** Any other name is the module itself. */
  lemma OthersAreKept(name: string, suffix: string)
    requires suffix == "-inl" && |name| >= 4 && !exists start :: name == start + suffix
    ensures ModuleOf(name) == Some(name)
  {
    if name[|name| - |suffix|..] == suffix {
      assert name == name[..|name| - |suffix|] + suffix;
    }
  }

  lemma SlashesAre(p: Pattern)
    ensures IsFilePattern(p) <==> '/' in p.pattern || '\\' in p.pattern
  {
    if IsFilePattern(p) {
      var c :| c in p.pattern && IsSlash(c);
    }
    if '/' in p.pattern {
      assert IsSlash('/');
    }
    if '\\' in p.pattern {
      assert IsSlash('\\');
    }
  }

  function Target(file: string, module_: string, p: Pattern): string {
    if IsFilePattern(p) then file else module_
  }

  /** A pattern with either slash in it is globbed against the file, any other against the module. */
  ghost predicate Concerns(p: Pattern, file: string, module_: string) {
    Globs(if '/' in p.pattern || '\\' in p.pattern then file else module_, p.pattern)
  }

  ghost predicate NoneConcerns(levels: seq<Pattern>, file: string, module_: string) {
    forall p :: p in levels ==> !Concerns(p, file, module_)
  }

  /** The first pattern that concerns the file decides; none, and it is the general level. */
  ghost predicate Decides(level: int, levels: seq<Pattern>, file: string, module_: string, maxLevel: int) {
    || (exists i :: 0 <= i < |levels| && level == levels[i].level
          && Concerns(levels[i], file, module_) && NoneConcerns(levels[..i], file, module_))
    || (level == maxLevel && NoneConcerns(levels, file, module_))
  }

  method FirstMatch(levels: seq<Pattern>, file: string, module_: string, maxLevel: int) returns (level: int)
    ensures Decides(level, levels, file, module_, maxLevel)
  {
    for i := 0 to |levels|
      invariant NoneConcerns(levels[..i], file, module_)
    {
      var target := Target(file, module_, levels[i]);
      SlashesAre(levels[i]);
      var matched := MatchVlogPattern(target, levels[i].pattern);
      MatchesIsGlobs(target, levels[i].pattern);
      if matched {
        assert Concerns(levels[i], file, module_);
        return levels[i].level;
      }
      assert levels[..i + 1] == levels[..i] + [levels[i]];
    }
    assert levels[..|levels|] == levels;
    return maxLevel;
  }

  /** The module is only computed when there are patterns at all. */
  method GetVlogLevel(file: string, levels: seq<Pattern>, maxLevel: int) returns (level: Option<int>)
    ensures level == None <==> levels != [] && |WithoutExtension(BaseName(file))| < 4
    ensures levels == [] ==> level == Some(maxLevel)
    ensures level.Some? && levels != [] ==> Decides(level.value, levels, file, GetModule(file).value, maxLevel)
  {
    if levels == [] {
      return Some(maxLevel);
    }
    var module_ := GetModule(file);
    if module_.None? {
      return None;
    }
    var found := FirstMatch(levels, file, module_.value, maxLevel);
    return Some(found);
  }

  /** A module name of one letter is too short for the suffix to be looked for. */
  lemma ShortModuleThrows()
    ensures GetModule("a.cc") == None
  {
    NoSlash("a.cc");
    var name := WithoutExtension("a.cc");
    assert name == "a.cc"[..|name|];
    assert "a.cc"[1] == '.' && '.' in "a.cc";
  }

  lemma {:induction false} NoSlash(file: string)
    requires forall c :: c in file ==> !IsSlash(c)
    ensures BaseName(file) == file
  {
    if file != "" {
      NoSlash(file[..|file| - 1]);
    }
  }
}
