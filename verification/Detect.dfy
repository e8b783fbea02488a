/** Which changed paths are migrations (`ci/detect.py`). */
module Detect {
  import opened Options
  import opened Regex
  import opened Text
  import opened Sorting
  import opened Glob
  import opened Sequences

  datatype Framework = Prisma | Rails | Django | Alembic | Flyway | GolangMigrate | Generic | Configured

  datatype SourceKind = Sql | Dsl

  datatype DetectedFile = DetectedFile(path: string, framework: Framework, kind: SourceKind)

  /** One layout rule; `matches` is its pattern's search. */
  datatype Rule = Rule(framework: Framework, kind: SourceKind, matches: string -> bool)

  function FirstRule(rules: seq<Rule>, path: string): Option<(Framework, SourceKind)> {
    if rules == [] then None
    else if rules[0].matches(path) then Some((rules[0].framework, rules[0].kind))
    else FirstRule(rules[1..], path)
  }

  function FrameworkOf(rules: seq<Rule>, path: string): Option<(Framework, SourceKind)> {
    if Normalized(path) == "" then None else FirstRule(rules, Normalized(path))
  }

  predicate IsFirst(rules: seq<Rule>, path: string, i: nat)
    requires i < |rules|
  {
    rules[i].matches(path) && forall j :: 0 <= j < i ==> !rules[j].matches(path)
  }

  /** The first match wins: the rule that answers is the only one that matters, and no earlier one matched. */
  lemma {:induction false} FirstRuleWins(rules: seq<Rule>, path: string)
    ensures match FirstRule(rules, path)
            case None => forall rule <- rules :: !rule.matches(path)
            case Some(answer) => (exists i :: 0 <= i < |rules| && IsFirst(rules, path, i)
                                              && answer == (rules[i].framework, rules[i].kind))
  {
    if rules != [] {
      if rules[0].matches(path) {
      } else {
        FirstRuleWins(rules[1..], path);
        if FirstRule(rules[1..], path).Some? {
          var i :| 0 <= i < |rules[1..]| && IsFirst(rules[1..], path, i)
            && FirstRule(rules, path).value == (rules[1..][i].framework, rules[1..][i].kind);
          assert forall j :: 0 < j <= i ==> rules[j] == rules[1..][j - 1];
          assert rules[i + 1] == rules[1..][i] && IsFirst(rules, path, i + 1);
        }
      }
    }
  }

  function LastIndexOf(c: char, s: string): (r: int)
    ensures -1 <= r < |s|
    ensures r >= 0 ==> s[r] == c
    ensures forall i :: r < i < |s| ==> s[i] != c
  {
    if s == "" then -1 else if s[|s| - 1] == c then |s| - 1 else LastIndexOf(c, s[..|s| - 1])
  }

  predicate IsDslExtension(extension: string) {
    extension in {".rb", ".py", ".ex", ".exs", ".ts", ".js", ".go"}
  }

  /** The kind of a configured path no layout describes, by its extension. */
  function ConfiguredKind(path: string): (Framework, SourceKind) {
    var dot := LastIndexOf('.', path);
    var suffix := if dot > LastIndexOf('/', path) then Lower(path[dot..]) else "";
    (Configured, if IsDslExtension(suffix) then Dsl else Sql)
  }

  predicate MatchesAny(path: string, globs: seq<string>) {
    exists glob <- globs :: Accepts(GlobParts(glob), path)
  }

  /** A normalised path is reported: an include list replaces the layouts, excludes are checked last. */
  predicate Selected(rules: seq<Rule>, includes: seq<string>, excludes: seq<string>, path: string) {
    && path != ""
    && (if includes != [] then MatchesAny(path, includes) else FrameworkOf(rules, path).Some?)
    && !MatchesAny(path, excludes)
  }

  function Describe(rules: seq<Rule>, path: string): (file: DetectedFile)
    ensures file.path == path
  {
    var (framework, kind) := match FrameworkOf(rules, path) case Some(m) => m case None => ConfiguredKind(path);
    DetectedFile(path, framework, kind)
  }

  function PathsOf(files: seq<DetectedFile>): (r: seq<string>)
    ensures |r| == |files| && forall i :: 0 <= i < |r| ==> r[i] == files[i].path
  {
    seq(|files|, i requires 0 <= i < |files| => files[i].path)
  }

  /** The selected paths, each once, in code point order. */
  ghost predicate IsDetection(
    rules: seq<Rule>, paths: set<string>, includes: seq<string>, excludes: seq<string>, result: seq<DetectedFile>)
  {
    && Sorted(TextLeq, PathsOf(result))
    && Distinct(PathsOf(result))
    && (forall file <- result :: file == Describe(rules, file.path))
    && (forall path :: path in PathsOf(result) <==> path in paths && Selected(rules, includes, excludes, path))
  }

  ghost function NormalizedSet(raw: seq<string>): set<string> {
    set path <- raw :: Normalized(path)
  }

  ghost predicate CompiledFrom(compiled: seq<seq<Re>>, globs: seq<string>) {
    |compiled| == |globs| && forall i :: 0 <= i < |globs| ==> compiled[i] == GlobParts(globs[i])
  }

  method CompileGlobs(globs: seq<string>) returns (compiled: seq<seq<Re>>)
    ensures CompiledFrom(compiled, globs)
  {
    hide GlobParts;
    compiled := [];
    for i := 0 to |globs|
      invariant |compiled| == i && forall j :: 0 <= j < i ==> compiled[j] == GlobParts(globs[j])
    {
      var parts := GlobToRegex(globs[i]);
      compiled := compiled + [parts];
    }
  }

  method AnyAccepts(path: string, compiled: seq<seq<Re>>, ghost globs: seq<string>) returns (found: bool)
    requires CompiledFrom(compiled, globs)
    ensures found == MatchesAny(path, globs)
  {
    hide GlobParts, Accepts;
    for i := 0 to |compiled|
      invariant forall j :: 0 <= j < i ==> !Accepts(GlobParts(globs[j]), path)
    {
      if Accepts(compiled[i], path) {
        assert globs[i] in globs;
        return true;
      }
    }
    return false;
  }

  /** What becomes of one normalised path that was not seen before. */
  method Classify(
      rules: seq<Rule>, path: string, includePatterns: seq<seq<Re>>, excludePatterns: seq<seq<Re>>,
      ghost includes: seq<string>, ghost excludes: seq<string>)
    returns (file: Option<DetectedFile>)
    requires path != "" && CompiledFrom(includePatterns, includes) && CompiledFrom(excludePatterns, excludes)
    ensures file == if Selected(rules, includes, excludes, path) then Some(Describe(rules, path)) else None
  {
    var matched := FrameworkOf(rules, path);
    if includePatterns != [] {
      var included := AnyAccepts(path, includePatterns, includes);
      if !included {
        return None;
      }
    } else if matched.None? {
      return None;
    }
    var excluded := AnyAccepts(path, excludePatterns, excludes);
    if excluded {
      return None;
    }
    var (framework, kind) := match matched case Some(m) => m case None => ConfiguredKind(path);
    return Some(DetectedFile(path, framework, kind));
  }

  /** `seen` holds exactly the selected ones among these paths. */
  ghost predicate SeenFrom(
    rules: seq<Rule>, paths: set<string>, includes: seq<string>, excludes: seq<string>, seen: map<string, DetectedFile>)
  {
    && (forall path <- seen :: seen[path] == Describe(rules, path))
    && (forall path :: path in seen <==> path in paths && Selected(rules, includes, excludes, path))
  }

  ghost predicate KeysInOrder(seen: map<string, DetectedFile>, order: seq<string>) {
    Distinct(order) && forall path :: path in order <==> path in seen
  }

  lemma NewKey(seen: map<string, DetectedFile>, order: seq<string>, path: string, file: DetectedFile)
    requires KeysInOrder(seen, order) && path !in seen
    ensures KeysInOrder(seen[path := file], order + [path])
  {}

  lemma NothingSeen(rules: seq<Rule>, paths: seq<string>, includes: seq<string>, excludes: seq<string>)
    ensures SeenFrom(rules, NormalizedSet(paths[..0]), includes, excludes, map[]) && KeysInOrder(map[], [])
    ensures !Selected(rules, includes, excludes, "")
  {}

  lemma SeenStep(
      rules: seq<Rule>, paths: set<string>, includes: seq<string>, excludes: seq<string>,
      seen: map<string, DetectedFile>, path: string)
    requires SeenFrom(rules, paths, includes, excludes, seen)
    ensures path in seen || !Selected(rules, includes, excludes, path) ==>
              SeenFrom(rules, paths + {path}, includes, excludes, seen)
    ensures path !in seen && Selected(rules, includes, excludes, path) ==>
              SeenFrom(rules, paths + {path}, includes, excludes, seen[path := Describe(rules, path)])
  {
    hide Selected, Describe;
  }

  lemma NormalizedSetStep(paths: seq<string>, i: nat)
    requires i < |paths|
    ensures NormalizedSet(paths[..i + 1]) == NormalizedSet(paths[..i]) + {Normalized(paths[i])}
  {
    assert paths[..i + 1] == paths[..i] + [paths[i]];
  }

  method DetectMigrations(rules: seq<Rule>, paths: seq<string>, includes: seq<string>, excludes: seq<string>)
    returns (result: seq<DetectedFile>)
    ensures IsDetection(rules, NormalizedSet(paths), includes, excludes, result)
  {
    hide *;
    var includePatterns := CompileGlobs(includes);
    var excludePatterns := CompileGlobs(excludes);
    var seen: map<string, DetectedFile> := map[];
    var order: seq<string> := [];  // the keys of `seen`, as first inserted
    NothingSeen(rules, paths, includes, excludes);
    for i := 0 to |paths|
      invariant KeysInOrder(seen, order)
      invariant SeenFrom(rules, NormalizedSet(paths[..i]), includes, excludes, seen)
    {
      NormalizedSetStep(paths, i);
      var path := NormalizePath(paths[i]);
      SeenStep(rules, NormalizedSet(paths[..i]), includes, excludes, seen, path);
      if path == "" || path in seen {
        continue;
      }
      var file := Classify(rules, path, includePatterns, excludePatterns, includes, excludes);
      if file.Some? {
        NewKey(seen, order, path, file.value);
        seen := seen[path := file.value];
        order := order + [path];
      }
    }
    assert paths[..|paths|] == paths;
    result := InPathOrder(rules, NormalizedSet(paths), includes, excludes, seen, order);
  }

  method InPathOrder(
      ghost rules: seq<Rule>, ghost paths: set<string>, ghost includes: seq<string>, ghost excludes: seq<string>,
      seen: map<string, DetectedFile>, order: seq<string>)
    returns (result: seq<DetectedFile>)
    requires KeysInOrder(seen, order)
    requires SeenFrom(rules, paths, includes, excludes, seen)
    ensures IsDetection(rules, paths, includes, excludes, result)
  {
    hide Selected, Describe;
    TextOrder();
    SortDistinct(TextLeq, order);
    var keys := Sort(TextLeq, order);
    result := seq(|keys|, i requires 0 <= i < |keys| && keys[i] in seen => seen[keys[i]]);
    assert PathsOf(result) == keys;
  }

  // ---- What the answer depends on ----

  /** The answer depends only on the set of normalised paths. */
  lemma DetectionIsASetFunction(
      rules: seq<Rule>, paths: set<string>, includes: seq<string>, excludes: seq<string>,
      a: seq<DetectedFile>, b: seq<DetectedFile>)
    requires IsDetection(rules, paths, includes, excludes, a) && IsDetection(rules, paths, includes, excludes, b)
    ensures a == b
  {
    TextOrder();
    DistinctSameElements(PathsOf(a), PathsOf(b));
    SortedUnique(TextLeq, PathsOf(a), PathsOf(b));
    forall i | 0 <= i < |a| ensures a[i] == b[i] {
      assert a[i].path == PathsOf(a)[i] == PathsOf(b)[i] == b[i].path;
      assert a[i] in a && b[i] in b;
    }
  }

  /** Another exclude glob only removes files, and leaves the others as they were. */
  lemma ExcludeOnlyRemoves(
      rules: seq<Rule>, paths: set<string>, includes: seq<string>, excludes: seq<string>, extra: string,
      a: seq<DetectedFile>, b: seq<DetectedFile>, file: DetectedFile)
    requires IsDetection(rules, paths, includes, excludes, a)
    requires IsDetection(rules, paths, includes, excludes + [extra], b)
    ensures file in b <==> file in a && !Accepts(GlobParts(extra), file.path)
  {
    SamePathSameFile(rules, paths, includes, excludes, a);
    SamePathSameFile(rules, paths, includes, excludes + [extra], b);
    hide IsDetection, MatchesAny, Accepts;
  }

  /** Another glob on a nonempty include list only adds files; on an empty list it replaces the layouts. */
  lemma IncludeOnlyAdds(
      rules: seq<Rule>, paths: set<string>, includes: seq<string>, excludes: seq<string>, extra: string,
      a: seq<DetectedFile>, b: seq<DetectedFile>, file: DetectedFile)
    requires includes != []
    requires IsDetection(rules, paths, includes, excludes, a)
    requires IsDetection(rules, paths, includes + [extra], excludes, b)
    ensures file in a ==> file in b
    ensures file in b ==> file in a || Accepts(GlobParts(extra), file.path)
  {
    SamePathSameFile(rules, paths, includes, excludes, a);
    SamePathSameFile(rules, paths, includes + [extra], excludes, b);
    hide IsDetection, MatchesAny, Accepts;
  }

  lemma SamePathSameFile(
      rules: seq<Rule>, paths: set<string>, includes: seq<string>, excludes: seq<string>, a: seq<DetectedFile>)
    requires IsDetection(rules, paths, includes, excludes, a)
    ensures forall file :: file in a <==>
              file == Describe(rules, file.path) && file.path in paths && Selected(rules, includes, excludes, file.path)
  {
    forall file ensures file in a <==>
              file == Describe(rules, file.path) && file.path in paths && Selected(rules, includes, excludes, file.path)
    {
      if file in a {
        var i :| 0 <= i < |a| && a[i] == file;
        assert PathsOf(a)[i] == file.path;
      }
      if file == Describe(rules, file.path) && file.path in paths && Selected(rules, includes, excludes, file.path) {
        assert file.path in PathsOf(a);
        var i :| 0 <= i < |a| && PathsOf(a)[i] == file.path;
        assert a[i] in a;
      }
    }
  }

  // ---- Normalising twice ----

  predicate IsSuffix(r: string, s: string) {
    |r| <= |s| && s[|s| - |r|..] == r
  }

  lemma SuffixTransitive(a: string, b: string, c: string)
    requires IsSuffix(a, b) && IsSuffix(b, c)
    ensures IsSuffix(a, c)
  {}

  lemma {:induction false} DropDotSlashShape(s: string)
    ensures var r := DropDotSlash(s); IsSuffix(r, s) && !("./" <= r) && ("./" <= s ==> |r| < |s|)
  {
    if "./" <= s {
      DropDotSlashShape(s[2..]);
      SuffixTransitive(DropDotSlash(s), s[2..], s);
    }
  }

  lemma {:induction false} DropSlashesShape(s: string)
    ensures var r := DropSlashes(s); IsSuffix(r, s) && !("/" <= r) && ("/" <= s ==> |r| < |s|)
  {
    if "/" <= s {
      DropSlashesShape(s[1..]);
      SuffixTransitive(DropSlashes(s), s[1..], s);
    }
  }

  lemma TrimShape(s: string)
    ensures |Trim(s)| <= |s|
    ensures forall c <- Trim(s) :: c in s
    ensures Trim(s) != "" ==> !IsSpace(Trim(s)[|Trim(s)| - 1])
    ensures s == "" || (!IsSpace(s[0]) && !IsSpace(s[|s| - 1])) ==> Trim(s) == s
    ensures s != "" && IsSpace(s[0]) ==> |Trim(s)| < |s|
  {
    TrimLeftIsSuffix(s);
    hide IsSpace;
  }

  lemma StrippedShape(flipped: string)
    ensures IsSuffix(DropSlashes(DropDotSlash(flipped)), flipped)
    ensures !("/" <= DropSlashes(DropDotSlash(flipped)))
  {
    DropDotSlashShape(flipped);
    DropSlashesShape(DropDotSlash(flipped));
    SuffixTransitive(DropSlashes(DropDotSlash(flipped)), DropDotSlash(flipped), flipped);
  }

  /** No backslash, no leading separator and no trailing whitespace is left. */
  lemma NormalizedShape(path: string)
    ensures var once := Normalized(path);
            '\\' !in once && !("/" <= once) && (once != "" ==> !IsSpace(once[|once| - 1]))
  {
    TrimShape(path);
    StrippedShape(FlipSlashes(Trim(path)));
  }

  function Repeat(piece: string, k: nat): string {
    if k == 0 then "" else piece + Repeat(piece, k - 1)
  }

  /**
   Stripping `./`s and then `/`s uncovers something that normalising would strip again: another `./` behind a `/`,
   or white space.
   */
  ghost predicate Restarts(text: string) {
    exists dots: nat, slashes: nat, rest: string :: RestartsAt(text, dots, slashes, rest)
  }

  predicate RestartsAt(text: string, dots: nat, slashes: nat, rest: string) {
    && text == Repeat("./", dots) + (Repeat("/", slashes) + rest)
    && ((slashes > 0 && "./" <= rest) || (rest != "" && IsSpace(rest[0])))
  }

  lemma {:induction false} DropDotsExact(text: string) returns (dots: nat)
    ensures text == Repeat("./", dots) + DropDotSlash(text)
  {
    dots := 0;
    if "./" <= text {
      var rest := DropDotsExact(text[2..]);
      dots := rest + 1;
      assert text == "./" + text[2..];
    }
  }

  lemma {:induction false} DropSlashesExact(text: string) returns (slashes: nat)
    ensures text == Repeat("/", slashes) + DropSlashes(text)
  {
    slashes := 0;
    if "/" <= text {
      var rest := DropSlashesExact(text[1..]);
      slashes := rest + 1;
      assert text == "/" + text[1..];
    }
  }

  lemma {:induction false} DropRepeatedDots(dots: nat, rest: string)
    ensures DropDotSlash(Repeat("./", dots) + rest) == DropDotSlash(rest)
  {
    var text := Repeat("./", dots) + rest;
    if dots > 0 {
      assert text == "./" + (Repeat("./", dots - 1) + rest);
      assert text[2..] == Repeat("./", dots - 1) + rest;
      DropRepeatedDots(dots - 1, rest);
    } else {
      assert text == rest;
    }
  }

  lemma {:induction false} DropRepeatedSlashes(slashes: nat, rest: string)
    ensures DropSlashes(Repeat("/", slashes) + rest) == DropSlashes(rest)
  {
    var text := Repeat("/", slashes) + rest;
    if slashes > 0 {
      assert text == "/" + (Repeat("/", slashes - 1) + rest);
      assert text[1..] == Repeat("/", slashes - 1) + rest;
      DropRepeatedSlashes(slashes - 1, rest);
    } else {
      assert text == rest;
    }
  }

  /** What is left after stripping begins with `./` or white space exactly when the text restarts. */
  lemma RestartsIff(text: string)
    requires text == "" || !IsSpace(text[0])
    ensures var left := DropSlashes(DropDotSlash(text));
            Restarts(text) <==> "./" <= left || (left != "" && IsSpace(left[0]))
  {
    var left := DropSlashes(DropDotSlash(text));
    if "./" <= left || (left != "" && IsSpace(left[0])) {
      var dots := DropDotsExact(text);
      var slashes := DropSlashesExact(DropDotSlash(text));
      DropDotSlashShape(text);
      assert slashes == 0 ==> Repeat("/", slashes) + left == left;
      assert RestartsAt(text, dots, slashes, left);
    }
    if dots: nat, slashes: nat, rest: string :| RestartsAt(text, dots, slashes, rest) {
      StrippedToRest(text, dots, slashes, rest);
    }
  }

  lemma StrippedToRest(text: string, dots: nat, slashes: nat, rest: string)
    requires RestartsAt(text, dots, slashes, rest)
    ensures DropSlashes(DropDotSlash(text)) == rest
  {
    var tail := Repeat("/", slashes) + rest;
    DropRepeatedDots(dots, tail);
    if slashes > 0 {
      assert tail[0] == '/';
    } else {
      assert tail == rest;
    }
    assert DropDotSlash(tail) == tail;
    DropRepeatedSlashes(slashes, rest);
    assert DropSlashes(rest) == rest;
  }

  /**
   Normalising is not idempotent. It is exactly when the trimmed text, read with forward slashes, is not a run of
   `./`s and then `/`s followed by `./` (after a `/`) or by white space.
   */
  lemma NormalizeTwice(path: string)
    ensures Normalized(Normalized(path)) == Normalized(path) <==> !Restarts(FlipSlashes(Trim(path)))
  {
    var once, text := Normalized(path), FlipSlashes(Trim(path));
    NormalizedShape(path);
    RestartsIff(text);
    hide Normalized, IsSpace, Restarts;
    TrimShape(once);
    NormalizeTrimmed(once);
  }

  /** `/./a` becomes `./a`, which becomes `a`. */
  lemma NormalizeTwiceExample()
    ensures Normalized("/./a") == "./a" && Normalized("./a") == "a"
  {
    assert !IsSpace('/') && !IsSpace('.') && !IsSpace('a');
    hide IsSpace;
    TrimShape("/./a");
    TrimShape("./a");
    hide Trim;
    assert FlipSlashes("/./a") == "/./a" && FlipSlashes("./a") == "./a";
    assert "/./a"[1..] == "./a" && "./a"[2..] == "a";
    assert DropSlashes("./a") == "./a" && DropSlashes("a") == "a" && DropDotSlash("a") == "a";
  }

  lemma TrimKeepsHead(head: string, path: string)
    requires head != "" && !IsSpace(head[0]) && !IsSpace(head[|head| - 1])
    ensures Trim(head + path) == head + TrimRight(path)
  {
    assert TrimLeft(head + path) == head + path by {
      assert (head + path)[0] == head[0];
    }
    TrimRightOfAppend(head, path);
  }

  lemma {:induction false} TrimRightOfAppend(head: string, path: string)
    requires head != "" && !IsSpace(head[|head| - 1])
    ensures TrimRight(head + path) == head + TrimRight(path)
  {
    var whole := head + path;
    if path == "" {
      assert whole == head;
    } else {
      assert whole[|whole| - 1] == path[|path| - 1];
      assert whole[..|whole| - 1] == head + path[..|path| - 1];
      if IsSpace(path[|path| - 1]) {
        TrimRightOfAppend(head, path[..|path| - 1]);
      }
    }
  }

  lemma FlipAppend(a: string, b: string)
    ensures FlipSlashes(a + b) == FlipSlashes(a) + FlipSlashes(b)
  {}

  /** Behind a leading `./` or `.\` only the end of the path is trimmed. */
  lemma NormalizedBehindDot(path: string, separator: char)
    requires separator == '/' || separator == '\\'
    ensures Normalized(['.', separator] + path) == DropSlashes(DropDotSlash(FlipSlashes(TrimRight(path))))
  {
    var dot := ['.', separator];
    assert !IsSpace('.') && !IsSpace(separator);
    assert FlipSlashes(dot) == "./";
    hide IsSpace, Trim, TrimRight, FlipSlashes;
    TrimKeepsHead(dot, path);
    FlipAppend(dot, TrimRight(path));
    DropOneDot(FlipSlashes(TrimRight(path)));
  }

  lemma DropOneDot(text: string)
    ensures DropDotSlash("./" + text) == DropDotSlash(text)
  {
    assert ("./" + text)[2..] == text;
  }

  /** Where something is left, trimming on the right keeps all leading white space. */
  lemma TrimRightKeepsLead(path: string)
    ensures TrimLeft(path) == "" ==> TrimRight(path) == ""
    ensures TrimLeft(path) != "" ==>
              TrimRight(path) == path[..|path| - |TrimLeft(path)|] + Trim(path) && Trim(path) != ""
  {
    var rest := TrimLeft(path);
    TrimLeftIsSuffix(path);
    if rest == "" {
      NothingButSpace(path);
    } else {
      hide TrimRight, TrimLeft, IsSpace;
      var lead := path[..|path| - |rest|];
      assert path == lead + rest;
      TrimRightBehind(lead, rest);
    }
  }

  lemma TrimRightBehind(lead: string, rest: string)
    requires rest != "" && !IsSpace(rest[0])
    ensures TrimRight(lead + rest) == lead + TrimRight(rest) && TrimRight(rest) != ""
  {
    hide TrimRight, IsSpace;
    var first, tail := [rest[0]], rest[1..];
    assert rest == first + tail;
    TrimRightOfAppend(first, tail);
    TrimRightOfAppend(lead + first, tail);
    Associative(lead, first, tail);
    Associative(lead, first, TrimRight(tail));
  }

  lemma {:induction false} NothingButSpace(path: string)
    requires TrimLeft(path) == ""
    ensures TrimRight(path) == ""
  {
    if path != "" {
      NothingButSpace(path[1..]);
    }
  }

  /** White space behind the dot is not leading any more, so it stays. */
  lemma SpaceStays(path: string)
    requires path != "" && IsSpace(path[0]) && Trim(path) != ""
    ensures DropSlashes(DropDotSlash(FlipSlashes(TrimRight(path)))) != Normalized(path)
  {
    var kept := TrimRight(path);
    TrimRightKeepsLead(path);
    assert |TrimLeft(path)| < |path|;
    hide TrimLeft, TrimRight;
    assert kept[0] == path[0];
    assert DropSlashes(DropDotSlash(FlipSlashes(kept))) == FlipSlashes(kept) by {
      assert !IsSpace('.') && !IsSpace('/') && !IsSpace('\\');
    }
    StrippedShape(FlipSlashes(Trim(path)));
  }

  /** A leading `./` or `.\` makes no difference exactly when the path has no leading white space of its own. */
  lemma DotSlashIsIgnoredIff(path: string, separator: char)
    requires separator == '/' || separator == '\\'
    ensures Normalized(['.', separator] + path) == Normalized(path) <==>
            path == "" || !IsSpace(path[0]) || Trim(path) == ""
  {
    NormalizedBehindDot(path, separator);
    if path == "" || !IsSpace(path[0]) {
      assert TrimLeft(path) == path;
    } else if Trim(path) == "" {
      TrimRightKeepsLead(path);
    } else {
      SpaceStays(path);
    }
  }

  lemma StripNothing(s: string)
    ensures var r := DropSlashes(DropDotSlash(s));
            |r| <= |s| && ("./" <= s ==> |r| < |s|) && (!("./" <= s) && !("/" <= s) ==> r == s)
  {
    DropDotSlashShape(s);
    DropSlashesShape(DropDotSlash(s));
  }

  lemma NormalizeTrimmed(s: string)
    requires '\\' !in s && !("/" <= s)
    ensures |Normalized(s)| <= |Trim(s)|
    ensures "./" <= Trim(s) ==> |Normalized(s)| < |Trim(s)|
    ensures Trim(s) == s && !("./" <= s) ==> Normalized(s) == s
  {
    hide Trim, FlipSlashes, DropDotSlash, DropSlashes;
    TrimShape(s);
    assert FlipSlashes(Trim(s)) == Trim(s);
    StripNothing(Trim(s));
  }

  // ---- What is reported, and as what ----

  /** Layout rule `i` is the first that matches the path. */
  ghost predicate DescribedBy(rules: seq<Rule>, path: string, i: nat) {
    i < |rules| && path != "" && rules[i].matches(path) && forall j :: 0 <= j < i ==> !rules[j].matches(path)
  }

  lemma FrameworkIff(rules: seq<Rule>, path: string, i: nat)
    ensures DescribedBy(rules, Normalized(path), i) ==>
              FrameworkOf(rules, path) == Some((rules[i].framework, rules[i].kind))
    ensures FrameworkOf(rules, path).None? <==>
              Normalized(path) == "" || forall j :: 0 <= j < |rules| ==> !rules[j].matches(Normalized(path))
  {
    var p := Normalized(path);
    FirstRuleWins(rules, p);
    hide Normalized, FirstRule;
    if FirstRule(rules, p).Some? {
      var k :| 0 <= k < |rules| && IsFirst(rules, p, k)
               && FirstRule(rules, p) == Some((rules[k].framework, rules[k].kind));
      assert DescribedBy(rules, p, i) ==> i == k;
    } else {
      assert forall j :: 0 <= j < |rules| ==> rules[j] in rules;
    }
  }

  /**
   A normalised path is reported exactly when an include glob accepts it, or, without any, some layout matches it, and
   no exclude glob accepts it.
   */
  lemma ReportedIff(
      rules: seq<Rule>, paths: set<string>, includes: seq<string>, excludes: seq<string>, result: seq<DetectedFile>,
      path: string)
    requires IsDetection(rules, paths, includes, excludes, result)
    ensures path in PathsOf(result) <==>
            && path in paths && path != ""
            && (if includes != [] then exists i :: 0 <= i < |includes| && Accepts(GlobParts(includes[i]), path)
                else Normalized(path) != "" && exists i :: 0 <= i < |rules| && rules[i].matches(Normalized(path)))
            && (forall i :: 0 <= i < |excludes| ==> !Accepts(GlobParts(excludes[i]), path))
  {
    FrameworkIff(rules, path, 0);
    AcceptedByIndex(path, includes);
    AcceptedByIndex(path, excludes);
    hide Accepts, MatchesAny, FrameworkOf, Normalized, GlobParts, Describe, Sorted, Distinct;
  }

  lemma AcceptedByIndex(path: string, globs: seq<string>)
    ensures MatchesAny(path, globs) <==> exists i :: 0 <= i < |globs| && Accepts(GlobParts(globs[i]), path)
  {
    hide Accepts, GlobParts;
    if MatchesAny(path, globs) {
      var glob :| glob in globs && Accepts(GlobParts(glob), path);
      var i :| 0 <= i < |globs| && globs[i] == glob;
      assert Accepts(GlobParts(globs[i]), path);
    }
    if i :| 0 <= i < |globs| && Accepts(GlobParts(globs[i]), path) {
      assert globs[i] in globs;
    }
  }

  /** The last `n` characters are, in whatever case, the extension of a migration language. */
  predicate EndsInDsl(path: string, n: nat) {
    n <= |path| && IsDslExtension(Lower(path[|path| - n..]))
  }

  predicate EndsAsDsl(path: string) {
    exists n :: 0 <= n <= |path| && EndsInDsl(path, n)
  }

  /** An extension is a dot and what follows it, with no other dot and no separator. */
  lemma DslExtensionShape(extension: string)
    requires IsDslExtension(extension)
    ensures extension != "" && extension[0] == '.'
    ensures forall i :: 0 < i < |extension| ==> extension[i] != '.'
    ensures '/' !in extension
  {}

  /** A configured path that no layout describes is read as code exactly by its extension. */
  lemma ConfiguredKindIff(path: string)
    ensures ConfiguredKind(path) == (Configured, if EndsAsDsl(path) then Dsl else Sql)
  {
    var dot, slash := LastIndexOf('.', path), LastIndexOf('/', path);
    hide IsDslExtension, Lower, EndsAsDsl, LastIndexOf;
    NoEmptyExtension();
    EndsAsDslIff(path, dot, slash);
  }

  lemma EndsAsDslIff(path: string, dot: int, slash: int)
    requires -1 <= dot < |path| && (dot >= 0 ==> path[dot] == '.')
    requires forall i :: dot < i < |path| ==> path[i] != '.'
    requires -1 <= slash < |path| && (slash >= 0 ==> path[slash] == '/')
    ensures EndsAsDsl(path) <==> dot > slash && IsDslExtension(Lower(path[dot..]))
  {
    hide IsDslExtension, Lower, EndsInDsl;
    if dot > slash {
      OwnExtension(path, dot);
    }
    forall n | 0 <= n <= |path| && EndsInDsl(path, n) ensures dot == |path| - n && slash < dot {
      ExtensionStart(path, n, dot, slash);
    }
  }

  lemma NoEmptyExtension()
    ensures !IsDslExtension("")
  {}

  lemma OwnExtension(path: string, dot: nat)
    requires dot < |path|
    ensures EndsInDsl(path, |path| - dot) <==> IsDslExtension(Lower(path[dot..]))
  {
    hide IsDslExtension, Lower;
  }

  lemma ExtensionStart(path: string, n: nat, dot: int, slash: int)
    requires EndsInDsl(path, n)
    requires -1 <= dot < |path| && (dot >= 0 ==> path[dot] == '.')
    requires forall i :: dot < i < |path| ==> path[i] != '.'
    requires -1 <= slash < |path| && (slash >= 0 ==> path[slash] == '/')
    ensures dot == |path| - n && slash < dot
  {
    var start := |path| - n;
    var suffix := path[start..];
    DslExtensionShape(Lower(suffix));
    hide IsDslExtension;
    assert path[start] == suffix[0] && suffix[0] == Lower(suffix)[0];
    forall i | start < i < |path| ensures path[i] != '.' && path[i] != '/' {
      assert path[i] == suffix[i - start] && Lower(suffix)[i - start] in Lower(suffix);
    }
  }

  /** A reported file carries its first layout's framework and kind, or those of a configured path. */
  lemma ReportedAs(
      rules: seq<Rule>, paths: set<string>, includes: seq<string>, excludes: seq<string>, result: seq<DetectedFile>,
      file: DetectedFile, i: nat)
    requires IsDetection(rules, paths, includes, excludes, result) && file in result
    ensures DescribedBy(rules, Normalized(file.path), i) ==>
              file.framework == rules[i].framework && file.kind == rules[i].kind
    ensures (forall j :: 0 <= j < |rules| ==> !rules[j].matches(Normalized(file.path))) ==>
              file.framework == Configured && file.kind == if EndsAsDsl(file.path) then Dsl else Sql
  {
    FrameworkIff(rules, file.path, i);
    ConfiguredKindIff(file.path);
    hide FrameworkOf, Normalized, ConfiguredKind, Selected, Sorted, Distinct, PathsOf, EndsAsDsl;
  }
}
