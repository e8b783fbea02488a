/** Path globs (`ci/detect.py`): the index-driven compiler to a regex, and what the regex means. */
module Glob {
  import opened Regex
  import opened Text

  // ---- Paths ----

  function FlipSlashes(s: string): (r: string)
    ensures |r| == |s|
    ensures forall i :: 0 <= i < |s| ==> r[i] == if s[i] == '\\' then '/' else s[i]
  {
    seq(|s|, i requires 0 <= i < |s| => if s[i] == '\\' then '/' else s[i])
  }

  function DropDotSlash(s: string): string {
    if "./" <= s then DropDotSlash(s[2..]) else s
  }

  function DropSlashes(s: string): string {
    if "/" <= s then DropSlashes(s[1..]) else s
  }

  function Normalized(path: string): string {
    DropSlashes(DropDotSlash(FlipSlashes(Trim(path))))
  }

  method NormalizePath(path: string) returns (text: string)
    ensures text == Normalized(path)
  {
    text := FlipSlashes(Trim(path));
    while "./" <= text
      invariant DropDotSlash(text) == DropDotSlash(FlipSlashes(Trim(path)))
      decreases |text|
    {
      text := text[2..];
    }
    text := DropSlashes(text);
  }

  // ---- The compiler ----

  const NOT_SLASH := One(Except('/'))
  const SEGMENT_CHARS := Many(NOT_SLASH)                                           // [^/]*
  const DIRECTORY := Cat(Cat(NOT_SLASH, SEGMENT_CHARS), One(Only('/')))            // [^/]+/
  const DIRECTORIES := Many(DIRECTORY)                                             // (?:[^/]+/)*
  const ANYTHING := Many(One(Except('\n')))                                        // .*

  datatype Token =
    | Star
    | DoubleStar
    | AnyChar
    | Bracket(negated: bool, body: string)
    | Literal(c: char)

  /** Index of the first `c` at or after `from`, or `|s|` when there is none. */
  function IndexOf(c: char, s: string, from: nat): (k: nat)
    requires from <= |s|
    ensures from <= k <= |s|
    ensures c !in s[from..k]
    ensures k < |s| ==> s[k] == c
    decreases |s| - from
  {
    if from == |s| || s[from] == c then from else IndexOf(c, s, from + 1)
  }

  function BracketToken(body: string): Token {
    if "!" <= body || "^" <= body then Bracket(true, body[1..]) else Bracket(false, body)
  }

  /** The token at index `i`, and the index after it. */
  function TokenAt(glob: string, i: nat): (r: (Token, nat))
    requires i < |glob|
    ensures i < r.1 <= |glob|
    ensures r.0 == Literal('/') <==> glob[i] == '/'
    ensures glob[i] == '/' ==> r.1 == i + 1
  {
    if glob[i] == '*' then
      if i + 1 < |glob| && glob[i + 1] == '*' then (DoubleStar, i + 2) else (Star, i + 1)
    else if glob[i] == '?' then (AnyChar, i + 1)
    else if glob[i] == '[' then
      var close := IndexOf(']', glob, i + 1);
      if close < |glob| then (BracketToken(glob[i + 1..close]), close + 1) else (Literal('['), i + 1)
    else (Literal(glob[i]), i + 1)
  }

  /** The tokens from index `i` on. */
  function Lex(glob: string, i: nat := 0): seq<Token>
    requires i <= |glob|
    decreases |glob| - i
  {
    if i == |glob| then []
    else
      var (token, next) := TokenAt(glob, i);
      [token] + Lex(glob, next)
  }

  function CharSetOf(t: Token): CharSet
    requires !t.Star? && !t.DoubleStar?
  {
    match t
    case AnyChar => Except('/')
    case Bracket(negated, body) => Members(negated, body)
    case Literal(c) => Only(c)
  }

  /** The regex parts for a token list: `**` swallows the separator after it. */
  function Compile(ts: seq<Token>): seq<Re> {
    if ts == [] then []
    else if ts[0].DoubleStar? then
      if |ts| > 1 && ts[1] == Literal('/') then [DIRECTORIES] + Compile(ts[2..])
      else [ANYTHING] + Compile(ts[1..])
    else if ts[0].Star? then [SEGMENT_CHARS] + Compile(ts[1..])
    else [One(CharSetOf(ts[0]))] + Compile(ts[1..])
  }

  function GlobParts(pattern: string): seq<Re> {
    Compile(Lex(Normalized(pattern)))
  }

  lemma CompileCons(t: Token, ts: seq<Token>)
    ensures Compile([t] + ts) ==
            if !t.DoubleStar? then [if t.Star? then SEGMENT_CHARS else One(CharSetOf(t))] + Compile(ts)
            else if ts != [] && ts[0] == Literal('/') then [DIRECTORIES] + Compile(ts[1..])
            else [ANYTHING] + Compile(ts)
  {
    var all := [t] + ts;
    assert all[1..] == ts;
    assert |all| > 1 ==> all[2..] == ts[1..];
  }

  /** The regex part written at index `i`, and the index after the text it stands for. */
  function PartAt(glob: string, i: nat): (r: (Re, nat))
    requires i < |glob|
    ensures i < r.1 <= |glob|
  {
    var (token, next) := TokenAt(glob, i);
    if token.DoubleStar? then
      if next < |glob| && glob[next] == '/' then (DIRECTORIES, next + 1) else (ANYTHING, next)
    else (if token.Star? then SEGMENT_CHARS else One(CharSetOf(token)), next)
  }

  lemma CompileAt(glob: string, i: nat)
    requires i < |glob|
    ensures var (part, next) := PartAt(glob, i); Compile(Lex(glob, i)) == [part] + Compile(Lex(glob, next))
  {
    var (token, next) := TokenAt(glob, i);
    CompileCons(token, Lex(glob, next));
    if next < |glob| {
      var (second, after) := TokenAt(glob, next);
      assert Lex(glob, next) == [second] + Lex(glob, after);
      assert Lex(glob, next)[1..] == Lex(glob, after);
    }
  }

  /** One turn of the scanner: the part for the text at `index`, and where the next turn starts. */
  method ScanPart(glob: string, start: nat) returns (part: Re, index: nat)
    requires start < |glob|
    ensures (part, index) == PartAt(glob, start)
  {
    index := start;
    var c := glob[index];
    if c == '*' {
      if index + 1 < |glob| && glob[index + 1] == '*' {
        index := index + 2;
        if index < |glob| && glob[index] == '/' {
          index := index + 1;
          part := DIRECTORIES;
        } else {
          part := ANYTHING;
        }
      } else {
        index := index + 1;
        part := SEGMENT_CHARS;
      }
    } else if c == '?' {
      index := index + 1;
      part := NOT_SLASH;
    } else if c == '[' {
      var close := IndexOf(']', glob, index + 1);
      if close == |glob| {
        index := index + 1;
        part := One(Only('['));
      } else {
        var body := glob[index + 1..close];
        index := close + 1;
        if "!" <= body || "^" <= body {
          part := One(Members(true, body[1..]));
        } else {
          part := One(Members(false, body));
        }
      }
    } else {
      index := index + 1;
      part := One(Only(c));
    }
  }

  method GlobToRegex(pattern: string) returns (parts: seq<Re>)
    ensures parts == GlobParts(pattern)
  {
    var normalized := NormalizePath(pattern);
    parts := [];
    var index := 0;
    while index < |normalized|
      invariant 0 <= index <= |normalized|
      invariant parts + Compile(Lex(normalized, index)) == GlobParts(pattern)
    {
      CompileAt(normalized, index);
      var part, next := ScanPart(normalized, index);
      ghost var tail := Compile(Lex(normalized, next));
      assert parts + ([part] + tail) == (parts + [part]) + tail;
      parts := parts + [part];
      index := next;
    }
  }
}
