/** What the text of a glob stands for, said without the scanner (`ci/detect.py`). */
module GlobText {
  import opened Regex
  import opened Text
  import opened Glob
  import opened GlobMeaning
  import opened GlobExact

  // ---- Spelling ----

  /** `text`, with `rest` after it in the glob, is how the token is written. */
  predicate Spells(text: string, t: Token, rest: string) {
    match t
    case Star => text == "*" && !("*" <= rest)
    case DoubleStar => text == "**"
    case AnyChar => text == "?"
    case Bracket(negated, body) =>
      && ']' !in body
      && if negated then text == "[!" + body + "]" || text == "[^" + body + "]"
         else text == "[" + body + "]" && !("!" <= body) && !("^" <= body)
    case Literal(c) => text == [c] && c != '*' && c != '?' && (c == '[' ==> ']' !in rest)
  }

  /** The glob is the spelling of the tokens, one after the other. */
  ghost predicate Spelled(glob: string, ts: seq<Token>)
    decreases |ts|
  {
    if ts == [] then glob == ""
    else exists n :: 0 < n <= |glob| && Spells(glob[..n], ts[0], glob[n..]) && Spelled(glob[n..], ts[1..])
  }

  /** The scanner's first token is the one the text spells, and no text spells two. */
  lemma FirstTokenIff(glob: string, t: Token, n: nat)
    requires 0 < n <= |glob|
    ensures TokenAt(glob, 0) == (t, n) <==> Spells(glob[..n], t, glob[n..])
  {
    if glob[0] == '[' {
      BracketIff(glob, t, n);
    } else {
      assert glob[..n][0] == glob[0];
      assert n == 2 ==> glob[..2] == [glob[0], glob[1]];
      assert n == 1 ==> glob[..1] == [glob[0]];
      assert n < |glob| ==> glob[n..][0] == glob[n];
    }
  }

  lemma BracketIff(glob: string, t: Token, n: nat)
    requires 0 < n <= |glob| && glob[0] == '['
    ensures TokenAt(glob, 0) == (t, n) <==> Spells(glob[..n], t, glob[n..])
  {
    var close := IndexOf(']', glob, 1);
    hide IndexOf;
    if close == |glob| {
      UnclosedBracket(glob, t, n);
    } else {
      ClosedBracket(glob, t, n, close);
    }
  }

  lemma UnclosedBracket(glob: string, t: Token, n: nat)
    requires 0 < n <= |glob| && glob[0] == '[' && ']' !in glob[1..]
    ensures Spells(glob[..n], t, glob[n..]) <==> t == Literal('[') && n == 1
  {
    var text := glob[..n];
    assert glob == ['['] + glob[1..];
    assert ']' !in text;
    assert text[0] == '[';
    if t.Bracket? {
      assert ']' in "[" + t.body + "]" && ']' in "[!" + t.body + "]" && ']' in "[^" + t.body + "]";
    }
  }

  /** Up to its first `]`, a bracket's text is its list. */
  lemma ClosedBracket(glob: string, t: Token, n: nat, close: nat)
    requires 0 < n <= |glob| && 1 <= close < |glob|
    requires glob[0] == '[' && glob[close] == ']' && ']' !in glob[1..close]
    ensures Spells(glob[..n], t, glob[n..]) <==> (t, n) == (BracketToken(glob[1..close]), close + 1)
  {
    var body := glob[1..close];
    var text := glob[..n];
    assert text[0] == '[';
    assert t == Literal('[') && n == 1 ==> glob[n..][close - 1] == ']';
    if n == close + 1 {
      assert text == "[" + body + "]";
      WholeBracket(body, t, glob[n..]);
    } else if n <= close {
      assert forall k :: 1 <= k < n ==> text[k] == body[k - 1];
      assert text[n - 1] != ']';
    } else {
      assert text[close] == ']';
    }
  }

  lemma WholeBracket(body: string, t: Token, rest: string)
    requires ']' !in body
    ensures Spells("[" + body + "]", t, rest) <==> t == BracketToken(body)
  {
    var text := "[" + body + "]";
    assert |text| >= 2 && text[0] == '[' && text[1..|body| + 1] == body;
    assert body != "" ==> body == [body[0]] + body[1..];
    if t.Bracket? {
      InsideBracket(t.body);
    }
  }

  lemma InsideBracket(body: string)
    ensures ("[" + body + "]")[1..|body| + 1] == body
    ensures ("[!" + body + "]")[1..|body| + 2] == "!" + body && ("[^" + body + "]")[1..|body| + 2] == "^" + body
    ensures ("!" + body)[1..] == body && ("^" + body)[1..] == body
  {}

  /** Lexing a glob gives exactly the tokens it spells. */
  lemma {:induction false} LexIff(glob: string, ts: seq<Token>)
    ensures Lex(glob) == ts <==> Spelled(glob, ts)
    decreases |glob|
  {
    if glob != "" {
      var (t, n) := TokenAt(glob, 0);
      var rest := glob[n..];
      LexSuffix(glob, n, 0);
      assert Lex(glob) == [t] + Lex(rest);
      FirstTokenIff(glob, t, n);
      if ts != [] {
        LexIff(rest, ts[1..]);
        assert ts == [ts[0]] + ts[1..];
        forall k | 0 < k <= |glob| && Spells(glob[..k], ts[0], glob[k..]) ensures k == n && ts[0] == t {
          FirstTokenIff(glob, ts[0], k);
        }
        hide Lex, TokenAt, Spells;
      }
    }
  }

  // ---- What a token takes ----

  /** The list inside a bracket: single characters, and ranges with a dash between two. */
  ghost predicate Listed(body: string, c: char) {
    ListedAfter(body, 0, c)
  }

  predicate RangeAt(body: string, i: nat) {
    i + 2 < |body| && body[i + 1] == '-'
  }

  /** Reading whole items from `from` on, one begins at `i`. */
  predicate ItemFrom(body: string, from: nat, i: nat)
    requires from <= |body|
    decreases |body| - from
  {
    from == i || (from < |body| && ItemFrom(body, from + (if RangeAt(body, from) then 3 else 1), i))
  }

  predicate TakenByItem(body: string, i: nat, c: char)
    requires i < |body|
  {
    if RangeAt(body, i) then body[i] <= c <= body[i + 2] else c == body[i]
  }

  ghost predicate ListedAfter(body: string, from: nat, c: char)
    requires from <= |body|
  {
    exists i :: 0 <= i < |body| && ItemFrom(body, from, i) && TakenByItem(body, i, c)
  }

  lemma {:induction false} ListedFrom(body: string, from: nat, c: char)
    requires from <= |body|
    ensures InBody(body[from..], c) <==> ListedAfter(body, from, c)
    decreases |body| - from
  {
    if from < |body| {
      var rest, next := body[from..], from + if RangeAt(body, from) then 3 else 1;
      ListedFrom(body, next, c);
      assert rest[0] == body[from] && (RangeAt(body, from) <==> |rest| >= 3 && rest[1] == '-');
      assert rest[next - from..] == body[next..];
      assert InBody(rest, c) <==> TakenByItem(body, from, c) || InBody(body[next..], c);
      hide InBody;
      ListedStep(body, from, next, c);
    }
  }

  lemma ListedStep(body: string, from: nat, next: nat, c: char)
    requires from < |body| && next == from + if RangeAt(body, from) then 3 else 1
    ensures ListedAfter(body, from, c) <==> TakenByItem(body, from, c) || ListedAfter(body, next, c)
  {
    assert next <= |body|;
    hide TakenByItem, RangeAt;
    assert forall i :: ItemFrom(body, from, i) <==> from == i || ItemFrom(body, next, i);
    if TakenByItem(body, from, c) {
      assert ItemFrom(body, from, from);
    }
  }

  /** The text one token other than `**` takes from a path segment. */
  ghost predicate Takes(t: Token, text: string) {
    match t
    case Star => true
    case DoubleStar => false
    case AnyChar => |text| == 1 && text[0] != '/'
    case Bracket(negated, body) => |text| == 1 && (Listed(body, text[0]) <==> !negated)
    case Literal(c) => text == [c]
  }

  /** The tokens take the segment, one after the other. */
  ghost predicate Fills(ts: seq<Token>, s: string) {
    if ts == [] then s == ""
    else exists k :: 0 <= k <= |s| && Takes(ts[0], s[..k]) && Fills(ts[1..], s[k..])
  }

  lemma TakesOne(t: Token, text: string)
    requires !t.Star? && !t.DoubleStar?
    ensures Takes(t, text) <==> |text| == 1 && Has(CharSetOf(t), text[0])
  {
    if t.Bracket? && |text| == 1 {
      ListedFrom(t.body, 0, text[0]);
      assert t.body[0..] == t.body;
    }
    hide InBody, ListedAfter;
  }

  lemma {:induction false} SegmentMatchesIff(ts: seq<Token>, s: string)
    requires DoubleStar !in ts
    ensures SegmentMatches(ts, s) <==> Fills(ts, s)
    decreases |ts|, |s|
  {
    if ts != [] {
      if ts[0].Star? {
        StarFills(ts, s);
      } else {
        forall k | 0 <= k <= |s| ensures Takes(ts[0], s[..k]) <==> k == 1 && Has(CharSetOf(ts[0]), s[0]) {
          TakesOne(ts[0], s[..k]);
        }
        if s != "" {
          SegmentMatchesIff(ts[1..], s[1..]);
        }
        hide Has, CharSetOf, Takes;
      }
    }
  }

  lemma {:induction false} StarFills(ts: seq<Token>, s: string)
    requires DoubleStar !in ts && ts != [] && ts[0].Star?
    ensures SegmentMatches(ts, s) <==> Fills(ts, s)
    decreases |ts|, |s|, 0
  {
    SegmentMatchesIff(ts[1..], s);
    assert s[0..] == s;
    if s != "" {
      StarFills(ts, s[1..]);
      if k :| 0 < k <= |s| && Fills(ts[1..], s[k..]) {
        assert s[1..][k - 1..] == s[k..];
      }
      if k :| 0 <= k <= |s[1..]| && Fills(ts[1..], s[1..][k..]) {
        assert s[1..][k..] == s[k + 1..];
      }
    }
  }

  // ---- Whole paths ----

  /**
   A path, segment by segment: a `**` before other segments skips any number of nonempty directories, a final one
   takes whatever is left, and every other segment of the glob takes one segment of the path.
   */
  ghost predicate PathFills(glob: seq<seq<Token>>, path: seq<string>)
    decreases |glob|
  {
    if glob == [] then path == []
    else if glob == [[DoubleStar]] then path != []
    else if glob[0] == [DoubleStar] then
      exists k :: 0 <= k <= |path| && "" !in path[..k] && PathFills(glob[1..], path[k..])
    else path != [] && Fills(glob[0], path[0]) && PathFills(glob[1..], path[1..])
  }

  lemma {:induction false} PathMatchesIff(glob: seq<seq<Token>>, path: seq<string>)
    requires WholeStars(glob)
    ensures PathMatches(glob, path) <==> PathFills(glob, path)
    decreases |glob|, |path|
  {
    if glob != [] && glob != [[DoubleStar]] {
      if glob[0] == [DoubleStar] {
        DirectoriesFill(glob, path);
      } else if path != [] {
        assert glob[0] in glob;
        SegmentMatchesIff(glob[0], path[0]);
        PathMatchesIff(glob[1..], path[1..]);
      }
    } else if glob != [] {
      assert glob[1..] == [];
    }
  }

  lemma {:induction false} DirectoriesFill(glob: seq<seq<Token>>, path: seq<string>)
    requires WholeStars(glob) && |glob| > 1 && glob[0] == [DoubleStar]
    ensures PathMatches(glob, path) <==> PathFills(glob, path)
    decreases |glob|, |path|, 0
  {
    var rest := glob[1..];
    PathMatchesIff(rest, path);
    assert path[0..] == path;
    if path == [] {
      assert !PathFills(rest, []) by {
        NothingLeft(rest);
      }
    } else {
      DirectoriesFill(glob, path[1..]);
      forall k | 0 < k <= |path|
        ensures path[1..][k - 1..] == path[k..] && ("" !in path[..k] <==> path[0] != "" && "" !in path[1..][..k - 1])
      {
        assert path[..k] == [path[0]] + path[1..][..k - 1];
      }
      hide WholeStars;
      if k :| 0 < k <= |path| && "" !in path[..k] && PathFills(rest, path[k..]) {
        assert PathFills(rest, path[1..][k - 1..]);
      }
      if k :| 0 <= k <= |path| - 1 && "" !in path[1..][..k] && PathFills(rest, path[1..][k..]) {
        assert path[1..][k..] == path[k + 1..];
      }
    }
  }

  /** At least one segment of the path is needed. */
  lemma {:induction false} NothingLeft(glob: seq<seq<Token>>)
    requires glob != []
    ensures !PathFills(glob, [])
  {
    if |glob| > 1 {
      NothingLeft(glob[1..]);
    }
  }

  /** No bracket of the glob takes a separator. */
  ghost predicate BracketsStayInSegments(ts: seq<Token>) {
    forall t <- ts :: t.Bracket? ==> !Takes(t, "/")
  }

  /**
   The whole compiler against the text of the pattern: a newline-free path is accepted exactly when its segments are
   taken by the tokens that the pattern spells.
   */
  lemma PatternMeansItsText(pattern: string, ts: seq<Token>, path: string)
    requires Spelled(Normalized(pattern), ts) && WholeStars(Segments(ts)) && BracketsStayInSegments(ts)
    requires '\n' !in path
    ensures Accepts(GlobParts(pattern), path) <==> PathFills(Segments(ts), Split('/', path))
  {
    LexIff(Normalized(pattern), ts);
    forall t <- ts | t.Bracket? ensures !Has(CharSetOf(t), '/') {
      TakesOne(t, "/");
    }
    CompiledMeansSegments(ts, path);
    PathMatchesIff(Segments(ts), Split('/', path));
  }

  /** Every pattern spells exactly one token list. */
  lemma EveryPatternIsSpelled(glob: string)
    ensures exists ts :: Spelled(glob, ts) && forall other :: Spelled(glob, other) ==> other == ts
  {
    LexIff(glob, Lex(glob));
    forall other | Spelled(glob, other) ensures other == Lex(glob) {
      LexIff(glob, other);
    }
  }
}
