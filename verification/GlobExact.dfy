/** Exactly which globs mean segment-wise matching, for patterns whose `**` fills whole segments. */
module GlobExact {
  import opened Regex
  import opened Text
  import opened Glob
  import opened GlobMeaning

  ghost predicate MeansSegments(ts: seq<Token>)
    requires WholeStars(Segments(ts))
  {
    forall path: string | '\n' !in path ::
      Accepts(Compile(ts), path) <==> PathMatches(Segments(ts), Split('/', path))
  }

  ghost predicate HasChoice(t: Token) {
    t != Literal('\n') && (t.Bracket? ==> exists c :: c != '\n' && Has(CharSetOf(t), c))
  }

  /** No newline is written in the glob, and every bracket accepts something other than a newline. */
  ghost predicate Inhabited(ts: seq<Token>) {
    forall i :: 0 <= i < |ts| ==> HasChoice(ts[i])
  }

  // ---- Counting characters that are not separators ----

  function Needs(seg: seq<Token>): nat {
    if seg == [] then 0 else (if seg[0].Star? || seg[0].DoubleStar? then 0 else 1) + Needs(seg[1..])
  }

  function NeedsAll(glob: seq<seq<Token>>): nat {
    if glob == [] then 0 else Needs(glob[0]) + NeedsAll(glob[1..])
  }

  function TotalLength(path: seq<string>): nat {
    if path == [] then 0 else |path[0]| + TotalLength(path[1..])
  }

  lemma {:induction false} SegmentNeeds(ts: seq<Token>, s: string)
    requires DoubleStar !in ts && SegmentMatches(ts, s)
    ensures Needs(ts) <= |s|
    decreases |ts|, |s|
  {
    if ts != [] {
      if ts[0].Star? && !SegmentMatches(ts[1..], s) {
        SegmentNeeds(ts, s[1..]);
      } else {
        SegmentNeeds(ts[1..], if ts[0].Star? then s else s[1..]);
      }
    }
  }

  /** A path that matches has at least as many characters as the glob has one-character tokens. */
  lemma {:induction false} PathNeeds(glob: seq<seq<Token>>, path: seq<string>)
    requires WholeStars(glob) && PathMatches(glob, path)
    ensures NeedsAll(glob) <= TotalLength(path)
    decreases |glob|, |path|
  {
    if glob != [] {
      if glob[0] != [DoubleStar] {
        SegmentNeeds(glob[0], path[0]);
        PathNeeds(glob[1..], path[1..]);
      } else {
        assert Needs([DoubleStar]) == 0 == NeedsAll([]);
        if |glob| == 1 {
        } else if PathMatches(glob[1..], path) {
          PathNeeds(glob[1..], path);
        } else {
          PathNeeds(glob, path[1..]);
        }
      }
    }
  }

  // ---- A shortest accepted path, crossing a separator where a bracket allows it ----

  ghost function Choice(t: Token): (c: char)
    requires !t.Star? && !t.DoubleStar? && HasChoice(t)
    ensures Has(CharSetOf(t), c) && c != '\n'
    ensures t.Bracket? && Has(CharSetOf(t), '/') ==> c == '/'
  {
    match t
    case AnyChar => 'x'
    case Literal(c) => c
    case Bracket(_, _) => if Has(CharSetOf(t), '/') then '/' else var c :| c != '\n' && Has(CharSetOf(t), c); c
  }

  ghost function Shortest(ts: seq<Token>): string
    requires Inhabited(ts)
  {
    if ts == [] then ""
    else if ts[0].DoubleStar? then if |ts| > 1 && ts[1] == Literal('/') then Shortest(ts[2..]) else Shortest(ts[1..])
    else if ts[0].Star? then Shortest(ts[1..])
    else [Choice(ts[0])] + Shortest(ts[1..])
  }

  lemma {:induction false} ShortestAccepted(ts: seq<Token>)
    requires Inhabited(ts)
    ensures '\n' !in Shortest(ts) && Matches(Concat(Compile(ts)), Shortest(ts))
  {
    if ts != [] {
      var s, rest := Shortest(ts), ts[1..];
      assert ts == [ts[0]] + rest;
      CompileCons(ts[0], rest);
      if ts[0].DoubleStar? && |ts| > 1 && ts[1] == Literal('/') {
        ShortestAccepted(ts[2..]);
        assert rest[1..] == ts[2..];
        MatchDirectories(Concat(Compile(ts[2..])), s);
      } else {
        ShortestAccepted(rest);
        var tail := Concat(Compile(rest));
        if ts[0].DoubleStar? {
          MatchMany(One(Except('\n')), tail, s);
        } else if ts[0].Star? {
          MatchSegmentChars(tail, s);
        } else {
          MatchOne(CharSetOf(ts[0]), tail, s);
          assert s[1..] == Shortest(rest);
        }
      }
    }
  }

  lemma {:induction false} SplitLength(s: string)
    ensures TotalLength(Split('/', s)) == |s| - multiset(s)['/']
  {
    if s != "" {
      assert s == [s[0]] + s[1..];
      SplitLength(s[1..]);
      var rest := Split('/', s[1..]);
      if s[0] == '/' {
        assert Split('/', s)[1..] == rest;
      } else {
        assert Split('/', s)[1..] == rest[1..];
      }
    }
  }

  lemma {:induction false} ShortestIsShort(ts: seq<Token>)
    requires Inhabited(ts) && WholeStars(Segments(ts))
    ensures TotalLength(Split('/', Shortest(ts))) <= NeedsAll(Segments(ts))
    ensures !BracketsExclude(ts, '/') ==> TotalLength(Split('/', Shortest(ts))) < NeedsAll(Segments(ts))
  {
    if ts != [] {
      var t, rest, s := ts[0], ts[1..], Shortest(ts);
      assert ts == [t] + rest;
      SegmentsCons(t, rest);
      SplitLength(s);
      if t.DoubleStar? && rest != [] {
        assert Segments(ts)[0] in Segments(ts);
        SegmentsCons(rest[0], rest[1..]);
        assert rest == [rest[0]] + rest[1..] && rest[1..] == ts[2..];
        assert rest[0] == Literal('/');
        assert Segments(ts)[1..] == Segments(ts[2..]);
        assert Needs([DoubleStar]) == 0;
        ShortestIsShort(ts[2..]);
      } else if t.DoubleStar? {
        assert Shortest(rest) == "";
      } else {
        WholeStarsTail(t, rest);
        ShortestIsShort(rest);
        SplitLength(Shortest(rest));
        if !t.Star? {
          assert s == [Choice(t)] + Shortest(rest);
        }
      }
    }
  }

  // ---- The theorem ----

  /** For whole-segment `**`: the regex means segment-wise matching iff no bracket can match a separator. */
  lemma MeansSegmentsIff(ts: seq<Token>)
    requires WholeStars(Segments(ts)) && Inhabited(ts)
    ensures MeansSegments(ts) <==> BracketsExclude(ts, '/')
  {
    if BracketsExclude(ts, '/') {
      forall path: string | '\n' !in path
        ensures Accepts(Compile(ts), path) <==> PathMatches(Segments(ts), Split('/', path))
      {
        CompiledMeansSegments(ts, path);
      }
    } else {
      var path := Shortest(ts);
      ShortestAccepted(ts);
      ShortestIsShort(ts);
      if PathMatches(Segments(ts), Split('/', path)) {
        PathNeeds(Segments(ts), Split('/', path));
      }
    }
  }

  // ---- Reading the glob's own text segment by segment ----

  lemma {:induction false} IndexOfSuffix(c: char, s: string, i: nat, from: nat)
    requires i + from <= |s|
    ensures IndexOf(c, s[i..], from) == IndexOf(c, s, i + from) - i
    decreases |s| - i - from
  {
    if i + from < |s| && s[i + from] != c {
      IndexOfSuffix(c, s, i, from + 1);
    }
  }

  lemma TokenSuffix(glob: string, i: nat, j: nat)
    requires i + j < |glob|
    ensures TokenAt(glob[i..], j) == (TokenAt(glob, i + j).0, TokenAt(glob, i + j).1 - i)
  {
    IndexOfSuffix(']', glob, i, j + 1);
    var close := IndexOf(']', glob, i + j + 1);
    hide BracketToken, IndexOf;
    assert glob[i..][j + 1..close - i] == glob[i + j + 1..close];
  }

  lemma {:induction false} LexSuffix(glob: string, i: nat, j: nat)
    requires i + j <= |glob|
    ensures Lex(glob[i..], j) == Lex(glob, i + j)
    decreases |glob| - i - j
  {
    if i + j < |glob| {
      var next := TokenAt(glob, i + j).1;
      TokenSuffix(glob, i, j);
      LexSuffix(glob, i, next - i);
    }
  }

  function LexAll(pieces: seq<string>): seq<seq<Token>> {
    if pieces == [] then [] else [Lex(pieces[0])] + LexAll(pieces[1..])
  }

  lemma LexAllCons(piece: string, pieces: seq<string>)
    ensures LexAll([piece] + pieces) == [Lex(piece)] + LexAll(pieces)
  {
    assert ([piece] + pieces)[1..] == pieces;
  }

  /** No bracket of the glob has a separator written inside it. */
  predicate BracketsInSegments(ts: seq<Token>) {
    forall t <- ts :: t.Bracket? ==> '/' !in t.body
  }

  /** The glob's segments are the text between its separators, each lexed on its own. */
  lemma {:induction false} SegmentsOfText(glob: string)
    requires BracketsInSegments(Lex(glob))
    ensures Segments(Lex(glob)) == LexAll(Split('/', glob))
    decreases |glob|
  {
    if glob == "" {
      LexAllCons("", []);
      assert [""] + [] == [""] && [[]] + LexAll([]) == Segments([]);
    } else {
      var (t, n) := TokenAt(glob, 0);
      var rest := glob[n..];
      var tail := Split('/', rest);
      LexSuffix(glob, n, 0);
      assert Lex(glob) == [t] + Lex(rest);
      TokenText(glob);
      hide TokenAt, Lex, LexAll;
      SegmentsCons(t, Lex(rest));
      SegmentsOfText(rest);
      if glob[0] == '/' {
        assert Split('/', glob) == [[]] + tail;
        LexAllCons("", tail);
      } else {
        SplitAfter(glob, n);
        SplitHead('/', rest);
        LexFirstPiece(glob, tail[0]);
        LexAllCons(glob[..n] + tail[0], tail[1..]);
        LexAllCons(tail[0], tail[1..]);
        assert [tail[0]] + tail[1..] == tail;
      }
    }
  }

  /** A token's text holds a separator only if it is one, or a bracket around one. */
  lemma TokenText(glob: string)
    requires glob != ""
    ensures var (t, n) := TokenAt(glob, 0);
            glob[0] != '/' && (t.Bracket? ==> '/' !in t.body) ==> '/' !in glob[..n]
  {
    var close := IndexOf(']', glob, 1);
    var (t, n) := TokenAt(glob, 0);
    hide IndexOf;
    if t.Bracket? {
      var body := glob[1..close];
      assert glob[..n] == ['['] + body + [']'];
      assert body == t.body || body == [body[0]] + t.body;
    }
  }

  lemma LexFirstPiece(glob: string, tail: string)
    requires glob != "" && glob[0] != '/'
    requires var (t, n) := TokenAt(glob, 0); tail <= glob[n..] && (n < |glob| && tail == "" ==> glob[n] == '/')
    ensures var (t, n) := TokenAt(glob, 0); Lex(glob[..n] + tail) == [t] + Lex(tail)
  {
    var (t, n) := TokenAt(glob, 0);
    var first := glob[..n] + tail;
    SameFirstToken(glob, first);
    assert first[n..] == tail;
    LexSuffix(first, n, 0);
  }

  /** The first token depends only on its own text and the character after it. */
  lemma SameFirstToken(glob: string, first: string)
    requires glob != "" && first <= glob
    requires var n := TokenAt(glob, 0).1; n <= |first| && (n < |glob| && n == |first| ==> glob[n] == '/')
    ensures TokenAt(first, 0) == TokenAt(glob, 0)
  {
    IndexOfPrefix(']', first, glob, 1);
    var close := IndexOf(']', glob, 1);
    hide IndexOf, BracketToken;
    assert close < |first| ==> first[1..close] == glob[1..close];
  }

  lemma {:induction false} IndexOfPrefix(c: char, first: string, s: string, from: nat)
    requires first <= s && from <= |first|
    ensures IndexOf(c, first, from) == if IndexOf(c, s, from) < |first| then IndexOf(c, s, from) else |first|
    decreases |first| - from
  {
    if from < |first| && first[from] != c {
      IndexOfPrefix(c, first, s, from + 1);
    }
  }

  lemma {:induction false} SplitAfter(s: string, n: nat)
    requires n <= |s| && '/' !in s[..n]
    ensures Split('/', s) == [s[..n] + Split('/', s[n..])[0]] + Split('/', s[n..])[1..]
  {
    if n == 0 {
      assert s[0..] == s;
      var all := Split('/', s);
      assert "" + all[0] == all[0] && [all[0]] + all[1..] == all;
    } else {
      assert s[0] in s[..n];
      assert s[..n] == [s[0]] + s[1..][..n - 1] && s[1..][n - 1..] == s[n..];
      SplitAfter(s[1..], n - 1);
      var tail := Split('/', s[n..]);
      assert [s[0]] + (s[1..][..n - 1] + tail[0]) == s[..n] + tail[0];
    }
  }

  /**
   The whole compiler on a pattern whose brackets neither hold nor match a separator, with both the glob and the path
   read segment by segment.
   */
  lemma PlainGlobMeansSegments(pattern: string, path: string)
    requires var glob := Normalized(pattern);
             && BracketsInSegments(Lex(glob)) && BracketsExclude(Lex(glob), '/')
             && WholeStars(LexAll(Split('/', glob)))
    requires '\n' !in path
    ensures Accepts(GlobParts(pattern), path) <==>
            PathMatches(LexAll(Split('/', Normalized(pattern))), Split('/', path))
  {
    var glob := Normalized(pattern);
    SegmentsOfText(glob);
    CompiledMeansSegments(Lex(glob), path);
  }

  /** The glob `[!b]` is one segment of one character, yet its regex accepts the two empty segments of `/`. */
  lemma NegatedBracketCrossesSeparator()
    ensures var ts := [Bracket(true, "b")];
            WholeStars(Segments(ts)) && Accepts(Compile(ts), "/") && !PathMatches(Segments(ts), Split('/', "/"))
  {
    var t := Bracket(true, "b");
    CompileCons(t, []);
    SegmentsCons(t, []);
    assert [t] + [] == [t];
    assert !InBody("b", '/');
    MatchOne(CharSetOf(t), Empty, "/");
    assert Split('/', "/") == [[]] + Split('/', "/"[1..]);
  }
}
