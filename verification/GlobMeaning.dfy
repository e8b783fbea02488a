/** What a compiled glob accepts, said segment by segment. */
module GlobMeaning {
  import opened Regex
  import opened Text
  import opened Glob

  // ---- The reference semantics ----

  /** One path segment against one glob segment. */
  predicate SegmentMatches(ts: seq<Token>, s: string)
    requires DoubleStar !in ts
    decreases |ts|, |s|
  {
    if ts == [] then s == ""
    else if ts[0].Star? then SegmentMatches(ts[1..], s) || (s != "" && SegmentMatches(ts, s[1..]))
    else s != "" && Has(CharSetOf(ts[0]), s[0]) && SegmentMatches(ts[1..], s[1..])
  }

  /** `**` occupies whole segments only. */
  predicate WholeStars(glob: seq<seq<Token>>) {
    forall seg <- glob :: DoubleStar in seg ==> seg == [DoubleStar]
  }

  /**
   A path, as its list of segments, against a glob, as its list of segments: a `**` before other segments
   stands for any number of nonempty directories, a final `**` for one or more remaining segments.
   */
  predicate PathMatches(glob: seq<seq<Token>>, path: seq<string>)
    requires WholeStars(glob)
    decreases |glob|, |path|
  {
    if glob == [] then path == []
    else if path == [] then false
    else if glob[0] == [DoubleStar] then
      || |glob| == 1
      || PathMatches(glob[1..], path)
      || (path[0] != "" && PathMatches(glob, path[1..]))
    else
      SegmentMatches(glob[0], path[0]) && PathMatches(glob[1..], path[1..])
  }

  function Segments(ts: seq<Token>): seq<seq<Token>> {
    Split(Literal('/'), ts)
  }

  predicate BracketsExclude(ts: seq<Token>, c: char) {
    forall t <- ts :: t.Bracket? ==> !Has(CharSetOf(t), c)
  }

  // ---- Unfolding the regex language ----

  lemma MatchOne(cs: CharSet, rest: Re, s: string)
    ensures Matches(Cat(One(cs), rest), s) <==> s != "" && Has(cs, s[0]) && Matches(rest, s[1..])
  {
    if s != "" && Has(cs, s[0]) && Matches(rest, s[1..]) {
      assert Matches(One(cs), s[..1]);
    }
  }

  lemma Slices(s: string, k: nat, j: nat)
    requires k + j <= |s|
    ensures s[..k + j][..k] == s[..k] && s[..k + j][k..] == s[k..][..j] && s[k..][j..] == s[k + j..]
  {}

  lemma MatchMany(a: Re, rest: Re, s: string)
    ensures Matches(Cat(Many(a), rest), s) <==>
            Matches(rest, s) || exists k :: 0 < k <= |s| && Matches(a, s[..k]) && Matches(Cat(Many(a), rest), s[k..])
  {
    if Matches(Cat(Many(a), rest), s) {
      var k := MatchManySplit(a, rest, s);
    }
    if Matches(rest, s) {
      assert s[..0] == "" && s[0..] == s;
    }
    forall k | 0 < k <= |s| && Matches(a, s[..k]) && Matches(Cat(Many(a), rest), s[k..])
      ensures Matches(Cat(Many(a), rest), s)
    {
      MatchManyJoin(a, rest, s, k);
    }
  }

  lemma MatchManySplit(a: Re, rest: Re, s: string) returns (k: nat)
    requires Matches(Cat(Many(a), rest), s)
    ensures k <= |s|
    ensures if k == 0 then Matches(rest, s) else Matches(a, s[..k]) && Matches(Cat(Many(a), rest), s[k..])
  {
    var j :| 0 <= j <= |s| && Matches(Many(a), s[..j]) && Matches(rest, s[j..]);
    if j == 0 {
      assert s[0..] == s;
      k := 0;
    } else {
      k :| 0 < k <= j && Matches(a, s[..j][..k]) && Matches(Many(a), s[..j][k..]);
      Slices(s, k, j - k);
      assert 0 <= j - k <= |s[k..]|;
    }
  }

  lemma MatchManyJoin(a: Re, rest: Re, s: string, k: nat)
    requires 0 < k <= |s| && Matches(a, s[..k]) && Matches(Cat(Many(a), rest), s[k..])
    ensures Matches(Cat(Many(a), rest), s)
  {
    var tail := s[k..];
    var j :| 0 <= j <= |tail| && Matches(Many(a), tail[..j]) && Matches(rest, tail[j..]);
    Slices(s, k, j);
    assert Matches(Many(a), s[..k + j]);
  }

  /** `[^/]*`: stop here, or take one more character that is not `/`. */
  lemma MatchSegmentChars(rest: Re, s: string)
    ensures Matches(Cat(SEGMENT_CHARS, rest), s) <==>
            Matches(rest, s) || (s != "" && s[0] != '/' && Matches(Cat(SEGMENT_CHARS, rest), s[1..]))
  {
    MatchMany(NOT_SLASH, rest, s);
    if s != "" && s[0] != '/' && Matches(Cat(SEGMENT_CHARS, rest), s[1..]) {
      assert Matches(NOT_SLASH, s[..1]);
    }
  }

  lemma {:induction false} SegmentCharsLanguage(s: string)
    ensures Matches(SEGMENT_CHARS, s) <==> '/' !in s
  {
    if s != "" {
      SegmentCharsLanguage(s[1..]);
      assert s == [s[0]] + s[1..];
      if '/' !in s {
        assert Matches(NOT_SLASH, s[..1]);
      }
    }
  }

  lemma {:induction false} AnythingLanguage(s: string)
    requires '\n' !in s
    ensures Matches(ANYTHING, s)
  {
    if s != "" {
      AnythingLanguage(s[1..]);
      assert Matches(One(Except('\n')), s[..1]);
    }
  }

  lemma NameLanguage(s: string)
    ensures Matches(Cat(NOT_SLASH, SEGMENT_CHARS), s) <==> s != "" && '/' !in s
  {
    MatchOne(Except('/'), SEGMENT_CHARS, s);
    if s != "" {
      SegmentCharsLanguage(s[1..]);
      assert s == [s[0]] + s[1..];
    }
  }

  /** `[^/]+/` is one nonempty directory name and its separator. */
  lemma DirectoryLanguage(s: string)
    ensures Matches(DIRECTORY, s) <==> |s| > 1 && s[|s| - 1] == '/' && '/' !in s[..|s| - 1]
  {
    forall k | 0 <= k <= |s| {
      NameLanguage(s[..k]);
    }
  }

  /** `(?:[^/]+/)*`: stop here, or take one more directory. */
  lemma MatchDirectories(rest: Re, s: string)
    ensures var pieces := Split('/', s);
            Matches(Cat(DIRECTORIES, rest), s) <==>
            || Matches(rest, s)
            || (|pieces| > 1 && pieces[0] != "" && |pieces[0]| < |s|
                && Matches(Cat(DIRECTORIES, rest), s[|pieces[0]| + 1..]))
  {
    MatchMany(DIRECTORY, rest, s);
    var first := |Split('/', s)[0]|;
    forall k | 0 < k <= |s|
      ensures Matches(DIRECTORY, s[..k]) <==> |Split('/', s)| > 1 && first > 0 && k == first + 1
    {
      DirectoryPrefix(s, k);
    }
  }

  lemma DirectoryPrefix(s: string, k: nat)
    requires 0 < k <= |s|
    ensures var pieces := Split('/', s);
            Matches(DIRECTORY, s[..k]) <==> |pieces| > 1 && pieces[0] != "" && k == |pieces[0]| + 1
  {
    DirectoryLanguage(s[..k]);
    SplitHead('/', s);
    assert s[..k][..k - 1] == s[..k - 1] && s[..k][k - 1] == s[k - 1];
  }

  // ---- Splitting ----

  /** The first piece runs up to the first separator; the rest are the pieces after it. */
  lemma {:induction false} SplitHead<T>(sep: T, s: seq<T>)
    ensures var pieces := Split(sep, s); var k := |pieces[0]|;
            && k <= |s| && pieces[0] == s[..k] && sep !in s[..k]
            && (|pieces| == 1 <==> k == |s|)
            && (k < |s| ==> s[k] == sep && pieces[1..] == Split(sep, s[k + 1..]))
  {
    if s != [] {
      SplitHead(sep, s[1..]);
      var rest := Split(sep, s[1..]);
      if s[0] != sep {
        assert s[..|rest[0]| + 1] == [s[0]] + s[1..][..|rest[0]|];
        if |rest[0]| < |s[1..]| {
          assert s[1..][|rest[0]| + 1..] == s[|rest[0]| + 2..];
        }
      }
    }
  }

  // ---- The regex means segment-wise matching ----

  lemma SegmentsCons(t: Token, ts: seq<Token>)
    ensures Segments([t] + ts) ==
            if t == Literal('/') then [[]] + Segments(ts)
            else [[t] + Segments(ts)[0]] + Segments(ts)[1..]
  {
    assert ([t] + ts)[1..] == ts;
  }

  /** A segment that has begun with another token holds no `**`. */
  lemma WholeStarsTail(t: Token, ts: seq<Token>)
    requires WholeStars(Segments([t] + ts)) && !t.DoubleStar?
    ensures WholeStars(Segments(ts))
    ensures t != Literal('/') ==> DoubleStar !in Segments(ts)[0]
  {
    SegmentsCons(t, ts);
    var all, rest := Segments([t] + ts), Segments(ts);
    if t == Literal('/') {
      assert all[1..] == rest;
    } else {
      assert all[0] == [t] + rest[0] && all[1..] == rest[1..];
      assert DoubleStar !in rest[0] by {
        assert all[0] in all;
      }
      forall seg <- rest ensures DoubleStar in seg ==> seg == [DoubleStar] {
        assert seg == rest[0] || seg in all;
      }
    }
  }

  lemma {:induction false} CompiledMeansSegments(ts: seq<Token>, s: string)
    requires WholeStars(Segments(ts)) && BracketsExclude(ts, '/') && '\n' !in s
    ensures Matches(Concat(Compile(ts)), s) <==> PathMatches(Segments(ts), Split('/', s))
    decreases |ts|, |s|
  {
    if ts == [] {
      assert Segments(ts)[1..] == [];
    } else {
      var t, rest := ts[0], ts[1..];
      assert ts == [t] + rest;
      CompileCons(t, rest);
      SegmentsCons(t, rest);
      if t.DoubleStar? {
        DirectoriesCase(rest, s);
      } else {
        WholeStarsTail(t, rest);
        if t.Star? {
          StarCase(rest, s);
        } else {
          OneCharCase(t, rest, s);
        }
      }
    }
  }

  lemma {:induction false} DirectoriesCase(rest: seq<Token>, s: string)
    requires var ts := [DoubleStar] + rest;
             WholeStars(Segments(ts)) && BracketsExclude(ts, '/') && '\n' !in s
    ensures var ts := [DoubleStar] + rest;
            Matches(Concat(Compile(ts)), s) <==> PathMatches(Segments(ts), Split('/', s))
    decreases |rest| + 1, |s|, 0
  {
    var ts := [DoubleStar] + rest;
    var path := Split('/', s);
    CompileCons(DoubleStar, rest);
    SegmentsCons(DoubleStar, rest);
    assert Segments(ts)[0] == [DoubleStar] by {
      assert Segments(ts)[0] in Segments(ts);
    }
    if rest == [] {
      AnythingLanguage(s);
      assert s[..|s|] == s && Matches(Empty, s[|s|..]);
    } else {
      SegmentsCons(rest[0], rest[1..]);
      assert rest == [rest[0]] + rest[1..];
      assert rest[0] == Literal('/');
      assert Segments(ts)[1..] == Segments(rest[1..]);
      assert Concat(Compile(ts)) == Cat(DIRECTORIES, Concat(Compile(rest[1..])));
      MatchDirectories(Concat(Compile(rest[1..])), s);
      CompiledMeansSegments(rest[1..], s);
      SplitHead('/', s);
      if |path| > 1 {
        DirectoriesCase(rest, s[|path[0]| + 1..]);
      }
    }
  }

  lemma {:induction false} StarCase(rest: seq<Token>, s: string)
    requires WholeStars(Segments([Star] + rest)) && WholeStars(Segments(rest)) && DoubleStar !in Segments(rest)[0]
    requires BracketsExclude(rest, '/') && '\n' !in s
    ensures var ts := [Star] + rest;
            Matches(Concat(Compile(ts)), s) <==> PathMatches(Segments(ts), Split('/', s))
    decreases |rest| + 1, |s|, 0
  {
    var ts, path := [Star] + rest, Split('/', s);
    CompileCons(Star, rest);
    SegmentsCons(Star, rest);
    assert Concat(Compile(ts)) == Cat(SEGMENT_CHARS, Concat(Compile(rest)));
    MatchSegmentChars(Concat(Compile(rest)), s);
    CompiledMeansSegments(rest, s);
    assert Segments(ts)[0][1..] == Segments(rest)[0];
    assert Segments(ts)[1..] == Segments(rest)[1..];
    if s != "" {
      StarCase(rest, s[1..]);
      if s[0] != '/' {
        assert path[0][1..] == Split('/', s[1..])[0] && path[1..] == Split('/', s[1..])[1..];
      }
    }
  }

  lemma {:induction false} OneCharCase(t: Token, rest: seq<Token>, s: string)
    requires !t.Star? && !t.DoubleStar?
    requires WholeStars(Segments([t] + rest)) && WholeStars(Segments(rest))
    requires t != Literal('/') ==> DoubleStar !in Segments(rest)[0] && !Has(CharSetOf(t), '/')
    requires BracketsExclude(rest, '/') && '\n' !in s
    ensures var ts := [t] + rest;
            Matches(Concat(Compile(ts)), s) <==> PathMatches(Segments(ts), Split('/', s))
    decreases |rest| + 1, |s|, 0
  {
    var ts, path := [t] + rest, Split('/', s);
    CompileCons(t, rest);
    SegmentsCons(t, rest);
    assert Concat(Compile(ts)) == Cat(One(CharSetOf(t)), Concat(Compile(rest)));
    MatchOne(CharSetOf(t), Concat(Compile(rest)), s);
    if s != "" {
      CompiledMeansSegments(rest, s[1..]);
      if t == Literal('/') {
        assert Segments(ts)[1..] == Segments(rest);
        if s[0] == '/' {
          assert path[1..] == Split('/', s[1..]);
        }
      } else {
        assert Segments(ts)[0][1..] == Segments(rest)[0] && Segments(ts)[1..] == Segments(rest)[1..];
        if s[0] != '/' {
          assert path[0][1..] == Split('/', s[1..])[0] && path[1..] == Split('/', s[1..])[1..];
        }
      }
    }
  }
}
