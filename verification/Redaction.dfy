/** The literal half of the redactor (`ci/redact.py`). */
module Redaction {
  import opened Options
  import opened Text
  import opened Sorting

  const PLACEHOLDER := "<redacted>"

  const MIN_LITERAL := 4

  const GENERIC := {
    "postgres", "postgresql", "localhost", "127.0.0.1", "0.0.0.0", "app", "main", "test", "database", "db", "public",
    "user", "admin", "root", "none", "null"}

  /** `s.replace(literal, PLACEHOLDER)`: leftmost matches, not overlapping; an empty literal matches everywhere. */
  function Replace(s: string, literal: string): string {
    if literal == "" then PLACEHOLDER + (if s == "" then "" else [s[0]] + Replace(s[1..], literal))
    else if literal <= s then PLACEHOLDER + Replace(s[|literal|..], literal)
    else if s == "" then ""
    else [s[0]] + Replace(s[1..], literal)
  }

  function ScrubAll(literals: seq<string>, s: string): string {
    if literals == [] then s else ScrubAll(literals[1..], Replace(s, literals[0]))
  }

  predicate Longer(a: string, b: string) {
    |a| >= |b|
  }

  /** No literal twice, longest first. */
  ghost predicate Registry(literals: seq<string>) {
    Distinct(literals) && Sorted(Longer, literals)
  }

  class Redactor {
    var literals: seq<string>

    ghost predicate Valid()
      reads this
    {
      Registry(literals)
    }

    constructor ()
      ensures Valid() && literals == []
    {
      literals := [];
    }

    /** Adds the value once and keeps everything that was registered. */
    method Register(value: string)
      requires Valid()
      modifies this
      ensures Valid()
      ensures forall literal :: literal in literals <==> literal in old(literals) || literal == value
      ensures literals == if value in old(literals) then old(literals) else Sort(Longer, old(literals) + [value])
    {
      if value !in literals {
        literals := literals + [value];
        assert TotalPreorder(Longer);
        SortDistinct(Longer, literals);
        literals := Sort(Longer, literals);
      }
    }

    method AddSecret(value: Option<string>, minimum: nat := MIN_LITERAL)
      requires Valid()
      modifies this
      ensures Valid()
      ensures forall literal :: literal in literals <==>
                literal in old(literals)
                || (value.Some? && literal == Trim(value.value) && |literal| >= minimum && Lower(literal) !in GENERIC)
    {
      if value.None? {
        return;
      }
      var text := Trim(value.value);
      if |text| < minimum || Lower(text) in GENERIC {
        return;
      }
      Register(text);
    }

    /** The literal stage of `scrub`; a literal that does not occur is skipped. */
    method ScrubLiterals(text: string) returns (result: string)
      ensures result == ScrubAll(literals, text)
      ensures "" !in literals ==> forall literal <- literals :: Clear(literal) ==> !Contains(result, literal)
    {
      hide Replace, Contains, Clear;
      result := text;
      for i := 0 to |literals|
        invariant ScrubAll(literals[i..], result) == ScrubAll(literals, text)
      {
        assert literals[i..][1..] == literals[i + 1..];
        if Contains(result, literals[i]) {
          result := Replace(result, literals[i]);
        } else {
          NothingToReplace(result, literals[i]);
        }
      }
      forall literal <- literals | "" !in literals && Clear(literal) ensures !Contains(result, literal) {
        ClearLiteralIsGone(literals, text, literal);
      }
    }
  }

  lemma ContainsTail(s: string, literal: string)
    requires s != "" && Contains(s[1..], literal)
    ensures Contains(s, literal)
  {
    var k :| 0 <= k <= |s[1..]| && OccursAt(literal, s[1..], k);
    assert OccursAt(literal, s, k + 1);
  }

  lemma {:induction false} NothingToReplace(s: string, literal: string)
    requires !Contains(s, literal)
    ensures Replace(s, literal) == s
  {
    assert literal <= s ==> OccursAt(literal, s, 0);
    if s != "" {
      if Contains(s[1..], literal) {
        ContainsTail(s, literal);
      }
      NothingToReplace(s[1..], literal);
      assert s == [s[0]] + s[1..];
    }
  }

  // ---- What a replacement leaves alone ----

  /** The text between the leftmost matches that do not overlap. */
  function Pieces(s: string, literal: string): (pieces: seq<string>)
    requires literal != ""
    ensures pieces != []
    ensures pieces[0] <= s
  {
    if literal <= s then [""] + Pieces(s[|literal|..], literal)
    else if s == "" then [""]
    else
      var rest := Pieces(s[1..], literal);
      [[s[0]] + rest[0]] + rest[1..]
  }

  function JoinWith(pieces: seq<string>, separator: string): string
    requires pieces != []
  {
    if |pieces| == 1 then pieces[0] else pieces[0] + separator + JoinWith(pieces[1..], separator)
  }

  lemma JoinLonger(c: char, pieces: seq<string>, separator: string)
    requires pieces != []
    ensures JoinWith([[c] + pieces[0]] + pieces[1..], separator) == [c] + JoinWith(pieces, separator)
  {
    var longer := [[c] + pieces[0]] + pieces[1..];
    assert longer[1..] == pieces[1..];
    if |pieces| > 1 {
      var rest := separator + JoinWith(pieces[1..], separator);
      assert JoinWith(pieces, separator) == pieces[0] + rest;
      assert JoinWith(longer, separator) == ([c] + pieces[0]) + rest;
    }
  }

  lemma JoinEmptyFirst(pieces: seq<string>, separator: string)
    requires pieces != []
    ensures JoinWith([""] + pieces, separator) == separator + JoinWith(pieces, separator)
  {
    assert ([""] + pieces)[1..] == pieces;
    assert "" + separator == separator;
  }

  /** Only the literal changes: the pieces between its matches, none of which holds it, are kept in place. */
  lemma {:induction false} ReplaceKeepsTheRest(s: string, literal: string)
    requires literal != ""
    ensures JoinWith(Pieces(s, literal), literal) == s
    ensures JoinWith(Pieces(s, literal), PLACEHOLDER) == Replace(s, literal)
    ensures forall piece <- Pieces(s, literal) :: !Contains(piece, literal)
    decreases |s|
  {
    hide Contains, JoinWith;
    if literal <= s {
      var rest := s[|literal|..];
      ReplaceKeepsTheRest(rest, literal);
      JoinEmptyFirst(Pieces(rest, literal), literal);
      JoinEmptyFirst(Pieces(rest, literal), PLACEHOLDER);
      assert s == literal + rest;
      TooShort("", literal);
    } else if s == "" {
      TooShort("", literal);
      JoinOne("", literal);
      JoinOne("", PLACEHOLDER);
    } else {
      var rest := Pieces(s[1..], literal);
      ReplaceKeepsTheRest(s[1..], literal);
      JoinLonger(s[0], rest, literal);
      JoinLonger(s[0], rest, PLACEHOLDER);
      assert s == [s[0]] + s[1..];
      LongerPiece(s, rest[0], literal);
      forall piece <- Pieces(s, literal) ensures !Contains(piece, literal) {
        assert piece == [s[0]] + rest[0] || piece in rest;
      }
    }
  }

  lemma JoinOne(piece: string, separator: string)
    ensures JoinWith([piece], separator) == piece
  {}

  lemma TooShort(piece: string, literal: string)
    requires |piece| < |literal|
    ensures !Contains(piece, literal)
  {}

  lemma LongerPiece(s: string, piece: string, literal: string)
    requires s != "" && piece <= s[1..] && !(literal <= s) && !Contains(piece, literal)
    ensures !Contains([s[0]] + piece, literal)
  {
    var longer := [s[0]] + piece;
    assert longer <= s;
    forall k | 0 <= k <= |longer| ensures !OccursAt(literal, longer, k) {
      if 0 < k && k + |literal| <= |longer| {
        assert longer[k..k + |literal|] == piece[k - 1..k - 1 + |literal|];
        assert !OccursAt(literal, piece, k - 1);
      }
    }
  }

  // ---- What scrubbing guarantees ----

  /** Laid over the placeholder so that it starts at offset `d`, the literal agrees wherever they overlap. */
  predicate AgreesAt(literal: string, d: int) {
    forall j :: 0 <= j < |literal| && 0 <= j + d < |PLACEHOLDER| ==> literal[j] == PLACEHOLDER[j + d]
  }

  /** The literal cannot overlap the placeholder in any alignment. */
  predicate Clear(literal: string) {
    literal != "" && forall d :: -|literal| < d < |PLACEHOLDER| ==> !AgreesAt(literal, d)
  }

  /** A replacement never completes a clear literal: what it ends in was there before. */
  lemma {:induction false} SuffixSurvives(s: string, replaced: string, clear: string, i: nat)
    requires Clear(clear) && i < |clear| && replaced != ""
    requires clear[i..] <= Replace(s, replaced)
    ensures clear[i..] <= s
    decreases |s|
  {
    var out := Replace(s, replaced);
    if replaced <= s {
      forall j | 0 <= j < |clear| && 0 <= j - i < |PLACEHOLDER| ensures clear[j] == PLACEHOLDER[j - i] {
        assert clear[i..][j - i] == out[j - i];
      }
      assert AgreesAt(clear, 0 - i);
    } else if s != "" {
      assert clear[i..][0] == s[0];
      if i + 1 < |clear| {
        assert clear[i..][1..] == clear[i + 1..] && out[1..] == Replace(s[1..], replaced);
        SuffixSurvives(s[1..], replaced, clear, i + 1);
        assert clear[i..] == [s[0]] + clear[i + 1..];
      }
    }
  }

  lemma ReplaceStep(s: string, literal: string)
    requires literal != "" && s != ""
    ensures Replace(s, literal) ==
            if literal <= s then PLACEHOLDER + Replace(s[|literal|..], literal) else [s[0]] + Replace(s[1..], literal)
  {}

  lemma OccursOverPlaceholder(literal: string, rest: string, k: nat)
    requires k < |PLACEHOLDER| && OccursAt(literal, PLACEHOLDER + rest, k)
    ensures AgreesAt(literal, k)
  {
    var out := PLACEHOLDER + rest;
    forall j | 0 <= j < |literal| && 0 <= j + k < |PLACEHOLDER| ensures literal[j] == PLACEHOLDER[j + k] {
      assert literal[j] == out[k..k + |literal|][j];
    }
  }

  lemma OccursAfter(literal: string, front: string, rest: string, k: nat)
    requires |front| <= k
    ensures OccursAt(literal, front + rest, k) <==> OccursAt(literal, rest, k - |front|)
  {
    if k + |literal| <= |front + rest| {
      assert (front + rest)[k..k + |literal|] == rest[k - |front|..k - |front| + |literal|];
    }
  }

  lemma {:induction false} NeverRecreated(s: string, replaced: string, clear: string, k: nat)
    requires Clear(clear) && replaced != "" && OccursAt(clear, Replace(s, replaced), k)
    ensures clear != replaced && Contains(s, clear)
    decreases |s|
  {
    assert s != "";
    ReplaceStep(s, replaced);
    hide Replace, AgreesAt;
    if replaced <= s {
      var rest := s[|replaced|..];
      if k < |PLACEHOLDER| {
        OccursOverPlaceholder(clear, Replace(rest, replaced), k);
      } else {
        OccursAfter(clear, PLACEHOLDER, Replace(rest, replaced), k);
        NeverRecreated(rest, replaced, clear, k - |PLACEHOLDER|);
        var m :| 0 <= m <= |rest| && OccursAt(clear, rest, m);
        assert s == replaced + rest;
        OccursAfter(clear, replaced, rest, m + |replaced|);
      }
    } else if k == 0 {
      assert clear[0..] == clear;
      SuffixSurvives(s, replaced, clear, 0);
      assert OccursAt(clear, s, 0);
    } else {
      OccursAfter(clear, [s[0]], Replace(s[1..], replaced), k);
      NeverRecreated(s[1..], replaced, clear, k - 1);
      ContainsTail(s, clear);
    }
  }

  lemma {:induction false} StaysGone(literals: seq<string>, s: string, clear: string)
    requires Clear(clear) && "" !in literals && !Contains(s, clear)
    ensures !Contains(ScrubAll(literals, s), clear)
  {
    if literals != [] {
      var next := Replace(s, literals[0]);
      if Contains(next, clear) {
        var k :| 0 <= k <= |next| && OccursAt(clear, next, k);
        NeverRecreated(s, literals[0], clear, k);
      }
      StaysGone(literals[1..], next, clear);
    }
  }

  /** A clear literal never survives scrubbing, whatever else is registered and whatever the text. */
  lemma {:induction false} ClearLiteralIsGone(literals: seq<string>, s: string, clear: string)
    requires Clear(clear) && "" !in literals && clear in literals
    ensures !Contains(ScrubAll(literals, s), clear)
  {
    var next := Replace(s, literals[0]);
    if literals[0] == clear {
      if Contains(next, clear) {
        var k :| 0 <= k <= |next| && OccursAt(clear, next, k);
        NeverRecreated(s, clear, clear, k);
      }
      StaysGone(literals[1..], next, clear);
    } else {
      ClearLiteralIsGone(literals[1..], next, clear);
    }
  }

  /** Secrets without `<` and `>` that are not a piece of the word `redacted` are clear. */
  lemma OrdinaryLiteralIsClear(literal: string)
    requires literal != "" && '<' !in literal && '>' !in literal && !Contains("redacted", literal)
    ensures Clear(literal)
  {
    forall d | -|literal| < d < |PLACEHOLDER| ensures !AgreesAt(literal, d) {
      if d <= 0 {
        assert literal[0 - d] != PLACEHOLDER[0];
      } else if |literal| + d > 9 {
        assert literal[9 - d] != PLACEHOLDER[9];
      } else {
        var word := "redacted";
        assert !OccursAt(literal, word, d - 1);
        var j :| 0 <= j < |literal| && word[d - 1..d - 1 + |literal|][j] != literal[j];
        assert PLACEHOLDER[1..9] == word;
        assert PLACEHOLDER[j + d] == word[j + d - 1];
      }
    }
  }

  /** In every registry and for every text, the literal is gone from the scrubbed text. */
  ghost predicate AlwaysGone(literal: string) {
    forall literals: seq<string>, text: string ::
      Registry(literals) && "" !in literals && literal in literals ==> !Contains(ScrubAll(literals, text), literal)
  }

  /**
   `scrub` promises every known secret gone. That holds for a literal exactly when it is clear of the
   placeholder; otherwise the replacement of another secret can spell it. (`unused` is any character outside both.)
   */
  lemma AlwaysGoneIffClear(literal: string, unused: char)
    requires literal != "" && unused !in literal && unused !in PLACEHOLDER
    ensures AlwaysGone(literal) <==> Clear(literal)
  {
    hide ScrubAll, Contains;
    if Clear(literal) {
      forall literals: seq<string>, text: string | Registry(literals) && "" !in literals && literal in literals
        ensures !Contains(ScrubAll(literals, text), literal)
      {
        ClearLiteralIsGone(literals, text, literal);
      }
    } else {
      var d :| -|literal| < d < |PLACEHOLDER| && AgreesAt(literal, d);
      var other := seq(|literal|, _ => unused);
      var head := if d < 0 then literal[..-d] else "";
      var tail := if |literal| + d > |PLACEHOLDER| then literal[|PLACEHOLDER| - d..] else "";
      SpelledByReplacement(literal, unused, other, head, tail);
      OccursAroundPlaceholder(literal, d);
      assert other[0] == unused && other != literal;
      assert Registry([literal, other]);
    }
  }

  lemma OccursAroundPlaceholder(literal: string, d: int)
    requires -|literal| < d < |PLACEHOLDER| && AgreesAt(literal, d)
    ensures var head := if d < 0 then literal[..-d] else "";
            var tail := if |literal| + d > |PLACEHOLDER| then literal[|PLACEHOLDER| - d..] else "";
            Contains(head + PLACEHOLDER + tail, literal)
  {
    var head := if d < 0 then literal[..-d] else "";
    var tail := if |literal| + d > |PLACEHOLDER| then literal[|PLACEHOLDER| - d..] else "";
    var out, k := head + PLACEHOLDER + tail, if d < 0 then 0 else d;
    forall j | 0 <= j < |literal| ensures out[k..k + |literal|][j] == literal[j] {
      if j + d < 0 {
        assert out[k + j] == head[j] == literal[j];
      } else if j + d < |PLACEHOLDER| {
        assert out[k + j] == PLACEHOLDER[j + d];
      } else {
        assert out[k + j] == tail[j + d - |PLACEHOLDER|] == literal[j];
      }
    }
    assert OccursAt(literal, out, k);
  }

  /** Text holding a foreign character in every window of the literal's length cannot contain the literal. */
  lemma ForeignMiddle(literal: string, unused: char, head: string, other: string, tail: string)
    requires unused !in literal && |head| < |literal| && |tail| < |literal| && |other| == |literal|
    requires forall c <- other :: c == unused
    ensures !Contains(head + other + tail, literal)
  {
    var text := head + other + tail;
    forall k | 0 <= k <= |text| ensures !OccursAt(literal, text, k) {
      if k + |literal| <= |text| {
        var at := if k < |head| then |head| else k;
        assert text[at] == other[at - |head|] && other[at - |head|] in other;
        assert text[k..k + |literal|][at - k] == text[at];
        assert literal[at - k] in literal;
      }
    }
  }

  lemma SpelledByReplacement(literal: string, unused: char, other: string, head: string, tail: string)
    requires literal != "" && unused !in literal && |head| < |literal| && |tail| < |literal|
    requires unused !in head && unused !in tail
    requires |other| == |literal| && forall c <- other :: c == unused
    ensures ScrubAll([literal, other], head + other + tail) == head + PLACEHOLDER + tail
  {
    hide Replace, Contains, ScrubAll;
    var text := head + other + tail;
    ForeignMiddle(literal, unused, head, other, tail);
    NothingToReplace(text, literal);
    ReplaceOnce(head, unused, other, tail);
    ScrubTwo(literal, other, text);
  }

  lemma ScrubTwo(a: string, b: string, s: string)
    ensures ScrubAll([a, b], s) == Replace(Replace(s, a), b)
  {
    assert [a, b][1..] == [b] && [b][1..] == [];
    assert ScrubAll([b], Replace(s, a)) == ScrubAll([], Replace(Replace(s, a), b));
  }

  lemma {:induction false} ReplaceOnce(head: string, unused: char, other: string, tail: string)
    requires unused !in head && unused !in tail && |other| > 0 && forall c <- other :: c == unused
    ensures Replace(head + other + tail, other) == head + PLACEHOLDER + tail
  {
    hide Replace, Contains;
    var text := head + other + tail;
    ReplaceStep(text, other);
    if head == "" {
      assert text == other + tail && text[|other|..] == tail;
      NoneInside(tail, unused, other);
      NothingToReplace(tail, other);
      assert head + PLACEHOLDER + tail == PLACEHOLDER + tail;
    } else {
      assert other[0] in other && text[0] == head[0] && head[0] in head;
      ReplaceOnce(head[1..], unused, other, tail);
      assert text[1..] == head[1..] + other + tail;
      assert [head[0]] + (head[1..] + PLACEHOLDER + tail) == head + PLACEHOLDER + tail;
    }
  }

  lemma NoneInside(s: string, unused: char, other: string)
    requires unused !in s && |other| > 0 && forall c <- other :: c == unused
    ensures !Contains(s, other)
  {
    forall k | 0 <= k <= |s| ensures !OccursAt(other, s, k) {
      if k + |other| <= |s| {
        assert s[k..k + |other|][0] == s[k] && s[k] in s && other[0] in other;
      }
    }
  }

  /** A secret such as `redact` is one that scrubbing can spell out. */
  lemma WordInsidePlaceholderIsNotClear()
    ensures !Clear("redact") && !AlwaysGone("redact")
  {
    assert AgreesAt("redact", 1);
    AlwaysGoneIffClear("redact", 'x');
  }

  /** The longest literal goes first, and each of its matches goes as a whole. */
  lemma LongestGoesFirst(literals: seq<string>, s: string)
    requires Registry(literals) && literals != [] && literals[0] != ""
    ensures forall literal <- literals :: |literal| <= |literals[0]|
    ensures ScrubAll(literals, s) == ScrubAll(literals[1..], JoinWith(Pieces(s, literals[0]), PLACEHOLDER))
  {
    forall literal <- literals ensures |literal| <= |literals[0]| {
      var i :| 0 <= i < |literals| && literals[i] == literal;
      assert i == 0 || Longer(literals[0], literals[i]);
    }
    ReplaceKeepsTheRest(s, literals[0]);
    hide Replace, JoinWith, Pieces, Contains;
  }
}
