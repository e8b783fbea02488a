/** Characters and substrings as Python's `str` methods see them. */
module Text {

  /** `str.isspace` for one character. */
  predicate IsSpace(c: char) {
    || '\t' <= c <= '\r'
    || '\U{1C}' <= c <= ' '
    || c == '\U{85}' || c == '\U{A0}' || c == '\U{1680}'
    || '\U{2000}' <= c <= '\U{200A}'
    || c == '\U{2028}' || c == '\U{2029}' || c == '\U{202F}' || c == '\U{205F}' || c == '\U{3000}'
  }

  /** `str.lstrip()`. */
  function TrimLeft(s: string): (r: string)
    ensures |r| <= |s|
    ensures r != "" ==> !IsSpace(r[0])
  {
    if s != "" && IsSpace(s[0]) then TrimLeft(s[1..]) else s
  }

  lemma {:induction false} TrimLeftIsSuffix(s: string)
    ensures TrimLeft(s) == s[|s| - |TrimLeft(s)|..]
  {
    if s != "" && IsSpace(s[0]) {
      TrimLeftIsSuffix(s[1..]);
    }
  }

  /** `str.rstrip()`. */
  function TrimRight(s: string): (r: string)
    ensures r <= s
    ensures r != "" ==> !IsSpace(r[|r| - 1])
    ensures forall i :: |r| <= i < |s| ==> IsSpace(s[i])
  {
    if s != "" && IsSpace(s[|s| - 1]) then TrimRight(s[..|s| - 1]) else s
  }

  /** `str.strip()`. */
  function Trim(s: string): string {
    TrimRight(TrimLeft(s))
  }

  /** `str.lower()` on ASCII letters. */
  function Lower(s: string): string {
    seq(|s|, i requires 0 <= i < |s| => if 'A' <= s[i] <= 'Z' then s[i] + ' ' else s[i])
  }

  predicate IsUpper(c: char) {
    'A' <= c <= 'Z'
  }

  /** The same letter in two cases. */
  predicate CaseTwins(a: char, b: char) {
    (IsUpper(a) && b as int == a as int + 32) || (IsUpper(b) && a as int == b as int + 32)
  }

  /** Two texts have one lower-case form exactly when they differ at most in case; without capitals it is the text. */
  lemma LowerIff(s: string, t: string)
    ensures Lower(s) == Lower(t) <==>
            |s| == |t| && forall i :: 0 <= i < |s| ==> s[i] == t[i] || CaseTwins(s[i], t[i])
    ensures (forall i :: 0 <= i < |s| ==> !IsUpper(s[i])) <==> Lower(s) == s
  {
    assert Lower(s) == Lower(t) <==> |s| == |t| && forall i :: 0 <= i < |s| ==> Lower(s)[i] == Lower(t)[i];
    assert Lower(s) == s <==> forall i :: 0 <= i < |s| ==> Lower(s)[i] == s[i];
  }

  /** `needle` starts at position `k` of `s`. */
  predicate OccursAt(needle: string, s: string, k: nat) {
    k + |needle| <= |s| && s[k..k + |needle|] == needle
  }

  /** `needle in s`. */
  predicate Contains(s: string, needle: string) {
    exists k :: 0 <= k <= |s| && OccursAt(needle, s, k)
  }

  /** The pieces of `s` between the separators; always at least one. */
  function Split<T(==)>(sep: T, s: seq<T>): (pieces: seq<seq<T>>)
    ensures pieces != []
    ensures forall piece <- pieces :: sep !in piece
  {
    if s == [] then [[]]
    else
      var rest := Split(sep, s[1..]);
      if s[0] == sep then [[]] + rest else [[s[0]] + rest[0]] + rest[1..]
  }

  lemma {:induction false} SplitNone<T>(sep: T, s: seq<T>)
    requires sep !in s
    ensures Split(sep, s) == [s]
  {
    if s != [] {
      SplitNone(sep, s[1..]);
      assert s == [s[0]] + s[1..];
    }
  }

  lemma {:induction false} SplitFirst<T>(sep: T, first: seq<T>, rest: seq<T>)
    requires sep !in first
    ensures Split(sep, first + [sep] + rest) == [first] + Split(sep, rest)
  {
    var s := first + [sep] + rest;
    if first == [] {
      assert s[1..] == rest;
    } else {
      assert s[1..] == first[1..] + [sep] + rest;
      SplitFirst(sep, first[1..], rest);
      assert first == [first[0]] + first[1..];
    }
  }
}
