/** What the connection string tokenizer makes of text that is not well formed (`ci/redact.py`). */
module ConnInfoMalformed {
  import opened Sequences
  import opened Text
  import opened ConnInfo
  import opened ConnInfoSpace

  /** A value whose quote is never closed runs to the end of the text. */
  lemma {:induction false} UnclosedQuoteRunsToEnd(v: string)
    ensures Quoted(EscapeQuoted(v)) == (v, "")
  {
    if v != "" {
      var head := if v[0] == '\'' || v[0] == '\\' then ['\\', v[0]] else [v[0]];
      var tail := EscapeQuoted(v[1..]);
      assert EscapeQuoted(v) == head + tail;
      hide Quoted, EscapeQuoted;
      QuotedStep(v[0], tail);
      UnclosedQuoteRunsToEnd(v[1..]);
      assert [v[0]] + v[1..] == v;
    }
  }

  /** A backslash at the very end escapes nothing and stands for itself, in a quoted value and in a bare one. */
  lemma {:induction false} LastBackslashStands(v: string)
    ensures Quoted(EscapeQuoted(v) + "\\") == (v + "\\", "")
    ensures Bare(EscapeBare(v) + "\\") == (v + "\\", "")
  {
    if v == "" {
      assert EscapeQuoted(v) + "\\" == "\\" && EscapeBare(v) + "\\" == "\\" && !IsSpace('\\');
      assert "\\"[1..] == "";
      assert v + "\\" == "\\" && "\\" + "" == "\\";
    } else {
      LastBackslashStands(v[1..]);
      assert v == [v[0]] + v[1..];
      hide Quoted, Bare;
      LastQuotedStep(v);
      LastBareStep(v);
      Associative([v[0]], v[1..], "\\");
    }
  }

  lemma LastQuotedStep(v: string)
    requires v != ""
    ensures var rest := Quoted(EscapeQuoted(v[1..]) + "\\");
            Quoted(EscapeQuoted(v) + "\\") == ([v[0]] + rest.0, rest.1)
  {
    var head := if v[0] == '\'' || v[0] == '\\' then ['\\', v[0]] else [v[0]];
    var tail := EscapeQuoted(v[1..]);
    assert EscapeQuoted(v) == head + tail;
    hide Quoted, EscapeQuoted;
    Associative(head, tail, "\\");
    QuotedStep(v[0], tail + "\\");
  }

  lemma LastBareStep(v: string)
    requires v != ""
    ensures var rest := Bare(EscapeBare(v[1..]) + "\\");
            Bare(EscapeBare(v) + "\\") == ([v[0]] + rest.0, rest.1)
  {
    var head := if v[0] == '\'' || v[0] == '\\' || IsSpace(v[0]) then ['\\', v[0]] else [v[0]];
    var tail := EscapeBare(v[1..]);
    assert EscapeBare(v) == head + tail;
    hide EscapeBare;
    Associative(head, tail, "\\");
    var text := head + (tail + "\\");
    BareAt(text, 0);
    assert text[0..] == text && text[|head|..] == tail + "\\";
    assert !IsSpace('\\');
    hide Bare, IsSpace;
  }

  /** A word that no `=` follows is dropped, and reading goes on behind it. */
  lemma WordIsDropped(word: string, gap: string, rest: string, params: map<string, string>)
    requires IsWord(word) && AllSpace(gap) && gap != "" && rest != "" && !IsSpace(rest[0]) && rest[0] != '='
    ensures Parse(word + (gap + rest), params) == Parse(rest, params)
  {
    var tail := gap + rest;
    var text := word + tail;
    assert text[0] == word[0] && word[0] in word && tail[0] == gap[0] && gap[0] in gap;
    KeyLengthOf(word, tail);
    TrimLeftSpaces(gap, rest);
    assert TrimLeft(text) == text && TrimLeft(rest) == rest;
    assert text[..|word|] == word && text[|word|..] == tail;
    hide IsSpace, TrimLeft, KeyLength;
    assert AfterKey(text) == (word, rest);
    hide AfterKey, Value;
    ParseTurn(text, params);
  }

  /** A value without a key is read and forgotten. */
  lemma KeylessValueIsForgotten(text: string, params: map<string, string>)
    ensures Parse("=" + text, params) == Parse(Value(TrimLeft(text)).1, params)
  {
    var whole := "=" + text;
    EqualsIsNotSpace(text);
    assert KeyLength(whole) == 0 && whole[..0] == "" && whole[0..] == whole && whole[1..] == text;
    hide TrimLeft, KeyLength, Value;
    assert AfterKey(whole) == ("", whole);
    hide AfterKey;
    ParseTurn(whole, params);
  }
}
