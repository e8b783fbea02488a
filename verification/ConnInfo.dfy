/** The keyword/value connection string tokenizer (`ci/redact.py`). */
module ConnInfo {
  import opened Sequences
  import opened Text

  // ---- What each scan consumes, on the text that is left ----

  function KeyLength(s: string): (k: nat)
    ensures k <= |s|
  {
    if s == "" || IsSpace(s[0]) || s[0] == '=' then 0 else 1 + KeyLength(s[1..])
  }

  /** A value after its opening quote, and the text after the closing one; an open quote runs to the end. */
  function Quoted(s: string): (r: (string, string))
    ensures |r.1| <= |s|
  {
    if s == "" then ("", "")
    else if s[0] == '\'' then ("", s[1..])
    else
      var skip := if s[0] == '\\' && |s| > 1 then 1 else 0;
      var (value, rest) := Quoted(s[skip + 1..]);
      ([s[skip]] + value, rest)
  }

  /** A value up to the next whitespace that is not escaped. */
  function Bare(s: string): (r: (string, string))
    ensures |r.1| <= |s|
  {
    if s == "" || IsSpace(s[0]) then ("", s)
    else
      var skip := if s[0] == '\\' && |s| > 1 then 1 else 0;
      var (value, rest) := Bare(s[skip + 1..]);
      ([s[skip]] + value, rest)
  }

  function Value(s: string): (r: (string, string))
    ensures |r.1| <= |s|
  {
    if "'" <= s then Quoted(s[1..]) else Bare(s)
  }

  /** What a key scan leaves for the `=` test. */
  function AfterKey(s: string): (r: (string, string))
    ensures |r.1| <= |s|
  {
    var word := TrimLeft(s);
    (word[..KeyLength(word)], TrimLeft(word[KeyLength(word)..]))
  }

  function Parse(s: string, params: map<string, string>): map<string, string>
    decreases |s|
  {
    if s == "" then params
    else
      var (key, next) := AfterKey(s);
      if next == "" || next[0] != '=' then
        Progress(s);
        Parse(next, params)
      else
        var (value, rest) := Value(TrimLeft(next[1..]));
        Parse(rest, if key == "" then params else params[key := value])
  }

  // ---- One step of each scan, by index ----

  lemma TrimLeftAt(text: string, i: nat)
    requires i < |text|
    ensures TrimLeft(text[i..]) == if IsSpace(text[i]) then TrimLeft(text[i + 1..]) else text[i..]
  {
    assert text[i..][1..] == text[i + 1..];
  }

  lemma KeyLengthAt(text: string, i: nat)
    requires i < |text|
    ensures KeyLength(text[i..]) == if IsSpace(text[i]) || text[i] == '=' then 0 else 1 + KeyLength(text[i + 1..])
  {
    assert text[i..][1..] == text[i + 1..];
  }

  /** Where the character of a value at `i` really is: after its backslash, unless nothing follows. */
  function Escaped(text: string, i: nat): nat
    requires i < |text|
  {
    if text[i] == '\\' && i + 1 < |text| then i + 1 else i
  }

  lemma QuotedAt(text: string, i: nat)
    requires i < |text|
    ensures text[i] == '\'' ==> Quoted(text[i..]) == ("", text[i + 1..])
    ensures text[i] != '\'' ==>
              var k := Escaped(text, i);
              Quoted(text[i..]) == ([text[k]] + Quoted(text[k + 1..]).0, Quoted(text[k + 1..]).1)
  {
    var k := Escaped(text, i);
    assert text[i..][1..] == text[i + 1..] && text[i..][k - i + 1..] == text[k + 1..];
  }

  lemma BareAt(text: string, i: nat)
    requires i < |text|
    ensures IsSpace(text[i]) ==> Bare(text[i..]) == ("", text[i..])
    ensures !IsSpace(text[i]) ==>
              var k := Escaped(text, i);
              Bare(text[i..]) == ([text[k]] + Bare(text[k + 1..]).0, Bare(text[k + 1..]).1)
  {
    hide IsSpace;
    var k := Escaped(text, i);
    assert text[i..][k - i + 1..] == text[k + 1..];
  }

  lemma AtEnd(text: string, i: nat)
    requires i == |text|
    ensures text[i..] == ""
    ensures TrimLeft("") == "" && KeyLength("") == 0 && Quoted("") == ("", "") && Bare("") == ("", "")
  {}

  // ---- The index-driven tokenizer ----

  method SkipSpaces(text: string, start: nat) returns (index: nat)
    requires start <= |text|
    ensures start <= index <= |text| && text[index..] == TrimLeft(text[start..])
  {
    hide IsSpace, TrimLeft;
    index := start;
    while index < |text| && IsSpace(text[index])
      invariant start <= index <= |text| && TrimLeft(text[index..]) == TrimLeft(text[start..])
    {
      TrimLeftAt(text, index);
      index := index + 1;
    }
    if index < |text| {
      TrimLeftAt(text, index);
    } else {
      AtEnd(text, index);
    }
  }

  method SkipKey(text: string, start: nat) returns (index: nat)
    requires start <= |text|
    ensures start <= index <= |text| && index == start + KeyLength(text[start..])
  {
    hide IsSpace, KeyLength;
    index := start;
    while index < |text| && !IsSpace(text[index]) && text[index] != '='
      invariant start <= index <= |text| && index + KeyLength(text[index..]) == start + KeyLength(text[start..])
    {
      KeyLengthAt(text, index);
      index := index + 1;
    }
    if index < |text| {
      KeyLengthAt(text, index);
    } else {
      AtEnd(text, index);
    }
  }

  /** The source also steps past a missing closing quote; its loop then ends as it does at the end of the text. */
  method ReadQuoted(text: string, start: nat) returns (value: string, index: nat)
    requires start <= |text|
    ensures start <= index <= |text| && (value, text[index..]) == Quoted(text[start..])
  {
    hide Quoted;
    value, index := "", start;
    assert "" + Quoted(text[start..]).0 == Quoted(text[start..]).0;
    while index < |text| && text[index] != '\''
      invariant start <= index <= |text|
      invariant Quoted(text[start..]) == (value + Quoted(text[index..]).0, Quoted(text[index..]).1)
    {
      QuotedAt(text, index);
      if text[index] == '\\' && index + 1 < |text| {
        index := index + 1;
      }
      ghost var tail := Quoted(text[index + 1..]).0;
      assert value + ([text[index]] + tail) == (value + [text[index]]) + tail;
      value := value + [text[index]];
      index := index + 1;
    }
    assert value + "" == value;
    if index < |text| {
      QuotedAt(text, index);
      index := index + 1;
    } else {
      AtEnd(text, index);
    }
  }

  method ReadBare(text: string, start: nat) returns (value: string, index: nat)
    requires start <= |text|
    ensures start <= index <= |text| && (value, text[index..]) == Bare(text[start..])
  {
    hide Bare, IsSpace;
    value, index := "", start;
    assert "" + Bare(text[start..]).0 == Bare(text[start..]).0;
    while index < |text| && !IsSpace(text[index])
      invariant start <= index <= |text|
      invariant Bare(text[start..]) == (value + Bare(text[index..]).0, Bare(text[index..]).1)
    {
      BareAt(text, index);
      if text[index] == '\\' && index + 1 < |text| {
        index := index + 1;
      }
      ghost var tail := Bare(text[index + 1..]).0;
      assert value + ([text[index]] + tail) == (value + [text[index]]) + tail;
      value := value + [text[index]];
      index := index + 1;
    }
    assert value + "" == value;
    if index < |text| {
      BareAt(text, index);
    } else {
      AtEnd(text, index);
    }
  }

  /** A turn that finds no `=` still consumes something. */
  lemma Progress(s: string)
    requires s != "" && (AfterKey(s).1 == "" || AfterKey(s).1[0] != '=')
    ensures |AfterKey(s).1| < |s|
  {
    var word := TrimLeft(s);
    assert word[0..] == word;
    assert TrimLeft(word) == word;
  }

  method ReadKey(text: string, start: nat) returns (key: string, index: nat)
    requires start <= |text|
    ensures start <= index <= |text| && (key, text[index..]) == AfterKey(text[start..])
  {
    hide TrimLeft, KeyLength;
    var word := SkipSpaces(text, start);
    index := SkipKey(text, word);
    key := text[word..index];
    assert text[word..][..index - word] == key && text[word..][index - word..] == text[index..];
    index := SkipSpaces(text, index);
  }

  method ReadValue(text: string, start: nat) returns (value: string, index: nat)
    requires start <= |text|
    ensures start <= index <= |text| && (value, text[index..]) == Value(text[start..])
  {
    hide Quoted, Bare;
    index := start;
    if index < |text| && text[index] == '\'' {
      assert text[index..][0] == '\'' && text[index..][1..] == text[index + 1..];
      value, index := ReadQuoted(text, index + 1);
    } else {
      assert text[index..] != "" ==> text[index..][0] == text[index];
      value, index := ReadBare(text, index);
    }
  }

  lemma ParseTurn(s: string, params: map<string, string>)
    requires s != ""
    ensures Parse(s, params) ==
            var (key, next) := AfterKey(s);
            if next == "" || next[0] != '=' then Parse(next, params)
            else
              var (value, rest) := Value(TrimLeft(next[1..]));
              Parse(rest, if key == "" then params else params[key := value])
  {}

  lemma ParseEnd(params: map<string, string>)
    ensures Parse("", params) == params
  {}

  /** One turn: a key, and a value for it if an `=` follows. */
  method ParseNext(text: string, start: nat, known: map<string, string>)
    returns (params: map<string, string>, index: nat)
    requires start < |text|
    ensures start < index <= |text| && Parse(text[index..], params) == Parse(text[start..], known)
  {
    hide Parse, TrimLeft, AfterKey, Value;
    ghost var here := text[start..];
    ParseTurn(here, known);
    params := known;
    var key;
    key, index := ReadKey(text, start);
    if index >= |text| || text[index] != '=' {
      Progress(here);
      return;
    }
    ghost var next := text[index..];
    index := SkipSpaces(text, index + 1);
    assert next[1..] == text[|text| - |next| + 1..];
    var value;
    value, index := ReadValue(text, index);
    if key != "" {
      params := params[key := value];
    }
  }

  method ParseKeywords(text: string) returns (params: map<string, string>)
    ensures params == Parse(text, map[])
  {
    hide Parse;
    params := map[];
    var index := 0;
    assert text[0..] == text;
    while index < |text|
      invariant 0 <= index <= |text| && Parse(text[index..], params) == Parse(text, map[])
    {
      params, index := ParseNext(text, index, params);
    }
    assert text[index..] == "";
    ParseEnd(params);
  }

  // ---- Printing ----

  /** One `key = value` with the whitespace around its parts; a bare value is never empty. */
  datatype Setting = Setting(gap: string, key: string, before: string, after: string, value: string, quoted: bool)

  predicate AllSpace(s: string) {
    forall c <- s :: IsSpace(c)
  }

  predicate ValidSetting(s: Setting) {
    && AllSpace(s.gap) && AllSpace(s.before) && AllSpace(s.after)
    && s.key != "" && (forall c <- s.key :: !IsSpace(c) && c != '=')
    && (s.value != "" || s.quoted)
  }

  function EscapeQuoted(v: string): string {
    if v == "" then "" else (if v[0] == '\'' || v[0] == '\\' then ['\\', v[0]] else [v[0]]) + EscapeQuoted(v[1..])
  }

  function EscapeBare(v: string): string {
    if v == "" then ""
    else (if v[0] == '\'' || v[0] == '\\' || IsSpace(v[0]) then ['\\', v[0]] else [v[0]]) + EscapeBare(v[1..])
  }

  function Body(s: Setting): string {
    if s.quoted then "'" + EscapeQuoted(s.value) + "'" else EscapeBare(s.value)
  }

  function Print(settings: seq<Setting>, trailing: string): string {
    if settings == [] then trailing
    else
      var s := settings[0];
      s.gap + (s.key + (s.before + ("=" + (s.after + (Body(s) + Print(settings[1..], trailing))))))
  }

  /** Valid settings, with whitespace after every bare value that another setting follows. */
  predicate Printable(settings: seq<Setting>, trailing: string) {
    && AllSpace(trailing)
    && (forall s <- settings :: ValidSetting(s))
    && (forall i :: 0 < i < |settings| && !settings[i - 1].quoted ==> settings[i].gap != "")
  }

  /** Later settings of a key win. */
  function Apply(settings: seq<Setting>, params: map<string, string>): map<string, string> {
    if settings == [] then params else Apply(settings[1..], params[settings[0].key := settings[0].value])
  }

  lemma {:induction false} TrimLeftSpaces(spaces: string, s: string)
    requires AllSpace(spaces)
    ensures TrimLeft(spaces + s) == TrimLeft(s)
  {
    if spaces == "" {
      assert spaces + s == s;
    } else {
      assert (spaces + s)[1..] == spaces[1..] + s;
      TrimLeftSpaces(spaces[1..], s);
    }
  }

  lemma {:induction false} KeyLengthOf(key: string, s: string)
    requires (forall c <- key :: !IsSpace(c) && c != '=') && s != "" && (IsSpace(s[0]) || s[0] == '=')
    ensures KeyLength(key + s) == |key|
  {
    hide IsSpace;
    if key == "" {
      assert key + s == s;
    } else {
      assert key[0] in key && (key + s)[0] == key[0];
      assert (key + s)[1..] == key[1..] + s;
      KeyLengthOf(key[1..], s);
    }
  }

  lemma QuotedStep(c: char, tail: string)
    ensures c != '\'' && c != '\\' ==> Quoted([c] + tail) == ([c] + Quoted(tail).0, Quoted(tail).1)
    ensures Quoted(['\\', c] + tail) == ([c] + Quoted(tail).0, Quoted(tail).1)
  {
    QuotedAt([c] + tail, 0);
    QuotedAt(['\\', c] + tail, 0);
    assert ([c] + tail)[0..] == [c] + tail && ([c] + tail)[1..] == tail;
    assert (['\\', c] + tail)[0..] == ['\\', c] + tail && (['\\', c] + tail)[2..] == tail;
  }

  lemma {:induction false} QuotedUndoesEscape(v: string, s: string)
    ensures Quoted(EscapeQuoted(v) + ("'" + s)) == (v, s)
  {
    hide Quoted;
    if v == "" {
      assert EscapeQuoted(v) + ("'" + s) == "'" + s;
      QuotedAt("'" + s, 0);
      assert ("'" + s)[0..] == "'" + s && ("'" + s)[1..] == s;
    } else {
      var head := if v[0] == '\'' || v[0] == '\\' then ['\\', v[0]] else [v[0]];
      var tail := EscapeQuoted(v[1..]) + ("'" + s);
      assert EscapeQuoted(v) == head + EscapeQuoted(v[1..]);
      hide EscapeQuoted;
      Associative(head, EscapeQuoted(v[1..]), "'" + s);
      QuotedStep(v[0], tail);
      QuotedUndoesEscape(v[1..], s);
      assert [v[0]] + v[1..] == v;
    }
  }

  lemma {:induction false} BareUndoesEscape(v: string, s: string)
    requires s == "" || IsSpace(s[0])
    ensures Bare(EscapeBare(v) + s) == (v, s)
  {
    if v == "" {
      assert EscapeBare(v) + s == s;
    } else {
      hide Bare, IsSpace;
      var head := if v[0] == '\'' || v[0] == '\\' || IsSpace(v[0]) then ['\\', v[0]] else [v[0]];
      var tail := EscapeBare(v[1..]) + s;
      assert EscapeBare(v) == head + EscapeBare(v[1..]);
      hide EscapeBare;
      Associative(head, EscapeBare(v[1..]), s);
      BareUndoesEscape(v[1..], s);
      assert [v[0]] + v[1..] == v;
    }
  }

  /** Neither kind of value begins with whitespace, and only a quoted one with a quote. */
  lemma BodyHead(s: Setting)
    requires ValidSetting(s)
    ensures Body(s) != "" && !IsSpace(Body(s)[0]) && (Body(s)[0] == '\'' <==> s.quoted)
  {}

  lemma ValueOfQuoted(v: string, rest: string)
    ensures Value("'" + EscapeQuoted(v) + "'" + rest) == (v, rest)
  {
    hide Quoted, EscapeQuoted, Bare;
    var text := "'" + EscapeQuoted(v) + "'" + rest;
    QuotedUndoesEscape(v, rest);
    assert text[0] == '\'' && text[1..] == EscapeQuoted(v) + ("'" + rest);
  }

  lemma ValueOfBody(s: Setting, rest: string)
    requires ValidSetting(s) && (s.quoted || rest == "" || IsSpace(rest[0]))
    ensures Value(Body(s) + rest) == (s.value, rest)
  {
    hide IsSpace, Quoted, Bare, EscapeQuoted, EscapeBare;
    BodyHead(s);
    if s.quoted {
      ValueOfQuoted(s.value, rest);
    } else {
      assert (Body(s) + rest)[0] == Body(s)[0];
      BareUndoesEscape(s.value, rest);
    }
  }

  lemma SkipToBody(s: Setting, rest: string)
    requires ValidSetting(s)
    ensures TrimLeft(s.after + (Body(s) + rest)) == Body(s) + rest
  {
    hide IsSpace, Body;
    var text := Body(s) + rest;
    BodyHead(s);
    assert text[0] == Body(s)[0];
    TrimLeftSpaces(s.after, text);
    assert TrimLeft(text) == text;
  }

  lemma KeyOfSetting(s: Setting, rest: string)
    requires ValidSetting(s)
    ensures AfterKey(s.gap + (s.key + (s.before + ("=" + rest)))) == (s.key, "=" + rest)
  {
    var equals := "=" + rest;
    var afterKey := s.before + equals;
    var word := s.key + afterKey;
    hide IsSpace;
    TrimLeftSpaces(s.before, equals);
    TrimLeftSpaces(s.gap, word);
    assert afterKey[0] == '=' || afterKey[0] in s.before;
    KeyLengthOf(s.key, afterKey);
    assert word[0] == s.key[0] && s.key[0] in s.key;
    assert TrimLeft(word) == word;
    EqualsIsNotSpace(rest);
    assert word[..|s.key|] == s.key && word[|s.key|..] == afterKey;
  }

  lemma EqualsIsNotSpace(rest: string)
    ensures TrimLeft("=" + rest) == "=" + rest
  {}

  lemma ParseSetting(s: Setting, rest: string, params: map<string, string>)
    requires ValidSetting(s) && (s.quoted || rest == "" || IsSpace(rest[0]))
    ensures Parse(s.gap + (s.key + (s.before + ("=" + (s.after + (Body(s) + rest))))), params) ==
            Parse(rest, params[s.key := s.value])
  {
    var tail := s.after + (Body(s) + rest);
    var text := s.gap + (s.key + (s.before + ("=" + tail)));
    KeyOfSetting(s, tail);
    SkipToBody(s, rest);
    ValueOfBody(s, rest);
    assert text != "" by {
      assert |text| >= |s.key|;
    }
    assert ("=" + tail)[1..] == tail;
    hide AfterKey, Value, TrimLeft, Body, IsSpace;
  }

  lemma RestIsSpaced(settings: seq<Setting>, trailing: string)
    requires Printable(settings, trailing) && settings != []
    ensures var rest := Print(settings[1..], trailing);
            settings[0].quoted || rest == "" || IsSpace(rest[0])
  {
    var rest := Print(settings[1..], trailing);
    if |settings| == 1 {
      assert trailing != "" ==> trailing[0] in trailing;
    } else if !settings[1 - 1].quoted {
      assert settings[1] in settings && settings[1].gap != "" && settings[1..][0] == settings[1];
      assert rest[0] == settings[1].gap[0] && settings[1].gap[0] in settings[1].gap;
    }
  }

  /** Parsing undoes printing, for every style of quoting and spacing and any values. */
  lemma {:induction false} ParseUndoesPrint(settings: seq<Setting>, trailing: string, params: map<string, string>)
    requires Printable(settings, trailing)
    ensures Parse(Print(settings, trailing), params) == Apply(settings, params)
  {
    if settings == [] {
      assert trailing + "" == trailing;
      TrimLeftSpaces(trailing, "");
    } else {
      var s, rest := settings[0], Print(settings[1..], trailing);
      RestIsSpaced(settings, trailing);
      hide Parse, AllSpace, IsSpace;
      ParseSetting(s, rest, params);
      ParseUndoesPrint(settings[1..], trailing, params[s.key := s.value]);
    }
  }
}
