/** White space as libpq and as Python see it, in the connection strings of `ci/redact.py`. */
module ConnInfoSpace {
  import opened Sequences
  import opened Text
  import opened ConnInfo

  /** White space to libpq: `isspace` of the C locale. Python counts further characters. */
  predicate IsCSpace(c: char) {
    c == ' ' || '\t' <= c <= '\r'
  }

  predicate AllCSpace(s: string) {
    forall c <- s :: IsCSpace(c)
  }

  /** All of the text's white space is white space to libpq too. */
  predicate Clean(s: string) {
    forall c <- s :: IsSpace(c) ==> IsCSpace(c)
  }

  /** A bare value as libpq needs it: only its own white space is escaped. */
  function EscapeC(v: string): string {
    if v == "" then ""
    else (if v[0] == '\'' || v[0] == '\\' || IsCSpace(v[0]) then ['\\', v[0]] else [v[0]]) + EscapeC(v[1..])
  }

  function BodyC(s: Setting): string {
    if s.quoted then "'" + EscapeQuoted(s.value) + "'" else EscapeC(s.value)
  }

  function PrintC(settings: seq<Setting>, trailing: string): string {
    if settings == [] then trailing
    else
      var s := settings[0];
      s.gap + (s.key + (s.before + ("=" + (s.after + (BodyC(s) + PrintC(settings[1..], trailing))))))
  }

  predicate ValidC(s: Setting) {
    && AllCSpace(s.gap) && AllCSpace(s.before) && AllCSpace(s.after)
    && s.key != "" && (forall c <- s.key :: !IsCSpace(c) && c != '=')
    && (s.value != "" || s.quoted)
  }

  /** Settings that libpq reads back as they are. */
  predicate PrintableC(settings: seq<Setting>, trailing: string) {
    && AllCSpace(trailing)
    && (forall s <- settings :: ValidC(s))
    && (forall i :: 0 < i < |settings| && !settings[i - 1].quoted ==> settings[i].gap != "")
  }

  predicate CleanSetting(s: Setting) {
    Clean(s.key) && (s.quoted || Clean(s.value))
  }

  ghost predicate ReadsBack(settings: seq<Setting>, trailing: string) {
    forall params :: Parse(PrintC(settings, trailing), params) == Apply(settings, params)
  }

  // ---- Clean settings ----

  lemma {:induction false} CleanEscape(v: string)
    requires Clean(v)
    ensures EscapeC(v) == EscapeBare(v)
  {
    if v != "" {
      assert v[0] in v && (IsSpace(v[0]) <==> IsCSpace(v[0]));
      CleanEscape(v[1..]);
    }
  }

  lemma CleanIsValid(s: Setting)
    requires ValidC(s) && CleanSetting(s)
    ensures ValidSetting(s) && BodyC(s) == Body(s)
  {
    if !s.quoted {
      CleanEscape(s.value);
    }
    hide EscapeC, EscapeBare;
  }

  lemma {:induction false} CleanPrint(settings: seq<Setting>, trailing: string)
    requires PrintableC(settings, trailing) && forall s <- settings :: CleanSetting(s)
    ensures Printable(settings, trailing) && PrintC(settings, trailing) == Print(settings, trailing)
  {
    hide ValidC, CleanSetting, BodyC, Body, ValidSetting, IsSpace;
    assert AllSpace(trailing) by {
      SpacesAreSpaces(trailing);
    }
    forall s <- settings ensures ValidSetting(s) {
      CleanIsValid(s);
    }
    if settings != [] {
      assert settings[0] in settings;
      CleanIsValid(settings[0]);
      CleanPrint(settings[1..], trailing);
    }
  }

  lemma SpacesAreSpaces(s: string)
    requires AllCSpace(s)
    ensures AllSpace(s)
  {}

  // ---- How long a value the rest of a text can give ----

  /** The characters of a text after its escapes are undone. */
  function Units(t: string): nat {
    if t == "" then 0 else if t[0] == '\\' && |t| > 1 then 1 + Units(t[2..]) else 1 + Units(t[1..])
  }

  lemma {:induction false} UnitsOfTail(t: string)
    requires t != ""
    ensures Units(t[1..]) <= Units(t)
    decreases |t|
  {
    if t[0] == '\\' && |t| > 2 && t[1] == '\\' {
      assert t[1..][2..] == t[2..][1..] && t[1..][1..] == t[2..];
      UnitsOfTail(t[2..]);
    } else if t[0] == '\\' && |t| > 1 {
      assert t[1..][1..] == t[2..];
    }
  }

  lemma {:induction false} UnitsOfSuffix(t: string, k: nat)
    requires k <= |t|
    ensures Units(t[k..]) <= Units(t)
  {
    if k > 0 {
      UnitsOfTail(t);
      assert t[1..][k - 1..] == t[k..];
      UnitsOfSuffix(t[1..], k - 1);
    } else {
      assert t[0..] == t;
    }
  }

  lemma {:induction false} BareUnits(t: string)
    ensures |Bare(t).0| + Units(Bare(t).1) == Units(t)
    decreases |t|
  {
    if t != "" && !IsSpace(t[0]) {
      hide IsSpace;
      BareUnits(t[if t[0] == '\\' && |t| > 1 then 2 else 1..]);
    }
  }

  lemma {:induction false} QuotedUnits(t: string)
    ensures |Quoted(t).0| + Units(Quoted(t).1) <= Units(t)
    decreases |t|
  {
    if t != "" && t[0] == '\'' {
      UnitsOfTail(t);
    } else if t != "" {
      QuotedUnits(t[if t[0] == '\\' && |t| > 1 then 2 else 1..]);
    }
  }

  lemma ValueUnits(t: string)
    ensures |Value(t).0| + Units(Value(t).1) <= Units(t)
  {
    hide Units, Quoted, Bare;
    BareUnits(t);
    if t != "" {
      QuotedUnits(t[1..]);
      UnitsOfTail(t);
    }
  }

  lemma TrimUnits(t: string)
    ensures Units(TrimLeft(t)) <= Units(t)
  {
    TrimLeftIsSuffix(t);
    UnitsOfSuffix(t, |t| - |TrimLeft(t)|);
  }

  lemma AfterKeyUnits(t: string)
    ensures Units(AfterKey(t).1) <= Units(t)
  {
    hide Units, TrimLeft;
    var word := TrimLeft(t);
    TrimUnits(t);
    UnitsOfSuffix(word, KeyLength(word));
    TrimUnits(word[KeyLength(word)..]);
  }

  predicate Shorter(params: map<string, string>, n: nat) {
    forall key <- params :: |params[key]| < n
  }

  /** A text cannot give a value longer than itself. */
  lemma {:induction false} ParseIsShorter(t: string, params: map<string, string>, n: nat)
    requires Units(t) < n && Shorter(params, n)
    ensures Shorter(Parse(t, params), n)
    decreases |t|
  {
    hide Units, AfterKey, Value, TrimLeft;
    if t == "" {
      ParseEnd(params);
    } else {
      ParseTurn(t, params);
      var (key, next) := AfterKey(t);
      AfterKeyUnits(t);
      if next == "" || next[0] != '=' {
        Progress(t);
        hide Parse;
        ParseIsShorter(next, params, n);
      } else {
        UnitsOfTail(next);
        TrimUnits(next[1..]);
        ValueUnits(TrimLeft(next[1..]));
        var (value, rest) := Value(TrimLeft(next[1..]));
        hide Parse;
        ParseIsShorter(rest, if key == "" then params else params[key := value], n);
      }
    }
  }

  /** Keys never hold white space of either kind. */
  lemma {:induction false} KeysHoldNoSpace(t: string, params: map<string, string>)
    requires forall key <- params :: forall c <- key :: !IsSpace(c)
    ensures forall key <- Parse(t, params) :: forall c <- key :: !IsSpace(c)
    decreases |t|
  {
    hide Value, TrimLeft, IsSpace;
    if t == "" {
      ParseEnd(params);
    } else {
      ParseTurn(t, params);
      var (key, next) := AfterKey(t);
      KeyHoldsNoSpace(TrimLeft(t));
      if next == "" || next[0] != '=' {
        Progress(t);
        hide Parse;
        KeysHoldNoSpace(next, params);
      } else {
        var (value, rest) := Value(TrimLeft(next[1..]));
        hide Parse;
        KeysHoldNoSpace(rest, if key == "" then params else params[key := value]);
      }
    }
  }

  lemma {:induction false} KeyHoldsNoSpace(word: string)
    ensures forall c <- word[..KeyLength(word)] :: !IsSpace(c)
  {
    hide IsSpace;
    if word != "" && !IsSpace(word[0]) && word[0] != '=' {
      KeyHoldsNoSpace(word[1..]);
      assert word[..KeyLength(word)] == [word[0]] + word[1..][..KeyLength(word[1..])];
    }
  }

  // ---- Settings that are not clean ----

  lemma {:induction false} EscapedUnits(v: string)
    ensures Units(EscapeC(v)) == |v|
  {
    if v != "" {
      var e := EscapeC(v);
      EscapedUnits(v[1..]);
      assert e[if v[0] == '\'' || v[0] == '\\' || IsCSpace(v[0]) then 2 else 1..] == EscapeC(v[1..]);
      hide EscapeC, IsCSpace;
    }
  }

  /** A bare reading stops at white space that libpq does not escape. */
  lemma {:induction false} BareStops(v: string)
    requires !Clean(v)
    ensures Bare(EscapeC(v)).1 != ""
  {
    var e := EscapeC(v);
    assert v != "";
    if !(IsSpace(v[0]) && !IsCSpace(v[0])) {
      assert !Clean(v[1..]) by {
        var c :| c in v && IsSpace(c) && !IsCSpace(c);
        assert c in v[1..];
      }
      BareStops(v[1..]);
      BareAt(e, 0);
      assert e[0..] == e;
      assert e[Escaped(e, 0) + 1..] == EscapeC(v[1..]);
    }
  }

  lemma EscapeHead(v: string)
    requires v != ""
    ensures EscapeC(v) != "" && EscapeC(v)[0] != '\''
    ensures IsSpace(EscapeC(v)[0]) ==> EscapeC(v)[0] != '\\' && Units(EscapeC(v)) == 1 + Units(EscapeC(v)[1..])
  {
    assert !IsSpace('\\');
    hide IsSpace, IsCSpace;
  }

  lemma BareTakesOne(t: string)
    requires t != "" && !IsSpace(t[0])
    ensures |Bare(t).0| > 0
  {
    hide IsSpace;
  }

  /** What is read first from an unclean bare value, and what is left of it, are both shorter than the value. */
  lemma UncleanValue(v: string)
    requires !Clean(v)
    ensures var (value, rest) := Value(TrimLeft(EscapeC(v))); |value| < |v| && Units(rest) < |v|
  {
    assert v != "";
    hide Clean;
    var e := EscapeC(v);
    EscapedUnits(v);
    EscapeHead(v);
    BareStops(v);
    var trimmed := TrimLeft(e);
    assert if IsSpace(e[0]) then trimmed == TrimLeft(e[1..]) else trimmed == e;
    hide EscapeC, TrimLeft;
    if IsSpace(e[0]) {
      hide Units, Value, IsSpace;
      TrimUnits(e[1..]);
      ValueUnits(trimmed);
    } else {
      assert Value(e) == Bare(e);
      BareUnits(e);
      BareTakesOne(e);
      assert Units(Bare(e).1) > 0;
    }
  }

  lemma UncleanIsNotReadBack(s: Setting)
    requires ValidC(s) && !CleanSetting(s)
    ensures !ReadsBack([s], "")
  {
    var text, none: map<string, string> := PrintC([s], ""), map[];
    assert Apply([s], none) == map[s.key := s.value] by {
      assert [s][1..] == [] && none[s.key := s.value] == map[s.key := s.value];
    }
    if !Clean(s.key) {
      KeysHoldNoSpace(text, none);
      assert s.key in Apply([s], none);
    } else {
      UncleanValueIsLost(s);
      assert |Apply([s], none)[s.key]| == |s.value|;
    }
    assert Parse(text, none) != Apply([s], none);
  }

  lemma UncleanValueIsLost(s: Setting)
    requires ValidC(s) && Clean(s.key) && !s.quoted && !Clean(s.value)
    ensures Shorter(Parse(PrintC([s], ""), map[]), |s.value|)
  {
    var body := EscapeC(s.value);
    var tail := s.after + body;
    var text := s.gap + (s.key + (s.before + ("=" + tail)));
    assert PrintC([s], "") == text by {
      assert [s][1..] == [] && body + "" == body;
    }
    var spaced := s.(value := "x");
    SpacesAreSpaces(s.gap);
    SpacesAreSpaces(s.before);
    SpacesAreSpaces(s.after);
    assert ValidSetting(spaced);
    KeyOfSetting(spaced, tail);
    TrimLeftSpaces(s.after, body);
    UncleanValue(s.value);
    var (value, rest) := Value(TrimLeft(body));
    assert ("=" + tail)[1..] == tail && text != "";
    ParseTurn(text, map[]);
    hide Parse, Value, TrimLeft, AfterKey;
    ParseIsShorter(rest, map[s.key := value], |s.value|);
  }

  // ---- Exactly which settings are read back ----

  /** Printed for libpq among clean settings, in any number and order, the setting is read back. */
  ghost predicate Reliable(s: Setting) {
    forall settings, trailing ::
      PrintableC(settings, trailing) && s in settings && (forall o <- settings :: o == s || CleanSetting(o)) ==>
        ReadsBack(settings, trailing)
  }

  /**
   With libpq's own escaping a setting is read back, whatever clean settings it stands among, exactly when neither its
   key nor its bare value holds a character that Python alone takes for white space.
   */
  lemma ReliableIff(s: Setting)
    requires ValidC(s)
    ensures Reliable(s) <==> CleanSetting(s)
  {
    hide ValidC, CleanSetting;
    if CleanSetting(s) {
      forall settings, trailing
        | PrintableC(settings, trailing) && s in settings && (forall o <- settings :: o == s || CleanSetting(o))
        ensures ReadsBack(settings, trailing)
      {
        CleanPrint(settings, trailing);
        forall params ensures Parse(PrintC(settings, trailing), params) == Apply(settings, params) {
          ParseUndoesPrint(settings, trailing, params);
        }
      }
    } else {
      UncleanIsNotReadBack(s);
      assert PrintableC([s], "") && s in [s];
    }
  }

  lemma ReadToNoBreakSpace()
    ensures Value("a\U{A0}bcdef") == ("a", "\U{A0}bcdef") && TrimLeft("a\U{A0}bcdef") == "a\U{A0}bcdef"
  {
    var value := "a\U{A0}bcdef";
    assert IsSpace('\U{A0}') && !IsSpace('a');
    assert value[0] == 'a' && value[1] == '\U{A0}';
    hide IsSpace;
    BareAt(value, 0);
    BareAt(value, 1);
    assert value[0..] == value && value[1..] == "\U{A0}bcdef";
    assert "a" + "" == "a";
    assert Bare(value) == ("a", "\U{A0}bcdef");
    hide Bare, Quoted;
    assert !("'" <= value);
  }

  /** A word at the end of the text sets nothing. */
  lemma LastWordIsDropped(spaces: string, word: string, params: map<string, string>)
    requires AllSpace(spaces) && IsWord(word)
    ensures Parse(spaces + word, params) == params
  {
    TrimLeftSpaces(spaces, word);
    assert word[0] in word && TrimLeft(word) == word;
    WholeWord(word);
    hide IsSpace, TrimLeft, KeyLength;
    assert word[..|word|] == word && word[|word|..] == "";
    AtEnd("", 0);
    ParseTurn(spaces + word, params);
    ParseEnd(params);
  }

  predicate IsWord(word: string) {
    word != "" && forall c <- word :: !IsSpace(c) && c != '='
  }

  lemma ParseAssignment(key: string, text: string, params: map<string, string>)
    requires IsWord(key)
    ensures var (value, rest) := Value(TrimLeft(text));
            Parse(key + ("=" + text), params) == Parse(rest, params[key := value])
  {
    var whole := key + ("=" + text);
    KeyOfSetting(Setting("", key, "", "", "x", false), text);
    assert "" + (key + ("" + ("=" + text))) == whole && "" + ("=" + text) == "=" + text;
    assert ("=" + text)[1..] == text && whole != "";
    hide IsSpace, Value, TrimLeft, AfterKey;
    ParseTurn(whole, params);
  }

  lemma ExampleWords()
    ensures IsWord("password") && IsWord("bcdef")
  {}

  /** `password=a\u00a0bcdef`, whose value libpq reads whole, gives the password `a`. */
  lemma NoBreakSpaceEndsTheValue()
    ensures Parse("password=a\U{A0}bcdef", map[]) == map["password" := "a"]
  {
    ExampleWords();
    ReadToNoBreakSpace();
    assert AllSpace("\U{A0}");
    assert "password=a\U{A0}bcdef" == "password" + ("=" + "a\U{A0}bcdef");
    assert "\U{A0}bcdef" == "\U{A0}" + "bcdef";
    hide Parse, Value, TrimLeft, IsWord, AllSpace, IsSpace;
    ParseAssignment("password", "a\U{A0}bcdef", map[]);
    LastWordIsDropped("\U{A0}", "bcdef", map["password" := "a"]);
  }

  lemma {:induction false} WholeWord(word: string)
    requires forall c <- word :: !IsSpace(c) && c != '='
    ensures KeyLength(word) == |word|
  {
    hide IsSpace;
    if word != "" {
      assert word[0] in word;
      WholeWord(word[1..]);
    }
  }
}
