/** Canonical JSON text (`canonical_json` in `report/serialize.py`) and the RFC 8259 reader that undoes it. */
module Json {
  import opened Options
  import opened Sorting
  import opened JsonText
  import opened Sequences

  /** JSON values without floats; objects are unordered. */
  datatype Json =
    | Null
    | Bool(b: bool)
    | Int(n: int)
    | String(s: string)
    | List(items: seq<Json>)
    | Object(members: map<string, Json>)

  // ---- Keys in order ----

  lemma {:induction false} LeastOf(keys: set<string>) returns (least: string)
    requires keys != {}
    ensures least in keys && forall other <- keys :: TextLeq(least, other)
  {
    hide TextLeq;
    var k :| k in keys;
    var rest := keys - {k};
    TextTotal(k, k);
    least := k;
    if rest != {} {
      var next := LeastOf(rest);
      TextTotal(k, next);
      if TextLeq(k, next) {
        forall other <- rest ensures TextLeq(k, other) {
          TextTransitive(k, next, other);
        }
      } else {
        least := next;
      }
    }
    forall other <- keys ensures TextLeq(least, other) {
      assert other == k || other in rest;
    }
  }

  lemma LeastExists(keys: set<string>)
    requires keys != {}
    ensures exists k :: k in keys && forall other <- keys :: TextLeq(k, other)
  {
    var least := LeastOf(keys);
  }

  /** The keys of an object, ascending by code point. */
  function KeysInOrder(keys: set<string>): (r: seq<string>)
    ensures |r| == |keys|
    ensures forall k :: k in r <==> k in keys
    ensures Sorted(TextLeq, r) && Distinct(r)
  {
    if keys == {} then []
    else
      TextOrder();
      LeastExists(keys);
      var least :| least in keys && forall other <- keys :: TextLeq(least, other);
      var rest := KeysInOrder(keys - {least});
      SortedCons(TextLeq, least, rest);
      [least] + rest
  }

  // ---- Printing ----

  function PrintScalar(j: Json): (t: string)
    requires j.Null? || j.Bool? || j.Int? || j.String?
    ensures t != "" && StartsValue(t[0])
  {
    match j
    case Null => "null"
    case Bool(b) => if b then "true" else "false"
    case Int(n) => PrintInt(n)
    case String(s) => Quoted(s)
  }

  /** First characters of values; none is white space or closes a list or an object. */
  predicate StartsValue(c: char) {
    c in {'n', 't', 'f', '-', '"', '[', '{'} || IsDigit(c)
  }

  /** Sorted keys, no white space, ASCII only. */
  function Print(j: Json): (t: string)
    ensures t != "" && StartsValue(t[0])
    decreases j, 1, 0
  {
    match j
    case List(items) => "[" + PrintItems(j, 0)
    case Object(members) => "{" + PrintMembers(j, KeysInOrder(members.Keys))
    case _ => PrintScalar(j)
  }

  /** A list from its item `i` on, closed. */
  function PrintItems(j: Json, i: nat): string
    requires j.List? && i <= |j.items|
    decreases j, 0, |j.items| - i
  {
    if i == |j.items| then "]"
    else Print(j.items[i]) + (if i + 1 < |j.items| then "," + PrintItems(j, i + 1) else "]")
  }

  function PrintMembers(j: Json, keys: seq<string>): string
    requires j.Object? && forall k <- keys :: k in j.members
    decreases j, 0, |keys|
  {
    if keys == [] then "}"
    else
      Quoted(keys[0]) + ":" + Print(j.members[keys[0]])
      + (if |keys| > 1 then "," + PrintMembers(j, keys[1..]) else "}")
  }

  // ---- Reading ----

  predicate IsWhite(c: char) {
    c == ' ' || c == '\t' || c == '\n' || c == '\r'
  }

  function SkipWhite(s: string): (t: string)
    ensures |t| <= |s|
  {
    if s != "" && IsWhite(s[0]) then SkipWhite(s[1..]) else s
  }

  function ReadWord(s: string, word: string, value: Json): (r: Read<Json>)
    requires word != ""
    ensures r.Done? ==> |r.rest| < |s|
  {
    if word <= s then Done(value, s[|word|..]) else Fail
  }

  /** One value at the start of `s`. Of two members of one name the later counts. */
  function ReadValue(s: string): (r: Read<Json>)
    ensures r.Done? ==> |r.rest| < |s|
    decreases |s|, 0
  {
    if s == "" then Fail
    else if s[0] == '[' then ReadList(s)
    else if s[0] == '{' then ReadObject(s)
    else if s[0] == '"' then
      match ReadText(s[1..])
      case Fail => Fail
      case Done(text, rest) => Done(String(text), rest)
    else if s[0] == 'n' then ReadWord(s, "null", Null)
    else if s[0] == 't' then ReadWord(s, "true", Bool(true))
    else if s[0] == 'f' then ReadWord(s, "false", Bool(false))
    else
      match ReadInt(s)
      case Fail => Fail
      case Done(n, rest) => Done(Int(n), rest)
  }

  function ReadList(s: string): (r: Read<Json>)
    requires s != ""
    ensures r.Done? ==> |r.rest| < |s|
    decreases |s| - 1, 4
  {
    var t := SkipWhite(s[1..]);
    if t != "" && t[0] == ']' then Done(List([]), t[1..])
    else
      match ReadItems(t)
      case Fail => Fail
      case Done(items, rest) => Done(List(items), rest)
  }

  /** Items separated by commas, and the closing bracket. */
  function ReadItems(s: string): (r: Read<seq<Json>>)
    ensures r.Done? ==> |r.rest| < |s|
    decreases |s|, 3
  {
    match ReadValue(s)
    case Fail => Fail
    case Done(item, rest) =>
      var t := SkipWhite(rest);
      if t != "" && t[0] == ']' then Done([item], t[1..])
      else if t != "" && t[0] == ',' then
        match ReadItems(SkipWhite(t[1..]))
        case Fail => Fail
        case Done(items, after) => Done([item] + items, after)
      else Fail
  }

  function ReadObject(s: string): (r: Read<Json>)
    requires s != ""
    ensures r.Done? ==> |r.rest| < |s|
    decreases |s| - 1, 4
  {
    var t := SkipWhite(s[1..]);
    if t != "" && t[0] == '}' then Done(Object(map[]), t[1..])
    else
      match ReadMembers(t)
      case Fail => Fail
      case Done(members, rest) => Done(Object(members), rest)
  }

  /** A member's name and value. */
  function ReadMember(s: string): (r: Read<(string, Json)>)
    ensures r.Done? ==> |r.rest| < |s|
    decreases |s|, 1
  {
    if s == "" || s[0] != '"' then Fail
    else
      match ReadText(s[1..])
      case Fail => Fail
      case Done(key, rest) =>
        var t := SkipWhite(rest);
        if t == "" || t[0] != ':' then Fail
        else
          match ReadValue(SkipWhite(t[1..]))
          case Fail => Fail
          case Done(value, after) => Done((key, value), after)
  }

  function ReadMembers(s: string): (r: Read<map<string, Json>>)
    ensures r.Done? ==> |r.rest| < |s|
    decreases |s|, 3
  {
    match ReadMember(s)
    case Fail => Fail
    case Done(member, rest) =>
      var t := SkipWhite(rest);
      if t != "" && t[0] == '}' then Done(map[member.0 := member.1], t[1..])
      else if t != "" && t[0] == ',' then
        match ReadMembers(SkipWhite(t[1..]))
        case Fail => Fail
        case Done(members, after) => Done(map[member.0 := member.1] + members, after)
      else Fail
  }

  /** A whole text is one value, with white space around it allowed. */
  function Load(text: string): Option<Json> {
    match ReadValue(SkipWhite(text))
    case Fail => None
    case Done(j, rest) => if SkipWhite(rest) == "" then Some(j) else None
  }

  // ---- Reading undoes printing ----

  lemma NothingToSkip(s: string)
    requires s != "" && !IsWhite(s[0])
    ensures SkipWhite(s) == s
  {}

  lemma AfterFirst(first: char, middle: string, rest: string)
    ensures [first] + middle + rest == [first] + (middle + rest)
    ensures ([first] + middle + rest)[0] == first && ([first] + middle + rest)[1..] == middle + rest
  {}

  lemma QuotedThen(text: string, rest: string)
    ensures Quoted(text) != "" && (Quoted(text) + rest)[0] == '"'
    ensures (Quoted(text) + rest)[1..] == Escaped(text) + "\"" + rest
  {
    var body := Escaped(text) + "\"";
    assert Quoted(text) == ['"'] + body;
    hide *;
    AfterFirst('"', body, rest);
  }

  lemma WordBack(word: string, value: Json, rest: string)
    requires word != ""
    ensures ReadWord(word + rest, word, value) == Done(value, rest)
  {
    assert (word + rest)[|word|..] == rest;
  }

  lemma IntBack(n: int, rest: string)
    requires EndsNumber(rest)
    ensures ReadValue(PrintInt(n) + rest) == Done(Int(n), rest)
  {
    ReadIntBack(n, rest);
    hide ReadInt, ReadList, ReadObject, ReadText, ReadWord, PrintInt;
    assert (PrintInt(n) + rest)[0] == PrintInt(n)[0];
  }

  lemma TextBack(text: string, rest: string)
    ensures ReadValue(Quoted(text) + rest) == Done(String(text), rest)
  {
    QuotedThen(text, rest);
    hide ReadInt, ReadList, ReadObject, ReadText, ReadWord, Quoted, Escaped;
    ReadTextBack(text, rest);
  }

  lemma ScalarBack(j: Json, rest: string)
    requires j.Null? || j.Bool? || j.Int? || j.String?
    requires EndsNumber(rest)
    ensures ReadValue(PrintScalar(j) + rest) == Done(j, rest)
  {
    hide ReadInt, ReadList, ReadObject, ReadText, ReadWord, Quoted, PrintInt;
    match j
    case Null => WordBack("null", j, rest);
    case Bool(b) => WordBack(if b then "true" else "false", j, rest);
    case Int(n) => IntBack(n, rest);
    case String(text) => TextBack(text, rest);
  }

  lemma LastItem(s: string, item: Json, after: string)
    requires ReadValue(s) == Done(item, "]" + after)
    ensures ReadItems(s) == Done([item], after)
  {
    hide ReadValue;
    assert ("]" + after)[1..] == after;
  }

  lemma MoreItems(s: string, item: Json, t: string, items: seq<Json>, after: string)
    requires ReadValue(s) == Done(item, "," + t)
    requires t != "" && !IsWhite(t[0]) && ReadItems(t) == Done(items, after)
    ensures ReadItems(s) == Done([item] + items, after)
  {
    hide ReadValue;
    assert ("," + t)[1..] == t;
    NothingToSkip(t);
  }

  lemma MemberParts(s: string, key: string, t: string, value: Json, rest: string)
    requires s != "" && s[0] == '"' && ReadText(s[1..]) == Done(key, ":" + t)
    requires t != "" && !IsWhite(t[0]) && ReadValue(t) == Done(value, rest)
    ensures ReadMember(s) == Done((key, value), rest)
  {
    assert (":" + t)[1..] == t;
    hide ReadValue, ReadText;
  }

  lemma OneMember(key: string, value: Json, printed: string, rest: string)
    requires printed != "" && !IsWhite(printed[0])
    requires ReadValue(printed + rest) == Done(value, rest)
    ensures ReadMember(Quoted(key) + ":" + printed + rest) == Done((key, value), rest)
  {
    hide *;
    var s, tail := Quoted(key) + ":" + printed + rest, ":" + (printed + rest);
    QuotedThen(key, tail);
    assert s == Quoted(key) + tail;
    ReadTextBack(key, tail);
    MemberParts(s, key, printed + rest, value, rest);
  }

  lemma LastMember(s: string, key: string, value: Json, after: string)
    requires ReadMember(s) == Done((key, value), "}" + after)
    ensures ReadMembers(s) == Done(map[key := value], after)
  {
    hide ReadMember;
    assert ("}" + after)[1..] == after;
  }

  lemma MoreMembers(s: string, key: string, value: Json, t: string, members: map<string, Json>, after: string)
    requires ReadMember(s) == Done((key, value), "," + t)
    requires t != "" && !IsWhite(t[0]) && ReadMembers(t) == Done(members, after)
    ensures ReadMembers(s) == Done(map[key := value] + members, after)
  {
    hide ReadMember;
    assert ("," + t)[1..] == t;
    NothingToSkip(t);
  }

  lemma ObjectBack(s: string, members: map<string, Json>, rest: string)
    requires s != "" && s[0] == '{' && s[1..] != ""
    requires members == map[] ==> s[1..] == "}" + rest
    requires members != map[] ==> !IsWhite(s[1]) && s[1] != '}' && ReadMembers(s[1..]) == Done(members, rest)
    ensures ReadValue(s) == Done(Object(members), rest)
  {
    hide ReadItems, ReadList, ReadMembers, ReadInt, ReadText, ReadWord;
    NothingToSkip(s[1..]);
    assert members == map[] ==> s[1..][1..] == rest;
  }

  /** Every value is read back from its text, whatever follows. */
  lemma {:induction false} ReadValueBack(j: Json, rest: string)
    requires EndsNumber(rest)
    ensures ReadValue(Print(j) + rest) == Done(j, rest)
    decreases j, 1, 0
  {
    hide ReadValue;
    match j
    case List(items) => ReadListBack(j, rest);
    case Object(members) => ReadObjectBack(j, rest);
    case _ => ScalarBack(j, rest);
  }

  lemma ReadListBack(j: Json, rest: string)
    requires j.List?
    ensures ReadValue(Print(j) + rest) == Done(j, rest)
    decreases j, 0, |j.items| + 1
  {
    var text := PrintItems(j, 0);
    assert Print(j) == ['['] + text;
    if j.items == [] {
      assert text == "]";
      hide *;
      AfterFirst('[', text, rest);
    } else {
      hide *;
      AfterFirst('[', text, rest);
      ItemsBack(j, 0, rest);
      FirstItem(j, 0, rest);
      assert j.items[0..] == j.items;
    }
  }

  lemma FirstItem(j: Json, i: nat, rest: string)
    requires j.List? && i < |j.items|
    ensures var t := PrintItems(j, i) + rest; t != "" && !IsWhite(t[0]) && t[0] != ']'
  {
    assert (PrintItems(j, i) + rest)[0] == Print(j.items[i])[0];
  }

  lemma ReadObjectBack(j: Json, rest: string)
    requires j.Object?
    ensures ReadValue(Print(j) + rest) == Done(j, rest)
    decreases j, 0, |j.members| + 1
  {
    var keys := KeysInOrder(j.members.Keys);
    var text := PrintMembers(j, keys);
    assert Print(j) == ['{'] + text;
    hide *;
    AfterFirst('{', text, rest);
    if keys == [] {
    } else {
      FirstMember(j, keys);
      MembersBack(j, keys, rest);
      AllMembers(j.members, keys);
      NameFollows(text, rest);
    }
    ObjectBack(Print(j) + rest, j.members, rest);
  }

  lemma AllMembers(members: map<string, Json>, keys: seq<string>)
    requires keys != [] && forall k :: k in keys <==> k in members
    ensures (map k | k in keys :: members[k]) == members && members != map[]
  {
    assert keys[0] in members;
  }

  lemma NameFollows(text: string, rest: string)
    requires text != "" && text[0] == '"'
    ensures text + rest != "" && !IsWhite((text + rest)[0]) && (text + rest)[0] != '}'
  {}

  /** How a nonempty object body begins. */
  lemma FirstMember(j: Json, keys: seq<string>)
    requires j.Object? && keys != [] && forall k <- keys :: k in j.members
    ensures var printed := Print(j.members[keys[0]]);
            && PrintMembers(j, keys) ==
                 Quoted(keys[0]) + ":" + printed + (if |keys| > 1 then "," + PrintMembers(j, keys[1..]) else "}")
            && printed != "" && !IsWhite(printed[0])
    ensures PrintMembers(j, keys) != "" && PrintMembers(j, keys)[0] == '"'
  {
    hide Print;
    assert Quoted(keys[0])[0] == '"';
  }

  lemma PunctuationEnds(c: char, rest: string)
    requires c in {',', ']', '}'}
    ensures EndsNumber([c] + rest)
  {}

  lemma PrintedItem(j: Json, i: nat)
    requires j.List? && i < |j.items|
    ensures PrintItems(j, i) ==
            Print(j.items[i]) + (if i + 1 < |j.items| then "," + PrintItems(j, i + 1) else "]")
    ensures j.items[i..] == [j.items[i]] + j.items[i + 1..]
    ensures i + 1 == |j.items| ==> j.items[i..] == [j.items[i]]
  {
    hide Print;
  }

  lemma {:induction false} ItemsBack(j: Json, i: nat, rest: string)
    requires j.List? && i < |j.items|
    ensures ReadItems(PrintItems(j, i) + rest) == Done(j.items[i..], rest)
    decreases j, 0, |j.items| - i
  {
    hide *;
    var s := PrintItems(j, i) + rest;
    var item := j.items[i];
    PrintedItem(j, i);
    if i + 1 == |j.items| {
      PunctuationEnds(']', rest);
      ReadValueBack(item, "]" + rest);
      Associative(Print(item), "]", rest);
      LastItem(s, item, rest);
    } else {
      var tail := PrintItems(j, i + 1);
      var t := tail + rest;
      PunctuationEnds(',', t);
      ReadValueBack(item, "," + t);
      Associative(Print(item), "," + tail, rest);
      Associative(",", tail, rest);
      ItemsBack(j, i + 1, rest);
      FirstItem(j, i + 1, rest);
      MoreItems(s, item, t, j.items[i + 1..], rest);
    }
  }

  lemma {:induction false} MembersBack(j: Json, keys: seq<string>, rest: string)
    requires j.Object? && keys != [] && Distinct(keys) && forall k <- keys :: k in j.members
    ensures ReadMembers(PrintMembers(j, keys) + rest) == Done(map k | k in keys :: j.members[k], rest)
    decreases j, 0, |keys|
  {
    hide *;
    var key := keys[0];
    var value := j.members[key];
    var printed := Print(value);
    var s := PrintMembers(j, keys) + rest;
    var head := Quoted(key) + ":" + printed;
    FirstMember(j, keys);
    if |keys| == 1 {
      PunctuationEnds('}', rest);
      ReadValueBack(value, "}" + rest);
      OneMember(key, value, printed, "}" + rest);
      Associative(head, "}", rest);
      LastMember(s, key, value, rest);
      assert keys == [key];
    } else {
      var tail := PrintMembers(j, keys[1..]);
      var t := tail + rest;
      PunctuationEnds(',', t);
      ReadValueBack(value, "," + t);
      OneMember(key, value, printed, "," + t);
      Associative(head, "," + tail, rest);
      Associative(",", tail, rest);
      TailDistinct(keys);
      MembersBack(j, keys[1..], rest);
      FirstMember(j, keys[1..]);
      NameFollows(tail, rest);
      var more := map k | k in keys[1..] :: j.members[k];
      MoreMembers(s, key, value, t, more, rest);
      assert keys == [key] + keys[1..];
    }
    MembersSplit(j.members, keys);
  }

  lemma MembersSplit(members: map<string, Json>, keys: seq<string>)
    requires keys != [] && forall k <- keys :: k in members
    ensures (map k | k in keys :: members[k]) ==
            map[keys[0] := members[keys[0]]] + map k | k in keys[1..] :: members[k]
    ensures |keys| == 1 ==> (map k | k in keys :: members[k]) == map[keys[0] := members[keys[0]]]
  {
    assert keys == [keys[0]] + keys[1..];
  }

  lemma TailDistinct(keys: seq<string>)
    requires Distinct(keys) && keys != []
    ensures Distinct(keys[1..]) && forall k <- keys[1..] :: k in keys
  {}

  /** A printed value loads as itself, also from a file that ends with a newline. */
  lemma LoadUndoesPrint(j: Json)
    ensures Load(Print(j)) == Some(j)
    ensures Load(Print(j) + "\n") == Some(j)
  {
    ReadValueBack(j, "");
    ReadValueBack(j, "\n");
    hide ReadValue;
    assert Print(j) + "" == Print(j);
    NothingToSkip(Print(j));
    NothingToSkip(Print(j) + "\n");
    assert "\n"[1..] == "";
    assert SkipWhite("\n") == SkipWhite("");
  }

  /** Equal text means equal value. */
  lemma SameTextIffSameValue(a: Json, b: Json)
    ensures Print(a) == Print(b) <==> a == b
  {
    LoadUndoesPrint(a);
    LoadUndoesPrint(b);
  }

  // ---- The text is printable ASCII ----

  predicate Printable(t: string) {
    forall i :: 0 <= i < |t| ==> ' ' <= t[i] <= '~'
  }

  lemma PrintableHex(n: nat)
    requires n < 0x10000
    ensures Printable(Unicode(n))
  {
    assert forall i :: 0 <= i < 16 ==> ' ' <= HEX[i] <= '~';
  }

  lemma PrintableEscape(c: char)
    ensures Printable(EscapeChar(c))
  {
    var n := c as int;
    hide Unicode;
    if n < 0x10000 {
      PrintableHex(n);
    } else {
      PrintableHex(0xD800 + (n - 0x10000) / 1024);
      PrintableHex(0xDC00 + (n - 0x10000) % 1024);
    }
  }

  lemma {:induction false} PrintableText(s: string)
    ensures Printable(Escaped(s))
  {
    if s != "" {
      PrintableEscape(s[0]);
      hide EscapeChar;
      PrintableText(s[1..]);
    }
  }

  lemma PrintableScalar(j: Json)
    requires j.Null? || j.Bool? || j.Int? || j.String?
    ensures Printable(PrintScalar(j))
  {
    hide Escaped, StartsValue, Digits;
    if j.String? {
      PrintableText(j.s);
    }
  }

  /** Canonical text never fails to encode as ASCII and holds no line break. */
  lemma {:induction false} PrintIsPrintable(j: Json)
    ensures Printable(Print(j))
    decreases j, 1, 0
  {
    hide PrintScalar, PrintItems, PrintMembers, KeysInOrder, StartsValue;
    match j
    case List(items) => PrintableItems(j, 0);
    case Object(members) => PrintableMembers(j, KeysInOrder(members.Keys));
    case _ => PrintableScalar(j);
  }

  lemma {:induction false} PrintableItems(j: Json, i: nat)
    requires j.List? && i <= |j.items|
    ensures Printable(PrintItems(j, i))
    decreases j, 0, |j.items| - i
  {
    hide Print;
    if i < |j.items| {
      PrintIsPrintable(j.items[i]);
      PrintableItems(j, i + 1);
    }
  }

  lemma {:induction false} PrintableMembers(j: Json, keys: seq<string>)
    requires j.Object? && forall k <- keys :: k in j.members
    ensures Printable(PrintMembers(j, keys))
    decreases j, 0, |keys|
  {
    hide Print, Escaped;
    if keys != [] {
      PrintableText(keys[0]);
      PrintIsPrintable(j.members[keys[0]]);
      PrintableMembers(j, keys[1..]);
    }
  }

  // ---- The shape of the text ----

  /** Commas between the parts and nothing else. */
  function JoinCommas(parts: seq<string>): string {
    if |parts| == 0 then "" else if |parts| == 1 then parts[0] else parts[0] + "," + JoinCommas(parts[1..])
  }

  function ItemTexts(items: seq<Json>): (texts: seq<string>)
    ensures |texts| == |items|
  {
    seq(|items|, i requires 0 <= i < |items| => Print(items[i]))
  }

  function MemberTexts(members: map<string, Json>, keys: seq<string>): (texts: seq<string>)
    requires forall k <- keys :: k in members
    ensures |texts| == |keys|
  {
    seq(|keys|, i requires 0 <= i < |keys| => Quoted(keys[i]) + ":" + Print(members[keys[i]]))
  }

  /** Compact separators, and members in the order of their keys. */
  lemma CompactText(j: Json)
    ensures j.List? ==> Print(j) == "[" + JoinCommas(ItemTexts(j.items)) + "]"
    ensures j.Object? ==>
              Print(j) == "{" + JoinCommas(MemberTexts(j.members, KeysInOrder(j.members.Keys))) + "}"
  {
    if j.List? {
      ItemsText(j, 0);
      assert j.items[0..] == j.items;
      hide PrintItems, ItemTexts;
      Associative("[", JoinCommas(ItemTexts(j.items)), "]");
    } else if j.Object? {
      var keys := KeysInOrder(j.members.Keys);
      MembersText(j, keys);
      hide PrintMembers, MemberTexts, KeysInOrder;
      Associative("{", JoinCommas(MemberTexts(j.members, keys)), "}");
    }
  }

  lemma {:induction false} ItemsText(j: Json, i: nat)
    requires j.List? && i <= |j.items|
    ensures PrintItems(j, i) == JoinCommas(ItemTexts(j.items[i..])) + "]"
    decreases |j.items| - i
  {
    hide Print;
    if i < |j.items| {
      ItemsText(j, i + 1);
      var texts := ItemTexts(j.items[i..]);
      assert texts[1..] == ItemTexts(j.items[i + 1..]);
    }
  }

  lemma {:induction false} MembersText(j: Json, keys: seq<string>)
    requires j.Object? && forall k <- keys :: k in j.members
    ensures PrintMembers(j, keys) == JoinCommas(MemberTexts(j.members, keys)) + "}"
  {
    hide Print, Quoted;
    if keys != [] {
      MembersText(j, keys[1..]);
      assert MemberTexts(j.members, keys)[1..] == MemberTexts(j.members, keys[1..]);
    }
  }
}
