/** Reducing report values to JSON (`report/serialize.py`) and the message a signature covers (`report/sign.py`). */
module Signing {
  import opened Options
  import opened Sorting
  import opened Json

  datatype Key = Name(text: string) | NotText

  /** A dictionary entry or a record field, in iteration order. */
  datatype Entry = Entry(key: Key, value: Value)

  /** Python values. Sets and dictionaries list their elements in the arbitrary order in which they iterate. */
  datatype Value =
    | NoneValue
    | Truth(b: bool)
    | Integer(n: int)
    | Text(s: string)
    | Float
    | Sequence(items: seq<Value>)
    | SetOf(elements: seq<Value>)
    | Dict(entries: seq<Entry>)
    | Unsupported

  // ---- Reduction ----

  /** None is the TypeError. */
  function Jsonable(v: Value): Option<Json>
    decreases v, 1, 0
  {
    match v
    case NoneValue => Some(Null)
    case Truth(b) => Some(Bool(b))
    case Integer(n) => Some(Int(n))
    case Text(s) => Some(String(s))
    case Float => None
    case Unsupported => None
    case Sequence(items) =>
      var parts := FirstItems(v, |items|);
      if parts.None? then None else Some(List(parts.value))
    case SetOf(elements) =>
      var texts := FirstTexts(v, |elements|);
      if texts.None? then None else Some(List(Strings(Sort(TextLeq, texts.value))))
    case Dict(entries) =>
      var members := FirstEntries(v, |entries|);
      if members.None? then None else Some(Object(members.value))
  }

  function Strings(texts: seq<string>): (items: seq<Json>)
    ensures |items| == |texts| && forall i :: 0 <= i < |texts| ==> items[i] == String(texts[i])
  {
    seq(|texts|, i requires 0 <= i < |texts| => String(texts[i]))
  }

  function FirstItems(v: Value, n: nat): Option<seq<Json>>
    requires v.Sequence? && n <= |v.items|
    decreases v, 0, n
  {
    if n == 0 then Some([])
    else
      var before := FirstItems(v, n - 1);
      var last := Jsonable(v.items[n - 1]);
      if before.None? || last.None? then None else Some(before.value + [last.value])
  }

  /** Only sets of strings have a reproducible order. */
  function FirstTexts(v: Value, n: nat): Option<seq<string>>
    requires v.SetOf? && n <= |v.elements|
    decreases v, 0, n
  {
    if n == 0 then Some([])
    else
      var before := FirstTexts(v, n - 1);
      var last := Jsonable(v.elements[n - 1]);
      if before.None? || last.None? || !last.value.String? then None else Some(before.value + [last.value.s])
  }

  function FirstEntries(v: Value, n: nat): Option<map<string, Json>>
    requires v.Dict? && n <= |v.entries|
    decreases v, 0, n
  {
    if n == 0 then Some(map[])
    else
      var before := FirstEntries(v, n - 1);
      var last := v.entries[n - 1];
      var value := Jsonable(last.value);
      if before.None? || !last.key.Name? || value.None? then None
      else Some(before.value[last.key.text := value.value])
  }

  /** The same reduction as the program runs it, filling lists and objects element by element. */
  method ToJson(v: Value) returns (j: Option<Json>)
    ensures j == Jsonable(v)
    decreases v
  {
    match v
    case NoneValue => return Some(Null);
    case Truth(b) => return Some(Bool(b));
    case Integer(n) => return Some(Int(n));
    case Text(s) => return Some(String(s));
    case Float => return None;
    case Unsupported => return None;
    case Sequence(items) =>
      var parts := [];
      for i := 0 to |items|
        invariant FirstItems(v, i) == Some(parts)
      {
        var part := ToJson(items[i]);
        if part.None? {
          ItemsStayBad(v, i + 1, |items|);
          return None;
        }
        parts := parts + [part.value];
      }
      return Some(List(parts));
    case SetOf(elements) =>
      var texts := [];
      for i := 0 to |elements|
        invariant FirstTexts(v, i) == Some(texts)
      {
        var part := ToJson(elements[i]);
        if part.None? || !part.value.String? {
          TextsStayBad(v, i + 1, |elements|);
          return None;
        }
        texts := texts + [part.value.s];
      }
      return Some(List(Strings(Sort(TextLeq, texts))));
    case Dict(entries) =>
      var members: map<string, Json> := map[];
      for i := 0 to |entries|
        invariant FirstEntries(v, i) == Some(members)
      {
        if !entries[i].key.Name? {
          EntriesStayBad(v, i + 1, |entries|);
          return None;
        }
        var value := ToJson(entries[i].value);
        if value.None? {
          EntriesStayBad(v, i + 1, |entries|);
          return None;
        }
        members := members[entries[i].key.text := value.value];
      }
      return Some(Object(members));
  }

  lemma {:induction false} ItemsStayBad(v: Value, m: nat, n: nat)
    requires v.Sequence? && m <= n <= |v.items| && FirstItems(v, m).None?
    ensures FirstItems(v, n).None?
  {
    if m < n {
      ItemsStayBad(v, m, n - 1);
    }
  }

  lemma {:induction false} TextsStayBad(v: Value, m: nat, n: nat)
    requires v.SetOf? && m <= n <= |v.elements| && FirstTexts(v, m).None?
    ensures FirstTexts(v, n).None?
  {
    if m < n {
      TextsStayBad(v, m, n - 1);
    }
  }

  lemma {:induction false} EntriesStayBad(v: Value, m: nat, n: nat)
    requires v.Dict? && m <= n <= |v.entries| && FirstEntries(v, m).None?
    ensures FirstEntries(v, n).None?
  {
    if m < n {
      EntriesStayBad(v, m, n - 1);
    }
  }

  /** `canonical_json`; None is the TypeError. */
  function Canonical(v: Value): Option<string> {
    var j := Jsonable(v);
    if j.None? then None else Some(Print(j.value))
  }

  // ---- What the reduction depends on ----

  lemma {:induction false} ItemsMeaning(v: Value, n: nat)
    requires v.Sequence? && n <= |v.items|
    ensures FirstItems(v, n).Some? <==> forall i :: 0 <= i < n ==> Jsonable(v.items[i]).Some?
    ensures FirstItems(v, n).Some? ==>
              && |FirstItems(v, n).value| == n
              && forall i :: 0 <= i < n ==> Some(FirstItems(v, n).value[i]) == Jsonable(v.items[i])
  {
    hide Jsonable;
    if n > 0 {
      ItemsMeaning(v, n - 1);
    }
  }

  lemma TextOnly(v: Value)
    ensures Jsonable(v).Some? && Jsonable(v).value.String? <==> v.Text?
    ensures v.Text? ==> Jsonable(v).value.s == v.s
  {}

  lemma {:induction false} TextsMeaning(v: Value, n: nat)
    requires v.SetOf? && n <= |v.elements|
    ensures FirstTexts(v, n).Some? <==> forall i :: 0 <= i < n ==> v.elements[i].Text?
    ensures FirstTexts(v, n).Some? ==>
              && |FirstTexts(v, n).value| == n
              && forall i :: 0 <= i < n ==> v.elements[i] == Text(FirstTexts(v, n).value[i])
  {
    if n > 0 {
      TextsMeaning(v, n - 1);
      TextOnly(v.elements[n - 1]);
      hide Jsonable;
    }
  }

  predicate DistinctNames(entries: seq<Entry>) {
    forall i, j :: 0 <= i < j < |entries| ==> entries[i].key.NotText? || entries[i].key != entries[j].key
  }

  predicate EntryOk(e: Entry) {
    e.key.Name? && Jsonable(e.value).Some?
  }

  lemma {:induction false} EntriesMeaning(v: Value, n: nat)
    requires v.Dict? && n <= |v.entries| && DistinctNames(v.entries)
    ensures FirstEntries(v, n).Some? <==> forall i :: 0 <= i < n ==> EntryOk(v.entries[i])
    ensures FirstEntries(v, n).Some? ==>
              && (forall i :: 0 <= i < n ==>
                    var e := v.entries[i];
                    && e.key.text in FirstEntries(v, n).value
                    && Some(FirstEntries(v, n).value[e.key.text]) == Jsonable(e.value))
              && (forall name <- FirstEntries(v, n).value :: exists i :: 0 <= i < n && v.entries[i].key == Name(name))
  {
    hide Jsonable;
    if n > 0 {
      EntriesMeaning(v, n - 1);
    }
  }

  ghost predicate SameElements(a: seq<Value>, b: seq<Value>) {
    Distinct(a) && Distinct(b) && forall x :: x in a <==> x in b
  }

  /** The same content, with sets and dictionaries iterating in any order. */
  ghost predicate Same(a: Value, b: Value)
    decreases a, 1
  {
    match a
    case Sequence(items) =>
      b.Sequence? && |items| == |b.items| && forall i :: 0 <= i < |items| ==> Same(items[i], b.items[i])
    case SetOf(elements) => b.SetOf? && SameElements(elements, b.elements)
    case Dict(entries) =>
      && b.Dict? && DistinctNames(entries) && DistinctNames(b.entries)
      && (forall i :: 0 <= i < |entries| ==> EntryIn(a, i, b))
      && (forall k :: 0 <= k < |b.entries| ==> EntryOf(a, b, k))
    case _ => a == b
  }

  /** Entry `i` of `a` is some entry of `b`. */
  ghost predicate EntryIn(a: Value, i: nat, b: Value)
    requires a.Dict? && b.Dict? && i < |a.entries|
    decreases a, 0
  {
    exists k :: 0 <= k < |b.entries| && a.entries[i].key == b.entries[k].key
                && Same(a.entries[i].value, b.entries[k].value)
  }

  /** Entry `k` of `b` is some entry of `a`. */
  ghost predicate EntryOf(a: Value, b: Value, k: nat)
    requires a.Dict? && b.Dict? && k < |b.entries|
    decreases a, 0
  {
    exists i :: 0 <= i < |a.entries| && a.entries[i].key == b.entries[k].key
                && Same(a.entries[i].value, b.entries[k].value)
  }

  lemma SameTexts(a: Value, b: Value)
    requires a.SetOf? && b.SetOf? && SameElements(a.elements, b.elements)
    ensures Jsonable(a) == Jsonable(b)
  {
    var m, n := |a.elements|, |b.elements|;
    TextsMeaning(a, m);
    TextsMeaning(b, n);
    var x, y := FirstTexts(a, m), FirstTexts(b, n);
    hide FirstTexts;
    if x.Some? {
      forall i | 0 <= i < n ensures b.elements[i].Text? {
        assert b.elements[i] in a.elements;
      }
    }
    if y.Some? {
      forall i | 0 <= i < m ensures a.elements[i].Text? {
        assert a.elements[i] in b.elements;
      }
      MembersOfTexts(a.elements, x.value);
      MembersOfTexts(b.elements, y.value);
      DistinctSameElements(x.value, y.value);
      TextOrder();
      SortIgnoresOrder(TextLeq, x.value, y.value);
    }
  }

  lemma MembersOfTexts(elements: seq<Value>, texts: seq<string>)
    requires |texts| == |elements| && Distinct(elements)
    requires forall i :: 0 <= i < |texts| ==> elements[i] == Text(texts[i])
    ensures Distinct(texts)
    ensures forall s :: s in texts <==> Text(s) in elements
  {
    forall s ensures s in texts <==> Text(s) in elements {
      if s in texts {
        var i :| 0 <= i < |texts| && texts[i] == s;
        assert elements[i] == Text(s);
      }
    }
  }

  /** Iteration order never shows. */
  lemma {:induction false} OrderIsIrrelevant(a: Value, b: Value)
    requires Same(a, b)
    ensures Jsonable(a) == Jsonable(b)
    decreases a, 1
  {
    hide Jsonable, DistinctNames, SameElements, Included;
    match a
    case Sequence(items) =>
      forall i | 0 <= i < |items| ensures Jsonable(items[i]) == Jsonable(b.items[i]) {
        OrderIsIrrelevant(items[i], b.items[i]);
      }
      SameItems(a, b);
    case SetOf(_) => SameTexts(a, b);
    case Dict(entries) =>
      EntriesMatch(a, b);
      EntriesMatchBack(a, b);
      SameEntries(a, b);
    case _ =>
  }

  lemma {:induction false} EntriesMatch(a: Value, b: Value)
    requires Same(a, b) && a.Dict? && b.Dict?
    ensures Included(a.entries, b.entries)
    decreases a, 0
  {
    hide HasMatch, Jsonable;
    forall i | 0 <= i < |a.entries| ensures HasMatch(a.entries[i], b.entries) {
      assert EntryIn(a, i, b);
      hide Same;
      var k :| 0 <= k < |b.entries| && a.entries[i].key == b.entries[k].key
               && Same(a.entries[i].value, b.entries[k].value);
      OrderIsIrrelevant(a.entries[i].value, b.entries[k].value);
      MatchFound(a.entries[i], b.entries, k);
    }
  }

  lemma {:induction false} EntriesMatchBack(a: Value, b: Value)
    requires Same(a, b) && a.Dict? && b.Dict?
    ensures Included(b.entries, a.entries)
    decreases a, 0
  {
    hide HasMatch, Jsonable;
    forall k | 0 <= k < |b.entries| ensures HasMatch(b.entries[k], a.entries) {
      assert EntryOf(a, b, k);
      hide Same;
      var i :| 0 <= i < |a.entries| && a.entries[i].key == b.entries[k].key
               && Same(a.entries[i].value, b.entries[k].value);
      OrderIsIrrelevant(a.entries[i].value, b.entries[k].value);
      MatchFound(b.entries[k], a.entries, i);
    }
  }

  lemma MatchFound(x: Entry, entries: seq<Entry>, k: nat)
    requires k < |entries| && x.key == entries[k].key && Jsonable(x.value) == Jsonable(entries[k].value)
    ensures HasMatch(x, entries)
  {
    hide Jsonable;
    assert MatchingEntries(x, entries[k]);
  }

  lemma SameItems(a: Value, b: Value)
    requires a.Sequence? && b.Sequence? && |a.items| == |b.items|
    requires forall i :: 0 <= i < |a.items| ==> Jsonable(a.items[i]) == Jsonable(b.items[i])
    ensures Jsonable(a) == Jsonable(b)
  {
    ItemsMeaning(a, |a.items|);
    ItemsMeaning(b, |a.items|);
    hide FirstItems;
    if FirstItems(a, |a.items|).Some? {
      assert FirstItems(a, |a.items|).value == FirstItems(b, |a.items|).value;
    }
  }

  predicate MatchingEntries(x: Entry, y: Entry) {
    x.key == y.key && Jsonable(x.value) == Jsonable(y.value)
  }

  ghost predicate HasMatch(x: Entry, entries: seq<Entry>) {
    exists k :: 0 <= k < |entries| && MatchingEntries(x, entries[k])
  }

  /** Every entry of `a` is an entry of `b` up to the order inside its value. */
  ghost predicate Included(a: seq<Entry>, b: seq<Entry>) {
    forall i :: 0 <= i < |a| ==> HasMatch(a[i], b)
  }

  lemma IncludedOk(a: Value, b: Value)
    requires a.Dict? && b.Dict? && DistinctNames(a.entries) && DistinctNames(b.entries)
    requires Included(a.entries, b.entries)
    requires FirstEntries(b, |b.entries|).Some?
    ensures FirstEntries(a, |a.entries|).Some?
    ensures forall name <- FirstEntries(a, |a.entries|).value ::
              name in FirstEntries(b, |b.entries|).value
              && FirstEntries(a, |a.entries|).value[name] == FirstEntries(b, |b.entries|).value[name]
  {
    EntriesMeaning(a, |a.entries|);
    EntriesMeaning(b, |b.entries|);
    hide FirstEntries, Jsonable, DistinctNames, HasMatch;
    forall i | 0 <= i < |a.entries| ensures EntryOk(a.entries[i]) {
      var k := MatchOf(a.entries[i], b.entries);
      assert EntryOk(b.entries[k]);
    }
    var x, y := FirstEntries(a, |a.entries|).value, FirstEntries(b, |b.entries|).value;
    forall name <- x ensures name in y && x[name] == y[name] {
      var i :| 0 <= i < |a.entries| && a.entries[i].key == Name(name);
      var k := MatchOf(a.entries[i], b.entries);
    }
  }

  lemma MatchOf(x: Entry, entries: seq<Entry>) returns (k: nat)
    requires HasMatch(x, entries)
    ensures k < |entries| && x.key == entries[k].key && Jsonable(x.value) == Jsonable(entries[k].value)
  {
    hide Jsonable;
    k :| 0 <= k < |entries| && MatchingEntries(x, entries[k]);
  }

  lemma SameEntries(a: Value, b: Value)
    requires a.Dict? && b.Dict? && DistinctNames(a.entries) && DistinctNames(b.entries)
    requires Included(a.entries, b.entries) && Included(b.entries, a.entries)
    ensures Jsonable(a) == Jsonable(b)
  {
    hide FirstEntries, DistinctNames, Included;
    var x, y := FirstEntries(a, |a.entries|), FirstEntries(b, |b.entries|);
    if x.Some? || y.Some? {
      if y.Some? {
        IncludedOk(a, b);
      }
      IncludedOk(b, a);
      IncludedOk(a, b);
      assert x.value == y.value;
    }
  }

  /** Reading canonical text back gives the reduced value, so equal text means equal reduced values. */
  lemma CanonicalIsFaithful(a: Value, b: Value)
    ensures Canonical(a).Some? ==> Load(Canonical(a).value) == Jsonable(a)
    ensures Canonical(a) == Canonical(b) <==> Jsonable(a) == Jsonable(b)
  {
    hide Jsonable;
    if Jsonable(a).Some? {
      LoadUndoesPrint(Jsonable(a).value);
      if Jsonable(b).Some? {
        SameTextIffSameValue(Jsonable(a).value, Jsonable(b).value);
      }
    }
  }

  // ---- What is rejected, and how a set is written ----

  /** A float, a key that is no text, a set with anything but text, or a foreign value stands somewhere inside. */
  predicate IsBanned(v: Value) {
    match v
    case Float => true
    case Unsupported => true
    case Sequence(items) => exists i :: 0 <= i < |items| && IsBanned(items[i])
    case SetOf(elements) => exists i :: 0 <= i < |elements| && !elements[i].Text?
    case Dict(entries) => exists i :: 0 <= i < |entries| && (entries[i].key.NotText? || IsBanned(entries[i].value))
    case _ => false
  }

  lemma {:induction false} EntriesOkIff(v: Value, n: nat)
    requires v.Dict? && n <= |v.entries|
    ensures FirstEntries(v, n).Some? <==> forall i :: 0 <= i < n ==> EntryOk(v.entries[i])
  {
    hide Jsonable;
    if n > 0 {
      EntriesOkIff(v, n - 1);
    }
  }

  /** Exactly the values with something banned inside have no canonical form. */
  lemma {:induction false} RejectedIff(v: Value)
    ensures Jsonable(v).None? <==> IsBanned(v)
    decreases v
  {
    match v
    case Sequence(items) =>
      ItemsMeaning(v, |items|);
      forall i | 0 <= i < |items| ensures Jsonable(items[i]).None? <==> IsBanned(items[i]) {
        RejectedIff(items[i]);
      }
      hide FirstItems;
    case SetOf(elements) =>
      TextsMeaning(v, |elements|);
      hide FirstTexts;
    case Dict(entries) =>
      EntriesOkIff(v, |entries|);
      forall i | 0 <= i < |entries|
        ensures EntryOk(entries[i]) <==> entries[i].key.Name? && !IsBanned(entries[i].value)
      {
        RejectedIff(entries[i].value);
      }
      hide FirstEntries;
    case _ =>
  }

  /** A set becomes the list of its texts in ascending order. */
  lemma SetIsSortedList(elements: seq<Value>)
    requires !IsBanned(SetOf(elements))
    ensures var j := Jsonable(SetOf(elements));
            && j.Some? && j.value.List? && |j.value.items| == |elements|
            && (forall i :: 0 <= i < |elements| ==> j.value.items[i].String?)
            && (forall i, k :: 0 <= i < k < |elements| ==> TextLeq(j.value.items[i].s, j.value.items[k].s))
            && (forall s :: String(s) in j.value.items <==> Text(s) in elements)
  {
    var v := SetOf(elements);
    TextsMeaning(v, |elements|);
    var texts := FirstTexts(v, |elements|).value;
    hide FirstTexts;
    SortedTexts(texts);
    var items := Strings(Sort(TextLeq, texts));
    assert Jsonable(v) == Some(List(items));
    hide Sort, TextLeq, Jsonable;
    forall s ensures String(s) in items <==> Text(s) in elements {
      SameMembers(elements, texts, Sort(TextLeq, texts), items, s);
    }
  }

  lemma SortedTexts(texts: seq<string>)
    ensures var sorted := Sort(TextLeq, texts);
            && |sorted| == |texts| && (forall s :: s in sorted <==> s in texts)
            && forall i, k :: 0 <= i < k < |sorted| ==> TextLeq(sorted[i], sorted[k])
  {
    TextOrder();
    SortCorrect(TextLeq, texts);
    var sorted := Sort(TextLeq, texts);
    hide Sort, TotalPreorder, Antisymmetric, TextLeq;
    assert |multiset(sorted)| == |multiset(texts)|;
    forall s ensures s in sorted <==> s in texts {
      assert s in multiset(sorted) <==> s in multiset(texts);
    }
  }

  lemma SameMembers(elements: seq<Value>, texts: seq<string>, sorted: seq<string>, items: seq<Json>, s: string)
    requires |elements| == |texts| && forall i :: 0 <= i < |texts| ==> elements[i] == Text(texts[i])
    requires |sorted| == |items| && forall i :: 0 <= i < |sorted| ==> items[i] == String(sorted[i])
    requires forall x :: x in sorted <==> x in texts
    ensures String(s) in items <==> Text(s) in elements
  {
    if String(s) in items {
      var i :| 0 <= i < |items| && items[i] == String(s);
      assert sorted[i] == s && s in sorted && s in texts;
      var k :| 0 <= k < |texts| && texts[k] == s;
      assert elements[k] == Text(s);
    }
    if Text(s) in elements {
      var k :| 0 <= k < |elements| && elements[k] == Text(s);
      assert texts[k] == s && s in texts && s in sorted;
      var i :| 0 <= i < |sorted| && sorted[i] == s;
      assert items[i] == String(s);
    }
  }
}
