/** Signing a report, writing it, loading it back and verifying it (`report/sign.py`, `cli.py`). */
module SignedReports {
  import opened Options
  import opened JsonText
  import opened Json
  import opened Signing

  type Report = seq<Entry>

  const SIGNATURE := "signature"

  const ALGORITHM := "ed25519"

  /** Everything but the signature block, in order. */
  function Unsigned(report: Report): Report {
    if report == [] then []
    else
      var last := report[|report| - 1];
      Unsigned(report[..|report| - 1]) + (if last.key == Name(SIGNATURE) then [] else [last])
  }

  /** The text a signature covers; None is the TypeError of a value that has no canonical form. */
  function SignedMessage(report: Report): Option<string> {
    Canonical(Dict(Unsigned(report)))
  }

  /** Whether a key and a signature are readable at all, and whether the signature is the key's for a message. */
  datatype Verifier = Verifier(readable: (string, string) -> bool, accepts: (string, string, string) -> bool)

  /** A key pair, reduced to what it signs and what its public half accepts. */
  datatype Scheme = Scheme(publicKey: string, sign: string -> string, verifier: Verifier)

  predicate Accepts(scheme: Scheme, message: string) {
    && scheme.verifier.readable(scheme.publicKey, scheme.sign(message))
    && scheme.verifier.accepts(scheme.publicKey, scheme.sign(message), message)
  }

  /** Whatever the key signs, its public half accepts. */
  ghost predicate Works(scheme: Scheme) {
    forall message :: Accepts(scheme, message)
  }

  function Block(publicKey: string, signature: string): Value {
    Dict([Entry(Name("algorithm"), Text(ALGORITHM)), Entry(Name("public_key"), Text(publicKey)),
          Entry(Name("signature"), Text(signature))])
  }

  function SignPayload(report: Report, scheme: Scheme): Option<Report> {
    var message := SignedMessage(report);
    if message.None? then None
    else Some(Unsigned(report) + [Entry(Name(SIGNATURE), Block(scheme.publicKey, scheme.sign(message.value)))])
  }

  // ---- Verification ----

  /** `Raises` is the TypeError of a content without canonical form, which `verify` does not catch. */
  datatype Verdict = NotSigned | NotAnObject | WrongAlgorithm | Rejected | Raises | Verified

  /** `dict.get`. */
  function Get(entries: seq<Entry>, name: string): Option<Value> {
    if entries == [] then None
    else
      var n := |entries| - 1;
      if entries[n].key == Name(name) then Some(entries[n].value) else Get(entries[..n], name)
  }

  /** `str` of a block field; whatever is neither text nor integer is not hexadecimal. */
  function FieldText(v: Option<Value>): string {
    match v
    case None => ""
    case Some(Text(s)) => s
    case Some(Integer(n)) => PrintInt(n)
    case Some(_) => "?"
  }

  /** The key comes from the report itself; an unreadable key or signature is rejected before the content is read. */
  function VerifySignature(verifier: Verifier, report: Report): Verdict {
    match Get(report, SIGNATURE)
    case None => NotSigned
    case Some(NoneValue) => NotSigned
    case Some(Dict(block)) =>
      if Get(block, "algorithm") != Some(Text(ALGORITHM)) then WrongAlgorithm
      else
        var key, signature := FieldText(Get(block, "public_key")), FieldText(Get(block, "signature"));
        var message := SignedMessage(report);
        if !verifier.readable(key, signature) then Rejected
        else if message.None? then Raises
        else if verifier.accepts(key, signature, message.value) then Verified
        else Rejected
    case Some(_) => NotAnObject
  }

  // ---- Loaded values ----

  /** The values `json.loads` builds; its dictionaries iterate in the order of the text. */
  function FromJson(j: Json): (v: Value)
    ensures j.Object? <==> v.Dict?
    decreases j, 1, 0
  {
    match j
    case Null => NoneValue
    case Bool(b) => Truth(b)
    case Int(n) => Integer(n)
    case String(s) => Text(s)
    case List(items) => Sequence(LoadedItems(j, |items|))
    case Object(members) => Dict(LoadedEntries(j, KeysInOrder(members.Keys)))
  }

  function LoadedItems(j: Json, n: nat): (items: seq<Value>)
    requires j.List? && n <= |j.items|
    ensures |items| == n
    decreases j, 0, n
  {
    if n == 0 then [] else LoadedItems(j, n - 1) + [FromJson(j.items[n - 1])]
  }

  function LoadedEntries(j: Json, keys: seq<string>): (entries: seq<Entry>)
    requires j.Object? && forall k <- keys :: k in j.members
    ensures |entries| == |keys|
    decreases j, 0, |keys|
  {
    if keys == [] then []
    else
      var n := |keys| - 1;
      LoadedEntries(j, keys[..n]) + [Entry(Name(keys[n]), FromJson(j.members[keys[n]]))]
  }

  // ---- Reducing a dictionary entry by entry ----

  lemma {:induction false} FirstItemsOfPrefix(a: seq<Value>, b: seq<Value>, n: nat)
    requires n <= |a| && n <= |b| && a[..n] == b[..n]
    ensures FirstItems(Sequence(a), n) == FirstItems(Sequence(b), n)
  {
    hide Jsonable;
    if n > 0 {
      assert a[..n][n - 1] == b[..n][n - 1] && a[..n][..n - 1] == a[..n - 1] && b[..n][..n - 1] == b[..n - 1];
      FirstItemsOfPrefix(a, b, n - 1);
    }
  }

  lemma {:induction false} FirstEntriesOfPrefix(a: Report, b: Report, n: nat)
    requires n <= |a| && n <= |b| && a[..n] == b[..n]
    ensures FirstEntries(Dict(a), n) == FirstEntries(Dict(b), n)
  {
    hide Jsonable;
    if n > 0 {
      assert a[..n][n - 1] == b[..n][n - 1] && a[..n][..n - 1] == a[..n - 1] && b[..n][..n - 1] == b[..n - 1];
      FirstEntriesOfPrefix(a, b, n - 1);
    }
  }

  /** The members a report reduces to. */
  function Members(report: Report): Option<map<string, Json>> {
    FirstEntries(Dict(report), |report|)
  }

  lemma MembersDecide(report: Report)
    ensures Members(report).Some? ==> Jsonable(Dict(report)) == Some(Object(Members(report).value))
    ensures Members(report).None? ==> Jsonable(Dict(report)).None?
  {}

  lemma OneMoreEntry(report: Report, last: Entry)
    ensures Members(report + [last]) ==
            if Members(report).Some? && EntryOk(last)
            then Some(Members(report).value[last.key.text := Jsonable(last.value).value])
            else None
  {
    hide Jsonable;
    var all := report + [last];
    assert all[..|report|] == report[..|report|];
    FirstEntriesOfPrefix(all, report, |report|);
  }

  /** Removing the signature block removes its member and nothing else. */
  lemma {:induction false} UnsignedMembers(report: Report)
    requires Members(report).Some?
    ensures Members(Unsigned(report)) == Some(Members(report).value - {SIGNATURE})
  {
    if report != [] {
      var before, last := report[..|report| - 1], report[|report| - 1];
      assert report == before + [last];
      OneMoreEntry(before, last);
      UnsignedMembers(before);
      OneMoreEntry(Unsigned(before), last);
      hide Members, Jsonable;
      assert Unsigned(before) + [] == Unsigned(before);
      var m, key, value := Members(before).value, last.key.text, Jsonable(last.value).value;
      if key == SIGNATURE {
        assert m[key := value] - {SIGNATURE} == m - {SIGNATURE};
      } else {
        assert m[key := value] - {SIGNATURE} == (m - {SIGNATURE})[key := value];
      }
    } else {
      assert Members(report).value - {SIGNATURE} == Members(report).value;
    }
  }

  lemma {:induction false} NoSignatureLeft(report: Report)
    requires Members(Unsigned(report)).Some?
    ensures SIGNATURE !in Members(Unsigned(report)).value
  {
    if report != [] {
      var before, last := report[..|report| - 1], report[|report| - 1];
      assert Unsigned(before) + [] == Unsigned(before);
      OneMoreEntry(Unsigned(before), last);
      hide Members, EntryOk, Jsonable;
      NoSignatureLeft(before);
    }
  }

  // ---- Loading ----

  lemma ListReduces(j: Json)
    requires j.List? && FirstItems(Sequence(LoadedItems(j, |j.items|)), |j.items|) == Some(j.items[..|j.items|])
    ensures Jsonable(FromJson(j)) == Some(j)
  {
    hide LoadedItems, FirstItems;
    assert j.items[..|j.items|] == j.items;
  }

  lemma ObjectReduces(j: Json)
    requires j.Object?
    requires var keys := KeysInOrder(j.members.Keys);
             Members(LoadedEntries(j, keys)) == Some(map k | k in keys :: j.members[k])
    ensures Jsonable(FromJson(j)) == Some(j)
  {
    hide Jsonable, LoadedEntries, Members, KeysInOrder;
    MembersDecide(LoadedEntries(j, KeysInOrder(j.members.Keys)));
    assert (map k | k in KeysInOrder(j.members.Keys) :: j.members[k]) == j.members by {
      hide KeysInOrder;
    }
  }

  /** A loaded value reduces to the JSON it was loaded from. */
  lemma {:induction false} LoadedReduces(j: Json)
    ensures Jsonable(FromJson(j)) == Some(j)
    decreases j, 1, 0
  {
    match j
    case List(items) =>
      hide *;
      LoadedItemsReduce(j, |items|);
      ListReduces(j);
    case Object(members) =>
      hide *;
      LoadedEntriesReduce(j, KeysInOrder(members.Keys));
      ObjectReduces(j);
    case _ =>
  }

  lemma {:induction false} LoadedItemsReduce(j: Json, n: nat)
    requires j.List? && n <= |j.items|
    ensures FirstItems(Sequence(LoadedItems(j, n)), n) == Some(j.items[..n])
    decreases j, 0, n
  {
    hide Jsonable;
    if n > 0 {
      var all, before := LoadedItems(j, n), LoadedItems(j, n - 1);
      LoadedItemsReduce(j, n - 1);
      assert all[..n - 1] == before == before[..n - 1];
      FirstItemsOfPrefix(all, before, n - 1);
      LoadedReduces(j.items[n - 1]);
      assert all[n - 1] == FromJson(j.items[n - 1]);
      assert j.items[..n - 1] + [j.items[n - 1]] == j.items[..n];
    }
  }

  lemma {:induction false} LoadedEntriesReduce(j: Json, keys: seq<string>)
    requires j.Object? && forall k <- keys :: k in j.members
    ensures Members(LoadedEntries(j, keys)) == Some(map k | k in keys :: j.members[k])
    decreases j, 0, |keys|
  {
    hide Jsonable;
    if keys != [] {
      var n := |keys| - 1;
      LoadedEntriesReduce(j, keys[..n]);
      LoadedReduces(j.members[keys[n]]);
      OneMoreEntry(LoadedEntries(j, keys[..n]), Entry(Name(keys[n]), FromJson(j.members[keys[n]])));
      hide Members;
      assert keys == keys[..n] + [keys[n]];
      assert (map k | k in keys :: j.members[k]) ==
             (map k | k in keys[..n] :: j.members[k])[keys[n] := j.members[keys[n]]];
    }
  }

  lemma {:induction false} GetLoaded(j: Json, keys: seq<string>, name: string)
    requires j.Object? && forall k <- keys :: k in j.members
    ensures Get(LoadedEntries(j, keys), name) == if name in keys then Some(FromJson(j.members[name])) else None
  {
    if keys != [] {
      var n := |keys| - 1;
      var all := LoadedEntries(j, keys);
      assert all[..n] == LoadedEntries(j, keys[..n]);
      assert keys == keys[..n] + [keys[n]];
      GetLoaded(j, keys[..n], name);
    }
  }

  /** A field of a loaded object is the loaded member. */
  lemma GetOfLoaded(j: Json, name: string)
    requires j.Object?
    ensures Get(FromJson(j).entries, name) == if name in j.members then Some(FromJson(j.members[name])) else None
  {
    GetLoaded(j, KeysInOrder(j.members.Keys), name);
  }

  lemma LoadedMembers(j: Json)
    requires j.Object?
    ensures Members(FromJson(j).entries) == Some(j.members)
  {
    LoadedReduces(j);
    hide Jsonable;
    MembersDecide(FromJson(j).entries);
  }

  // ---- What a signature covers ----

  lemma MessageOfMembers(report: Report)
    requires Members(report).Some?
    ensures SignedMessage(report) == Some(Print(Object(Members(report).value - {SIGNATURE})))
  {
    UnsignedMembers(report);
    MembersDecide(Unsigned(report));
    hide Members, Jsonable;
  }

  /** Two loaded reports have one signed message exactly when they agree on everything but the signature block. */
  lemma MessageCoversEverythingElse(a: Json, b: Json)
    requires a.Object? && b.Object?
    ensures SignedMessage(FromJson(a).entries) == SignedMessage(FromJson(b).entries)
            <==> a.members - {SIGNATURE} == b.members - {SIGNATURE}
  {
    LoadedMembers(a);
    LoadedMembers(b);
    MessageOfMembers(FromJson(a).entries);
    MessageOfMembers(FromJson(b).entries);
    hide Members, SignedMessage;
    SameTextIffSameValue(Object(a.members - {SIGNATURE}), Object(b.members - {SIGNATURE}));
  }

  function BlockJson(publicKey: string, signature: string): Json {
    Object(map["algorithm" := String(ALGORITHM), "public_key" := String(publicKey), "signature" := String(signature)])
  }

  lemma BlockReduces(publicKey: string, signature: string)
    ensures Jsonable(Block(publicKey, signature)) == Some(BlockJson(publicKey, signature))
  {
    var first, second, third :=
      Entry(Name("algorithm"), Text(ALGORITHM)), Entry(Name("public_key"), Text(publicKey)),
      Entry(Name("signature"), Text(signature));
    OneMoreEntry([], first);
    OneMoreEntry([first], second);
    OneMoreEntry([first, second], third);
    assert [] + [first] == [first] && [first] + [second] == [first, second];
    assert [first, second] + [third] == Block(publicKey, signature).entries;
    MembersDecide(Block(publicKey, signature).entries);
    assert "algorithm" != "public_key" && "algorithm" != "signature" && "public_key" != "signature";
    var members :=
      map["algorithm" := String(ALGORITHM)]["public_key" := String(publicKey)]["signature" := String(signature)];
    assert BlockJson(publicKey, signature) == Object(members);
  }

  lemma SignedMembers(report: Report, scheme: Scheme)
    requires SignPayload(report, scheme).Some?
    ensures var body := Members(Unsigned(report));
            && body.Some? && SIGNATURE !in body.value
            && SignedMessage(report) == Some(Print(Object(body.value)))
            && Members(SignPayload(report, scheme).value) ==
                 Some(body.value[SIGNATURE :=
                        BlockJson(scheme.publicKey, scheme.sign(Print(Object(body.value))))])
  {
    MembersDecide(Unsigned(report));
    NoSignatureLeft(report);
    var signature := scheme.sign(SignedMessage(report).value);
    BlockReduces(scheme.publicKey, signature);
    OneMoreEntry(Unsigned(report), Entry(Name(SIGNATURE), Block(scheme.publicKey, signature)));
    hide Members, Jsonable;
  }

  /** Signing again does not change what is signed. */
  lemma SigningKeepsTheMessage(report: Report, scheme: Scheme)
    requires SignPayload(report, scheme).Some?
    ensures SignedMessage(SignPayload(report, scheme).value) == SignedMessage(report)
  {
    SignedMembers(report, scheme);
    MessageOfMembers(SignPayload(report, scheme).value);
    var body := Members(Unsigned(report)).value;
    hide Members, SignPayload, SignedMessage, BlockJson;
    assert body[SIGNATURE := BlockJson(scheme.publicKey, scheme.sign(Print(Object(body))))] - {SIGNATURE} == body;
  }

  /** The report as `verify` sees it after the file was written and loaded. */
  function WrittenAndLoaded(report: Report): Option<Json> {
    var text := Canonical(Dict(report));
    if text.None? then None else Load(text.value + "\n")
  }

  lemma LoadedBlock(publicKey: string, signature: string)
    ensures var block := FromJson(BlockJson(publicKey, signature)).entries;
            && Get(block, "algorithm") == Some(Text(ALGORITHM))
            && Get(block, "public_key") == Some(Text(publicKey))
            && Get(block, "signature") == Some(Text(signature))
  {
    hide *;
    var j := BlockJson(publicKey, signature);
    BlockMembers(publicKey, signature);
    GetOfLoaded(j, "algorithm");
    GetOfLoaded(j, "public_key");
    GetOfLoaded(j, "signature");
  }

  lemma BlockMembers(publicKey: string, signature: string)
    ensures var j := BlockJson(publicKey, signature);
            && j.Object? && {"algorithm", "public_key", "signature"} <= j.members.Keys
            && FromJson(j.members["algorithm"]) == Text(ALGORITHM)
            && FromJson(j.members["public_key"]) == Text(publicKey)
            && FromJson(j.members["signature"]) == Text(signature)
  {
    hide LoadedItems, LoadedEntries, KeysInOrder;
    assert "algorithm" != "public_key" && "algorithm" != "signature" && "public_key" != "signature";
  }

  lemma LoadedBlockVerifies(j: Json, scheme: Scheme, message: string)
    requires j.Object? && SIGNATURE in j.members && Accepts(scheme, message)
    ensures j.members[SIGNATURE] == BlockJson(scheme.publicKey, scheme.sign(message))
            && SignedMessage(FromJson(j).entries) == Some(message) ==>
              VerifySignature(scheme.verifier, FromJson(j).entries).Verified?
  {
    hide SignedMessage, Get, FromJson, BlockJson;
    GetOfLoaded(j, SIGNATURE);
    LoadedBlock(scheme.publicKey, scheme.sign(message));
    BlockMembers(scheme.publicKey, scheme.sign(message));
  }

  /** A report that was signed, written and loaded again has the message of the unsigned one, and verifies. */
  lemma WrittenReportVerifies(report: Report, scheme: Scheme)
    requires SignedMessage(report).Some?
    ensures SignPayload(report, scheme).Some?
    ensures var loaded := WrittenAndLoaded(SignPayload(report, scheme).value);
            && loaded.Some? && loaded.value.Object?
            && SignedMessage(FromJson(loaded.value).entries) == SignedMessage(report)
            && (Works(scheme) ==> VerifySignature(scheme.verifier, FromJson(loaded.value).entries).Verified?)
  {
    var signed := SignPayload(report, scheme).value;
    SignedMembers(report, scheme);
    MembersDecide(signed);
    var body := Members(Unsigned(report)).value;
    var block := BlockJson(scheme.publicKey, scheme.sign(Print(Object(body))));
    var j := Object(body[SIGNATURE := block]);
    LoadUndoesPrint(j);
    assert WrittenAndLoaded(signed) == Some(j);
    LoadedMembers(j);
    MessageOfMembers(FromJson(j).entries);
    assert j.members - {SIGNATURE} == body;
    hide Members, Jsonable, SignedMessage, SignPayload, VerifySignature, BlockJson, FromJson;
    if Works(scheme) {
      LoadedBlockVerifies(j, scheme, Print(Object(body)));
    }
  }

  // ---- The verdict on a loaded report ----

  /** What is read as hexadecimal from a field of the block. */
  function HexField(block: map<string, Json>, name: string): string {
    if name !in block then ""
    else match block[name] case String(s) => s case Int(n) => PrintInt(n) case _ => "?"
  }

  predicate Ed25519(block: map<string, Json>) {
    "algorithm" in block && block["algorithm"] == String("ed25519")
  }

  /** Key and signature are readable, and the signature is the key's for the report without its block. */
  predicate Endorses(verifier: Verifier, block: map<string, Json>, content: map<string, Json>) {
    var key, signature := HexField(block, "public_key"), HexField(block, "signature");
    verifier.readable(key, signature) && verifier.accepts(key, signature, Print(Object(content)))
  }

  lemma LoadedField(block: Json, name: string)
    requires block.Object?
    ensures FieldText(Get(FromJson(block).entries, name)) == HexField(block.members, name)
    ensures Get(FromJson(block).entries, name) == Some(Text("ed25519")) <==>
            name in block.members && block.members[name] == String("ed25519")
  {
    GetOfLoaded(block, name);
    if name in block.members {
      LoadedText(block.members[name]);
    }
    hide Get, FromJson, PrintInt;
  }

  lemma LoadedText(j: Json)
    ensures FieldText(Some(FromJson(j))) == match j case String(s) => s case Int(n) => PrintInt(n) case _ => "?"
    ensures FromJson(j) == Text("ed25519") <==> j == String("ed25519")
    ensures FromJson(j).NoneValue? <==> j.Null?
  {
    hide LoadedItems, LoadedEntries, KeysInOrder, PrintInt;
  }

  /** Which reports count as unsigned, malformed, of another algorithm, and verified; without floats none raises. */
  lemma VerdictOfLoaded(verifier: Verifier, j: Json)
    requires j.Object?
    ensures var verdict, m := VerifySignature(verifier, FromJson(j).entries), j.members;
            && (verdict.NotSigned? <==> "signature" !in m || m["signature"].Null?)
            && (verdict.NotAnObject? <==> "signature" in m && !m["signature"].Null? && !m["signature"].Object?)
            && (verdict.WrongAlgorithm? <==>
                  "signature" in m && m["signature"].Object? && !Ed25519(m["signature"].members))
            && (verdict.Verified? <==>
                  && "signature" in m && m["signature"].Object? && Ed25519(m["signature"].members)
                  && Endorses(verifier, m["signature"].members, m - {"signature"}))
            && !verdict.Raises?
  {
    if SIGNATURE in j.members && j.members[SIGNATURE].Object? {
      VerdictOnBlock(verifier, j);
    } else {
      VerdictWithoutBlock(verifier, j);
    }
    hide VerifySignature, Ed25519, Endorses, FromJson;
  }

  lemma VerdictWithoutBlock(verifier: Verifier, j: Json)
    requires j.Object? && (SIGNATURE in j.members ==> !j.members[SIGNATURE].Object?)
    ensures VerifySignature(verifier, FromJson(j).entries) ==
            if SIGNATURE !in j.members || j.members[SIGNATURE].Null? then NotSigned else NotAnObject
  {
    GetOfLoaded(j, SIGNATURE);
    if SIGNATURE in j.members {
      LoadedText(j.members[SIGNATURE]);
    }
    hide SignedMessage, Get, FieldText, FromJson;
  }

  lemma VerdictFromFields(verifier: Verifier, report: Report, block: Report, message: string)
    requires Get(report, SIGNATURE) == Some(Dict(block)) && SignedMessage(report) == Some(message)
    ensures var key, signature := FieldText(Get(block, "public_key")), FieldText(Get(block, "signature"));
            VerifySignature(verifier, report) ==
            if Get(block, "algorithm") != Some(Text(ALGORITHM)) then WrongAlgorithm
            else if verifier.readable(key, signature) && verifier.accepts(key, signature, message) then Verified
            else Rejected
  {
    hide Get, FieldText, SignedMessage;
  }

  lemma VerdictOnBlock(verifier: Verifier, j: Json)
    requires j.Object? && SIGNATURE in j.members && j.members[SIGNATURE].Object?
    ensures var block := j.members[SIGNATURE].members;
            VerifySignature(verifier, FromJson(j).entries) ==
            if !Ed25519(block) then WrongAlgorithm
            else if Endorses(verifier, block, j.members - {SIGNATURE}) then Verified
            else Rejected
  {
    var block := j.members[SIGNATURE];
    GetOfLoaded(j, SIGNATURE);
    LoadedMembers(j);
    MessageOfMembers(FromJson(j).entries);
    LoadedField(block, "algorithm");
    LoadedField(block, "public_key");
    LoadedField(block, "signature");
    hide Members, SignedMessage, Get, HexField, FieldText, FromJson, Print, VerifySignature;
    VerdictFromFields(
      verifier, FromJson(j).entries, FromJson(block).entries, Print(Object(j.members - {SIGNATURE})));
  }

  // ---- Altered reports ----

  /** One signature under one key belongs to one message. */
  ghost predicate SignaturesBind(verifier: Verifier) {
    forall key, signature, m, n ::
      verifier.accepts(key, signature, m) && verifier.accepts(key, signature, n) ==> m == n
  }

  /**
   A report that verifies no longer does once anything outside its signature block is altered, into whatever
   values: it is rejected, or verification raises when the new content has no canonical form.
   */
  lemma AlteredReportNeverVerifies(verifier: Verifier, a: Report, b: Report)
    requires SignaturesBind(verifier)
    ensures VerifySignature(verifier, a).Verified? && Get(a, SIGNATURE) == Get(b, SIGNATURE)
            && Jsonable(Dict(Unsigned(a))) != Jsonable(Dict(Unsigned(b))) ==>
              VerifySignature(verifier, b) == if SignedMessage(b).None? then Raises else Rejected
  {
    hide Jsonable, Unsigned, Get, FieldText;
    CanonicalIsFaithful(Dict(Unsigned(a)), Dict(Unsigned(b)));
    hide Canonical;
  }

  /** Among reports without floats, that is rejection. */
  lemma AlteredReportIsRejected(verifier: Verifier, a: Json, b: Json)
    requires SignaturesBind(verifier)
    requires a.Object? && b.Object? && SIGNATURE in a.members && SIGNATURE in b.members
    requires a.members[SIGNATURE] == b.members[SIGNATURE] && a.members - {SIGNATURE} != b.members - {SIGNATURE}
    ensures VerifySignature(verifier, FromJson(a).entries).Verified? ==>
              VerifySignature(verifier, FromJson(b).entries).Rejected?
  {
    VerdictOfLoaded(verifier, a);
    VerdictOfLoaded(verifier, b);
    SameTextIffSameValue(Object(a.members - {SIGNATURE}), Object(b.members - {SIGNATURE}));
    hide VerifySignature, FromJson, Print, HexField, Ed25519;
  }

  /** What `json.loads` can build, floats included. */
  predicate IsLoaded(v: Value) {
    match v
    case Sequence(items) => forall i :: 0 <= i < |items| ==> IsLoaded(items[i])
    case Dict(entries) => forall i :: 0 <= i < |entries| ==> entries[i].key.Name? && IsLoaded(entries[i].value)
    case SetOf(_) => false
    case Unsupported => false
    case _ => true
  }

  predicate HasFloat(v: Value) {
    match v
    case Float => true
    case Sequence(items) => exists i :: 0 <= i < |items| && HasFloat(items[i])
    case Dict(entries) => exists i :: 0 <= i < |entries| && HasFloat(entries[i].value)
    case _ => false
  }

  lemma {:induction false} MembersOkIff(report: Report)
    ensures Members(report).Some? <==> forall e <- report :: EntryOk(e)
  {
    hide EntryOk;
    if report != [] {
      var before, last := report[..|report| - 1], report[|report| - 1];
      assert report == before + [last];
      MembersOkIff(before);
      OneMoreEntry(before, last);
      hide Members;
    }
  }

  /** Of loaded values exactly those with a float anywhere inside have no canonical form. */
  lemma {:induction false} FloatsHaveNoForm(v: Value)
    requires IsLoaded(v)
    ensures Jsonable(v).None? <==> HasFloat(v)
    decreases v
  {
    match v
    case Sequence(items) =>
      ItemsMeaning(v, |items|);
      forall i | 0 <= i < |items| ensures Jsonable(items[i]).None? <==> HasFloat(items[i]) {
        FloatsHaveNoForm(items[i]);
      }
      hide FirstItems;
    case Dict(entries) =>
      MembersOkIff(entries);
      MembersDecide(entries);
      forall i | 0 <= i < |entries| ensures EntryOk(entries[i]) <==> !HasFloat(entries[i].value) {
        FloatsHaveNoForm(entries[i].value);
      }
      hide Members, Jsonable, EntryOk;
    case _ =>
  }

  lemma {:induction false} UnsignedElements(report: Report, e: Entry)
    ensures e in Unsigned(report) <==> e in report && e.key != Name(SIGNATURE)
  {
    if report != [] {
      var before, last := report[..|report| - 1], report[|report| - 1];
      assert report == before + [last];
      UnsignedElements(before, e);
    }
  }

  predicate BlockInOrder(verifier: Verifier, report: Report) {
    match Get(report, SIGNATURE)
    case Some(Dict(block)) =>
      && Get(block, "algorithm") == Some(Text(ALGORITHM))
      && verifier.readable(FieldText(Get(block, "public_key")), FieldText(Get(block, "signature")))
    case _ => false
  }

  /** On a loaded report verification raises exactly when the block is in order and a float stands outside it. */
  lemma RaisesIffFloat(verifier: Verifier, report: Report)
    requires IsLoaded(Dict(report))
    ensures VerifySignature(verifier, report).Raises? <==>
            BlockInOrder(verifier, report) && exists e <- report :: e.key != Name(SIGNATURE) && HasFloat(e.value)
  {
    RaisesIffNoMessage(verifier, report);
    NoMessageIffFloat(report);
    hide VerifySignature, BlockInOrder, SignedMessage;
  }

  lemma RaisesIffNoMessage(verifier: Verifier, report: Report)
    ensures VerifySignature(verifier, report).Raises? <==> BlockInOrder(verifier, report) && SignedMessage(report).None?
  {
    hide SignedMessage, Get, FieldText;
  }

  lemma NoMessageIffFloat(report: Report)
    requires IsLoaded(Dict(report))
    ensures SignedMessage(report).None? <==> exists e <- report :: e.key != Name(SIGNATURE) && HasFloat(e.value)
  {
    var body := Unsigned(report);
    MembersOkIff(body);
    MembersDecide(body);
    forall e: Entry ensures e in body <==> e in report && e.key != Name(SIGNATURE) {
      UnsignedElements(report, e);
    }
    forall e <- report ensures EntryOk(e) <==> !HasFloat(e.value) {
      var i :| 0 <= i < |report| && report[i] == e;
      FloatsHaveNoForm(e.value);
    }
    hide Members, Jsonable, EntryOk, Unsigned, HasFloat;
  }

  /** A signed report with a float added to it. */
  function WithFloat(publicKey: string, signature: string): Report {
    [Entry(Name("rows"), Float), Entry(Name(SIGNATURE), Block(publicKey, signature))]
  }

  lemma WithFloatIsLoaded(publicKey: string, signature: string)
    ensures IsLoaded(Dict(WithFloat(publicKey, signature)))
    ensures HasFloat(WithFloat(publicKey, signature)[0].value)
  {
    var block := Block(publicKey, signature);
    forall i | 0 <= i < |block.entries| ensures block.entries[i].key.Name? && IsLoaded(block.entries[i].value) {}
    assert IsLoaded(block) && IsLoaded(Float) && HasFloat(Float);
  }

  lemma BlockFields(publicKey: string, signature: string)
    ensures var block := Block(publicKey, signature).entries;
            && Get(block, "algorithm") == Some(Text(ALGORITHM))
            && Get(block, "public_key") == Some(Text(publicKey))
            && Get(block, "signature") == Some(Text(signature))
  {
    var block := Block(publicKey, signature).entries;
    assert block[..2] == [block[0], block[1]] && block[..2][..1] == [block[0]];
    assert "algorithm" != "signature" && "public_key" != "signature" && "algorithm" != "public_key";
    assert Get([block[0]], "algorithm") == Some(Text(ALGORITHM));
    assert Get(block[..2], "algorithm") == Some(Text(ALGORITHM));
  }

  lemma FloatRaises(verifier: Verifier, publicKey: string, signature: string)
    requires verifier.readable(publicKey, signature)
    ensures VerifySignature(verifier, WithFloat(publicKey, signature)).Raises?
  {
    var report := WithFloat(publicKey, signature);
    assert Get(report, SIGNATURE) == Some(Block(publicKey, signature));
    assert report[0] in report && "rows" != SIGNATURE;
    BlockFields(publicKey, signature);
    WithFloatIsLoaded(publicKey, signature);
    hide VerifySignature, Get;
    RaisesIffFloat(verifier, report);
  }
}
