/** The lock catalog's data and its lookup (`catalog/model.py`). */
module LockModel {
  import opened Options

  datatype LockMode =
    | AccessShare | RowShare | RowExclusive | ShareUpdateExclusive
    | Share | ShareRowExclusive | Exclusive | AccessExclusive
    | NoLock | UnknownLock
  {
    function Level(): nat {
      match this
      case NoLock => 0
      case AccessShare => 1
      case RowShare => 2
      case RowExclusive => 3
      case ShareUpdateExclusive => 4
      case Share => 5
      case ShareRowExclusive => 6
      case Exclusive => 7
      case AccessExclusive => 8
      case UnknownLock => 9
    }

    predicate IsTableLock() {
      !NoLock? && !UnknownLock?
    }
  }

  const TABLE_LOCK_MODES := {
    AccessShare, RowShare, RowExclusive, ShareUpdateExclusive, Share, ShareRowExclusive, Exclusive, AccessExclusive}

  type Matrix = map<LockMode, set<LockMode>>

  /** Inclusive range of major versions. */
  datatype VersionRange = VersionRange(min: int, max: int) {
    predicate Covers(version: int) {
      min <= version <= max
    }

    predicate Overlaps(other: VersionRange) {
      min <= other.max && other.min <= max
    }
  }

  /** A statement kind or an ALTER TABLE action kind. */
  datatype Kind = StatementKind(name: string) | ActionKind(name: string)

  /** Field values a predicate can see; booleans are the numbers 0 and 1, as they compare in the source. */
  datatype Attr = Text(text: string) | Number(n: int) | Null

  datatype Expected = Exactly(value: Attr) | OneOf(values: seq<Attr>)

  type When = seq<(string, Expected)>

  datatype AffectedRelation = AffectedRelation(role: string, mode: LockMode, optional: bool, resolvable: bool)

  datatype Scope = NoScope | TableScope | MatchedRows

  datatype Entry = Entry(
    kind: Kind, versions: VersionRange, mode: LockMode, conflicts: set<LockMode>,
    blocksReads: bool, blocksWrites: bool, scope: Scope, affected: seq<AffectedRelation>, when_: When)
  {
    predicate IsDefault() {
      when_ == []
    }
  }

  predicate WhenMatches(w: When, attrs: map<string, Attr>) {
    forall item <- w ::
      && item.0 in attrs
      && match item.1 case Exactly(value) => attrs[item.0] == value case OneOf(values) => attrs[item.0] in values
  }

  function Covering(rows: seq<Entry>, version: int): seq<Entry> {
    if rows == [] then []
    else (if rows[0].versions.Covers(version) then [rows[0]] else []) + Covering(rows[1..], version)
  }

  function FirstVariant(rows: seq<Entry>, attrs: map<string, Attr>): Option<Entry> {
    if rows == [] then None
    else if !rows[0].IsDefault() && WhenMatches(rows[0].when_, attrs) then Some(rows[0])
    else FirstVariant(rows[1..], attrs)
  }

  function FirstDefault(rows: seq<Entry>): Option<Entry> {
    if rows == [] then None else if rows[0].IsDefault() then Some(rows[0]) else FirstDefault(rows[1..])
  }

  /** The first matching variant of the version, else its default; None is the LookupError. */
  function EntryFor(rows: seq<Entry>, version: int, attrs: map<string, Attr>): Option<Entry> {
    var candidates := Covering(rows, version);
    var variant := FirstVariant(candidates, attrs);
    if variant.Some? then variant else FirstDefault(candidates)
  }

  function ConflictsWith(matrix: Matrix, mode: LockMode): set<LockMode> {
    if mode.NoLock? then {}
    else if mode.UnknownLock? then TABLE_LOCK_MODES
    else if mode in matrix then matrix[mode] else {}
  }

  // ---- What the coverage check buys ----

  predicate CoversAsDefault(e: Entry, version: int) {
    e.IsDefault() && e.versions.Covers(version)
  }

  /** Row `i` is the only default row for the version. */
  ghost predicate OnlyDefault(rows: seq<Entry>, version: int, i: nat) {
    i < |rows| && CoversAsDefault(rows[i], version)
    && forall j :: 0 <= j < |rows| && j != i ==> !CoversAsDefault(rows[j], version)
  }

  predicate Collide(a: Entry, b: Entry) {
    !a.IsDefault() && !b.IsDefault() && a.when_ == b.when_ && a.versions.Overlaps(b.versions)
  }

  /** Every version has exactly one default row, and variants of one condition never overlap. */
  ghost predicate Covered(rows: seq<Entry>, domain: VersionRange) {
    && (forall version :: domain.Covers(version) ==> exists i: nat :: OnlyDefault(rows, version, i))
    && (forall i, j :: 0 <= i < j < |rows| ==> !Collide(rows[i], rows[j]))
  }

  /** Two conditional rows of one condition are refused exactly when some version would have both. */
  lemma CollideIff(a: Entry, b: Entry)
    requires a.versions.min <= a.versions.max && b.versions.min <= b.versions.max
    ensures Collide(a, b) <==>
            a.when_ == b.when_ && a.when_ != [] &&
            exists version :: a.versions.Covers(version) && b.versions.Covers(version)
  {
    var version := if a.versions.min <= b.versions.min then b.versions.min else a.versions.min;
    assert a.versions.Covers(version) && b.versions.Covers(version) <==> a.versions.Overlaps(b.versions);
  }

  lemma {:induction false} CoveringIsExact(rows: seq<Entry>, version: int)
    ensures forall e :: e in Covering(rows, version) <==> e in rows && e.versions.Covers(version)
  {
    if rows != [] {
      CoveringIsExact(rows[1..], version);
    }
  }

  lemma {:induction false} FirstDefaultIsDefault(rows: seq<Entry>)
    ensures match FirstDefault(rows)
            case None => forall e <- rows :: !e.IsDefault()
            case Some(e) => e in rows && e.IsDefault()
  {
    if rows != [] && !rows[0].IsDefault() {
      FirstDefaultIsDefault(rows[1..]);
    }
  }

  predicate Applies(e: Entry, version: int, attrs: map<string, Attr>) {
    e.versions.Covers(version) && !e.IsDefault() && WhenMatches(e.when_, attrs)
  }

  /** Row `i` is the first variant that applies. */
  ghost predicate FirstApplies(rows: seq<Entry>, version: int, attrs: map<string, Attr>, i: nat) {
    i < |rows| && Applies(rows[i], version, attrs) && forall j :: 0 <= j < i ==> !Applies(rows[j], version, attrs)
  }

  lemma {:induction false} FirstVariantApplies(rows: seq<Entry>, version: int, attrs: map<string, Attr>)
    ensures match FirstVariant(Covering(rows, version), attrs)
            case None => forall e <- rows :: !Applies(e, version, attrs)
            case Some(e) => exists i: nat :: FirstApplies(rows, version, attrs, i) && rows[i] == e
  {
    if rows != [] {
      FirstVariantApplies(rows[1..], version, attrs);
      var rest := Covering(rows[1..], version);
      assert Covering(rows, version) == if rows[0].versions.Covers(version) then [rows[0]] + rest else rest by {
        assert [] + rest == rest;
      }
      assert ([rows[0]] + rest)[1..] == rest;
      if Applies(rows[0], version, attrs) {
        assert FirstApplies(rows, version, attrs, 0);
      } else if FirstVariant(rest, attrs).Some? {
        var i: nat :| FirstApplies(rows[1..], version, attrs, i) && rows[1..][i] == FirstVariant(rest, attrs).value;
        forall j | 0 <= j < i + 1 ensures !Applies(rows[j], version, attrs) {
          assert j > 0 ==> rows[j] == rows[1..][j - 1];
        }
        assert FirstApplies(rows, version, attrs, i + 1);
      }
    }
  }

  /** What a lookup answers: the first variant that applies, otherwise the version's one default row. */
  ghost predicate Answers(rows: seq<Entry>, version: int, attrs: map<string, Attr>, e: Entry) {
    if exists other <- rows :: Applies(other, version, attrs) then
      exists i: nat :: FirstApplies(rows, version, attrs, i) && rows[i] == e
    else
      exists i: nat :: OnlyDefault(rows, version, i) && rows[i] == e
  }

  /** On checked rows every lookup inside the domain succeeds; the LookupError is unreachable. */
  lemma LookupIsTotal(rows: seq<Entry>, domain: VersionRange, version: int, attrs: map<string, Attr>)
    requires Covered(rows, domain) && domain.Covers(version)
    ensures EntryFor(rows, version, attrs).Some?
    ensures var e := EntryFor(rows, version, attrs).value; e in rows && e.versions.Covers(version)
    ensures Answers(rows, version, attrs, EntryFor(rows, version, attrs).value)
  {
    hide WhenMatches;
    var candidates := Covering(rows, version);
    CoveringIsExact(rows, version);
    FirstVariantApplies(rows, version, attrs);
    FirstDefaultIsDefault(candidates);
    hide Covering, FirstVariant, FirstDefault;
    var i: nat :| OnlyDefault(rows, version, i);
    assert rows[i] in candidates;
    var e := EntryFor(rows, version, attrs).value;
    if FirstVariant(candidates, attrs).None? {
      var k :| 0 <= k < |rows| && rows[k] == e;
      assert CoversAsDefault(rows[k], version);
    } else {
      var k: nat :| FirstApplies(rows, version, attrs, k) && rows[k] == e;
      assert rows[k] in rows;
    }
  }

  predicate Spans(range: VersionRange, breakpoint: int) {
    range.min < breakpoint <= range.max
  }

  /** Across a registered breakpoint no row is shared: the lookups on either side give different rows. */
  lemma BreakpointSeparates(
      rows: seq<Entry>, domain: VersionRange, breakpoint: int, before: map<string, Attr>, after: map<string, Attr>)
    requires Covered(rows, domain) && domain.min < breakpoint <= domain.max
    requires forall e <- rows :: !Spans(e.versions, breakpoint)
    ensures EntryFor(rows, breakpoint - 1, before).Some? && EntryFor(rows, breakpoint, after).Some?
    ensures EntryFor(rows, breakpoint - 1, before) != EntryFor(rows, breakpoint, after)
  {
    LookupIsTotal(rows, domain, breakpoint - 1, before);
    LookupIsTotal(rows, domain, breakpoint, after);
  }

  // ---- When a condition selects its row ----

  /** The field has the expected value, or a listed one. */
  predicate IsMet(key: string, expected: Expected, attrs: map<string, Attr>) {
    key in attrs &&
    match expected
    case Exactly(value) => attrs[key] == value
    case OneOf(values) => exists i :: 0 <= i < |values| && values[i] == attrs[key]
  }

  /** The row covers the version and each of its conditions is met; a default has none. */
  predicate IsCandidate(e: Entry, version: int, attrs: map<string, Attr>) {
    e.versions.min <= version <= e.versions.max
    && forall i :: 0 <= i < |e.when_| ==> IsMet(e.when_[i].0, e.when_[i].1, attrs)
  }

  lemma WhenMatchesIff(e: Entry, version: int, attrs: map<string, Attr>)
    ensures e.versions.Covers(version) && WhenMatches(e.when_, attrs) <==> IsCandidate(e, version, attrs)
  {
    if e.versions.Covers(version) && WhenMatches(e.when_, attrs) {
      forall i | 0 <= i < |e.when_| ensures IsMet(e.when_[i].0, e.when_[i].1, attrs) {
        assert e.when_[i] in e.when_;
      }
    }
    if IsCandidate(e, version, attrs) {
      forall item <- e.when_ ensures WhenMatches([item], attrs) {
        var i :| 0 <= i < |e.when_| && e.when_[i] == item;
        assert IsMet(e.when_[i].0, e.when_[i].1, attrs);
      }
      assert forall item <- e.when_ :: item in [item];
    }
  }

  /** The first variant that is a candidate is the answer. */
  lemma VariantIsSelected(rows: seq<Entry>, version: int, attrs: map<string, Attr>, i: nat)
    requires i < |rows| && rows[i].when_ != [] && IsCandidate(rows[i], version, attrs)
    requires forall j :: 0 <= j < i ==> rows[j].when_ == [] || !IsCandidate(rows[j], version, attrs)
    ensures EntryFor(rows, version, attrs) == Some(rows[i])
  {
    FirstVariantApplies(rows, version, attrs);
    forall j | 0 <= j <= i ensures Applies(rows[j], version, attrs) <==> j == i {
      WhenMatchesIff(rows[j], version, attrs);
    }
    hide WhenMatches, IsCandidate, FirstVariant, Covering;
    assert rows[i] in rows;
    var k: nat :| FirstApplies(rows, version, attrs, k)
                  && Some(rows[k]) == FirstVariant(Covering(rows, version), attrs);
  }

  /** A variant is never the answer when one of its conditions is not met. */
  lemma UnmetIsNeverAnswered(rows: seq<Entry>, version: int, attrs: map<string, Attr>, e: Entry, i: nat)
    requires i < |e.when_| && !IsMet(e.when_[i].0, e.when_[i].1, attrs)
    ensures EntryFor(rows, version, attrs) != Some(e)
  {
    WhenMatchesIff(e, version, attrs);
    FirstVariantApplies(rows, version, attrs);
    FirstDefaultIsDefault(Covering(rows, version));
    hide WhenMatches, FirstVariant, FirstDefault, Covering;
  }

  /** Giving a field an unexpected value deselects the row, whatever the other fields are. */
  lemma UnexpectedValueDeselects(
      rows: seq<Entry>, version: int, attrs: map<string, Attr>, e: Entry, i: nat, value: Attr)
    requires i < |e.when_|
    requires match e.when_[i].1
             case Exactly(expected) => value != expected
             case OneOf(values) => forall k :: 0 <= k < |values| ==> values[k] != value
    ensures EntryFor(rows, version, attrs[e.when_[i].0 := value]) != Some(e)
  {
    UnmetIsNeverAnswered(rows, version, attrs[e.when_[i].0 := value], e, i);
  }

  /** When no variant is a candidate, the version's default is the answer. */
  lemma DefaultIsSelected(rows: seq<Entry>, version: int, attrs: map<string, Attr>, i: nat)
    requires OnlyDefault(rows, version, i)
    requires forall j :: 0 <= j < |rows| && rows[j].when_ != [] ==> !IsCandidate(rows[j], version, attrs)
    ensures EntryFor(rows, version, attrs) == Some(rows[i])
  {
    FirstVariantApplies(rows, version, attrs);
    CoveringIsExact(rows, version);
    FirstDefaultIsDefault(Covering(rows, version));
    forall j | 0 <= j < |rows| ensures !Applies(rows[j], version, attrs) {
      WhenMatchesIff(rows[j], version, attrs);
    }
    hide WhenMatches, IsCandidate, FirstVariant, FirstDefault, Covering;
    assert rows[i] in Covering(rows, version);
    var e := FirstDefault(Covering(rows, version)).value;
    var k :| 0 <= k < |rows| && rows[k] == e;
    assert CoversAsDefault(rows[k], version);
  }

  /** Fields that no condition mentions never matter. */
  lemma UnmentionedFieldsDoNotMatter(rows: seq<Entry>, version: int, a: map<string, Attr>, b: map<string, Attr>)
    requires forall e <- rows, item <- e.when_ ::
               (item.0 in a <==> item.0 in b) && (item.0 in a ==> a[item.0] == b[item.0])
    ensures EntryFor(rows, version, a) == EntryFor(rows, version, b)
  {
    CoveringIsExact(rows, version);
    SameVariant(Covering(rows, version), a, b);
  }

  lemma {:induction false} SameVariant(rows: seq<Entry>, a: map<string, Attr>, b: map<string, Attr>)
    requires forall e <- rows, item <- e.when_ ::
               (item.0 in a <==> item.0 in b) && (item.0 in a ==> a[item.0] == b[item.0])
    ensures FirstVariant(rows, a) == FirstVariant(rows, b)
  {
    if rows != [] {
      assert rows[0] in rows;
      assert WhenMatches(rows[0].when_, a) <==> WhenMatches(rows[0].when_, b);
      hide WhenMatches;
      SameVariant(rows[1..], a, b);
    }
  }

  // ---- Ranges, modes and conflicts ----

  /** A range covers its ends, and overlaps another exactly when some version is in both. */
  lemma OverlapsIff(a: VersionRange, b: VersionRange)
    requires a.min <= a.max && b.min <= b.max
    ensures a.Covers(a.min) && a.Covers(a.max) && !a.Covers(a.min - 1) && !a.Covers(a.max + 1)
    ensures a.Overlaps(b) <==> exists version :: a.Covers(version) && b.Covers(version)
  {
    var latest := if a.min <= b.min then b.min else a.min;
    assert a.Overlaps(b) ==> a.Covers(latest) && b.Covers(latest);
  }

  /** The modes from weakest to strongest, with no lock below them all and an unknown one above. */
  lemma LevelsAscend()
    ensures NoLock.Level() < AccessShare.Level() < RowShare.Level() < RowExclusive.Level()
    ensures RowExclusive.Level() < ShareUpdateExclusive.Level() < Share.Level() < ShareRowExclusive.Level()
    ensures ShareRowExclusive.Level() < Exclusive.Level() < AccessExclusive.Level() < UnknownLock.Level()
  {}

  /** In a symmetric matrix table locks conflict both ways; no lock conflicts with none, an unknown one with all. */
  lemma ConflictsAreMutual(m: Matrix, a: LockMode, b: LockMode)
    requires m.Keys == TABLE_LOCK_MODES && forall x <- m, y <- m[x] :: y in m && x in m[y]
    ensures a.IsTableLock() && b.IsTableLock() ==> (b in ConflictsWith(m, a) <==> a in ConflictsWith(m, b))
    ensures a.IsTableLock() ==> ConflictsWith(m, a) == m[a] && a in ConflictsWith(m, UnknownLock)
    ensures a !in ConflictsWith(m, NoLock)
  {}
}
