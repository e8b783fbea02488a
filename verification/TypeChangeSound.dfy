/** The type-change verdicts against what the statement does to stored values. */
module TypeChangeSound {
  import opened Options
  import opened TypeChange
  import opened TypeValues

  /** A domain reduced to what its chain adds to the base type. */
  datatype Domain = Domain(typmod: Option<Params>, notNull: bool, checks: seq<Value -> bool>)

  datatype ColumnType = ColumnType(base: TypeName, typmod: Option<Params>, domain: Option<Domain>) {
    function BaseTypmod(): Option<Params> {
      if domain.Some? then domain.value.typmod else typmod
    }
  }

  /**
   One ALTER COLUMN TYPE without USING: the pg_cast row between the base types, the conversion it runs, the
   session's zone offset in microseconds at an instant, and the coercion of types outside the rules.
   */
  datatype Change = Change(
    source: ColumnType, target: ColumnType, cast: Option<CastMethod>,
    convert: Value -> Option<Value>, zone: int -> int, other: OtherCoercion)

  /** From a timestamp without time zone to one with, or back. */
  predicate CrossesZones(a: TypeName, b: TypeName) {
    a != b && (a.Timestamp? || a.Timestamptz?) && (b.Timestamp? || b.Timestamptz?)
  }

  ghost predicate PassesDomain(d: Option<Domain>, v: Value) {
    d.Some? ==> (d.value.notNull ==> !v.Null?) && forall i :: 0 <= i < |d.value.checks| ==> d.value.checks[i](v)
  }

  ghost predicate Stored(c: ColumnType, v: Value) {
    Storable(c.base, c.BaseTypmod(), v) && PassesDomain(c.domain, v)
  }

  function CastValue(c: Change, v: Value): Option<Value> {
    if c.source.base == c.target.base || c.cast == Some(Binary) then Some(v)
    else if CrossesZones(c.source.base, c.target.base) then
      if v.Micros? then Some(Micros(if c.target.base.Timestamptz? then v.us - c.zone(v.us) else v.us + c.zone(v.us)))
      else if v.Null? then Some(v)
      else None
    else c.convert(v)
  }

  /** Cast, then the new typmod (skipped when type and typmod are unchanged), then the domain's constraints. */
  ghost function Transform(c: Change, v: Value): Option<Value> {
    var converted := CastValue(c, v);
    if converted.None? then None
    else
      var sameTypmod := c.source.base == c.target.base && c.source.BaseTypmod() == c.target.BaseTypmod();
      var coerced :=
        if sameTypmod then converted else CoerceTo(c.target.base, c.other, c.target.BaseTypmod(), converted.value);
      if coerced.Some? && PassesDomain(c.target.domain, coerced.value) then coerced else None
  }

  /** The statement succeeds and leaves every stored value exactly as it was. */
  ghost predicate LeavesRowsAlone(c: Change) {
    forall v :: Stored(c.source, v) ==> Transform(c, v) == Some(v)
  }

  predicate SpellingFits(p: ParsedType, c: ColumnType) {
    if c.domain.Some? then p.name.Named?
    else p.params == c.typmod && if c.base.Named? then p.name.Named? else p.name == c.base
  }

  /** The spelling with the typmod that the server reads into a bare name, if there is one. */
  function WithImplied(p: ParsedType, implied: Option<Params>): ParsedType {
    if p.params.Some? then p else p.(params := implied)
  }

  /** Every fact that is present is true of the change, whose target name stands for `implied` when written bare. */
  ghost predicate Describes(f: Facts, c: Change, implied: Option<Params>) {
    && PrecisionOk(c.source.base, c.source.BaseTypmod())
    && (c.source.domain.Some? ==> c.source.typmod.None?)
    && (f.currentType.Available? && f.currentType.value.Some? ==>
          && SpellingFits(f.currentType.value.value, c.source)
          && (c.source.domain.Some? ==> f.currentType.value.value.params.None?))
    && (f.requested.Some? ==> SpellingFits(WithImplied(f.requested.value, implied), c.target))
    && (f.basesSame.Available? ==> f.basesSame.value == (c.source.base == c.target.base))
    && (f.castMethod.Available? ==> f.castMethod.value == c.cast)
    && (CrossesZones(c.source.base, c.target.base) ==> c.cast != Some(Binary))
    && (f.currentIsDomain.Available? ==> f.currentIsDomain.value == c.source.domain.Some?)
    && (f.newIsDomain.Available? ==> f.newIsDomain.value == c.target.domain.Some?)
    && (f.newDomainConstraints.Available? && c.target.domain.Some? ==>
          (f.newDomainConstraints.value == 0 <==> |c.target.domain.value.checks| == 0))
    && (f.newDomainNotNull.Available? && c.target.domain.Some? ==>
          f.newDomainNotNull.value == c.target.domain.value.notNull)
    && (f.newDomainHasTypmod.Available? && c.target.domain.Some? ==>
          f.newDomainHasTypmod.value == c.target.domain.value.typmod.Some?)
  }

  /** The same for names that carry no typmod of their own. */
  ghost predicate Consistent(f: Facts, c: Change) {
    Describes(f, c, None)
  }

  predicate DomainFactsKnown(f: Facts) {
    f.newIsDomain == Available(true) ==>
      f.newDomainConstraints.Available? && f.newDomainNotNull.Available? && f.newDomainHasTypmod.Available?
  }

  // ---- Soundness ----

  /** NO_REWRITE: the statement cannot fail and changes no stored value. */
  lemma NoRewriteIsSound(f: Facts, pgMajor: nat, hasUsing: bool, c: Change)
    requires Consistent(f, c) && DomainFactsKnown(f)
    requires Assess(f, pgMajor, hasUsing) == NoRewrite
    ensures LeavesRowsAlone(c)
  {
    if c.source.base == c.target.base && c.target.BaseTypmod().Some? && c.source.BaseTypmod() != c.target.BaseTypmod() {
      assert c.source.domain.None? && c.target.domain.None?;
      GrowthExact(c.source.base, c.other, c.source.typmod, c.target.typmod);
    }
  }

  /** The session zone adds no offset at any instant the column holds. */
  ghost predicate ZoneIsUtcOn(c: Change) {
    forall v :: Stored(c.source, v) && v.Micros? ==> c.zone(v.us) == 0
  }

  /**
   NO_REWRITE_IF_SESSION_TZ_UTC: with whole-second offsets, no stored value changes exactly when the session's
   offset is zero at every stored instant.
   */
  lemma SessionTzVerdictIsExact(f: Facts, pgMajor: nat, hasUsing: bool, c: Change)
    requires Consistent(f, c) && DomainFactsKnown(f)
    requires forall us :: c.zone(us) % 1_000_000 == 0
    requires Assess(f, pgMajor, hasUsing) == NoRewriteIfSessionTzUtc
    ensures LeavesRowsAlone(c) <==> ZoneIsUtcOn(c)
  {
    assert PlainMove(c) && c.cast != Some(Binary);
    assert GrowthAllows(RuleFor(c.target.base).value, c.source.typmod, c.target.typmod);
    hide Assess, Describes, GrowthAllows, PlainMove;
    forall v | Stored(c.source, v)
      ensures Transform(c, v) == Some(v) <==> (v.Micros? ==> c.zone(v.us) == 0)
    {
      MovedValue(c, v);
    }
    hide Transform, Stored;
  }

  /** A move between timestamp and timestamptz of plain columns. */
  predicate PlainMove(c: Change) {
    CrossesZones(c.source.base, c.target.base) && c.source.domain.None? && c.target.domain.None?
  }

  lemma MovedValue(c: Change, v: Value)
    requires PlainMove(c) && c.cast != Some(Binary) && Stored(c.source, v)
    requires PrecisionOk(c.target.base, c.source.typmod)
    requires GrowthAllows(RuleFor(c.target.base).value, c.source.typmod, c.target.typmod)
    requires forall us :: c.zone(us) % 1_000_000 == 0
    ensures Transform(c, v) == Some(v) <==> (v.Micros? ==> c.zone(v.us) == 0)
  {
    var cur, next := c.source.typmod, c.target.typmod;
    hide GrowthAllows;
    if v.Micros? {
      var shifted := CastValue(c, v).value;
      assert Storable(c.target.base, cur, shifted) by {
        WholeSecondsKeepUnit(v.us, c.zone(v.us), cur);
        WholeSecondsKeepUnit(v.us, -c.zone(v.us), cur);
      }
      if next.Some? {
        AllowedIsIdentity(c.target.base, c.other, cur, next.value, shifted);
      }
    }
  }

  lemma WholeSecondsKeepUnit(us: int, offset: int, typmod: Option<Params>)
    requires us % UnitOf(typmod) == 0 && offset % 1_000_000 == 0
    ensures (us + offset) % UnitOf(typmod) == 0
  {
    assert 1_000_000 % UnitOf(typmod) == 0;
    MultipleOfMultiple(offset, 1_000_000, UnitOf(typmod));
    SumOfMultiples(us, offset, UnitOf(typmod));
  }

  // ---- Exactness ----

  /** UNKNOWN is the answer exactly when a checked fact is missing or a spelling is not understood. */
  lemma UnknownIffNotKnown(f: Facts, pgMajor: nat, hasUsing: bool)
    ensures Assess(f, pgMajor, hasUsing) == Unknown <==>
            && !hasUsing
            && (|| f.currentType.Unavailable? || f.newType.Unavailable? || f.sameType.Unavailable?
                || f.basesSame.Unavailable? || f.castMethod.Unavailable? || f.newIsDomain.Unavailable?
                || f.currentType.value.None? || f.requested.None?)
    ensures hasUsing ==> Assess(f, pgMajor, hasUsing) == Rewrite
  {}

  /** Everything that is asked about a change is known, and there is no USING. */
  predicate FullyKnown(f: Facts) {
    && CheckedFactsAvailable(f) && f.currentType.value.Some? && f.requested.Some?
    && f.currentIsDomain.Available? && DomainFactsKnown(f)
  }

  /** Within one family the verdict is exact: NO_REWRITE iff no stored value can change or be refused. */
  lemma FamilyVerdictIsExact(f: Facts, pgMajor: nat, c: Change)
    requires Consistent(f, c) && FullyKnown(f)
    requires c.source.base == c.target.base && !c.source.base.Named?
    requires c.source.domain.None? && c.target.domain.None?
    ensures Assess(f, pgMajor, false) == if LeavesRowsAlone(c) then NoRewrite else Rewrite
  {
    var name, cur, next := c.source.base, c.source.typmod, c.target.typmod;
    GrowthExact(name, c.other, cur, next);
    hide GrowthAllows;
    if cur != next && LeavesRowsAlone(c) {
      forall v | Storable(name, cur, v) ensures CoerceTo(name, c.other, next, v) == Some(v) {
        assert Stored(c.source, v) && Transform(c, v) == Some(v);
      }
    }
  }

  /** A move between timestamp and timestamptz of plain columns, with the session in UTC. */
  ghost predicate PlainUtcMove(c: Change) {
    PlainMove(c) && forall us :: c.zone(us) == 0
  }

  lemma UtcMoveIsCoercion(c: Change)
    requires PlainUtcMove(c)
    ensures LeavesRowsAlone(c) <==> CoercionIsIdentity(c.target.base, c.other, c.source.typmod, c.target.typmod)
  {
    forall v: Value
      ensures Stored(c.source, v) <==> Storable(c.target.base, c.source.typmod, v)
      ensures Stored(c.source, v) ==> Transform(c, v) == CoerceTo(c.target.base, c.other, c.target.typmod, v)
    {
      UtcMoveOf(c, v);
    }
    hide Stored, Storable, Transform, CoerceTo;
  }

  lemma UtcMoveOf(c: Change, v: Value)
    requires PlainUtcMove(c)
    ensures Stored(c.source, v) <==> Storable(c.target.base, c.source.typmod, v)
    ensures Stored(c.source, v) ==> Transform(c, v) == CoerceTo(c.target.base, c.other, c.target.typmod, v)
  {
    hide CoerceTo;
  }

  /** The session-time-zone verdict is given exactly from version 12 on, when no value would change in UTC. */
  lemma UtcVerdictIsExact(f: Facts, pgMajor: nat, c: Change)
    requires Consistent(f, c) && FullyKnown(f) && PlainUtcMove(c)
    ensures Assess(f, pgMajor, false) ==
            if pgMajor >= 12 && LeavesRowsAlone(c) then NoRewriteIfSessionTzUtc else Rewrite
  {
    GrowthExact(c.target.base, c.other, c.source.typmod, c.target.typmod);
    UtcMoveIsCoercion(c);
    hide GrowthAllows, LeavesRowsAlone, CoercionIsIdentity, Contained;
  }

  // ---- Domain targets ----

  /** Every change these facts could be describing keeps its rows. */
  ghost predicate SoundFor(f: Facts) {
    forall c: Change :: Consistent(f, c) ==> LeavesRowsAlone(c)
  }

  /** A plain column spelled `varchar(0)`, `timestamp(0)` or the like: no typmod of its family is narrower. */
  predicate NarrowestSource(f: Facts)
    requires CheckedFactsAvailable(f) && f.currentType.value.Some?
  {
    var cur := f.currentType.value.value;
    f.basesSame.value && !cur.name.Named? && !cur.name.Numeric? && cur.params.Some? && cur.params.value[0] == 0
  }

  /** The facts alone rule out that the domain adds anything or that the values are converted. */
  predicate SurelyAddsNothing(f: Facts)
    requires CheckedFactsAvailable(f) && f.currentType.value.Some?
  {
    && f.newDomainConstraints == Available(0) && f.newDomainNotNull == Available(false)
    && (f.newDomainHasTypmod == Available(false) || NarrowestSource(f))
    && (f.basesSame.value || f.castMethod.value == Some(Binary))
  }

  /** Facts about a change to a domain over a known column. */
  ghost predicate DomainTarget(f: Facts, c: Change) {
    Consistent(f, c) && CheckedFactsAvailable(f) && f.newIsDomain.value && f.currentType.value.Some?
  }

  lemma NarrowestIff(name: TypeName, cur: Option<Params>)
    requires !name.Named?
    ensures (forall p: Params :: GrowthAllows(RuleFor(name).value, cur, Some(p))) <==>
            !name.Numeric? && cur.Some? && cur.value[0] == 0
  {
    if !(!name.Numeric? && cur.Some? && cur.value[0] == 0) {
      var p := Narrower(name, cur);
    }
  }

  lemma Narrower(name: TypeName, cur: Option<Params>) returns (p: Params)
    requires !name.Named? && (name.Numeric? || cur.None? || cur.value[0] > 0)
    ensures !GrowthAllows(RuleFor(name).value, cur, Some(p))
  {
    p := if name.Numeric? && cur.Some? then [0, ScaleOf(cur.value) + 1] else [0];
  }

  lemma NothingAddedIsSound(f: Facts, c: Change)
    requires DomainTarget(f, c) && SurelyAddsNothing(f)
    ensures LeavesRowsAlone(c)
  {
    var next := c.target.domain.value.typmod;
    if next.Some? {
      NarrowestIff(c.source.base, c.source.typmod);
      forall v | Stored(c.source, v) ensures Coerce(c.target.base, c.other, next.value, v) == Some(v) {
        AllowedIsIdentity(c.target.base, c.other, c.source.typmod, next.value, v);
      }
    }
  }

  /** The source without its domain's own constraints; it stores NULL. */
  function Relaxed(c: ColumnType): ColumnType {
    if c.domain.Some? then c.(domain := Some(Domain(c.domain.value.typmod, false, []))) else c
  }

  /** Another domain over the same base type. */
  function ToDomain(c: Change, d: Domain): Change {
    c.(source := Relaxed(c.source), target := c.target.(domain := Some(d)))
  }

  const REFUSE: Value -> bool := v => false

  /** A check that refuses everything, or NOT NULL, refuses the stored NULL. */
  lemma ConstraintSpoils(f: Facts, c: Change) returns (bad: Change)
    requires DomainTarget(f, c)
    requires f.newDomainConstraints != Available(0) || f.newDomainNotNull != Available(false)
    ensures Consistent(f, bad) && !LeavesRowsAlone(bad)
  {
    var d := c.target.domain.value;
    d := if f.newDomainConstraints != Available(0) then d.(checks := [REFUSE]) else d.(notNull := true);
    bad := ToDomain(c, d);
    forall v | f.newDomainConstraints != Available(0) ensures !PassesDomain(Some(d), v) {
      assert !d.checks[0](v);
    }
    assert Stored(bad.source, Null) && Transform(bad, Null) != Some(Null);
  }

  function Unlike(name: TypeName): (other: TypeName)
    ensures other.Named? && other != name
  {
    if name == Named("") then Named("x") else Named("")
  }

  /** A conversion function may refuse any value. */
  lemma ConversionSpoils(f: Facts, c: Change) returns (bad: Change)
    requires DomainTarget(f, c) && !f.basesSame.value && f.castMethod.value != Some(Binary)
    ensures Consistent(f, bad) && !LeavesRowsAlone(bad)
  {
    bad := c.(source := Relaxed(c.source), target := c.target.(base := Unlike(c.source.base)), convert := v => None);
    assert Stored(bad.source, Null) && Transform(bad, Null) == None;
  }

  function SomeStored(name: TypeName): (v: Value)
    ensures !v.Null? && forall typmod :: Storable(name, typmod, v)
  {
    match name
    case Varchar => Characters("")
    case Varbit => BitString([])
    case Numeric => NotANumber
    case Timestamp | Timestamptz | Time => Micros(0)
    case Timetz => MicrosAtZone(0, 0)
    case Named(_) => Other(0)
  }

  /** Its own typmod refuses everything but NULL where no rule says what it does. */
  lemma UnruledTypmodSpoils(f: Facts, c: Change) returns (bad: Change)
    requires DomainTarget(f, c) && f.newDomainHasTypmod != Available(false)
    requires if f.basesSame.value then c.source.domain.None? && c.source.base.Named?
             else f.castMethod.value == Some(Binary)
    ensures Consistent(f, bad) && !LeavesRowsAlone(bad)
  {
    var source := if c.source.domain.Some? then ColumnType(Varchar, None, Some(Domain(None, false, []))) else c.source;
    var base := if f.basesSame.value then c.source.base else Unlike(source.base);
    var typmod: Params := if source.typmod == Some([1]) then [2] else [1];
    bad := c.(source := source, other := (p, v) => None,
              target := c.target.(base := base, domain := Some(c.target.domain.value.(typmod := Some(typmod)))));
    var v := SomeStored(source.base);
    assert Stored(bad.source, v) && CastValue(bad, v) == Some(v);
    assert Transform(bad, v) == None;
  }

  /** A narrower typmod of a family with a rule changes or refuses some value. */
  lemma NarrowerTypmodSpoils(f: Facts, c: Change) returns (bad: Change)
    requires DomainTarget(f, c) && f.newDomainHasTypmod != Available(false)
    requires f.basesSame.value && (c.source.domain.Some? || !c.source.base.Named?) && !NarrowestSource(f)
    ensures Consistent(f, bad) && !LeavesRowsAlone(bad)
  {
    var source := if c.source.domain.Some? then ColumnType(Varchar, None, Some(Domain(None, false, []))) else c.source;
    var typmod := Narrower(source.base, source.typmod);
    bad := c.(source := source,
              target := c.target.(base := source.base, domain := Some(c.target.domain.value.(typmod := Some(typmod)))));
    var v := LostValue(source.base, c.other, source.typmod, typmod);
    assert Stored(bad.source, v) && CastValue(bad, v) == Some(v);
    assert GrowthAllows(RuleFor(source.base).value, source.typmod, source.typmod) by {
      GrowthIsAPreorder(source.base, source.typmod, source.typmod, None);
    }
    assert Transform(bad, v) != Some(v);
  }

  /** For a change to a domain, the facts guarantee that rows are left alone exactly when they rule the rest out. */
  lemma DomainTargetIff(f: Facts, c: Change)
    requires DomainTarget(f, c)
    ensures SoundFor(f) <==> SurelyAddsNothing(f)
  {
    hide LeavesRowsAlone, Describes;
    if SurelyAddsNothing(f) {
      forall other: Change | Consistent(f, other) ensures LeavesRowsAlone(other) {
        NothingAddedIsSound(f, other);
      }
    } else if f.newDomainConstraints != Available(0) || f.newDomainNotNull != Available(false) {
      var bad := ConstraintSpoils(f, c);
    } else if !f.basesSame.value && f.castMethod.value != Some(Binary) {
      var bad := ConversionSpoils(f, c);
    } else if !f.basesSame.value || (c.source.domain.None? && c.source.base.Named?) {
      var bad := UnruledTypmodSpoils(f, c);
    } else {
      var bad := NarrowerTypmodSpoils(f, c);
    }
  }

  /**
   With every fact gathered, a domain target is NO_REWRITE exactly when the facts guarantee that rows are left
   alone, but for one conservative case: a domain with a typmod over the narrowest source.
   */
  lemma DomainVerdictIsExact(f: Facts, pgMajor: nat, c: Change)
    requires DomainTarget(f, c) && FullyKnown(f)
    ensures Assess(f, pgMajor, false) == if SoundFor(f) && !f.newDomainHasTypmod.value then NoRewrite else Rewrite
  {
    DomainTargetIff(f, c);
    hide SoundFor;
  }

  // ---- Plain targets ----

  /** Facts about a change to a type that is no domain. */
  ghost predicate PlainTarget(f: Facts, c: Change) {
    && Consistent(f, c) && CheckedFactsAvailable(f) && !f.newIsDomain.value
    && f.currentType.value.Some? && f.requested.Some?
  }

  /** Types whose values are microseconds. */
  predicate IsClock(name: TypeName) {
    name.Timestamp? || name.Timestamptz? || name.Time?
  }

  /** Both are such types and the new precision is no coarser. */
  predicate ClockGrows(f: Facts)
    requires CheckedFactsAvailable(f) && f.currentType.value.Some? && f.requested.Some?
  {
    var cur, next := f.currentType.value.value, f.requested.value;
    IsClock(cur.name) && IsClock(next.name) && GrowthAllows(RuleFor(cur.name).value, cur.params, next.params)
  }

  lemma ClocksCoerceAlike(a: TypeName, b: TypeName, other: OtherCoercion, p: Params, v: Value)
    requires IsClock(a) && IsClock(b)
    ensures Coerce(a, other, p, v) == Coerce(b, other, p, v)
  {}

  /** The pg_cast row relabels, and no typmod is applied that could change a value. */
  predicate SurelyRelabels(f: Facts)
    requires CheckedFactsAvailable(f) && f.currentType.value.Some? && f.requested.Some?
  {
    f.castMethod.value == Some(Binary) && (f.requested.value.params.None? || ClockGrows(f))
  }

  lemma RelabelIsSound(f: Facts, c: Change)
    requires PlainTarget(f, c) && !f.basesSame.value && SurelyRelabels(f)
    ensures LeavesRowsAlone(c)
  {
    var next := c.target.typmod;
    if next.Some? {
      forall v | Stored(c.source, v) ensures Coerce(c.target.base, c.other, next.value, v) == Some(v) {
        AllowedIsIdentity(c.source.base, c.other, c.source.typmod, next.value, v);
        ClocksCoerceAlike(c.source.base, c.target.base, c.other, next.value, v);
      }
    }
  }

  /** A domain whose base type is not the target's. */
  function UnlikeDomain(target: TypeName): ColumnType {
    ColumnType(Unlike(target), None, Some(Domain(None, false, [])))
  }

  lemma RefusedConversion(f: Facts, c: Change) returns (bad: Change)
    requires PlainTarget(f, c) && !f.basesSame.value && f.castMethod.value != Some(Binary)
    requires !CrossesZones(f.currentType.value.value.name, f.requested.value.name)
    ensures Consistent(f, bad) && !LeavesRowsAlone(bad)
  {
    var source := if c.source.domain.Some? then UnlikeDomain(c.target.base) else c.source;
    bad := c.(source := source, convert := v => None);
    assert Stored(bad.source, Null) && CastValue(bad, Null) == None;
    assert Transform(bad, Null) == None;
  }

  /** A value of the source type that the target's typmod changes or refuses. */
  lemma ChangedByTypmod(f: Facts, c: Change) returns (bad: Change)
    requires PlainTarget(f, c) && !f.basesSame.value && f.castMethod.value == Some(Binary)
    requires f.requested.value.params.Some? && !ClockGrows(f)
    ensures Consistent(f, bad) && !LeavesRowsAlone(bad)
  {
    var source := if c.source.domain.Some? then UnlikeDomain(c.target.base) else c.source;
    bad := c.(source := source, other := (p, v) => None);
    var p := c.target.typmod.value;
    var v := SomeStored(source.base);
    if IsClock(source.base) && IsClock(c.target.base) {
      v := LostValue(source.base, bad.other, source.typmod, p);
      ClocksCoerceAlike(source.base, c.target.base, bad.other, p, v);
    }
    assert Stored(bad.source, v) && CastValue(bad, v) == Some(v);
    assert Coerce(c.target.base, bad.other, p, v) != Some(v);
    assert Transform(bad, v) != Some(v);
  }

  /** Between different base types the facts guarantee that rows are left alone exactly when the change relabels. */
  lemma PlainTargetIff(f: Facts, c: Change)
    requires PlainTarget(f, c) && !f.basesSame.value
    requires !CrossesZones(f.currentType.value.value.name, f.requested.value.name)
    ensures SoundFor(f) <==> SurelyRelabels(f)
  {
    hide LeavesRowsAlone, Describes;
    if SurelyRelabels(f) {
      forall other: Change | Consistent(f, other) ensures LeavesRowsAlone(other) {
        RelabelIsSound(f, other);
      }
    } else if f.castMethod.value != Some(Binary) {
      var bad := RefusedConversion(f, c);
    } else {
      var bad := ChangedByTypmod(f, c);
    }
  }

  /**
   Between different base types the verdict is NO_REWRITE exactly when the facts guarantee that rows are left alone,
   but for one conservative case: a typmod is written.
   */
  lemma PlainVerdictIsExact(f: Facts, pgMajor: nat, c: Change)
    requires PlainTarget(f, c) && FullyKnown(f) && !f.basesSame.value
    requires !CrossesZones(f.currentType.value.value.name, f.requested.value.name)
    ensures Assess(f, pgMajor, false) == if SoundFor(f) && f.requested.value.params.None? then NoRewrite else Rewrite
  {
    PlainTargetIff(f, c);
    hide SoundFor;
  }

  /**
   Within one base type the verdict is NO_REWRITE exactly when the facts guarantee that rows are left alone, but for
   one conservative case: a typmod is written and the column's type is a domain.
   */
  lemma SameBaseVerdictIsExact(f: Facts, pgMajor: nat, c: Change)
    requires PlainTarget(f, c) && FullyKnown(f) && f.basesSame.value
    ensures Assess(f, pgMajor, false) ==
            if SoundFor(f) && (f.requested.value.params.None? || !f.currentIsDomain.value) then NoRewrite else Rewrite
  {
    if Assess(f, pgMajor, false) == NoRewrite {
      forall other: Change | Consistent(f, other) ensures LeavesRowsAlone(other) {
        NoRewriteIsSound(f, pgMajor, false, other);
      }
    } else if c.source.domain.None? && !c.source.base.Named? {
      FamilyVerdictIsExact(f, pgMajor, c);
    } else if c.source.domain.None? {
      var bad := c.(other := (p, v) => None);
      assert Stored(bad.source, Other(0)) && Transform(bad, Other(0)) == None;
      assert Consistent(f, bad) && !LeavesRowsAlone(bad);
    } else {
      assert f.currentIsDomain.value && f.requested.value.params.Some?;
    }
  }

  /** A typmod over a domain column is refused however the column's type is spelled, even as the requested one. */
  lemma TypmodOverDomainRewrites(f: Facts, pgMajor: nat)
    requires f.currentIsDomain == Available(true) && f.newIsDomain == Available(false)
    requires f.requested.Some? && f.requested.value.params.Some?
    ensures Assess(f, pgMajor, false) != NoRewrite
  {}

  // ---- Missing facts that are guessed ----

  /**
   The module promises UNKNOWN for any missing fact, but a target domain's constraint count, NOT NULL flag and
   typmod flag are read as zero and false when missing. A NO_REWRITE verdict is safe exactly when the target is no
   domain, or the first two were gathered and so was the third, unless the source has no narrower typmod anyway.
   */
  lemma MissingDomainFactsAreGuessed(f: Facts, pgMajor: nat, hasUsing: bool, c: Change)
    requires Consistent(f, c) && Assess(f, pgMajor, hasUsing) == NoRewrite
    ensures SoundFor(f) <==>
            f.newIsDomain.value ==>
              && f.newDomainConstraints.Available? && f.newDomainNotNull.Available?
              && (f.newDomainHasTypmod.Available? || NarrowestSource(f))
  {
    if f.newIsDomain.value {
      DomainTargetIff(f, c);
      hide SoundFor;
    } else {
      forall other: Change | Consistent(f, other) ensures LeavesRowsAlone(other) {
        NoRewriteIsSound(f, pgMajor, hasUsing, other);
      }
    }
  }

  const TEXT := ColumnType(Named("text"), None, None)

  const IDENTITY: OtherCoercion := (p, v) => Some(v)

  /** text to a domain over text, where the domain's own facts were not gathered. */
  const UNGATHERED := Facts(
    Available(Some(ParsedType(Named("text"), None))), Some(ParsedType(Named("positive_text"), None)),
    Available(()), Available(false), Available(true), Available(None), Available(false),
    Available(true), Unavailable, Unavailable, Available(false))

  lemma GuessExample()
    ensures Assess(UNGATHERED, 17, false) == NoRewrite && !SoundFor(UNGATHERED)
  {
    var c := Change(TEXT, TEXT.(domain := Some(Domain(None, false, []))), None, v => None, us => 0, IDENTITY);
    MissingDomainFactsAreGuessed(UNGATHERED, 17, false, c);
  }

  /** varchar to a domain over varchar, of which only the typmod flag was not gathered. */
  const UNGATHERED_TYPMOD := Facts(
    Available(Some(ParsedType(Varchar, None))), Some(ParsedType(Named("short_text"), None)),
    Available(()), Available(false), Available(true), Available(None), Available(false),
    Available(true), Available(0), Available(false), Unavailable)

  lemma TypmodGuessExample()
    ensures Assess(UNGATHERED_TYPMOD, 17, false) == NoRewrite && !SoundFor(UNGATHERED_TYPMOD)
  {
    var varchar := ColumnType(Varchar, None, None);
    var short := varchar.(domain := Some(Domain(Some([1]), false, [])));
    var c := Change(varchar, short, None, v => None, us => 0, IDENTITY);
    MissingDomainFactsAreGuessed(UNGATHERED_TYPMOD, 17, false, c);
  }

  // ---- Names that carry an implied length ----

  /** NO_REWRITE between plain columns, to a type without a rule whose bare name stands for `implied`. */
  ghost predicate JudgedByName(f: Facts, pgMajor: nat, c: Change, implied: Option<Params>) {
    && Describes(f, c, implied) && Assess(f, pgMajor, false) == NoRewrite
    && c.source.domain.None? && c.target.domain.None? && c.target.base.Named?
  }

  /** The typmod is written, or none is implied, or the column already has the implied one. */
  predicate NothingImplied(f: Facts, implied: Option<Params>)
    requires CheckedFactsAvailable(f) && f.currentType.value.Some? && f.requested.Some?
  {
    || f.requested.value.params.Some?
    || implied.None?
    || (f.basesSame.value && implied == f.currentType.value.value.params)
  }

  /** Rows are left alone exactly when nothing is implied, or the type's coercion happens to keep every stored value. */
  lemma ImpliedTypmodIff(f: Facts, pgMajor: nat, c: Change, implied: Option<Params>)
    requires JudgedByName(f, pgMajor, c, implied)
    ensures LeavesRowsAlone(c) <==>
            NothingImplied(f, implied)
            || forall v :: Stored(c.source, v) && !v.Null? ==> c.other(implied.value, v) == Some(v)
  {
    if !NothingImplied(f, implied) {
      forall v | Stored(c.source, v)
        ensures Transform(c, v) == if v.Null? then Some(v) else c.other(implied.value, v)
      {
        assert CastValue(c, v) == Some(v);
      }
    }
  }

  /** Whatever the type's coercion does, NO_REWRITE is right exactly when nothing is implied. */
  lemma ImpliedTypmodIsLost(f: Facts, pgMajor: nat, c: Change, implied: Option<Params>)
    requires JudgedByName(f, pgMajor, c, implied)
    ensures (forall o: OtherCoercion :: LeavesRowsAlone(c.(other := o))) <==> NothingImplied(f, implied)
  {
    forall o: OtherCoercion | NothingImplied(f, implied) ensures LeavesRowsAlone(c.(other := o)) {
      ImpliedTypmodIff(f, pgMajor, c.(other := o), implied);
    }
    if !NothingImplied(f, implied) {
      var refusing: Change := c.(other := (p, v) => None);
      var v := SomeStored(c.source.base);
      assert Stored(refusing.source, v);
      ImpliedTypmodIff(f, pgMajor, refusing, implied);
    }
  }

  const BARE_CHAR := Facts(
    Available(Some(ParsedType(Named("bpchar"), Some([10])))), Some(ParsedType(Named("bpchar"), None)),
    Available(()), Available(true), Available(true), Available(None), Available(false),
    Available(false), Available(0), Available(false), Available(false))

  function CharLength(p: Params, v: Value): Option<Value> {
    if v.Characters? && |v.chars| > p[0] then None else Some(v)
  }

  const TEN_TO_ONE := Change(
    ColumnType(Named("bpchar"), Some([10]), None), ColumnType(Named("bpchar"), Some([1]), None),
    None, v => None, us => 0, CharLength)

  /** Bare `char` is `char(1)`: `char(10)` to `char` is judged NO_REWRITE although longer values are refused. */
  lemma BareCharLosesItsLength()
    ensures JudgedByName(BARE_CHAR, 17, TEN_TO_ONE, Some([1])) && !LeavesRowsAlone(TEN_TO_ONE)
  {
    ImpliedTypmodIff(BARE_CHAR, 17, TEN_TO_ONE, Some([1]));
    var v := Characters("ab");
    assert Stored(TEN_TO_ONE.source, v) && !v.Null? && TEN_TO_ONE.other([1], v) == None;
  }
}
