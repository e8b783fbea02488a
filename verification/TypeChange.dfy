/** Does ALTER COLUMN TYPE rewrite the table? The judgment of `live/typechange.py`. */
module TypeChange {
  import opened Options

  /** Canonical type names: the families with a typmod rule, and every other name as written. */
  datatype TypeName = Varchar | Varbit | Numeric | Timestamp | Timestamptz | Time | Timetz | Named(text: string)

  /** One or two numbers in parentheses. */
  type Params = p: seq<nat> | 1 <= |p| <= 2 witness [1]

  datatype ParsedType = ParsedType(name: TypeName, params: Option<Params>)

  /** `effectiveDefault` is what an absent typmod counts as; None means truly unbounded. */
  datatype GrowthRule = GrowthRule(effectiveDefault: Option<nat>, scaleSensitive: bool)

  function RuleFor(name: TypeName): Option<GrowthRule> {
    match name
    case Varchar | Varbit => Some(GrowthRule(None, false))
    case Numeric => Some(GrowthRule(None, true))
    case Timestamp | Timestamptz | Time | Timetz => Some(GrowthRule(Some(6), false))
    case Named(_) => None
  }

  function ScaleOf(p: Params): nat {
    if |p| > 1 then p[1] else 0
  }

  predicate GrowthAllows(rule: GrowthRule, cur: Option<Params>, next: Option<Params>) {
    if next.None? then true
    else if rule.scaleSensitive then
      cur.Some? && ScaleOf(cur.value) == ScaleOf(next.value) && next.value[0] >= cur.value[0]
    else if cur.None? then
      rule.effectiveDefault.Some? && next.value[0] >= rule.effectiveDefault.value
    else next.value[0] >= cur.value[0]
  }

  datatype Verdict = NoRewrite | Rewrite | NoRewriteIfSessionTzUtc | Unknown

  datatype Fact<T> = Available(value: T) | Unavailable

  /** A missing fact's value is None in the source, which its conversions read as false or zero. */
  function ValueOr<T>(fact: Fact<T>, default: T): T {
    match fact case Available(v) => v case Unavailable => default
  }

  datatype CastMethod = Binary | Function | InOut

  /** `currentType` and `requested` are the parsed spellings; None is a spelling that is not understood. */
  datatype Facts = Facts(
    currentType: Fact<Option<ParsedType>>,
    requested: Option<ParsedType>,
    newType: Fact<()>,
    sameType: Fact<bool>,
    basesSame: Fact<bool>,
    castMethod: Fact<Option<CastMethod>>,
    currentIsDomain: Fact<bool>,
    newIsDomain: Fact<bool>,
    newDomainConstraints: Fact<nat>,
    newDomainNotNull: Fact<bool>,
    newDomainHasTypmod: Fact<bool>)

  predicate CheckedFactsAvailable(f: Facts) {
    && f.currentType.Available? && f.newType.Available? && f.sameType.Available?
    && f.basesSame.Available? && f.castMethod.Available? && f.newIsDomain.Available?
  }

  function Assess(f: Facts, pgMajor: nat, hasUsing: bool): Verdict {
    if hasUsing then Rewrite
    else if !CheckedFactsAvailable(f) then Unknown
    else if f.currentType.value.None? || f.requested.None? then Unknown
    else
      var cur, req := f.currentType.value.value, f.requested.value;
      var constrained := ValueOr(f.newDomainConstraints, 0) > 0 || ValueOr(f.newDomainNotNull, false);
      if f.newIsDomain.value && constrained then Rewrite
      else if f.newIsDomain.value && ValueOr(f.newDomainHasTypmod, false) then Rewrite
      else JudgeNames(f, cur, req.name, if f.newIsDomain.value then None else req.params, pgMajor)
  }

  predicate TimestampPair(a: TypeName, b: TypeName) {
    (a.Timestamp? && b.Timestamptz?) || (a.Timestamptz? && b.Timestamp?)
  }

  function JudgeNames(f: Facts, cur: ParsedType, newName: TypeName, newParams: Option<Params>, pgMajor: nat): Verdict
    requires CheckedFactsAvailable(f)
  {
    if TimestampPair(cur.name, newName) then
      if pgMajor >= 12 && GrowthAllows(RuleFor(Timestamp).value, cur.params, newParams) then NoRewriteIfSessionTzUtc
      else Rewrite
    else if f.basesSame.value then
      if newParams.None? then NoRewrite
      else if ValueOr(f.currentIsDomain, false) || f.newIsDomain.value then Rewrite
      else if cur.params == newParams then NoRewrite
      else if RuleFor(cur.name).Some? && GrowthAllows(RuleFor(cur.name).value, cur.params, newParams) then NoRewrite
      else Rewrite
    else if f.castMethod.value == Some(Binary) && newParams.None? then NoRewrite
    else Rewrite
  }
}
