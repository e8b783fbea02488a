/** The values the typmod rules are about, and the coercion each typmod applies. */
module TypeValues {
  import opened Options
  import opened TypeChange

  function Pow10(n: nat): (r: nat)
    ensures r >= 1
  {
    if n == 0 then 1 else 10 * Pow10(n - 1)
  }

  function Abs(x: int): nat {
    if x < 0 then -x else x
  }

  /** Nearest multiple count, halves away from zero. */
  function RoundDiv(x: int, d: nat): int
    requires d > 0
  {
    if x >= 0 then (x + d / 2) / d else -((-x + d / 2) / d)
  }

  /** Microseconds in one unit of a time precision; a precision over six counts as six. */
  function Unit(precision: nat): (r: nat)
    ensures r > 0
  {
    if precision < 6 then [1_000_000, 100_000, 10_000, 1_000, 100, 10][precision] else 1
  }

  datatype Value =
    | Null
    | Characters(chars: string)
    | BitString(bits: seq<bool>)
    | Decimal(unscaled: int, scale: nat)
    | NotANumber
    | Infinite(negative: bool)
    | Micros(us: int)
    | MicrosAtZone(us: int, zone: int)
    | Other(id: int)

  const MICROS_PER_DAY := 86_400_000_000

  /** A column of this type and typmod can hold `v`. */
  predicate Storable(name: TypeName, typmod: Option<Params>, v: Value) {
    v.Null? ||
    match name
    case Varchar => v.Characters? && (typmod.Some? ==> |v.chars| <= typmod.value[0])
    case Varbit => v.BitString? && (typmod.Some? ==> |v.bits| <= typmod.value[0])
    case Numeric =>
      if typmod.None? then v.Decimal? || v.NotANumber? || v.Infinite?
      else v.NotANumber? ||
           (v.Decimal? && v.scale == ScaleOf(typmod.value) && Abs(v.unscaled) < Pow10(typmod.value[0]))
    case Timestamp | Timestamptz => v.Micros? && v.us % UnitOf(typmod) == 0
    case Time => v.Micros? && 0 <= v.us <= MICROS_PER_DAY && v.us % UnitOf(typmod) == 0
    case Timetz => v.MicrosAtZone? && 0 <= v.us <= MICROS_PER_DAY && v.us % UnitOf(typmod) == 0
    case Named(_) => true
  }

  function UnitOf(typmod: Option<Params>): (r: nat)
    ensures r > 0
  {
    if typmod.None? then 1 else Unit(typmod.value[0])
  }

  function RoundMicros(us: int, p: Params): int {
    RoundDiv(us, Unit(p[0])) * Unit(p[0])
  }

  function Rescale(unscaled: int, from: nat, to: nat): int {
    if to >= from then unscaled * Pow10(to - from) else RoundDiv(unscaled, Pow10(from - to))
  }

  type OtherCoercion = (Params, Value) -> Option<Value>

  /** What the length or precision coercion makes of a value; None is an error that aborts the statement. */
  function Coerce(name: TypeName, other: OtherCoercion, p: Params, v: Value): Option<Value> {
    if v.Null? then Some(v)
    else
      match name
      case Varchar =>
        if !v.Characters? then None
        else if |v.chars| <= p[0] then Some(v)
        else if forall c <- v.chars[p[0]..] :: c == ' ' then Some(Characters(v.chars[..p[0]]))
        else None
      case Varbit => if v.BitString? && |v.bits| <= p[0] then Some(v) else None
      case Numeric =>
        if v.NotANumber? then Some(v)
        else if v.Decimal? then
          var r := Rescale(v.unscaled, v.scale, ScaleOf(p));
          if Abs(r) < Pow10(p[0]) then Some(Decimal(r, ScaleOf(p))) else None
        else None
      case Timestamp | Timestamptz | Time => if v.Micros? then Some(Micros(RoundMicros(v.us, p))) else None
      case Timetz => if v.MicrosAtZone? then Some(MicrosAtZone(RoundMicros(v.us, p), v.zone)) else None
      case Named(_) => other(p, v)
  }

  function CoerceTo(name: TypeName, other: OtherCoercion, typmod: Option<Params>, v: Value): Option<Value> {
    if typmod.None? then Some(v) else Coerce(name, other, typmod.value, v)
  }

  predicate IsTime(name: TypeName) {
    name.Timestamp? || name.Timestamptz? || name.Time? || name.Timetz?
  }

  /** The server never reports a time precision above six. */
  predicate PrecisionOk(name: TypeName, typmod: Option<Params>) {
    IsTime(name) && typmod.Some? ==> typmod.value[0] <= 6
  }

  /** Every value the old typmod allows is left exactly as it is by the new one. */
  ghost predicate CoercionIsIdentity(name: TypeName, other: OtherCoercion, cur: Option<Params>, next: Option<Params>) {
    forall v :: Storable(name, cur, v) ==> CoerceTo(name, other, next, v) == Some(v)
  }

  /** Every value the old typmod allows is a value of the new one. */
  ghost predicate Contained(name: TypeName, cur: Option<Params>, next: Option<Params>) {
    forall v :: Storable(name, cur, v) ==> Storable(name, next, v)
  }

  // ---- Arithmetic ----

  lemma {:induction false} Pow10Monotone(a: nat, b: nat)
    requires a <= b
    ensures Pow10(a) <= Pow10(b)
    ensures a < b ==> Pow10(a) < Pow10(b)
    decreases b
  {
    if a < b {
      Pow10Monotone(a, b - 1);
    }
  }

  lemma RoundDivMultiple(x: int, d: nat)
    requires d > 0
    ensures x % d == 0 <==> RoundDiv(x, d) * d == x
  {
    if x % d == 0 {
      var k := x / d;
      assert x == k * d;
      if x >= 0 {
        DivByUnit(k, d / 2, d);
      } else {
        assert -x == (-k) * d by { assert (-k) * d == -(k * d); }
        DivByUnit(-k, d / 2, d);
      }
    } else if RoundDiv(x, d) * d == x {
      ModOfMultiple(RoundDiv(x, d), d);
    }
  }

  lemma DivByUnit(k: int, r: nat, d: nat)
    requires 0 <= r < d
    ensures (k * d + r) / d == k
  {
    var q, m := (k * d + r) / d, (k * d + r) % d;
    assert q * d + m == k * d + r;
    assert (q - k) * d == r - m && (k - q) * d == m - r;
    if q > k {
      AtLeastOnce(q - k, d);
    } else if q < k {
      AtLeastOnce(k - q, d);
    }
  }

  lemma AtLeastOnce(k: nat, d: nat)
    requires k >= 1
    ensures k * d >= d
  {}

  lemma ModOfMultiple(k: int, d: nat)
    requires d > 0
    ensures (k * d) % d == 0
  {
    DivByUnit(k, 0, d);
  }

  lemma UnitDivides(us: int, a: nat, b: nat)
    requires a <= b && us % Unit(a) == 0
    ensures us % Unit(b) == 0
  {
    assert Unit(a) % Unit(b) == 0;
    MultipleOfMultiple(us, Unit(a), Unit(b));
  }

  lemma MultipleOfMultiple(x: int, a: nat, b: nat)
    requires a > 0 && b > 0 && x % a == 0 && a % b == 0
    ensures x % b == 0
  {
    var k, m := x / a, a / b;
    assert x == k * a && a == m * b;
    assert k * (m * b) == (k * m) * b;
    ModOfMultiple(k * m, b);
  }

  lemma SumOfMultiples(x: int, y: int, d: nat)
    requires d > 0 && x % d == 0 && y % d == 0
    ensures (x + y) % d == 0
  {
    var j, k := x / d, y / d;
    assert x == j * d && y == k * d;
    assert j * d + k * d == (j + k) * d;
    ModOfMultiple(j + k, d);
  }

  /** One coarse-grained value tells a coarser unit from a finer one. */
  lemma UnitSeparates(a: nat, b: nat)
    requires b < a <= 6
    ensures Unit(a) % Unit(a) == 0 && Unit(a) % Unit(b) != 0 && Unit(a) <= 1_000_000
  {}

  // ---- The rule is exact ----

  /**
   For every family, the growth rule answers yes exactly when the coercion leaves every storable value alone,
   which is exactly when the new typmod stores everything the old one did.
   */
  lemma GrowthExact(name: TypeName, other: OtherCoercion, cur: Option<Params>, next: Option<Params>)
    requires !name.Named? && PrecisionOk(name, cur)
    ensures GrowthAllows(RuleFor(name).value, cur, next) <==> CoercionIsIdentity(name, other, cur, next)
    ensures GrowthAllows(RuleFor(name).value, cur, next) <==> Contained(name, cur, next)
  {
    if next.Some? {
      if GrowthAllows(RuleFor(name).value, cur, next) {
        forall v | Storable(name, cur, v)
          ensures Coerce(name, other, next.value, v) == Some(v) && Storable(name, next, v)
        {
          AllowedIsIdentity(name, other, cur, next.value, v);
        }
      } else {
        var v := LostValue(name, other, cur, next.value);
        assert Storable(name, cur, v) && CoerceTo(name, other, next, v) != Some(v) && !Storable(name, next, v);
      }
    }
  }

  lemma AllowedIsIdentity(name: TypeName, other: OtherCoercion, cur: Option<Params>, p: Params, v: Value)
    requires !name.Named? && PrecisionOk(name, cur)
    requires GrowthAllows(RuleFor(name).value, cur, Some(p)) && Storable(name, cur, v)
    ensures Coerce(name, other, p, v) == Some(v) && Storable(name, Some(p), v)
  {
    if IsTime(name) && !v.Null? {
      var precision := if cur.None? then 6 else cur.value[0];
      assert v.us % Unit(precision) == 0;
      UnitDivides(v.us, precision, p[0]);
      RoundDivMultiple(v.us, Unit(p[0]));
    } else if name.Numeric? && v.Decimal? {
      Pow10Monotone(cur.value[0], p[0]);
    }
  }

  /** When the rule says no, this value of the old type is changed or refused, and small. */
  lemma LostValue(name: TypeName, other: OtherCoercion, cur: Option<Params>, p: Params) returns (v: Value)
    requires !name.Named? && PrecisionOk(name, cur)
    requires !GrowthAllows(RuleFor(name).value, cur, Some(p))
    ensures Storable(name, cur, v) && Coerce(name, other, p, v) != Some(v) && !Storable(name, Some(p), v)
  {
    match name
    case Varchar =>
      v := Characters(seq(p[0] + 1, _ => 'x'));
      assert v.chars[p[0]..][0] == 'x';
    case Varbit =>
      v := BitString(seq(p[0] + 1, _ => true));
    case Numeric =>
      if cur.Some? && ScaleOf(cur.value) != ScaleOf(p) {
        v := Decimal(0, ScaleOf(cur.value));
        assert Rescale(0, v.scale, ScaleOf(p)) == 0 || ScaleOf(p) < v.scale;
      } else {
        v := Decimal(Pow10(p[0]), ScaleOf(p));
        if cur.Some? {
          Pow10Monotone(p[0], cur.value[0]);
        }
      }
    case Timestamp | Timestamptz | Time | Timetz =>
      var precision := if cur.None? then 6 else cur.value[0];
      var us := Unit(precision);
      UnitSeparates(precision, p[0]);
      RoundDivMultiple(us, Unit(p[0]));
      v := if name.Timetz? then MicrosAtZone(us, 0) else Micros(us);
  }

  /** Growing twice is growing, and changing nothing is growing. */
  lemma GrowthIsAPreorder(name: TypeName, a: Option<Params>, b: Option<Params>, c: Option<Params>)
    requires !name.Named? && PrecisionOk(name, a) && PrecisionOk(name, b)
    ensures GrowthAllows(RuleFor(name).value, a, a)
    ensures GrowthAllows(RuleFor(name).value, a, b) && GrowthAllows(RuleFor(name).value, b, c) ==>
              GrowthAllows(RuleFor(name).value, a, c)
  {}
}
