/** Batched backfills recognised by a two-sided bound on one column (`classify.py`). */
module KeyWindow {
  import opened Options

  /** An operand: a column by its last name, or anything else, with the columns it mentions. */
  datatype Term = Column(name: string) | Expression(id: nat, mentions: set<string>) {
    function Mentions(): set<string> {
      if Column? then {name} else mentions
    }
  }

  /** A WHERE tree; `operator` is the dotted spelling, of one part when unqualified. */
  datatype Where =
    | And(args: seq<Where>)
    | Compare(operator: seq<string>, left: Term, right: Term)
    | Between(subject: Term, low: Term, high: Term)
    | OtherTerm(id: nat)

  // ---- What a row makes of it ----

  /** The column values of one row; None is NULL. */
  type Columns = string -> Option<int>

  /** One row; `other` decides the terms that are not modelled. */
  datatype Row = Row(columns: Columns, other: Where -> bool)

  /** What an expression computes from a row's columns. */
  type Meaning = (Term, Columns) -> Option<int>

  function Value(t: Term, columns: Columns, m: Meaning): Option<int> {
    if t.Column? then columns(t.name) else m(t, columns)
  }

  /** Neither side is NULL and `a <= b`. */
  predicate AtMost(a: Term, b: Term, row: Row, m: Meaning) {
    var x, y := Value(a, row.columns, m), Value(b, row.columns, m);
    x.Some? && y.Some? && x.value <= y.value
  }

  predicate Below(a: Term, b: Term, row: Row, m: Meaning) {
    AtMost(a, b, row, m) && Value(a, row.columns, m) != Value(b, row.columns, m)
  }

  /** The row satisfies the condition: it is true, not false or NULL. */
  predicate Satisfies(w: Where, row: Row, m: Meaning) {
    match w
    case And(args) => forall arg <- args :: Satisfies(arg, row, m)
    case Compare(operator, left, right) =>
      if operator == ["<"] then Below(left, right, row, m)
      else if operator == ["<="] then AtMost(left, right, row, m)
      else if operator == [">"] then Below(right, left, row, m)
      else if operator == [">="] then AtMost(right, left, row, m)
      else row.other(w)
    case Between(subject, low, high) => AtMost(low, subject, row, m) && AtMost(subject, high, row, m)
    case OtherTerm(_) => row.other(w)
  }

  // ---- What the scan collects ----

  predicate IsBoundOperator(operator: seq<string>) {
    operator == ["<"] || operator == ["<="] || operator == [">"] || operator == [">="]
  }

  /** The column a comparison bounds, and whether it bounds it from below. */
  function BoundOf(w: Where): Option<(string, bool)> {
    if !w.Compare? || !IsBoundOperator(w.operator) then None
    else
      var isLower := w.operator == [">"] || w.operator == [">="];
      if w.left.Column? then Some((w.left.name, isLower))
      else if w.right.Column? then Some((w.right.name, !isLower))
      else None
  }

  /** `part` is a conjunct of `w`. */
  ghost predicate Conjunct(w: Where, part: Where) {
    if w.And? then exists i :: 0 <= i < |w.args| && Conjunct(w.args[i], part) else w == part
  }

  ghost predicate Bounded(w: Where, column: string, isLower: bool) {
    exists part :: Conjunct(w, part) && BoundOf(part) == Some((column, isLower))
  }

  ghost predicate HasBetween(w: Where) {
    exists part :: Conjunct(w, part) && part.Between? && part.subject.Column?
  }

  /** The scan's variables, shared by its recursive closure. */
  class Bounds {
    var lower: set<string>
    var upper: set<string>
    var between: bool

    constructor ()
      ensures lower == {} && upper == {} && !between
    {
      lower, upper, between := {}, {}, false;
    }

    method Collect(w: Where)
      modifies this
      ensures forall c :: c in lower <==> c in old(lower) || Bounded(w, c, true)
      ensures forall c :: c in upper <==> c in old(upper) || Bounded(w, c, false)
      ensures between <==> old(between) || HasBetween(w)
      decreases w
    {
      match w {
        case And(args) =>
          for i := 0 to |args|
            invariant forall c ::
                        c in lower <==> c in old(lower) || exists j :: 0 <= j < i && Bounded(args[j], c, true)
            invariant forall c ::
                        c in upper <==> c in old(upper) || exists j :: 0 <= j < i && Bounded(args[j], c, false)
            invariant between <==> old(between) || exists j :: 0 <= j < i && HasBetween(args[j])
          {
            hide Bounded, HasBetween;
            Collect(args[i]);
          }
        case Between(subject, _, _) =>
          LeafBounds(w);
          if subject.Column? {
            between := true;
          }
        case Compare(operator, left, right) =>
          LeafBounds(w);
          if IsBoundOperator(operator) {
            var isLower := operator == [">"] || operator == [">="];
            if left.Column? {
              Add(left.name, isLower);
            } else if right.Column? {
              Add(right.name, !isLower);
            }
          }
        case OtherTerm(_) =>
          LeafBounds(w);
      }
    }

    method Add(column: string, isLower: bool)
      modifies this
      ensures lower == old(lower) + (if isLower then {column} else {})
      ensures upper == old(upper) + (if isLower then {} else {column})
      ensures between == old(between)
    {
      if isLower {
        lower := lower + {column};
      } else {
        upper := upper + {column};
      }
    }
  }

  lemma LeafBounds(w: Where)
    requires !w.And?
    ensures forall c, isLower :: Bounded(w, c, isLower) <==> BoundOf(w) == Some((c, isLower))
    ensures HasBetween(w) <==> w.Between? && w.subject.Column?
  {
    assert Conjunct(w, w);
  }

  /** True exactly when two conjuncts bound one column from both sides, or a column is BETWEEN. */
  ghost predicate Windowed(w: Option<Where>) {
    w.Some? && (HasBetween(w.value) || exists c :: Bounded(w.value, c, true) && Bounded(w.value, c, false))
  }

  method HasKeyWindow(w: Option<Where>) returns (window: bool)
    ensures window <==> Windowed(w)
  {
    var bounds := new Bounds();
    if w.Some? {
      bounds.Collect(w.value);
    }
    var both := bounds.lower * bounds.upper;
    assert both != {} <==> exists c :: c in bounds.lower && c in bounds.upper by {
      if c :| c in bounds.lower && c in bounds.upper {
        assert c in both;
      }
    }
    window := bounds.between || both != {};
  }

  // ---- What it means for the rows ----

  lemma {:induction false} ConjunctHolds(w: Where, part: Where, row: Row, m: Meaning)
    requires Conjunct(w, part) && Satisfies(w, row, m)
    ensures Satisfies(part, row, m)
  {
    if w.And? {
      var i :| 0 <= i < |w.args| && Conjunct(w.args[i], part);
      ConjunctHolds(w.args[i], part, row, m);
    }
  }

  /**
   The conjunct bounds the column with `t`: the other operand of a comparison, or an end of a BETWEEN. Of two
   columns compared with each other, the left one is the bounded one.
   */
  predicate PartBounds(part: Where, column: string, t: Term, isLower: bool) {
    match part
    case Compare(operator, left, right) =>
      if operator == [">"] || operator == [">="] then
        if isLower then left == Column(column) && t == right else !left.Column? && right == Column(column) && t == left
      else if operator == ["<"] || operator == ["<="] then
        if isLower then !left.Column? && right == Column(column) && t == left else left == Column(column) && t == right
      else false
    case Between(subject, low, high) => subject == Column(column) && t == if isLower then low else high
    case _ => false
  }

  ghost predicate BoundBy(w: Where, column: string, t: Term, isLower: bool) {
    exists part :: Conjunct(w, part) && PartBounds(part, column, t, isLower)
  }

  /** Conjuncts bound the column from below with `low` and from above with `high`. */
  ghost predicate Window(w: Where, column: string, low: Term, high: Term) {
    BoundBy(w, column, low, true) && BoundBy(w, column, high, false)
  }

  lemma OperandOfBound(w: Where, column: string, isLower: bool) returns (t: Term)
    requires Bounded(w, column, isLower)
    ensures BoundBy(w, column, t, isLower)
  {
    var part :| Conjunct(w, part) && BoundOf(part) == Some((column, isLower));
    t := if part.left.Column? then part.right else part.left;
    assert PartBounds(part, column, t, isLower);
  }

  /** A comparison registers what it bounds; a BETWEEN is a window of its own. */
  lemma BoundIsRegistered(w: Where, column: string, t: Term, isLower: bool)
    requires BoundBy(w, column, t, isLower)
    ensures Bounded(w, column, isLower) || HasBetween(w)
  {
    var part :| Conjunct(w, part) && PartBounds(part, column, t, isLower);
    if part.Compare? {
      assert BoundOf(part) == Some((column, isLower));
    }
  }

  /** What is reported is exactly a column with a lower and an upper bounding operand. */
  lemma ReportedIffWindow(w: Where)
    ensures Windowed(Some(w)) <==> exists column, low, high :: Window(w, column, low, high)
  {
    if HasBetween(w) {
      var part :| Conjunct(w, part) && part.Between? && part.subject.Column?;
      var c := part.subject.name;
      assert PartBounds(part, c, part.low, true) && PartBounds(part, c, part.high, false);
      assert Window(w, c, part.low, part.high);
    } else if c :| Bounded(w, c, true) && Bounded(w, c, false) {
      var low := OperandOfBound(w, c, true);
      var high := OperandOfBound(w, c, false);
      assert Window(w, c, low, high);
    }
    if column, low, high :| Window(w, column, low, high) {
      BoundIsRegistered(w, column, low, true);
      BoundIsRegistered(w, column, high, false);
    }
  }

  /** The bound holds in the row: neither side is NULL, and the column is on the right side of `t`. */
  predicate Holds(column: string, t: Term, isLower: bool, row: Row, m: Meaning) {
    if isLower then AtMost(t, Column(column), row, m) else AtMost(Column(column), t, row, m)
  }

  lemma BoundHolds(w: Where, column: string, t: Term, isLower: bool, row: Row, m: Meaning)
    requires BoundBy(w, column, t, isLower) && Satisfies(w, row, m)
    ensures Holds(column, t, isLower, row, m)
  {
    var part :| Conjunct(w, part) && PartBounds(part, column, t, isLower);
    ConjunctHolds(w, part, row, m);
  }

  /** Whatever the expressions mean, every satisfying row has the column between the two operands' values. */
  ghost predicate Confines(w: Where, column: string, low: Term, high: Term) {
    forall row, m :: Satisfies(w, row, m) ==> Holds(column, low, true, row, m) && Holds(column, high, false, row, m)
  }

  /** In every row the statement touches, some column lies between the operands that bound it. */
  lemma WindowConfinesRows(w: Where)
    requires Windowed(Some(w))
    ensures exists column, low, high :: Window(w, column, low, high) && Confines(w, column, low, high)
  {
    ReportedIffWindow(w);
    var column, low, high :| Window(w, column, low, high);
    forall row, m | Satisfies(w, row, m)
      ensures Holds(column, low, true, row, m) && Holds(column, high, false, row, m)
    {
      BoundHolds(w, column, low, true, row, m);
      BoundHolds(w, column, high, false, row, m);
    }
    assert Confines(w, column, low, high);
  }

  // ---- Bounds that bound nothing ----

  ghost predicate Agree(a: Columns, b: Columns, names: set<string>) {
    forall name <- names :: a(name) == b(name)
  }

  /** An expression reads only the columns it mentions, and is not NULL in every row. */
  ghost predicate SensibleFor(m: Meaning, t: Term) {
    && (forall a, b :: Agree(a, b, t.Mentions()) ==> m(t, a) == m(t, b))
    && exists columns: Columns :: m(t, columns).Some?
  }

  ghost predicate Sensible(m: Meaning) {
    forall t: Term :: t.Expression? ==> SensibleFor(m, t)
  }

  /** In some row both sides have a value, and the column is strictly outside the bound. */
  ghost predicate Excludes(m: Meaning, column: string, t: Term, isLower: bool) {
    exists columns: Columns :: Outside(m, columns, column, t, isLower)
  }

  predicate Outside(m: Meaning, columns: Columns, column: string, t: Term, isLower: bool) {
    var x, bound := columns(column), Value(t, columns, m);
    x.Some? && bound.Some? && if isLower then x.value < bound.value else x.value > bound.value
  }

  /** An operand that does not depend on the column excludes some of its values. */
  lemma UnmentionedExcludes(m: Meaning, column: string, t: Term, isLower: bool)
    requires Sensible(m) && column !in t.Mentions()
    ensures Excludes(m, column, t, isLower)
  {
    var columns: Columns;
    if t.Column? {
      columns := name => Some(0);
    } else {
      columns :| m(t, columns).Some?;
    }
    var bound := Value(t, columns, m).value;
    var beyond := if isLower then bound - 1 else bound + 1;
    var moved: Columns := name => if name == column then Some(beyond) else columns(name);
    assert t.Expression? ==> Agree(columns, moved, t.mentions);
    assert Outside(m, moved, column, t, isLower);
  }

  /** NULL, or the one value that all mentioned columns have. */
  ghost function Common(t: Term, columns: Columns): Option<int> {
    if t.Mentions() == {} then Some(0)
    else if exists x :: forall name <- t.Mentions() :: columns(name) == Some(x) then
      var x :| forall name <- t.Mentions() :: columns(name) == Some(x);
      Some(x)
    else None
  }

  lemma CommonIsSensible(m: Meaning)
    requires forall t, columns :: m(t, columns) == Common(t, columns)
    ensures Sensible(m)
  {
    forall t: Term | t.Expression? ensures SensibleFor(m, t) {
      forall a, b | Agree(a, b, t.mentions) ensures m(t, a) == m(t, b) {
        CommonOfAgreeing(t, a, b);
      }
      var zero: Columns := name => Some(0);
      assert forall name <- t.mentions :: zero(name) == Some(0);
      assert m(t, zero).Some?;
    }
  }

  lemma CommonOfAgreeing(t: Term, a: Columns, b: Columns)
    requires t.Expression? && Agree(a, b, t.mentions)
    ensures Common(t, a) == Common(t, b)
  {
    if t.mentions != {} {
      var name :| name in t.mentions;
      assert forall x :: (forall other <- t.mentions :: a(other) == Some(x)) <==>
                         (forall other <- t.mentions :: b(other) == Some(x));
    }
  }

  /** Under that meaning a bound excludes nothing by a column it mentions. */
  lemma CommonExcludesNothing(m: Meaning, column: string, t: Term, isLower: bool)
    requires forall t, columns :: m(t, columns) == Common(t, columns)
    requires column in t.Mentions()
    ensures !Excludes(m, column, t, isLower)
  {
    forall columns: Columns ensures !Outside(m, columns, column, t, isLower) {
      assert Value(t, columns, m).Some? ==> columns(column) == Value(t, columns, m);
    }
  }

  /**
   The source never looks at the other operand. The bound excludes something whatever the expression means exactly
   when the operand does not mention the column.
   */
  lemma ExcludesIff(column: string, t: Term, isLower: bool)
    ensures (forall m | Sensible(m) :: Excludes(m, column, t, isLower)) <==> column !in t.Mentions()
  {
    if column in t.Mentions() {
      var m: Meaning := (t: Term, columns: Columns) => Common(t, columns);
      CommonIsSensible(m);
      CommonExcludesNothing(m, column, t, isLower);
    }
    forall m | Sensible(m) && column !in t.Mentions() ensures Excludes(m, column, t, isLower) {
      UnmentionedExcludes(m, column, t, isLower);
    }
  }

  /** A window both of whose ends exclude something. */
  ghost predicate ExcludingWindow(m: Meaning, w: Where, column: string, low: Term, high: Term) {
    Window(w, column, low, high) && Excludes(m, column, low, true) && Excludes(m, column, high, false)
  }

  /** A window whose operands do not mention its column. */
  ghost predicate FreeWindow(w: Where, column: string, low: Term, high: Term) {
    Window(w, column, low, high) && column !in low.Mentions() && column !in high.Mentions()
  }

  /**
   Whatever the expressions mean, a reported condition excludes values of some column on both sides, exactly when it
   has a window whose operands do not mention their column.
   */
  lemma WindowExcludesIff(w: Where)
    ensures (forall m | Sensible(m) :: exists column, low, high :: ExcludingWindow(m, w, column, low, high)) <==>
            exists column, low, high :: FreeWindow(w, column, low, high)
  {
    hide Window, Excludes, Sensible;
    if column, low, high :| FreeWindow(w, column, low, high) {
      forall m | Sensible(m) ensures ExcludingWindow(m, w, column, low, high) {
        UnmentionedExcludes(m, column, low, true);
        UnmentionedExcludes(m, column, high, false);
      }
    }
    var m: Meaning := (t: Term, columns: Columns) => Common(t, columns);
    CommonIsSensible(m);
    if column, low, high :| ExcludingWindow(m, w, column, low, high) {
      if column in low.Mentions() {
        CommonExcludesNothing(m, column, low, true);
      }
      if column in high.Mentions() {
        CommonExcludesNothing(m, column, high, false);
      }
      assert FreeWindow(w, column, low, high);
    }
  }

  /** `id >= low AND id < x` */
  function FloorOf(low: Term): Where {
    And([Compare([">="], Column("id"), low), Compare(["<"], Column("id"), Expression(0, {}))])
  }

  const SELF_BOUND := FloorOf(Column("id"))

  /** `id >= id + 0 AND id < x`, or with a cast or a coalesce around the column. */
  const SHIFTED_BOUND := FloorOf(Expression(1, {"id"}))

  lemma FloorIsReported(low: Term)
    ensures Windowed(Some(FloorOf(low)))
  {
    var w := FloorOf(low);
    assert Conjunct(w.args[0], w.args[0]) && Conjunct(w.args[1], w.args[1]);
    assert Conjunct(w, w.args[0]) && Conjunct(w, w.args[1]);
    assert BoundOf(w.args[0]) == Some(("id", true)) && BoundOf(w.args[1]) == Some(("id", false));
    assert Bounded(w, "id", true) && Bounded(w, "id", false);
  }

  /** Some row that satisfies the condition has `id` below the value. */
  ghost predicate ReachesBelow(w: Where, m: Meaning, least: int) {
    exists row: Row :: Satisfies(w, row, m) && row.columns("id").Some? && row.columns("id").value < least
  }

  /** A lower bound computed from `id` alone may leave rows below any given value in. */
  lemma DependentFloorIsNoFloor(low: Term) returns (m: Meaning)
    requires low.Mentions() == {"id"}
    ensures Sensible(m) && forall least :: ReachesBelow(FloorOf(low), m, least)
  {
    m := (t: Term, columns: Columns) => Common(t, columns);
    CommonIsSensible(m);
    forall least ensures ReachesBelow(FloorOf(low), m, least) {
      var id := if least < 0 then least - 1 else -1;
      var row := Row(name => Some(id), other => false);
      var w := FloorOf(low);
      assert Value(low, row.columns, m) == Some(id);
      assert Value(Expression(0, {}), row.columns, m) == Some(0);
      assert Satisfies(w.args[0], row, m) && Satisfies(w.args[1], row, m);
      assert Satisfies(w, row, m);
    }
  }

  /** Both examples are reported although their lower bound may exclude nothing. */
  lemma FloorExamples()
    ensures Windowed(Some(SELF_BOUND)) && Windowed(Some(SHIFTED_BOUND))
    ensures exists m :: Sensible(m) && forall least :: ReachesBelow(SELF_BOUND, m, least)
    ensures exists m :: Sensible(m) && forall least :: ReachesBelow(SHIFTED_BOUND, m, least)
  {
    FloorIsReported(Column("id"));
    FloorIsReported(Expression(1, {"id"}));
    var m := DependentFloorIsNoFloor(Column("id"));
    var n := DependentFloorIsNoFloor(Expression(1, {"id"}));
  }

  // ---- Bounds that are not seen ----

  /** Either operand of a comparison may be the bounded column. */
  predicate PartBoundsEither(part: Where, column: string, t: Term, isLower: bool) {
    PartBounds(part, column, t, isLower)
    || (part.Compare? && IsBoundOperator(part.operator) && part.right == Column(column) && part.left == t
        && (isLower <==> part.operator == ["<"] || part.operator == ["<="]))
  }

  predicate ComparesColumns(part: Where) {
    part.Compare? && IsBoundOperator(part.operator) && part.left.Column? && part.right.Column?
  }

  /** One conjunct's bounds are all seen exactly when it does not compare two columns. */
  lemma SeesEveryBoundIff(part: Where)
    ensures (forall column, t, isLower ::
               PartBoundsEither(part, column, t, isLower) ==> PartBounds(part, column, t, isLower))
            <==> !ComparesColumns(part)
  {
    if ComparesColumns(part) {
      var isLower := part.operator == ["<"] || part.operator == ["<="];
      assert PartBoundsEither(part, part.right.name, part.left, isLower);
      assert !PartBounds(part, part.right.name, part.left, isLower);
    }
  }

  ghost predicate WindowEither(w: Where, column: string) {
    && (exists part, low :: Conjunct(w, part) && PartBoundsEither(part, column, low, true))
    && (exists part, high :: Conjunct(w, part) && PartBoundsEither(part, column, high, false))
  }

  /** Without comparisons between columns, what is reported is exactly a column bounded from both sides. */
  lemma ReportedIffBoundedEitherWay(w: Where)
    requires forall part | Conjunct(w, part) :: !ComparesColumns(part)
    ensures Windowed(Some(w)) <==> exists column :: WindowEither(w, column)
  {
    ReportedIffWindow(w);
    if column, low, high :| Window(w, column, low, high) {
      var lower :| Conjunct(w, lower) && PartBounds(lower, column, low, true);
      var upper :| Conjunct(w, upper) && PartBounds(upper, column, high, false);
      assert PartBoundsEither(lower, column, low, true) && PartBoundsEither(upper, column, high, false);
      assert WindowEither(w, column);
    }
    if column :| WindowEither(w, column) {
      var lower, low :| Conjunct(w, lower) && PartBoundsEither(lower, column, low, true);
      var upper, high :| Conjunct(w, upper) && PartBoundsEither(upper, column, high, false);
      SeesEveryBoundIff(lower);
      SeesEveryBoundIff(upper);
      assert Window(w, column, low, high);
    }
  }

  /** With this conjunct beside it, no other condition free of column comparisons loses a window. */
  ghost predicate MissesNothing(part: Where) {
    forall rest: Where | ComparesNoColumns(rest) && (exists column :: WindowEither(And([part, rest]), column)) ::
      Windowed(Some(And([part, rest])))
  }

  ghost predicate ComparesNoColumns(w: Where) {
    forall part | Conjunct(w, part) :: !ComparesColumns(part)
  }

  /**
   A conjunct keeps the report complete, whatever it is combined with, exactly when it does not compare two columns.
   */
  lemma ReportIsCompleteIff(part: Where)
    requires !part.And?
    ensures MissesNothing(part) <==> !ComparesColumns(part)
  {
    if ComparesColumns(part) {
      var rest := Compare(part.operator, part.right, Expression(0, {}));
      OneSideOnly(part, rest);
    } else {
      forall rest: Where | ComparesNoColumns(rest) && (exists column :: WindowEither(And([part, rest]), column))
        ensures Windowed(Some(And([part, rest])))
      {
        ConjunctsOfBoth(part, rest);
        ReportedIffBoundedEitherWay(And([part, rest]));
      }
    }
  }

  lemma ConjunctsOfBoth(part: Where, rest: Where)
    requires !part.And?
    ensures forall p :: Conjunct(And([part, rest]), p) <==> p == part || Conjunct(rest, p)
  {
    var w := And([part, rest]);
    forall p ensures Conjunct(w, p) <==> p == part || Conjunct(rest, p) {
      assert w.args[0] == part && w.args[1] == rest;
      if p == part || Conjunct(rest, p) {
        assert Conjunct(w.args[if p == part then 0 else 1], p);
      }
    }
  }

  /** `a < b AND b < x` bounds `b` from both sides, but both comparisons register an upper bound. */
  lemma OneSideOnly(part: Where, rest: Where)
    requires ComparesColumns(part) && rest == Compare(part.operator, part.right, Expression(0, {}))
    ensures ComparesNoColumns(rest) && !Windowed(Some(And([part, rest])))
    ensures WindowEither(And([part, rest]), part.right.name)
  {
    var w := And([part, rest]);
    ConjunctsOfBoth(part, rest);
    var b := part.right.name;
    var isLower := part.operator == ["<"] || part.operator == ["<="];
    assert Conjunct(w, part) && PartBoundsEither(part, b, part.left, isLower);
    assert Conjunct(rest, rest);
    assert Conjunct(w, rest) && PartBoundsEither(rest, b, Expression(0, {}), !isLower);
  }

  /** `a < b AND b < c` bounds `b` from both sides and is not reported. */
  const COLUMN_CHAIN := And([
    Compare(["<"], Column("a"), Column("b")),
    Compare(["<"], Column("b"), Column("c"))])

  lemma ColumnChainIsMissed()
    ensures WindowEither(COLUMN_CHAIN, "b") && !Windowed(Some(COLUMN_CHAIN))
  {
    var w := COLUMN_CHAIN;
    assert Conjunct(w.args[0], w.args[0]) && Conjunct(w.args[1], w.args[1]);
    assert Conjunct(w, w.args[0]) && Conjunct(w, w.args[1]);
    assert PartBoundsEither(w.args[0], "b", Column("a"), true) && PartBoundsEither(w.args[1], "b", Column("c"), false);
    forall part | Conjunct(w, part) ensures part == w.args[0] || part == w.args[1] {
      var i :| 0 <= i < 2 && Conjunct(w.args[i], part);
    }
  }
}
