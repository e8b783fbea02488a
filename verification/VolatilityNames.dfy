/** What the lists of function names decide about a default, whatever stands around the call (`volatility.py`). */
module VolatilityNames {
  import opened Options
  import opened Text
  import opened Volatility
  import opened VolatilityMeaning

  /** `sub` is the expression or some part of it, at any depth. */
  ghost predicate Reaches(e: Expr, sub: Expr) {
    sub == e || exists i :: 0 <= i < |Parts(e)| && Reaches(Parts(e)[i], sub)
  }

  /** The last part of the name is on the list. */
  predicate ListedIn(name: seq<string>, names: set<string>) {
    name != [] && name[|name| - 1] in names
  }

  lemma PartIsReached(e: Expr, i: nat)
    requires i < |Parts(e)|
    ensures Reaches(e, Parts(e)[i])
  {
    var part := Parts(e)[i];
    assert Reaches(part, part);
  }

  /** Every operand of every construct is reached, but for the literal under a cast. */
  lemma OperandsAreReached(e: Expr, operand: Expr)
    requires match e
             case FuncCall(_, args) => operand in args
             case BoolExpr(args) => operand in args
             case CoalesceExpr(args) => operand in args
             case MinMaxExpr(args) => operand in args
             case RowExpr(args) => operand in args
             case ArrayExpr(args) => operand in args
             case Items(items) => operand in items
             case Operator(_, left, right) => operand == left || operand == right
             case CaseExpr(arg, defresult, whens) => operand == arg || operand == defresult || operand in whens
             case CaseWhen(cond, result) => operand == cond || operand == result
             case NullTest(arg) => operand == arg
             case TypeCast(arg) => operand == arg && !arg.Literal?
             case _ => false
    ensures Reaches(e, operand)
  {
    hide Reaches;
    assert operand in Parts(e);
    var i :| 0 <= i < |Parts(e)| && Parts(e)[i] == operand;
    PartIsReached(e, i);
  }

  lemma {:induction false} ReachedLeaf(t: Tables, e: Expr, sub: Expr)
    requires Reaches(e, sub)
    ensures HasLeaf(t, e, OwnLeaf(t, sub))
    decreases e
  {
    hide OwnLeaf;
    if sub != e {
      var i :| 0 <= i < |Parts(e)| && Reaches(Parts(e)[i], sub);
      PartsAreSmaller(e, i);
      ReachedLeaf(t, Parts(e)[i], sub);
    }
  }

  lemma {:induction false} LeafIsReached(t: Tables, e: Expr, leaf: Leaf) returns (sub: Expr)
    requires HasLeaf(t, e, leaf)
    ensures Reaches(e, sub) && OwnLeaf(t, sub) == leaf
    decreases e
  {
    hide OwnLeaf;
    sub := e;
    if leaf != OwnLeaf(t, e) {
      var i :| 0 <= i < |Parts(e)| && HasLeaf(t, Parts(e)[i], leaf);
      PartsAreSmaller(e, i);
      sub := LeafIsReached(t, Parts(e)[i], leaf);
    }
  }

  /** The answer is at least as bad as the own value of anything reached. */
  lemma AtLeast(t: Tables, e: Expr, m: map<string, Volatility>, sub: Expr)
    requires Reaches(e, sub)
    ensures Rank(LeafValue(OwnLeaf(t, sub), m)) <= Rank(Eval(t, e, m))
  {
    ReachedLeaf(t, e, sub);
    LeafBelow(t, e, m, OwnLeaf(t, sub));
  }

  /** The answer is the own value of something reached. */
  lemma Deciding(t: Tables, e: Expr, m: map<string, Volatility>) returns (sub: Expr)
    ensures Reaches(e, sub) && LeafValue(OwnLeaf(t, sub), m) == Eval(t, e, m)
  {
    var leaf := DecidingLeaf(t, e, m);
    sub := LeafIsReached(t, e, leaf);
  }

  // ---- What the lists decide ----

  /** One call on the volatile list makes the whole default VOLATILE, whatever the mapping says. */
  lemma VolatileCallDecides(t: Tables, e: Expr, m: map<string, Volatility>, name: seq<string>, args: seq<Expr>)
    requires Reaches(e, FuncCall(name, args)) && ListedIn(name, t.volatile)
    ensures Eval(t, e, m) == Volatile
  {
    AtLeast(t, e, m, FuncCall(name, args));
    hide Eval, Reaches;
  }

  /** An unlisted call is as bad as the mapping says of its whole name, and UNKNOWN when it says nothing. */
  lemma UnlistedCallIsLookedUp(t: Tables, e: Expr, m: map<string, Volatility>, name: seq<string>, args: seq<Expr>)
    requires Reaches(e, FuncCall(name, args))
    requires !ListedIn(name, t.volatile) && !ListedIn(name, t.stable) && !ListedIn(name, t.immutable)
    ensures if name != [] && Join(name) in m then Rank(m[Join(name)]) <= Rank(Eval(t, e, m))
            else Eval(t, e, m) in {Unknown, Volatile}
  {
    AtLeast(t, e, m, FuncCall(name, args));
    hide Eval, Reaches, Join;
  }

  /** So is anything that is not recognised, and any operator that is not a listed single symbol. */
  lemma UnrecognisedIsUnknown(t: Tables, e: Expr, m: map<string, Volatility>, sub: Expr)
    requires Reaches(e, sub)
    requires match sub
             case Unrecognised => true
             case Operator(symbol, _, _) => |symbol| != 1 || symbol[0] !in t.operators
             case _ => false
    ensures Eval(t, e, m) in {Unknown, Volatile}
  {
    AtLeast(t, e, m, sub);
    hide Eval, Reaches;
  }

  /** Nothing here needs a live answer: a listed call that is not volatile, a known operator, or a known construct. */
  predicate IsSettled(t: Tables, sub: Expr) {
    match sub
    case FuncCall(name, _) =>
      !ListedIn(name, t.volatile) && (ListedIn(name, t.stable) || ListedIn(name, t.immutable))
    case Operator(symbol, _, _) => |symbol| == 1 && symbol[0] in t.operators
    case Unrecognised => false
    case _ => true
  }

  predicate IsStable(t: Tables, sub: Expr) {
    match sub
    case FuncCall(name, _) => ListedIn(name, t.stable)
    case SqlValueFunction => true
    case _ => false
  }

  /** Literals and what only groups others. */
  predicate IsConstant(sub: Expr) {
    match sub
    case Absent | Literal | CaseWhen(_, _) | Items(_) => true
    case TypeCast(arg) => arg.Literal?
    case _ => false
  }

  lemma SettledValue(t: Tables, sub: Expr, m: map<string, Volatility>)
    requires IsSettled(t, sub)
    ensures LeafValue(OwnLeaf(t, sub), m) ==
            if IsStable(t, sub) then Stable else if IsConstant(sub) then Constant else Immutable
  {}

  /**
   When everything reached is settled, the answer is STABLE exactly when a call on the stable list or an SQL value
   function is reached, CONSTANT exactly when there are only literals, and IMMUTABLE otherwise, for every mapping.
   */
  lemma SettledAnswer(t: Tables, e: Expr, m: map<string, Volatility>)
    requires forall sub | Reaches(e, sub) :: IsSettled(t, sub)
    ensures Eval(t, e, m) ==
            if exists sub :: Reaches(e, sub) && IsStable(t, sub) then Stable
            else if forall sub | Reaches(e, sub) :: IsConstant(sub) then Constant
            else Immutable
  {
    var deciding := Deciding(t, e, m);
    SettledValue(t, deciding, m);
    hide Eval, Reaches, IsSettled, IsStable, IsConstant, OwnLeaf, LeafValue;
    forall sub | Reaches(e, sub)
      ensures Rank(if IsStable(t, sub) then Stable else if IsConstant(sub) then Constant else Immutable)
              <= Rank(Eval(t, e, m))
    {
      SettledValue(t, sub, m);
      AtLeast(t, e, m, sub);
    }
  }

  predicate IsUnlisted(t: Tables, name: seq<string>) {
    !ListedIn(name, t.volatile) && !ListedIn(name, t.stable) && !ListedIn(name, t.immutable)
  }

  /** What the mapping says of a whole dotted name. */
  function MappedTo(name: seq<string>, m: map<string, Volatility>): Option<Volatility> {
    if name != [] && Join(name) in m then Some(m[Join(name)]) else None
  }

  /** A call that is on the volatile list, or unlisted and volatile by the mapping. */
  predicate IsVolatile(t: Tables, m: map<string, Volatility>, sub: Expr) {
    match sub
    case FuncCall(name, _) => ListedIn(name, t.volatile) || (IsUnlisted(t, name) && MappedTo(name, m) == Some(Volatile))
    case _ => false
  }

  /** Nothing is known of it: an unlisted call without a mapping, an operator off the list, or an odd construct. */
  predicate IsOpen(t: Tables, m: map<string, Volatility>, sub: Expr) {
    match sub
    case FuncCall(name, _) =>
      IsUnlisted(t, name) && (MappedTo(name, m).None? || MappedTo(name, m) == Some(Unknown))
    case Operator(symbol, _, _) => |symbol| != 1 || symbol[0] !in t.operators
    case Unrecognised => true
    case _ => false
  }

  lemma OwnIff(t: Tables, m: map<string, Volatility>, sub: Expr)
    ensures LeafValue(OwnLeaf(t, sub), m) == Volatile <==> IsVolatile(t, m, sub)
    ensures LeafValue(OwnLeaf(t, sub), m) == Unknown <==> IsOpen(t, m, sub)
  {
    hide Join;
  }

  /** VOLATILE iff something reached is volatile; UNKNOWN iff nothing is and something reached is open. */
  lemma WorstAnswersIff(t: Tables, e: Expr, m: map<string, Volatility>)
    ensures Eval(t, e, m) == Volatile <==> exists sub :: Reaches(e, sub) && IsVolatile(t, m, sub)
    ensures Eval(t, e, m) == Unknown <==>
            && (forall sub | Reaches(e, sub) :: !IsVolatile(t, m, sub))
            && exists sub :: Reaches(e, sub) && IsOpen(t, m, sub)
  {
    var deciding := Deciding(t, e, m);
    OwnIff(t, m, deciding);
    hide Eval, Reaches, IsVolatile, IsOpen, OwnLeaf, LeafValue;
    forall sub | Reaches(e, sub)
      ensures IsVolatile(t, m, sub) ==> Eval(t, e, m) == Volatile
      ensures IsOpen(t, m, sub) ==> Eval(t, e, m) in {Unknown, Volatile}
    {
      OwnIff(t, m, sub);
      AtLeast(t, e, m, sub);
    }
  }

  // ---- Names and live facts ----

  /** The key of a call is its name with dots between the parts. */
  lemma {:induction false} KeyIsDottedName(parts: seq<string>)
    requires parts != [] && forall part <- parts :: '.' !in part
    ensures Split('.', Join(parts)) == parts
  {
    var first := parts[0];
    if |parts| == 1 {
      SplitNone('.', first);
    } else {
      KeyIsDottedName(parts[1..]);
      SplitFirst('.', first, Join(parts[1..]));
    }
  }

  /** `pg_proc.provolatile` decides a function, and any other letter leaves it open. */
  lemma ProvolatileDecides(name: string, letter: char)
    ensures Decided(FunctionFact(name, Some('i'))) == Some(Immutable)
    ensures Decided(FunctionFact(name, Some('s'))) == Some(Stable)
    ensures Decided(FunctionFact(name, Some('v'))) == Some(Volatile)
    ensures letter !in {'i', 's', 'v'} ==> Decided(FunctionFact(name, Some(letter))) == None
    ensures Decided(FunctionFact(name, None)) == None
  {}
}
