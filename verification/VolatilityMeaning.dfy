/** The evaluator, the collector and the live re-evaluation (`live/resolve.py`) agree. */
module VolatilityMeaning {
  import opened Options
  import opened Volatility

  // ---- The answer is the worst leaf ----

  lemma CallLeaf(t: Tables, name: seq<string>, args: seq<Expr>, m: map<string, Volatility>)
    ensures CallBase(t, name, m) == LeafValue(OwnLeaf(t, FuncCall(name, args)), m)
  {}

  lemma EvalShape(t: Tables, e: Expr, m: map<string, Volatility>)
    ensures Eval(t, e, m) == Combine([LeafValue(OwnLeaf(t, e), m)] + EvalAll(t, Parts(e), m))
  {
    hide Combine, CallBase, StaticFunction, Join;
    match e
    case FuncCall(name, args) => CallLeaf(t, name, args, m);
    case Items(items) => SkipConstant(EvalAll(t, items, m));
    case BoolExpr(_) | CoalesceExpr(_) | MinMaxExpr(_) | RowExpr(_) | ArrayExpr(_) =>
    case _ => EvalShapeFixedArity(t, e, m);
  }

  lemma EvalShapeFixedArity(t: Tables, e: Expr, m: map<string, Volatility>)
    requires !e.FuncCall? && !e.Items? && !e.BoolExpr? && !e.CoalesceExpr?
    requires !e.MinMaxExpr? && !e.RowExpr? && !e.ArrayExpr?
    ensures Eval(t, e, m) == Combine([LeafValue(OwnLeaf(t, e), m)] + EvalAll(t, Parts(e), m))
  {
    hide Combine, CallBase, StaticFunction, Join;
    var own, rest := LeafValue(OwnLeaf(t, e), m), EvalAll(t, Parts(e), m);
    CombineOne(own);
    assert Parts(e) == [] ==> [own] + rest == [own];
    match e
    case TypeCast(arg) =>
      assert !arg.Literal? ==> rest == [Eval(t, arg, m)] && [own] + rest == [own, Eval(t, arg, m)];
    case Operator(_, left, right) =>
      assert EvalAll(t, [left, right], m) == [Eval(t, left, m), Eval(t, right, m)] by {
        assert [left, right][1..] == [right] && [right][1..] == [];
      }
      assert [own] + rest == [own, Eval(t, left, m), Eval(t, right, m)];
    case NullTest(arg) =>
      assert rest == [Eval(t, arg, m)] && [own] + rest == [own, Eval(t, arg, m)];
    case CaseWhen(cond, result) =>
      assert EvalAll(t, [cond, result], m) == [Eval(t, cond, m), Eval(t, result, m)] by {
        assert [cond, result][1..] == [result] && [result][1..] == [];
      }
      SkipConstant(rest);
    case CaseExpr(arg, defresult, whens) =>
      var two, more := [Eval(t, arg, m), Eval(t, defresult, m)], EvalAll(t, whens, m);
      assert EvalAll(t, [arg, defresult] + whens, m) == two + more by {
        var all := [arg, defresult] + whens;
        assert all[1..][1..] == whens && all[1..][0] == defresult;
      }
      assert [own] + rest == [own, Eval(t, arg, m), Eval(t, defresult, m)] + more;
    case _ =>
  }

  lemma CombineOne(v: Volatility)
    ensures Combine([v]) == v
  {}

  lemma SkipConstant(parts: seq<Volatility>)
    ensures Combine([Constant] + parts) == Combine(parts)
  {
    assert ([Constant] + parts)[1..] == parts;
  }

  lemma {:induction false} EvalAllAt(t: Tables, es: seq<Expr>, m: map<string, Volatility>, i: nat)
    requires i < |es|
    ensures EvalAll(t, es, m)[i] == Eval(t, es[i], m)
  {
    if i > 0 {
      EvalAllAt(t, es[1..], m, i - 1);
    }
  }

  lemma PartsAreSmaller(e: Expr, i: nat)
    requires i < |Parts(e)|
    ensures Parts(e)[i] < e
  {
    match e
    case CaseExpr(arg, defresult, whens) =>
      if i >= 2 {
        assert Parts(e)[i] == whens[i - 2];
      }
    case _ =>
  }

  lemma PartBelow(t: Tables, e: Expr, m: map<string, Volatility>, i: nat)
    requires i < |Parts(e)|
    ensures Rank(Eval(t, Parts(e)[i], m)) <= Rank(Eval(t, e, m))
  {
    hide Eval, Parts, OwnLeaf;
    EvalShape(t, e, m);
    EvalAllAt(t, Parts(e), m, i);
    var values := [LeafValue(OwnLeaf(t, e), m)] + EvalAll(t, Parts(e), m);
    assert values[i + 1] in values;
  }

  lemma {:induction false} LeafBelow(t: Tables, e: Expr, m: map<string, Volatility>, leaf: Leaf)
    requires HasLeaf(t, e, leaf)
    ensures Rank(LeafValue(leaf, m)) <= Rank(Eval(t, e, m))
    decreases e
  {
    hide Eval, Parts, OwnLeaf;
    if leaf == OwnLeaf(t, e) {
      EvalShape(t, e, m);
      assert LeafValue(leaf, m) in [LeafValue(leaf, m)] + EvalAll(t, Parts(e), m);
    } else {
      var i :| 0 <= i < |Parts(e)| && HasLeaf(t, Parts(e)[i], leaf);
      PartsAreSmaller(e, i);
      LeafBelow(t, Parts(e)[i], m, leaf);
      PartBelow(t, e, m, i);
    }
  }

  lemma {:induction false} DecidingLeaf(t: Tables, e: Expr, m: map<string, Volatility>) returns (leaf: Leaf)
    ensures HasLeaf(t, e, leaf) && LeafValue(leaf, m) == Eval(t, e, m)
    decreases e
  {
    hide Eval, Parts, OwnLeaf;
    EvalShape(t, e, m);
    leaf := OwnLeaf(t, e);
    var values := [LeafValue(leaf, m)] + EvalAll(t, Parts(e), m);
    if Eval(t, e, m) != LeafValue(leaf, m) {
      assert values[0] in values;
      var j :| 0 <= j < |values| && values[j] == Eval(t, e, m);
      EvalAllAt(t, Parts(e), m, j - 1);
      PartsAreSmaller(e, j - 1);
      leaf := DecidingLeaf(t, Parts(e)[j - 1], m);
    }
  }

  lemma EvalIsWorstLeaf(t: Tables, e: Expr, m: map<string, Volatility>)
    ensures WorstLeaf(t, e, m, Eval(t, e, m))
  {
    forall leaf | HasLeaf(t, e, leaf) ensures Rank(LeafValue(leaf, m)) <= Rank(Eval(t, e, m)) {
      LeafBelow(t, e, m, leaf);
    }
    var leaf := DecidingLeaf(t, e, m);
  }

  lemma WorstLeafUnique(t: Tables, e: Expr, m: map<string, Volatility>, v: Volatility)
    requires WorstLeaf(t, e, m, v)
    ensures Eval(t, e, m) == v
  {
    EvalIsWorstLeaf(t, e, m);
  }

  // ---- The collector finds exactly the undecided leaves ----

  lemma {:induction false} KeysOfAllHas(t: Tables, es: seq<Expr>, key: string)
    ensures key in KeysOfAll(t, es) <==> exists i :: 0 <= i < |es| && key in UnknownKeys(t, es[i])
  {
    if es != [] {
      var front := es[..|es| - 1];
      KeysOfAllHas(t, front, key);
      assert forall i :: 0 <= i < |front| ==> front[i] == es[i];
    }
  }

  lemma KeysShape(t: Tables, e: Expr, key: string)
    ensures key in UnknownKeys(t, e) <==>
            OwnLeaf(t, e) == Undecided(key) || key in KeysOfAll(t, Parts(e))
  {
    hide StaticFunction, Join;
    match e
    case Operator(_, left, right) => KeysOfPair(t, left, right);
    case CaseWhen(cond, result) => KeysOfPair(t, cond, result);
    case TypeCast(arg) => KeysOfOne(t, arg);
    case NullTest(arg) => KeysOfOne(t, arg);
    case CaseExpr(arg, defresult, whens) => KeysOfTwoAndMore(t, arg, defresult, whens);
    case _ =>
  }

  lemma {:induction false} KeysOfTwoAndMore(t: Tables, a: Expr, b: Expr, rest: seq<Expr>)
    ensures KeysOfAll(t, [a, b] + rest) == UnknownKeys(t, a) + UnknownKeys(t, b) + KeysOfAll(t, rest)
  {
    if rest == [] {
      KeysOfPair(t, a, b);
      assert [a, b] + rest == [a, b];
    } else {
      var all, front := [a, b] + rest, rest[..|rest| - 1];
      assert all[..|all| - 1] == [a, b] + front;
      KeysOfTwoAndMore(t, a, b, front);
    }
  }

  lemma KeysOfOne(t: Tables, a: Expr)
    ensures KeysOfAll(t, [a]) == UnknownKeys(t, a)
  {
    assert [a][..0] == [];
  }

  lemma KeysOfPair(t: Tables, a: Expr, b: Expr)
    ensures KeysOfAll(t, [a, b]) == UnknownKeys(t, a) + UnknownKeys(t, b)
  {
    assert [a, b][..1] == [a];
    KeysOfOne(t, a);
  }

  lemma {:induction false} CollectorFindsUndecidedLeaves(t: Tables, e: Expr, key: string)
    ensures key in UnknownKeys(t, e) <==> HasLeaf(t, e, Undecided(key))
    decreases e
  {
    KeysShape(t, e, key);
    KeysOfAllHas(t, Parts(e), key);
    forall i | 0 <= i < |Parts(e)|
      ensures key in UnknownKeys(t, Parts(e)[i]) <==> HasLeaf(t, Parts(e)[i], Undecided(key))
    {
      PartsAreSmaller(e, i);
      CollectorFindsUndecidedLeaves(t, Parts(e)[i], key);
    }
  }

  // ---- Consequences ----

  /** Two mappings that agree on the collected names give the same answer. */
  lemma OnlyCollectedNamesMatter(t: Tables, e: Expr, m: map<string, Volatility>, n: map<string, Volatility>)
    requires forall key <- UnknownKeys(t, e) :: (key in m <==> key in n) && (key in m ==> m[key] == n[key])
    ensures Eval(t, e, m) == Eval(t, e, n)
  {
    EvalIsWorstLeaf(t, e, m);
    forall leaf | HasLeaf(t, e, leaf) ensures LeafValue(leaf, m) == LeafValue(leaf, n) {
      if leaf.Undecided? {
        CollectorFindsUndecidedLeaves(t, e, leaf.key);
      }
    }
    assert WorstLeaf(t, e, n, Eval(t, e, m));
    WorstLeafUnique(t, e, n, Eval(t, e, m));
  }

  /** A live fact never changes an answer that was decided statically. */
  lemma StaticAnswerIsFinal(t: Tables, e: Expr, m: map<string, Volatility>)
    requires Eval(t, e, map[]) != Unknown
    ensures Eval(t, e, m) == Eval(t, e, map[])
  {
    var v := Eval(t, e, map[]);
    EvalIsWorstLeaf(t, e, map[]);
    var worst :| HasLeaf(t, e, worst) && LeafValue(worst, map[]) == v;
    assert worst.Fixed?;
    forall leaf | HasLeaf(t, e, leaf) ensures Rank(LeafValue(leaf, m)) <= Rank(v) {
      assert Rank(LeafValue(leaf, map[])) <= Rank(v);
    }
    assert LeafValue(worst, m) == v;
    WorstLeafUnique(t, e, m, v);
  }

  /** Something reachable is volatile whatever the mapping leaves open. */
  ghost predicate HasVolatileLeaf(t: Tables, e: Expr, m: map<string, Volatility>) {
    exists leaf :: HasLeaf(t, e, leaf) && LeafValue(leaf, m) == Volatile
  }

  /**
   When an answer stays UNKNOWN: nothing is volatile, and there is an unrecognised construct, operator or
   nameless call, or a collected name that no fact decides.
   */
  lemma StaysUnknownIff(t: Tables, e: Expr, m: map<string, Volatility>)
    requires forall key <- m :: m[key] != Unknown
    ensures Eval(t, e, m) == Unknown <==>
            && !HasVolatileLeaf(t, e, m)
            && (HasLeaf(t, e, Opaque) || exists key <- UnknownKeys(t, e) :: key !in m)
  {
    hide Eval, UnknownKeys;
    var v := Eval(t, e, m);
    EvalIsWorstLeaf(t, e, m);
    var worst :| HasLeaf(t, e, worst) && LeafValue(worst, m) == v;
    FixedLeavesAreDecided(t, e, worst);
    if v == Unknown && worst.Undecided? {
      CollectorFindsUndecidedLeaves(t, e, worst.key);
    }
    forall key <- UnknownKeys(t, e) | key !in m ensures Rank(v) >= Rank(Unknown) {
      CollectorFindsUndecidedLeaves(t, e, key);
      assert LeafValue(Undecided(key), m) == Unknown;
    }
    if HasLeaf(t, e, Opaque) {
      assert LeafValue(Opaque, m) == Unknown;
    }
  }

  lemma {:induction false} FixedLeavesAreDecided(t: Tables, e: Expr, leaf: Leaf)
    requires HasLeaf(t, e, leaf)
    ensures leaf != Fixed(Unknown)
    decreases e
  {
    if leaf != OwnLeaf(t, e) {
      var i :| 0 <= i < |Parts(e)| && HasLeaf(t, Parts(e)[i], leaf);
      PartsAreSmaller(e, i);
      FixedLeavesAreDecided(t, Parts(e)[i], leaf);
    }
  }

  // ---- Live re-evaluation of a recorded default ----

  /** One function's live fact: `pg_proc.provolatile`, when it was decided. */
  datatype FunctionFact = FunctionFact(requested: string, provolatile: Option<char>)

  function OfProvolatile(c: char): Option<Volatility> {
    match c
    case 'i' => Some(Immutable)
    case 's' => Some(Stable)
    case 'v' => Some(Volatile)
    case _ => None
  }

  function Decided(fact: FunctionFact): Option<Volatility> {
    if fact.provolatile.None? then None else OfProvolatile(fact.provolatile.value)
  }

  predicate Decides(facts: seq<FunctionFact>, name: string, i: nat)
    requires i < |facts|
  {
    facts[i].requested == name && Decided(facts[i]).Some?
  }

  /** `answer` is what the last decided fact about `name` says, if there is one. */
  ghost predicate LastDecided(facts: seq<FunctionFact>, name: string, answer: Option<Volatility>) {
    match answer
    case None => forall i :: 0 <= i < |facts| ==> !Decides(facts, name, i)
    case Some(v) =>
      exists i :: 0 <= i < |facts| && Decides(facts, name, i) && Decided(facts[i]) == answer
                  && forall j :: i < j < |facts| ==> !Decides(facts, name, j)
  }

  function Resolved(facts: seq<FunctionFact>): map<string, Volatility> {
    if facts == [] then map[]
    else
      var rest, last := Resolved(facts[..|facts| - 1]), facts[|facts| - 1];
      if Decided(last).Some? then rest[last.requested := Decided(last).value] else rest
  }

  method ResolvedFunctionVolatilities(facts: seq<FunctionFact>) returns (out: map<string, Volatility>)
    ensures out == Resolved(facts)
  {
    out := map[];
    for i := 0 to |facts|
      invariant out == Resolved(facts[..i])
    {
      assert facts[..i + 1][..i] == facts[..i];
      var decided := Decided(facts[i]);
      if decided.Some? {
        out := out[facts[i].requested := decided.value];
      }
    }
    assert facts[..|facts|] == facts;
  }

  lemma {:induction false} ResolvedIsLastDecided(facts: seq<FunctionFact>, name: string)
    ensures var m := Resolved(facts); LastDecided(facts, name, if name in m then Some(m[name]) else None)
    ensures name in Resolved(facts) ==> Resolved(facts)[name] != Unknown
  {
    if facts != [] {
      var n := |facts| - 1;
      var front := facts[..n];
      ResolvedIsLastDecided(front, name);
      forall i | 0 <= i < n ensures Decides(facts, name, i) == Decides(front, name, i) {
        assert facts[i] == front[i];
      }
      if Decides(facts, name, n) {
        assert Resolved(facts)[name] == Decided(facts[n]).value;
      } else if name in Resolved(front) {
        var i :| 0 <= i < n && Decides(front, name, i) && Decided(front[i]) == Some(Resolved(front)[name])
          && forall j :: i < j < n ==> !Decides(front, name, j);
        assert Decides(facts, name, i) && facts[i] == front[i];
      }
    }
  }

  /** What the classifier records about a default; the expression is None when deparsing failed. */
  datatype DefaultInfo = DefaultInfo(volatility: Volatility, expression: Option<Expr>, unknownFunctions: seq<string>)

  ghost predicate Records(t: Tables, e: Expr, info: DefaultInfo) {
    && info.volatility == Eval(t, e, map[])
    && (info.expression.Some? ==> info.expression.value == e)
    && (if info.volatility == Unknown then KeyList(t, e, info.unknownFunctions) else info.unknownFunctions == [])
  }

  method DefaultInfoOf(t: Tables, e: Expr, deparses: bool) returns (info: DefaultInfo)
    ensures Records(t, e, info) && info.expression.Some? == deparses
  {
    var volatility := Eval(t, e, map[]);
    var keys := [];
    if volatility == Unknown {
      keys := UnknownFunctionKeys(t, e);
    }
    info := DefaultInfo(volatility, if deparses then Some(e) else None, keys);
  }

  function DecideDefault(t: Tables, info: DefaultInfo, facts: seq<FunctionFact>): Volatility {
    if info.volatility != Unknown || info.expression.None? then info.volatility
    else if !exists name <- info.unknownFunctions :: name in Resolved(facts) then info.volatility
    else Eval(t, info.expression.value, Resolved(facts))
  }

  /** The shortcuts never matter: a recorded default is always judged as if re-evaluated in full. */
  lemma DecideIsFullReevaluation(t: Tables, e: Expr, info: DefaultInfo, facts: seq<FunctionFact>)
    requires Records(t, e, info) && info.expression.Some?
    ensures DecideDefault(t, info, facts) == Eval(t, e, Resolved(facts))
  {
    var m := Resolved(facts);
    if info.volatility != Unknown {
      StaticAnswerIsFinal(t, e, m);
    } else if !exists name <- info.unknownFunctions :: name in m {
      OnlyCollectedNamesMatter(t, e, m, map[]);
    }
  }
}
