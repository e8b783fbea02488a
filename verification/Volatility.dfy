/** Static volatility of default expressions (`volatility.py`). */
module Volatility {
  import opened Options
  import opened Sorting

  datatype Volatility = Constant | Immutable | Stable | Unknown | Volatile

  function Rank(v: Volatility): nat {
    match v
    case Constant => 0
    case Immutable => 1
    case Stable => 2
    case Unknown => 3
    case Volatile => 4
  }

  /** The worst of the parts, from CONSTANT up. */
  function Combine(parts: seq<Volatility>): (worst: Volatility)
    ensures worst == Constant || worst in parts
    ensures forall part <- parts :: Rank(part) <= Rank(worst)
  {
    if parts == [] then Constant
    else
      var rest := Combine(parts[1..]);
      if Rank(rest) >= Rank(parts[0]) then rest else parts[0]
  }

  method CombineInPlace(parts: seq<Volatility>) returns (result: Volatility)
    ensures result == Combine(parts)
  {
    result := Constant;
    for i := 0 to |parts|
      invariant forall j :: 0 <= j < i ==> Rank(parts[j]) <= Rank(result)
      invariant result == Constant || result in parts[..i]
    {
      if Rank(parts[i]) > Rank(result) {
        result := parts[i];
      }
    }
  }

  /** The allowlists of function names and operator spellings. */
  datatype Tables = Tables(volatile: set<string>, stable: set<string>, immutable: set<string>, operators: set<string>)

  /** A raw expression tree. `name` and `symbol` are dotted parts, function names in lower case. */
  datatype Expr =
    | Absent
    | Literal
    | TypeCast(arg: Expr)
    | SqlValueFunction
    | FuncCall(name: seq<string>, args: seq<Expr>)
    | Operator(symbol: seq<string>, left: Expr, right: Expr)
    | BoolExpr(args: seq<Expr>)
    | CoalesceExpr(args: seq<Expr>)
    | MinMaxExpr(args: seq<Expr>)
    | CaseExpr(arg: Expr, defresult: Expr, whens: seq<Expr>)
    | CaseWhen(cond: Expr, result: Expr)
    | NullTest(arg: Expr)
    | RowExpr(args: seq<Expr>)
    | ArrayExpr(args: seq<Expr>)
    | ColumnRef
    | Items(items: seq<Expr>)
    | Unrecognised

  function FunctionName(name: seq<string>): Option<string> {
    if name == [] then None else Some(name[|name| - 1])
  }

  function Join(parts: seq<string>): string {
    if |parts| == 0 then "" else if |parts| == 1 then parts[0] else parts[0] + "." + Join(parts[1..])
  }

  function FunctionKey(name: seq<string>): Option<string> {
    if name == [] then None else Some(Join(name))
  }

  function StaticFunction(t: Tables, name: Option<string>): Volatility {
    if name.None? then Unknown
    else if name.value in t.volatile then Volatile
    else if name.value in t.stable then Stable
    else if name.value in t.immutable then Immutable
    else Unknown
  }

  function CallBase(t: Tables, name: seq<string>, resolved: map<string, Volatility>): Volatility {
    var base := StaticFunction(t, FunctionName(name));
    var key := FunctionKey(name);
    if base == Unknown && key.Some? && key.value in resolved then resolved[key.value] else base
  }

  function OperatorBase(t: Tables, symbol: seq<string>): Volatility {
    if |symbol| == 1 && symbol[0] in t.operators then Immutable else Unknown
  }

  /** `expression_volatility`; an empty mapping is the static answer. */
  function Eval(t: Tables, e: Expr, resolved: map<string, Volatility>): Volatility
    decreases e, 1
  {
    match e
    case Absent => Constant
    case Literal => Constant
    case TypeCast(arg) => if arg.Literal? then Constant else Combine([Immutable, Eval(t, arg, resolved)])
    case SqlValueFunction => Stable
    case FuncCall(name, args) => Combine([CallBase(t, name, resolved)] + EvalAll(t, args, resolved))
    case Operator(symbol, left, right) =>
      Combine([OperatorBase(t, symbol), Eval(t, left, resolved), Eval(t, right, resolved)])
    case BoolExpr(args) => Combine([Immutable] + EvalAll(t, args, resolved))
    case CoalesceExpr(args) => Combine([Immutable] + EvalAll(t, args, resolved))
    case MinMaxExpr(args) => Combine([Immutable] + EvalAll(t, args, resolved))
    case CaseExpr(arg, defresult, whens) =>
      Combine([Immutable, Eval(t, arg, resolved), Eval(t, defresult, resolved)] + EvalAll(t, whens, resolved))
    case CaseWhen(cond, result) => Combine([Eval(t, cond, resolved), Eval(t, result, resolved)])
    case NullTest(arg) => Combine([Immutable, Eval(t, arg, resolved)])
    case RowExpr(args) => Combine([Immutable] + EvalAll(t, args, resolved))
    case ArrayExpr(args) => Combine([Immutable] + EvalAll(t, args, resolved))
    case ColumnRef => Immutable
    case Items(items) => Combine(EvalAll(t, items, resolved))
    case Unrecognised => Unknown
  }

  function EvalAll(t: Tables, es: seq<Expr>, resolved: map<string, Volatility>): (r: seq<Volatility>)
    ensures |r| == |es|
    decreases es, 0
  {
    if es == [] then [] else [Eval(t, es[0], resolved)] + EvalAll(t, es[1..], resolved)
  }

  // ---- The separate collector of unknown functions ----

  function KeysOfAll(t: Tables, es: seq<Expr>): set<string>
    decreases es, 0
  {
    if es == [] then {} else KeysOfAll(t, es[..|es| - 1]) + UnknownKeys(t, es[|es| - 1])
  }

  function UnknownKeys(t: Tables, e: Expr): set<string>
    decreases e, 1
  {
    match e
    case TypeCast(arg) => if arg.Literal? then {} else UnknownKeys(t, arg)
    case FuncCall(name, args) =>
      (if StaticFunction(t, FunctionName(name)) == Unknown && name != [] then {Join(name)} else {}) + KeysOfAll(t, args)
    case Operator(_, left, right) => UnknownKeys(t, left) + UnknownKeys(t, right)
    case BoolExpr(args) => KeysOfAll(t, args)
    case CoalesceExpr(args) => KeysOfAll(t, args)
    case MinMaxExpr(args) => KeysOfAll(t, args)
    case RowExpr(args) => KeysOfAll(t, args)
    case CaseExpr(arg, defresult, whens) => UnknownKeys(t, arg) + UnknownKeys(t, defresult) + KeysOfAll(t, whens)
    case CaseWhen(cond, result) => UnknownKeys(t, cond) + UnknownKeys(t, result)
    case NullTest(arg) => UnknownKeys(t, arg)
    case ArrayExpr(args) => KeysOfAll(t, args)
    case Items(items) => KeysOfAll(t, items)
    case _ => {}
  }

  class KeySet {
    var keys: set<string>

    constructor ()
      ensures keys == {}
    {
      keys := {};
    }
  }

  method CollectAll(t: Tables, es: seq<Expr>, found: KeySet)
    modifies found
    ensures found.keys == old(found.keys) + KeysOfAll(t, es)
    decreases es, 0
  {
    for i := 0 to |es|
      invariant found.keys == old(found.keys) + KeysOfAll(t, es[..i])
    {
      Collect(t, es[i], found);
      assert es[..i + 1][..i] == es[..i];
    }
    assert es[..|es|] == es;
  }

  method Collect(t: Tables, e: Expr, found: KeySet)
    modifies found
    ensures found.keys == old(found.keys) + UnknownKeys(t, e)
    decreases e, 1
  {
    match e {
      case TypeCast(arg) =>
        if !arg.Literal? {
          Collect(t, arg, found);
        }
      case FuncCall(name, args) =>
        if StaticFunction(t, FunctionName(name)) == Unknown {
          var key := FunctionKey(name);
          if key.Some? {
            found.keys := found.keys + {key.value};
          }
        }
        CollectAll(t, args, found);
      case Operator(_, left, right) =>
        Collect(t, left, found);
        Collect(t, right, found);
      case BoolExpr(args) => CollectAll(t, args, found);
      case CoalesceExpr(args) => CollectAll(t, args, found);
      case MinMaxExpr(args) => CollectAll(t, args, found);
      case RowExpr(args) => CollectAll(t, args, found);
      case CaseExpr(arg, defresult, whens) =>
        Collect(t, arg, found);
        Collect(t, defresult, found);
        CollectAll(t, whens, found);
      case CaseWhen(cond, result) =>
        Collect(t, cond, found);
        Collect(t, result, found);
      case NullTest(arg) => Collect(t, arg, found);
      case ArrayExpr(args) => CollectAll(t, args, found);
      case Items(items) => CollectAll(t, items, found);
      case _ =>
    }
  }

  /** The collected names, each once and in order. */
  ghost predicate KeyList(t: Tables, e: Expr, keys: seq<string>) {
    Sorted(TextLeq, keys) && Distinct(keys) && forall key :: key in keys <==> key in UnknownKeys(t, e)
  }

  method UnknownFunctionKeys(t: Tables, e: Expr) returns (keys: seq<string>)
    ensures KeyList(t, e, keys)
  {
    var found := new KeySet();
    Collect(t, e, found);
    var pending, listed: seq<string> := found.keys, [];
    while pending != {}
      invariant Distinct(listed) && forall key :: key in found.keys <==> key in pending || key in listed
      invariant forall key <- listed :: key !in pending
      decreases pending
    {
      var key :| key in pending;
      pending := pending - {key};
      listed := listed + [key];
    }
    TextOrder();
    SortDistinct(TextLeq, listed);
    keys := Sort(TextLeq, listed);
  }

  // ---- What an answer rests on ----

  /** One thing the volatility of an expression is the worst of. */
  datatype Leaf = Fixed(volatility: Volatility) | Undecided(key: string) | Opaque

  function Parts(e: Expr): seq<Expr> {
    match e
    case TypeCast(arg) => if arg.Literal? then [] else [arg]
    case FuncCall(_, args) => args
    case Operator(_, left, right) => [left, right]
    case BoolExpr(args) => args
    case CoalesceExpr(args) => args
    case MinMaxExpr(args) => args
    case RowExpr(args) => args
    case ArrayExpr(args) => args
    case CaseExpr(arg, defresult, whens) => [arg, defresult] + whens
    case CaseWhen(cond, result) => [cond, result]
    case NullTest(arg) => [arg]
    case Items(items) => items
    case _ => []
  }

  function OwnLeaf(t: Tables, e: Expr): Leaf {
    match e
    case Absent | Literal | CaseWhen(_, _) | Items(_) => Fixed(Constant)
    case TypeCast(arg) => Fixed(if arg.Literal? then Constant else Immutable)
    case SqlValueFunction => Fixed(Stable)
    case FuncCall(name, _) =>
      if StaticFunction(t, FunctionName(name)) != Unknown then Fixed(StaticFunction(t, FunctionName(name)))
      else if name == [] then Opaque
      else Undecided(Join(name))
    case Operator(symbol, _, _) => if |symbol| == 1 && symbol[0] in t.operators then Fixed(Immutable) else Opaque
    case Unrecognised => Opaque
    case _ => Fixed(Immutable)
  }

  function LeafValue(leaf: Leaf, resolved: map<string, Volatility>): Volatility {
    match leaf
    case Fixed(v) => v
    case Undecided(key) => if key in resolved then resolved[key] else Unknown
    case Opaque => Unknown
  }

  /** `leaf` belongs to some reachable part of the expression. */
  ghost predicate HasLeaf(t: Tables, e: Expr, leaf: Leaf) {
    leaf == OwnLeaf(t, e) || exists i :: 0 <= i < |Parts(e)| && HasLeaf(t, Parts(e)[i], leaf)
  }

  /** The answer is at least as bad as every leaf, and is the value of one. */
  ghost predicate WorstLeaf(t: Tables, e: Expr, resolved: map<string, Volatility>, v: Volatility) {
    && (forall leaf :: HasLeaf(t, e, leaf) ==> Rank(LeafValue(leaf, resolved)) <= Rank(v))
    && (exists leaf :: HasLeaf(t, e, leaf) && LeafValue(leaf, resolved) == v)
  }
}
