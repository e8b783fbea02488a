/** Resolving a parsed statement against a loaded lock catalog (`catalog/resolve.py`). */
module LockResolve {
  import opened Options
  import opened LockModel
  import opened LockCatalog

  type Name = string

  /** Fields by name, as the catalog's predicates read them. */
  type Fields = map<string, Attr>

  datatype Action = Action(kind: string, referenced: Option<Name>, partition: Option<Name>, fields: Fields)

  datatype Details =
    | NoDetails
    | CreateTable(referenced: seq<Name>, partitionOf: Option<Name>, fields: Fields)
    | DoBlock(statements: seq<Stmt>, guarded: bool, fields: Fields)
    | OtherDetails(fields: Fields)

  datatype Stmt = Stmt(kind: string, targets: seq<Name>, actions: seq<Action>, details: Details, fields: Fields) {
    function Inner(): seq<Stmt> {
      if details.DoBlock? then details.statements else []
    }
  }

  /** `name` is None for a role that cannot be named statically. */
  datatype RelationLock = RelationLock(
    role: string, name: Option<Name>, mode: LockMode, blocksReads: bool, blocksWrites: bool, certain: bool)

  datatype ResolvedLock = ResolvedLock(
    entry: Entry, relations: seq<RelationLock>, statement: Stmt, action: Option<Action>,
    inDoBlock: bool, conditional: bool)

  datatype Failure = BadVersion | NoRows | NoEntry | MissingRelation(role: string)

  /** Later sources win on a shared name: statement, then details, then action. */
  function IrAttrs(s: Stmt, action: Option<Action>): Fields {
    s.fields
    + (if s.details.NoDetails? then map[] else s.details.fields)
    + (if action.None? then map[] else action.value.fields)
  }

  /** Which source answers for a field. */
  lemma LaterSourcesWin(s: Stmt, action: Option<Action>, field: string)
    ensures var attrs := IrAttrs(s, action);
            var inAction := action.Some? && field in action.value.fields;
            var inDetails := !s.details.NoDetails? && field in s.details.fields;
            && (field in attrs <==> inAction || inDetails || field in s.fields)
            && (inAction ==> attrs[field] == action.value.fields[field])
            && (!inAction && inDetails ==> attrs[field] == s.details.fields[field])
            && (!inAction && !inDetails && field in s.fields ==> attrs[field] == s.fields[field])
  {}

  function Lookup(c: Catalog, kind: Kind, version: int, attrs: Fields): Result<Entry, Failure> {
    if !c.domain.Covers(version) then Err(BadVersion)
    else if c.RowsFor(kind).None? then Err(NoRows)
    else
      var e := EntryFor(c.RowsFor(kind).value, version, attrs);
      if e.None? then Err(NoEntry) else Ok(e.value)
  }

  // ---- The relations of one row ----

  function Present(name: Option<Name>): seq<Option<Name>> {
    if name.None? then [] else [name]
  }

  function Named(names: seq<Name>): (r: seq<Option<Name>>)
    ensures |r| == |names| && None !in r
  {
    seq(|names|, i requires 0 <= i < |names| => Some(names[i]))
  }

  function NamesForRole(role: string, s: Stmt, action: Option<Action>): seq<Option<Name>> {
    match role
    case "target" => Named(if s.targets == [] then [] else s.targets[..1])
    case "additional_targets" => Named(if s.targets == [] then [] else s.targets[1..])
    case "referenced_table" => if action.None? then [] else Present(action.value.referenced)
    case "referenced_tables" => if s.details.CreateTable? then Named(s.details.referenced) else []
    case "partition" => if action.None? then [] else Present(action.value.partition)
    case "parent" => if s.details.CreateTable? then Present(s.details.partitionOf) else []
    case _ => [None]
  }

  /** The first target and the additional ones are all the targets, in order. */
  lemma TargetsAreSplit(s: Stmt, action: Option<Action>)
    ensures NamesForRole("target", s, action) + NamesForRole("additional_targets", s, action) == Named(s.targets)
  {}

  function NamesOf(a: AffectedRelation, s: Stmt, action: Option<Action>): seq<Option<Name>> {
    if !a.resolvable then [None] else NamesForRole(a.role, s, action)
  }

  function LockOf(c: Catalog, a: AffectedRelation, name: Option<Name>): RelationLock {
    var conflicts := ConflictsWith(c.matrix, a.mode);
    RelationLock(a.role, name, a.mode, AccessShare in conflicts, RowExclusive in conflicts, a.resolvable || !a.optional)
  }

  function LocksOf(c: Catalog, a: AffectedRelation, names: seq<Option<Name>>): (locks: seq<RelationLock>)
    ensures |locks| == |names|
  {
    seq(|names|, i requires 0 <= i < |names| => LockOf(c, a, names[i]))
  }

  predicate Missing(a: AffectedRelation, s: Stmt, action: Option<Action>) {
    !a.optional && NamesOf(a, s, action) == []
  }

  function RelationsUpTo(c: Catalog, affected: seq<AffectedRelation>, n: nat, s: Stmt, action: Option<Action>)
    : seq<RelationLock>
    requires n <= |affected|
  {
    if n == 0 then []
    else
      RelationsUpTo(c, affected, n - 1, s, action)
      + LocksOf(c, affected[n - 1], NamesOf(affected[n - 1], s, action))
  }

  /** The locks role by role, or the first required role that the statement does not name. */
  ghost predicate RelationsAre(
    c: Catalog, affected: seq<AffectedRelation>, s: Stmt, action: Option<Action>,
    result: Result<seq<RelationLock>, Failure>)
  {
    match result
    case Ok(locks) =>
      && (forall a <- affected :: !Missing(a, s, action))
      && locks == RelationsUpTo(c, affected, |affected|, s, action)
    case Err(failure) =>
      exists i :: 0 <= i < |affected| && Missing(affected[i], s, action)
                  && failure == MissingRelation(affected[i].role)
                  && forall j :: 0 <= j < i ==> !Missing(affected[j], s, action)
  }

  method Relations(c: Catalog, affected: seq<AffectedRelation>, s: Stmt, action: Option<Action>)
    returns (result: Result<seq<RelationLock>, Failure>)
    ensures RelationsAre(c, affected, s, action, result)
  {
    hide NamesForRole, NamesOf, LockOf;
    var locks := [];
    for i := 0 to |affected|
      invariant forall j :: 0 <= j < i ==> !Missing(affected[j], s, action)
      invariant locks == RelationsUpTo(c, affected, i, s, action)
    {
      var names := NamesOf(affected[i], s, action);
      if names == [] {
        if !affected[i].optional {
          return Err(MissingRelation(affected[i].role));
        }
      }
      var k := 0;
      ghost var before := locks;
      while k < |names|
        invariant k <= |names| && locks == before + LocksOf(c, affected[i], names)[..k]
      {
        locks := locks + [LockOf(c, affected[i], names[k])];
        k := k + 1;
      }
    }
    return Ok(locks);
  }

  /** A relation is locked exactly when some role names it, with that role's mode and its conflicts. */
  lemma {:induction false} LockedIffNamed(
      c: Catalog, affected: seq<AffectedRelation>, n: nat, s: Stmt, action: Option<Action>, lock: RelationLock)
    requires n <= |affected|
    ensures lock in RelationsUpTo(c, affected, n, s, action) <==>
            exists i, name ::
              0 <= i < n && name in NamesOf(affected[i], s, action) && lock == LockOf(c, affected[i], name)
  {
    hide NamesOf, LockOf, NamesForRole;
    if n > 0 {
      LockedIffNamed(c, affected, n - 1, s, action, lock);
      var names := NamesOf(affected[n - 1], s, action);
      var locks := LocksOf(c, affected[n - 1], names);
      assert lock in locks <==> exists name <- names :: lock == LockOf(c, affected[n - 1], name) by {
        if lock in locks {
          var k :| 0 <= k < |locks| && locks[k] == lock;
          assert names[k] in names;
        }
        if name :| name in names && lock == LockOf(c, affected[n - 1], name) {
          var k :| 0 <= k < |names| && names[k] == name;
          assert locks[k] == lock;
        }
      }
    }
  }

  // ---- Where rows come from ----

  /** One row's origin: a statement or one of its actions, under the guards of the blocks around it, outermost first. */
  datatype Leaf = Leaf(statement: Stmt, action: Option<Action>, guards: seq<bool>) {
    function LookupKind(): Kind {
      if action.Some? then ActionKind(action.value.kind) else StatementKind(statement.kind)
    }
  }

  function Nest(guarded: bool, leaves: seq<Leaf>): (r: seq<Leaf>)
    ensures |r| == |leaves|
  {
    seq(|leaves|, i requires 0 <= i < |leaves| => leaves[i].(guards := [guarded] + leaves[i].guards))
  }

  /** Every origin of a row, in order of writing, at any depth. */
  function Leaves(c: Catalog, s: Stmt): seq<Leaf>
    decreases s, |s.Inner()| + 1
  {
    match c.ResolutionOf(StatementKind(s.kind))
    case Direct => [Leaf(s, None, [])]
    case PerAction => seq(|s.actions|, i requires 0 <= i < |s.actions| => Leaf(s, Some(s.actions[i]), []))
    case InnerStatements => BlockLeaves(c, s, |s.Inner()|)
  }

  function BlockLeaves(c: Catalog, s: Stmt, n: nat): seq<Leaf>
    requires n <= |s.Inner()|
    decreases s, n
  {
    if n == 0 then []
    else BlockLeaves(c, s, n - 1) + Nest(s.details.guarded, Leaves(c, s.details.statements[n - 1]))
  }

  /** The row of one origin: conditional when the caller said so or any block around it is guarded. */
  ghost predicate RowOf(c: Catalog, version: int, inDoBlock: bool, conditional: bool, leaf: Leaf,
                        result: Result<ResolvedLock, Failure>) {
    match Lookup(c, leaf.LookupKind(), version, IrAttrs(leaf.statement, leaf.action))
    case Err(failure) => result == Err(failure)
    case Ok(entry) =>
      match result
      case Err(failure) => RelationsAre(c, entry.affected, leaf.statement, leaf.action, Err(failure))
      case Ok(row) =>
        && RelationsAre(c, entry.affected, leaf.statement, leaf.action, Ok(row.relations))
        && row == ResolvedLock(entry, row.relations, leaf.statement, leaf.action,
                               inDoBlock || leaf.guards != [], conditional || true in leaf.guards)
  }

  /** One row per origin in order, or the failure of the first origin that has none. */
  ghost predicate RowsAre(c: Catalog, version: int, inDoBlock: bool, conditional: bool, leaves: seq<Leaf>,
                          result: Result<seq<ResolvedLock>, Failure>) {
    match result
    case Ok(rows) =>
      |rows| == |leaves|
      && forall i :: 0 <= i < |rows| ==> RowOf(c, version, inDoBlock, conditional, leaves[i], Ok(rows[i]))
    case Err(failure) =>
      exists i :: 0 <= i < |leaves| && RowOf(c, version, inDoBlock, conditional, leaves[i], Err(failure))
                  && forall j :: 0 <= j < i ==> HasRow(c, version, inDoBlock, conditional, leaves[j])
  }

  ghost predicate HasRow(c: Catalog, version: int, inDoBlock: bool, conditional: bool, leaf: Leaf) {
    exists row :: RowOf(c, version, inDoBlock, conditional, leaf, Ok(row))
  }

  lemma OneMoreRow(c: Catalog, version: int, inDoBlock: bool, conditional: bool, leaves: seq<Leaf>,
                   rows: seq<ResolvedLock>, leaf: Leaf, result: Result<ResolvedLock, Failure>)
    requires RowsAre(c, version, inDoBlock, conditional, leaves, Ok(rows))
    requires RowOf(c, version, inDoBlock, conditional, leaf, result)
    ensures RowsAre(c, version, inDoBlock, conditional, leaves + [leaf],
                    if result.Ok? then Ok(rows + [result.value]) else Err(result.error))
  {
    hide RowOf;
    if result.Err? {
      assert (leaves + [leaf])[|leaves|] == leaf;
      forall j | 0 <= j < |leaves| ensures HasRow(c, version, inDoBlock, conditional, leaves[j]) {
        assert RowOf(c, version, inDoBlock, conditional, leaves[j], Ok(rows[j]));
      }
    }
  }

  /** Rows found so far, followed by the outcome of what comes next. */
  lemma RowsThen(c: Catalog, version: int, inDoBlock: bool, conditional: bool, leaves: seq<Leaf>,
                 rows: seq<ResolvedLock>, more: seq<Leaf>, result: Result<seq<ResolvedLock>, Failure>)
    requires RowsAre(c, version, inDoBlock, conditional, leaves, Ok(rows))
    requires RowsAre(c, version, inDoBlock, conditional, more, result)
    ensures RowsAre(c, version, inDoBlock, conditional, leaves + more,
                    if result.Ok? then Ok(rows + result.value) else result)
  {
    hide RowOf;
    var all := leaves + more;
    forall j | 0 <= j < |leaves| ensures HasRow(c, version, inDoBlock, conditional, all[j]) {
      assert RowOf(c, version, inDoBlock, conditional, leaves[j], Ok(rows[j]));
    }
    if result.Err? {
      var i :| 0 <= i < |more| && RowOf(c, version, inDoBlock, conditional, more[i], Err(result.error))
               && forall j :: 0 <= j < i ==> HasRow(c, version, inDoBlock, conditional, more[j]);
      assert all[|leaves| + i] == more[i];
    }
  }

  lemma NestedRow(c: Catalog, version: int, inDoBlock: bool, conditional: bool, guarded: bool, leaf: Leaf)
    ensures var nested := leaf.(guards := [guarded] + leaf.guards);
            && (forall r :: RowOf(c, version, true, conditional || guarded, leaf, r)
                            <==> RowOf(c, version, inDoBlock, conditional, nested, r))
            && (HasRow(c, version, true, conditional || guarded, leaf)
                <==> HasRow(c, version, inDoBlock, conditional, nested))
  {
    hide RelationsAre, Lookup, IrAttrs;
    assert true in [guarded] + leaf.guards <==> guarded || true in leaf.guards;
  }

  /** Rows found inside a block are the rows of its nested origins. */
  lemma NestedRows(c: Catalog, version: int, inDoBlock: bool, conditional: bool, guarded: bool, leaves: seq<Leaf>,
                   result: Result<seq<ResolvedLock>, Failure>)
    requires RowsAre(c, version, true, conditional || guarded, leaves, result)
    ensures RowsAre(c, version, inDoBlock, conditional, Nest(guarded, leaves), result)
  {
    hide RowOf, HasRow;
    var nested := Nest(guarded, leaves);
    forall i | 0 <= i < |leaves|
      ensures forall r :: RowOf(c, version, true, conditional || guarded, leaves[i], r)
                          ==> RowOf(c, version, inDoBlock, conditional, nested[i], r)
      ensures HasRow(c, version, true, conditional || guarded, leaves[i])
              ==> HasRow(c, version, inDoBlock, conditional, nested[i])
    {
      NestedRow(c, version, inDoBlock, conditional, guarded, leaves[i]);
    }
    if result.Err? {
      var i :| 0 <= i < |leaves| && RowOf(c, version, true, conditional || guarded, leaves[i], Err(result.error))
               && forall j :: 0 <= j < i ==> HasRow(c, version, true, conditional || guarded, leaves[j]);
      assert RowOf(c, version, inDoBlock, conditional, nested[i], Err(result.error));
    }
  }

  /** The row of one statement or action. */
  method ResolveLeaf(c: Catalog, leaf: Leaf, version: int, inDoBlock: bool, conditional: bool)
    returns (result: Result<ResolvedLock, Failure>)
    requires leaf.guards == []
    ensures RowOf(c, version, inDoBlock, conditional, leaf, result)
  {
    hide RelationsAre;
    var found := Lookup(c, leaf.LookupKind(), version, IrAttrs(leaf.statement, leaf.action));
    if found.Err? {
      return Err(found.error);
    }
    var entry := found.value;
    var relations := Relations(c, entry.affected, leaf.statement, leaf.action);
    if relations.Err? {
      return Err(relations.error);
    }
    return Ok(ResolvedLock(entry, relations.value, leaf.statement, leaf.action, inDoBlock, conditional));
  }

  method ResolveActions(c: Catalog, s: Stmt, version: int, inDoBlock: bool, conditional: bool)
    returns (result: Result<seq<ResolvedLock>, Failure>)
    requires c.ResolutionOf(StatementKind(s.kind)).PerAction?
    ensures RowsAre(c, version, inDoBlock, conditional, Leaves(c, s), result)
  {
    hide RowOf;
    var leaves := Leaves(c, s);
    var rows := [];
    for i := 0 to |s.actions|
      invariant RowsAre(c, version, inDoBlock, conditional, leaves[..i], Ok(rows))
    {
      var row := ResolveLeaf(c, leaves[i], version, inDoBlock, conditional);
      OneMoreRow(c, version, inDoBlock, conditional, leaves[..i], rows, leaves[i], row);
      assert leaves[..i] + [leaves[i]] == leaves[..i + 1];
      if row.Err? {
        RowsFailEarly(c, version, inDoBlock, conditional, leaves, i + 1, row.error);
        return Err(row.error);
      }
      rows := rows + [row.value];
    }
    assert leaves[..|leaves|] == leaves;
    return Ok(rows);
  }

  lemma RowsFailEarly(c: Catalog, version: int, inDoBlock: bool, conditional: bool, leaves: seq<Leaf>, n: nat,
                      failure: Failure)
    requires n <= |leaves| && RowsAre(c, version, inDoBlock, conditional, leaves[..n], Err(failure))
    ensures RowsAre(c, version, inDoBlock, conditional, leaves, Err(failure))
  {
    hide RowOf, HasRow;
  }

  lemma {:induction false} BlockLeavesGrow(c: Catalog, s: Stmt, m: nat, n: nat)
    requires m <= n <= |s.Inner()|
    ensures BlockLeaves(c, s, m) <= BlockLeaves(c, s, n)
  {
    if m < n {
      BlockLeavesGrow(c, s, m, n - 1);
    }
  }

  /** Rows of a statement: one per ALTER TABLE action, those of a block's statements at any depth, otherwise one. */
  method Resolve(c: Catalog, s: Stmt, version: int, inDoBlock: bool, conditional: bool)
    returns (result: Result<seq<ResolvedLock>, Failure>)
    ensures RowsAre(c, version, inDoBlock, conditional, Leaves(c, s), result)
    decreases s
  {
    hide RowOf, HasRow, Nest;
    var resolution := c.ResolutionOf(StatementKind(s.kind));
    if resolution.PerAction? {
      result := ResolveActions(c, s, version, inDoBlock, conditional);
      return;
    }
    if resolution.InnerStatements? {
      if !s.details.DoBlock? {
        return Ok([]);
      }
      var inner, guarded := s.details.statements, s.details.guarded;
      var rows := [];
      for i := 0 to |inner|
        invariant RowsAre(c, version, inDoBlock, conditional, BlockLeaves(c, s, i), Ok(rows))
      {
        var more := Resolve(c, inner[i], version, true, conditional || guarded);
        NestedRows(c, version, inDoBlock, conditional, guarded, Leaves(c, inner[i]), more);
        RowsThen(c, version, inDoBlock, conditional, BlockLeaves(c, s, i), rows,
                 Nest(guarded, Leaves(c, inner[i])), more);
        if more.Err? {
          BlockLeavesGrow(c, s, i + 1, |inner|);
          var all := BlockLeaves(c, s, |inner|);
          assert all[..|BlockLeaves(c, s, i + 1)|] == BlockLeaves(c, s, i + 1);
          RowsFailEarly(c, version, inDoBlock, conditional, all, |BlockLeaves(c, s, i + 1)|, more.error);
          return more;
        }
        rows := rows + more.value;
      }
      return Ok(rows);
    }
    var row := ResolveLeaf(c, Leaf(s, None, []), version, inDoBlock, conditional);
    OneMoreRow(c, version, inDoBlock, conditional, [], [], Leaf(s, None, []), row);
    assert [] + [Leaf(s, None, [])] == Leaves(c, s);
    if row.Err? {
      return Err(row.error);
    }
    assert [] + [row.value] == [row.value];
    return Ok([row.value]);
  }
}
