/** What the resolver's rows mean: where each comes from, how strong a block is, and when resolution fails. */
module LockResolveMeaning {
  import opened Options
  import opened LockModel
  import opened LockLoader
  import opened LockCatalog
  import opened LockResolve

  // ---- Origins by position ----

  /** The statement reached by taking inner statement `path[0]`, then `path[1]` of that, and so on. */
  function At(s: Stmt, path: seq<nat>): Option<Stmt> {
    if path == [] then Some(s)
    else if path[0] < |s.Inner()| then At(s.Inner()[path[0]], path[1..])
    else None
  }

  predicate IsInner(c: Catalog, s: Stmt) {
    c.ResolutionOf(StatementKind(s.kind)).InnerStatements?
  }

  /** The guards met on the way, when every block on it is one the catalog resolves by its inner statements. */
  function GuardsAlong(c: Catalog, s: Stmt, path: seq<nat>): Option<seq<bool>> {
    if path == [] then Some([])
    else if !IsInner(c, s) || path[0] >= |s.Inner()| then None
    else
      var rest := GuardsAlong(c, s.Inner()[path[0]], path[1..]);
      if rest.None? then None else Some([s.details.guarded] + rest.value)
  }

  predicate GivesRow(c: Catalog, leaf: Leaf) {
    match c.ResolutionOf(StatementKind(leaf.statement.kind))
    case Direct => leaf.action.None?
    case PerAction => leaf.action.Some? && leaf.action.value in leaf.statement.actions
    case InnerStatements => false
  }

  predicate OriginAt(c: Catalog, s: Stmt, path: seq<nat>, leaf: Leaf) {
    At(s, path) == Some(leaf.statement) && GuardsAlong(c, s, path) == Some(leaf.guards) && GivesRow(c, leaf)
  }

  ghost predicate HasOrigin(c: Catalog, s: Stmt, leaf: Leaf) {
    exists path: seq<nat> :: OriginAt(c, s, path, leaf)
  }

  /** An origin among the first `n` inner statements. */
  ghost predicate HasInnerOrigin(c: Catalog, s: Stmt, n: nat, leaf: Leaf) {
    exists path: seq<nat> :: path != [] && path[0] < n && OriginAt(c, s, path, leaf)
  }

  /** Origins are found at every depth and nowhere else, each with the guards of all the blocks around it. */
  lemma {:induction false} LeavesAreOrigins(c: Catalog, s: Stmt, leaf: Leaf)
    ensures leaf in Leaves(c, s) <==> HasOrigin(c, s, leaf)
    decreases s
  {
    if IsInner(c, s) {
      BlockOrigins(c, s, |s.Inner()|, leaf);
      if path: seq<nat> :| OriginAt(c, s, path, leaf) {
        assert path != [];
      }
    } else {
      if leaf in Leaves(c, s) {
        assert OriginAt(c, s, [], leaf);
      }
      if path: seq<nat> :| OriginAt(c, s, path, leaf) {
        if leaf.action.Some? {
          var k :| 0 <= k < |s.actions| && s.actions[k] == leaf.action.value;
          assert Leaves(c, s)[k] == leaf;
        }
      }
    }
  }

  lemma {:induction false} BlockOrigins(c: Catalog, s: Stmt, n: nat, leaf: Leaf)
    requires IsInner(c, s) && n <= |s.Inner()|
    ensures leaf in BlockLeaves(c, s, n) <==> HasInnerOrigin(c, s, n, leaf)
    decreases s, n
  {
    if n > 0 {
      BlockOrigins(c, s, n - 1, leaf);
      var inner := s.details.statements[n - 1];
      forall below ensures below in Leaves(c, inner) <==> HasOrigin(c, inner, below) {
        LeavesAreOrigins(c, inner, below);
      }
      hide OriginAt, Leaves, IsInner;
      LastInnerOrigin(c, s, n - 1, leaf);
      hide Nest;
    }
  }

  lemma LastInnerOrigin(c: Catalog, s: Stmt, k: nat, leaf: Leaf)
    requires IsInner(c, s) && k < |s.Inner()|
    requires forall below ::
               below in Leaves(c, s.details.statements[k]) <==> HasOrigin(c, s.details.statements[k], below)
    ensures leaf in Nest(s.details.guarded, Leaves(c, s.details.statements[k])) <==>
            exists path: seq<nat> :: path != [] && path[0] == k && OriginAt(c, s, path, leaf)
  {
    hide OriginAt, Leaves, IsInner;
    var inner, guarded := s.details.statements[k], s.details.guarded;
    var leaves := Leaves(c, inner);
    var nested := Nest(guarded, leaves);
    if leaf in nested {
      var i :| 0 <= i < |leaves| && nested[i] == leaf;
      assert HasOrigin(c, inner, leaves[i]);
      var path: seq<nat> :| OriginAt(c, inner, path, leaves[i]);
      OriginStep(c, s, k, path, leaves[i]);
      assert OriginAt(c, s, [k] + path, leaf);
    }
    if path: seq<nat> :| path != [] && path[0] == k && OriginAt(c, s, path, leaf) {
      GuardsOfFirst(c, s, path, leaf);
      var below := leaf.(guards := leaf.guards[1..]);
      assert path == [k] + path[1..];
      OriginStep(c, s, k, path[1..], below);
      assert HasOrigin(c, inner, below);
      var i :| 0 <= i < |leaves| && leaves[i] == below;
      assert nested[i] == leaf;
    }
  }

  lemma OriginStep(c: Catalog, s: Stmt, k: nat, path: seq<nat>, below: Leaf)
    requires IsInner(c, s) && k < |s.Inner()|
    ensures OriginAt(c, s.details.statements[k], path, below) <==>
            OriginAt(c, s, [k] + path, below.(guards := [s.details.guarded] + below.guards))
  {
    assert ([k] + path)[1..] == path;
    var rest := GuardsAlong(c, s.details.statements[k], path);
    if rest.Some? {
      assert ([s.details.guarded] + rest.value)[1..] == rest.value;
      assert ([s.details.guarded] + below.guards)[1..] == below.guards;
    }
  }

  lemma GuardsOfFirst(c: Catalog, s: Stmt, path: seq<nat>, leaf: Leaf)
    requires path != [] && OriginAt(c, s, path, leaf)
    ensures s.details.DoBlock? && leaf.guards != [] && leaf.guards == [s.details.guarded] + leaf.guards[1..]
  {}

  // ---- One answer ----

  lemma OneRow(c: Catalog, version: int, inDoBlock: bool, conditional: bool, leaf: Leaf,
               x: Result<ResolvedLock, Failure>, y: Result<ResolvedLock, Failure>)
    requires RowOf(c, version, inDoBlock, conditional, leaf, x)
    requires RowOf(c, version, inDoBlock, conditional, leaf, y)
    ensures x == y
  {
    hide Lookup, IrAttrs, Missing, RelationsUpTo;
  }

  /** The description of the outcome leaves no choice. */
  lemma OneOutcome(c: Catalog, version: int, inDoBlock: bool, conditional: bool, leaves: seq<Leaf>,
                   a: Result<seq<ResolvedLock>, Failure>, b: Result<seq<ResolvedLock>, Failure>)
    requires RowsAre(c, version, inDoBlock, conditional, leaves, a)
    requires RowsAre(c, version, inDoBlock, conditional, leaves, b)
    ensures a == b
  {
    forall leaf: Leaf, x: Result<ResolvedLock, Failure>, y: Result<ResolvedLock, Failure>
      | RowOf(c, version, inDoBlock, conditional, leaf, x) && RowOf(c, version, inDoBlock, conditional, leaf, y)
      ensures x == y
    {
      OneRow(c, version, inDoBlock, conditional, leaf, x, y);
    }
    hide RowOf;
    if a.Ok? && b.Ok? {
      assert forall i :: 0 <= i < |leaves| ==> RowOf(c, version, inDoBlock, conditional, leaves[i], Ok(a.value[i]));
      assert a.value == b.value;
    }
  }

  /** What the first origin has; if that is a failure, it is the outcome. */
  lemma FirstOutcome(c: Catalog, version: int, inDoBlock: bool, conditional: bool, leaves: seq<Leaf>,
                     result: Result<seq<ResolvedLock>, Failure>) returns (first: Result<ResolvedLock, Failure>)
    requires RowsAre(c, version, inDoBlock, conditional, leaves, result) && leaves != []
    ensures RowOf(c, version, inDoBlock, conditional, leaves[0], first)
    ensures first.Err? ==> result == Err(first.error)
  {
    hide RowOf;
    match result
    case Ok(rows) => first := Ok(rows[0]);
    case Err(failure) =>
      first := Err(failure);
      if !RowOf(c, version, inDoBlock, conditional, leaves[0], first) {
        assert HasRow(c, version, inDoBlock, conditional, leaves[0]);
        var row :| RowOf(c, version, inDoBlock, conditional, leaves[0], Ok(row));
        first := Ok(row);
      }
  }

  /** A version outside the catalog's domain and a kind without direct rows are refused at the first origin. */
  lemma RefusedAtOnce(c: Catalog, version: int, inDoBlock: bool, conditional: bool, leaves: seq<Leaf>,
                      result: Result<seq<ResolvedLock>, Failure>)
    requires RowsAre(c, version, inDoBlock, conditional, leaves, result) && leaves != []
    ensures !(c.domain.min <= version <= c.domain.max) ==> result == Err(BadVersion)
    ensures c.domain.min <= version <= c.domain.max && c.RowsFor(leaves[0].LookupKind()).None? ==>
              result == Err(NoRows)
  {
    var first := FirstOutcome(c, version, inDoBlock, conditional, leaves, result);
    hide RowsAre, RelationsAre, EntryFor, IrAttrs, Catalog.RowsFor, Leaf.LookupKind;
  }

  // ---- The lock of a whole statement ----

  function Modes(rows: seq<ResolvedLock>): (modes: seq<LockMode>)
    ensures |modes| == |rows|
  {
    seq(|rows|, i requires 0 <= i < |rows| => rows[i].entry.mode)
  }

  /** The strongest lock over the rows; no lock without rows. */
  function StatementLockMode(rows: seq<ResolvedLock>): LockMode {
    Strongest(Modes(rows))
  }

  function Concat(parts: seq<seq<ResolvedLock>>): seq<ResolvedLock> {
    if parts == [] then [] else Concat(parts[..|parts| - 1]) + parts[|parts| - 1]
  }

  function PartModes(parts: seq<seq<ResolvedLock>>): (modes: seq<LockMode>)
    ensures |modes| == |parts|
  {
    seq(|parts|, i requires 0 <= i < |parts| => StatementLockMode(parts[i]))
  }

  /** The strongest of two lists is the stronger of their strongest. */
  lemma StrongestOfBoth(a: seq<LockMode>, b: seq<LockMode>)
    ensures Strongest(a + b) == Strongest([Strongest(a), Strongest(b)])
  {
    var both, split := Strongest(a + b), Strongest([Strongest(a), Strongest(b)]);
    assert NoLock.Level() == 0;
    var pair := [Strongest(a), Strongest(b)];
    assert split in pair && pair[0] in pair && pair[1] in pair;
    hide Strongest, LockMode.Level;
    assert forall m <- a :: m in a + b;
    assert forall m <- b :: m in a + b;
    LevelIsInjective(both, split);
  }

  lemma StrongestOne(m: LockMode)
    ensures Strongest([m]) == m
  {}

  lemma {:induction false} StrongestPart(parts: seq<seq<ResolvedLock>>)
    ensures StatementLockMode(Concat(parts)) == Strongest(PartModes(parts))
  {
    hide Strongest, LockMode.Level;
    if parts == [] {
      assert Modes(Concat(parts)) == PartModes(parts);
    } else {
      var n := |parts| - 1;
      var last := StatementLockMode(parts[n]);
      assert PartModes(parts) == PartModes(parts[..n]) + [last];
      hide PartModes, StatementLockMode;
      StrongestPart(parts[..n]);
      ModesOfBoth(Concat(parts[..n]), parts[n]);
      StrongestOne(last);
      StrongestOfBoth(PartModes(parts[..n]), [last]);
    }
  }

  lemma ModesOfBoth(a: seq<ResolvedLock>, b: seq<ResolvedLock>)
    ensures StatementLockMode(a + b) == Strongest([StatementLockMode(a), StatementLockMode(b)])
  {
    hide Strongest, LockMode.Level;
    assert Modes(a + b) == Modes(a) + Modes(b);
    StrongestOfBoth(Modes(a), Modes(b));
  }

  /** Each part holds the rows of one inner statement, resolved on its own. */
  ghost predicate PartsAre(c: Catalog, version: int, conditional: bool, s: Stmt, n: nat, parts: seq<seq<ResolvedLock>>)
    requires n <= |s.Inner()|
  {
    |parts| == n
    && forall i :: 0 <= i < n ==>
         RowsAre(c, version, true, conditional || s.details.guarded, Leaves(c, s.details.statements[i]), Ok(parts[i]))
  }

  /** A block is locked as strongly as the strongest of its inner statements, and its rows are theirs in order. */
  lemma BlockTakesTheStrongestInnerLock(
      c: Catalog, version: int, inDoBlock: bool, conditional: bool, s: Stmt, rows: seq<ResolvedLock>)
    requires IsInner(c, s)
    requires RowsAre(c, version, inDoBlock, conditional, Leaves(c, s), Ok(rows))
    ensures exists parts :: PartsAre(c, version, conditional, s, |s.Inner()|, parts)
              && rows == Concat(parts) && StatementLockMode(rows) == Strongest(PartModes(parts))
  {
    hide RowsAre, StatementLockMode, PartModes;
    var parts := BlockParts(c, version, inDoBlock, conditional, s, |s.Inner()|, rows);
    StrongestPart(parts);
  }

  lemma {:induction false} BlockParts(c: Catalog, version: int, inDoBlock: bool, conditional: bool, s: Stmt, n: nat,
                                      rows: seq<ResolvedLock>) returns (parts: seq<seq<ResolvedLock>>)
    requires IsInner(c, s) && n <= |s.Inner()|
    requires RowsAre(c, version, inDoBlock, conditional, BlockLeaves(c, s, n), Ok(rows))
    ensures PartsAre(c, version, conditional, s, n, parts) && rows == Concat(parts)
  {
    hide RowOf, Nest;
    parts := [];
    if n > 0 {
      var before, here := BlockLeaves(c, s, n - 1), Leaves(c, s.details.statements[n - 1]);
      var k := |before|;
      var nested := Nest(s.details.guarded, here);
      assert BlockLeaves(c, s, n) == before + nested;
      hide *;
      SplitRows(c, version, inDoBlock, conditional, before, nested, rows);
      var first := BlockParts(c, version, inDoBlock, conditional, s, n - 1, rows[..k]);
      UnnestRows(c, version, inDoBlock, conditional, s.details.guarded, here, rows[k..]);
      parts := first + [rows[k..]];
      OneMorePart(c, version, conditional, s, n - 1, first, rows[k..]);
      assert rows == rows[..k] + rows[k..];
    }
  }

  lemma OneMorePart(c: Catalog, version: int, conditional: bool, s: Stmt, n: nat,
                    parts: seq<seq<ResolvedLock>>, last: seq<ResolvedLock>)
    requires n < |s.Inner()| && PartsAre(c, version, conditional, s, n, parts)
    requires RowsAre(c, version, true, conditional || s.details.guarded, Leaves(c, s.details.statements[n]), Ok(last))
    ensures PartsAre(c, version, conditional, s, n + 1, parts + [last])
    ensures Concat(parts + [last]) == Concat(parts) + last
  {
    hide RowsAre, Leaves;
    assert (parts + [last])[..n] == parts;
  }

  lemma SplitRows(c: Catalog, version: int, inDoBlock: bool, conditional: bool, a: seq<Leaf>, b: seq<Leaf>,
                  rows: seq<ResolvedLock>)
    requires RowsAre(c, version, inDoBlock, conditional, a + b, Ok(rows))
    ensures |rows| == |a| + |b|
    ensures RowsAre(c, version, inDoBlock, conditional, a, Ok(rows[..|a|]))
    ensures RowsAre(c, version, inDoBlock, conditional, b, Ok(rows[|a|..]))
  {
    hide RowOf;
    assert forall i :: 0 <= i < |a| ==> (a + b)[i] == a[i];
    assert forall i :: 0 <= i < |b| ==> (a + b)[|a| + i] == b[i];
  }

  lemma UnnestRows(c: Catalog, version: int, inDoBlock: bool, conditional: bool, guarded: bool, leaves: seq<Leaf>,
                   rows: seq<ResolvedLock>)
    requires RowsAre(c, version, inDoBlock, conditional, Nest(guarded, leaves), Ok(rows))
    ensures RowsAre(c, version, true, conditional || guarded, leaves, Ok(rows))
  {
    hide RowOf;
    forall i | 0 <= i < |leaves| ensures RowOf(c, version, true, conditional || guarded, leaves[i], Ok(rows[i])) {
      NestedRow(c, version, inDoBlock, conditional, guarded, leaves[i]);
      assert RowOf(c, version, inDoBlock, conditional, Nest(guarded, leaves)[i], Ok(rows[i]));
    }
  }

  // ---- Rows of a sound catalog ----

  predicate Known(leaf: Leaf, names: Names) {
    match leaf.LookupKind()
    case StatementKind(name) => name in names.statements
    case ActionKind(name) => name in names.actions
  }

  /** Some required relation of the row is not named by the statement. */
  predicate LacksRelation(e: Entry, leaf: Leaf) {
    exists a <- e.affected :: Missing(a, leaf.statement, leaf.action)
  }

  predicate HasTarget(affected: seq<AffectedRelation>) {
    exists a <- affected :: a.role == "target"
  }

  /** What a caller may rely on in one relation lock of a row. */
  ghost predicate LockIsFaithful(c: Catalog, e: Entry, lock: RelationLock) {
    && (lock.role == "target" ==>
          && lock.mode == e.mode
          && lock.blocksReads == e.blocksReads
          && (lock.blocksWrites ==> e.blocksWrites))
    && (lock.name.None? ==> Unresolvable(lock.role))
    && (lock.name.Some? ==> lock.certain)
    && lock.blocksReads == (AccessShare in ConflictsWith(c.matrix, lock.mode))
    && lock.blocksWrites == (RowExclusive in ConflictsWith(c.matrix, lock.mode))
    && exists a <- e.affected ::
         && a.role == lock.role && a.mode == lock.mode && (lock.certain <==> a.resolvable || !a.optional)
         && (!HasTarget(e.affected) && !a.optional ==> lock.mode.Level() <= e.mode.Level())
  }

  lemma LocksAreFaithful(c: Catalog, e: Entry, s: Stmt, action: Option<Action>, lock: RelationLock)
    requires EntrySound(e, c.domain, c.matrix)
    requires lock in RelationsUpTo(c, e.affected, |e.affected|, s, action)
    ensures LockIsFaithful(c, e, lock)
  {
    LockedIffNamed(c, e.affected, |e.affected|, s, action, lock);
    hide BlockingSound, RelationsUpTo, ConflictsWith, LockMode.Level, NamesForRole, Unresolvable, KnownRole;
    var i, name :| 0 <= i < |e.affected| && name in NamesOf(e.affected[i], s, action)
                   && lock == LockOf(c, e.affected[i], name);
    var a := e.affected[i];
    assert a in e.affected;
    NameableRoleIsNamed(a.role, s, action);
    hide NamesOf, EntrySound;
    BlockingOfEntry(c, e);
  }

  lemma BlockingOfEntry(c: Catalog, e: Entry)
    requires EntrySound(e, c.domain, c.matrix)
    ensures e.blocksReads == (AccessShare in ConflictsWith(c.matrix, e.mode))
    ensures RowExclusive in ConflictsWith(c.matrix, e.mode) ==> e.blocksWrites
  {}

  /** Only the roles a statement cannot name give locks without a name. */
  lemma NameableRoleIsNamed(role: string, s: Stmt, action: Option<Action>)
    requires KnownRole(role)
    ensures !Unresolvable(role) ==> None !in NamesForRole(role, s, action)
  {
    hide Unresolvable;
  }

  lemma LeafIsDirect(c: Catalog, names: Names, s: Stmt, leaf: Leaf)
    requires leaf in Leaves(c, s) && Known(leaf, names)
    ensures DirectKind(c, names, leaf.LookupKind())
  {
    LeavesAreOrigins(c, s, leaf);
    hide Leaves;
    var path: seq<nat> :| OriginAt(c, s, path, leaf);
  }

  /** In a loaded catalog a row is the answer to its own lookup, and its locks agree with the accepted entry. */
  lemma RowsAreFaithful(c: Catalog, names: Names, s: Stmt, version: int, inDoBlock: bool, conditional: bool,
                        rows: seq<ResolvedLock>, i: nat)
    requires Sound(c, names) && c.domain.Covers(version)
    requires RowsAre(c, version, inDoBlock, conditional, Leaves(c, s), Ok(rows)) && i < |rows|
    requires Known(Leaves(c, s)[i], names)
    ensures var leaf := Leaves(c, s)[i];
            && c.RowsFor(leaf.LookupKind()).Some?
            && Answers(c.RowsFor(leaf.LookupKind()).value, version, IrAttrs(leaf.statement, leaf.action), rows[i].entry)
    ensures forall lock <- rows[i].relations :: LockIsFaithful(c, rows[i].entry, lock)
  {
    var leaf := Leaves(c, s)[i];
    LeafIsDirect(c, names, s, leaf);
    hide Sound, Answers, EntrySound, LockIsFaithful, DirectKind, Leaves, EntryFor, RelationsUpTo, IrAttrs, Missing,
      Catalog.RowsFor, Leaf.LookupKind, LockMode.Level;
    var attrs := IrAttrs(leaf.statement, leaf.action);
    LoadedLookupsSucceed(c, names, leaf.LookupKind(), version, attrs);
    assert RowOf(c, version, inDoBlock, conditional, leaf, Ok(rows[i]));
    var affected := rows[i].entry.affected;
    assert rows[i].relations == RelationsUpTo(c, affected, |affected|, leaf.statement, leaf.action);
    hide RowOf, RowsAre, Known, Lookup;
    forall lock <- rows[i].relations ensures LockIsFaithful(c, rows[i].entry, lock) {
      LocksAreFaithful(c, rows[i].entry, leaf.statement, leaf.action, lock);
    }
  }

  /** An action's row comes from the rows of its own kind, any other statement's from those of the statement's kind. */
  lemma RowsComeFromTheirTables(c: Catalog, names: Names, s: Stmt, version: int, inDoBlock: bool, conditional: bool,
                                rows: seq<ResolvedLock>, i: nat)
    requires Sound(c, names) && c.domain.Covers(version)
    requires RowsAre(c, version, inDoBlock, conditional, Leaves(c, s), Ok(rows)) && i < |rows|
    requires Known(Leaves(c, s)[i], names)
    ensures match Leaves(c, s)[i].action
            case None => var kind := Leaves(c, s)[i].statement.kind;
                         kind in c.statements && rows[i].entry in c.statements[kind]
            case Some(action) => action.kind in c.actions && rows[i].entry in c.actions[action.kind]
  {
    var leaf := Leaves(c, s)[i];
    LeafIsDirect(c, names, s, leaf);
    hide Sound, Leaves, EntryFor, IrAttrs, Answers, EntrySound, DirectKind, RelationsAre;
    LoadedLookupsSucceed(c, names, leaf.LookupKind(), version, IrAttrs(leaf.statement, leaf.action));
    assert RowOf(c, version, inDoBlock, conditional, leaf, Ok(rows[i]));
  }

  /** The loader takes a role as resolvable exactly when the resolver has a way to name its relations. */
  lemma ResolvableIffNameable(role: string)
    ensures KnownRole(role) && !Unresolvable(role) <==>
            exists s: Stmt, action: Option<Action> :: NamesForRole(role, s, action) != [None]
  {
    var bare := Stmt("", [], [], NoDetails, map[]);
    if KnownRole(role) && !Unresolvable(role) {
      assert NamesForRole(role, bare, None) == [];
    }
  }

  // ---- Which relation each role names ----

  /** The names of the locks taken in a role, in order. */
  function NamesHeld(locks: seq<RelationLock>, role: string): seq<Option<Name>> {
    if locks == [] then []
    else
      var last := locks[|locks| - 1];
      NamesHeld(locks[..|locks| - 1], role) + (if last.role == role then [last.name] else [])
  }

  predicate AreNames(held: seq<Option<Name>>, names: seq<Name>) {
    |held| == |names| && forall i :: 0 <= i < |names| ==> held[i] == Some(names[i])
  }

  /** One name when the field is given, none when it is not. */
  predicate IsField(held: seq<Option<Name>>, field: Option<Name>) {
    if field.None? then held == [] else held == [field]
  }

  /** What the statement, or the action, gives for a role. */
  predicate NamedAsGiven(held: seq<Option<Name>>, role: string, s: Stmt, action: Option<Action>) {
    match role
    case "target" => IsField(held, if s.targets == [] then None else Some(s.targets[0]))
    case "additional_targets" => AreNames(held, if s.targets == [] then [] else s.targets[1..])
    case "referenced_table" => IsField(held, if action.Some? then action.value.referenced else None)
    case "partition" => IsField(held, if action.Some? then action.value.partition else None)
    case "referenced_tables" => AreNames(held, if s.details.CreateTable? then s.details.referenced else [])
    case "parent" => IsField(held, if s.details.CreateTable? then s.details.partitionOf else None)
    case _ => held == [None]
  }

  lemma {:induction false} HeldAppend(a: seq<RelationLock>, b: seq<RelationLock>, role: string)
    ensures NamesHeld(a + b, role) == NamesHeld(a, role) + NamesHeld(b, role)
  {
    if b == [] {
      assert a + b == a;
    } else {
      var n := |b| - 1;
      assert (a + b)[..|a| + n] == a + b[..n];
      HeldAppend(a, b[..n], role);
    }
  }

  lemma {:induction false} HeldOfOne(c: Catalog, a: AffectedRelation, names: seq<Option<Name>>, role: string)
    ensures NamesHeld(LocksOf(c, a, names), role) == if a.role == role then names else []
  {
    if names != [] {
      var n := |names| - 1;
      assert LocksOf(c, a, names)[..n] == LocksOf(c, a, names[..n]);
      HeldOfOne(c, a, names[..n], role);
      assert names == names[..n] + [names[n]];
    }
  }

  /** Where no other relation has its role, the locks of a relation's role are those its own names give. */
  lemma {:induction false} HeldUpTo(
      c: Catalog, affected: seq<AffectedRelation>, n: nat, s: Stmt, action: Option<Action>, i: nat)
    requires n <= |affected| && i < |affected|
    requires forall j :: 0 <= j < |affected| && j != i ==> affected[j].role != affected[i].role
    ensures NamesHeld(RelationsUpTo(c, affected, n, s, action), affected[i].role) ==
            if i < n then NamesOf(affected[i], s, action) else []
  {
    hide NamesHeld, RelationsUpTo, NamesOf, LocksOf;
    if n == 0 {
      HeldByNone(c, affected, s, action, affected[i].role);
    } else {
      HeldUpTo(c, affected, n - 1, s, action, i);
      HeldByNext(c, affected, n - 1, s, action, affected[i].role);
    }
  }

  lemma HeldByNone(c: Catalog, affected: seq<AffectedRelation>, s: Stmt, action: Option<Action>, role: string)
    ensures NamesHeld(RelationsUpTo(c, affected, 0, s, action), role) == []
  {}

  lemma HeldByNext(
      c: Catalog, affected: seq<AffectedRelation>, n: nat, s: Stmt, action: Option<Action>, role: string)
    requires n < |affected|
    ensures NamesHeld(RelationsUpTo(c, affected, n + 1, s, action), role) ==
            NamesHeld(RelationsUpTo(c, affected, n, s, action), role)
            + if affected[n].role == role then NamesOf(affected[n], s, action) else []
  {
    hide NamesHeld, NamesOf, LocksOf;
    var names := NamesOf(affected[n], s, action);
    HeldAppend(RelationsUpTo(c, affected, n, s, action), LocksOf(c, affected[n], names), role);
    HeldOfOne(c, affected[n], names, role);
  }

  lemma GivenNames(role: string, s: Stmt, action: Option<Action>)
    requires !Unresolvable(role)
    ensures NamedAsGiven(NamesForRole(role, s, action), role, s, action)
  {}

  lemma UnresolvableHasNoName(role: string, s: Stmt, action: Option<Action>)
    requires Unresolvable(role)
    ensures NamedAsGiven([None], role, s, action)
  {}

  /** In a loaded catalog each row's locks name exactly what the statement or the action gives for their role. */
  lemma RowsNameTheirRelations(c: Catalog, names: Names, s: Stmt, version: int, inDoBlock: bool, conditional: bool,
                               rows: seq<ResolvedLock>, i: nat, a: AffectedRelation)
    requires Sound(c, names) && c.domain.Covers(version)
    requires RowsAre(c, version, inDoBlock, conditional, Leaves(c, s), Ok(rows)) && i < |rows|
    requires Known(Leaves(c, s)[i], names) && a in rows[i].entry.affected
    ensures var leaf := Leaves(c, s)[i];
            NamedAsGiven(NamesHeld(rows[i].relations, a.role), a.role, leaf.statement, leaf.action)
  {
    var leaf := Leaves(c, s)[i];
    LeafIsDirect(c, names, s, leaf);
    hide Sound, Answers, DirectKind, Leaves, EntryFor, RelationsUpTo, IrAttrs, Missing, NamedAsGiven, NamesHeld,
      Catalog.RowsFor, Leaf.LookupKind, LockMode.Level, BlockingSound, RelationsSound;
    LoadedLookupsSucceed(c, names, leaf.LookupKind(), version, IrAttrs(leaf.statement, leaf.action));
    assert RowOf(c, version, inDoBlock, conditional, leaf, Ok(rows[i]));
    var affected := rows[i].entry.affected;
    assert rows[i].relations == RelationsUpTo(c, affected, |affected|, leaf.statement, leaf.action);
    hide RowOf, RowsAre, Known, Lookup, RelationsAre;
    RolesAreNamed(c, affected, rows[i].entry.mode, leaf.statement, leaf.action, a);
  }

  lemma RolesAreNamed(c: Catalog, affected: seq<AffectedRelation>, mode: LockMode, s: Stmt, action: Option<Action>,
                      a: AffectedRelation)
    requires RelationsSound(affected, mode) && a in affected
    ensures NamedAsGiven(NamesHeld(RelationsUpTo(c, affected, |affected|, s, action), a.role), a.role, s, action)
  {
    hide RelationsUpTo, NamedAsGiven, NamesHeld, NamesForRole, Unresolvable, KnownRole, LockMode.Level;
    var k :| 0 <= k < |affected| && affected[k] == a;
    HeldUpTo(c, affected, |affected|, s, action, k);
    if Unresolvable(a.role) {
      UnresolvableHasNoName(a.role, s, action);
    } else {
      GivenNames(a.role, s, action);
    }
  }

  /** The entry a leaf is looked up to in a loaded catalog. */
  function EntryOf(c: Catalog, leaf: Leaf, version: int): Option<Entry> {
    match Lookup(c, leaf.LookupKind(), version, IrAttrs(leaf.statement, leaf.action))
    case Ok(e) => Some(e)
    case Err(_) => None
  }

  /** In a loaded catalog resolution fails exactly when a row requires a relation that its statement does not name. */
  lemma FailsIffARelationIsMissing(c: Catalog, names: Names, s: Stmt, version: int, inDoBlock: bool, conditional: bool,
                                   result: Result<seq<ResolvedLock>, Failure>)
    requires Sound(c, names) && c.domain.Covers(version)
    requires forall leaf <- Leaves(c, s) :: Known(leaf, names)
    requires RowsAre(c, version, inDoBlock, conditional, Leaves(c, s), result)
    ensures result.Err? ==> result.error.MissingRelation?
    ensures result.Err? <==> exists leaf <- Leaves(c, s) ::
              EntryOf(c, leaf, version).Some? && LacksRelation(EntryOf(c, leaf, version).value, leaf)
  {
    forall leaf <- Leaves(c, s) ensures EntryOf(c, leaf, version).Some? {
      LeafIsDirect(c, names, s, leaf);
      hide *;
      hide Sound;
      LoadedLookupsSucceed(c, names, leaf.LookupKind(), version, IrAttrs(leaf.statement, leaf.action));
    }
    hide *;
    var leaves := Leaves(c, s);
    if result.Ok? {
      forall leaf <- leaves ensures !LacksRelation(EntryOf(c, leaf, version).value, leaf) {
        var i :| 0 <= i < |leaves| && leaves[i] == leaf;
        RowFails(c, version, inDoBlock, conditional, leaf, Ok(result.value[i]));
      }
    } else {
      var i :| 0 <= i < |leaves| && RowOf(c, version, inDoBlock, conditional, leaves[i], Err(result.error));
      RowFails(c, version, inDoBlock, conditional, leaves[i], Err(result.error));
      assert leaves[i] in leaves;
    }
  }

  lemma RowFails(c: Catalog, version: int, inDoBlock: bool, conditional: bool, leaf: Leaf,
                 result: Result<ResolvedLock, Failure>)
    requires RowOf(c, version, inDoBlock, conditional, leaf, result) && EntryOf(c, leaf, version).Some?
    ensures result.Err? <==> LacksRelation(EntryOf(c, leaf, version).value, leaf)
    ensures result.Err? ==> result.error.MissingRelation?
  {
    hide Lookup, IrAttrs, Missing, RelationsUpTo;
  }

  // ---- Kinds ----

  /** Kinds of a statement and of everything inside it, the outer first. */
  function KindsIn(s: Stmt): seq<string>
    decreases s, |s.Inner()| + 1
  {
    [s.kind] + KindsInside(s, |s.Inner()|)
  }

  function KindsInside(s: Stmt, n: nat): seq<string>
    requires n <= |s.Inner()|
    decreases s, n
  {
    if n == 0 then [] else KindsInside(s, n - 1) + KindsIn(s.details.statements[n - 1])
  }

  method CollectKinds(s: Stmt) returns (kinds: seq<string>)
    ensures kinds == KindsIn(s)
    decreases s
  {
    kinds := [s.kind];
    if s.details.DoBlock? {
      for i := 0 to |s.details.statements|
        invariant kinds == [s.kind] + KindsInside(s, i)
      {
        var inner := CollectKinds(s.details.statements[i]);
        kinds := kinds + inner;
      }
    }
  }

  predicate KindAt(s: Stmt, path: seq<nat>, kind: string) {
    At(s, path).Some? && At(s, path).value.kind == kind
  }

  ghost predicate HasKind(s: Stmt, kind: string) {
    exists path: seq<nat> :: KindAt(s, path, kind)
  }

  ghost predicate HasKindInside(s: Stmt, n: nat, kind: string) {
    exists path: seq<nat> :: path != [] && path[0] < n && KindAt(s, path, kind)
  }

  /** A kind is listed exactly when some statement at some depth has it. */
  lemma {:induction false} KindsAreReachable(s: Stmt, kind: string)
    ensures kind in KindsIn(s) <==> HasKind(s, kind)
    decreases s, |s.Inner()| + 1
  {
    KindsInsideReachable(s, |s.Inner()|, kind);
    assert KindAt(s, [], s.kind);
    if path: seq<nat> :| KindAt(s, path, kind) {
      assert path != [] ==> path[0] < |s.Inner()|;
    }
  }

  lemma {:induction false} KindsInsideReachable(s: Stmt, n: nat, kind: string)
    requires n <= |s.Inner()|
    ensures kind in KindsInside(s, n) <==> HasKindInside(s, n, kind)
    decreases s, n
  {
    if n > 0 {
      KindsInsideReachable(s, n - 1, kind);
      var inner := s.details.statements[n - 1];
      KindsAreReachable(inner, kind);
      if path: seq<nat> :| KindAt(inner, path, kind) {
        assert ([n - 1] + path)[1..] == path;
        assert KindAt(s, [n - 1] + path, kind);
      }
      if path: seq<nat> :| path != [] && path[0] == n - 1 && KindAt(s, path, kind) {
        assert KindAt(inner, path[1..], kind);
      }
    }
  }
}
