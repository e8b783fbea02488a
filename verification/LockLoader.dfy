/** Load-time validation of the lock catalog (`catalog/loader.py`), on decoded and typed data. */
module LockLoader {
  import opened Options
  import opened LockModel

  // ---- The conflict matrix ----

  /** A row for every table lock mode and no other, and conflicts both ways. */
  predicate SymmetricMatrix(m: Matrix) {
    && m.Keys == TABLE_LOCK_MODES
    && forall mode <- m :: forall other <- m[mode] :: other in m && mode in m[other]
  }

  function RowsOf(raw: map<LockMode, seq<LockMode>>): Matrix {
    map mode | mode in raw :: set other <- raw[mode] :: other
  }

  /** Every table lock mode has a row and no other mode has; whatever a row lists has a row that lists it back. */
  lemma SymmetricIff(raw: map<LockMode, seq<LockMode>>)
    ensures SymmetricMatrix(RowsOf(raw)) <==>
            raw.Keys == TABLE_LOCK_MODES && forall a <- raw, b <- raw[a] :: b in raw && a in raw[b]
  {
    var m := RowsOf(raw);
    hide TABLE_LOCK_MODES;
    assert forall a, b :: a in m && b in m[a] <==> a in raw && b in raw[a];
  }

  /** A row that conflicts with a mode outside the matrix fails the lookup in the symmetry check. */
  method ParseConflictMatrix(raw: map<LockMode, seq<LockMode>>) returns (matrix: Option<Matrix>)
    ensures matrix == if SymmetricMatrix(RowsOf(raw)) then Some(RowsOf(raw)) else None
  {
    var m: Matrix := map[];
    var todo := raw.Keys;
    while todo != {}
      invariant todo <= raw.Keys && m.Keys == raw.Keys - todo
      invariant forall mode <- m :: m[mode] == RowsOf(raw)[mode]
      decreases todo
    {
      var mode :| mode in todo;
      if !mode.IsTableLock() {
        NotATableLock(RowsOf(raw), mode);
        return None;
      }
      m := m[mode := set other <- raw[mode] :: other];
      todo := todo - {mode};
    }
    assert m == RowsOf(raw);
    return if SymmetricMatrix(m) then Some(m) else None;
  }

  lemma NotATableLock(m: Matrix, mode: LockMode)
    requires mode in m && !mode.IsTableLock()
    ensures !SymmetricMatrix(m)
  {}

  // ---- Affected relations ----

  /** Roles the statement itself cannot name. */
  predicate Unresolvable(role: string) {
    role in {
      "owning_table", "source_relations", "dependent_relations", "referencing_tables", "domain_dependent_tables",
      "owned_sequences", "all_partitions"}
  }

  predicate KnownRole(role: string) {
    || Unresolvable(role)
    || role in {"target", "additional_targets", "referenced_table", "referenced_tables", "partition", "parent"}
  }

  datatype RawAffected = RawAffected(role: string, mode: LockMode, optional: bool, resolvable: Option<bool>)

  predicate RoleOk(a: RawAffected) {
    KnownRole(a.role) && (a.resolvable.Some? ==> a.resolvable.value == !Unresolvable(a.role))
  }

  predicate RolesOk(raw: seq<RawAffected>) {
    && (forall i :: 0 <= i < |raw| ==> RoleOk(raw[i]))
    && (forall i, j :: 0 <= i < j < |raw| ==> raw[i].role != raw[j].role)
  }

  function ToAffected(a: RawAffected): AffectedRelation {
    AffectedRelation(a.role, a.mode, a.optional, !Unresolvable(a.role))
  }

  function AllToAffected(raw: seq<RawAffected>): (r: seq<AffectedRelation>)
    ensures |r| == |raw| && forall i :: 0 <= i < |r| ==> r[i] == ToAffected(raw[i])
  {
    seq(|raw|, i requires 0 <= i < |raw| => ToAffected(raw[i]))
  }

  /** None is a rejection; an omitted list means the target takes the entry's own lock. */
  function Affected(raw: Option<seq<RawAffected>>, mode: LockMode): Option<seq<AffectedRelation>> {
    if raw.None? then Some([AffectedRelation("target", mode, false, true)])
    else if RolesOk(raw.value) then Some(AllToAffected(raw.value))
    else None
  }

  method ParseAffected(raw: Option<seq<RawAffected>>, mode: LockMode) returns (affected: Option<seq<AffectedRelation>>)
    ensures affected == Affected(raw, mode)
  {
    hide KnownRole, Unresolvable;
    if raw.None? {
      return Some([AffectedRelation("target", mode, false, true)]);
    }
    var items := raw.value;
    var result: seq<AffectedRelation>, seen: set<string> := [], {};
    for i := 0 to |items|
      invariant forall role :: role in seen <==> exists j :: 0 <= j < i && items[j].role == role
      invariant forall j :: 0 <= j < i ==> RoleOk(items[j])
      invariant forall j, k :: 0 <= j < k < i ==> items[j].role != items[k].role
      invariant |result| == i && forall j :: 0 <= j < i ==> result[j] == ToAffected(items[j])
    {
      var item := items[i];
      if !KnownRole(item.role) || item.role in seen {
        return None;
      }
      var resolvable := if item.resolvable.Some? then item.resolvable.value else !Unresolvable(item.role);
      if Unresolvable(item.role) == resolvable {
        return None;
      }
      seen := seen + {item.role};
      result := result + [AffectedRelation(item.role, item.mode, item.optional, resolvable)];
    }
    assert result == AllToAffected(items);
    return Some(result);
  }

  // ---- One row ----

  datatype Calibration = Calibrated | Uncalibrated | Measured

  datatype Duration = ConstantTime | Proportional | UnknownDuration

  /** Optional texts are reduced to whether they are present; `cited` is a source with a recognised prefix. */
  datatype RawEntry = RawEntry(
    versions: VersionRange, calibration: Calibration, available: bool, mode: LockMode,
    blocksReads: bool, blocksWrites: bool, rewrite: bool, duration: Duration,
    live: bool, liveContext: bool, transactionAllowed: bool, failureMode: bool, rowLocks: bool, notes: bool,
    affected: Option<seq<RawAffected>>, when_: Option<When>, sourced: bool, cited: bool, scope: Option<Scope>)

  predicate UnknownAllowed(kind: Kind) {
    kind in {StatementKind("other"), ActionKind("other"), ActionKind("add_constraint_other")}
  }

  predicate FormOk(raw: RawEntry, domain: VersionRange, attributes: set<string>) {
    && raw.versions.min <= raw.versions.max && domain.Covers(raw.versions.min) && domain.Covers(raw.versions.max)
    && !raw.calibration.Measured?
    && (raw.when_.Some? ==> raw.when_.value != [] && forall item <- raw.when_.value :: item.0 in attributes)
    && raw.sourced
  }

  predicate CommitmentsOk(kind: Kind, raw: RawEntry) {
    && (raw.mode.UnknownLock? || raw.duration.UnknownDuration? ==>
          UnknownAllowed(kind) && raw.calibration.Uncalibrated?)
    && (raw.mode.UnknownLock? ==> raw.blocksReads && raw.blocksWrites)
    && (raw.calibration.Calibrated? ==> raw.cited)
    && (!raw.available ==> raw.mode.NoLock? && raw.failureMode && raw.duration.ConstantTime? && !raw.rewrite)
    && raw.live == raw.liveContext
    && (!raw.transactionAllowed ==> raw.notes || raw.failureMode)
  }

  predicate BlockingOk(raw: RawEntry, conflicts: set<LockMode>) {
    if raw.mode.IsTableLock() then
      raw.blocksReads == (AccessShare in conflicts) && (RowExclusive in conflicts ==> raw.blocksWrites)
    else raw.mode.NoLock? ==> !raw.blocksReads && !raw.blocksWrites
  }

  function ScopeOf(raw: RawEntry, conflicts: set<LockMode>): Option<Scope> {
    if raw.scope.Some? then raw.scope
    else if !raw.blocksWrites then Some(NoScope)
    else if (raw.mode.IsTableLock() && RowExclusive in conflicts) || raw.mode.UnknownLock? then Some(TableScope)
    else None
  }

  predicate ScopeOk(raw: RawEntry, scope: Scope) {
    && (scope.NoScope? <==> !raw.blocksWrites)
    && (scope.MatchedRows? <==> raw.rowLocks)
  }

  /** The strongest lock in the list; the first of equals. */
  function Strongest(modes: seq<LockMode>): (m: LockMode)
    ensures modes == [] ==> m == NoLock
    ensures modes != [] ==> m in modes
    ensures forall other <- modes :: other.Level() <= m.Level()
  {
    if modes == [] then NoLock
    else
      var rest := Strongest(modes[1..]);
      if |modes| > 1 && rest.Level() > modes[0].Level() then rest else modes[0]
  }

  function TargetOf(affected: seq<AffectedRelation>): Option<AffectedRelation> {
    if affected == [] then None else if affected[0].role == "target" then Some(affected[0]) else TargetOf(affected[1..])
  }

  function RequiredModes(affected: seq<AffectedRelation>): (modes: seq<LockMode>)
    ensures forall mode :: mode in modes <==> exists a <- affected :: !a.optional && a.mode == mode
  {
    if affected == [] then []
    else (if affected[0].optional then [] else [affected[0].mode]) + RequiredModes(affected[1..])
  }

  /** The lock of the primary object: the target's, else the strongest required one. */
  function Primary(affected: seq<AffectedRelation>): LockMode {
    if TargetOf(affected).Some? then TargetOf(affected).value.mode else Strongest(RequiredModes(affected))
  }

  function ConflictsOf(matrix: Matrix, mode: LockMode): set<LockMode> {
    if mode.UnknownLock? then TABLE_LOCK_MODES else if mode in matrix then matrix[mode] else {}
  }

  /** None is a CatalogError. */
  function ParseEntry(
    kind: Kind, raw: RawEntry, domain: VersionRange, matrix: Matrix, attributes: set<string>): Option<Entry>
  {
    var affected := Affected(raw.affected, raw.mode);
    var conflicts := ConflictsOf(matrix, raw.mode);
    var scope := ScopeOf(raw, conflicts);
    if affected.None? || scope.None? then None
    else if !FormOk(raw, domain, attributes) || !CommitmentsOk(kind, raw) || !BlockingOk(raw, conflicts) then None
    else if !ScopeOk(raw, scope.value) || Primary(affected.value) != raw.mode then None
    else if raw.mode.NoLock? && exists a <- affected.value :: !a.mode.NoLock? && !a.optional then None
    else
      Some(Entry(kind, raw.versions, raw.mode, conflicts, raw.blocksReads, raw.blocksWrites, scope.value,
                 affected.value, if raw.when_.Some? then raw.when_.value else []))
  }

  /** The blocking flags are those of the lock, and the scope says whether writes are blocked. */
  ghost predicate BlockingSound(e: Entry, domain: VersionRange, matrix: Matrix) {
    && e.versions.min <= e.versions.max && domain.Covers(e.versions.min) && domain.Covers(e.versions.max)
    && e.conflicts == ConflictsWith(matrix, e.mode)
    && (e.blocksReads <==> AccessShare in e.conflicts)
    && (RowExclusive in e.conflicts ==> e.blocksWrites)
    && (e.scope.NoScope? <==> !e.blocksWrites)
  }

  /** One relation per known role; the target, or else the strongest required relation, takes the entry's lock. */
  ghost predicate RelationsSound(affected: seq<AffectedRelation>, mode: LockMode) {
    && (forall i, j :: 0 <= i < j < |affected| ==> affected[i].role != affected[j].role)
    && (forall a <- affected :: KnownRole(a.role) && (a.resolvable <==> !Unresolvable(a.role)))
    && (forall a <- affected :: a.role == "target" ==> a.mode == mode)
    && ((forall a <- affected :: a.role != "target") ==>
          forall a <- affected :: !a.optional ==> a.mode.Level() <= mode.Level())
  }

  ghost predicate EntrySound(e: Entry, domain: VersionRange, matrix: Matrix) {
    BlockingSound(e, domain, matrix) && RelationsSound(e.affected, e.mode)
  }

  lemma {:induction false} TargetIsFound(affected: seq<AffectedRelation>)
    requires forall i, j :: 0 <= i < j < |affected| ==> affected[i].role != affected[j].role
    ensures match TargetOf(affected)
            case None => forall a <- affected :: a.role != "target"
            case Some(t) => t in affected && t.role == "target" && forall a <- affected :: a.role == "target" ==> a == t
  {
    if affected != [] && affected[0].role != "target" {
      TargetIsFound(affected[1..]);
    }
  }

  lemma RequiredIsBelowPrimary(affected: seq<AffectedRelation>, a: AffectedRelation)
    requires TargetOf(affected).None? && a in affected && !a.optional
    ensures a.mode.Level() <= Primary(affected).Level()
  {
    var modes := RequiredModes(affected);
    hide RequiredModes, Strongest;
    assert a.mode in modes;
  }

  lemma AffectedIsSound(raw: Option<seq<RawAffected>>, mode: LockMode)
    requires Affected(raw, mode).Some? && Primary(Affected(raw, mode).value) == mode
    ensures RelationsSound(Affected(raw, mode).value, mode)
  {
    var affected := Affected(raw, mode).value;
    TargetIsFound(affected);
    forall a <- affected | TargetOf(affected).None? && !a.optional ensures a.mode.Level() <= mode.Level() {
      RequiredIsBelowPrimary(affected, a);
    }
    assert TargetOf(affected).Some? ==> TargetOf(affected).value.mode == mode;
    hide Unresolvable, KnownRole, Affected, Primary, TargetOf, LockMode.Level;
  }

  /** An accepted row's flags, scope and relations agree with the lock it names. */
  lemma AcceptedEntryIsSound(kind: Kind, raw: RawEntry, domain: VersionRange, matrix: Matrix, attributes: set<string>)
    requires ParseEntry(kind, raw, domain, matrix, attributes).Some? && matrix.Keys == TABLE_LOCK_MODES
    ensures EntrySound(ParseEntry(kind, raw, domain, matrix, attributes).value, domain, matrix)
    ensures var e := ParseEntry(kind, raw, domain, matrix, attributes).value;
            && e.kind == kind && e.versions == raw.versions && e.mode == raw.mode
            && e.blocksReads == raw.blocksReads && e.blocksWrites == raw.blocksWrites
            && (raw.when_.None? <==> e.IsDefault()) && (raw.when_.Some? ==> e.when_ == raw.when_.value)
            && (raw.scope.Some? ==> e.scope == raw.scope.value)
            && (raw.scope.None? ==> e.scope == if raw.blocksWrites then TableScope else NoScope)
    ensures RelationsAsGiven(raw, ParseEntry(kind, raw, domain, matrix, attributes).value.affected)
  {
    GivenRelations(raw);
    hide Affected, Primary, RelationsSound, RelationsAsGiven;
    AffectedIsSound(raw.affected, raw.mode);
  }

  /** The listed relations in order, or the target alone with the row's own lock. */
  ghost predicate RelationsAsGiven(raw: RawEntry, affected: seq<AffectedRelation>) {
    match raw.affected
    case None => affected == [AffectedRelation("target", raw.mode, false, true)]
    case Some(items) =>
      && |affected| == |items|
      && forall i :: 0 <= i < |items| ==>
           && affected[i].role == items[i].role && affected[i].mode == items[i].mode
           && affected[i].optional == items[i].optional
           && (items[i].resolvable.Some? ==> affected[i].resolvable == items[i].resolvable.value)
  }

  lemma GivenRelations(raw: RawEntry)
    requires Affected(raw.affected, raw.mode).Some?
    ensures RelationsAsGiven(raw, Affected(raw.affected, raw.mode).value)
  {
    hide Unresolvable, KnownRole;
  }

  // ---- Exactly which rows are accepted ----

  /** The lock of the primary object: every target's, else the strongest required one, else none. */
  ghost predicate PrimaryIs(affected: seq<AffectedRelation>, mode: LockMode) {
    if exists a <- affected :: a.role == "target" then forall a <- affected :: a.role == "target" ==> a.mode == mode
    else
      && (forall a <- affected :: !a.optional ==> a.mode.Level() <= mode.Level())
      && (mode.NoLock? || exists a <- affected :: !a.optional && a.mode == mode)
  }

  lemma LevelIsInjective(a: LockMode, b: LockMode)
    requires a.Level() == b.Level()
    ensures a == b
  {}

  lemma PrimaryIff(affected: seq<AffectedRelation>, mode: LockMode)
    requires forall i, j :: 0 <= i < j < |affected| ==> affected[i].role != affected[j].role
    ensures Primary(affected) == mode <==> PrimaryIs(affected, mode)
  {
    hide Strongest, RequiredModes, TargetOf, LockMode.Level;
    TargetIsFound(affected);
    if TargetOf(affected).None? {
      StrongestRequiredIff(affected, mode);
    }
  }

  lemma StrongestRequiredIff(affected: seq<AffectedRelation>, mode: LockMode)
    ensures Strongest(RequiredModes(affected)) == mode <==>
            && (forall a <- affected :: !a.optional ==> a.mode.Level() <= mode.Level())
            && (mode.NoLock? || exists a <- affected :: !a.optional && a.mode == mode)
  {
    var modes := RequiredModes(affected);
    assert NoLock.Level() == 0;
    hide Strongest, RequiredModes, LockMode.Level;
    var strongest := Strongest(modes);
    forall a <- affected | !a.optional ensures a.mode in modes {}
    if (forall a <- affected :: !a.optional ==> a.mode.Level() <= mode.Level())
       && (mode.NoLock? || exists a <- affected :: !a.optional && a.mode == mode) {
      LevelIsInjective(strongest, mode);
    }
  }

  /** The blocking flags are the lock's own; without a lock nothing is blocked. */
  predicate FlagsAgree(raw: RawEntry, conflicts: set<LockMode>) {
    && (raw.blocksReads <==> AccessShare in conflicts)
    && (RowExclusive in conflicts ==> raw.blocksWrites)
    && (raw.mode.NoLock? ==> !raw.blocksWrites)
  }

  /** A scope may be omitted only where the lock itself explains that writes are blocked. */
  predicate ScopeAgrees(raw: RawEntry, conflicts: set<LockMode>) {
    match raw.scope
    case None => !raw.rowLocks && (raw.blocksWrites ==> RowExclusive in conflicts)
    case Some(scope) => (scope.NoScope? <==> !raw.blocksWrites) && (scope.MatchedRows? <==> raw.rowLocks)
  }

  lemma UnknownAllowedIff(kind: Kind)
    ensures UnknownAllowed(kind) <==>
            match kind
            case StatementKind(name) => name == "other"
            case ActionKind(name) => name == "other" || name == "add_constraint_other"
  {}

  lemma AffectedIff(raw: Option<seq<RawAffected>>, mode: LockMode)
    ensures Affected(raw, mode).Some? <==>
            forall i :: raw.Some? && 0 <= i < |raw.value| ==>
              && KnownRole(raw.value[i].role)
              && raw.value[i].resolvable != Some(Unresolvable(raw.value[i].role))
              && forall j :: 0 <= j < |raw.value| && j != i ==> raw.value[j].role != raw.value[i].role
  {
    hide KnownRole, Unresolvable;
  }

  lemma AcceptedByParts(kind: Kind, raw: RawEntry, domain: VersionRange, matrix: Matrix, attributes: set<string>)
    requires matrix.Keys == TABLE_LOCK_MODES
    ensures ParseEntry(kind, raw, domain, matrix, attributes).Some? <==>
            && FormOk(raw, domain, attributes) && CommitmentsOk(kind, raw)
            && FlagsAgree(raw, ConflictsWith(matrix, raw.mode)) && ScopeAgrees(raw, ConflictsWith(matrix, raw.mode))
            && Affected(raw.affected, raw.mode).Some?
            && var affected := Affected(raw.affected, raw.mode).value;
               && PrimaryIs(affected, raw.mode)
               && (raw.mode.NoLock? ==> forall a <- affected :: a.optional || a.mode.NoLock?)
  {
    if Affected(raw.affected, raw.mode).Some? {
      PrimaryIff(Affected(raw.affected, raw.mode).value, raw.mode);
    }
    hide Affected, Primary, PrimaryIs, FormOk, CommitmentsOk, BlockingOk, FlagsAgree, ScopeAgrees, ScopeOf, ScopeOk,
      LockMode.Level;
  }

  /** A row loads exactly when it is well formed and committed, and flags, scope and relations agree with its lock. */
  lemma AcceptedIff(kind: Kind, raw: RawEntry, domain: VersionRange, matrix: Matrix, attributes: set<string>)
    requires matrix.Keys == TABLE_LOCK_MODES
    ensures ParseEntry(kind, raw, domain, matrix, attributes).Some? <==>
            && domain.min <= raw.versions.min <= raw.versions.max <= domain.max
            && !raw.calibration.Measured? && raw.sourced && (raw.calibration.Calibrated? ==> raw.cited)
            && raw.when_ != Some([])
            && (raw.when_.Some? ==> forall i :: 0 <= i < |raw.when_.value| ==> raw.when_.value[i].0 in attributes)
            && (raw.mode.UnknownLock? ==> raw.blocksReads && raw.blocksWrites)
            && (raw.mode.UnknownLock? || raw.duration.UnknownDuration? ==>
                  && raw.calibration.Uncalibrated?
                  && (kind.name == "other" || (kind.ActionKind? && kind.name == "add_constraint_other")))
            && (!raw.available ==> raw.mode.NoLock? && raw.duration.ConstantTime? && !raw.rewrite && raw.failureMode)
            && (raw.transactionAllowed || raw.notes || raw.failureMode)
            && (raw.live <==> raw.liveContext)
            && FlagsAgree(raw, ConflictsWith(matrix, raw.mode)) && ScopeAgrees(raw, ConflictsWith(matrix, raw.mode))
            && Affected(raw.affected, raw.mode).Some?
            && var affected := Affected(raw.affected, raw.mode).value;
               && PrimaryIs(affected, raw.mode)
               && (raw.mode.NoLock? ==> forall a <- affected :: a.optional || a.mode.NoLock?)
    ensures Affected(raw.affected, raw.mode).Some? <==>
            forall i :: raw.affected.Some? && 0 <= i < |raw.affected.value| ==>
              var item := raw.affected.value[i];
              && KnownRole(item.role) && item.resolvable != Some(Unresolvable(item.role))
              && forall j :: 0 <= j < |raw.affected.value| && j != i ==> raw.affected.value[j].role != item.role
  {
    AcceptedByParts(kind, raw, domain, matrix, attributes);
    AffectedIff(raw.affected, raw.mode);
    UnknownAllowedIff(kind);
    FormIff(raw, domain, attributes);
    hide ParseEntry, Affected, PrimaryIs, FormOk, FlagsAgree, ScopeAgrees, UnknownAllowed, KnownRole, Unresolvable,
      ConflictsWith;
  }

  lemma FormIff(raw: RawEntry, domain: VersionRange, attributes: set<string>)
    ensures FormOk(raw, domain, attributes) <==>
            && domain.min <= raw.versions.min <= raw.versions.max <= domain.max
            && !raw.calibration.Measured? && raw.sourced && raw.when_ != Some([])
            && (raw.when_.Some? ==> forall i :: 0 <= i < |raw.when_.value| ==> raw.when_.value[i].0 in attributes)
  {}

  // ---- Coverage ----

  method CheckCoverage(rows: seq<Entry>, domain: VersionRange) returns (ok: bool)
    ensures ok <==> Covered(rows, domain)
  {
    var version := domain.min;
    while version <= domain.max
      invariant domain.min <= version
      invariant forall v :: domain.min <= v < version && domain.Covers(v) ==> exists i: nat :: OnlyDefault(rows, v, i)
      decreases domain.max + 1 - version
    {
      var one := HasOneDefault(rows, version);
      if !one {
        assert domain.Covers(version);
        return false;
      }
      version := version + 1;
    }
    for i := 0 to |rows|
      invariant forall a, b :: 0 <= a < i && a < b < |rows| ==> !Collide(rows[a], rows[b])
    {
      for j := i + 1 to |rows|
        invariant forall b :: i < b < j ==> !Collide(rows[i], rows[b])
      {
        if Collide(rows[i], rows[j]) {
          return false;
        }
      }
    }
    return true;
  }

  method HasOneDefault(rows: seq<Entry>, version: int) returns (one: bool)
    ensures one <==> exists i: nat :: OnlyDefault(rows, version, i)
  {
    var first: int := |rows|;
    for i := 0 to |rows|
      invariant 0 <= first <= |rows|
      invariant first == |rows| ==> forall j :: 0 <= j < i ==> !CoversAsDefault(rows[j], version)
      invariant first < |rows| ==>
                  && first < i && CoversAsDefault(rows[first], version)
                  && forall j :: 0 <= j < i && j != first ==> !CoversAsDefault(rows[j], version)
    {
      if CoversAsDefault(rows[i], version) {
        if first < |rows| {
          forall k: nat ensures !OnlyDefault(rows, version, k) {
            assert k != first || k != i;
          }
          return false;
        }
        first := i;
      }
    }
    if first < |rows| {
      assert OnlyDefault(rows, version, first);
    }
    return first < |rows|;
  }
}
