/** Building the whole catalog (`parse_catalog` in `catalog/loader.py`) and what every later lookup may rely on. */
module LockCatalog {
  import opened Options
  import opened LockModel
  import opened LockLoader

  datatype Resolution = Direct | PerAction | InnerStatements

  datatype Breakpoint = Breakpoint(kind: Kind, version: int)

  datatype Catalog = Catalog(
    domain: VersionRange, matrix: Matrix, breakpoints: seq<Breakpoint>, resolution: map<string, Resolution>,
    statements: map<string, seq<Entry>>, actions: map<string, seq<Entry>>)
  {
    function ResolutionOf(kind: Kind): Resolution {
      if kind.StatementKind? && kind.name in resolution then resolution[kind.name] else Direct
    }

    /** The rows of a kind; None is the KeyError for a kind without direct rows. */
    function RowsFor(kind: Kind): Option<seq<Entry>> {
      match kind
      case StatementKind(name) =>
        if !ResolutionOf(kind).Direct? || name !in statements then None else Some(statements[name])
      case ActionKind(name) => if name in actions then Some(actions[name]) else None
    }
  }

  /** Decoded YAML; a mapping of names to rows for each of the two kinds. */
  datatype RawCatalog = RawCatalog(
    domain: VersionRange, matrix: map<LockMode, seq<LockMode>>, breakpoints: seq<Breakpoint>,
    resolution: map<string, Resolution>,
    statements: map<string, seq<RawEntry>>, actions: map<string, seq<RawEntry>>)

  /** What rows are checked against. */
  datatype Context = Context(domain: VersionRange, matrix: Matrix, attributes: set<string>)

  /** The names the program knows. */
  datatype Names = Names(statements: set<string>, actions: set<string>, attributes: set<string>)

  // ---- The rows of one kind ----

  predicate Accepted(kind: Kind, row: RawEntry, ctx: Context) {
    ParseEntry(kind, row, ctx.domain, ctx.matrix, ctx.attributes).Some?
  }

  predicate AllAccepted(kind: Kind, rows: seq<RawEntry>, ctx: Context) {
    forall i :: 0 <= i < |rows| ==> Accepted(kind, rows[i], ctx)
  }

  function EntriesOf(kind: Kind, rows: seq<RawEntry>, ctx: Context): (entries: seq<Entry>)
    requires AllAccepted(kind, rows, ctx)
    ensures |entries| == |rows|
    ensures forall i :: 0 <= i < |rows| ==>
              entries[i] == ParseEntry(kind, rows[i], ctx.domain, ctx.matrix, ctx.attributes).value
  {
    seq(|rows|, i requires 0 <= i < |rows| => ParseEntry(kind, rows[i], ctx.domain, ctx.matrix, ctx.attributes).value)
  }

  ghost predicate RowsOk(kind: Kind, rows: seq<RawEntry>, ctx: Context) {
    rows != [] && AllAccepted(kind, rows, ctx) && Covered(EntriesOf(kind, rows, ctx), ctx.domain)
  }

  method ParseRows(kind: Kind, rows: seq<RawEntry>, ctx: Context) returns (entries: Option<seq<Entry>>)
    ensures entries.Some? <==> RowsOk(kind, rows, ctx)
    ensures entries.Some? ==> entries.value == EntriesOf(kind, rows, ctx)
  {
    hide ParseEntry, Covered;
    if rows == [] {
      return None;
    }
    var parsed: seq<Entry> := [];
    for i := 0 to |rows|
      invariant |parsed| == i && forall j :: 0 <= j < i ==>
                  Accepted(kind, rows[j], ctx)
                  && parsed[j] == ParseEntry(kind, rows[j], ctx.domain, ctx.matrix, ctx.attributes).value
    {
      var entry := ParseEntry(kind, rows[i], ctx.domain, ctx.matrix, ctx.attributes);
      if entry.None? {
        assert !Accepted(kind, rows[i], ctx);
        return None;
      }
      parsed := parsed + [entry.value];
    }
    assert parsed == EntriesOf(kind, rows, ctx);
    var covered := CheckCoverage(parsed, ctx.domain);
    return if covered then Some(parsed) else None;
  }

  // ---- The tables ----

  function KindOf(ofStatements: bool, name: string): Kind {
    if ofStatements then StatementKind(name) else ActionKind(name)
  }

  ghost predicate TableOk(ofStatements: bool, raw: map<string, seq<RawEntry>>, kinds: set<string>, ctx: Context) {
    raw.Keys == kinds && forall name <- raw :: RowsOk(KindOf(ofStatements, name), raw[name], ctx)
  }

  /** The parsed table agrees with the raw one, kind by kind. */
  ghost predicate TableOf(
    ofStatements: bool, raw: map<string, seq<RawEntry>>, names: set<string>, ctx: Context,
    table: map<string, seq<Entry>>)
  {
    && table.Keys == names && names <= raw.Keys
    && forall name <- names ::
      && RowsOk(KindOf(ofStatements, name), raw[name], ctx)
      && table[name] == EntriesOf(KindOf(ofStatements, name), raw[name], ctx)
  }

  /** Every kind of the table must have acceptable rows, and no other kind may. */
  method ParseTable(ofStatements: bool, raw: map<string, seq<RawEntry>>, kinds: set<string>, ctx: Context)
    returns (table: Option<map<string, seq<Entry>>>)
    ensures table.Some? <==> TableOk(ofStatements, raw, kinds, ctx)
    ensures table.Some? ==> TableOf(ofStatements, raw, kinds, ctx, table.value)
  {
    hide RowsOk;
    var parsed: map<string, seq<Entry>> := map[];
    var todo := raw.Keys;
    while todo != {}
      invariant todo <= raw.Keys && raw.Keys - todo <= kinds
      invariant TableOf(ofStatements, raw, raw.Keys - todo, ctx, parsed)
      decreases todo
    {
      var name :| name in todo;
      if name !in kinds {
        return None;
      }
      var entries := ParseRows(KindOf(ofStatements, name), raw[name], ctx);
      if entries.None? {
        return None;
      }
      parsed := parsed[name := entries.value];
      assert raw.Keys - (todo - {name}) == raw.Keys - todo + {name};
      todo := todo - {name};
    }
    assert raw.Keys - {} == raw.Keys;
    if !(kinds <= raw.Keys) {
      return None;
    }
    assert raw.Keys == kinds;
    return Some(parsed);
  }

  // ---- Breakpoints ----

  function BreakpointRows(c: Catalog, kind: Kind): seq<Entry> {
    match kind
    case StatementKind(name) => if name in c.statements then c.statements[name] else []
    case ActionKind(name) => if name in c.actions then c.actions[name] else []
  }

  predicate BreakpointsOk(c: Catalog) {
    forall i :: 0 <= i < |c.breakpoints| ==>
      forall e <- BreakpointRows(c, c.breakpoints[i].kind) :: !Spans(e.versions, c.breakpoints[i].version)
  }

  method CheckBreakpoints(c: Catalog) returns (ok: bool)
    ensures ok <==> BreakpointsOk(c)
    ensures ok <==> forall i :: 0 <= i < |c.breakpoints| ==>
                      var version := c.breakpoints[i].version;
                      forall e <- BreakpointRows(c, c.breakpoints[i].kind) ::
                        !(e.versions.Covers(version - 1) && e.versions.Covers(version))
  {
    for i := 0 to |c.breakpoints|
      invariant forall j :: 0 <= j < i ==>
                  forall e <- BreakpointRows(c, c.breakpoints[j].kind) :: !Spans(e.versions, c.breakpoints[j].version)
    {
      var rows := BreakpointRows(c, c.breakpoints[i].kind);
      for k := 0 to |rows|
        invariant forall j :: 0 <= j < k ==> !Spans(rows[j].versions, c.breakpoints[i].version)
      {
        if Spans(rows[k].versions, c.breakpoints[i].version) {
          assert rows[k] in rows;
          return false;
        }
      }
    }
    return true;
  }

  // ---- The whole catalog ----

  predicate ResolutionOk(resolution: map<string, Resolution>) {
    && (forall name <- resolution :: !resolution[name].Direct?)
    && "alter_table" in resolution && resolution["alter_table"].PerAction?
    && "do_block" in resolution && resolution["do_block"].InnerStatements?
  }

  predicate BreakpointsInDomain(breakpoints: seq<Breakpoint>, domain: VersionRange) {
    forall b <- breakpoints :: domain.min < b.version <= domain.max
  }

  ghost predicate RowsSound(rows: seq<Entry>, c: Catalog) {
    Covered(rows, c.domain) && forall e <- rows :: EntrySound(e, c.domain, c.matrix)
  }

  /** What holds of every catalog that loads. */
  ghost predicate Sound(c: Catalog, names: Names) {
    && SymmetricMatrix(c.matrix) && ResolutionOk(c.resolution)
    && c.statements.Keys == names.statements - c.resolution.Keys && c.actions.Keys == names.actions
    && (forall name <- c.statements :: RowsSound(c.statements[name], c))
    && (forall name <- c.actions :: RowsSound(c.actions[name], c))
    && BreakpointsInDomain(c.breakpoints, c.domain) && BreakpointsOk(c)
  }

  lemma TableIsSound(ofStatements: bool, raw: map<string, seq<RawEntry>>, kinds: set<string>, ctx: Context,
                     table: map<string, seq<Entry>>, c: Catalog)
    requires TableOf(ofStatements, raw, kinds, ctx, table)
    requires c.domain == ctx.domain && c.matrix == ctx.matrix && SymmetricMatrix(c.matrix)
    ensures forall name <- table :: RowsSound(table[name], c)
  {
    forall name <- table, e <- table[name] ensures EntrySound(e, c.domain, c.matrix) {
      var kind, rows := KindOf(ofStatements, name), raw[name];
      var i :| 0 <= i < |table[name]| && table[name][i] == e;
      hide ParseEntry, EntrySound;
      assert Accepted(kind, rows[i], ctx);
      AcceptedEntryIsSound(kind, rows[i], ctx.domain, ctx.matrix, ctx.attributes);
    }
    hide Covered, EntrySound;
  }

  method ParseCatalog(raw: RawCatalog, names: Names) returns (loaded: Option<Catalog>)
    ensures loaded.Some? ==> Sound(loaded.value, names)
    ensures loaded.Some? ==>
              var c := loaded.value; var ctx := Context(raw.domain, RowsOf(raw.matrix), names.attributes);
              && c == Catalog(raw.domain, RowsOf(raw.matrix), raw.breakpoints, raw.resolution, c.statements, c.actions)
              && TableOf(true, raw.statements, names.statements - raw.resolution.Keys, ctx, c.statements)
              && TableOf(false, raw.actions, names.actions, ctx, c.actions)
    ensures loaded.None? ==>
              var ctx := Context(raw.domain, RowsOf(raw.matrix), names.attributes);
              || raw.domain.min > raw.domain.max
              || !SymmetricMatrix(RowsOf(raw.matrix))
              || !ResolutionOk(raw.resolution) || !(raw.resolution.Keys <= names.statements)
              || !TableOk(true, raw.statements, names.statements - raw.resolution.Keys, ctx)
              || !TableOk(false, raw.actions, names.actions, ctx)
              || !BreakpointsInDomain(raw.breakpoints, raw.domain)
              || exists c: Catalog :: c.breakpoints == raw.breakpoints && !BreakpointsOk(c)
                   && TableOf(true, raw.statements, names.statements - raw.resolution.Keys, ctx, c.statements)
                   && TableOf(false, raw.actions, names.actions, ctx, c.actions)
  {
    hide TableOk, TableOf, BreakpointsOk, ResolutionOk, RowsSound, BreakpointsInDomain;
    if raw.domain.min > raw.domain.max {
      return None;
    }
    var matrix := ParseConflictMatrix(raw.matrix);
    if matrix.None? || !ResolutionOk(raw.resolution) || !(raw.resolution.Keys <= names.statements) {
      return None;
    }
    var ctx := Context(raw.domain, matrix.value, names.attributes);
    var statements := ParseTable(true, raw.statements, names.statements - raw.resolution.Keys, ctx);
    if statements.None? {
      return None;
    }
    var actions := ParseTable(false, raw.actions, names.actions, ctx);
    if actions.None? || !BreakpointsInDomain(raw.breakpoints, raw.domain) {
      return None;
    }
    var c := Catalog(raw.domain, matrix.value, raw.breakpoints, raw.resolution, statements.value, actions.value);
    var separated := CheckBreakpoints(c);
    if !separated {
      return None;
    }
    TableIsSound(true, raw.statements, names.statements - raw.resolution.Keys, ctx, c.statements, c);
    TableIsSound(false, raw.actions, names.actions, ctx, c.actions, c);
    TableKeys(true, raw.statements, names.statements - raw.resolution.Keys, ctx, c.statements);
    TableKeys(false, raw.actions, names.actions, ctx, c.actions);
    return Some(c);
  }

  lemma TableKeys(ofStatements: bool, raw: map<string, seq<RawEntry>>, kinds: set<string>, ctx: Context,
                  table: map<string, seq<Entry>>)
    requires TableOf(ofStatements, raw, kinds, ctx, table)
    ensures table.Keys == kinds
  {}

  // ---- What a loaded catalog guarantees ----

  /** A kind the program knows that is looked up directly. */
  predicate DirectKind(c: Catalog, names: Names, kind: Kind) {
    match kind
    case StatementKind(name) => name in names.statements && c.ResolutionOf(kind).Direct?
    case ActionKind(name) => name in names.actions
  }

  /** Once loaded, no lookup inside the version domain can fail, and each answer comes from a checked row. */
  lemma LoadedLookupsSucceed(c: Catalog, names: Names, kind: Kind, version: int, attrs: map<string, Attr>)
    requires Sound(c, names) && DirectKind(c, names, kind) && c.domain.Covers(version)
    ensures c.RowsFor(kind).Some?
    ensures var rows := c.RowsFor(kind).value;
            var e := EntryFor(rows, version, attrs);
            e.Some? && Answers(rows, version, attrs, e.value) && EntrySound(e.value, c.domain, c.matrix)
  {
    hide EntrySound, Covered, Answers, EntryFor, SymmetricMatrix, BreakpointsOk, BreakpointsInDomain;
    assert forall name <- c.resolution :: !c.resolution[name].Direct?;
    LookupIsTotal(c.RowsFor(kind).value, c.domain, version, attrs);
  }

  /** Across a registered breakpoint the answers differ, whatever the attributes. */
  lemma LoadedBreakpointsSeparate(
      c: Catalog, names: Names, b: Breakpoint, before: map<string, Attr>, after: map<string, Attr>)
    requires Sound(c, names) && b in c.breakpoints && DirectKind(c, names, b.kind)
    ensures c.RowsFor(b.kind).Some?
    ensures var rows := c.RowsFor(b.kind).value;
            EntryFor(rows, b.version - 1, before) != EntryFor(rows, b.version, after)
  {
    hide EntrySound, Covered, EntryFor, SymmetricMatrix, Spans;
    assert forall name <- c.resolution :: !c.resolution[name].Direct?;
    BreakpointSeparates(c.RowsFor(b.kind).value, c.domain, b.version, before, after);
  }
}
