/** Squash files: large scripts that only touch what they created (`parser.py`). */
module Baseline {
  import opened Options

  const BASELINE_MIN_STATEMENTS := 50

  /** Which of the kind tables a statement's kind is in. */
  datatype Role = CreatesRelation | ReferencesRelation | DropsRelation | OtherRole

  datatype Details =
    | CreateTableDetails(partitionOf: Option<string>)
    | IndexDetails(indexName: Option<string>)
    | RenameDetails(newName: Option<string>)
    | DropDetails(missingOk: bool)
    | OtherDetails

  /** Names are unqualified. */
  datatype Statement = Statement(role: Role, targets: seq<string>, details: Details)

  function Named(name: Option<string>): set<string> {
    if name.Some? && name.value != "" then {name.value} else {}
  }

  /** The relations a statement brings into being. */
  function Introduces(s: Statement): set<string> {
    match s.role
    case CreatesRelation => set name <- s.targets :: name
    case ReferencesRelation =>
      if s.details.IndexDetails? then Named(s.details.indexName)
      else if s.details.RenameDetails? then Named(s.details.newName)
      else {}
    case _ => {}
  }

  /** The relations a statement needs to find. */
  function Needs(s: Statement): set<string> {
    match s.role
    case CreatesRelation =>
      if s.details.CreateTableDetails? && s.details.partitionOf.Some? then {s.details.partitionOf.value} else {}
    case ReferencesRelation => set name <- s.targets :: name
    case DropsRelation => if s.details.DropDetails? && s.details.missingOk then {} else set name <- s.targets :: name
    case OtherRole => {}
  }

  /** Some earlier statement introduced the name, or statement `i` creates it itself. */
  predicate Available(statements: seq<Statement>, i: nat, name: string)
    requires i < |statements|
  {
    || (exists j :: 0 <= j < i && name in Introduces(statements[j]))
    || (statements[i].role.CreatesRelation? && name in Introduces(statements[i]))
  }

  predicate SelfContained(statements: seq<Statement>) {
    forall i, name :: 0 <= i < |statements| && name in Needs(statements[i]) ==> Available(statements, i, name)
  }

  method AllCreated(names: seq<string>, created: set<string>) returns (all: bool)
    ensures all <==> forall name <- names :: name in created
  {
    for i := 0 to |names|
      invariant forall j :: 0 <= j < i ==> names[j] in created
    {
      if names[i] !in created {
        return false;
      }
    }
    return true;
  }

  method IsBaselineShaped(statements: seq<Statement>) returns (shaped: bool)
    ensures shaped <==> |statements| >= 50 && SelfContained(statements)
  {
    if |statements| < BASELINE_MIN_STATEMENTS {
      return false;
    }
    var created: set<string> := {};
    for i := 0 to |statements|
      invariant forall name :: name in created <==> exists j :: 0 <= j < i && name in Introduces(statements[j])
      invariant forall k, name :: 0 <= k < i && name in Needs(statements[k]) ==> Available(statements, k, name)
    {
      var s := statements[i];
      match s.role {
        case CreatesRelation =>
          created := created + set name <- s.targets :: name;
          if s.details.CreateTableDetails? && s.details.partitionOf.Some? && s.details.partitionOf.value !in created {
            assert !Available(statements, i, s.details.partitionOf.value);
            return false;
          }
        case ReferencesRelation =>
          var found := AllCreated(s.targets, created);
          if !found {
            var name :| name in s.targets && name !in created;
            assert name in Needs(s) && !Available(statements, i, name);
            return false;
          }
          if s.details.IndexDetails? {
            created := created + Named(s.details.indexName);
          } else if s.details.RenameDetails? {
            created := created + Named(s.details.newName);
          }
        case DropsRelation =>
          if !(s.details.DropDetails? && s.details.missingOk) {
            var found := AllCreated(s.targets, created);
            if !found {
              var name :| name in s.targets && name !in created;
              assert name in Needs(s) && !Available(statements, i, name);
              return false;
            }
          }
        case OtherRole =>
      }
    }
    return true;
  }

  // ---- The kinds of statements, one by one ----

  /** What brings a relation into being: creating it, an index by its name, or renaming something to it. */
  lemma IntroducesIff(s: Statement, name: string)
    ensures name in Introduces(s) <==>
            || (s.role.CreatesRelation? && name in s.targets)
            || (s.role.ReferencesRelation? && name != ""
                && (s.details == IndexDetails(Some(name)) || s.details == RenameDetails(Some(name))))
  {}

  /** What a relation is needed for: altering it, dropping it without IF EXISTS, or being its partition. */
  lemma NeedsIff(s: Statement, name: string)
    ensures name in Needs(s) <==>
            || (s.role.ReferencesRelation? && name in s.targets)
            || (s.role.DropsRelation? && name in s.targets && s.details != DropDetails(true))
            || (s.role.CreatesRelation? && s.details == CreateTableDetails(Some(name)))
  {}
}
