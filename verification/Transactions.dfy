/** Transaction groups of a migration file (`parser.py`). */
module Transactions {
  import opened Options
  import opened Sequences

  datatype Kind = Begin | Commit | Rollback | OtherKind

  /** `chain` is the AND CHAIN of a COMMIT or ROLLBACK. */
  datatype Statement = Statement(kind: Kind, chain: bool, line: nat)

  datatype Warning = BeginInside(line: nat) | NoMatchingBegin(line: nat, kind: Kind) | NeverClosed(line: nat)

  datatype Group = Group(
    explicit: bool, indices: seq<nat>, openedBy: Option<nat>, closedBy: Option<nat>, rolledBack: bool)

  // ---- The two-state machine ----

  predicate Ends(s: Statement) {
    s.kind.Commit? || s.kind.Rollback?
  }

  /** A transaction block is open just before statement `i`. */
  predicate InBlock(s: seq<Statement>, i: nat)
    requires i <= |s|
  {
    if i == 0 then false
    else
      var st := s[i - 1];
      if st.kind.Begin? then true
      else if Ends(st) then InBlock(s, i - 1) && st.chain
      else InBlock(s, i - 1)
  }

  predicate Opens(s: seq<Statement>, i: nat)
    requires i < |s|
  {
    if InBlock(s, i) then Ends(s[i]) && s[i].chain else s[i].kind.Begin?
  }

  predicate Closes(s: seq<Statement>, i: nat)
    requires i < |s|
  {
    Ends(s[i]) && InBlock(s, i)
  }

  predicate Effective(s: seq<Statement>, i: nat)
    requires i < |s|
  {
    Opens(s, i) || Closes(s, i)
  }

  // ---- The file cut at its effective boundaries ----

  /** The non-boundary statements in `[lo, hi)`. */
  function PlainIn(s: seq<Statement>, lo: nat, hi: nat): seq<nat>
    requires lo <= hi <= |s|
    decreases hi
  {
    if lo == hi then [] else PlainIn(s, lo, hi - 1) + (if s[hi - 1].kind.OtherKind? then [hi - 1] else [])
  }

  /** The start of the piece that statement `n` continues: just after the last effective boundary before it. */
  function PieceStart(s: seq<Statement>, n: nat): (lo: nat)
    requires n <= |s|
    ensures lo <= n
    ensures lo > 0 ==> Effective(s, lo - 1)
    ensures forall j :: lo <= j < n ==> !Effective(s, j)
  {
    if n == 0 || Effective(s, n - 1) then n else PieceStart(s, n - 1)
  }

  /** The group of the piece `[lo, hi)`, ended by boundary `hi` or by the end of the file. */
  function Piece(s: seq<Statement>, lo: nat, hi: nat): (piece: seq<Group>)
    requires lo <= hi <= |s|
    ensures |piece| <= 1
  {
    var explicit := lo > 0 && Opens(s, lo - 1);
    var indices := PlainIn(s, lo, hi);
    if !explicit && indices == [] then []
    else
      [Group(
         explicit, indices,
         if explicit then Some(lo - 1) else None,
         if explicit && hi < |s| then Some(hi) else None,
         explicit && hi < |s| && s[hi].kind.Rollback?)]
  }

  /** The groups of all pieces that a boundary before `n` ended. */
  function Closed(s: seq<Statement>, n: nat): seq<Group>
    requires n <= |s|
  {
    if n == 0 then []
    else if Effective(s, n - 1) then Closed(s, n - 1) + Piece(s, PieceStart(s, n - 1), n - 1)
    else Closed(s, n - 1)
  }

  function Groups(s: seq<Statement>): seq<Group> {
    Closed(s, |s|) + Piece(s, PieceStart(s, |s|), |s|)
  }

  function Ineffective(s: seq<Statement>, n: nat): seq<Warning>
    requires n <= |s|
  {
    if n == 0 then []
    else
      var st := s[n - 1];
      Ineffective(s, n - 1) +
      (if st.kind.Begin? && InBlock(s, n - 1) then [BeginInside(st.line)]
       else if Ends(st) && !InBlock(s, n - 1) then [NoMatchingBegin(st.line, st.kind)]
       else [])
  }

  function Warnings(s: seq<Statement>): seq<Warning> {
    Ineffective(s, |s|) +
    (if InBlock(s, |s|) then OpenPieceHasOpener(s, |s|); [NeverClosed(s[PieceStart(s, |s|) - 1].line)] else [])
  }

  /** The machine is in a block exactly when the current piece was opened by a boundary. */
  lemma {:induction false} OpenPieceHasOpener(s: seq<Statement>, n: nat)
    requires n <= |s|
    ensures InBlock(s, n) <==> PieceStart(s, n) > 0 && Opens(s, PieceStart(s, n) - 1)
  {
    if n > 0 && !Effective(s, n - 1) {
      OpenPieceHasOpener(s, n - 1);
    }
  }

  // ---- The scanner ----

  /** The scanner's variables and the closure that ends a group. */
  class Scanner {
    var groups: seq<Group>
    var warnings: seq<Warning>
    var current: seq<nat>
    var openedBy: Option<nat>
    var inExplicit: bool

    constructor ()
      ensures groups == [] && warnings == [] && current == [] && openedBy == None && !inExplicit
    {
      groups, warnings, current, openedBy, inExplicit := [], [], [], None, false;
    }

    method Flush(closedBy: Option<nat>, rolledBack: bool)
      modifies this
      ensures groups == old(groups) +
                        if old(inExplicit) || old(current) != []
                        then [Group(old(inExplicit), old(current), old(openedBy), closedBy, rolledBack)] else []
      ensures current == [] && openedBy == None && !inExplicit && warnings == old(warnings)
    {
      if inExplicit || current != [] {
        groups := groups + [Group(inExplicit, current, openedBy, closedBy, rolledBack)];
      }
      current, openedBy, inExplicit := [], None, false;
    }

    /** What the variables mean once the first `n` statements have been read. */
    ghost predicate At(s: seq<Statement>, n: nat)
      requires n <= |s|
      reads this
    {
      var lo := PieceStart(s, n);
      && groups == Closed(s, n)
      && warnings == Ineffective(s, n)
      && current == PlainIn(s, lo, n)
      && inExplicit == InBlock(s, n)
      && openedBy == if inExplicit then Some(lo - 1) else None
    }

    method Read(s: seq<Statement>, index: nat)
      requires index < |s| && At(s, index)
      modifies this
      ensures At(s, index + 1)
    {
      OpenPieceHasOpener(s, index);
      var st := s[index];
      if st.kind.Begin? {
        if inExplicit {
          warnings := warnings + [BeginInside(st.line)];
        } else {
          Flush(None, false);
          inExplicit, openedBy := true, Some(index);
        }
      } else if st.kind.Commit? || st.kind.Rollback? {
        if inExplicit {
          Flush(Some(index), st.kind.Rollback?);
          if st.chain {
            inExplicit, openedBy := true, Some(index);
          }
        } else {
          warnings := warnings + [NoMatchingBegin(st.line, st.kind)];
        }
      } else {
        current := current + [index];
      }
    }
  }

  method GroupTransactions(s: seq<Statement>) returns (groups: seq<Group>, warnings: seq<Warning>)
    ensures groups == Groups(s) && warnings == Warnings(s)
  {
    var scan := new Scanner();
    for index := 0 to |s|
      invariant fresh(scan) && scan.At(s, index)
    {
      scan.Read(s, index);
    }
    OpenPieceHasOpener(s, |s|);
    if scan.inExplicit {
      var openedLine := if scan.openedBy.Some? then s[scan.openedBy.value].line else 0;
      scan.warnings := scan.warnings + [NeverClosed(openedLine)];
    }
    scan.Flush(None, false);
    groups, warnings := scan.groups, scan.warnings;
  }

  // ---- What the groups are ----

  function Flatten(groups: seq<Group>): seq<nat> {
    if groups == [] then [] else Flatten(groups[..|groups| - 1]) + groups[|groups| - 1].indices
  }

  lemma FlattenNone()
    ensures Flatten([]) == []
  {}

  lemma FlattenPiece(s: seq<Statement>, groups: seq<Group>, lo: nat, hi: nat)
    requires lo <= hi <= |s|
    ensures Flatten(groups + Piece(s, lo, hi)) == Flatten(groups) + PlainIn(s, lo, hi)
  {
    var piece := Piece(s, lo, hi);
    if piece == [] {
      assert groups + piece == groups;
    } else {
      assert (groups + piece)[..|groups|] == groups;
    }
  }

  lemma {:induction false} ClosedThenCurrent(s: seq<Statement>, n: nat)
    requires n <= |s|
    ensures Flatten(Closed(s, n)) + PlainIn(s, PieceStart(s, n), n) == PlainIn(s, 0, n)
  {
    hide InBlock, Piece, Flatten;
    if n == 0 {
      assert Flatten([]) == [] by {
        FlattenNone();
      }
    } else {
      ClosedThenCurrent(s, n - 1);
      var lo := PieceStart(s, n - 1);
      FlattenPiece(s, Closed(s, n - 1), lo, n - 1);
      if !Effective(s, n - 1) {
        var tail := if s[n - 1].kind.OtherKind? then [n - 1] else [];
        Associative(Flatten(Closed(s, n - 1)), PlainIn(s, lo, n - 1), tail);
      }
    }
  }

  /** Read in order, the groups list every non-boundary statement exactly once. */
  lemma GroupsPartitionTheStatements(s: seq<Statement>)
    ensures Flatten(Groups(s)) == PlainIn(s, 0, |s|)
  {
    ClosedThenCurrent(s, |s|);
    FlattenPiece(s, Closed(s, |s|), PieceStart(s, |s|), |s|);
  }

  /** `indices` are the increasing list of exactly the non-boundary statements in a range. */
  lemma {:induction false} PlainInIsExact(s: seq<Statement>, lo: nat, hi: nat)
    requires lo <= hi <= |s|
    ensures forall k :: k in PlainIn(s, lo, hi) <==> lo <= k < hi && s[k].kind.OtherKind?
    ensures forall i, j :: 0 <= i < j < |PlainIn(s, lo, hi)| ==> PlainIn(s, lo, hi)[i] < PlainIn(s, lo, hi)[j]
    decreases hi
  {
    if lo < hi {
      PlainInIsExact(s, lo, hi - 1);
      var front := PlainIn(s, lo, hi - 1);
      assert forall i :: 0 <= i < |front| ==> front[i] in front;
    }
  }

  /** A group stands for one piece of the file: `[lo, hi)` between two effective boundaries or file ends. */
  ghost predicate StandsFor(s: seq<Statement>, g: Group, lo: nat, hi: nat) {
    && lo <= hi <= |s| && PieceStart(s, hi) == lo && (hi < |s| ==> Effective(s, hi))
    && Piece(s, lo, hi) == [g]
  }

  /** Inside a piece the machine does not move. */
  lemma {:induction false} PieceIsUniform(s: seq<Statement>, n: nat, j: nat)
    requires n <= |s| && PieceStart(s, n) <= j <= n
    ensures InBlock(s, j) == InBlock(s, n)
  {
    if j < n {
      PieceIsUniform(s, n - 1, j);
    }
  }

  /** What one group says, in terms of the machine. */
  lemma GroupMeaning(s: seq<Statement>, g: Group, lo: nat, hi: nat)
    requires StandsFor(s, g, lo, hi)
    ensures forall k <- g.indices :: lo <= k < hi && InBlock(s, k) == g.explicit
    ensures g.explicit <==> g.openedBy.Some?
    ensures g.openedBy.Some? ==> g.openedBy.value + 1 == lo && Opens(s, g.openedBy.value)
    ensures g.explicit ==>
              (g.closedBy.Some? <==> hi < |s|)
              && (g.closedBy.Some? ==>
                    g.closedBy.value == hi && Closes(s, hi) && (g.rolledBack <==> s[hi].kind.Rollback?))
    ensures !g.explicit ==>
              && g.closedBy == None && !g.rolledBack && g.indices != []
              && (hi < |s| ==> s[hi].kind.Begin? && !InBlock(s, hi))
  {
    OpenPieceHasOpener(s, hi);
    hide PieceStart, Piece, Effective, Opens, Closes, InBlock;
    IndicesOfPiece(s, g, lo, hi);
    if hi < |s| {
      BoundaryKind(s, hi);
    }
  }

  lemma IndicesOfPiece(s: seq<Statement>, g: Group, lo: nat, hi: nat)
    requires lo <= hi <= |s| && PieceStart(s, hi) == lo
    requires g.indices == PlainIn(s, lo, hi) && g.explicit == InBlock(s, hi)
    ensures forall k <- g.indices :: lo <= k < hi && InBlock(s, k) == g.explicit
  {
    hide PlainIn, InBlock, PieceStart;
    PlainInIsExact(s, lo, hi);
    forall k <- g.indices ensures InBlock(s, k) == g.explicit {
      PieceIsUniform(s, hi, k);
    }
  }

  /** Every group stands for one piece of the file. */
  lemma {:induction false} ClosedStandsForPieces(s: seq<Statement>, n: nat, g: Group)
    requires n <= |s| && g in Closed(s, n)
    ensures exists lo: nat, hi: nat :: StandsFor(s, g, lo, hi)
  {
    if g in Closed(s, n - 1) {
      ClosedStandsForPieces(s, n - 1, g);
    } else {
      assert StandsFor(s, g, PieceStart(s, n - 1), n - 1);
    }
  }

  lemma GroupsStandForPieces(s: seq<Statement>, g: Group)
    requires g in Groups(s)
    ensures exists lo: nat, hi: nat :: StandsFor(s, g, lo, hi)
  {
    if g in Closed(s, |s|) {
      ClosedStandsForPieces(s, |s|, g);
    } else {
      assert StandsFor(s, g, PieceStart(s, |s|), |s|);
    }
  }

  /** How a group and the next one meet. */
  ghost predicate Linked(s: seq<Statement>, g: Group, h: Group) {
    && (g.explicit || h.explicit)
    && (g.explicit ==> g.closedBy.Some? && g.closedBy.value < |s| && Ends(s[g.closedBy.value]))
    && (g.explicit && h.explicit ==>
          && h.openedBy.Some? && g.closedBy.value <= h.openedBy.value
          && (g.closedBy == h.openedBy <==> s[g.closedBy.value].chain))
  }

  /** What the last group leaves for the piece being read at `n`. */
  ghost predicate LeavesOff(s: seq<Statement>, g: Group, n: nat)
    requires n <= |s|
  {
    var lo := PieceStart(s, n);
    if g.explicit then
      && g.closedBy.Some? && g.closedBy.value < lo && Closes(s, g.closedBy.value)
      && (Opens(s, g.closedBy.value) ==> lo == g.closedBy.value + 1)
    else lo > 0 && Opens(s, lo - 1)
  }

  lemma PieceLinks(s: seq<Statement>, g: Group, hi: nat)
    requires hi <= |s| && LeavesOff(s, g, hi)
    ensures var lo := PieceStart(s, hi); forall h <- Piece(s, lo, hi) :: Linked(s, g, h)
  {}

  lemma PieceShape(s: seq<Statement>, hi: nat, h: Group)
    requires hi <= |s| && Piece(s, PieceStart(s, hi), hi) == [h]
    ensures h.explicit == InBlock(s, hi)
    ensures h.closedBy == if h.explicit && hi < |s| then Some(hi) else None
  {
    OpenPieceHasOpener(s, hi);
    hide InBlock, PlainIn, PieceStart, Opens;
  }

  /** An effective boundary inside a block closes it; outside it can only open one. */
  lemma BoundaryKind(s: seq<Statement>, hi: nat)
    requires hi < |s| && Effective(s, hi)
    ensures if InBlock(s, hi) then Closes(s, hi) else Opens(s, hi)
  {
    hide InBlock;
  }

  lemma PieceLeavesOff(s: seq<Statement>, hi: nat, h: Group)
    requires hi < |s| && Effective(s, hi) && Piece(s, PieceStart(s, hi), hi) == [h]
    ensures LeavesOff(s, h, hi + 1)
  {
    hide InBlock, Piece, PieceStart, Opens, Closes, Effective;
    PieceShape(s, hi, h);
    BoundaryKind(s, hi);
  }

  lemma EmptyPieceLeavesOff(s: seq<Statement>, hi: nat, g: Group)
    requires hi < |s| && Effective(s, hi) && Piece(s, PieceStart(s, hi), hi) == []
    requires LeavesOff(s, g, hi)
    ensures LeavesOff(s, g, hi + 1)
  {
    BoundaryKind(s, hi);
    OpenPieceHasOpener(s, hi);
    hide InBlock, Piece, PieceStart, Opens, Closes, Effective;
  }

  ghost predicate AllLinked(s: seq<Statement>, groups: seq<Group>) {
    forall k :: 0 < k < |groups| ==> Linked(s, groups[k - 1], groups[k])
  }

  lemma AppendLinked(s: seq<Statement>, groups: seq<Group>, more: seq<Group>)
    requires AllLinked(s, groups) && |more| <= 1
    requires groups != [] ==> forall h <- more :: Linked(s, groups[|groups| - 1], h)
    ensures AllLinked(s, groups + more)
  {
    hide Linked;
    forall k | 0 < k < |groups + more| ensures Linked(s, (groups + more)[k - 1], (groups + more)[k]) {
      if k == |groups| {
        assert more[0] in more;
      }
    }
  }

  lemma {:induction false} ClosedLinked(s: seq<Statement>, n: nat)
    requires n <= |s|
    ensures AllLinked(s, Closed(s, n))
    ensures Closed(s, n) != [] ==> LeavesOff(s, Closed(s, n)[|Closed(s, n)| - 1], n)
  {
    hide Linked, LeavesOff, AllLinked, Effective, Piece, PieceStart;
    if n == 0 {
      assert AllLinked(s, []) by {
        NoneLinked(s);
      }
    } else {
      ClosedLinked(s, n - 1);
      var before, piece := Closed(s, n - 1), Piece(s, PieceStart(s, n - 1), n - 1);
      if Effective(s, n - 1) {
        if before != [] {
          PieceLinks(s, before[|before| - 1], n - 1);
        }
        if piece == [] {
          if before != [] {
            EmptyPieceLeavesOff(s, n - 1, before[|before| - 1]);
          }
          assert before + piece == before;
        } else {
          assert piece == [piece[0]];
          PieceLeavesOff(s, n - 1, piece[0]);
        }
        AppendLinked(s, before, piece);
      } else if before != [] {
        NoBoundaryLeavesOff(s, n - 1, before[|before| - 1]);
      }
    }
  }

  lemma NoneLinked(s: seq<Statement>)
    ensures AllLinked(s, [])
  {}

  lemma NoBoundaryLeavesOff(s: seq<Statement>, n: nat, g: Group)
    requires n < |s| && !Effective(s, n) && LeavesOff(s, g, n)
    ensures LeavesOff(s, g, n + 1)
  {
    assert PieceStart(s, n + 1) == PieceStart(s, n);
    hide InBlock, Effective;
  }

  /**
   In order, no two adjacent groups are implicit; every group but the last is closed if it is explicit; and two
   adjacent explicit groups share a boundary exactly when it is a COMMIT or ROLLBACK AND CHAIN.
   */
  lemma GroupsAreLinked(s: seq<Statement>)
    ensures AllLinked(s, Groups(s))
  {
    ClosedLinked(s, |s|);
    var before := Closed(s, |s|);
    if before != [] {
      PieceLinks(s, before[|before| - 1], |s|);
    }
    hide Linked;
    AppendLinked(s, before, Piece(s, PieceStart(s, |s|), |s|));
  }

  // ---- What the warnings count ----

  predicate IsIneffective(s: seq<Statement>, i: nat)
    requires i < |s|
  {
    !s[i].kind.OtherKind? && !Effective(s, i)
  }

  function CountIneffective(s: seq<Statement>, n: nat): nat
    requires n <= |s|
  {
    if n == 0 then 0 else CountIneffective(s, n - 1) + if IsIneffective(s, n - 1) then 1 else 0
  }

  /** One warning per boundary statement without effect, and one if the file ends inside a block. */
  lemma WarningsCount(s: seq<Statement>)
    ensures |Warnings(s)| == CountIneffective(s, |s|) + if InBlock(s, |s|) then 1 else 0
    ensures InBlock(s, |s|) <==> Groups(s) != [] && Groups(s)[|Groups(s)| - 1].explicit
                                 && Groups(s)[|Groups(s)| - 1].closedBy == None
  {
    IneffectiveCount(s, |s|);
    OpenPieceHasOpener(s, |s|);
    ClosedLinked(s, |s|);
  }

  lemma {:induction false} IneffectiveCount(s: seq<Statement>, n: nat)
    requires n <= |s|
    ensures |Ineffective(s, n)| == CountIneffective(s, n)
  {
    if n > 0 {
      IneffectiveCount(s, n - 1);
    }
  }

  // ---- The machine, said without recursion ----

  /** Every COMMIT and ROLLBACK in `(j, i)` chains. */
  ghost predicate KeptOpen(s: seq<Statement>, j: nat, i: nat)
    requires i <= |s|
  {
    forall k :: j < k < i && (s[k].kind.Commit? || s[k].kind.Rollback?) ==> s[k].chain
  }

  /** A block is open exactly when some BEGIN came before and everything that ended a block since then chained. */
  lemma {:induction false} InBlockIff(s: seq<Statement>, i: nat)
    requires i <= |s|
    ensures InBlock(s, i) <==> exists j :: 0 <= j < i && s[j].kind.Begin? && KeptOpen(s, j, i)
  {
    if i > 0 {
      InBlockIff(s, i - 1);
      var last := s[i - 1];
      if last.kind.Begin? {
        assert KeptOpen(s, i - 1, i);
      } else if j :| 0 <= j < i - 1 && s[j].kind.Begin? && KeptOpen(s, j, i - 1) {
        assert KeptOpen(s, j, i) <==> (Ends(last) ==> last.chain);
      }
      if j :| 0 <= j < i && s[j].kind.Begin? && KeptOpen(s, j, i) {
        assert j < i - 1 ==> KeptOpen(s, j, i - 1);
      }
    }
  }

  /** Statement `i` is warned about: a BEGIN inside a block, or an end outside one. */
  predicate WarnsAt(s: seq<Statement>, i: nat, w: Warning)
    requires i < |s|
  {
    match w
    case BeginInside(line) => s[i].kind.Begin? && InBlock(s, i) && line == s[i].line
    case NoMatchingBegin(line, kind) =>
      (s[i].kind.Commit? || s[i].kind.Rollback?) && !InBlock(s, i) && line == s[i].line && kind == s[i].kind
    case NeverClosed(_) => false
  }

  lemma {:induction false} IneffectiveIff(s: seq<Statement>, n: nat, w: Warning)
    requires n <= |s|
    ensures w in Ineffective(s, n) <==> exists i :: 0 <= i < n && WarnsAt(s, i, w)
  {
    if n > 0 {
      assert Ineffective(s, n) == Ineffective(s, n - 1) + WarningAt(s, n - 1);
      IneffectiveIff(s, n - 1, w);
      WarningAtIff(s, n - 1, w);
      hide Ineffective, InBlock, WarningAt, WarnsAt;
    }
  }

  function WarningAt(s: seq<Statement>, i: nat): seq<Warning>
    requires i < |s|
  {
    if s[i].kind.Begin? && InBlock(s, i) then [BeginInside(s[i].line)]
    else if Ends(s[i]) && !InBlock(s, i) then [NoMatchingBegin(s[i].line, s[i].kind)]
    else []
  }

  lemma WarningAtIff(s: seq<Statement>, i: nat, w: Warning)
    requires i < |s|
    ensures w in WarningAt(s, i) <==> WarnsAt(s, i, w)
  {
    hide InBlock;
  }

  /** Boundary `i` opened the block that the end of the file finds open. */
  predicate OpensLast(s: seq<Statement>, i: nat)
    requires i < |s|
  {
    Opens(s, i) && forall k :: i < k < |s| ==> !Effective(s, k)
  }

  /** Which warnings there are, with their lines. */
  lemma WarningsAreExact(s: seq<Statement>, w: Warning)
    ensures w in Warnings(s) <==>
            || (exists i :: 0 <= i < |s| && WarnsAt(s, i, w))
            || (exists i :: 0 <= i < |s| && OpensLast(s, i) && w == NeverClosed(s[i].line))
  {
    IneffectiveIff(s, |s|, w);
    OpenPieceHasOpener(s, |s|);
    var lo := PieceStart(s, |s|);
    hide InBlock, Ineffective, PieceStart, Opens;
    if InBlock(s, |s|) {
      assert OpensLast(s, lo - 1);
    }
    forall i | 0 <= i < |s| && OpensLast(s, i) ensures InBlock(s, |s|) && i == lo - 1 {
      assert Effective(s, i) && i < lo;
      assert i >= lo - 1;
    }
  }
}
