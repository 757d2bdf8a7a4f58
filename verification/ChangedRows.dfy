/**
 The rows the review pane shows for a pair of texts (line-diff.ts): removed and added lines
 with their line numbers, an ellipsis where unchanged lines are left out, and a closing remark
 when the two texts disagree about the final newline.
 */
module ChangedRows {
  import opened LineDiff
  import opened LineEndings
  import opened TextLines

  datatype Row =
    | RemovedRow(oldLine: nat, text: string)
    | AddedRow(newLine: nat, text: string)
    | Ellipsis(oldLine: nat, newLine: nat, text: string)
    | Meta(text: string)
  {
    predicate Changed() { RemovedRow? || AddedRow? }
  }

  const OMITTED := "Unchanged lines omitted"

  // ---------------------------------------------------------------- what the rows mean

  function RemovedLines(rows: seq<Row>): set<nat> {
    if rows == [] then {}
    else
      var last := rows[|rows| - 1];
      RemovedLines(rows[..|rows| - 1]) + if last.RemovedRow? then {last.oldLine} else {}
  }

  function AddedLines(rows: seq<Row>): set<nat> {
    if rows == [] then {}
    else
      var last := rows[|rows| - 1];
      AddedLines(rows[..|rows| - 1]) + if last.AddedRow? then {last.newLine} else {}
  }

  // The lines that are left when the numbered ones (counting from 1) are deleted.
  function Kept(lines: seq<string>, dropped: set<nat>): seq<string> {
    if lines == [] then []
    else Kept(lines[..|lines| - 1], dropped) + if |lines| in dropped then [] else [lines[|lines| - 1]]
  }

  // How many of the lines 1..n are left.
  function KeptCount(n: nat, dropped: set<nat>): nat {
    if n == 0 then 0 else KeptCount(n - 1, dropped) + if n in dropped then 0 else 1
  }

  // How many unchanged lines precede a row.
  function KeptBefore(row: Row, removed: set<nat>, added: set<nat>): nat {
    match row
    case RemovedRow(oldLine, _) => if oldLine == 0 then 0 else KeptCount(oldLine - 1, removed)
    case AddedRow(newLine, _) => if newLine == 0 then 0 else KeptCount(newLine - 1, added)
    case Ellipsis(oldLine, _, _) => if oldLine == 0 then 0 else KeptCount(oldLine - 1, removed)
    case Meta(_) => 0
  }

  // Each changed row carries the text of the line it names, and numbers grow down the pane.
  ghost predicate RowsNameLines(rows: seq<Row>, a: seq<string>, b: seq<string>) {
    && (forall i | 0 <= i < |rows| && rows[i].RemovedRow? :: 1 <= rows[i].oldLine <= |a| && a[rows[i].oldLine - 1] == rows[i].text)
    && (forall i | 0 <= i < |rows| && rows[i].AddedRow? :: 1 <= rows[i].newLine <= |b| && b[rows[i].newLine - 1] == rows[i].text)
    && (forall i, j | 0 <= i < j < |rows| && rows[i].RemovedRow? && rows[j].RemovedRow? :: rows[i].oldLine < rows[j].oldLine)
    && (forall i, j | 0 <= i < j < |rows| && rows[i].AddedRow? && rows[j].AddedRow? :: rows[i].newLine < rows[j].newLine)
  }

  /** Deleting the removed lines from the old text and the added lines from the new text leaves
      the same lines. */
  ghost predicate FaithfulPatch(rows: seq<Row>, a: seq<string>, b: seq<string>) {
    && RowsNameLines(rows, a, b)
    && Kept(a, RemovedLines(rows)) == Kept(b, AddedLines(rows))
  }

  // An ellipsis announces the position of the change that follows it.
  predicate Announces(ellipsis: Row, next: Row)
    requires ellipsis.Ellipsis?
  {
    match next
    case RemovedRow(oldLine, _) => ellipsis.oldLine == oldLine
    case AddedRow(newLine, _) => ellipsis.newLine == newLine
    case _ => false
  }

  // What may follow what: changes with no unchanged line between them stand side by side,
  // otherwise one ellipsis stands between them, at the position of the second.
  ghost predicate Fits(row: Row, next: Row, removed: set<nat>, added: set<nat>) {
    if row.Changed() && next.Changed() then KeptBefore(row, removed, added) == KeptBefore(next, removed, added)
    else if row.Changed() && next.Ellipsis? then KeptBefore(row, removed, added) < KeptBefore(next, removed, added)
    else
      && row.Ellipsis? && next.Changed() && Announces(row, next)
      && row.oldLine > 0 && row.newLine > 0 && row.text == OMITTED
      && KeptCount(row.newLine - 1, added) == KeptCount(row.oldLine - 1, removed) == KeptBefore(next, removed, added)
  }

  /** Ellipses stand exactly between changed rows that unchanged lines separate. */
  ghost predicate EllipsesExact(rows: seq<Row>, removed: set<nat>, added: set<nat>) {
    && (rows != [] ==> rows[0].Changed() && rows[|rows| - 1].Changed())
    && (forall i, j | 0 <= i < j < |rows| && j == i + 1 :: Fits(rows[i], rows[j], removed, added))
  }

  function ChangedCount(rows: seq<Row>): nat {
    if rows == [] then 0
    else ChangedCount(rows[..|rows| - 1]) + if rows[|rows| - 1].Changed() then 1 else 0
  }

  // ---------------------------------------------------------------- growing the pane

  lemma {:induction false} KeptCountIgnoresLater(n: nat, dropped: set<nat>, later: nat)
    requires n < later
    ensures KeptCount(n, dropped + {later}) == KeptCount(n, dropped)
  {
    if n > 0 { KeptCountIgnoresLater(n - 1, dropped, later); }
  }

  lemma {:induction false} KeptIgnoresLater(lines: seq<string>, dropped: set<nat>, later: nat)
    requires |lines| < later
    ensures Kept(lines, dropped + {later}) == Kept(lines, dropped)
  {
    if lines != [] { KeptIgnoresLater(lines[..|lines| - 1], dropped, later); }
  }

  lemma LinesOfAppended(rows: seq<Row>, row: Row)
    ensures RemovedLines(rows + [row]) == RemovedLines(rows) + if row.RemovedRow? then {row.oldLine} else {}
    ensures AddedLines(rows + [row]) == AddedLines(rows) + if row.AddedRow? then {row.newLine} else {}
    ensures ChangedCount(rows + [row]) == ChangedCount(rows) + if row.Changed() then 1 else 0
  {
    assert (rows + [row])[..|rows|] == rows;
  }

  // Every line number in the rows is below the loop's next one.
  ghost predicate Below(rows: seq<Row>, oldLine: nat, newLine: nat) {
    && (forall i | 0 <= i < |rows| && (rows[i].RemovedRow? || rows[i].Ellipsis?) :: rows[i].oldLine <= oldLine)
    && (forall i | 0 <= i < |rows| && (rows[i].AddedRow? || rows[i].Ellipsis?) :: rows[i].newLine <= newLine)
  }

  ghost predicate SameKept(a: seq<string>, b: seq<string>, removed: set<nat>, added: set<nat>) {
    Kept(a, removed) == Kept(b, added) && KeptCount(|a|, removed) == KeptCount(|b|, added)
  }

  // The last row is a change, followed by unchanged lines exactly when omitted is set.
  ghost predicate Trail(rows: seq<Row>, omitted: bool, kept: nat, removed: set<nat>, added: set<nat>) {
    if rows == [] then !omitted
    else
      var last := rows[|rows| - 1];
      && last.Changed()
      && if omitted then KeptBefore(last, removed, added) < kept else KeptBefore(last, removed, added) == kept
  }

  // What the loop knows after the operations ops: the rows so far, the next line numbers on both
  // sides, and whether unchanged lines lie between the last row and here.
  datatype Pane = Pane(rows: seq<Row>, oldLine: nat, newLine: nat, omitted: bool) {

    ghost predicate Describes(ops: seq<Operation>) {
      && Agrees(OldSide(ops), NewSide(ops), RemovedLines(rows), AddedLines(rows))
      && ChangedCount(rows) == Changes(ops)
    }

    ghost predicate Agrees(a: seq<string>, b: seq<string>, removed: set<nat>, added: set<nat>) {
      && oldLine == |a| + 1 && newLine == |b| + 1
      && (forall n | n in removed :: n < oldLine) && (forall n | n in added :: n < newLine)
      && Below(rows, oldLine, newLine)
      && RowsNameLines(rows, a, b)
      && SameKept(a, b, removed, added)
      && EllipsesExact(rows, removed, added)
      && Trail(rows, omitted, KeptCount(|a|, removed), removed, added)
    }

    // The rows that a removal or an addition pushes.
    function Pushed(op: Operation): seq<Row> {
      (if omitted then [Ellipsis(oldLine, newLine, OMITTED)] else [])
      + [if op.kind.Removed? then RemovedRow(oldLine, op.text) else AddedRow(newLine, op.text)]
    }

    // One step of the loop.
    function After(op: Operation): Pane {
      match op.kind
      case Equal => Pane(rows, oldLine + 1, newLine + 1, rows != [])
      case Removed => Pane(rows + Pushed(op), oldLine + 1, newLine, false)
      case Added => Pane(rows + Pushed(op), oldLine, newLine + 1, false)
    }
  }

  lemma KeptGrows(lines: seq<string>, line: string, dropped: set<nat>)
    ensures Kept(lines + [line], dropped) == Kept(lines, dropped) + if |lines| + 1 in dropped then [] else [line]
  {
    assert (lines + [line])[..|lines|] == lines;
  }

  lemma NamesGrow(rows: seq<Row>, a: seq<string>, b: seq<string>, line: string)
    requires RowsNameLines(rows, a, b)
    ensures RowsNameLines(rows, a + [line], b + [line])
  {
  }

  lemma AfterEqual(pane: Pane, ops: seq<Operation>, op: Operation)
    requires pane.Describes(ops) && op.kind.Equal?
    ensures pane.After(op).Describes(ops + [op])
  {
    hide OldSide, NewSide, Changes, Kept, RowsNameLines, EllipsesExact, RemovedLines, AddedLines, ChangedCount;
    Append(ops, op);
    NamesGrow(pane.rows, OldSide(ops), NewSide(ops), op.text);
    KeptGrows(OldSide(ops), op.text, RemovedLines(pane.rows));
    KeptGrows(NewSide(ops), op.text, AddedLines(pane.rows));
  }

  lemma PushedLines(pane: Pane, op: Operation)
    requires !op.kind.Equal?
    ensures RemovedLines(pane.rows + pane.Pushed(op)) == RemovedLines(pane.rows) + if op.kind.Removed? then {pane.oldLine} else {}
    ensures AddedLines(pane.rows + pane.Pushed(op)) == AddedLines(pane.rows) + if op.kind.Added? then {pane.newLine} else {}
    ensures ChangedCount(pane.rows + pane.Pushed(op)) == ChangedCount(pane.rows) + 1
  {
    hide RemovedLines, AddedLines, ChangedCount;
    var ellipsis := Ellipsis(pane.oldLine, pane.newLine, OMITTED);
    var row := if op.kind.Removed? then RemovedRow(pane.oldLine, op.text) else AddedRow(pane.newLine, op.text);
    LinesOfAppended(pane.rows, ellipsis);
    LinesOfAppended(if pane.omitted then pane.rows + [ellipsis] else pane.rows, row);
    assert pane.rows + pane.Pushed(op) == (if pane.omitted then pane.rows + [ellipsis] else pane.rows) + [row];
  }

  lemma NamesAppend(rows: seq<Row>, row: Row, a: seq<string>, b: seq<string>, moreA: seq<string>, moreB: seq<string>)
    requires RowsNameLines(rows, a, b)
    requires row.RemovedRow? ==> row.oldLine == |a| + 1 && moreA == [row.text]
    requires row.AddedRow? ==> row.newLine == |b| + 1 && moreB == [row.text]
    ensures RowsNameLines(rows + [row], a + moreA, b + moreB)
  {
  }

  lemma PushedNames(pane: Pane, a: seq<string>, b: seq<string>, op: Operation)
    requires pane.oldLine == |a| + 1 && pane.newLine == |b| + 1
    requires RowsNameLines(pane.rows, a, b) && !op.kind.Equal?
    ensures RowsNameLines(pane.rows + pane.Pushed(op),
                          if op.kind.Removed? then a + [op.text] else a,
                          if op.kind.Added? then b + [op.text] else b)
  {
    hide RowsNameLines;
    var ellipsis := Ellipsis(pane.oldLine, pane.newLine, OMITTED);
    var row := if op.kind.Removed? then RemovedRow(pane.oldLine, op.text) else AddedRow(pane.newLine, op.text);
    assert a + [] == a && b + [] == b;
    NamesAppend(pane.rows, ellipsis, a, b, [], []);
    var rows := if pane.omitted then pane.rows + [ellipsis] else pane.rows;
    NamesAppend(rows, row, a, b, if op.kind.Removed? then [op.text] else [], if op.kind.Added? then [op.text] else []);
    assert pane.rows + pane.Pushed(op) == rows + [row];
  }

  lemma PushedKept(a: seq<string>, b: seq<string>, removed: set<nat>, added: set<nat>, op: Operation)
    requires SameKept(a, b, removed, added) && !op.kind.Equal?
    ensures op.kind.Removed? ==>
              && SameKept(a + [op.text], b, removed + {|a| + 1}, added)
              && KeptCount(|a| + 1, removed + {|a| + 1}) == KeptCount(|a|, removed + {|a| + 1}) == KeptCount(|a|, removed)
    ensures op.kind.Added? ==>
              && SameKept(a, b + [op.text], removed, added + {|b| + 1})
              && KeptCount(|b|, added + {|b| + 1}) == KeptCount(|b|, added)
    ensures KeptCount(|a|, removed) == KeptCount(|b|, added)
  {
    if op.kind.Removed? {
      KeptIgnoresLater(a, removed, |a| + 1);
      KeptCountIgnoresLater(|a|, removed, |a| + 1);
      KeptGrows(a, op.text, removed + {|a| + 1});
    } else {
      KeptIgnoresLater(b, added, |b| + 1);
      KeptCountIgnoresLater(|b|, added, |b| + 1);
      KeptGrows(b, op.text, added + {|b| + 1});
    }
  }

  // Line numbers past the lines seen so far change nothing for the rows already there.
  lemma RowStable(row: Row, removed: set<nat>, added: set<nat>, oldLine: nat, newLine: nat, removed': set<nat>, added': set<nat>)
    requires removed' == removed || removed' == removed + {oldLine}
    requires added' == added || added' == added + {newLine}
    requires Below([row], oldLine, newLine)
    ensures KeptBefore(row, removed', added') == KeptBefore(row, removed, added)
    ensures row.Ellipsis? && row.newLine > 0 ==> KeptCount(row.newLine - 1, added') == KeptCount(row.newLine - 1, added)
  {
    assert [row][0] == row;
    if !row.AddedRow? && !row.Meta? && row.oldLine > 0 { KeptCountIgnoresLater(row.oldLine - 1, removed, oldLine); }
    if !row.RemovedRow? && !row.Meta? && row.newLine > 0 { KeptCountIgnoresLater(row.newLine - 1, added, newLine); }
  }

  lemma OldRowsStable(rows: seq<Row>, removed: set<nat>, added: set<nat>, oldLine: nat, newLine: nat,
                      removed': set<nat>, added': set<nat>, omitted: bool, kept: nat)
    requires EllipsesExact(rows, removed, added)
    requires removed' == removed || removed' == removed + {oldLine}
    requires added' == added || added' == added + {newLine}
    requires Below(rows, oldLine, newLine)
    requires Trail(rows, omitted, kept, removed, added)
    ensures EllipsesExact(rows, removed', added')
    ensures Trail(rows, omitted, kept, removed', added')
  {
    forall i | 0 <= i < |rows|
      ensures KeptBefore(rows[i], removed', added') == KeptBefore(rows[i], removed, added)
      ensures rows[i].Ellipsis? && rows[i].newLine > 0 ==> KeptCount(rows[i].newLine - 1, added') == KeptCount(rows[i].newLine - 1, added)
    {
      RowStable(rows[i], removed, added, oldLine, newLine, removed', added');
    }
    forall i, j | 0 <= i < j < |rows| && j == i + 1 ensures Fits(rows[i], rows[j], removed', added') {
      assert Fits(rows[i], rows[j], removed, added);
    }
  }

  lemma PushedEllipses(pane: Pane, removed: set<nat>, added: set<nat>, kept: nat, op: Operation)
    requires EllipsesExact(pane.rows, removed, added) && !op.kind.Equal?
    requires Trail(pane.rows, pane.omitted, kept, removed, added)
    requires pane.oldLine > 0 && pane.newLine > 0
    requires KeptCount(pane.oldLine - 1, removed) == KeptCount(pane.newLine - 1, added) == kept
    ensures var rows' := pane.rows + pane.Pushed(op);
            EllipsesExact(rows', removed, added) && Trail(rows', false, kept, removed, added)
  {
    var rows' := pane.rows + pane.Pushed(op);
    assert |pane.rows| > 0 && pane.omitted ==> Fits(pane.rows[|pane.rows| - 1], rows'[|pane.rows|], removed, added);
  }

  lemma PushedBelow(pane: Pane, op: Operation)
    requires Below(pane.rows, pane.oldLine, pane.newLine)
    ensures Below(pane.rows + pane.Pushed(op), pane.oldLine + 1, pane.newLine)
    ensures Below(pane.rows + pane.Pushed(op), pane.oldLine, pane.newLine + 1)
  {
  }

  lemma RemovalAgrees(pane: Pane, a: seq<string>, b: seq<string>, removed: set<nat>, added: set<nat>, op: Operation)
    requires pane.Agrees(a, b, removed, added) && op.kind.Removed?
    ensures pane.After(op).Agrees(a + [op.text], b, removed + {pane.oldLine}, added)
  {
    hide RowsNameLines, EllipsesExact, SameKept, Trail, Below, Kept, KeptCount;
    PushedBelow(pane, op);
    PushedNames(pane, a, b, op);
    PushedKept(a, b, removed, added, op);
    OldRowsStable(pane.rows, removed, added, pane.oldLine, pane.newLine, removed + {pane.oldLine}, added, pane.omitted, KeptCount(|a|, removed));
    PushedEllipses(pane, removed + {pane.oldLine}, added, KeptCount(|a|, removed), op);
  }

  lemma AdditionAgrees(pane: Pane, a: seq<string>, b: seq<string>, removed: set<nat>, added: set<nat>, op: Operation)
    requires pane.Agrees(a, b, removed, added) && op.kind.Added?
    ensures pane.After(op).Agrees(a, b + [op.text], removed, added + {pane.newLine})
  {
    hide RowsNameLines, EllipsesExact, SameKept, Trail, Below, Kept, KeptCount;
    PushedBelow(pane, op);
    PushedNames(pane, a, b, op);
    PushedKept(a, b, removed, added, op);
    OldRowsStable(pane.rows, removed, added, pane.oldLine, pane.newLine, removed, added + {pane.newLine}, pane.omitted, KeptCount(|a|, removed));
    PushedEllipses(pane, removed, added + {pane.newLine}, KeptCount(|a|, removed), op);
  }

  lemma AfterRemoval(pane: Pane, ops: seq<Operation>, op: Operation)
    requires pane.Describes(ops) && op.kind.Removed?
    ensures pane.After(op).Describes(ops + [op])
  {
    hide OldSide, NewSide, Changes, RemovedLines, AddedLines, ChangedCount;
    RemovalAgrees(pane, OldSide(ops), NewSide(ops), RemovedLines(pane.rows), AddedLines(pane.rows), op);
    hide Pane.Agrees;
    Append(ops, op);
    PushedLines(pane, op);
    assert NewSide(ops) + [] == NewSide(ops);
    assert AddedLines(pane.rows) + {} == AddedLines(pane.rows);
  }

  lemma AfterAddition(pane: Pane, ops: seq<Operation>, op: Operation)
    requires pane.Describes(ops) && op.kind.Added?
    ensures pane.After(op).Describes(ops + [op])
  {
    hide OldSide, NewSide, Changes, RemovedLines, AddedLines, ChangedCount;
    AdditionAgrees(pane, OldSide(ops), NewSide(ops), RemovedLines(pane.rows), AddedLines(pane.rows), op);
    hide Pane.Agrees;
    Append(ops, op);
    PushedLines(pane, op);
    assert OldSide(ops) + [] == OldSide(ops);
    assert RemovedLines(pane.rows) + {} == RemovedLines(pane.rows);
  }

  // ---------------------------------------------------------------- the method

  ghost predicate EndsWith(rows: seq<Row>, tail: seq<Row>) {
    |tail| <= |rows| && rows[|rows| - |tail|..] == tail
  }

  // The closing remark, when only one of the texts ends in a line feed.
  function NewlineRemark(original: string, current: string): seq<Row> {
    if EndsInFeed(original) == EndsInFeed(current) then []
    else if EndsInFeed(current) then [Meta("New file ends with a newline")]
    else [Meta("New file does not end with a newline")]
  }

  // The changes of a script, and those the rows show, in order.
  function ChangesOf(ops: seq<Operation>): seq<Operation> {
    if ops == [] then []
    else ChangesOf(ops[..|ops| - 1]) + if ops[|ops| - 1].kind.Equal? then [] else [ops[|ops| - 1]]
  }

  function ShownBy(rows: seq<Row>): seq<Operation> {
    if rows == [] then []
    else
      ShownBy(rows[..|rows| - 1])
      + match rows[|rows| - 1]
        case RemovedRow(_, text) => [Operation(Removed, text)]
        case AddedRow(_, text) => [Operation(Added, text)]
        case _ => []
  }

  lemma ShownMore(rows: seq<Row>, row: Row, ops: seq<Operation>, op: Operation)
    ensures ShownBy(rows + [row]) == ShownBy(rows) + match row case RemovedRow(_, text) => [Operation(Removed, text)]
                                                               case AddedRow(_, text) => [Operation(Added, text)]
                                                               case _ => []
    ensures ChangesOf(ops + [op]) == ChangesOf(ops) + if op.kind.Equal? then [] else [op]
  {
    assert (rows + [row])[..|rows|] == rows && (ops + [op])[..|ops|] == ops;
  }

  lemma {:induction false} NoChanges(ops: seq<Operation>)
    requires Changes(ops) == 0
    ensures OldSide(ops) == NewSide(ops) && EqualCount(ops) == |OldSide(ops)|
  {
    if ops != [] { NoChanges(ops[..|ops| - 1]); }
  }

  lemma {:induction false} KeepEverything(lines: seq<string>) returns (ops: seq<Operation>)
    ensures IsScript(ops, lines, lines) && Changes(ops) == 0
  {
    ops := [];
    if lines != [] {
      var init := KeepEverything(lines[..|lines| - 1]);
      Append(init, Operation(Equal, lines[|lines| - 1]));
      ops := init + [Operation(Equal, lines[|lines| - 1])];
    }
  }

  lemma NothingChanged(ops: seq<Operation>, a: seq<string>, b: seq<string>)
    requires IsScript(ops, a, b)
    requires |a| * |b| <= MAX_LCS_CELLS ==> Minimal(ops, a, b)
    requires |a| * |b| > MAX_LCS_CELLS ==> EqualCount(ops) == 0
    ensures Changes(ops) == 0 <==> a == b && |a| * |b| <= MAX_LCS_CELLS
  {
    if Changes(ops) == 0 { NoChanges(ops); }
    if a == b { var all := KeepEverything(a); }
  }

  lemma {:induction false} ChangedRowsCounted(rows: seq<Row>)
    ensures ChangedCount(rows) == 0 <==> forall i | 0 <= i < |rows| :: !rows[i].Changed()
  {
    if rows != [] { ChangedRowsCounted(rows[..|rows| - 1]); }
  }

  /** What the pane shows between two line lists: a faithful patch with exact ellipses, as short
      as any edit script when the table limit was not exceeded, and empty exactly when the lists
      are equal and the limit was not exceeded. */
  ghost predicate ShowsChanges(changes: seq<Row>, a: seq<string>, b: seq<string>) {
    && FaithfulPatch(changes, a, b)
    && EllipsesExact(changes, RemovedLines(changes), AddedLines(changes))
    && (|a| * |b| <= MAX_LCS_CELLS ==> forall ops | IsScript(ops, a, b) :: ChangedCount(changes) <= Changes(ops))
    && (changes == [] <==> a == b && |a| * |b| <= MAX_LCS_CELLS)
  }

  lemma PaneShows(pane: Pane, ops: seq<Operation>, a: seq<string>, b: seq<string>)
    requires pane.Describes(ops) && IsScript(ops, a, b)
    requires |a| * |b| <= MAX_LCS_CELLS ==> Minimal(ops, a, b)
    requires |a| * |b| > MAX_LCS_CELLS ==> EqualCount(ops) == 0
    ensures ShowsChanges(pane.rows, a, b)
  {
    NothingChanged(ops, a, b);
    ChangedRowsCounted(pane.rows);
  }

  lemma EmptyPane()
    ensures Pane([], 1, 1, false).Describes([]) && ShownBy([]) == ChangesOf([])
  {
  }

  // The changes are shown in the order of the first minimal script.
  ghost predicate InOrder(changes: seq<Row>, a: seq<string>, b: seq<string>) {
    exists ops :: FirstMinimal(ops, a, b) && ShownBy(changes) == ChangesOf(ops)
  }

  method BuildChangedLineDiff(originalSource: string, currentSource: string) returns (rows: seq<Row>, tooLarge: bool)
    ensures tooLarge <==> |SourceLines(originalSource).lines| + |SourceLines(currentSource).lines| > 20_000
    ensures tooLarge ==> rows == []
    ensures !tooLarge ==>
              var original, current := SourceLines(originalSource).lines, SourceLines(currentSource).lines;
              var remark := NewlineRemark(originalSource, currentSource);
              && EndsWith(rows, remark) && ShowsChanges(rows[..|rows| - |remark|], original, current)
              && (|original| * |current| <= 4_000_000 ==> InOrder(rows[..|rows| - |remark|], original, current))
              && (rows == [] <==> SameLines(originalSource, currentSource) && |original| * |current| <= 4_000_000)
  {
    hide ShowsChanges, Pane.Describes, Minimal, FirstMinimal, IsScript, SourceLines, IsLcsLength, SameLines, ShownBy, ChangesOf;
    var original, current := SourceLines(originalSource), SourceLines(currentSource);
    if |original.lines| + |current.lines| > MAX_DIFF_LINES {
      return [], true;
    }
    var operations := ChangedMiddle(original.lines, current.lines);
    EmptyPane();
    rows, tooLarge := [], false;
    var oldLine, newLine, omitted := 1, 1, false;
    for index := 0 to |operations|
      invariant oldLine >= 1 && newLine >= 1
      invariant Pane(rows, oldLine, newLine, omitted).Describes(operations[..index])
      invariant ShownBy(rows) == ChangesOf(operations[..index])
    {
      var operation := operations[index];
      ghost var pane := Pane(rows, oldLine, newLine, omitted);
      assert operations[..index + 1] == operations[..index] + [operation];
      if operation.kind == Equal {
        AfterEqual(pane, operations[..index], operation);
        ShownMore(rows, Meta(""), operations[..index], operation);
        omitted := |rows| > 0;
        oldLine, newLine := oldLine + 1, newLine + 1;
        continue;
      }
      if omitted {
        ShownMore(rows, Ellipsis(oldLine, newLine, OMITTED), operations[..index], operation);
        rows := rows + [Ellipsis(oldLine, newLine, OMITTED)];
        omitted := false;
      }
      if operation.kind == Removed {
        AfterRemoval(pane, operations[..index], operation);
        ShownMore(rows, RemovedRow(oldLine, operation.text), operations[..index], operation);
        rows := rows + [RemovedRow(oldLine, operation.text)];
        oldLine := oldLine + 1;
      } else {
        AfterAddition(pane, operations[..index], operation);
        ShownMore(rows, AddedRow(newLine, operation.text), operations[..index], operation);
        rows := rows + [AddedRow(newLine, operation.text)];
        newLine := newLine + 1;
      }
      assert Pane(rows, oldLine, newLine, omitted) == pane.After(operation);
    }
    assert operations[..|operations|] == operations;
    PaneShows(Pane(rows, oldLine, newLine, omitted), operations, original.lines, current.lines);
    ghost var changes := rows;
    if original.trailingNewline != current.trailingNewline {
      rows := rows + [Meta(if current.trailingNewline then "New file ends with a newline" else "New file does not end with a newline")];
    }
    TrailingFeed(originalSource);
    TrailingFeed(currentSource);
    SplitAlike(originalSource, currentSource);
    assert rows == changes + NewlineRemark(originalSource, currentSource);
    assert rows[..|rows| - |NewlineRemark(originalSource, currentSource)|] == changes;
    ShowsWhetherEqual(changes, original.lines, current.lines);
  }

  lemma ShowsWhetherEqual(changes: seq<Row>, a: seq<string>, b: seq<string>)
    requires ShowsChanges(changes, a, b)
    ensures changes == [] <==> a == b && |a| * |b| <= MAX_LCS_CELLS
  {
  }
}
