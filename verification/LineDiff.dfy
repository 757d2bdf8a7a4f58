/**
 The line diff of the review pane (line-diff.ts): splitting a text into lines, the
 longest-common-subsequence table and the walk over it that emits an edit script, and the
 rows with line numbers that the pane shows.
 */
module LineDiff {

  const MAX_DIFF_LINES := 20_000
  const MAX_LCS_CELLS := 4_000_000

  // ---------------------------------------------------------------- source lines

  datatype SourceText = SourceText(lines: seq<string>, trailingNewline: bool)

  // replaceAll("\r\n", "\n"): one left-to-right pass, so "\r\r\n" becomes "\r\n".
  function Normalize(source: string): string {
    if |source| < 2 then source
    else if source[0] == '\r' && source[1] == '\n' then "\n" + Normalize(source[2..])
    else [source[0]] + Normalize(source[1..])
  }

  function Split(text: string): (pieces: seq<string>)
    ensures pieces != []
  {
    if text == "" then [""]
    else if text[0] == '\n' then [""] + Split(text[1..])
    else var rest := Split(text[1..]); [[text[0]] + rest[0]] + rest[1..]
  }

  function SourceLines(source: string): SourceText {
    if source == "" then SourceText([], false)
    else
      var normalized := Normalize(source);
      var trailing := normalized != "" && normalized[|normalized| - 1] == '\n';
      var lines := Split(normalized);
      SourceText(if trailing then lines[..|lines| - 1] else lines, trailing)
  }

  // The text that a list of lines stands for.
  function Join(lines: seq<string>): string {
    if lines == [] then ""
    else if |lines| == 1 then lines[0]
    else lines[0] + "\n" + Join(lines[1..])
  }

  function TextOf(t: SourceText): string {
    Join(t.lines) + if t.trailingNewline then "\n" else ""
  }

  lemma {:induction false} SplitJoin(text: string)
    ensures Join(Split(text)) == text
  {
    if text != "" {
      SplitJoin(text[1..]);
      var rest := Split(text[1..]);
      if text[0] == '\n' {
        assert Split(text)[1..] == rest;
      } else if |rest| > 1 {
        assert Split(text)[1..] == rest[1..];
      }
    }
  }

  lemma {:induction false} SplitPieces(text: string)
    ensures forall k | 0 <= k < |Split(text)| :: '\n' !in Split(text)[k]
  {
    if text != "" { SplitPieces(text[1..]); }
  }

  lemma {:induction false} SplitEnd(text: string)
    requires text != "" && text[|text| - 1] == '\n'
    ensures |Split(text)| >= 2 && Split(text)[|Split(text)| - 1] == ""
  {
    if |text| > 1 { SplitEnd(text[1..]); }
  }

  lemma {:induction false} JoinInit(lines: seq<string>)
    requires |lines| >= 2 && lines[|lines| - 1] == ""
    ensures Join(lines) == Join(lines[..|lines| - 1]) + "\n"
  {
    if |lines| > 2 {
      JoinInit(lines[1..]);
      assert lines[..|lines| - 1][1..] == lines[1..][..|lines| - 2];
    }
  }

  lemma LastPiece(text: string)
    requires text != "" && text[|text| - 1] == '\n'
    ensures |Split(text)| >= 2
    ensures Split(text)[|Split(text)| - 1] == ""
    ensures Join(Split(text)[..|Split(text)| - 1]) + "\n" == text
  {
    SplitJoin(text);
    SplitEnd(text);
    JoinInit(Split(text));
  }

  lemma {:induction false} NormalizeEmpty(source: string)
    ensures Normalize(source) == "" <==> source == ""
  {
  }

  /** Splitting loses nothing but the carriage returns that normalising drops, and no line
      contains a line break. */
  lemma SourceLinesRoundTrip(source: string)
    ensures TextOf(SourceLines(source)) == Normalize(source)
    ensures forall line | line in SourceLines(source).lines :: '\n' !in line
  {
    NormalizeEmpty(source);
    var normalized := Normalize(source);
    if source != "" {
      SplitJoin(normalized);
      SplitPieces(normalized);
      if normalized[|normalized| - 1] == '\n' { LastPiece(normalized); }
    }
  }

  lemma SourceLinesInjective(left: string, right: string)
    ensures SourceLines(left) == SourceLines(right) <==> Normalize(left) == Normalize(right)
  {
    SourceLinesRoundTrip(left);
    SourceLinesRoundTrip(right);
    NormalizeEmpty(left);
    NormalizeEmpty(right);
  }

  // ---------------------------------------------------------------- edit scripts

  datatype Kind = Equal | Removed | Added
  datatype Operation = Operation(kind: Kind, text: string)

  function OldSide(ops: seq<Operation>): seq<string> {
    if ops == [] then []
    else
      var last := ops[|ops| - 1];
      OldSide(ops[..|ops| - 1]) + if last.kind.Added? then [] else [last.text]
  }

  function NewSide(ops: seq<Operation>): seq<string> {
    if ops == [] then []
    else
      var last := ops[|ops| - 1];
      NewSide(ops[..|ops| - 1]) + if last.kind.Removed? then [] else [last.text]
  }

  function EqualCount(ops: seq<Operation>): nat {
    if ops == [] then 0
    else EqualCount(ops[..|ops| - 1]) + if ops[|ops| - 1].kind.Equal? then 1 else 0
  }

  function Changes(ops: seq<Operation>): nat {
    if ops == [] then 0
    else Changes(ops[..|ops| - 1]) + if ops[|ops| - 1].kind.Equal? then 0 else 1
  }

  ghost predicate IsScript(ops: seq<Operation>, a: seq<string>, b: seq<string>) {
    OldSide(ops) == a && NewSide(ops) == b
  }

  /** No edit script from a to b has fewer removals plus additions. */
  ghost predicate Minimal(ops: seq<Operation>, a: seq<string>, b: seq<string>) {
    && IsScript(ops, a, b)
    && forall other | IsScript(other, a, b) :: Changes(ops) <= Changes(other)
  }

  lemma Append(ops: seq<Operation>, op: Operation)
    ensures OldSide(ops + [op]) == OldSide(ops) + if op.kind.Added? then [] else [op.text]
    ensures NewSide(ops + [op]) == NewSide(ops) + if op.kind.Removed? then [] else [op.text]
    ensures EqualCount(ops + [op]) == EqualCount(ops) + if op.kind.Equal? then 1 else 0
    ensures Changes(ops + [op]) == Changes(ops) + if op.kind.Equal? then 0 else 1
  {
    assert (ops + [op])[..|ops|] == ops;
  }

  lemma {:induction false} ChangesCount(ops: seq<Operation>)
    ensures Changes(ops) + 2 * EqualCount(ops) == |OldSide(ops)| + |NewSide(ops)|
  {
    if ops != [] { ChangesCount(ops[..|ops| - 1]); }
  }

  // ---------------------------------------------------------------- longest common subsequence

  // A common subsequence, given by its index pairs in increasing order.
  ghost predicate IsMatching(m: seq<(nat, nat)>, a: seq<string>, b: seq<string>) {
    && (forall k | 0 <= k < |m| :: m[k].0 < |a| && m[k].1 < |b| && a[m[k].0] == b[m[k].1])
    && (forall k, l | 0 <= k < l < |m| :: m[k].0 < m[l].0 && m[k].1 < m[l].1)
  }

  ghost predicate IsLcsLength(n: nat, a: seq<string>, b: seq<string>) {
    && (exists m | IsMatching(m, a, b) :: |m| == n)
    && (forall m | IsMatching(m, a, b) :: |m| <= n)
  }

  // The recurrence the table is filled with, on the suffixes a[i..] and b[j..].
  function Lcs(a: seq<string>, b: seq<string>, i: nat, j: nat): (n: nat)
    requires i <= |a| && j <= |b|
    ensures n <= |a| - i && n <= |b| - j
    decreases |a| - i + |b| - j
  {
    if i == |a| || j == |b| then 0
    else if a[i] == b[j] then Lcs(a, b, i + 1, j + 1) + 1
    else
      var below := Lcs(a, b, i + 1, j);
      var right := Lcs(a, b, i, j + 1);
      if below >= right then below else right
  }

  lemma {:induction false} LcsBoundsMatching(m: seq<(nat, nat)>, a: seq<string>, b: seq<string>, i: nat, j: nat)
    requires IsMatching(m, a, b) && i <= |a| && j <= |b|
    requires forall k | 0 <= k < |m| :: i <= m[k].0 && j <= m[k].1
    ensures |m| <= Lcs(a, b, i, j)
    decreases |a| - i + |b| - j
  {
    hide Lcs;
    if m != [] {
      assert i <= m[0].0 < |a| && j <= m[0].1 < |b|;
      LcsSteps(a, b, i, j);
      if a[i] == b[j] {
        assert forall k | 0 <= k < |m[1..]| :: m[1..][k] == m[k + 1] && m[0].0 < m[k + 1].0 && m[0].1 < m[k + 1].1;
        LcsBoundsMatching(m[1..], a, b, i + 1, j + 1);
        LcsOfEqual(a, b, i, j);
      } else if m[0].0 > i {
        assert forall k | 0 < k < |m| :: m[0].0 < m[k].0;
        LcsBoundsMatching(m, a, b, i + 1, j);
      } else {
        assert forall k | 0 < k < |m| :: m[0].1 < m[k].1;
        LcsBoundsMatching(m, a, b, i, j + 1);
      }
    }
  }

  // The index pairs of the lines a script keeps.
  ghost function MatchingOf(ops: seq<Operation>): seq<(nat, nat)> {
    if ops == [] then []
    else
      var init := ops[..|ops| - 1];
      MatchingOf(init) + if ops[|ops| - 1].kind.Equal? then [(|OldSide(init)|, |NewSide(init)|)] else []
  }

  lemma MatchingGrows(m: seq<(nat, nat)>, a: seq<string>, b: seq<string>, moreA: seq<string>, moreB: seq<string>)
    requires IsMatching(m, a, b)
    ensures IsMatching(m, a + moreA, b + moreB)
  {
  }

  lemma MatchingExtends(m: seq<(nat, nat)>, a: seq<string>, b: seq<string>, line: string)
    requires IsMatching(m, a, b)
    ensures IsMatching(m + [(|a|, |b|)], a + [line], b + [line])
  {
  }

  lemma {:induction false} MatchingOfScript(ops: seq<Operation>)
    ensures IsMatching(MatchingOf(ops), OldSide(ops), NewSide(ops))
    ensures |MatchingOf(ops)| == EqualCount(ops)
  {
    if ops != [] {
      var init, last := ops[..|ops| - 1], ops[|ops| - 1];
      MatchingOfScript(init);
      hide IsMatching;
      MatchingExtends(MatchingOf(init), OldSide(init), NewSide(init), last.text);
      MatchingGrows(MatchingOf(init), OldSide(init), NewSide(init),
                    if last.kind.Added? then [] else [last.text], if last.kind.Removed? then [] else [last.text]);
    }
  }

  /** Keeping as many lines as the recurrence allows is both the length of the longest common
      subsequence and the smallest number of changes. */
  lemma KeepingLcsIsMinimal(ops: seq<Operation>, a: seq<string>, b: seq<string>)
    requires IsScript(ops, a, b) && EqualCount(ops) == Lcs(a, b, 0, 0)
    ensures IsLcsLength(EqualCount(ops), a, b)
    ensures Minimal(ops, a, b)
  {
    MatchingOfScript(ops);
    ChangesCount(ops);
    forall m | IsMatching(m, a, b) ensures |m| <= EqualCount(ops) {
      LcsBoundsMatching(m, a, b, 0, 0);
    }
    forall other | IsScript(other, a, b) ensures Changes(ops) <= Changes(other) {
      MatchingOfScript(other);
      ChangesCount(other);
      LcsBoundsMatching(MatchingOf(other), a, b, 0, 0);
    }
  }

  // ---------------------------------------------------------------- walking to the optimum

  // How far a walk has come: it has spelled out a[..i] and b[..j] and can still reach the optimum.
  ghost predicate OnCourse(ops: seq<Operation>, a: seq<string>, b: seq<string>, i: nat, j: nat) {
    && i <= |a| && j <= |b|
    && IsScript(ops, a[..i], b[..j])
    && EqualCount(ops) + Lcs(a, b, i, j) == Lcs(a, b, 0, 0)
  }

  lemma WalkStep(ops: seq<Operation>, op: Operation, a: seq<string>, b: seq<string>, i: nat, j: nat)
    requires OnCourse(ops, a, b, i, j)
    requires op.kind.Equal? ==> i < |a| && j < |b| && a[i] == b[j] == op.text
    requires op.kind.Removed? ==> i < |a| && a[i] == op.text && Lcs(a, b, i + 1, j) == Lcs(a, b, i, j)
    requires op.kind.Added? ==> j < |b| && b[j] == op.text && Lcs(a, b, i, j + 1) == Lcs(a, b, i, j)
    ensures OnCourse(ops + [op], a, b, if op.kind.Added? then i else i + 1, if op.kind.Removed? then j else j + 1)
  {
    Append(ops, op);
  }

  // One step of the walk; the operation is the only one possible or the first that keeps the optimum.
  lemma BestStep(ops: seq<Operation>, op: Operation, a: seq<string>, b: seq<string>, i: nat, j: nat)
    requires OnCourse(ops, a, b, i, j) && Leads(ops, a, b)
    requires op.kind.Equal? ==> i < |a| && j < |b| && a[i] == b[j] == op.text
    requires op.kind.Removed? ==>
               i < |a| && a[i] == op.text && (j == |b| || (a[i] != b[j] && Lcs(a, b, i + 1, j) == Lcs(a, b, i, j)))
    requires op.kind.Added? ==>
               && j < |b| && b[j] == op.text
               && (i == |a| || (a[i] != b[j] && Lcs(a, b, i + 1, j) < Lcs(a, b, i, j) && Lcs(a, b, i, j + 1) == Lcs(a, b, i, j)))
    ensures OnCourse(ops + [op], a, b, if op.kind.Added? then i else i + 1, if op.kind.Removed? then j else j + 1)
    ensures Leads(ops + [op], a, b)
  {
    WalkStep(ops, op, a, b, i, j);
    LeadStep(ops, op, a, b, i, j);
  }

  lemma WalkStarts(a: seq<string>, b: seq<string>)
    ensures OnCourse([], a, b, 0, 0) && Leads([], a, b)
  {
    assert a[..0] == [] && b[..0] == [];
  }

  // ---------------------------------------------------------------- the first of the best scripts

  function Rank(kind: Kind): nat {
    match kind case Equal => 0 case Removed => 1 case Added => 2
  }

  // ops comes no later than other in the order of their kinds.
  ghost predicate NoLater(ops: seq<Operation>, other: seq<Operation>) {
    || ops <= other
    || exists p | 0 <= p < |ops| :: p < |other| && ops[..p] == other[..p] && Rank(ops[p].kind) < Rank(other[p].kind)
  }

  /** Of all minimal scripts this one is the first: it keeps a line as soon as it can, and removes
      before it adds. */
  ghost predicate FirstMinimal(ops: seq<Operation>, a: seq<string>, b: seq<string>) {
    Minimal(ops, a, b) && forall other | Minimal(other, a, b) :: NoLater(ops, other)
  }

  ghost predicate Leads(ops: seq<Operation>, a: seq<string>, b: seq<string>) {
    forall other | IsScript(other, a, b) && EqualCount(other) == Lcs(a, b, 0, 0) :: NoLater(ops, other)
  }

  lemma {:induction false} LcsSteps(a: seq<string>, b: seq<string>, i: nat, j: nat)
    requires i <= |a| && j <= |b|
    ensures i < |a| ==> Lcs(a, b, i + 1, j) <= Lcs(a, b, i, j) <= Lcs(a, b, i + 1, j) + 1
    ensures j < |b| ==> Lcs(a, b, i, j + 1) <= Lcs(a, b, i, j) <= Lcs(a, b, i, j + 1) + 1
    decreases |a| - i + |b| - j
  {
    if i < |a| && j < |b| {
      LcsSteps(a, b, i + 1, j);
      LcsSteps(a, b, i, j + 1);
    }
  }

  // What a script has spelled out after n operations, and the most it can still keep.
  lemma {:induction false} Reach(other: seq<Operation>, n: nat, a: seq<string>, b: seq<string>)
    requires IsScript(other, a, b) && n <= |other|
    ensures var i, j := |OldSide(other[..n])|, |NewSide(other[..n])|;
            && i <= |a| && j <= |b| && OldSide(other[..n]) == a[..i] && NewSide(other[..n]) == b[..j]
            && EqualCount(other) <= EqualCount(other[..n]) + Lcs(a, b, i, j)
    decreases |other| - n
  {
    if n == |other| {
      assert other[..n] == other;
    } else {
      Reach(other, n + 1, a, b);
      assert other[..n + 1] == other[..n] + [other[n]];
      ReachBack(other[..n], other[n], a, b);
    }
  }

  lemma ReachBack(ops: seq<Operation>, op: Operation, a: seq<string>, b: seq<string>)
    requires OldSide(ops + [op]) <= a && NewSide(ops + [op]) <= b
    ensures OldSide(ops) <= a && NewSide(ops) <= b
    ensures EqualCount(ops + [op]) + Lcs(a, b, |OldSide(ops + [op])|, |NewSide(ops + [op])|)
         <= EqualCount(ops) + Lcs(a, b, |OldSide(ops)|, |NewSide(ops)|)
  {
    Append(ops, op);
    var i, j := |OldSide(ops)|, |NewSide(ops)|;
    NextOperation(ops, op, a, b, i, j);
    LcsSteps(a, b, i, j);
    if op.kind.Equal? { LcsOfEqual(a, b, i, j); }
    hide Lcs, EqualCount, OldSide, NewSide;
  }

  lemma LcsOfEqual(a: seq<string>, b: seq<string>, i: nat, j: nat)
    requires i < |a| && j < |b| && a[i] == b[j]
    ensures Lcs(a, b, i, j) == Lcs(a, b, i + 1, j + 1) + 1
  {
  }

  lemma LeadNext(ops: seq<Operation>, op: Operation, a: seq<string>, b: seq<string>, i: nat, j: nat, other: seq<Operation>)
    requires OnCourse(ops, a, b, i, j) && (i < |a| || j < |b|)
    requires IsScript(other, a, b) && EqualCount(other) == Lcs(a, b, 0, 0) && ops < other
    requires op.kind.Equal? ==> i < |a| && j < |b| && a[i] == b[j] == op.text
    requires op.kind.Removed? ==> i < |a| && a[i] == op.text && (j == |b| || a[i] != b[j])
    requires op.kind.Added? ==> j < |b| && b[j] == op.text && (i == |a| || (a[i] != b[j] && Lcs(a, b, i + 1, j) < Lcs(a, b, i, j)))
    ensures other[|ops|] == op || Rank(op.kind) < Rank(other[|ops|].kind)
  {
    var n, next := |ops|, other[|ops|];
    assert other[..n] == ops && other[..n + 1] == ops + [next];
    Append(ops, next);
    Reach(other, n + 1, a, b);
    hide Lcs, EqualCount, OldSide, NewSide;
    NextOperation(ops, next, a, b, i, j);
  }

  lemma LeadOne(ops: seq<Operation>, op: Operation, a: seq<string>, b: seq<string>, i: nat, j: nat, other: seq<Operation>)
    requires OnCourse(ops, a, b, i, j) && (i < |a| || j < |b|)
    requires IsScript(other, a, b) && EqualCount(other) == Lcs(a, b, 0, 0) && NoLater(ops, other)
    requires op.kind.Equal? ==> i < |a| && j < |b| && a[i] == b[j] == op.text
    requires op.kind.Removed? ==> i < |a| && a[i] == op.text && (j == |b| || a[i] != b[j])
    requires op.kind.Added? ==> j < |b| && b[j] == op.text && (i == |a| || (a[i] != b[j] && Lcs(a, b, i + 1, j) < Lcs(a, b, i, j)))
    ensures NoLater(ops + [op], other)
  {
    hide Lcs, EqualCount, OldSide, NewSide;
    var longer, n := ops + [op], |ops|;
    if ops <= other {
      assert other != ops;
      LeadNext(ops, op, a, b, i, j, other);
      if other[n] == op {
        assert other[..n + 1] == longer;
      } else {
        assert longer[n] == op && longer[..n] == other[..n];
      }
    } else {
      var p :| 0 <= p < |ops| && p < |other| && ops[..p] == other[..p] && Rank(ops[p].kind) < Rank(other[p].kind);
      assert longer[..p] == ops[..p];
    }
  }

  // What an operation spells out next.
  lemma NextOperation(ops: seq<Operation>, next: Operation, a: seq<string>, b: seq<string>, i: nat, j: nat)
    requires |OldSide(ops)| == i && |NewSide(ops)| == j
    requires OldSide(ops + [next]) <= a && NewSide(ops + [next]) <= b
    ensures !next.kind.Added? ==> i < |a| && a[i] == next.text
    ensures !next.kind.Removed? ==> j < |b| && b[j] == next.text
  {
    Append(ops, next);
    if !next.kind.Added? { assert OldSide(ops + [next])[i] == next.text; }
    if !next.kind.Removed? { assert NewSide(ops + [next])[j] == next.text; }
  }

  lemma LeadStep(ops: seq<Operation>, op: Operation, a: seq<string>, b: seq<string>, i: nat, j: nat)
    requires OnCourse(ops, a, b, i, j) && Leads(ops, a, b) && (i < |a| || j < |b|)
    requires op.kind.Equal? ==> i < |a| && j < |b| && a[i] == b[j] == op.text
    requires op.kind.Removed? ==> i < |a| && a[i] == op.text && (j == |b| || a[i] != b[j])
    requires op.kind.Added? ==> j < |b| && b[j] == op.text && (i == |a| || (a[i] != b[j] && Lcs(a, b, i + 1, j) < Lcs(a, b, i, j)))
    ensures Leads(ops + [op], a, b)
  {
    hide NoLater, OnCourse;
    forall other | IsScript(other, a, b) && EqualCount(other) == Lcs(a, b, 0, 0) ensures NoLater(ops + [op], other) {
      LeadOne(ops, op, a, b, i, j, other);
    }
  }

  lemma LeaderIsFirst(ops: seq<Operation>, a: seq<string>, b: seq<string>)
    requires IsScript(ops, a, b) && EqualCount(ops) == Lcs(a, b, 0, 0) && Leads(ops, a, b)
    ensures FirstMinimal(ops, a, b)
  {
    KeepingLcsIsMinimal(ops, a, b);
    forall other | Minimal(other, a, b) ensures NoLater(ops, other) {
      ChangesCount(ops);
      ChangesCount(other);
      assert Changes(other) <= Changes(ops);
    }
  }

  // A script meeting the recurrence always exists, whatever the table limit.
  lemma {:induction false} BestScript(a: seq<string>, b: seq<string>, i: nat, j: nat, before: seq<Operation>)
    returns (best: seq<Operation>)
    requires OnCourse(before, a, b, i, j)
    ensures OnCourse(best, a, b, |a|, |b|)
    decreases |a| - i + |b| - j
  {
    if i == |a| && j == |b| {
      best := before;
    } else {
      var op;
      if i < |a| && j < |b| && a[i] == b[j] {
        op := Operation(Equal, a[i]);
      } else if j == |b| || (i < |a| && Lcs(a, b, i + 1, j) >= Lcs(a, b, i, j + 1)) {
        op := Operation(Removed, a[i]);
      } else {
        op := Operation(Added, b[j]);
      }
      WalkStep(before, op, a, b, i, j);
      best := BestScript(a, b, if op.kind.Added? then i else i + 1, if op.kind.Removed? then j else j + 1, before + [op]);
    }
  }

  lemma LcsZeroIffDisjoint(a: seq<string>, b: seq<string>, best: seq<Operation>)
    requires IsScript(best, a, b) && EqualCount(best) == Lcs(a, b, 0, 0)
    ensures Lcs(a, b, 0, 0) == 0 <==> (forall line | line in a :: line !in b)
  {
    if Lcs(a, b, 0, 0) > 0 {
      MatchingOfScript(best);
      var pair := MatchingOf(best)[0];
      assert a[pair.0] in a && b[pair.1] in b;
    } else if line :| line in a && line in b {
      var i :| 0 <= i < |a| && a[i] == line;
      var j :| 0 <= j < |b| && b[j] == line;
      LcsBoundsMatching([(i, j)], a, b, 0, 0);
    }
  }

  /** A script that keeps nothing is minimal exactly when no line occurs on both sides. */
  lemma KeepingNothing(ops: seq<Operation>, a: seq<string>, b: seq<string>)
    requires IsScript(ops, a, b) && EqualCount(ops) == 0
    ensures Minimal(ops, a, b) <==> (forall line | line in a :: line !in b)
  {
    WalkStarts(a, b);
    var best := BestScript(a, b, 0, 0, []);
    assert a[..|a|] == a && b[..|b|] == b;
    LcsZeroIffDisjoint(a, b, best);
    ChangesCount(ops);
    ChangesCount(best);
    if Lcs(a, b, 0, 0) == 0 { KeepingLcsIsMinimal(ops, a, b); }
  }

  const LONG_TEXT := seq(2001, _ => "x")

  /** For example, a script that keeps nothing of a text of 2,001 equal lines is not minimal from
      that text to itself, though the table limit calls for such a script. */
  lemma LongTextExample(ops: seq<Operation>)
    requires IsScript(ops, LONG_TEXT, LONG_TEXT) && EqualCount(ops) == 0
    ensures |LONG_TEXT| * |LONG_TEXT| > MAX_LCS_CELLS && !Minimal(ops, LONG_TEXT, LONG_TEXT)
  {
    KeepingNothing(ops, LONG_TEXT, LONG_TEXT);
    assert LONG_TEXT[0] in LONG_TEXT;
  }

  // ---------------------------------------------------------------- the table and the walk

  newtype uint32 = x: int | 0 <= x < 0x1_0000_0000

  function Cell(i: nat, j: nat, width: nat): nat {
    i * width + j
  }

  lemma CellBounds(i: nat, j: nat, rows: nat, width: nat)
    requires i < rows && j < width
    ensures Cell(i, j, width) < rows * width
  {
    assert i * width + width == (i + 1) * width <= rows * width;
  }

  lemma CellIncreases(i: nat, j: nat, k: nat, l: nat, width: nat)
    requires j < width && i < k
    ensures Cell(i, j, width) < Cell(k, l, width)
  {
    assert k * width >= (i + 1) * width == i * width + width;
  }

  lemma CellInjective(i: nat, j: nat, k: nat, l: nat, width: nat)
    requires j < width && l < width && Cell(i, j, width) == Cell(k, l, width)
    ensures i == k && j == l
  {
    if i < k { CellIncreases(i, j, k, l, width); }
    if k < i { CellIncreases(k, l, i, j, width); }
  }

  // Cell (i, j) of the table is final once the loops have passed it.
  ghost predicate Filled(table: seq<uint32>, a: seq<string>, b: seq<string>, i: nat, j: nat)
    requires i <= |a| && j <= |b| && |table| == (|a| + 1) * (|b| + 1)
  {
    CellBounds(i, j, |a| + 1, |b| + 1);
    table[Cell(i, j, |b| + 1)] as int == Lcs(a, b, i, j)
  }

  // Writing one cell keeps the others.
  lemma CellWritten(before: seq<uint32>, a: seq<string>, b: seq<string>, i: nat, j: nat, value: uint32)
    requires i <= |a| && j <= |b| && |before| == (|a| + 1) * (|b| + 1)
    requires value as int == Lcs(a, b, i, j)
    requires Cell(i, j, |b| + 1) < |before|
    ensures var after := before[Cell(i, j, |b| + 1) := value];
            && Filled(after, a, b, i, j)
            && forall k, l | 0 <= k <= |a| && 0 <= l <= |b| && Filled(before, a, b, k, l) :: Filled(after, a, b, k, l)
  {
    hide Lcs;
    var after := before[Cell(i, j, |b| + 1) := value];
    forall k, l | 0 <= k <= |a| && 0 <= l <= |b| && Filled(before, a, b, k, l) ensures Filled(after, a, b, k, l) {
      CellBounds(k, l, |a| + 1, |b| + 1);
      if Cell(k, l, |b| + 1) == Cell(i, j, |b| + 1) { CellInjective(k, l, i, j, |b| + 1); }
    }
  }

  // The assignment of the inner loop.
  method FillCell(table: array<uint32>, a: seq<string>, b: seq<string>, i: nat, j: nat)
    requires |a| * |b| <= MAX_LCS_CELLS && i < |a| && j < |b| && table.Length == (|a| + 1) * (|b| + 1)
    requires Filled(table[..], a, b, i + 1, j + 1) && Filled(table[..], a, b, i + 1, j) && Filled(table[..], a, b, i, j + 1)
    modifies table
    ensures Filled(table[..], a, b, i, j)
    ensures forall k, l | 0 <= k <= |a| && 0 <= l <= |b| && old(Filled(table[..], a, b, k, l)) :: Filled(table[..], a, b, k, l)
  {
    var width := |b| + 1;
    CellBounds(i, j, |a| + 1, width);
    CellBounds(i, j + 1, |a| + 1, width);
    CellBounds(i + 1, j, |a| + 1, width);
    CellBounds(i + 1, j + 1, |a| + 1, width);
    LcsSmall(a, b, i + 1, j + 1);
    ghost var before := table[..];
    var cell := i * width + j;
    var diagonal := table[(i + 1) * width + j + 1];
    var below := table[(i + 1) * width + j];
    var right := table[cell + 1];
    table[cell] := if a[i] == b[j] then diagonal + 1 else if below >= right then below else right;
    CellWritten(before, a, b, i, j, table[cell]);
    assert table[..] == before[cell := table[cell]];
  }

  method FillTable(a: seq<string>, b: seq<string>) returns (table: array<uint32>)
    requires |a| * |b| <= MAX_LCS_CELLS
    ensures fresh(table) && table.Length == (|a| + 1) * (|b| + 1)
    ensures forall i, j | 0 <= i <= |a| && 0 <= j <= |b| :: Filled(table[..], a, b, i, j)
  {
    var width := |b| + 1;
    table := new uint32[(|a| + 1) * width](_ => 0);
    assert forall k, l | 0 <= k <= |a| && 0 <= l <= |b| && (k == |a| || l == |b|) :: Filled(table[..], a, b, k, l) by {
      forall k, l | 0 <= k <= |a| && 0 <= l <= |b| ensures Cell(k, l, width) < table.Length { CellBounds(k, l, |a| + 1, width); }
    }
    hide Filled, Lcs;
    var i := |a|;
    while i > 0
      invariant 0 <= i <= |a|
      invariant forall k, l | 0 <= k <= |a| && 0 <= l <= |b| && (k >= i || l == |b|) :: Filled(table[..], a, b, k, l)
    {
      i := i - 1;
      var j := |b|;
      while j > 0
        invariant 0 <= j <= |b|
        invariant forall k, l | 0 <= k <= |a| && 0 <= l <= |b| && (k > i || l == |b| || (k == i && l >= j)) :: Filled(table[..], a, b, k, l)
      {
        j := j - 1;
        FillCell(table, a, b, i, j);
      }
    }
  }

  lemma ProductGrows(x: nat, y: nat, m: nat, n: nat)
    requires x <= m && y <= n
    ensures x * y <= m * n
  {
    assert x * y <= m * y <= m * n;
  }

  lemma LcsSmall(a: seq<string>, b: seq<string>, i: nat, j: nat)
    requires |a| * |b| <= MAX_LCS_CELLS && i <= |a| && j <= |b|
    ensures Lcs(a, b, i, j) <= 2000
  {
    if |a| > 2000 && |b| > 2000 { ProductGrows(2001, 2001, |a|, |b|); }
  }

  function AllOf(kind: Kind, lines: seq<string>): seq<Operation> {
    seq(|lines|, k requires 0 <= k < |lines| => Operation(kind, lines[k]))
  }

  lemma {:induction false} AllOfSides(ops: seq<Operation>, kind: Kind, lines: seq<string>)
    requires !kind.Equal?
    ensures OldSide(ops + AllOf(kind, lines)) == OldSide(ops) + if kind.Added? then [] else lines
    ensures NewSide(ops + AllOf(kind, lines)) == NewSide(ops) + if kind.Removed? then [] else lines
    ensures EqualCount(ops + AllOf(kind, lines)) == EqualCount(ops)
  {
    hide OldSide, NewSide, EqualCount;
    if lines == [] {
      assert ops + AllOf(kind, lines) == ops;
    } else {
      var init := lines[..|lines| - 1];
      AllOfSides(ops, kind, init);
      Append(ops + AllOf(kind, init), Operation(kind, lines[|lines| - 1]));
      assert ops + AllOf(kind, lines) == ops + AllOf(kind, init) + [Operation(kind, lines[|lines| - 1])];
      assert lines == init + [lines[|lines| - 1]];
    }
  }

  lemma OneSided(a: seq<string>, b: seq<string>)
    requires a == [] || b == []
    ensures var ops := AllOf(Removed, a) + AllOf(Added, b);
            IsScript(ops, a, b) && IsLcsLength(EqualCount(ops), a, b) && FirstMinimal(ops, a, b)
  {
    var ops := AllOf(Removed, a) + AllOf(Added, b);
    ReplaceAllSides(a, b);
    KeepingLcsIsMinimal(ops, a, b);
    forall other | Minimal(other, a, b) ensures NoLater(ops, other) {
      OnlyScript(other);
      assert ops == other;
    }
  }

  // A script with an empty side has no choice.
  lemma {:induction false} OnlyScript(ops: seq<Operation>)
    ensures OldSide(ops) == [] ==> ops == AllOf(Added, NewSide(ops))
    ensures NewSide(ops) == [] ==> ops == AllOf(Removed, OldSide(ops))
  {
    if ops != [] { OnlyScript(ops[..|ops| - 1]); }
  }

  lemma ReplaceAllSides(a: seq<string>, b: seq<string>)
    ensures IsScript(AllOf(Removed, a) + AllOf(Added, b), a, b)
    ensures EqualCount(AllOf(Removed, a) + AllOf(Added, b)) == 0
  {
    var removals := AllOf(Removed, a);
    assert OldSide(removals) == a && NewSide(removals) == [] && EqualCount(removals) == 0 by {
      AllOfSides([], Removed, a);
      assert [] + removals == removals;
    }
    AllOfSides(removals, Added, b);
  }

  // What the branch of the walk taken at (i, j) relies on.
  lemma Direction(table: seq<uint32>, a: seq<string>, b: seq<string>, i: nat, j: nat)
    requires i < |a| && j < |b| && |table| == (|a| + 1) * (|b| + 1) && a[i] != b[j]
    requires Filled(table, a, b, i + 1, j) && Filled(table, a, b, i, j + 1)
    ensures Cell(i + 1, j, |b| + 1) < |table| && Cell(i, j + 1, |b| + 1) < |table|
    ensures if table[Cell(i + 1, j, |b| + 1)] >= table[Cell(i, j + 1, |b| + 1)] then Lcs(a, b, i + 1, j) == Lcs(a, b, i, j)
            else Lcs(a, b, i, j + 1) == Lcs(a, b, i, j) > Lcs(a, b, i + 1, j)
  {
    CellBounds(i + 1, j, |a| + 1, |b| + 1);
    CellBounds(i, j + 1, |a| + 1, |b| + 1);
  }

  lemma WalkDone(ops: seq<Operation>, a: seq<string>, b: seq<string>)
    requires OnCourse(ops, a, b, |a|, |b|) && Leads(ops, a, b)
    ensures IsScript(ops, a, b) && IsLcsLength(EqualCount(ops), a, b) && FirstMinimal(ops, a, b)
  {
    assert a[..|a|] == a && b[..|b|] == b;
    KeepingLcsIsMinimal(ops, a, b);
    LeaderIsFirst(ops, a, b);
  }

  /** The edit script of two line lists. It is minimal exactly when the product of the lengths
      is within the table limit or the lists share no line, and within the limit it is the first of
      the minimal scripts. */
  method ChangedMiddle(original: seq<string>, current: seq<string>) returns (ops: seq<Operation>)
    ensures IsScript(ops, original, current)
    ensures |original| * |current| <= MAX_LCS_CELLS ==>
              IsLcsLength(EqualCount(ops), original, current) && FirstMinimal(ops, original, current)
    ensures Minimal(ops, original, current) <==>
            |original| * |current| <= MAX_LCS_CELLS || forall line | line in original :: line !in current
    ensures |original| * |current| > MAX_LCS_CELLS ==> EqualCount(ops) == 0
  {
    hide OnCourse, Filled, IsScript, Minimal, IsLcsLength, EqualCount, Leads, NoLater, Lcs;
    if |original| == 0 {
      ops := AllOf(Added, current);
      OneSided(original, current);
      assert AllOf(Removed, original) + ops == ops;
      return;
    }
    if |current| == 0 {
      ops := AllOf(Removed, original);
      OneSided(original, current);
      assert ops + AllOf(Added, current) == ops;
      return;
    }
    if |original| * |current| > MAX_LCS_CELLS {
      ops := AllOf(Removed, original) + AllOf(Added, current);
      ReplaceAllSides(original, current);
      KeepingNothing(ops, original, current);
      return;
    }

    var width := |current| + 1;
    var table := FillTable(original, current);
    ghost var cells := table[..];
    ops := [];
    WalkStarts(original, current);
    var i, j := 0, 0;
    while i < |original| && j < |current|
      invariant i <= |original| && j <= |current|
      invariant table[..] == cells
      invariant OnCourse(ops, original, current, i, j) && Leads(ops, original, current)
      decreases |original| - i + |current| - j
    {
      if original[i] == current[j] {
        BestStep(ops, Operation(Equal, original[i]), original, current, i, j);
        ops := ops + [Operation(Equal, original[i])];
        i, j := i + 1, j + 1;
        continue;
      }
      Direction(cells, original, current, i, j);
      if table[(i + 1) * width + j] >= table[i * width + j + 1] {
        BestStep(ops, Operation(Removed, original[i]), original, current, i, j);
        ops := ops + [Operation(Removed, original[i])];
        i := i + 1;
      } else {
        BestStep(ops, Operation(Added, current[j]), original, current, i, j);
        ops := ops + [Operation(Added, current[j])];
        j := j + 1;
      }
    }
    while i < |original|
      invariant i <= |original| && j <= |current|
      invariant OnCourse(ops, original, current, i, j) && Leads(ops, original, current)
      invariant i == |original| || j == |current|
    {
      BestStep(ops, Operation(Removed, original[i]), original, current, i, j);
      ops := ops + [Operation(Removed, original[i])];
      i := i + 1;
    }
    while j < |current|
      invariant i == |original| && j <= |current|
      invariant OnCourse(ops, original, current, i, j) && Leads(ops, original, current)
    {
      BestStep(ops, Operation(Added, current[j]), original, current, i, j);
      ops := ops + [Operation(Added, current[j])];
      j := j + 1;
    }
    WalkDone(ops, original, current);
  }
}
