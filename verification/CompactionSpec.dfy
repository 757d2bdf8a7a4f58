/**
 Context compaction (agent-session.ts): messages are grouped into units, a boundary between units
 is chosen so that the recent part weighs enough, and everything before the boundary is folded
 into a running summary, slice by slice. The weight a message is estimated to have is part of the
 message; what the summariser writes and what the budget estimator says are inputs.
 */
module CompactionSpec {
  import opened Common

  const KEEP_RECENT_TOKENS := 32_768
  const CONTEXT_RESERVE_TOKENS := 16_384

  datatype Role = User | Assistant | ToolResult | CompactionSummary | OtherRole(name: string)

  datatype Message = Message(
    role: Role, callIds: set<string>, toolCallId: string, timestamp: int, text: string, tokens: nat)

  // ---------------------------------------------------------------- units

  // The message answers a tool call of the assistant message.
  predicate Answers(result: Message, assistant: Message) {
    result.role == ToolResult && result.toolCallId in assistant.callIds
  }

  // Message j belongs to the run of tool results right behind the assistant message i.
  predicate InRunOf(messages: seq<Message>, i: nat, j: nat)
    requires i < j < |messages|
  {
    messages[i].role == Assistant && forall k | i < k <= j :: Answers(messages[k], messages[i])
  }

  // A unit starts at every message that is not part of a tool-result run.
  predicate StartsUnit(messages: seq<Message>, j: nat)
    requires j < |messages|
  {
    forall i | 0 <= i < j :: !InRunOf(messages, i, j)
  }

  datatype Unit = Unit(start: nat, end: nat, tokens: nat)

  function Weight(messages: seq<Message>): nat {
    if messages == [] then 0 else messages[0].tokens + Weight(messages[1..])
  }

  lemma {:induction false} WeightSplit(left: seq<Message>, right: seq<Message>)
    ensures Weight(left + right) == Weight(left) + Weight(right)
  {
    if left == [] {
      assert left + right == right;
    } else {
      WeightSplit(left[1..], right);
      assert (left + right)[1..] == left[1..] + right;
    }
  }

  ghost predicate UnitOf(messages: seq<Message>, u: Unit) {
    && u.start < u.end <= |messages|
    && StartsUnit(messages, u.start)
    && (forall j | u.start < j < u.end :: !StartsUnit(messages, j))
    && u.tokens == Weight(messages[u.start..u.end])
  }

  // The units tile the messages up to n.
  ghost predicate Tiles(messages: seq<Message>, units: seq<Unit>, n: nat) {
    && n <= |messages|
    && (forall k | 0 <= k < |units| :: UnitOf(messages, units[k]))
    && (forall k, l | 0 <= k < l < |units| && l == k + 1 :: units[k].end == units[l].start)
    && (if units == [] then n == 0 else units[0].start == 0 && units[|units| - 1].end == n)
  }

  // ---------------------------------------------------------------- the boundary

  /** The boundary is the last unit start whose suffix weighs at least keepTokens, or else 0. */
  ghost predicate IsBoundary(messages: seq<Message>, keepTokens: int, boundary: nat) {
    && boundary <= |messages|
    && (boundary > 0 ==> boundary < |messages| && StartsUnit(messages, boundary) && Weight(messages[boundary..]) >= keepTokens)
    && (forall s | boundary < s < |messages| && StartsUnit(messages, s) :: Weight(messages[s..]) < keepTokens)
  }

  lemma BoundaryUnique(messages: seq<Message>, keepTokens: int, left: nat, right: nat)
    requires IsBoundary(messages, keepTokens, left) && IsBoundary(messages, keepTokens, right)
    ensures left == right
  {
  }

  /** A boundary never separates an assistant message from a result in the run answering it. */
  lemma BoundaryKeepsRuns(messages: seq<Message>, keepTokens: int, boundary: nat, i: nat, j: nat)
    requires IsBoundary(messages, keepTokens, boundary)
    requires i < j < |messages| && InRunOf(messages, i, j)
    ensures !(i < boundary <= j)
  {
    if i < boundary <= j {
      assert InRunOf(messages, i, boundary);
    }
  }

  // ---------------------------------------------------------------- the running summary

  datatype Signature = Signature(role: Role, timestamp: int, prefix: string, length: nat)

  function SignatureOf(message: Message): Signature {
    Signature(message.role, message.timestamp,
              if |message.text| <= 256 then message.text else message.text[..256], |message.text|)
  }

  // slices records what was passed to the summariser since the summary was last dropped.
  datatype State = State(summary: Option<string>, count: nat, signature: Option<Signature>, slices: seq<seq<Message>>)

  const FRESH := State(None, 0, None, [])

  function Flatten(slices: seq<seq<Message>>): seq<Message> {
    if slices == [] then [] else Flatten(slices[..|slices| - 1]) + slices[|slices| - 1]
  }

  datatype Budget = Budget(tokens: int, fixedTokens: int, threshold: int)

  datatype Inputs = Inputs(
    needed: bool,            // the estimator asks for compaction
    force: bool,
    before: Budget,
    firstSummary: string,    // what the summariser returns
    after: Budget,           // the estimate for the compacted context
    summaryTokens: nat,
    secondSummary: string)

  function Max(x: int, y: int): int { if x >= y then x else y }

  function Min(x: int, y: int): int { if x <= y then x else y }

  function InitialKeep(before: Budget): int {
    Max(1_024, Min(KEEP_RECENT_TOKENS, before.threshold - before.fixedTokens - CONTEXT_RESERVE_TOKENS / 2))
  }

  function TighterKeep(after: Budget, summaryTokens: nat): int {
    Max(1_024, after.threshold - after.fixedTokens - summaryTokens - 1_024)
  }

  // The summary is dropped when the boundary has moved back over it, or when the last message it
  // covers looks different now.
  predicate Drops(s: State, messages: seq<Message>, boundary: nat)
    requires boundary <= |messages|
  {
    || s.count > boundary
    || (s.count > 0 && Some(SignatureOf(messages[s.count - 1])) != s.signature)
  }

  function Kept(s: State, messages: seq<Message>, boundary: nat): State
    requires boundary <= |messages|
  {
    if Drops(s, messages, boundary) then FRESH else s
  }

  function Covered(s: State, messages: seq<Message>, boundary: nat, summary: string): State
    requires s.count <= boundary <= |messages| && 0 < boundary
  {
    State(Some(summary), boundary, Some(SignatureOf(messages[boundary - 1])), s.slices + [messages[s.count..boundary]])
  }

  // ---------------------------------------------------------------- what a summary covers

  // The books of the state are consistent.
  ghost predicate Sound(s: State) {
    && |Flatten(s.slices)| == s.count
    && (s.count > 0 ==> s.summary.Some? && s.signature == Some(SignatureOf(Flatten(s.slices)[s.count - 1])))
    && (s.count == 0 ==> s == FRESH)
  }

  // The summary covers exactly the first messages of this list.
  ghost predicate Covers(s: State, messages: seq<Message>) {
    s.count <= |messages| && Flatten(s.slices) == messages[..s.count]
  }

  /** After a slice has been summarised the summary covers the messages up to the boundary exactly
      when it covered the earlier ones before. */
  lemma CoveredExact(s: State, messages: seq<Message>, boundary: nat, summary: string)
    requires Sound(s) && 0 < boundary <= |messages| && !Drops(s, messages, boundary)
    ensures var s' := Covered(s, messages, boundary, summary);
            && Sound(s') && s'.count == boundary
            && (Covers(s', messages) <==> Covers(s, messages))
  {
    var s' := Covered(s, messages, boundary, summary);
    var slice := messages[s.count..boundary];
    assert s'.slices[..|s.slices|] == s.slices;
    assert Flatten(s'.slices) == Flatten(s.slices) + slice;
    assert messages[..boundary] == messages[..s.count] + slice;
    if Covers(s', messages) {
      assert Flatten(s.slices) == (Flatten(s.slices) + slice)[..s.count] == (messages[..s.count] + slice)[..s.count];
    }
    if s.count < boundary {
      assert Flatten(s'.slices)[boundary - 1] == slice[boundary - 1 - s.count] == messages[boundary - 1];
    } else {
      assert slice == [];
    }
  }

  lemma KeptSound(s: State, messages: seq<Message>, boundary: nat)
    requires Sound(s) && boundary <= |messages|
    ensures Sound(Kept(s, messages, boundary)) && !Drops(Kept(s, messages, boundary), messages, boundary)
    ensures Covers(Kept(s, messages, boundary), messages) <==> Drops(s, messages, boundary) || Covers(s, messages)
  {
    assert messages[..0] == [];
  }

  datatype Outcome =
    | Unchanged
    | Summarized(summary: string, rest: seq<Message>)

  /** What one compaction may do to the state and return, given the boundaries of its two budgets. */
  ghost predicate Compacts(s: State, messages: seq<Message>, inputs: Inputs, s': State, outcome: Outcome) {
    if !inputs.needed && !inputs.force then s' == s && outcome == Unchanged
    else
      exists first: nat, tighter: nat ::
        && IsBoundary(messages, InitialKeep(inputs.before), first)
        && IsBoundary(messages, TighterKeep(inputs.after, inputs.summaryTokens), tighter)
        && CompactsAt(s, messages, inputs, first, tighter, s', outcome)
  }

  ghost predicate CompactsAt(s: State, messages: seq<Message>, inputs: Inputs, first: nat, tighter: nat, s': State, outcome: Outcome)
    requires first <= |messages| && tighter <= |messages|
  {
    if first == 0 then s' == s && outcome == Unchanged
    else
      var once := Covered(Kept(s, messages, first), messages, first, inputs.firstSummary);
      s' == (if inputs.after.tokens > inputs.after.threshold && tighter > first
             then Covered(once, messages, tighter, inputs.secondSummary) else once)
      && outcome == Summarized(s'.summary.value, messages[s'.count..])
  }

  lemma CompactsAtCovers(s: State, messages: seq<Message>, inputs: Inputs, first: nat, tighter: nat, s': State, outcome: Outcome)
    requires Sound(s) && 0 < first <= |messages| && tighter <= |messages|
    requires CompactsAt(s, messages, inputs, first, tighter, s', outcome)
    ensures Sound(s') && (s'.count == first || (s'.count == tighter && first < tighter))
    ensures outcome == Summarized(s'.summary.value, messages[s'.count..])
    ensures Covers(s', messages) <==> Drops(s, messages, first) || Covers(s, messages)
  {
    hide Sound, Covers;
    var kept := Kept(s, messages, first);
    KeptSound(s, messages, first);
    var once := Covered(kept, messages, first, inputs.firstSummary);
    CoveredExact(kept, messages, first, inputs.firstSummary);
    if inputs.after.tokens > inputs.after.threshold && tighter > first {
      CoveredExact(once, messages, tighter, inputs.secondSummary);
    }
  }

  /** Each compaction keeps the books, answers with the summary and the untouched rest, and covers
      the messages before its boundary exactly when it covered the old ones or dropped them. */
  lemma CompactionCovers(s: State, messages: seq<Message>, inputs: Inputs, s': State, outcome: Outcome)
    requires Sound(s) && Compacts(s, messages, inputs, s', outcome)
    ensures Sound(s')
    ensures outcome.Unchanged? ==> s' == s
    ensures outcome.Summarized? ==>
              && 0 < s'.count < |messages| && StartsUnit(messages, s'.count)
              && outcome == Summarized(s'.summary.value, messages[s'.count..])
              && exists first: nat :: IsBoundary(messages, InitialKeep(inputs.before), first) && first <= s'.count
                                   && (Covers(s', messages) <==> Drops(s, messages, first) || Covers(s, messages))
  {
    if outcome.Summarized? {
      hide Sound, Covers, StartsUnit, Drops;
      var first: nat, tighter: nat :|
        && IsBoundary(messages, InitialKeep(inputs.before), first)
        && IsBoundary(messages, TighterKeep(inputs.after, inputs.summaryTokens), tighter)
        && CompactsAt(s, messages, inputs, first, tighter, s', outcome);
      CompactsAtCovers(s, messages, inputs, first, tighter, s', outcome);
    }
  }

  // ---------------------------------------------------------------- how much is kept, and when

  /** The recent part is to weigh what the budget leaves beside the fixed part and 8,192 tokens, or the
      nearest weight between 1,024 and 32,768; in a second pass what is left beside the summary and
      1,024, but no less than 1,024. */
  lemma KeepsNearest(before: Budget, after: Budget, summaryTokens: nat, weight: int)
    ensures 1_024 <= InitialKeep(before) <= 32_768
    ensures 1_024 <= weight <= 32_768 ==>
              var left := before.threshold - before.fixedTokens - 8_192;
              Distance(InitialKeep(before), left) <= Distance(weight, left)
    ensures TighterKeep(after, summaryTokens) >= 1_024
    ensures weight >= 1_024 ==>
              var left := after.threshold - after.fixedTokens - summaryTokens - 1_024;
              Distance(TighterKeep(after, summaryTokens), left) <= Distance(weight, left)
  {
  }

  function Distance(x: int, y: int): nat {
    if x < y then y - x else x - y
  }

  /** A compaction happens exactly when it is asked for and something lies before the first boundary.
      It goes on to the second boundary exactly when the result is still over the threshold and that
      boundary is later; the summary returned is the last one written. */
  lemma CompactionExact(s: State, messages: seq<Message>, inputs: Inputs, s': State, outcome: Outcome, first: nat, tighter: nat)
    requires Compacts(s, messages, inputs, s', outcome)
    requires IsBoundary(messages, InitialKeep(inputs.before), first)
    requires IsBoundary(messages, TighterKeep(inputs.after, inputs.summaryTokens), tighter)
    ensures outcome.Summarized? <==> (inputs.needed || inputs.force) && first > 0
    ensures outcome.Summarized? ==>
              if inputs.after.tokens > inputs.after.threshold && tighter > first
              then s'.count == tighter && outcome == Summarized(inputs.secondSummary, messages[tighter..])
              else s'.count == first && outcome == Summarized(inputs.firstSummary, messages[first..])
  {
    if inputs.needed || inputs.force {
      var one: nat, two: nat :|
        && IsBoundary(messages, InitialKeep(inputs.before), one)
        && IsBoundary(messages, TighterKeep(inputs.after, inputs.summaryTokens), two)
        && CompactsAt(s, messages, inputs, one, two, s', outcome);
      BoundaryUnique(messages, InitialKeep(inputs.before), first, one);
      BoundaryUnique(messages, TighterKeep(inputs.after, inputs.summaryTokens), tighter, two);
      hide IsBoundary, InitialKeep, TighterKeep;
    }
  }

  // The two messages cannot be told apart by role, time, length and first 256 characters.
  predicate LooksLike(left: Message, right: Message) {
    && left.role == right.role && left.timestamp == right.timestamp && |left.text| == |right.text|
    && forall k | 0 <= k < |left.text| && k < 256 :: left.text[k] == right.text[k]
  }

  /** A summary is dropped exactly when the boundary lies inside what it covers, or the message now in
      the place of the last one covered does not look like that one. */
  lemma DropsExactly(s: State, messages: seq<Message>, boundary: nat)
    requires Sound(s) && boundary <= |messages|
    ensures Drops(s, messages, boundary) <==>
            || s.count > boundary
            || (s.count > 0 && !LooksLike(Flatten(s.slices)[s.count - 1], messages[s.count - 1]))
  {
    if 0 < s.count <= boundary { SameSignature(Flatten(s.slices)[s.count - 1], messages[s.count - 1]); }
  }

  lemma SameSignature(left: Message, right: Message)
    ensures SignatureOf(left) == SignatureOf(right) <==> LooksLike(left, right)
  {
    var a, b := SignatureOf(left), SignatureOf(right);
    if |left.text| == |right.text| {
      assert a.prefix == b.prefix <==> forall k | 0 <= k < |a.prefix| :: a.prefix[k] == b.prefix[k];
      assert forall k | 0 <= k < |a.prefix| :: a.prefix[k] == left.text[k] && b.prefix[k] == right.text[k];
    }
  }

  /** A summary that is about the list is continued, not written anew, unless the boundary lies inside
      what it covers. */
  lemma SummaryContinues(s: State, messages: seq<Message>, inputs: Inputs, s': State, outcome: Outcome, first: nat)
    requires Sound(s) && Covers(s, messages) && Compacts(s, messages, inputs, s', outcome)
    requires IsBoundary(messages, InitialKeep(inputs.before), first) && s.count <= first
    ensures s.slices <= s'.slices
  {
    if (inputs.needed || inputs.force) && first > 0 {
      var one: nat, two: nat :|
        && IsBoundary(messages, InitialKeep(inputs.before), one)
        && IsBoundary(messages, TighterKeep(inputs.after, inputs.summaryTokens), two)
        && CompactsAt(s, messages, inputs, one, two, s', outcome);
      BoundaryUnique(messages, InitialKeep(inputs.before), first, one);
      if s.count > 0 { assert Flatten(s.slices)[s.count - 1] == messages[s.count - 1]; }
      hide IsBoundary, InitialKeep, TighterKeep, Flatten;
      assert Kept(s, messages, first) == s;
    }
  }

  // ---------------------------------------------------------------- series of compactions

  datatype Round = Round(messages: seq<Message>, inputs: Inputs, outcome: Outcome)

  ghost predicate IsSeries(states: seq<State>, rounds: seq<Round>) {
    && |states| == |rounds| + 1
    && states[0] == FRESH
    && forall i | 0 <= i < |rounds| :: Compacts(states[i], rounds[i].messages, rounds[i].inputs, states[i + 1], rounds[i].outcome)
  }

  // The message list only ever grows at its end.
  ghost predicate AppendOnly(rounds: seq<Round>) {
    forall i, j | 0 <= i < j < |rounds| :: rounds[i].messages <= rounds[j].messages
  }

  lemma CoversLonger(s: State, messages: seq<Message>, longer: seq<Message>)
    requires Covers(s, messages) && messages <= longer
    ensures Covers(s, longer)
  {
    assert longer[..s.count] == messages[..s.count];
  }

  /** Over any series of compactions of an append-only list, what was summarised since the summary
      was last dropped is, put together, exactly the messages before the boundary. */
  lemma {:induction false} SeriesCovers(states: seq<State>, rounds: seq<Round>, n: nat)
    requires IsSeries(states, rounds) && AppendOnly(rounds) && n < |states|
    ensures Sound(states[n])
    ensures n > 0 ==> Covers(states[n], rounds[n - 1].messages)
    ensures n > 0 && rounds[n - 1].outcome.Summarized? ==>
              rounds[n - 1].outcome == Summarized(states[n].summary.value, rounds[n - 1].messages[states[n].count..])
  {
    if n > 0 {
      SeriesCovers(states, rounds, n - 1);
      var messages := rounds[n - 1].messages;
      assert messages[..0] == [];
      if n > 1 { CoversLonger(states[n - 1], rounds[n - 2].messages, messages); }
      hide Compacts;
      CompactionCovers(states[n - 1], messages, rounds[n - 1].inputs, states[n], rounds[n - 1].outcome);
    }
  }

  // Four user messages of 2,000 tokens each, and budgets that keep 1,024.
  function UserMessage(text: string): Message {
    Message(User, {}, "", 0, text, 2000)
  }

  const NO_BUDGET := Budget(0, 0, 0)
  const SMALL_INPUTS := Inputs(true, false, NO_BUDGET, "summary", NO_BUDGET, 0, "")
  const LIST := [UserMessage("a"), UserMessage("b"), UserMessage("d")]
  const REWRITTEN := [UserMessage("c"), UserMessage("b"), UserMessage("d"), UserMessage("e")]

  lemma LastMessageIsBoundary(messages: seq<Message>)
    requires |messages| > 1 && forall m | m in messages :: m.role == User && m.tokens == 2000
    ensures IsBoundary(messages, 1024, |messages| - 1)
  {
    var n := |messages| - 1;
    assert messages[n..] == [messages[n]];
    assert Weight([messages[n]]) == messages[n].tokens + Weight([]);
    assert messages[n] in messages;
  }

  lemma CompactsBeforeLast(s: State, messages: seq<Message>)
    requires |messages| > 1 && forall m | m in messages :: m.role == User && m.tokens == 2000
    ensures var n := |messages| - 1;
            var s' := Covered(Kept(s, messages, n), messages, n, "summary");
            Compacts(s, messages, SMALL_INPUTS, s', Summarized("summary", [messages[n]]))
  {
    var n := |messages| - 1;
    LastMessageIsBoundary(messages);
    assert messages[n..] == [messages[n]];
    hide IsBoundary;
    var s' := Covered(Kept(s, messages, n), messages, n, "summary");
    assert InitialKeep(NO_BUDGET) == 1024 && TighterKeep(NO_BUDGET, 0) == 1024;
    assert CompactsAt(s, messages, SMALL_INPUTS, n, n, s', Summarized("summary", [messages[n]]));
  }

  const ONCE := State(Some("summary"), 2, Some(SignatureOf(UserMessage("b"))), [[UserMessage("a"), UserMessage("b")]])
  const TWICE := State(Some("summary"), 3, Some(SignatureOf(UserMessage("d"))), ONCE.slices + [[UserMessage("d")]])

  lemma FirstCompaction()
    ensures Compacts(FRESH, LIST, SMALL_INPUTS, ONCE, Summarized("summary", [UserMessage("d")]))
  {
    CompactsBeforeLast(FRESH, LIST);
    hide Compacts;
    assert LIST[0..2] == [UserMessage("a"), UserMessage("b")];
    assert Covered(Kept(FRESH, LIST, 2), LIST, 2, "summary") == ONCE;
  }

  lemma SecondCompaction()
    ensures Compacts(ONCE, REWRITTEN, SMALL_INPUTS, TWICE, Summarized("summary", [UserMessage("e")]))
  {
    CompactsBeforeLast(ONCE, REWRITTEN);
    hide Compacts;
    assert REWRITTEN[2..3] == [UserMessage("d")];
    assert Covered(Kept(ONCE, REWRITTEN, 3), REWRITTEN, 3, "summary") == TWICE;
  }

  lemma SummarizedTwice()
    ensures Flatten(TWICE.slices) == LIST && !Covers(TWICE, REWRITTEN)
  {
    assert TWICE.slices[..1] == ONCE.slices && ONCE.slices[..0] == [];
    assert Flatten(ONCE.slices) == [] + ONCE.slices[0] == ONCE.slices[0];
    assert Flatten(TWICE.slices) == ONCE.slices[0] + [UserMessage("d")] == LIST;
    assert REWRITTEN[..3][0] != LIST[0];
  }

  /** For example, the first message of a compacted list is replaced and the list is compacted again:
      the summary of the old messages is kept and continued. */
  lemma StaleSummaryExample() returns (states: seq<State>, rounds: seq<Round>)
    ensures IsSeries(states, rounds) && |rounds| == 2 && rounds[0].messages == LIST && rounds[1].messages == REWRITTEN
    ensures rounds[1].outcome == Summarized("summary", [UserMessage("e")])
    ensures Flatten(states[2].slices) == LIST && states[2].count == 3 && !Covers(states[2], REWRITTEN)
  {
    FirstCompaction();
    SecondCompaction();
    SummarizedTwice();
    hide Compacts, Covers, Flatten;
    states := [FRESH, ONCE, TWICE];
    rounds := [Round(LIST, SMALL_INPUTS, Summarized("summary", [UserMessage("d")])),
               Round(REWRITTEN, SMALL_INPUTS, Summarized("summary", [UserMessage("e")]))];
  }

  // ---------------------------------------------------------------- chunks for the summariser

  // A message as the summariser may see it: without sponsor data and thinking, and as a bounded
  // surrogate. The contents of both are inputs.
  datatype Candidate = Candidate(sponsored: bool, sanitized: Message, surrogate: Message)

  // The surrogate stands in for a message over the limit.
  function Offered(c: Candidate, limit: nat): Message {
    if c.sanitized.tokens > limit then c.surrogate else c.sanitized
  }

  // Messages that bear sponsor data are left out.
  function Prepared(messages: seq<Candidate>, limit: nat): seq<Message> {
    if messages == [] then []
    else
      var last := messages[|messages| - 1];
      Prepared(messages[..|messages| - 1], limit) + if last.sponsored then [] else [Offered(last, limit)]
  }

  predicate GoodChunk(chunk: seq<Message>, limit: nat) {
    chunk != [] && (|chunk| == 1 || Weight(chunk) <= limit)
  }

  // The first message of the next chunk would not have fitted.
  predicate FullBefore(chunk: seq<Message>, next: seq<Message>, limit: nat) {
    next != [] && Weight(chunk) + next[0].tokens > limit
  }

  /** Chunks hold everything in order; a chunk over the limit is a single message; the first
      message of a chunk would not have fitted into the one before. */
  ghost predicate IsChunking(chunks: seq<seq<Message>>, messages: seq<Message>, limit: nat) {
    && Flatten(chunks) == messages
    && (forall k | 0 <= k < |chunks| :: GoodChunk(chunks[k], limit))
    && (forall k, l | 0 <= k < l < |chunks| && l == k + 1 :: FullBefore(chunks[k], chunks[l], limit))
  }
}
