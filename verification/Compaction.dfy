/**
 The loops of context compaction (agent-session.ts), proved against CompactionSpec.
 */
module Compaction {
  import opened Common
  import opened CompactionSpec

  method MessageUnits(messages: seq<Message>) returns (units: seq<Unit>)
    ensures Tiles(messages, units, |messages|)
  {
    units := [];
    var index := 0;
    while index < |messages|
      invariant Tiles(messages, units, index)
      invariant index < |messages| ==> StartsUnit(messages, index)
    {
      var message := messages[index];
      var end := index + 1;
      if message.role == Assistant {
        while end < |messages|
          invariant index < end <= |messages|
          invariant forall k | index < k < end :: Answers(messages[k], message)
          decreases |messages| - end
        {
          if !Answers(messages[end], message) {
            break;
          }
          end := end + 1;
        }
      }
      UnitFound(messages, index, end);
      units := units + [Unit(index, end, Weight(messages[index..end]))];
      index := end;
    }
  }

  // The messages from index to end form a unit, and the next one starts at end.
  lemma UnitFound(messages: seq<Message>, index: nat, end: nat)
    requires index < end <= |messages| && StartsUnit(messages, index)
    requires if messages[index].role == Assistant
             then (forall k | index < k < end :: Answers(messages[k], messages[index]))
                  && (end < |messages| ==> !Answers(messages[end], messages[index]))
             else end == index + 1
    ensures UnitOf(messages, Unit(index, end, Weight(messages[index..end])))
    ensures end < |messages| ==> StartsUnit(messages, end)
  {
    forall j | index < j < end ensures !StartsUnit(messages, j) {
      assert InRunOf(messages, index, j);
    }
    if end < |messages| {
      forall i | 0 <= i < end ensures !InRunOf(messages, i, end) {
        if i < index && InRunOf(messages, i, end) { assert InRunOf(messages, i, index); }
      }
    }
  }

  // Where the suffix that starts at a unit begins to weigh enough.
  method RecentBoundary(messages: seq<Message>, keepTokens: int) returns (boundary: nat)
    ensures IsBoundary(messages, keepTokens, boundary)
  {
    var units := MessageUnits(messages);
    if |units| <= 1 {
      FewUnits(messages, units);
      return 0;
    }
    UnitBounds(messages, units);
    hide Tiles, UnitOf, StartsUnit;
    var tokens, firstKeptUnit := 0, |units| - 1;
    var index := |units| - 1;
    while index >= 0
      invariant -1 <= index < |units|
      invariant index == |units| - 1 ==> tokens == 0 && firstKeptUnit == |units| - 1
      invariant index < |units| - 1 ==> firstKeptUnit == index + 1 && tokens == Weight(messages[units[index + 1].start..])
      invariant index < |units| - 1 ==> tokens < keepTokens
      invariant forall k | index < k < |units| :: Weight(messages[units[k].start..]) < keepTokens
      decreases index
    {
      UnitWeighs(messages, units, index);
      tokens := tokens + units[index].tokens;
      firstKeptUnit := index;
      if tokens >= keepTokens {
        break;
      }
      index := index - 1;
    }
    boundary := units[firstKeptUnit].start;
    LaterStarts(messages, units, firstKeptUnit);
  }

  // Unit starts are exactly the starts of the units.
  lemma {:induction false} StartsAreUnits(messages: seq<Message>, units: seq<Unit>, n: nat, s: nat) returns (k: nat)
    requires Tiles(messages, units, n) && s < n && StartsUnit(messages, s)
    ensures k < |units| && units[k].start == s
  {
    k := |units| - 1;
    var u := units[k];
    if s < u.start {
      assert k > 0 && units[k - 1].end == u.start;
      k := StartsAreUnits(messages, units[..k], u.start, s);
    }
  }

  lemma FewUnits(messages: seq<Message>, units: seq<Unit>)
    requires Tiles(messages, units, |messages|) && |units| <= 1
    ensures forall s | 0 < s < |messages| :: !StartsUnit(messages, s)
  {
  }

  lemma UnitBounds(messages: seq<Message>, units: seq<Unit>)
    requires Tiles(messages, units, |messages|)
    ensures forall k | 0 <= k < |units| :: units[k].start < |messages|
  {
    forall k | 0 <= k < |units| ensures units[k].start < |messages| { assert UnitOf(messages, units[k]); }
  }

  lemma UnitWeighs(messages: seq<Message>, units: seq<Unit>, k: nat)
    requires Tiles(messages, units, |messages|) && k < |units|
    ensures Weight(messages[units[k].start..])
            == units[k].tokens + if k + 1 < |units| then Weight(messages[units[k + 1].start..]) else 0
  {
    var u := units[k];
    assert UnitOf(messages, u);
    WeightSplit(messages[u.start..u.end], messages[u.end..]);
    assert messages[u.start..] == messages[u.start..u.end] + messages[u.end..];
    if k + 1 < |units| { assert units[k].end == units[k + 1].start; }
  }

  lemma {:induction false} StartsIncrease(messages: seq<Message>, units: seq<Unit>, k: nat, l: nat)
    requires Tiles(messages, units, |messages|) && k < l < |units|
    ensures units[k].start < units[l].start
  {
    assert UnitOf(messages, units[l - 1]) && units[l - 1].end == units[l].start;
    if k < l - 1 { StartsIncrease(messages, units, k, l - 1); }
  }

  lemma LaterStarts(messages: seq<Message>, units: seq<Unit>, first: nat)
    requires Tiles(messages, units, |messages|) && first < |units|
    ensures forall s | units[first].start < s < |messages| && StartsUnit(messages, s) ::
              exists k | first < k < |units| :: units[k].start == s
    ensures units[first].start < |messages| && StartsUnit(messages, units[first].start)
  {
    assert UnitOf(messages, units[first]);
    forall s | units[first].start < s < |messages| && StartsUnit(messages, s)
      ensures exists k | first < k < |units| :: units[k].start == s
    {
      var k := StartsAreUnits(messages, units, |messages|, s);
      if k < first { StartsIncrease(messages, units, k, first); }
    }
  }

  // The state record of a session, which compactMessages updates. The ghost field remembers what
  // was handed to the summariser since the summary was last dropped.
  class ContextCompactionState {
    var summary: Option<string>
    var summarizedSourceCount: nat
    var lastSummarizedSignature: Option<Signature>
    ghost var slices: seq<seq<Message>>

    ghost function Books(): State
      reads this
    {
      State(summary, summarizedSourceCount, lastSummarizedSignature, slices)
    }

    constructor ()
      ensures Books() == FRESH
    {
      summary, summarizedSourceCount, lastSummarizedSignature := None, 0, None;
      slices := [];
    }

    method UpdateSummary(messages: seq<Message>, boundary: nat, text: string)
      requires summarizedSourceCount <= boundary <= |messages| && 0 < boundary
      modifies this
      ensures Books() == Covered(old(Books()), messages, boundary, text)
    {
      slices := slices + [messages[summarizedSourceCount..boundary]];
      summary := Some(text);
      summarizedSourceCount := boundary;
      lastSummarizedSignature := Some(SignatureOf(messages[boundary - 1]));
    }

    method CompactMessages(messages: seq<Message>, inputs: Inputs) returns (outcome: Outcome)
      modifies this
      ensures Compacts(old(Books()), messages, inputs, Books(), outcome)
    {
      ghost var before := Books();
      if !inputs.needed && !inputs.force {
        return Unchanged;
      }
      var boundary := RecentBoundary(messages, InitialKeep(inputs.before));
      // The second boundary depends on inputs only, and is used only when the first one is not enough.
      var tighterBoundary := RecentBoundary(messages, TighterKeep(inputs.after, inputs.summaryTokens));
      ghost var first := boundary;
      if boundary <= 0 {
        assert CompactsAt(before, messages, inputs, first, tighterBoundary, Books(), Unchanged);
        return Unchanged;
      }
      if summarizedSourceCount > boundary
         || (summarizedSourceCount > 0 && Some(SignatureOf(messages[summarizedSourceCount - 1])) != lastSummarizedSignature) {
        summary := None;
        summarizedSourceCount := 0;
        lastSummarizedSignature := None;
        slices := [];
      }
      assert Books() == Kept(before, messages, first);
      UpdateSummary(messages, boundary, inputs.firstSummary);
      if inputs.after.tokens > inputs.after.threshold {
        if tighterBoundary > boundary {
          UpdateSummary(messages, tighterBoundary, inputs.secondSummary);
          boundary := tighterBoundary;
        }
      }
      outcome := Summarized(summary.value, messages[boundary..]);
      assert CompactsAt(before, messages, inputs, first, tighterBoundary, Books(), outcome);
    }
  }

  method SummaryChunks(messages: seq<Candidate>, tokenLimit: nat) returns (chunks: seq<seq<Message>>)
    ensures IsChunking(chunks, Prepared(messages, tokenLimit), tokenLimit)
  {
    hide Chunked;
    chunks := [];
    var current: seq<Message> := [];
    var currentTokens := 0;
    NothingChunked(tokenLimit);
    for k := 0 to |messages|
      invariant currentTokens == Weight(current)
      invariant Chunked(chunks, current, tokenLimit)
      invariant Flatten(chunks) + current == Prepared(messages[..k], tokenLimit)
    {
      assert messages[..k + 1][..k] == messages[..k];
      if messages[k].sponsored {
        continue;
      }
      var message := messages[k].sanitized;
      if message.tokens > tokenLimit {
        message := messages[k].surrogate;
      }
      WeightSplit(current, [message]);
      ghost var all := Flatten(chunks) + current + [message];
      if |current| > 0 && currentTokens + message.tokens > tokenLimit {
        NextChunk(chunks, current, message, tokenLimit);
        chunks := chunks + [current];
        current := [];
        currentTokens := 0;
      } else {
        SameChunk(chunks, current, message, tokenLimit);
      }
      current := current + [message];
      currentTokens := currentTokens + message.tokens;
      assert Flatten(chunks) + current == all;
    }
    assert messages[..|messages|] == messages;
    LastChunk(chunks, current, tokenLimit);
    if |current| > 0 {
      chunks := chunks + [current];
    }
  }

  // What holds of the closed chunks, and of the open one behind them.
  ghost predicate Chunked(chunks: seq<seq<Message>>, current: seq<Message>, limit: nat) {
    && (forall k | 0 <= k < |chunks| :: GoodChunk(chunks[k], limit))
    && (forall k, l | 0 <= k < l < |chunks| && l == k + 1 :: FullBefore(chunks[k], chunks[l], limit))
    && (current != [] ==> GoodChunk(current, limit))
    && (chunks != [] ==> FullBefore(chunks[|chunks| - 1], current, limit))
  }

  lemma NothingChunked(limit: nat)
    ensures Chunked([], [], limit)
  {
  }

  lemma ChunkClosed(chunks: seq<seq<Message>>, current: seq<Message>)
    ensures Flatten(chunks + [current]) == Flatten(chunks) + current
  {
    assert (chunks + [current])[..|chunks|] == chunks;
  }

  lemma NextChunk(chunks: seq<seq<Message>>, current: seq<Message>, message: Message, limit: nat)
    requires Chunked(chunks, current, limit) && current != [] && Weight(current) + message.tokens > limit
    ensures Chunked(chunks + [current], [] + [message], limit)
    ensures Flatten(chunks + [current]) == Flatten(chunks) + current
    ensures Weight([] + [message]) == message.tokens
  {
    ChunkClosed(chunks, current);
    assert [] + [message] == [message];
  }

  lemma SameChunk(chunks: seq<seq<Message>>, current: seq<Message>, message: Message, limit: nat)
    requires Chunked(chunks, current, limit) && (current == [] || Weight(current) + message.tokens <= limit)
    ensures Chunked(chunks, current + [message], limit)
  {
    WeightSplit(current, [message]);
  }

  lemma LastChunk(chunks: seq<seq<Message>>, current: seq<Message>, limit: nat)
    requires Chunked(chunks, current, limit)
    ensures current != [] ==> IsChunking(chunks + [current], Flatten(chunks) + current, limit)
    ensures current == [] ==> IsChunking(chunks, Flatten(chunks) + current, limit)
  {
    ChunkClosed(chunks, current);
  }
}
