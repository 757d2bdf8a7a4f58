/**
 Reading a session export in chunks through a handle (local-rpc-server.ts): a handle belongs to
 one client, expires, hands its content out strictly in order, and is gone once it is drained.
 */
module ExportSpec {
  import opened Common

  const MAX_EXPORT_CHUNK_BYTES := 65_536
  const EXPORT_HANDLE_LIFETIME_MS := 300_000

  type Bytes = seq<bv8>

  datatype Handle = Handle(client: string, content: Bytes, expiresAt: int, nextOffset: nat)

  datatype ReadError = Unavailable | OffsetPastEnd | OutOfOrder

  datatype Chunk = Chunk(data: Bytes, nextOffset: nat, done: bool)

  // The bytes from offset on, at most count of them, as subarray clips them.
  function Slice(content: Bytes, offset: nat, count: nat): Bytes
    requires offset <= |content|
  {
    if offset + count <= |content| then content[offset..offset + count] else content[offset..]
  }

  function Answer(handles: map<string, Handle>, client: string, id: string, offset: nat, maxBytes: nat, now: int): Result<Chunk, ReadError> {
    if id !in handles || handles[id].client != client || handles[id].expiresAt <= now then Err(Unavailable)
    else
      var h := handles[id];
      if offset > |h.content| then Err(OffsetPastEnd)
      else if offset != h.nextOffset then Err(OutOfOrder)
      else
        var data := Slice(h.content, offset, maxBytes);
        Ok(Chunk(data, offset + |data|, offset + |data| >= |h.content|))
  }

  function HandlesAfterRead(handles: map<string, Handle>, client: string, id: string, offset: nat, maxBytes: nat, now: int): map<string, Handle> {
    if id !in handles || handles[id].client != client then handles
    else if handles[id].expiresAt <= now then handles - {id}
    else
      match Answer(handles, client, id, offset, maxBytes, now)
      case Err(_) => handles
      case Ok(chunk) => if chunk.done then handles - {id} else handles[id := handles[id].(nextOffset := chunk.nextOffset)]
  }

  datatype Action =
    | Open(id: string, client: string, content: Bytes, now: int)
    | Read(client: string, id: string, offset: nat, maxBytes: nat, now: int)

  function Handles(run: seq<Action>): map<string, Handle> {
    if run == [] then map[]
    else
      var handles := Handles(run[..|run| - 1]);
      match run[|run| - 1]
      case Open(id, client, content, now) => handles[id := Handle(client, content, now + EXPORT_HANDLE_LIFETIME_MS, 0)]
      case Read(client, id, offset, maxBytes, now) => HandlesAfterRead(handles, client, id, offset, maxBytes, now)
  }

  // The answer to the last action of a run, if it is a read.
  function LastAnswer(run: seq<Action>): Option<Chunk>
    requires run != []
  {
    match run[|run| - 1]
    case Open(_, _, _, _) => None
    case Read(client, id, offset, maxBytes, now) =>
      match Answer(Handles(run[..|run| - 1]), client, id, offset, maxBytes, now)
      case Err(_) => None
      case Ok(chunk) => Some(chunk)
  }

  // Everything handed out through a handle so far, and what it was opened with.
  function Delivered(run: seq<Action>, id: string): Bytes {
    if run == [] then []
    else
      Delivered(run[..|run| - 1], id)
      + if run[|run| - 1].Read? && run[|run| - 1].id == id && LastAnswer(run).Some? then LastAnswer(run).value.data else []
  }

  ghost predicate OpenedOnce(run: seq<Action>, i: nat) {
    && i < |run| && run[i].Open?
    && forall k | 0 <= k < |run| && run[k].Open? && run[k].id == run[i].id :: k == i
  }

  // The delivered bytes are the content up to where the handle, if it is still there, stands.
  ghost predicate InOrder(handles: map<string, Handle>, id: string, client: string, content: Bytes, delivered: Bytes) {
    && delivered <= content
    && (id in handles ==>
          handles[id].content == content && handles[id].client == client && handles[id].nextOffset == |delivered|)
  }

  lemma {:induction false} NeverOpened(run: seq<Action>, id: string)
    requires forall k | 0 <= k < |run| :: !(run[k].Open? && run[k].id == id)
    ensures id !in Handles(run) && Delivered(run, id) == []
  {
    if run != [] {
      var before, last := run[..|run| - 1], run[|run| - 1];
      assert !(last.Open? && last.id == id);
      NeverOpened(before, id);
    }
  }

  lemma ReadKeepsOrder(handles: map<string, Handle>, id: string, client: string, content: Bytes, delivered: Bytes,
                       reader: string, read: string, offset: nat, maxBytes: nat, now: int)
    requires InOrder(handles, id, client, content, delivered)
    ensures var answer := Answer(handles, reader, read, offset, maxBytes, now);
            var handles' := HandlesAfterRead(handles, reader, read, offset, maxBytes, now);
            var delivered' := delivered + if read == id && answer.Ok? then answer.value.data else [];
            && InOrder(handles', id, client, content, delivered')
            && (read == id && answer.Ok? ==>
                  && reader == client && answer.value.nextOffset == |delivered'|
                  && |answer.value.data| == (if |content| - |delivered| < maxBytes then |content| - |delivered| else maxBytes)
                  && (answer.value.done <==> delivered' == content)
                  && (answer.value.done <==> id !in handles'))
            && (id in handles' <==>
                  id in handles && !(read == id && reader == client && (handles[id].expiresAt <= now || (answer.Ok? && answer.value.done))))
            && (id in handles' ==> handles'[id].expiresAt == handles[id].expiresAt)
  {
    var answer := Answer(handles, reader, read, offset, maxBytes, now);
    if read == id && answer.Ok? {
      assert delivered == content[..offset];
      var data := answer.value.data;
      assert content[..offset] + data == content[..offset + |data|];
    } else {
      assert delivered + [] == delivered;
    }
  }

  /** What the reads of a handle hand out, put together, is a prefix of its content, however
      other clients and handles interfere. */
  lemma {:induction false} ReadsAreInOrder(run: seq<Action>, i: nat)
    requires OpenedOnce(run, i)
    ensures InOrder(Handles(run), run[i].id, run[i].client, run[i].content, Delivered(run, run[i].id))
  {
    hide Answer, HandlesAfterRead;
    var n, id := |run| - 1, run[i].id;
    var before, last := run[..n], run[n];
    assert forall k | 0 <= k < |before| :: before[k] == run[k];
    if i == n {
      NeverOpened(before, id);
    } else {
      ReadsAreInOrder(before, i);
      if last.Read? {
        ReadKeepsOrder(Handles(before), id, run[i].client, run[i].content, Delivered(before, id),
                       last.client, last.id, last.offset, last.maxBytes, last.now);
      }
    }
  }

  // Some read of the handle has reported the end.
  predicate Ended(run: seq<Action>, id: string) {
    run != []
    && (Ended(run[..|run| - 1], id)
        || (run[|run| - 1].Read? && run[|run| - 1].id == id && LastAnswer(run).Some? && LastAnswer(run).value.done))
  }

  ghost predicate ClockRuns(run: seq<Action>) {
    forall i, j | 0 <= i < j < |run| :: run[i].now <= run[j].now
  }

  lemma {:induction false} NeverEnded(run: seq<Action>, id: string)
    requires forall k | 0 <= k < |run| :: !(run[k].Open? && run[k].id == id)
    ensures !Ended(run, id)
  {
    if run != [] {
      NeverEnded(run[..|run| - 1], id);
      NeverOpened(run[..|run| - 1], id);
    }
  }

  // Until it expires, a handle is there exactly as long as no read has reported the end.
  lemma {:induction false} ThereUntilEnded(run: seq<Action>, i: nat, now: int)
    requires OpenedOnce(run, i) && ClockRuns(run) && run[|run| - 1].now <= now < run[i].now + EXPORT_HANDLE_LIFETIME_MS
    ensures run[i].id in Handles(run) <==> !Ended(run, run[i].id)
    ensures run[i].id in Handles(run) ==> Handles(run)[run[i].id].expiresAt == run[i].now + EXPORT_HANDLE_LIFETIME_MS
  {
    hide Answer, HandlesAfterRead;
    var n, id := |run| - 1, run[i].id;
    var before, last := run[..n], run[n];
    assert forall k | 0 <= k < |before| :: before[k] == run[k];
    if i == n {
      NeverEnded(before, id);
    } else {
      ThereUntilEnded(before, i, now);
      ReadsAreInOrder(before, i);
      if last.Read? {
        ReadKeepsOrder(Handles(before), id, run[i].client, run[i].content, Delivered(before, id),
                       last.client, last.id, last.offset, last.maxBytes, last.now);
      }
    }
  }

  lemma {:induction false} OpenStays(run: seq<Action>, i: nat)
    requires OpenedOnce(run, i)
    ensures run[i].id in Handles(run) ==> Handles(run)[run[i].id].expiresAt == run[i].now + EXPORT_HANDLE_LIFETIME_MS
  {
    hide Answer, HandlesAfterRead;
    var n, id := |run| - 1, run[i].id;
    var before, last := run[..n], run[n];
    assert forall k | 0 <= k < |before| :: before[k] == run[k];
    if i < n {
      OpenStays(before, i);
      ReadsAreInOrder(before, i);
      if last.Read? {
        ReadKeepsOrder(Handles(before), id, run[i].client, run[i].content, Delivered(before, id),
                       last.client, last.id, last.offset, last.maxBytes, last.now);
      }
    }
  }

  /** A read is answered exactly if it comes from the client that opened the handle, within five
      minutes, at the end of what was delivered, and no read has reported the end. The answer is the
      next bytes, as many as asked for and left. */
  lemma AnsweredExactly(run: seq<Action>, i: nat)
    requires OpenedOnce(run, i) && ClockRuns(run) && i + 1 < |run| && run[|run| - 1].Read? && run[|run| - 1].id == run[i].id
    ensures var before, last := run[..|run| - 1], run[|run| - 1];
            && (LastAnswer(run).Some? <==>
                && last.client == run[i].client && last.now < run[i].now + 300_000
                && last.offset == |Delivered(before, run[i].id)| && !Ended(before, run[i].id))
            && (LastAnswer(run).Some? ==>
                  var rest := |run[i].content| - last.offset;
                  && 0 <= rest
                  && LastAnswer(run).value.data == run[i].content[last.offset..last.offset + if rest < last.maxBytes then rest else last.maxBytes])
  {
    var n, id := |run| - 1, run[i].id;
    var before, last := run[..n], run[n];
    assert forall k | 0 <= k < |before| :: before[k] == run[k];
    ReadsAreInOrder(before, i);
    OpenStays(before, i);
    if last.now < run[i].now + EXPORT_HANDLE_LIFETIME_MS { ThereUntilEnded(before, i, last.now); }
    AnswerFields(Handles(before), last.client, id, last.offset, last.maxBytes, last.now);
    hide Handles, Delivered, Ended, HandlesAfterRead, Answer;
  }

  lemma AnswerFields(handles: map<string, Handle>, reader: string, id: string, offset: nat, maxBytes: nat, now: int)
    ensures var answer := Answer(handles, reader, id, offset, maxBytes, now);
            && (answer.Ok? <==>
                && id in handles && handles[id].client == reader && now < handles[id].expiresAt
                && offset == handles[id].nextOffset && offset <= |handles[id].content|)
            && (answer.Ok? ==>
                  var content := handles[id].content;
                  answer.value.data == content[offset..offset + if |content| - offset < maxBytes then |content| - offset else maxBytes])
  {
  }

  /** A read reports the end exactly when everything has been handed out, and then takes the
      handle away; only the client that opened it is answered. */
  lemma DoneExactlyAtTheEnd(run: seq<Action>, i: nat)
    requires OpenedOnce(run, i) && i + 1 < |run|
    requires run[|run| - 1].Read? && run[|run| - 1].id == run[i].id && LastAnswer(run).Some?
    ensures LastAnswer(run).value.done <==> Delivered(run, run[i].id) == run[i].content
    ensures LastAnswer(run).value.done <==> run[i].id !in Handles(run)
    ensures run[|run| - 1].client == run[i].client
    ensures LastAnswer(run).value.nextOffset == |Delivered(run, run[i].id)|
  {
    hide Answer, HandlesAfterRead;
    var n, id := |run| - 1, run[i].id;
    var before, last := run[..n], run[n];
    assert forall k | 0 <= k < |before| :: before[k] == run[k];
    ReadsAreInOrder(before, i);
    ReadKeepsOrder(Handles(before), id, run[i].client, run[i].content, Delivered(before, id),
                   last.client, last.id, last.offset, last.maxBytes, last.now);
  }

  // A client that reads chunk after chunk, each where the one before ended, until a chunk says it
  // is the last or a read is refused.
  function ReadThrough(handles: map<string, Handle>, client: string, id: string, offset: nat, maxBytes: nat, now: int): Bytes
    requires maxBytes > 0
    decreases if id in handles && offset <= |handles[id].content| then |handles[id].content| - offset else 0
  {
    match Answer(handles, client, id, offset, maxBytes, now)
    case Err(_) => []
    case Ok(chunk) =>
      if chunk.done then chunk.data
      else
        chunk.data + ReadThrough(HandlesAfterRead(handles, client, id, offset, maxBytes, now), client, id, chunk.nextOffset, maxBytes, now)
  }

  /** Reading on from where a handle stands gives the whole rest of its content, in chunks of any
      size, as long as it has not expired. */
  lemma {:induction false} ReadsToTheEnd(handles: map<string, Handle>, id: string, client: string, content: Bytes, delivered: Bytes,
                                         maxBytes: nat, now: int)
    requires InOrder(handles, id, client, content, delivered) && id in handles && now < handles[id].expiresAt && maxBytes > 0
    ensures delivered + ReadThrough(handles, client, id, |delivered|, maxBytes, now) == content
    decreases |content| - |delivered|
  {
    ReadKeepsOrder(handles, id, client, content, delivered, client, id, |delivered|, maxBytes, now);
    var answer := Answer(handles, client, id, |delivered|, maxBytes, now);
    if !answer.value.done {
      var delivered' := delivered + answer.value.data;
      var handles' := HandlesAfterRead(handles, client, id, |delivered|, maxBytes, now);
      ReadsToTheEnd(handles', id, client, content, delivered', maxBytes, now);
      assert delivered' + ReadThrough(handles', client, id, |delivered'|, maxBytes, now)
          == delivered + (answer.value.data + ReadThrough(handles', client, id, |delivered'|, maxBytes, now));
    }
  }
}
