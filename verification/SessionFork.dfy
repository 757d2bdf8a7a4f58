/**
 What checkpoints promise (database.ts) and what a fork makes of one (session-service.ts): the
 digest taken at a checkpoint keeps matching the entries up to it, and replaying those entries
 into a new thread gives that thread the same context.
 */
module SessionFork {
  import opened Common
  import opened Json
  import opened SessionProjection
  import opened JournalSpec

  // ---------------------------------------------------------------- a second pass

  predicate Contributes(e: Event) {
    if e.kind == SessionCheckpoint then IsSafeCheckpoint(e) else Project(e.kind, e.payload).Some?
  }

  predicate Represented(index: Index, e: Event) {
    if e.kind == SessionCheckpoint then HasCheckpointFor(index.checkpoints, e.id) else HasEntryFor(index.entries, e.id)
  }

  lemma {:induction false} LocalRepresents(own: seq<Event>, k: nat)
    requires k < |own| && Contributes(own[k])
    ensures Represented(Local(own), own[k])
  {
    var n := |own| - 1;
    var before, e := Local(own[..n]), own[n];
    if k < n {
      LocalRepresents(own[..n], k);
      if e.kind != SessionCheckpoint && HasEntryFor(before.entries, own[k].id) {
        var i :| 0 <= i < |before.entries| && before.entries[i].source == own[k].id;
        assert Local(own).entries[i] == before.entries[i];
      }
      if e.kind == SessionCheckpoint && HasCheckpointFor(before.checkpoints, own[k].id) {
        var i :| 0 <= i < |before.checkpoints| && before.checkpoints[i].source == own[k].id;
        assert Local(own).checkpoints[i] == before.checkpoints[i];
      }
    } else if e.kind == SessionCheckpoint {
      assert Local(own).checkpoints[|before.checkpoints|].source == e.id;
    } else {
      assert Local(own).entries[|before.entries|].source == e.id;
    }
  }

  lemma IndexRepresents(db: Tables, e: Event)
    requires Synced(db) && e in db.events && Contributes(e)
    ensures Represented(db.index, e)
  {
    var own := EventsOf(db.events, e.thread);
    SelectMember(db.events, (x: Event) => x.thread == e.thread, e);
    var k :| 0 <= k < |own| && own[k] == e;
    LocalRepresents(own, k);
    assert View(db.index, e.thread) == Local(own);
    if e.kind == SessionCheckpoint {
      var i :| 0 <= i < |Local(own).checkpoints| && Local(own).checkpoints[i].source == e.id;
      SelectMember(db.index.checkpoints, (c: Checkpoint) => c.thread == e.thread, Local(own).checkpoints[i]);
    } else {
      var i :| 0 <= i < |Local(own).entries| && Local(own).entries[i].source == e.id;
      SelectMember(db.index.entries, (x: Entry) => x.thread == e.thread, Local(own).entries[i]);
    }
  }

  /** A pass over the events of an index that is in step with them changes nothing. */
  lemma {:induction false} SecondPassChangesNothing(db: Tables, pass: seq<Event>)
    requires Synced(db) && forall k | 0 <= k < |pass| :: pass[k] in db.events
    ensures ProjectAll(db.index, pass) == db.index
  {
    if pass != [] {
      hide Synced, IsSafeCheckpoint, Project;
      var e := pass[|pass| - 1];
      SecondPassChangesNothing(db, pass[..|pass| - 1]);
      if Contributes(e) { IndexRepresents(db, e); }
    }
  }

  // ---------------------------------------------------------------- checkpoints

  function UpTo(entries: seq<Entry>, ordinal: nat): seq<Entry> {
    Select(entries, (e: Entry) => e.ordinal <= ordinal)
  }

  ghost predicate Numbered(entries: seq<Entry>) {
    forall k | 0 <= k < |entries| :: entries[k].ordinal == k + 1
  }

  lemma {:induction false} NumberedMax(entries: seq<Entry>)
    requires Numbered(entries)
    ensures MaxOrdinal(entries) == |entries|
  {
    if entries != [] { NumberedMax(entries[..|entries| - 1]); }
  }

  lemma {:induction false} NumberedUpTo(entries: seq<Entry>, n: nat)
    requires Numbered(entries) && n <= |entries|
    ensures UpTo(entries, n) == entries[..n]
  {
    if entries != [] {
      var before := entries[..|entries| - 1];
      if n == |entries| {
        NumberedUpTo(before, n - 1);
        SelectSame(before, (e: Entry) => e.ordinal <= n, (e: Entry) => e.ordinal <= n - 1);
      } else {
        NumberedUpTo(before, n);
        assert before[..n] == entries[..n];
      }
    }
  }

  /** The entries of a thread are numbered 1, 2, 3 and so on. */
  lemma {:induction false} LocalNumbered(own: seq<Event>)
    ensures Numbered(Local(own).entries)
  {
    if own != [] {
      LocalNumbered(own[..|own| - 1]);
      NumberedMax(Local(own[..|own| - 1]).entries);
    }
  }

  // The check of fork: the digest of the entries up to the checkpoint is the recorded one.
  predicate DigestMatches(entries: seq<Entry>, c: Checkpoint) {
    ContextDigest(Digests(UpTo(entries, c.entryOrdinal))) == c.contextDigest
  }

  ghost predicate CheckpointsMatch(index: Index) {
    forall k | 0 <= k < |index.checkpoints| ::
      && index.checkpoints[k].entryOrdinal <= |index.entries|
      && DigestMatches(index.entries, index.checkpoints[k])
  }

  lemma {:induction false} LocalCheckpointsMatch(own: seq<Event>)
    ensures CheckpointsMatch(Local(own))
  {
    if own != [] {
      var before, index, e := Local(own[..|own| - 1]), Local(own), own[|own| - 1];
      LocalCheckpointsMatch(own[..|own| - 1]);
      LocalNumbered(own[..|own| - 1]);
      LocalNumbered(own);
      hide Project;
      forall k | 0 <= k < |index.checkpoints|
        ensures index.checkpoints[k].entryOrdinal <= |index.entries| && DigestMatches(index.entries, index.checkpoints[k])
      {
        var c := index.checkpoints[k];
        assert c.entryOrdinal <= |before.entries|;
        NumberedUpTo(before.entries, c.entryOrdinal);
        NumberedUpTo(index.entries, c.entryOrdinal);
        assert index.entries[..c.entryOrdinal] == before.entries[..c.entryOrdinal];
        if k < |before.checkpoints| {
          assert DigestMatches(before.entries, before.checkpoints[k]);
        } else {
          assert before.entries[..|before.entries|] == before.entries;
        }
      }
    }
  }

  /** As long as journal and index are in step, every checkpoint's digest matches the entries of
      its thread up to the checkpoint. */
  lemma CheckpointsStayValid(db: Tables, c: Checkpoint)
    requires Synced(db) && c in db.index.checkpoints
    ensures DigestMatches(EntriesOf(db.index.entries, c.thread), c)
  {
    var own := EventsOf(db.events, c.thread);
    SelectMember(db.index.checkpoints, (x: Checkpoint) => x.thread == c.thread, c);
    assert View(db.index, c.thread) == Local(own);
    assert c in Local(own).checkpoints;
    LocalCheckpointsMatch(own);
  }

  // ---------------------------------------------------------------- forking

  // The context an entry list stands for.
  function Content(entries: seq<Entry>): seq<Projection> {
    seq(|entries|, k requires 0 <= k < |entries| => Projection(entries[k].kind, entries[k].payload))
  }

  predicate Replayable(p: Projection) {
    Replay(p).Some? && Project(Replay(p).value.0, Replay(p).value.1) == Some(p)
  }

  ghost predicate AllReplayable(entries: seq<Entry>) {
    forall k | 0 <= k < |entries| :: Replayable(Projection(entries[k].kind, entries[k].payload))
  }

  lemma {:induction false} LocalReplayable(own: seq<Event>)
    ensures AllReplayable(Local(own).entries)
  {
    if own != [] {
      var e := own[|own| - 1];
      LocalReplayable(own[..|own| - 1]);
      if Project(e.kind, e.payload).Some? { ReplayProjectsSame(e.kind, e.payload); }
      hide Project, Replay, Replayable;
    }
  }

  const CREATED := map["status" := Str("idle")]

  function Created(db: Tables, fork: string, id: string, at: int): Tables {
    Apply(db, Append(id, fork, None, Other("thread.lifecycle"), CREATED, at))
  }

  function Described(db: Tables, fork: string, id: string, message: string, at: int): Tables {
    Apply(db, Append(id, fork, None, Other("diagnostic"), map["message" := Str(message)], at))
  }

  // The event appended for one entry; None where appendEntry throws.
  function EntryAction(entry: Entry, fork: string, id: string, at: int): Option<Action> {
    match Replay(Projection(entry.kind, entry.payload))
    case None => None
    case Some((kind, payload)) => Some(Append(id, fork, None, kind, payload, at))
  }

  function Replayed(db: Tables, entries: seq<Entry>, fork: string, ids: seq<string>, at: int): Option<Tables>
    requires |ids| == |entries|
    decreases |entries|
  {
    if entries == [] then Some(db)
    else
      var n := |entries| - 1;
      match Replayed(db, entries[..n], fork, ids[..n], at)
      case None => None
      case Some(before) =>
        match EntryAction(entries[n], fork, ids[n], at)
        case None => None
        case Some(action) => Some(Apply(before, action))
  }

  // Identifiers for new rows: in use nowhere, and different from one another.
  ghost predicate FreshIds(db: Tables, ids: seq<string>) {
    && (forall i, k | 0 <= i < |ids| && 0 <= k < |db.events| :: db.events[k].id != ids[i])
    && (forall i, j | 0 <= i < j < |ids| :: ids[i] != ids[j])
  }

  lemma ContentAppend(entries: seq<Entry>, more: seq<Entry>)
    ensures Content(entries + more) == Content(entries) + Content(more)
  {
  }

  lemma NoProjection(payload: Record)
    ensures Project(SessionCheckpoint, payload).None?
  {
  }

  // What a thread's context becomes by an event, and that other threads do not notice.
  lemma EventContent(index: Index, e: Event, thread: string)
    requires !HasEntryFor(index.entries, e.id) && !HasCheckpointFor(index.checkpoints, e.id)
    ensures thread != e.thread ==> View(ProjectEvent(index, e), thread) == View(index, thread)
    ensures Content(EntriesOf(ProjectEvent(index, e).entries, e.thread))
            == Content(EntriesOf(index.entries, e.thread))
               + if Project(e.kind, e.payload).Some? then [Project(e.kind, e.payload).value] else []
  {
    var own := EntriesOf(index.entries, e.thread);
    if e.kind == SessionCheckpoint {
      NoProjection(e.payload);
      if IsSafeCheckpoint(e) { ViewAppendCheckpoint(index, NewCheckpoint(own, e), thread); }
    } else if Project(e.kind, e.payload).Some? {
      var entry := NewEntry(own, e);
      ViewAppendEntry(index, entry, thread);
      ViewAppendEntry(index, entry, e.thread);
      ContentAppend(own, [entry]);
      assert Content([entry]) == [Project(e.kind, e.payload).value];
    }
  }

  lemma AppendContent(db: Tables, a: Action, thread: string)
    requires Synced(db) && a.Append? && Enabled(db, a)
    ensures Synced(Apply(db, a))
    ensures thread != a.thread ==> View(Apply(db, a).index, thread) == View(db.index, thread)
    ensures Content(EntriesOf(Apply(db, a).index.entries, a.thread))
            == Content(EntriesOf(db.index.entries, a.thread))
               + if Project(a.kind, a.payload).Some? then [Project(a.kind, a.payload).value] else []
  {
    AppendKeepsSynced(db, a);
    FreshIsUnprojected(db.index, db.events, a.id);
    hide Synced, Project, ProjectEvent, EntriesOf, View;
    EventContent(db.index, NewEvent(db, a), thread);
  }

  // The log has grown by events with these identifiers.
  ghost predicate Extends(db: Tables, db': Tables, ids: seq<string>) {
    && |db'.events| == |db.events| + |ids|
    && (forall k | 0 <= k < |db.events| :: db'.events[k] == db.events[k])
    && (forall k | 0 <= k < |ids| :: db'.events[|db.events| + k].id == ids[k])
  }

  lemma NextIsEnabled(db: Tables, db': Tables, ids: seq<string>, n: nat, a: Action)
    requires FreshIds(db, ids) && n < |ids| && Extends(db, db', ids[..n]) && a.Append? && a.id == ids[n]
    ensures Enabled(db', a) && Extends(db, Apply(db', a), ids[..n + 1])
  {
    hide ProjectEvent;
    forall k | 0 <= k < |db'.events| ensures db'.events[k].id != a.id {
      if k >= |db.events| { assert db'.events[k].id == ids[..n][k - |db.events|] == ids[k - |db.events|]; }
    }
  }

  /** Replaying entries appends their context to the new thread and leaves other threads alone. */
  lemma {:induction false} ReplayGivesContent(db: Tables, entries: seq<Entry>, fork: string, ids: seq<string>, at: int, thread: string)
    requires Synced(db) && |ids| == |entries| && FreshIds(db, ids) && AllReplayable(entries)
    ensures Replayed(db, entries, fork, ids, at).Some?
    ensures var db' := Replayed(db, entries, fork, ids, at).value;
            && Synced(db') && Extends(db, db', ids)
            && Content(EntriesOf(db'.index.entries, fork)) == Content(EntriesOf(db.index.entries, fork)) + Content(entries)
            && (thread != fork ==> View(db'.index, thread) == View(db.index, thread))
  {
    hide Synced, Project, Replay, EntriesOf, View, Extends, Apply;
    if entries == [] {
      ExtendsNothing(db);
      assert Content(EntriesOf(db.index.entries, fork)) + Content([]) == Content(EntriesOf(db.index.entries, fork));
    } else {
      var n := |entries| - 1;
      ReplayGivesContent(db, entries[..n], fork, ids[..n], at, thread);
      var before := Replayed(db, entries[..n], fork, ids[..n], at).value;
      var p := Projection(entries[n].kind, entries[n].payload);
      assert Replayable(p);
      var action := EntryAction(entries[n], fork, ids[n], at).value;
      NextIsEnabled(db, before, ids, n, action);
      assert ids[..n + 1] == ids;
      AppendContent(before, action, thread);
      assert Content(entries) == Content(entries[..n]) + [p];
    }
  }

  lemma ExtendsNothing(db: Tables)
    ensures Extends(db, db, [])
  {
  }

  datatype ForkResult =
    | Forked(db: Tables)
    | CheckpointNotFound
    | IntegrityFailure
    | InvalidEntry

  // A new thread with the context of some entries, and a closing remark.
  function Copied(db: Tables, entries: seq<Entry>, fork: string, ids: seq<string>, message: string, at: int): Option<Tables>
    requires |ids| == |entries| + 2
  {
    var n := |entries|;
    match Replayed(Created(db, fork, ids[0], at), entries, fork, ids[1..n + 1], at)
    case None => None
    case Some(replayed) => Some(Described(replayed, fork, ids[n + 1], message, at))
  }

  // The whole fork. A replay that throws is undone, and reported.
  function Fork(db: Tables, c: Checkpoint, fork: string, ids: seq<string>, message: string, at: int): ForkResult
    requires |ids| == |UpTo(EntriesOf(db.index.entries, c.thread), c.entryOrdinal)| + 2
  {
    var entries := UpTo(EntriesOf(db.index.entries, c.thread), c.entryOrdinal);
    if c !in db.index.checkpoints then CheckpointNotFound
    else if ContextDigest(Digests(entries)) != c.contextDigest then IntegrityFailure
    else
      match Copied(db, entries, fork, ids, message, at)
      case None => InvalidEntry
      case Some(copied) => Forked(copied)
  }

  lemma PrefixReplayable(db: Tables, thread: string, ordinal: nat)
    requires Synced(db)
    ensures AllReplayable(UpTo(EntriesOf(db.index.entries, thread), ordinal))
  {
    var own := EntriesOf(db.index.entries, thread);
    assert View(db.index, thread) == Local(EventsOf(db.events, thread));
    LocalReplayable(EventsOf(db.events, thread));
    var prefix := UpTo(own, ordinal);
    forall k | 0 <= k < |prefix| ensures Replayable(Projection(prefix[k].kind, prefix[k].payload)) {
      SelectMember(own, (e: Entry) => e.ordinal <= ordinal, prefix[k]);
      var i :| 0 <= i < |own| && own[i] == prefix[k];
      assert Replayable(Projection(own[i].kind, own[i].payload));
    }
  }

  lemma FreshLater(db: Tables, a: Action, ids: seq<string>)
    requires a.Append? && ids != [] && a.id == ids[0] && FreshIds(db, ids)
    ensures Enabled(db, a)
    ensures forall n | 0 <= n <= |ids| - 1 :: FreshIds(Apply(db, a), ids[1..][..n])
    ensures FreshIds(Apply(db, a), ids[1..])
  {
    hide ProjectEvent;
  }

  lemma OthersProjectNothing(name: string, payload: Record)
    ensures Project(Other(name), payload).None?
  {
  }

  lemma CopiedContent(db: Tables, entries: seq<Entry>, fork: string, ids: seq<string>, message: string, at: int, thread: string)
    requires Synced(db) && |ids| == |entries| + 2 && FreshIds(db, ids) && AllReplayable(entries)
    requires EntriesOf(db.index.entries, fork) == []
    ensures Copied(db, entries, fork, ids, message, at).Some?
    ensures var db' := Copied(db, entries, fork, ids, message, at).value;
            && Synced(db')
            && Content(EntriesOf(db'.index.entries, fork)) == Content(entries)
            && (thread != fork ==> View(db'.index, thread) == View(db.index, thread))
  {
    hide Synced, EntriesOf, View, Apply, AllReplayable, Replayed, FreshIds, Extends, Project, Enabled;
    var n := |entries|;
    var opening := Append(ids[0], fork, None, Other("thread.lifecycle"), CREATED, at);
    FreshLater(db, opening, ids);
    OthersProjectNothing("thread.lifecycle", CREATED);
    AppendContent(db, opening, thread);
    var created := Created(db, fork, ids[0], at);
    assert ids[1..][..n] == ids[1..n + 1];
    ReplayGivesContent(created, entries, fork, ids[1..n + 1], at, thread);
    var replayed := Replayed(created, entries, fork, ids[1..n + 1], at).value;
    var closing := Append(ids[n + 1], fork, None, Other("diagnostic"), map["message" := Str(message)], at);
    OthersProjectNothing("diagnostic", map["message" := Str(message)]);
    NextIsEnabled(created, replayed, ids[1..], n, closing);
    AppendContent(replayed, closing, thread);
    assert Content([]) + [] + Content(entries) + [] == Content(entries);
  }

  /** Forking a checkpoint of a journal whose index is in step always succeeds. The new thread
      gets the context of the entries up to the checkpoint, and no other thread changes. */
  lemma ForkSucceeds(db: Tables, c: Checkpoint, fork: string, ids: seq<string>, message: string, at: int, thread: string)
    requires Synced(db) && c in db.index.checkpoints && EntriesOf(db.index.entries, fork) == []
    requires |ids| == |UpTo(EntriesOf(db.index.entries, c.thread), c.entryOrdinal)| + 2 && FreshIds(db, ids)
    ensures Fork(db, c, fork, ids, message, at).Forked?
    ensures var db' := Fork(db, c, fork, ids, message, at).db;
            && Synced(db')
            && Content(EntriesOf(db'.index.entries, fork)) == Content(UpTo(EntriesOf(db.index.entries, c.thread), c.entryOrdinal))
            && (thread != fork ==> View(db'.index, thread) == View(db.index, thread))
  {
    CheckpointsStayValid(db, c);
    PrefixReplayable(db, c.thread, c.entryOrdinal);
    hide Synced, EntriesOf, View, Copied, AllReplayable, FreshIds, UpTo;
    CopiedContent(db, UpTo(EntriesOf(db.index.entries, c.thread), c.entryOrdinal), fork, ids, message, at, thread);
  }
}
