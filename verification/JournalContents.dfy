/**
 What the journal and its index hold, event by event (database.ts, session-service.ts): which events
 a thread has, which entry or checkpoint stands for each of them, and what a fork is a fork of.
 */
module JournalContents {
  import opened Common
  import opened Json
  import opened SessionProjection
  import opened JournalSpec
  import opened SessionFork

  // ---------------------------------------------------------------- the events of a thread

  // The appends to a thread since it was last deleted.
  function Appends(actions: seq<Action>, thread: string): seq<Action> {
    if actions == [] then []
    else
      var before, last := Appends(actions[..|actions| - 1], thread), actions[|actions| - 1];
      match last
      case Append(_, t, _, _, _, _) => if t == thread then before + [last] else before
      case DeleteThread(t) => if t == thread then [] else before
  }

  // The k-th event is the k-th append, numbered from one.
  ghost predicate IsAppended(own: seq<Event>, appends: seq<Action>) {
    && |own| == |appends|
    && forall k | 0 <= k < |own| ::
         && appends[k].Append?
         && own[k] == Event(appends[k].id, appends[k].thread, appends[k].turn, k + 1, appends[k].kind, appends[k].timestamp, appends[k].payload)
  }

  lemma AppendIsAppended(db: Tables, a: Action, appends: seq<Action>, thread: string)
    requires a.Append? && GapFree(EventsOf(db.events, a.thread)) && IsAppended(EventsOf(db.events, thread), appends)
    ensures IsAppended(EventsOf(Apply(db, a).events, thread), if a.thread == thread then appends + [a] else appends)
  {
    var e := NewEvent(db, a);
    SelectAppend(db.events, e, (x: Event) => x.thread == thread);
    GapFreeMax(EventsOf(db.events, a.thread));
    var own := EventsOf(db.events, thread);
    assert EventsOf(Apply(db, a).events, thread) == own + if a.thread == thread then [e] else [];
    hide EventsOf, Apply, MaxSequence;
    assert own + [] == own;
  }

  /** In every state of every run a thread's events are exactly the appends to it since it was last
      deleted, in their order and numbered from one. */
  lemma {:induction false} EventsAreAppends(states: seq<Tables>, actions: seq<Action>, n: nat, thread: string)
    requires JournalSpec.IsRun(states, actions) && n < |states|
    ensures IsAppended(EventsOf(states[n].events, thread), Appends(actions[..n], thread))
  {
    hide Apply, EventsOf, IsAppended, Synced;
    if n == 0 {
      NothingAppended(thread);
    } else {
      EventsAreAppends(states, actions, n - 1, thread);
      RunsStaySynced(states, actions, n - 1);
      var db, a := states[n - 1], actions[n - 1];
      assert actions[..n][..n - 1] == actions[..n - 1];
      if a.Append? {
        SyncedGapFree(db, a.thread);
        AppendIsAppended(db, a, Appends(actions[..n - 1], thread), thread);
      } else {
        DeletedView(db, a.thread, thread);
        NothingAppended(thread);
      }
    }
  }

  lemma SyncedGapFree(db: Tables, thread: string)
    requires Synced(db)
    ensures GapFree(EventsOf(db.events, thread))
  {
  }

  lemma NothingAppended(thread: string)
    ensures IsAppended([], []) && EventsOf(EMPTY.events, thread) == []
  {
  }

  // ---------------------------------------------------------------- the entries of a thread

  // What the events contribute, in order.
  function Projections(own: seq<Event>): seq<Projection> {
    if own == [] then []
    else
      var last := own[|own| - 1];
      Projections(own[..|own| - 1]) + match Project(last.kind, last.payload) case None => [] case Some(p) => [p]
  }

  lemma LocalStep(own: seq<Event>)
    requires own != []
    ensures var k := |own| - 1;
            var before, e := Local(own[..k]).entries, own[k];
            Local(own).entries == before + if Project(e.kind, e.payload).Some? then [NewEntry(before, e)] else []
  {
    hide Project, NewCheckpoint, NewEntry, IsSafeCheckpoint;
    var k := |own| - 1;
    if own[k].kind == SessionCheckpoint {
      NoProjection(own[k].payload);
      assert Local(own[..k]).entries + [] == Local(own[..k]).entries;
    }
  }

  lemma ContentOfOne(e: Entry)
    ensures Content([e]) == [Projection(e.kind, e.payload)]
  {
  }

  lemma NewEntryContent(before: seq<Entry>, e: Event)
    requires Project(e.kind, e.payload).Some?
    ensures Content([NewEntry(before, e)]) == [Project(e.kind, e.payload).value]
  {
    hide Project, MaxOrdinal;
    ContentOfOne(NewEntry(before, e));
  }

  lemma {:induction false} LocalContent(own: seq<Event>)
    ensures Content(Local(own).entries) == Projections(own)
    ensures |Local(own).entries| == |Projections(own)|
  {
    hide Project, Local, Content, NewEntry;
    if own == [] {
      NothingLocal();
    } else {
      var k := |own| - 1;
      LocalContent(own[..k]);
      LocalStep(own);
      var before, e := Local(own[..k]).entries, own[k];
      if Project(e.kind, e.payload).Some? {
        NewEntryContent(before, e);
        ContentAppend(before, [NewEntry(before, e)]);
      } else {
        assert before + [] == before;
      }
    }
  }

  lemma NothingLocal()
    ensures Local([]).entries == [] && Content([]) == []
  {
  }

  lemma {:induction false} LocalGrows(own: seq<Event>, k: nat)
    requires k <= |own|
    ensures Local(own[..k]).entries <= Local(own).entries
    ensures Local(own[..k]).checkpoints <= Local(own).checkpoints
    decreases |own|
  {
    if k < |own| {
      LocalGrows(own[..|own| - 1], k);
      assert own[..|own| - 1][..k] == own[..k];
      hide Project, NewCheckpoint, NewEntry;
    } else {
      assert own[..k] == own;
    }
  }

  /** The entry of an event: numbered by how many events before it contribute, and otherwise made of
      the event's own fields and its projection. */
  lemma EntryOfEvent(own: seq<Event>, k: nat)
    requires k < |own| && Project(own[k].kind, own[k].payload).Some?
    ensures var e, p, n := own[k], Project(own[k].kind, own[k].payload).value, |Projections(own[..k])|;
            && n < |Local(own).entries|
            && Local(own).entries[n] == Entry(e.thread, e.turn, e.id, n + 1, p.kind, e.timestamp, p.payload,
                                              EntryDigest(e.thread, e.turn, n + 1, p.kind, e.timestamp, p.payload))
  {
    hide Project, NewCheckpoint;
    var e := own[k];
    assert own[..k + 1][..k] == own[..k];
    LocalGrows(own, k + 1);
    LocalContent(own[..k]);
    LocalNumbered(own[..k]);
    NumberedMax(Local(own[..k]).entries);
    NoProjection(e.payload);
    assert Local(own[..k + 1]).entries == Local(own[..k]).entries + [NewEntry(Local(own[..k]).entries, e)];
  }

  // A checkpoint event that counts.
  predicate SafePoint(e: Event) {
    e.kind == SessionCheckpoint && e.turn.Some? && "safe" in e.payload && e.payload["safe"] == Bool(true)
  }

  // The checkpoint of an event: it records how many events before it contribute, and their entries.
  ghost predicate CheckpointOf(c: Checkpoint, own: seq<Event>, k: nat)
    requires k < |own|
  {
    var n := |Projections(own[..k])|;
    && SafePoint(own[k]) && n <= |Local(own).entries|
    && c.thread == own[k].thread && c.turn == own[k].turn.value && c.source == own[k].id && c.createdAt == own[k].timestamp
    && c.entryOrdinal == n
    && c.contextDigest.ContextDigest? && |c.contextDigest.entries| == n
    && forall i | 0 <= i < n :: c.contextDigest.entries[i] == Local(own).entries[i].digest
  }

  lemma LocalSafePoint(own: seq<Event>)
    requires own != [] && SafePoint(own[|own| - 1])
    ensures var k := |own| - 1;
            Local(own) == Local(own[..k]).(checkpoints := Local(own[..k]).checkpoints + [NewCheckpoint(Local(own[..k]).entries, own[k])])
  {
    hide NewCheckpoint, Project;
  }

  lemma NewCheckpointIs(before: seq<Entry>, e: Event)
    requires SafePoint(e) && Numbered(before)
    ensures NewCheckpoint(before, e) == Checkpoint(e.thread, e.turn.value, e.id, |before|, ContextDigest(Digests(before)), e.timestamp)
    ensures |Digests(before)| == |before| && forall i | 0 <= i < |before| :: Digests(before)[i] == before[i].digest
  {
  }

  lemma NewCheckpointOf(own: seq<Event>)
    requires own != [] && SafePoint(own[|own| - 1])
    ensures var k := |own| - 1;
            && Local(own).entries == Local(own[..k]).entries
            && Local(own).checkpoints == Local(own[..k]).checkpoints + [NewCheckpoint(Local(own[..k]).entries, own[k])]
            && CheckpointOf(NewCheckpoint(Local(own[..k]).entries, own[k]), own, k)
  {
    hide Local, Projections, Content, Numbered, CheckpointOf, NewCheckpoint, Project, NewEntry, Digests;
    var k := |own| - 1;
    LocalContent(own[..k]);
    LocalNumbered(own[..k]);
    LocalSafePoint(own);
    NewCheckpointMatches(own, k, Local(own[..k]).entries);
  }

  lemma NewCheckpointMatches(own: seq<Event>, k: nat, before: seq<Entry>)
    requires k < |own| && SafePoint(own[k]) && Numbered(before) && |before| == |Projections(own[..k])| && before <= Local(own).entries
    ensures CheckpointOf(NewCheckpoint(before, own[k]), own, k)
  {
    NewCheckpointIs(before, own[k]);
    hide Local, Projections, NewCheckpoint, Digests, Numbered;
  }

  lemma CheckpointOfLonger(c: Checkpoint, own: seq<Event>, k: nat, n: nat)
    requires k < n <= |own| && CheckpointOf(c, own[..n], k)
    ensures CheckpointOf(c, own, k)
  {
    LocalGrows(own, n);
    assert own[..n][..k] == own[..k] && own[..n][k] == own[k];
  }

  /** The checkpoints of a thread are those of its safe checkpoint events and no others. */
  lemma {:induction false} EveryCheckpoint(own: seq<Event>, c: Checkpoint) returns (k: nat)
    requires c in Local(own).checkpoints
    ensures k < |own| && CheckpointOf(c, own, k)
  {
    var n := |own| - 1;
    if SafePoint(own[n]) {
      NewCheckpointOf(own);
      if c == NewCheckpoint(Local(own[..n]).entries, own[n]) { return n; }
    } else {
      hide Project, NewCheckpoint, NewEntry;
    }
    k := EveryCheckpoint(own[..n], c);
    CheckpointOfLonger(c, own, k, n);
  }

  lemma SafePointHasCheckpoint(own: seq<Event>, k: nat) returns (c: Checkpoint)
    requires k < |own| && SafePoint(own[k])
    ensures c in Local(own).checkpoints && CheckpointOf(c, own, k)
  {
    assert own[..k + 1][..k] == own[..k];
    NewCheckpointOf(own[..k + 1]);
    c := NewCheckpoint(Local(own[..k]).entries, own[k]);
    LocalGrows(own, k + 1);
    CheckpointOfLonger(c, own, k, k + 1);
    var m := |Local(own[..k + 1]).checkpoints| - 1;
    assert Local(own).checkpoints[m] == c;
  }

  // ---------------------------------------------------------------- in the database

  lemma OwnDistinct(db: Tables, thread: string)
    requires Synced(db)
    ensures DistinctIds(EventsOf(db.events, thread))
  {
    SelectDistinct(db.events, (e: Event) => e.thread == thread);
  }

  /** A checkpoint of the database records exactly the events of its thread before it that
      contribute to the session. */
  lemma CheckpointRecords(db: Tables, c: Checkpoint, k: nat)
    requires Synced(db) && c in db.index.checkpoints
    requires var own := EventsOf(db.events, c.thread); k < |own| && own[k].id == c.source
    ensures CheckpointOf(c, EventsOf(db.events, c.thread), k)
    ensures c.entryOrdinal == |Projections(EventsOf(db.events, c.thread)[..k])|
  {
    var own := EventsOf(db.events, c.thread);
    SelectMember(db.index.checkpoints, (x: Checkpoint) => x.thread == c.thread, c);
    assert View(db.index, c.thread) == Local(own);
    var j := EveryCheckpoint(own, c);
    OwnDistinct(db, c.thread);
    assert j == k;
  }

  /** And the entry of an event of the database is made of the event's own fields and its projection. */
  lemma EntryRecords(db: Tables, thread: string, k: nat)
    requires Synced(db)
    requires var own := EventsOf(db.events, thread); k < |own| && Project(own[k].kind, own[k].payload).Some?
    ensures var own := EventsOf(db.events, thread);
            var e, p, n := own[k], Project(own[k].kind, own[k].payload).value, |Projections(own[..k])|;
            && n < |EntriesOf(db.index.entries, thread)|
            && EntriesOf(db.index.entries, thread)[n]
               == Entry(e.thread, e.turn, e.id, n + 1, p.kind, e.timestamp, p.payload,
                        EntryDigest(e.thread, e.turn, n + 1, p.kind, e.timestamp, p.payload))
  {
    var own := EventsOf(db.events, thread);
    assert View(db.index, thread) == Local(own);
    EntryOfEvent(own, k);
  }

  lemma CheckpointHasSource(db: Tables, c: Checkpoint) returns (k: nat)
    requires Synced(db) && c in db.index.checkpoints
    ensures var own := EventsOf(db.events, c.thread); k < |own| && own[k].id == c.source
  {
    var own := EventsOf(db.events, c.thread);
    SelectMember(db.index.checkpoints, (x: Checkpoint) => x.thread == c.thread, c);
    assert View(db.index, c.thread) == Local(own);
    k := EveryCheckpoint(own, c);
  }

  lemma RecordedContent(db: Tables, c: Checkpoint, k: nat)
    requires Synced(db) && c in db.index.checkpoints
    requires var own := EventsOf(db.events, c.thread); k < |own| && own[k].id == c.source
    ensures Content(UpTo(EntriesOf(db.index.entries, c.thread), c.entryOrdinal)) == Projections(EventsOf(db.events, c.thread)[..k])
  {
    var own := EventsOf(db.events, c.thread);
    CheckpointRecords(db, c, k);
    assert View(db.index, c.thread) == Local(own);
    LocalNumbered(own);
    NumberedUpTo(Local(own).entries, c.entryOrdinal);
    LocalGrows(own, k);
    LocalContent(own[..k]);
    assert Local(own).entries[..c.entryOrdinal] == Local(own[..k]).entries;
  }

  /** Forking a checkpoint always succeeds, and the context of the new thread is what the events of
      the source thread before that checkpoint contribute, in order; no other thread changes. */
  lemma ForkContainsHistory(db: Tables, c: Checkpoint, k: nat, fork: string, ids: seq<string>, message: string, at: int, thread: string)
    requires Synced(db) && c in db.index.checkpoints && EntriesOf(db.index.entries, fork) == []
    requires var own := EventsOf(db.events, c.thread); k < |own| && own[k].id == c.source
    requires |ids| == |UpTo(EntriesOf(db.index.entries, c.thread), c.entryOrdinal)| + 2 && FreshIds(db, ids)
    ensures Fork(db, c, fork, ids, message, at).Forked?
    ensures var db' := Fork(db, c, fork, ids, message, at).db;
            && Synced(db')
            && Content(EntriesOf(db'.index.entries, fork)) == Projections(EventsOf(db.events, c.thread)[..k])
            && (thread != fork ==> View(db'.index, thread) == View(db.index, thread))
  {
    ForkSucceeds(db, c, fork, ids, message, at, thread);
    RecordedContent(db, c, k);
  }

  // The appends that a replay makes.
  function EntryActions(entries: seq<Entry>, fork: string, ids: seq<string>, at: int): seq<Action>
    requires |ids| == |entries|
    decreases |entries|
  {
    if entries == [] then []
    else
      var n := |entries| - 1;
      EntryActions(entries[..n], fork, ids[..n], at)
      + match Replay(Projection(entries[n].kind, entries[n].payload))
        case None => []
        case Some((kind, payload)) => [Append(ids[n], fork, None, kind, payload, at)]
  }

  lemma {:induction false} ReplayedEvents(db: Tables, entries: seq<Entry>, fork: string, ids: seq<string>, at: int, appends: seq<Action>)
    requires Synced(db) && |ids| == |entries| && FreshIds(db, ids) && AllReplayable(entries)
    requires IsAppended(EventsOf(db.events, fork), appends)
    ensures Replayed(db, entries, fork, ids, at).Some?
    ensures IsAppended(EventsOf(Replayed(db, entries, fork, ids, at).value.events, fork), appends + EntryActions(entries, fork, ids, at))
    decreases |entries|
  {
    hide Synced, EventsOf, Apply, IsAppended, FreshIds, Replay;
    if entries == [] {
      assert appends + [] == appends;
    } else {
      var n := |entries| - 1;
      FewerReplayed(db, entries, ids);
      ReplayGivesContent(db, entries[..n], fork, ids[..n], at, fork);
      ReplayedEvents(db, entries[..n], fork, ids[..n], at, appends);
      var before := Replayed(db, entries[..n], fork, ids[..n], at).value;
      SyncedGapFree(before, fork);
      var action := EntryAction(entries[n], fork, ids[n], at).value;
      AppendIsAppended(before, action, appends + EntryActions(entries[..n], fork, ids[..n], at), fork);
      assert appends + EntryActions(entries, fork, ids, at) == appends + EntryActions(entries[..n], fork, ids[..n], at) + [action];
    }
  }

  lemma FewerReplayed(db: Tables, entries: seq<Entry>, ids: seq<string>)
    requires |ids| == |entries| > 0 && FreshIds(db, ids) && AllReplayable(entries)
    ensures var n := |entries| - 1;
            && FreshIds(db, ids[..n]) && AllReplayable(entries[..n])
            && Replay(Projection(entries[n].kind, entries[n].payload)).Some?
  {
    hide Replay, Project;
  }

  /** The events of a fork are its creation, a replay of each entry up to the checkpoint in order, and
      the closing remark. */
  lemma ForkJournal(db: Tables, c: Checkpoint, fork: string, ids: seq<string>, message: string, at: int)
    requires Synced(db) && c in db.index.checkpoints && EntriesOf(db.index.entries, fork) == [] && EventsOf(db.events, fork) == []
    requires |ids| == |UpTo(EntriesOf(db.index.entries, c.thread), c.entryOrdinal)| + 2 && FreshIds(db, ids)
    ensures Fork(db, c, fork, ids, message, at).Forked?
    ensures var entries := UpTo(EntriesOf(db.index.entries, c.thread), c.entryOrdinal);
            var n := |entries|;
            IsAppended(EventsOf(Fork(db, c, fork, ids, message, at).db.events, fork),
                       [Append(ids[0], fork, None, Other("thread.lifecycle"), map["status" := Str("idle")], at)]
                       + EntryActions(entries, fork, ids[1..n + 1], at)
                       + [Append(ids[n + 1], fork, None, Other("diagnostic"), map["message" := Str(message)], at)])
  {
    var entries := UpTo(EntriesOf(db.index.entries, c.thread), c.entryOrdinal);
    var n := |entries|;
    CheckpointsStayValid(db, c);
    PrefixReplayable(db, c.thread, c.entryOrdinal);
    hide Synced, EntriesOf, EventsOf, AllReplayable, FreshIds, UpTo, IsAppended, Copied, EntryActions;
    CopiedJournal(db, entries, fork, ids, message, at);
  }

  lemma CopiedJournal(db: Tables, entries: seq<Entry>, fork: string, ids: seq<string>, message: string, at: int)
    requires Synced(db) && |ids| == |entries| + 2 && FreshIds(db, ids) && AllReplayable(entries) && EventsOf(db.events, fork) == []
    ensures Copied(db, entries, fork, ids, message, at).Some?
    ensures var n := |entries|;
            IsAppended(EventsOf(Copied(db, entries, fork, ids, message, at).value.events, fork),
                       [Append(ids[0], fork, None, Other("thread.lifecycle"), map["status" := Str("idle")], at)]
                       + EntryActions(entries, fork, ids[1..n + 1], at)
                       + [Append(ids[n + 1], fork, None, Other("diagnostic"), map["message" := Str(message)], at)])
  {
    hide Synced, EventsOf, View, Apply, AllReplayable, FreshIds, IsAppended, Replayed, Enabled, EntryActions, GapFree;
    var n := |entries|;
    var opening := Append(ids[0], fork, None, Other("thread.lifecycle"), CREATED, at);
    FreshLater(db, opening, ids);
    AppendKeepsSynced(db, opening);
    NothingAppended(fork);
    SyncedGapFree(db, fork);
    AppendIsAppended(db, opening, [], fork);
    assert [] + [opening] == [opening];
    var created := Created(db, fork, ids[0], at);
    assert ids[1..][..n] == ids[1..n + 1];
    ReplayedEvents(created, entries, fork, ids[1..n + 1], at, [opening]);
    ReplayGivesContent(created, entries, fork, ids[1..n + 1], at, fork);
    var replayed := Replayed(created, entries, fork, ids[1..n + 1], at).value;
    SyncedGapFree(replayed, fork);
    var closing := Append(ids[n + 1], fork, None, Other("diagnostic"), map["message" := Str(message)], at);
    AppendIsAppended(replayed, closing, [opening] + EntryActions(entries, fork, ids[1..n + 1], at), fork);
  }

  /** A fork goes ahead only if the entries it finds are, digest for digest, those the checkpoint
      recorded; otherwise it fails its integrity check. */
  lemma ForkChecksIntegrity(db: Tables, c: Checkpoint, fork: string, ids: seq<string>, message: string, at: int)
    requires c in db.index.checkpoints && c.contextDigest.ContextDigest?
    requires |ids| == |UpTo(EntriesOf(db.index.entries, c.thread), c.entryOrdinal)| + 2
    ensures var found, recorded := UpTo(EntriesOf(db.index.entries, c.thread), c.entryOrdinal), c.contextDigest.entries;
            Fork(db, c, fork, ids, message, at).IntegrityFailure? <==>
            !(|found| == |recorded| && forall i | 0 <= i < |found| :: found[i].digest == recorded[i])
  {
    hide EntriesOf, UpTo, Copied;
    var found, recorded := UpTo(EntriesOf(db.index.entries, c.thread), c.entryOrdinal), c.contextDigest.entries;
    assert Digests(found) == recorded <==> |found| == |recorded| && forall i | 0 <= i < |found| :: found[i].digest == recorded[i];
    assert ContextDigest(Digests(found)) == c.contextDigest <==> Digests(found) == recorded;
  }
}
