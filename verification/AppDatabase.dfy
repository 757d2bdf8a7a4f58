/**
 The journal part of the AppDatabase class (database.ts) and the fork of SessionService
 (session-service.ts), proved against JournalSpec and SessionFork. Each method is one transaction.
 */
module Databases {
  import opened Common
  import opened Json
  import opened SessionProjection
  import opened JournalSpec
  import opened SessionFork

  datatype ThreadStatus = Idle | Running | AwaitingApproval | Failed | Interrupted | Blocked

  datatype DeleteError = ThreadNotFound | ThreadRunning

  class AppDatabase {
    var events: seq<Event>
    var sessionEntries: seq<Entry>
    var sessionCheckpoints: seq<Checkpoint>

    function State(): Tables
      reads this
    {
      Tables(events, Index(sessionEntries, sessionCheckpoints))
    }

    constructor ()
      ensures State() == EMPTY
    {
      events, sessionEntries, sessionCheckpoints := [], [], [];
    }

    method AppendEvent(id: string, thread: string, turn: Option<string>, kind: EventType, payload: Record, timestamp: int)
      returns (event: Event)
      requires Enabled(State(), Append(id, thread, turn, kind, payload, timestamp))
      modifies this
      ensures State() == Apply(old(State()), Append(id, thread, turn, kind, payload, timestamp))
      ensures event == NewEvent(old(State()), Append(id, thread, turn, kind, payload, timestamp))
      ensures old(Synced(State())) ==> Synced(State()) && event.sequence == |EventsOf(old(events), thread)| + 1
    {
      ghost var before := State();
      var current := MaxSequence(EventsOf(events, thread));
      event := Event(id, thread, turn, current + 1, kind, timestamp, payload);
      events := events + [event];
      ProjectSessionEvent(event);
      if Synced(before) {
        AppendKeepsSynced(before, Append(id, thread, turn, kind, payload, timestamp));
        assert GapFree(EventsOf(before.events, thread));
        GapFreeMax(EventsOf(before.events, thread));
      }
    }

    method ProjectSessionEvent(event: Event)
      modifies this`sessionEntries, this`sessionCheckpoints
      ensures State().index == ProjectEvent(old(State()).index, event)
    {
      if event.kind == SessionCheckpoint {
        if !IsSafeCheckpoint(event) {
          return;
        }
        if HasCheckpointFor(sessionCheckpoints, event.id) {
          return;
        }
        var entries := EntriesOf(sessionEntries, event.thread);
        var entryOrdinal := if entries == [] then 0 else entries[|entries| - 1].ordinal;
        var checkpoint := Checkpoint(event.thread, event.turn.value, event.id, entryOrdinal,
                                     ContextDigest(Digests(entries)), event.timestamp);
        sessionCheckpoints := sessionCheckpoints + [checkpoint];
        return;
      }
      var projection := Project(event.kind, event.payload);
      if projection.None? {
        return;
      }
      if HasEntryFor(sessionEntries, event.id) {
        return;
      }
      var ordinal := MaxOrdinal(EntriesOf(sessionEntries, event.thread)) + 1;
      var Projection(kind, payload) := projection.value;
      var digest := EntryDigest(event.thread, event.turn, ordinal, kind, event.timestamp, payload);
      var entry := Entry(event.thread, event.turn, event.id, ordinal, kind, event.timestamp, payload, digest);
      sessionEntries := sessionEntries + [entry];
    }

    // pass is the whole log in the order of the query, by thread and sequence.
    method BackfillSessionProjection(pass: seq<Event>)
      requires ReadOrder(pass, events)
      modifies this`sessionEntries, this`sessionCheckpoints
      ensures State() == Tables(old(events), ProjectAll(old(State()).index, pass))
      ensures old(Synced(State())) ==> State() == old(State())
    {
      ghost var before := State();
      if |pass| > 0 {
        for k := 0 to |pass|
          invariant State() == Tables(before.events, ProjectAll(before.index, pass[..k]))
        {
          assert pass[..k + 1][..k] == pass[..k];
          ProjectSessionEvent(pass[k]);
        }
        assert pass[..|pass|] == pass;
      }
      if Synced(before) {
        assert forall k | 0 <= k < |pass| :: pass[k] in pass;
        SecondPassChangesNothing(before, pass);
      }
    }

    // status is what the threads table says about the thread, if it knows it.
    method DeleteThread(thread: string, status: Option<ThreadStatus>) returns (error: Option<DeleteError>)
      modifies this
      ensures error == (if status.None? then Some(ThreadNotFound)
                        else if status.value in {Running, AwaitingApproval} then Some(ThreadRunning)
                        else None)
      ensures State() == if error.None? then Apply(old(State()), Action.DeleteThread(thread)) else old(State())
      ensures old(Synced(State())) ==> Synced(State())
    {
      if status.None? {
        return Some(ThreadNotFound);
      }
      if status.value == Running || status.value == AwaitingApproval {
        return Some(ThreadRunning);
      }
      error := None;
      ghost var before := State();
      events := Select(events, (e: Event) => e.thread != thread);
      sessionEntries := Select(sessionEntries, (e: Entry) => e.thread != thread);
      sessionCheckpoints := Select(sessionCheckpoints, (c: Checkpoint) => c.thread != thread);
      if Synced(before) {
        ApplyKeepsSynced(before, Action.DeleteThread(thread));
      }
    }
  }

  class SessionService {
    const database: AppDatabase

    constructor (database: AppDatabase)
      ensures this.database == database
    {
      this.database := database;
    }

    method AppendEntry(fork: string, entry: Entry, id: string, at: int) returns (valid: bool)
      requires forall k | 0 <= k < |database.events| :: database.events[k].id != id
      modifies database
      ensures valid == EntryAction(entry, fork, id, at).Some?
      ensures database.State() == if valid then Apply(old(database.State()), EntryAction(entry, fork, id, at).value) else old(database.State())
    {
      var replay := Replay(Projection(entry.kind, entry.payload));
      if replay.None? {
        return false;
      }
      var (kind, payload) := replay.value;
      var event := database.AppendEvent(id, fork, None, kind, payload, at);
      return true;
    }

    // The loop of fork over the entries of the checkpoint.
    method AppendEntries(entries: seq<Entry>, fork: string, ids: seq<string>, at: int) returns (valid: bool)
      requires |ids| == |entries| && FreshIds(database.State(), ids)
      modifies database
      ensures valid == Replayed(old(database.State()), entries, fork, ids, at).Some?
      ensures valid ==> database.State() == Replayed(old(database.State()), entries, fork, ids, at).value
      ensures valid ==> Extends(old(database.State()), database.State(), ids)
    {
      ghost var created := database.State();
      ExtendsNothing(created);
      hide Apply, Extends, FreshIds, Replay;
      for k := 0 to |entries|
        invariant Extends(created, database.State(), ids[..k])
        invariant Replayed(created, entries[..k], fork, ids[..k], at) == Some(database.State())
      {
        assert entries[..k + 1][..k] == entries[..k] && ids[..k + 1][..k] == ids[..k];
        ghost var action := EntryAction(entries[k], fork, ids[k], at);
        if action.Some? { NextIsEnabled(created, database.State(), ids, k, action.value); }
        NextIsFresh(created, database.State(), ids, k);
        var replayed := AppendEntry(fork, entries[k], ids[k], at);
        if !replayed {
          ReplayStops(created, entries, fork, ids, at, k);
          return false;
        }
      }
      assert entries[..|entries|] == entries && ids[..|ids|] == ids;
      return true;
    }

    // ids are the identifiers of the rows the fork writes; message is the closing remark.
    method ForkThread(c: Checkpoint, fork: string, ids: seq<string>, message: string, at: int) returns (outcome: ForkResult)
      requires |ids| == |UpTo(EntriesOf(database.sessionEntries, c.thread), c.entryOrdinal)| + 2
      requires FreshIds(database.State(), ids)
      modifies database
      ensures outcome == Fork(old(database.State()), c, fork, ids, message, at)
      ensures outcome.Forked? ==> database.State() == outcome.db
      ensures outcome.CheckpointNotFound? || outcome.IntegrityFailure? ==> database.State() == old(database.State())
      ensures outcome.InvalidEntry? ==> EventsOf(database.events, fork) == []
    {
      hide Extends, FreshIds, Replayed, EntriesOf, EventsOf, UpTo, ProjectEvent;
      ghost var before := database.State();
      var entries := UpTo(EntriesOf(database.sessionEntries, c.thread), c.entryOrdinal);
      if c !in database.sessionCheckpoints {
        return CheckpointNotFound;
      }
      if ContextDigest(Digests(entries)) != c.contextDigest {
        return IntegrityFailure;
      }
      var n := |entries|;
      FreshLater(before, Append(ids[0], fork, None, Other("thread.lifecycle"), CREATED, at), ids);
      var event := database.AppendEvent(ids[0], fork, None, Other("thread.lifecycle"), CREATED, at);
      assert ids[1..][..n] == ids[1..n + 1];
      ghost var created := database.State();
      var valid := AppendEntries(entries, fork, ids[1..n + 1], at);
      if !valid {
        DeletedView(database.State(), fork, fork);
        var deleted := database.DeleteThread(fork, Some(Idle));
        return InvalidEntry;
      }
      NextIsEnabled(created, database.State(), ids[1..], n,
                    Append(ids[n + 1], fork, None, Other("diagnostic"), map["message" := Str(message)], at));
      event := database.AppendEvent(ids[n + 1], fork, None, Other("diagnostic"), map["message" := Str(message)], at);
      return Forked(database.State());
    }
  }

  lemma NextIsFresh(db: Tables, db': Tables, ids: seq<string>, n: nat)
    requires FreshIds(db, ids) && n < |ids| && Extends(db, db', ids[..n])
    ensures forall k | 0 <= k < |db'.events| :: db'.events[k].id != ids[n]
  {
    forall k | 0 <= k < |db'.events| ensures db'.events[k].id != ids[n] {
      if k >= |db.events| { assert db'.events[k].id == ids[..n][k - |db.events|] == ids[k - |db.events|]; }
    }
  }

  // An entry that cannot be replayed spoils the replay of every list it begins in.
  lemma {:induction false} ReplayStops(db: Tables, entries: seq<Entry>, fork: string, ids: seq<string>, at: int, k: nat)
    requires |ids| == |entries| && k < |entries| && EntryAction(entries[k], fork, ids[k], at).None?
    ensures Replayed(db, entries, fork, ids, at).None?
    decreases |entries|
  {
    hide Apply, Replay;
    var n := |entries| - 1;
    if k < n { ReplayStops(db, entries[..n], fork, ids[..n], at, k); }
  }
}
