/**
 The journal and its session index (database.ts): an append-only event log per thread, and the
 entries and checkpoints derived from it, either one event at a time while events are appended or
 by one pass over the whole log. Rows are kept in insertion order. Random row identifiers are not
 represented; a digest is represented by the value it is taken of, which makes it injective.
 */
module JournalSpec {
  import opened Common
  import opened Json
  import opened SessionProjection

  datatype Event = Event(
    id: string, thread: string, turn: Option<string>, sequence: nat, kind: EventType, timestamp: int, payload: Record)

  datatype Digest =
    | EntryDigest(thread: string, turn: Option<string>, ordinal: nat, kind: EntryKind, timestamp: int, payload: Record)
    | ContextDigest(entries: seq<Digest>)

  datatype Entry = Entry(
    thread: string, turn: Option<string>, source: string, ordinal: nat, kind: EntryKind, timestamp: int,
    payload: Record, digest: Digest)

  datatype Checkpoint = Checkpoint(
    thread: string, turn: string, source: string, entryOrdinal: nat, contextDigest: Digest, createdAt: int)

  datatype Index = Index(entries: seq<Entry>, checkpoints: seq<Checkpoint>)

  const NO_INDEX := Index([], [])

  // ---------------------------------------------------------------- selections

  function Select<T>(rows: seq<T>, keep: T -> bool): seq<T> {
    if rows == [] then []
    else Select(rows[..|rows| - 1], keep) + if keep(rows[|rows| - 1]) then [rows[|rows| - 1]] else []
  }

  lemma SelectAppend<T>(rows: seq<T>, row: T, keep: T -> bool)
    ensures Select(rows + [row], keep) == Select(rows, keep) + if keep(row) then [row] else []
  {
    assert (rows + [row])[..|rows|] == rows;
  }

  lemma {:induction false} SelectMember<T>(rows: seq<T>, keep: T -> bool, row: T)
    ensures row in Select(rows, keep) <==> keep(row) && row in rows
  {
    if rows != [] {
      var before, last := rows[..|rows| - 1], rows[|rows| - 1];
      SelectMember(before, keep, row);
      assert rows == before + [last];
    }
  }

  lemma {:induction false} SelectTwice<T>(rows: seq<T>, first: T -> bool, second: T -> bool, both: T -> bool)
    requires forall row | row in rows :: both(row) <==> first(row) && second(row)
    ensures Select(Select(rows, first), second) == Select(rows, both)
  {
    if rows != [] {
      var before, last := rows[..|rows| - 1], rows[|rows| - 1];
      SelectTwice(before, first, second, both);
      assert last in rows;
      assert Select(before, first) + [] == Select(before, first);
      SelectAppend(Select(before, first), last, second);
    }
  }

  lemma {:induction false} SelectSame<T>(rows: seq<T>, left: T -> bool, right: T -> bool)
    requires forall row | row in rows :: left(row) <==> right(row)
    ensures Select(rows, left) == Select(rows, right)
  {
    if rows != [] { SelectSame(rows[..|rows| - 1], left, right); }
  }

  lemma {:induction false} SelectNone<T>(rows: seq<T>, keep: T -> bool)
    requires forall row | row in rows :: !keep(row)
    ensures Select(rows, keep) == []
  {
    if rows != [] { SelectNone(rows[..|rows| - 1], keep); }
  }

  function EventsOf(events: seq<Event>, thread: string): seq<Event> {
    Select(events, (e: Event) => e.thread == thread)
  }

  function EntriesOf(entries: seq<Entry>, thread: string): seq<Entry> {
    Select(entries, (e: Entry) => e.thread == thread)
  }

  function CheckpointsOf(checkpoints: seq<Checkpoint>, thread: string): seq<Checkpoint> {
    Select(checkpoints, (c: Checkpoint) => c.thread == thread)
  }

  // What the index says about one thread.
  function View(index: Index, thread: string): Index {
    Index(EntriesOf(index.entries, thread), CheckpointsOf(index.checkpoints, thread))
  }

  function Max(x: nat, y: nat): nat {
    if x >= y then x else y
  }

  // COALESCE(MAX(sequence), 0) over one thread's events
  function MaxSequence(events: seq<Event>): nat {
    if events == [] then 0 else Max(MaxSequence(events[..|events| - 1]), events[|events| - 1].sequence)
  }

  function MaxOrdinal(entries: seq<Entry>): nat {
    if entries == [] then 0 else Max(MaxOrdinal(entries[..|entries| - 1]), entries[|entries| - 1].ordinal)
  }

  function Digests(entries: seq<Entry>): seq<Digest> {
    seq(|entries|, k requires 0 <= k < |entries| => entries[k].digest)
  }

  // ---------------------------------------------------------------- projecting an event

  predicate IsSafeCheckpoint(e: Event) {
    e.kind == SessionCheckpoint && e.turn.Some? && "safe" in e.payload && e.payload["safe"] == Bool(true)
  }

  // The rows an event adds, given the entries its thread has so far.
  function NewCheckpoint(before: seq<Entry>, e: Event): Checkpoint
    requires IsSafeCheckpoint(e)
  {
    Checkpoint(e.thread, e.turn.value, e.id, if before == [] then 0 else before[|before| - 1].ordinal,
               ContextDigest(Digests(before)), e.timestamp)
  }

  function NewEntry(before: seq<Entry>, e: Event): Entry
    requires Project(e.kind, e.payload).Some?
  {
    var p := Project(e.kind, e.payload).value;
    var ordinal := MaxOrdinal(before) + 1;
    Entry(e.thread, e.turn, e.id, ordinal, p.kind, e.timestamp, p.payload,
          EntryDigest(e.thread, e.turn, ordinal, p.kind, e.timestamp, p.payload))
  }

  predicate HasEntryFor(entries: seq<Entry>, source: string) {
    exists k | 0 <= k < |entries| :: entries[k].source == source
  }

  predicate HasCheckpointFor(checkpoints: seq<Checkpoint>, source: string) {
    exists k | 0 <= k < |checkpoints| :: checkpoints[k].source == source
  }

  // projectSessionEvent: an event already represented in the index changes nothing.
  function ProjectEvent(index: Index, e: Event): Index {
    if e.kind == SessionCheckpoint then
      if !IsSafeCheckpoint(e) || HasCheckpointFor(index.checkpoints, e.id) then index
      else index.(checkpoints := index.checkpoints + [NewCheckpoint(EntriesOf(index.entries, e.thread), e)])
    else if Project(e.kind, e.payload).None? || HasEntryFor(index.entries, e.id) then index
    else index.(entries := index.entries + [NewEntry(EntriesOf(index.entries, e.thread), e)])
  }

  function ProjectAll(index: Index, events: seq<Event>): Index {
    if events == [] then index else ProjectEvent(ProjectAll(index, events[..|events| - 1]), events[|events| - 1])
  }

  // The index of a single thread's events, without the check for earlier projection.
  function Local(events: seq<Event>): Index {
    if events == [] then NO_INDEX
    else
      var before, e := Local(events[..|events| - 1]), events[|events| - 1];
      if e.kind == SessionCheckpoint then
        if IsSafeCheckpoint(e) then before.(checkpoints := before.checkpoints + [NewCheckpoint(before.entries, e)]) else before
      else if Project(e.kind, e.payload).Some? then before.(entries := before.entries + [NewEntry(before.entries, e)])
      else before
  }

  // ---------------------------------------------------------------- rebuilding

  ghost predicate DistinctIds(events: seq<Event>) {
    forall i, j | 0 <= i < j < |events| :: events[i].id != events[j].id
  }

  ghost predicate HasSource(events: seq<Event>, source: string, thread: string) {
    exists i | 0 <= i < |events| :: events[i].id == source && events[i].thread == thread
  }

  // The index rows stem from these events.
  ghost predicate Sourced(index: Index, events: seq<Event>) {
    && (forall k | 0 <= k < |index.entries| :: HasSource(events, index.entries[k].source, index.entries[k].thread))
    && (forall k | 0 <= k < |index.checkpoints| :: HasSource(events, index.checkpoints[k].source, index.checkpoints[k].thread))
  }

  lemma ViewAppendEntry(index: Index, entry: Entry, thread: string)
    ensures View(index.(entries := index.entries + [entry]), thread)
            == Index(EntriesOf(index.entries, thread) + (if entry.thread == thread then [entry] else []),
                     CheckpointsOf(index.checkpoints, thread))
  {
    SelectAppend(index.entries, entry, (e: Entry) => e.thread == thread);
  }

  lemma ViewAppendCheckpoint(index: Index, c: Checkpoint, thread: string)
    ensures View(index.(checkpoints := index.checkpoints + [c]), thread)
            == Index(EntriesOf(index.entries, thread),
                     CheckpointsOf(index.checkpoints, thread) + (if c.thread == thread then [c] else []))
  {
    SelectAppend(index.checkpoints, c, (c: Checkpoint) => c.thread == thread);
  }

  // Projecting a new event extends the view of its thread as Local does, and no other view.
  lemma ProjectEventView(index: Index, e: Event, thread: string, events: seq<Event>)
    requires !HasEntryFor(index.entries, e.id) && !HasCheckpointFor(index.checkpoints, e.id)
    requires View(index, thread) == Local(EventsOf(events, thread))
    ensures View(ProjectEvent(index, e), thread) == Local(EventsOf(events + [e], thread))
  {
    SelectAppend(events, e, (e: Event) => e.thread == thread);
    var own := EventsOf(events, thread);
    ProjectedView(index, e, thread);
    hide Project, ProjectEvent, EventsOf, EntriesOf, CheckpointsOf, NewEntry, NewCheckpoint, IsSafeCheckpoint;
    if e.thread == thread {
      assert (own + [e])[..|own|] == own;
    } else {
      assert own + [] == own;
    }
  }

  // What projecting a new event does to the view of a thread.
  lemma ProjectedView(index: Index, e: Event, thread: string)
    requires !HasEntryFor(index.entries, e.id) && !HasCheckpointFor(index.checkpoints, e.id)
    ensures var before, after := View(index, thread), View(ProjectEvent(index, e), thread);
            if e.thread != thread then after == before
            else if e.kind == SessionCheckpoint then
              after == if IsSafeCheckpoint(e) then before.(checkpoints := before.checkpoints + [NewCheckpoint(before.entries, e)]) else before
            else if Project(e.kind, e.payload).Some? then after == before.(entries := before.entries + [NewEntry(before.entries, e)])
            else after == before
  {
    var before := EntriesOf(index.entries, e.thread);
    if e.kind == SessionCheckpoint {
      if IsSafeCheckpoint(e) { ViewAppendCheckpoint(index, NewCheckpoint(before, e), thread); }
    } else if Project(e.kind, e.payload).Some? {
      ViewAppendEntry(index, NewEntry(before, e), thread);
    }
    hide Project, EntriesOf, CheckpointsOf, NewEntry, NewCheckpoint, IsSafeCheckpoint, HasEntryFor, HasCheckpointFor;
  }

  lemma HasSourceAppend(events: seq<Event>, e: Event, source: string, thread: string)
    requires HasSource(events, source, thread) || (e.id == source && e.thread == thread)
    ensures HasSource(events + [e], source, thread)
  {
    if HasSource(events, source, thread) {
      var i :| 0 <= i < |events| && events[i].id == source && events[i].thread == thread;
      assert (events + [e])[i] == events[i];
    } else {
      assert (events + [e])[|events|] == e;
    }
  }

  lemma ProjectEventSourced(index: Index, e: Event, events: seq<Event>)
    requires Sourced(index, events)
    ensures Sourced(ProjectEvent(index, e), events + [e])
  {
    hide HasSource, Project, EntriesOf;
    var index' := ProjectEvent(index, e);
    forall k | 0 <= k < |index'.entries| ensures HasSource(events + [e], index'.entries[k].source, index'.entries[k].thread) {
      HasSourceAppend(events, e, index'.entries[k].source, index'.entries[k].thread);
    }
    forall k | 0 <= k < |index'.checkpoints| ensures HasSource(events + [e], index'.checkpoints[k].source, index'.checkpoints[k].thread) {
      HasSourceAppend(events, e, index'.checkpoints[k].source, index'.checkpoints[k].thread);
    }
  }

  lemma FreshIsUnprojected(index: Index, events: seq<Event>, id: string)
    requires Sourced(index, events) && forall i | 0 <= i < |events| :: events[i].id != id
    ensures !HasEntryFor(index.entries, id) && !HasCheckpointFor(index.checkpoints, id)
  {
  }

  /** A pass over a log, from empty tables, gives every thread the index of its own events, in
      whatever way the threads' events are interleaved. */
  lemma {:induction false} PassGivesLocal(events: seq<Event>, thread: string)
    requires DistinctIds(events)
    ensures Sourced(ProjectAll(NO_INDEX, events), events)
    ensures View(ProjectAll(NO_INDEX, events), thread) == Local(EventsOf(events, thread))
  {
    if events != [] {
      hide ProjectEvent, View, Local, EventsOf, Sourced;
      var before, e := events[..|events| - 1], events[|events| - 1];
      PassGivesLocal(before, thread);
      assert before + [e] == events;
      var index := ProjectAll(NO_INDEX, before);
      FreshIsUnprojected(index, before, e.id);
      ProjectEventView(index, e, thread, before);
      ProjectEventSourced(index, e, before);
    }
  }

  ghost predicate Ascending(events: seq<Event>) {
    forall i, j | 0 <= i < j < |events| :: events[i].sequence < events[j].sequence
  }

  ghost predicate SameEvents(left: seq<Event>, right: seq<Event>) {
    forall e :: e in left <==> e in right
  }

  // The order a pass reads the log in: every event, each thread's by ascending sequence.
  ghost predicate ReadOrder(pass: seq<Event>, log: seq<Event>) {
    && SameEvents(pass, log)
    && forall i, j | 0 <= i < j < |pass| && pass[i].thread == pass[j].thread :: pass[i].sequence < pass[j].sequence
  }

  lemma {:induction false} EventsOfAscending(events: seq<Event>, thread: string)
    requires forall i, j | 0 <= i < j < |events| && events[i].thread == events[j].thread :: events[i].sequence < events[j].sequence
    ensures Ascending(EventsOf(events, thread))
  {
    if events != [] {
      var before, last := events[..|events| - 1], events[|events| - 1];
      EventsOfAscending(before, thread);
      var own := EventsOf(before, thread);
      forall k | 0 <= k < |own| && last.thread == thread ensures own[k].sequence < last.sequence {
        SelectMember(before, (e: Event) => e.thread == thread, own[k]);
        var i :| 0 <= i < |before| && before[i] == own[k];
        assert events[i] == own[k];
      }
    }
  }

  lemma AscendingLast(left: seq<Event>, right: seq<Event>)
    requires Ascending(left) && Ascending(right) && SameEvents(left, right) && left != [] && right != []
    ensures left[|left| - 1] == right[|right| - 1]
  {
    var l, r := left[|left| - 1], right[|right| - 1];
    assert l in right && r in left;
    var i :| 0 <= i < |right| && right[i] == l;
    var j :| 0 <= j < |left| && left[j] == r;
  }

  lemma AscendingInit(events: seq<Event>, e: Event)
    requires Ascending(events) && events != []
    ensures Ascending(events[..|events| - 1])
    ensures e in events[..|events| - 1] <==> e in events && e != events[|events| - 1]
  {
    assert events == events[..|events| - 1] + [events[|events| - 1]];
  }

  lemma Inhabited(events: seq<Event>)
    requires events != []
    ensures exists e :: e in events
  {
    assert events[0] in events;
  }

  lemma {:induction false} AscendingUnique(left: seq<Event>, right: seq<Event>)
    requires Ascending(left) && Ascending(right) && SameEvents(left, right)
    ensures left == right
  {
    if left == [] {
      if right != [] { Inhabited(right); }
    } else if right == [] {
      Inhabited(left);
    } else {
      AscendingLast(left, right);
      var leftInit, rightInit := left[..|left| - 1], right[..|right| - 1];
      forall e ensures e in leftInit <==> e in rightInit {
        AscendingInit(left, e);
        AscendingInit(right, e);
      }
      AscendingUnique(leftInit, rightInit);
    }
  }

  /** Reading the log thread by thread, or in any other order that keeps each thread's sequence,
      selects the same events of a thread in the same order. */
  lemma ReadOrderSelects(pass: seq<Event>, log: seq<Event>, thread: string)
    requires ReadOrder(pass, log) && Ascending(EventsOf(log, thread))
    ensures EventsOf(pass, thread) == EventsOf(log, thread)
  {
    EventsOfAscending(pass, thread);
    forall e ensures e in EventsOf(pass, thread) <==> e in EventsOf(log, thread) {
      SelectMember(pass, (e: Event) => e.thread == thread, e);
      SelectMember(log, (e: Event) => e.thread == thread, e);
    }
    AscendingUnique(EventsOf(pass, thread), EventsOf(log, thread));
  }

  // ---------------------------------------------------------------- the database

  datatype Tables = Tables(events: seq<Event>, index: Index)

  const EMPTY := Tables([], NO_INDEX)

  datatype Action =
    | Append(id: string, thread: string, turn: Option<string>, kind: EventType, payload: Record, timestamp: int)
    | DeleteThread(thread: string)

  function NewEvent(db: Tables, a: Action): Event
    requires a.Append?
  {
    Event(a.id, a.thread, a.turn, MaxSequence(EventsOf(db.events, a.thread)) + 1, a.kind, a.timestamp, a.payload)
  }

  // Appending projects the new event in the same transaction; deleting a thread cascades.
  function Apply(db: Tables, a: Action): Tables {
    match a
    case Append(_, _, _, _, _, _) =>
      var e := NewEvent(db, a);
      Tables(db.events + [e], ProjectEvent(db.index, e))
    case DeleteThread(thread) =>
      Tables(Select(db.events, (e: Event) => e.thread != thread),
             Index(Select(db.index.entries, (e: Entry) => e.thread != thread),
                   Select(db.index.checkpoints, (c: Checkpoint) => c.thread != thread)))
  }

  // New row identifiers are not in use.
  predicate Enabled(db: Tables, a: Action) {
    a.Append? ==> forall k | 0 <= k < |db.events| :: db.events[k].id != a.id
  }

  ghost predicate GapFree(own: seq<Event>) {
    forall k | 0 <= k < |own| :: own[k].sequence == k + 1
  }

  /** Identifiers are distinct, each thread's events are numbered without gaps, and the index of
      each thread is the index of its own events. */
  ghost predicate Synced(db: Tables) {
    && DistinctIds(db.events)
    && Sourced(db.index, db.events)
    && (forall thread :: GapFree(EventsOf(db.events, thread)))
    && (forall thread :: View(db.index, thread) == Local(EventsOf(db.events, thread)))
  }

  lemma {:induction false} GapFreeMax(own: seq<Event>)
    requires GapFree(own)
    ensures MaxSequence(own) == |own|
  {
    if own != [] { GapFreeMax(own[..|own| - 1]); }
  }

  lemma AppendKeepsGapFree(events: seq<Event>, e: Event, thread: string)
    requires GapFree(EventsOf(events, thread)) && e.sequence == MaxSequence(EventsOf(events, e.thread)) + 1
    ensures GapFree(EventsOf(events + [e], thread))
  {
    SelectAppend(events, e, (e: Event) => e.thread == thread);
    GapFreeMax(EventsOf(events, thread));
  }

  lemma AppendKeepsSynced(db: Tables, a: Action)
    requires Synced(db) && a.Append? && Enabled(db, a)
    ensures Synced(Apply(db, a))
  {
    var e := NewEvent(db, a);
    FreshIsUnprojected(db.index, db.events, e.id);
    ProjectEventSourced(db.index, e, db.events);
    assert DistinctIds(db.events + [e]);
    hide ProjectEvent, Local, EventsOf, GapFree, Sourced, View;
    forall thread
      ensures GapFree(EventsOf(db.events + [e], thread))
      ensures View(ProjectEvent(db.index, e), thread) == Local(EventsOf(db.events + [e], thread))
    {
      AppendKeepsGapFree(db.events, e, thread);
      ProjectEventView(db.index, e, thread, db.events);
    }
  }

  // Selecting a thread after another one was deleted.
  lemma DeletedView(db: Tables, gone: string, thread: string)
    ensures var db' := Apply(db, DeleteThread(gone));
            && EventsOf(db'.events, thread) == (if thread == gone then [] else EventsOf(db.events, thread))
            && View(db'.index, thread) == (if thread == gone then NO_INDEX else View(db.index, thread))
  {
    SelectTwice(db.events, (e: Event) => e.thread != gone, (e: Event) => e.thread == thread,
                (e: Event) => e.thread == thread && thread != gone);
    SelectTwice(db.index.entries, (e: Entry) => e.thread != gone, (e: Entry) => e.thread == thread,
                (e: Entry) => e.thread == thread && thread != gone);
    SelectTwice(db.index.checkpoints, (c: Checkpoint) => c.thread != gone, (c: Checkpoint) => c.thread == thread,
                (c: Checkpoint) => c.thread == thread && thread != gone);
    if thread == gone {
      SelectNone(db.events, (e: Event) => e.thread == thread && thread != gone);
      SelectNone(db.index.entries, (e: Entry) => e.thread == thread && thread != gone);
      SelectNone(db.index.checkpoints, (c: Checkpoint) => c.thread == thread && thread != gone);
    } else {
      SelectSame(db.events, (e: Event) => e.thread == thread, (e: Event) => e.thread == thread && thread != gone);
      SelectSame(db.index.entries, (e: Entry) => e.thread == thread, (e: Entry) => e.thread == thread && thread != gone);
      SelectSame(db.index.checkpoints, (c: Checkpoint) => c.thread == thread, (c: Checkpoint) => c.thread == thread && thread != gone);
    }
  }

  lemma {:induction false} SelectDistinct(events: seq<Event>, keep: Event -> bool)
    requires DistinctIds(events)
    ensures DistinctIds(Select(events, keep))
  {
    if events != [] {
      var before, last := events[..|events| - 1], events[|events| - 1];
      SelectDistinct(before, keep);
      forall k | 0 <= k < |Select(before, keep)| ensures Select(before, keep)[k].id != last.id {
        SelectMember(before, keep, Select(before, keep)[k]);
      }
    }
  }

  lemma SourceSurvives(events: seq<Event>, gone: string, source: string, thread: string)
    requires HasSource(events, source, thread) && thread != gone
    ensures HasSource(Select(events, (e: Event) => e.thread != gone), source, thread)
  {
    var i :| 0 <= i < |events| && events[i].id == source && events[i].thread == thread;
    SelectMember(events, (e: Event) => e.thread != gone, events[i]);
  }

  lemma DeleteKeepsSourced(db: Tables, gone: string)
    requires Sourced(db.index, db.events)
    ensures Sourced(Apply(db, DeleteThread(gone)).index, Apply(db, DeleteThread(gone)).events)
  {
    var db' := Apply(db, DeleteThread(gone));
    forall k | 0 <= k < |db'.index.entries|
      ensures HasSource(db'.events, db'.index.entries[k].source, db'.index.entries[k].thread)
    {
      SelectMember(db.index.entries, (e: Entry) => e.thread != gone, db'.index.entries[k]);
      SourceSurvives(db.events, gone, db'.index.entries[k].source, db'.index.entries[k].thread);
    }
    forall k | 0 <= k < |db'.index.checkpoints|
      ensures HasSource(db'.events, db'.index.checkpoints[k].source, db'.index.checkpoints[k].thread)
    {
      SelectMember(db.index.checkpoints, (c: Checkpoint) => c.thread != gone, db'.index.checkpoints[k]);
      SourceSurvives(db.events, gone, db'.index.checkpoints[k].source, db'.index.checkpoints[k].thread);
    }
  }

  /** Appending an event and deleting a thread keep journal and index in step. */
  lemma ApplyKeepsSynced(db: Tables, a: Action)
    requires Synced(db) && Enabled(db, a)
    ensures Synced(Apply(db, a))
  {
    match a
    case Append(_, _, _, _, _, _) => AppendKeepsSynced(db, a);
    case DeleteThread(gone) =>
      SelectDistinct(db.events, (e: Event) => e.thread != gone);
      DeleteKeepsSourced(db, gone);
      hide Apply;
      var db' := Apply(db, a);
      forall thread
        ensures GapFree(EventsOf(db'.events, thread))
        ensures View(db'.index, thread) == Local(EventsOf(db'.events, thread))
      {
        DeletedView(db, gone, thread);
      }
  }

  ghost predicate IsRun(states: seq<Tables>, actions: seq<Action>) {
    && |states| == |actions| + 1
    && states[0] == EMPTY
    && forall i | 0 <= i < |actions| :: Enabled(states[i], actions[i]) && states[i + 1] == Apply(states[i], actions[i])
  }

  /** In every state of every run, each thread's events are numbered from one without gaps and
      its index is that of its events. */
  lemma {:induction false} RunsStaySynced(states: seq<Tables>, actions: seq<Action>, n: nat)
    requires IsRun(states, actions) && n < |states|
    ensures Synced(states[n])
  {
    if n > 0 {
      RunsStaySynced(states, actions, n - 1);
      ApplyKeepsSynced(states[n - 1], actions[n - 1]);
    }
  }

  lemma ReadOrderDistinct(pass: seq<Event>, log: seq<Event>)
    requires DistinctIds(log) && ReadOrder(pass, log)
    ensures DistinctIds(pass)
  {
    forall i, j | 0 <= i < j < |pass| ensures pass[i].id != pass[j].id {
      assert pass[i] in log && pass[j] in log;
      var k :| 0 <= k < |log| && log[k] == pass[i];
      var l :| 0 <= l < |log| && log[l] == pass[j];
    }
  }

  /** Rebuilding from empty tables gives every thread the index that was kept while its events
      were appended. */
  lemma RebuildEqualsIncremental(db: Tables, pass: seq<Event>, thread: string)
    requires Synced(db) && ReadOrder(pass, db.events)
    ensures View(ProjectAll(NO_INDEX, pass), thread) == View(db.index, thread)
  {
    var own := EventsOf(db.events, thread);
    assert GapFree(own);
    ReadOrderDistinct(pass, db.events);
    ReadOrderSelects(pass, db.events, thread);
    PassGivesLocal(pass, thread);
  }
}
