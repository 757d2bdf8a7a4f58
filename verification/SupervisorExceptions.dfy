/**
 Two concrete runs of the supervisor that leave the conditions of SupervisorSpec's theorems and
 their guarantees: a start callback that is rejected after its fork, and two starts of one thread
 that overlap while their leases are resolved.
 */
module SupervisorExceptions {
  import opened Common
  import opened SchedulerSpec
  import opened SupervisorLeaks
  import opened SupervisorSpec

  lemma EnqueueFree(s: Slots, capacity: nat, task: Lease)
    requires s.queue == [] && |s.active| < capacity && !HasId(s.active, task.id)
    requires forall other | other in s.active :: !LeasesConflict(other, task)
    ensures Apply(s, capacity, Enqueue(task)) == Slots(s.active + [task], [])
  {
    var pushed := Slots(s.active, [] + [task]);
    assert !Blocked(task, Elements(s.active));
    assert Started(Elements(s.active), [task], Room(s.active, capacity)) == [task];
    assert Drained(pushed, capacity).active[|s.active|] == task;
  }

  lemma EnqueueFull(s: Slots, task: Lease)
    requires |s.active| == 1 && s.queue == [] && s.active[0].id != task.id
    ensures Apply(s, 1, Enqueue(task)) == Slots(s.active, [task])
  {
    assert Drained(Slots(s.active, [task]), 1) == Slots(s.active, [task]);
    assert s.queue + [task] == [task];
  }

  lemma FailOnly(first: Lease, second: Lease)
    ensures Apply(Slots([first], [second]), 1, StartFailure(first.id)) == Slots([second], [])
  {
    assert [first][0].id == first.id;
    assert Without([first], first.id) == [];
    assert Started({}, [second], 1) == [second] + Started({} + {second}, [], 0);
    assert Elements([]) == {};
  }

  const FIRST := Lease("a", "/ws", None, Write)
  const SECOND := Lease("b", "/ws", None, Write)

  // Both turns are started; the first one's child runs.
  const WAITING := INITIAL.(resolving := map["a" := "s"])
  const STARTED := Supervisor(Slots([FIRST], []), map["s" := "a"], map[], map[], map["a" := Ticket("s", FIRST)], map[], {"a"})
  const BOTH := STARTED.(resolving := map["b" := "t"])
  const QUEUED := Supervisor(Slots([FIRST], [SECOND]), map["s" := "a", "t" := "b"], map[], map[],
                             map["a" := Ticket("s", FIRST), "b" := Ticket("t", SECOND)], map[], {"a"})
  const FORKED := Supervisor(Slots([FIRST], [SECOND]), map["t" := "b"], map["s" := "a"],
                             map["a" := Runtime("s", FIRST, false, false)], QUEUED.tickets, map[], {})
  const REJECTED := Supervisor(Slots([SECOND], []), map["t" := "b"], map[],
                               map["a" := Runtime("s", FIRST, true, false)], QUEUED.tickets, map[], {"b"})

  lemma FirstStarts()
    ensures Next(INITIAL, 1, StartRequested("s", "a")) == WAITING
    ensures Next(WAITING, 1, StartResolved("a", FIRST)) == STARTED
    ensures Next(STARTED, 1, StartRequested("t", "b")) == BOTH
  {
    EnqueueFree(Slots([], []), 1, FIRST);
    hide Apply;
    assert [] + [FIRST] == [FIRST];
    assert Ids([FIRST]) == {"a"} && Ids([]) == {};
  }

  lemma SecondWaits()
    ensures Next(BOTH, 1, StartResolved("b", SECOND)) == QUEUED
    ensures Next(QUEUED, 1, Launch("a", true)) == FORKED
  {
    assert Slots([FIRST], []).active[0].id == "a";
    EnqueueFull(Slots([FIRST], []), SECOND);
    hide Apply;
    assert BOTH.resolving - {"b"} == map[];
    assert QUEUED.pending - {"s"} == map["t" := "b"];
  }

  lemma FirstRejected()
    ensures Next(FORKED, 1, LateRejection("a")) == REJECTED
  {
    FailOnly(FIRST, SECOND);
    hide Apply;
    assert HasId([FIRST], "a") by { assert [FIRST][0].id == "a"; }
    assert Ids([FIRST]) == {"a"} && Ids([SECOND]) == {"b"};
    assert FORKED.active - {"s"} == map[];
  }

  /** Such a run exists: with one slot, two writers of one workspace run side by side after the
      first one's start was rejected late. */
  lemma LateRejectionRun() returns (states: seq<Supervisor>, steps: seq<Step>)
    ensures SupervisorSpec.IsRun(states, steps, 1)
    ensures !ChildrenSafe(states[|steps|], 1)
  {
    FirstStarts();
    SecondWaits();
    FirstRejected();
    hide Next;
    steps := [StartRequested("s", "a"), StartResolved("a", FIRST), StartRequested("t", "b"), StartResolved("b", SECOND),
              Launch("a", true), LateRejection("a"), Launch("b", true)];
    var last := Next(REJECTED, 1, Launch("b", true));
    states := [INITIAL, WAITING, STARTED, BOTH, QUEUED, FORKED, REJECTED, last];
    BothLive();
  }

  lemma BothLive()
    ensures !ChildrenSafe(Next(REJECTED, 1, Launch("b", true)), 1)
  {
    hide Apply;
    var last := Next(REJECTED, 1, Launch("b", true));
    assert last.Live("a") && last.Live("b");
    assert "a" in LiveTurns(last) && "b" in LiveTurns(last);
    assert LeasesConflict(last.runtimes["a"].lease, last.runtimes["b"].lease);
  }

  // With two slots, two readers of one workspace, started for one thread at the same time.
  const READER_A := Lease("a", "/ws", None, Read)
  const READER_B := Lease("b", "/ws", None, Read)
  const A_RESOLVING := INITIAL.(resolving := map["a" := "s"])
  const BOTH_RESOLVING := INITIAL.(resolving := map["a" := "s", "b" := "s"])
  const A_STARTED := Supervisor(Slots([READER_A], []), map["s" := "a"], map[], map[], map["a" := Ticket("s", READER_A)], map["b" := "s"], {"a"})
  const A_FORKED := Supervisor(Slots([READER_A], []), map[], map["s" := "a"], map["a" := Runtime("s", READER_A, false, false)],
                               map["a" := Ticket("s", READER_A)], map["b" := "s"], {})
  const B_STARTED := Supervisor(Slots([READER_A, READER_B], []), map["s" := "b"], map["s" := "a"], A_FORKED.runtimes,
                                map["a" := Ticket("s", READER_A), "b" := Ticket("s", READER_B)], map[], {"b"})
  const B_FORKED := Supervisor(Slots([READER_A, READER_B], []), map[], map["s" := "b"],
                               map["a" := Runtime("s", READER_A, false, false), "b" := Runtime("s", READER_B, false, false)],
                               B_STARTED.tickets, map[], {})

  lemma BothResolving()
    ensures Next(INITIAL, 2, StartRequested("s", "a")) == A_RESOLVING
    ensures Next(A_RESOLVING, 2, StartRequested("s", "b")) == BOTH_RESOLVING
  {
    hide Apply;
  }

  lemma ReaderAForks()
    ensures Next(A_STARTED, 2, Launch("a", true)) == A_FORKED
  {
    hide Apply;
    assert A_STARTED.pending - {"s"} == map[];
  }

  lemma EmptySchedulerStarts()
    ensures !HasId([], "a") && EnqueueAnswer(Slots([], []), 2, READER_A).DidStart?
    ensures Apply(Slots([], []), 2, Enqueue(READER_A)) == Slots([READER_A], [])
    ensures Ids([READER_A]) - Ids([]) == {"a"}
  {
    EnqueueFree(Slots([], []), 2, READER_A);
    assert [] + [READER_A] == [READER_A];
    assert Ids([READER_A]) == {"a"} && Ids([]) == {};
  }

  lemma ReaderAStarts()
    ensures Next(BOTH_RESOLVING, 2, StartResolved("a", READER_A)) == A_STARTED
  {
    hide Apply, Ids, EnqueueAnswer;
    EmptySchedulerStarts();
    assert BOTH_RESOLVING.resolving - {"a"} == map["b" := "s"];
  }

  lemma ReaderBForks()
    ensures Next(B_STARTED, 2, Launch("b", true)) == B_FORKED
  {
    hide Apply;
    assert B_STARTED.pending - {"s"} == map[];
  }

  lemma ReaderBStarts()
    ensures Next(A_FORKED, 2, StartResolved("b", READER_B)) == B_STARTED
  {
    EnqueueFree(Slots([READER_A], []), 2, READER_B);
    hide Apply;
    assert [READER_A] + [READER_B] == [READER_A, READER_B];
    assert Ids([READER_A]) == {"a"};
    assert Ids([READER_A, READER_B]) == {"a", "b"} by {
      assert READER_B == [READER_A, READER_B][1];
    }
    assert A_FORKED.resolving - {"b"} == map[];
  }

  lemma FirstReaderGone()
    ensures Enabled(B_FORKED, ChildExit("a"))
    ensures Lost(Next(B_FORKED, 2, ChildExit("a")), "a")
  {
    assert B_FORKED.slots.active[0] == READER_A;
    OrphansAreLost(B_FORKED, 2, "a");
  }

  /** Such a run exists: the first child exits and its slot stays taken, by nobody, through
      whatever follows other than a late rejection of the first start. */
  lemma OverlappingStartsRun() returns (states: seq<Supervisor>, steps: seq<Step>)
    ensures SupervisorSpec.IsRun(states, steps, 2)
    ensures forall i | 0 <= i < |steps| :: !steps[i].LateRejection?
    ensures Lost(states[|steps|], "a") && !NoLeak(states[|steps|])
  {
    BothResolving();
    ReaderAStarts();
    ReaderAForks();
    ReaderBStarts();
    ReaderBForks();
    FirstReaderGone();
    hide Next, NoLeak, Lost;
    var last := Next(B_FORKED, 2, ChildExit("a"));
    LostIsLeaked(last, "a");
    steps := [StartRequested("s", "a"), StartRequested("s", "b"), StartResolved("a", READER_A), Launch("a", true),
              StartResolved("b", READER_B), Launch("b", true), ChildExit("a")];
    states := [INITIAL, A_RESOLVING, BOTH_RESOLVING, A_STARTED, A_FORKED, B_STARTED, B_FORKED, last];
  }
}
