/**
 The process lifecycle around the scheduler (runtime-supervisor.ts), as far as it decides when a
 worker slot is taken and given back. The state machine has one step for each piece of code that
 runs without interruption: the synchronous part of start, its continuation once the lease is
 known, the start callback of a task, stop, the end of a turn or a crash, the exit of the child
 process, and the rejection of a start callback whose child already runs.
 */
module SupervisorSpec {
  import opened Common
  import opened SchedulerSpec

  // What the callbacks given to the scheduler remember of a start.
  datatype Ticket = Ticket(thread: string, lease: Lease)

  datatype Runtime = Runtime(thread: string, lease: Lease, closing: bool, exited: bool)

  datatype Supervisor = Supervisor(
    slots: Slots,
    pending: map<string, string>,     // thread to the turn that waits to be launched
    active: map<string, string>,      // thread to the turn of its current runtime
    runtimes: map<string, Runtime>,   // every runtime whose child was forked, by turn
    tickets: map<string, Ticket>,     // every start handed to the scheduler, by turn
    resolving: map<string, string>,   // turns whose lease is being resolved, with their thread
    due: set<string>)                 // turns whose start callback has yet to run
  {
    predicate HasThread(thread: string) { thread in active || thread in pending }

    predicate Live(turn: string) { turn in runtimes && !runtimes[turn].exited }

    predicate Current(turn: string) {
      turn in runtimes && runtimes[turn].thread in active && active[runtimes[turn].thread] == turn
    }

    // The scheduler has moved on; tasks it started have their callback coming.
    function Scheduled(next: Slots): Supervisor {
      this.(slots := next, due := due + (Ids(next.active) - Ids(slots.active)))
    }
  }

  function Ids(tasks: seq<Lease>): set<string> {
    set task | task in tasks :: task.id
  }

  const INITIAL := Supervisor(Slots([], []), map[], map[], map[], map[], map[], {})

  datatype Step =
    | StartRequested(thread: string, turn: string)
    | StartResolved(turn: string, lease: Lease)
    | Launch(turn: string, ready: bool)
    | Stop(thread: string)
    | Finish(turn: string)
    | ChildExit(turn: string)
    | LateRejection(turn: string)

  // What can happen next. Turn identifiers are never reused, a callback runs once, a child exits once.
  predicate Enabled(s: Supervisor, step: Step) {
    match step
    case StartRequested(_, turn) => turn !in s.resolving && turn !in s.tickets
    case StartResolved(turn, lease) => turn in s.resolving && lease.id == turn
    case Launch(turn, _) => turn in s.due && turn in s.tickets
    case Stop(_) => true
    case Finish(turn) => turn in s.runtimes
    case ChildExit(turn) => s.Live(turn)
    case LateRejection(turn) => turn in s.runtimes
  }

  function Finished(s: Supervisor, capacity: nat, turn: string): Supervisor
    requires turn in s.runtimes
  {
    if !s.Current(turn) then s
    else
      var r := s.runtimes[turn];
      var closed := s.(runtimes := s.runtimes[turn := r.(closing := true)], active := s.active - {r.thread});
      if r.exited then closed.Scheduled(Apply(s.slots, capacity, Release(turn))) else closed
  }

  function Exited(s: Supervisor, capacity: nat, turn: string): Supervisor
    requires turn in s.runtimes
  {
    var r := s.runtimes[turn];
    var gone := s.(runtimes := s.runtimes[turn := r.(exited := true)]);
    if r.closing then gone.Scheduled(Apply(s.slots, capacity, Release(turn)))
    else Finished(gone, capacity, turn)
  }

  // A start callback that throws before it has forked a child.
  function FailedEarly(s: Supervisor, capacity: nat, turn: string): Supervisor
    requires turn in s.tickets
  {
    var thread := s.tickets[turn].thread;
    var cleared := if thread in s.pending && s.pending[thread] == turn then s.(pending := s.pending - {thread}) else s;
    if HasId(s.slots.active, turn) then cleared.Scheduled(Apply(s.slots, capacity, StartFailure(turn))) else s
  }

  function Launched(s: Supervisor, capacity: nat, turn: string, ready: bool): Supervisor
    requires turn in s.tickets
  {
    var s := s.(due := s.due - {turn});
    var Ticket(thread, lease) := s.tickets[turn];
    if !ready || thread !in s.pending || s.pending[thread] != turn then FailedEarly(s, capacity, turn)
    else
      s.(pending := s.pending - {thread},
         runtimes := s.runtimes[turn := Runtime(thread, lease, false, false)],
         active := s.active[thread := turn])
  }

  function Resolved(s: Supervisor, capacity: nat, turn: string, lease: Lease): Supervisor
    requires turn in s.resolving
  {
    var thread := s.resolving[turn];
    var answer := EnqueueAnswer(s.slots, capacity, lease);
    var waiting := s.(resolving := s.resolving - {turn},
                      tickets := s.tickets[turn := Ticket(thread, lease)],
                      pending := s.pending[thread := turn]);
    if answer.AlreadyScheduled? || answer.QueueFull? then waiting.(pending := waiting.pending - {thread})
    else waiting.Scheduled(Apply(s.slots, capacity, Enqueue(lease)))
  }

  function Stopped(s: Supervisor, capacity: nat, thread: string): Supervisor {
    if thread in s.pending then
      s.(pending := s.pending - {thread}).Scheduled(Apply(s.slots, capacity, Cancel(s.pending[thread])))
    else s
  }

  function RejectedLate(s: Supervisor, capacity: nat, turn: string): Supervisor
    requires turn in s.runtimes
  {
    if !HasId(s.slots.active, turn) then s
    else Finished(s.Scheduled(Apply(s.slots, capacity, StartFailure(turn))), capacity, turn)
  }

  function Next(s: Supervisor, capacity: nat, step: Step): Supervisor
    requires Enabled(s, step)
  {
    match step
    case StartRequested(thread, turn) => if s.HasThread(thread) then s else s.(resolving := s.resolving[turn := thread])
    case StartResolved(turn, lease) => Resolved(s, capacity, turn, lease)
    case Launch(turn, ready) => Launched(s, capacity, turn, ready)
    case Stop(thread) => Stopped(s, capacity, thread)
    case Finish(turn) => Finished(s, capacity, turn)
    case ChildExit(turn) => Exited(s, capacity, turn)
    case LateRejection(turn) => RejectedLate(s, capacity, turn)
  }

  // ---------------------------------------------------------------- a living child holds its slot

  // Books are in order: what the scheduler holds was handed to it, callbacks belong to active
  // tasks that have no child yet.
  ghost predicate Books(s: Supervisor, capacity: nat) {
    && Inv(s.slots, capacity)
    && (forall task | task in s.slots.active :: task.id in s.tickets && s.tickets[task.id].lease == task)
    && (forall task | task in s.slots.queue :: task.id in s.tickets && s.tickets[task.id].lease == task)
    && (forall turn | turn in s.tickets :: s.tickets[turn].lease.id == turn && turn !in s.resolving)
    && (forall turn | turn in s.runtimes :: turn in s.tickets && s.runtimes[turn].lease == s.tickets[turn].lease)
    && (forall turn | turn in s.runtimes :: s.runtimes[turn].thread == s.tickets[turn].thread)
    && (forall turn | turn in s.due :: turn in Ids(s.slots.active) && turn !in s.runtimes)
    && (forall task | task in s.slots.queue :: task.id !in s.runtimes)
  }

  ghost predicate LiveHoldsSlot(s: Supervisor) {
    forall turn | s.Live(turn) :: s.runtimes[turn].lease in s.slots.active
  }

  predicate Frees(action: Action, id: string) {
    (action.Release? || action.StartFailure?) && action.id == id
  }

  // The tasks the scheduler holds come from before or are the one just enqueued.
  ghost predicate Stems(s: Slots, s': Slots, action: Action) {
    && (forall task | task in s'.active :: task in s.active || task in s.queue || (action.Enqueue? && task == action.task))
    && (forall task | task in s'.queue :: task in s.queue || (action.Enqueue? && task == action.task))
    && (forall task | task in s.active && !Frees(action, task.id) :: task in s'.active)
  }

  lemma {:induction false} StartedComesFromQueue(obstacles: set<Lease>, queue: seq<Lease>, room: nat)
    ensures forall task | task in Started(obstacles, queue, room) :: task in queue
    decreases queue
  {
    if queue != [] && room > 0 {
      StartedComesFromQueue(obstacles + {queue[0]}, queue[1..], if Blocked(queue[0], obstacles) then room else room - 1);
    }
  }

  lemma DrainedStems(s: Slots, capacity: nat)
    ensures forall task | task in Drained(s, capacity).active :: task in s.active || task in s.queue
    ensures forall task | task in Drained(s, capacity).queue :: task in s.queue
    ensures forall task | task in s.active :: task in Drained(s, capacity).active
  {
    StartedComesFromQueue(Elements(s.active), s.queue, Room(s.active, capacity));
    WaitingComesFromQueue(Elements(s.active), s.queue, Room(s.active, capacity));
  }

  lemma WithoutStems(tasks: seq<Lease>, id: string)
    requires HasId(tasks, id)
    ensures forall task | task in Without(tasks, id) :: task in tasks
    ensures forall task | task in tasks && task.id != id :: task in Without(tasks, id)
  {
    var cut := WithoutKeepsOrder(tasks, id);
    hide Without, HasId;
    forall task | task in tasks && task.id != id ensures task in Without(tasks, id) {
      var k :| 0 <= k < |tasks| && tasks[k] == task;
      assert Without(tasks, id)[if k < cut then k else k - 1] == task;
    }
  }

  lemma ApplyStems(s: Slots, capacity: nat, action: Action)
    ensures Stems(s, Apply(s, capacity, action), action)
  {
    hide Drained;
    match action
    case Enqueue(task) => DrainedStems(Slots(s.active, s.queue + [task]), capacity);
    case Cancel(id) =>
      if HasId(s.queue, id) {
        WithoutStems(s.queue, id);
        DrainedStems(Slots(s.active, Without(s.queue, id)), capacity);
      }
    case Release(id) =>
      if HasId(s.active, id) {
        WithoutStems(s.active, id);
        DrainedStems(Slots(Without(s.active, id), s.queue), capacity);
      }
    case StartFailure(id) =>
      if HasId(s.active, id) {
        WithoutStems(s.active, id);
        DrainedStems(Slots(Without(s.active, id), s.queue), capacity);
      }
  }

  /** The scheduler's move keeps the books, provided a freed slot belongs to no callback that is still
      to run, and the slots of living children, provided it belongs to none of them. */
  lemma ScheduledKeeps(s: Supervisor, capacity: nat, action: Action)
    requires Books(s, capacity)
    requires action.Enqueue? ==> var id := action.task.id;
               id in s.tickets && s.tickets[id].lease == action.task && id !in s.runtimes
    requires forall id | Frees(action, id) :: id !in s.due
    ensures Books(s.Scheduled(Apply(s.slots, capacity, action)), capacity)
    ensures LiveHoldsSlot(s) && (forall id | Frees(action, id) :: !s.Live(id)) ==>
              LiveHoldsSlot(s.Scheduled(Apply(s.slots, capacity, action)))
  {
    hide Apply, Inv;
    ApplyKeepsInv(s.slots, capacity, action);
    ApplyStems(s.slots, capacity, action);
    var next := Apply(s.slots, capacity, action);
    var s' := s.Scheduled(next);
    forall turn | turn in s'.due ensures turn in Ids(next.active) && turn !in s'.runtimes {
      if turn in s.due {
        var task :| task in s.slots.active && task.id == turn;
        assert task in next.active;
      } else {
        var task :| task in next.active && task.id == turn;
        assert task !in s.slots.active;
      }
    }
    forall turn | LiveHoldsSlot(s) && (forall id | Frees(action, id) :: !s.Live(id)) && s'.Live(turn)
      ensures s'.runtimes[turn].lease in next.active
    {
      assert s.Live(turn) && s.runtimes[turn].lease.id == turn;
    }
  }

  /** Every step keeps the books, and every step other than a late rejection keeps every living child
      on its slot. */
  lemma NextKeepsSlots(s: Supervisor, capacity: nat, step: Step)
    requires Enabled(s, step) && Books(s, capacity)
    ensures Books(Next(s, capacity, step), capacity)
    ensures LiveHoldsSlot(s) && !step.LateRejection? ==> LiveHoldsSlot(Next(s, capacity, step))
  {
    hide Apply, Inv, Books, LiveHoldsSlot;
    match step
    case StartRequested(thread, turn) => RequestedKeeps(s, capacity, thread, turn);
    case StartResolved(turn, lease) => ResolvedKeeps(s, capacity, turn, lease);
    case Launch(turn, ready) => LaunchedKeeps(s, capacity, turn, ready);
    case Stop(thread) => StoppedKeeps(s, capacity, thread);
    case Finish(turn) => FinishedKeeps(s, capacity, turn);
    case ChildExit(turn) => ExitedKeeps(s, capacity, turn);
    case LateRejection(turn) => RejectedKeepsBooks(s, capacity, turn);
  }

  lemma RejectedKeepsBooks(s: Supervisor, capacity: nat, turn: string)
    requires Books(s, capacity) && turn in s.runtimes
    ensures Books(RejectedLate(s, capacity, turn), capacity)
  {
    assert turn !in s.due;
    hide Inv, Apply, Books;
    if HasId(s.slots.active, turn) {
      ScheduledKeeps(s, capacity, StartFailure(turn));
      FinishedKeeps(s.Scheduled(Apply(s.slots, capacity, StartFailure(turn))), capacity, turn);
    }
  }

  lemma RequestedKeeps(s: Supervisor, capacity: nat, thread: string, turn: string)
    requires Books(s, capacity) && turn !in s.resolving && turn !in s.tickets
    ensures var s' := Next(s, capacity, StartRequested(thread, turn)); Books(s', capacity) && (LiveHoldsSlot(s) ==> LiveHoldsSlot(s'))
  {
    hide Inv;
  }

  lemma TicketKeeps(s: Supervisor, capacity: nat, turn: string, ticket: Ticket, pending: map<string, string>)
    requires Books(s, capacity) && turn in s.resolving && ticket.lease.id == turn
    ensures turn !in s.tickets
    ensures var s' := s.(resolving := s.resolving - {turn}, tickets := s.tickets[turn := ticket], pending := pending);
            Books(s', capacity) && (LiveHoldsSlot(s) ==> LiveHoldsSlot(s'))
  {
    hide Inv;
  }

  lemma ResolvedKeeps(s: Supervisor, capacity: nat, turn: string, lease: Lease)
    requires Books(s, capacity) && turn in s.resolving && lease.id == turn
    ensures Books(Resolved(s, capacity, turn, lease), capacity)
    ensures LiveHoldsSlot(s) ==> LiveHoldsSlot(Resolved(s, capacity, turn, lease))
  {
    var thread := s.resolving[turn];
    var waiting := s.(resolving := s.resolving - {turn},
                      tickets := s.tickets[turn := Ticket(thread, lease)],
                      pending := s.pending[thread := turn]);
    assert turn !in s.runtimes;
    hide Inv, Apply, Books, LiveHoldsSlot;
    TicketKeeps(s, capacity, turn, Ticket(thread, lease), waiting.pending);
    TicketKeeps(s, capacity, turn, Ticket(thread, lease), waiting.pending - {thread});
    ScheduledKeeps(waiting, capacity, Enqueue(lease));
  }

  lemma StoppedKeeps(s: Supervisor, capacity: nat, thread: string)
    requires Books(s, capacity)
    ensures Books(Stopped(s, capacity, thread), capacity)
    ensures LiveHoldsSlot(s) ==> LiveHoldsSlot(Stopped(s, capacity, thread))
  {
    hide Inv, Apply;
    if thread in s.pending {
      ScheduledKeeps(s.(pending := s.pending - {thread}), capacity, Cancel(s.pending[thread]));
    }
  }

  lemma FinishedKeeps(s: Supervisor, capacity: nat, turn: string)
    requires Books(s, capacity) && turn in s.runtimes
    ensures Books(Finished(s, capacity, turn), capacity)
    ensures LiveHoldsSlot(s) ==> LiveHoldsSlot(Finished(s, capacity, turn))
  {
    hide Inv, Apply;
    if s.Current(turn) {
      var r := s.runtimes[turn];
      var closed := s.(runtimes := s.runtimes[turn := r.(closing := true)], active := s.active - {r.thread});
      assert forall other | closed.Live(other) :: s.Live(other) && closed.runtimes[other].lease == s.runtimes[other].lease;
      if r.exited { ScheduledKeeps(closed, capacity, Release(turn)); }
    }
  }

  lemma ExitedKeeps(s: Supervisor, capacity: nat, turn: string)
    requires Books(s, capacity) && turn in s.runtimes
    ensures Books(Exited(s, capacity, turn), capacity)
    ensures LiveHoldsSlot(s) ==> LiveHoldsSlot(Exited(s, capacity, turn))
  {
    hide Inv, Apply;
    var r := s.runtimes[turn];
    var gone := s.(runtimes := s.runtimes[turn := r.(exited := true)]);
    assert forall other | gone.Live(other) :: s.Live(other) && gone.runtimes[other].lease == s.runtimes[other].lease;
    assert Books(gone, capacity) && (LiveHoldsSlot(s) ==> LiveHoldsSlot(gone));
    if r.closing { ScheduledKeeps(gone, capacity, Release(turn)); } else { FinishedKeeps(gone, capacity, turn); }
  }

  lemma FailedEarlyKeeps(s: Supervisor, capacity: nat, turn: string)
    requires Books(s, capacity) && turn in s.tickets && turn !in s.runtimes && turn !in s.due
    ensures Books(FailedEarly(s, capacity, turn), capacity)
    ensures LiveHoldsSlot(s) ==> LiveHoldsSlot(FailedEarly(s, capacity, turn))
  {
    hide Inv, Apply;
    var thread := s.tickets[turn].thread;
    var cleared := if thread in s.pending && s.pending[thread] == turn then s.(pending := s.pending - {thread}) else s;
    ScheduledKeeps(cleared, capacity, StartFailure(turn));
  }

  lemma TakenKeeps(s: Supervisor, capacity: nat, turn: string)
    requires Books(s, capacity) && turn in s.due && turn in s.tickets
    ensures Books(s.(due := s.due - {turn}), capacity)
    ensures LiveHoldsSlot(s) ==> LiveHoldsSlot(s.(due := s.due - {turn}))
    ensures turn !in s.runtimes && s.tickets[turn].lease in s.slots.active && s.tickets[turn].lease.id == turn
  {
    hide Inv;
    var task :| task in s.slots.active && task.id == turn;
  }

  lemma ForkedKeeps(s: Supervisor, capacity: nat, turn: string, active: map<string, string>, pending: map<string, string>)
    requires Books(s, capacity) && turn !in s.due && turn in s.tickets && turn !in s.runtimes
    requires s.tickets[turn].lease in s.slots.active
    ensures var Ticket(thread, lease) := s.tickets[turn];
            var s' := s.(pending := pending, runtimes := s.runtimes[turn := Runtime(thread, lease, false, false)], active := active);
            Books(s', capacity) && (LiveHoldsSlot(s) ==> LiveHoldsSlot(s'))
  {
    QueuedNotActive(s.slots, capacity, s.tickets[turn].lease);
    hide Inv;
  }

  lemma LaunchedKeeps(s: Supervisor, capacity: nat, turn: string, ready: bool)
    requires Books(s, capacity) && turn in s.due && turn in s.tickets
    ensures Books(Launched(s, capacity, turn, ready), capacity)
    ensures LiveHoldsSlot(s) ==> LiveHoldsSlot(Launched(s, capacity, turn, ready))
  {
    hide Books, LiveHoldsSlot, Apply;
    TakenKeeps(s, capacity, turn);
    var taken := s.(due := s.due - {turn});
    var thread := s.tickets[turn].thread;
    if !ready || thread !in s.pending || s.pending[thread] != turn {
      FailedEarlyKeeps(taken, capacity, turn);
    } else {
      ForkedKeeps(taken, capacity, turn, s.active[thread := turn], s.pending - {thread});
    }
  }

  lemma QueuedNotActive(s: Slots, capacity: nat, task: Lease)
    requires Inv(s, capacity) && task in s.active
    ensures forall other | other in s.queue :: other.id != task.id
  {
    CountHas(s.active, task.id);
    CountHas(s.queue, task.id);
    assert Count(s.active, task.id) + Count(s.queue, task.id) <= 1;
    var k :| 0 <= k < |s.active| && s.active[k] == task;
    assert s.active[k].id == task.id;
  }

  // ---------------------------------------------------------------- no slot is held for nothing

  // A taken slot belongs to a callback that is still to run or to a living child.
  ghost predicate NoLeak(s: Supervisor) {
    forall task | task in s.slots.active :: task.id in s.due || s.Live(task.id)
  }

  // A runtime is its thread's current one as long as nobody has closed it.
  ghost predicate Attached(s: Supervisor) {
    && (forall thread | thread in s.active ::
          var turn := s.active[thread];
          s.Live(turn) && !s.runtimes[turn].closing && s.runtimes[turn].thread == thread)
    && (forall turn | s.Live(turn) && !s.runtimes[turn].closing :: s.Current(turn))
  }

  ghost predicate Tidy(s: Supervisor, capacity: nat) {
    && Attached(s)
    && (capacity > 1 ==> s.pending.Keys !! s.active.Keys)
    && NoLeak(s)
  }

  // Two starts of one thread may overlap while their leases are resolved. This says that they do
  // not, or that there is only one slot.
  predicate Orderly(s: Supervisor, capacity: nat, step: Step)
    requires Enabled(s, step)
  {
    capacity == 1 || (step.StartResolved? ==> !s.HasThread(s.resolving[step.turn]))
  }

  lemma FreedIsGone(s: Slots, capacity: nat, action: Action, id: string)
    requires Inv(s, capacity) && Frees(action, id)
    ensures id !in Ids(Apply(s, capacity, action).active)
  {
    hide Drained;
    CountHas(s.active, id);
    CountHas(s.queue, id);
    assert Count(s.active, id) + Count(s.queue, id) <= 1;
    if HasId(s.active, id) {
      var rest := Without(s.active, id);
      WithoutCount(s.active, id, id);
      CountHas(rest, id);
      DrainedStems(Slots(rest, s.queue), capacity);
      forall task | task in rest || task in s.queue ensures task.id != id {
        if task in rest { var k :| 0 <= k < |rest| && rest[k] == task; }
        if task in s.queue { var k :| 0 <= k < |s.queue| && s.queue[k] == task; }
      }
    } else {
      forall task | task in s.active ensures task.id != id {
        var k :| 0 <= k < |s.active| && s.active[k] == task;
      }
    }
  }

  lemma ScheduledNoLeak(s: Supervisor, capacity: nat, action: Action)
    requires Inv(s.slots, capacity)
    requires forall task | task in s.slots.active :: Frees(action, task.id) || task.id in s.due || s.Live(task.id)
    ensures NoLeak(s.Scheduled(Apply(s.slots, capacity, action)))
  {
    hide Apply, Inv;
    var next := Apply(s.slots, capacity, action);
    var s' := s.Scheduled(next);
    forall task | task in next.active ensures task.id in s'.due || s'.Live(task.id) {
      if Frees(action, task.id) { FreedIsGone(s.slots, capacity, action, task.id); }
      if task.id in Ids(s.slots.active) {
        var earlier :| earlier in s.slots.active && earlier.id == task.id;
      }
    }
  }

  lemma FinishedTidy(s: Supervisor, capacity: nat, turn: string)
    requires Books(s, capacity) && turn in s.runtimes
    requires Tidy(s, capacity)
    ensures Tidy(Finished(s, capacity, turn), capacity)
  {
    hide Inv, Apply;
    if s.Current(turn) {
      assert !s.runtimes[turn].exited;
    }
  }

  // A runtime taken off its thread leaves the others attached.
  lemma DetachedAttached(s: Supervisor, turn: string, r: Runtime)
    requires Attached(s) && turn in s.runtimes && (s.Current(turn) || s.runtimes[turn].closing)
    requires r.closing && r.thread == s.runtimes[turn].thread
    ensures var s' := s.(runtimes := s.runtimes[turn := r], active := if s.Current(turn) then s.active - {r.thread} else s.active);
            Attached(s')
  {
    var s' := s.(runtimes := s.runtimes[turn := r], active := if s.Current(turn) then s.active - {r.thread} else s.active);
    forall id | s'.Live(id) && !s'.runtimes[id].closing ensures s'.Current(id) {
      assert s.Live(id) && s.Current(id);
    }
  }

  // The supervisor after an exit, before the slot is released.
  function ClosedByExit(s: Supervisor, turn: string): Supervisor
    requires turn in s.runtimes
  {
    var r := s.runtimes[turn];
    s.(runtimes := s.runtimes[turn := r.(closing := true, exited := true)],
       active := if s.Current(turn) then s.active - {r.thread} else s.active)
  }

  lemma ExitCloses(s: Supervisor, capacity: nat, turn: string)
    requires Attached(s) && s.Live(turn)
    ensures Exited(s, capacity, turn) == ClosedByExit(s, turn).Scheduled(Apply(s.slots, capacity, Release(turn)))
  {
    hide Apply;
    var r := s.runtimes[turn];
    var gone := s.(runtimes := s.runtimes[turn := r.(exited := true)]);
    if r.closing {
      assert !s.Current(turn) && ClosedByExit(s, turn) == gone;
    } else {
      assert gone.Current(turn) && gone.runtimes[turn := r.(closing := true, exited := true)] == ClosedByExit(s, turn).runtimes;
    }
  }

  lemma ExitedTidy(s: Supervisor, capacity: nat, turn: string)
    requires Books(s, capacity) && Tidy(s, capacity) && s.Live(turn)
    ensures Tidy(Exited(s, capacity, turn), capacity)
  {
    hide Inv, Apply, Exited;
    var closed := ClosedByExit(s, turn);
    ExitCloses(s, capacity, turn);
    DetachedAttached(s, turn, s.runtimes[turn].(closing := true, exited := true));
    hide Attached, Books;
    assert forall id | s.Live(id) && id != turn :: closed.Live(id);
    ScheduledNoLeak(closed, capacity, Release(turn));
    SameAttached(closed, closed.Scheduled(Apply(s.slots, capacity, Release(turn))));
  }

  lemma SameAttached(s: Supervisor, s': Supervisor)
    requires Attached(s) && s'.active == s.active && s'.runtimes == s.runtimes
    ensures Attached(s')
  {
    assert forall id :: s'.Live(id) == s.Live(id) && s'.Current(id) == s.Current(id);
  }

  lemma FailedEarlyTidy(s: Supervisor, capacity: nat, turn: string)
    requires Inv(s.slots, capacity) && turn in s.tickets && HasId(s.slots.active, turn)
    requires Tidy(s.(due := s.due + {turn}), capacity)
    ensures Tidy(FailedEarly(s, capacity, turn), capacity)
  {
    hide Inv, Apply;
    var thread := s.tickets[turn].thread;
    var cleared := if thread in s.pending && s.pending[thread] == turn then s.(pending := s.pending - {thread}) else s;
    var before := s.(due := s.due + {turn});
    assert forall id :: cleared.Live(id) == before.Live(id) == s.Live(id);
    forall task | task in s.slots.active ensures Frees(StartFailure(turn), task.id) || task.id in cleared.due || cleared.Live(task.id) {
      assert task.id in before.due || before.Live(task.id);
    }
    ScheduledNoLeak(cleared, capacity, StartFailure(turn));
    assert forall id | s.Live(id) :: before.Current(id) == s.Current(id);
  }

  // With a single slot, a task about to be launched has no living neighbour.
  lemma OnlySlot(s: Supervisor, turn: string, other: string)
    requires Books(s, 1) && LiveHoldsSlot(s) && turn in s.due
    ensures !s.Live(other)
  {
    hide Inv;
    if s.Live(other) {
      var task :| task in s.slots.active && task.id == turn;
      var lease := s.runtimes[other].lease;
      assert lease in s.slots.active && lease.id == other != turn;
      var k :| 0 <= k < |s.slots.active| && s.slots.active[k] == task;
      var l :| 0 <= l < |s.slots.active| && s.slots.active[l] == lease;
      InvBounds(s.slots, 1);
    }
  }

  lemma InvBounds(s: Slots, capacity: nat)
    requires Inv(s, capacity)
    ensures |s.active| <= capacity
  {
  }

  lemma ForkedTidy(s: Supervisor, capacity: nat, turn: string, thread: string, lease: Lease)
    requires Tidy(s, capacity) && thread !in s.active && turn !in s.runtimes
    ensures Tidy(s.(due := s.due - {turn},
                    pending := s.pending - {thread},
                    runtimes := s.runtimes[turn := Runtime(thread, lease, false, false)],
                    active := s.active[thread := turn]), capacity)
  {
    var s' := s.(due := s.due - {turn},
                 pending := s.pending - {thread},
                 runtimes := s.runtimes[turn := Runtime(thread, lease, false, false)],
                 active := s.active[thread := turn]);
    assert forall id | id != turn :: s'.Live(id) == s.Live(id);
    forall id | s'.Live(id) && !s'.runtimes[id].closing ensures s'.Current(id) {
      if id != turn { assert s.Current(id); }
    }
  }

  lemma LaunchedTidy(s: Supervisor, capacity: nat, turn: string, ready: bool)
    requires Books(s, capacity) && LiveHoldsSlot(s) && Tidy(s, capacity) && capacity > 0 && turn in s.due && turn in s.tickets
    ensures Tidy(Launched(s, capacity, turn, ready), capacity)
  {
    hide Inv, Apply;
    var taken := s.(due := s.due - {turn});
    var Ticket(thread, lease) := s.tickets[turn];
    if !ready || thread !in s.pending || s.pending[thread] != turn {
      assert taken.(due := taken.due + {turn}) == s;
      var task :| task in s.slots.active && task.id == turn;
      var k :| 0 <= k < |s.slots.active| && s.slots.active[k] == task;
      FailedEarlyTidy(taken, capacity, turn);
    } else {
      assert turn !in s.runtimes;
      if thread in s.active && capacity == 1 { OnlySlot(s, turn, s.active[thread]); }
      ForkedTidy(s, capacity, turn, thread, lease);
    }
  }

  lemma ResolvedTidy(s: Supervisor, capacity: nat, turn: string, lease: Lease)
    requires Books(s, capacity) && Tidy(s, capacity) && turn in s.resolving && lease.id == turn
    requires capacity == 1 || !s.HasThread(s.resolving[turn])
    ensures Tidy(Resolved(s, capacity, turn, lease), capacity)
  {
    hide Inv, Apply;
    var thread := s.resolving[turn];
    var waiting := s.(resolving := s.resolving - {turn},
                      tickets := s.tickets[turn := Ticket(thread, lease)],
                      pending := s.pending[thread := turn]);
    ScheduledNoLeak(waiting, capacity, Enqueue(lease));
  }

  lemma StoppedTidy(s: Supervisor, capacity: nat, thread: string)
    requires Books(s, capacity) && Tidy(s, capacity)
    ensures Tidy(Stopped(s, capacity, thread), capacity)
  {
    hide Inv, Apply;
    if thread in s.pending {
      ScheduledNoLeak(s.(pending := s.pending - {thread}), capacity, Cancel(s.pending[thread]));
    }
  }

  lemma NextKeepsTidy(s: Supervisor, capacity: nat, step: Step)
    requires Enabled(s, step) && !step.LateRejection? && Orderly(s, capacity, step) && capacity > 0
    requires Books(s, capacity) && LiveHoldsSlot(s) && Tidy(s, capacity)
    ensures Tidy(Next(s, capacity, step), capacity)
  {
    hide Inv, Apply;
    match step
    case StartRequested(thread, turn) =>
    case StartResolved(turn, lease) => ResolvedTidy(s, capacity, turn, lease);
    case Launch(turn, ready) => LaunchedTidy(s, capacity, turn, ready);
    case Stop(thread) => StoppedTidy(s, capacity, thread);
    case Finish(turn) => FinishedTidy(s, capacity, turn);
    case ChildExit(turn) => ExitedTidy(s, capacity, turn);
  }

  // ---------------------------------------------------------------- runs

  ghost predicate IsRun(states: seq<Supervisor>, steps: seq<Step>, capacity: nat) {
    && |states| == |steps| + 1
    && states[0] == INITIAL
    && forall i | 0 <= i < |steps| :: Enabled(states[i], steps[i]) && states[i + 1] == Next(states[i], capacity, steps[i])
  }

  lemma {:induction false} RunKeepsBooks(states: seq<Supervisor>, steps: seq<Step>, capacity: nat, n: nat)
    requires IsRun(states, steps, capacity) && n < |states|
    ensures Books(states[n], capacity)
  {
    hide Next;
    if n > 0 {
      RunKeepsBooks(states, steps, capacity, n - 1);
      hide Books;
      NextKeepsSlots(states[n - 1], capacity, steps[n - 1]);
    }
  }

  function LiveTurns(s: Supervisor): set<string> {
    set turn | turn in s.runtimes && s.Live(turn)
  }

  ghost predicate ChildrenSafe(s: Supervisor, capacity: nat) {
    && |LiveTurns(s)| <= capacity
    && forall t, u | t in LiveTurns(s) && u in LiveTurns(s) && t != u ::
         var left, right := s.runtimes[t].lease, s.runtimes[u].lease;
         left.workspace == right.workspace || (left.gitCommonDirectory.Some? && left.gitCommonDirectory == right.gitCommonDirectory)
         ==> left.mode == Read && right.mode == Read
  }

  lemma {:induction false} IdsBound(tasks: seq<Lease>)
    ensures |Ids(tasks)| <= |tasks|
  {
    if tasks != [] {
      IdsBound(tasks[1..]);
      assert tasks == [tasks[0]] + tasks[1..];
      assert Ids(tasks) == {tasks[0].id} + Ids(tasks[1..]);
    }
  }

  lemma ConflictIsSymmetric(left: Lease, right: Lease)
    ensures LeasesConflict(left, right) <==> LeasesConflict(right, left)
  {
  }

  lemma SlotsMakeChildrenSafe(s: Supervisor, capacity: nat)
    requires Books(s, capacity) && LiveHoldsSlot(s)
    ensures ChildrenSafe(s, capacity)
  {
    assert LiveTurns(s) <= Ids(s.slots.active);
    IdsBound(s.slots.active);
    SubsetSize(LiveTurns(s), Ids(s.slots.active));
    forall t, u | t in LiveTurns(s) && u in LiveTurns(s) && t != u
      ensures !LeasesConflict(s.runtimes[t].lease, s.runtimes[u].lease)
    {
      var i :| 0 <= i < |s.slots.active| && s.slots.active[i] == s.runtimes[t].lease;
      var j :| 0 <= j < |s.slots.active| && s.slots.active[j] == s.runtimes[u].lease;
      ConflictIsSymmetric(s.slots.active[i], s.slots.active[j]);
    }
  }

  /** In every run without a late rejection, living children hold compatible leases, are no more
      than the slots, and keep their slots until they have exited. */
  lemma {:induction false} RunsAreSafe(states: seq<Supervisor>, steps: seq<Step>, capacity: nat, n: nat)
    requires IsRun(states, steps, capacity) && n < |states|
    requires forall i | 0 <= i < n :: !steps[i].LateRejection?
    ensures Books(states[n], capacity) && LiveHoldsSlot(states[n])
    ensures ChildrenSafe(states[n], capacity)
    ensures forall turn | turn in states[n].runtimes && states[n].runtimes[turn].lease !in states[n].slots.active ::
              states[n].runtimes[turn].exited
  {
    if n > 0 {
      RunsAreSafe(states, steps, capacity, n - 1);
      NextKeepsSlots(states[n - 1], capacity, steps[n - 1]);
    }
    SlotsMakeChildrenSafe(states[n], capacity);
  }

  lemma InitialTidy(capacity: nat)
    ensures Tidy(INITIAL, capacity)
  {
  }

  lemma TidySlots(s: Supervisor, capacity: nat)
    requires Books(s, capacity) && LiveHoldsSlot(s) && Tidy(s, capacity)
    ensures Ids(s.slots.active) == s.due + LiveTurns(s)
  {
    hide Inv, Attached;
  }

  /** If moreover starts of one thread do not overlap, or there is a single slot, the taken slots
      are exactly those of living children and of callbacks that are still to run. */
  lemma {:induction false} RunsDoNotLeak(states: seq<Supervisor>, steps: seq<Step>, capacity: nat, n: nat)
    requires IsRun(states, steps, capacity) && n < |states| && capacity > 0
    requires forall i | 0 <= i < n :: !steps[i].LateRejection? && Orderly(states[i], capacity, steps[i])
    ensures Tidy(states[n], capacity)
    ensures Ids(states[n].slots.active) == states[n].due + LiveTurns(states[n])
  {
    hide Next, Books, LiveHoldsSlot, Tidy, ChildrenSafe, LiveTurns, Ids, Orderly;
    RunsAreSafe(states, steps, capacity, n);
    if n > 0 {
      RunsAreSafe(states, steps, capacity, n - 1);
      RunsDoNotLeak(states, steps, capacity, n - 1);
      NextKeepsTidy(states[n - 1], capacity, steps[n - 1]);
    } else {
      InitialTidy(capacity);
    }
    TidySlots(states[n], capacity);
  }

  // ---------------------------------------------------------------- the excluded cases, exactly

  /** A rejection that arrives after the fork keeps living children on their slots exactly when
      the child it concerns has already exited. */
  lemma LateRejectionExact(s: Supervisor, capacity: nat, turn: string)
    requires Books(s, capacity) && LiveHoldsSlot(s) && turn in s.runtimes
    ensures LiveHoldsSlot(RejectedLate(s, capacity, turn)) <==> !s.Live(turn)
  {
    hide Inv, Apply;
    var lease := s.runtimes[turn].lease;
    if s.Live(turn) {
      var k :| 0 <= k < |s.slots.active| && s.slots.active[k] == lease;
      assert HasId(s.slots.active, turn);
      FreedIsGone(s.slots, capacity, StartFailure(turn), turn);
      var s' := RejectedLate(s, capacity, turn);
      assert s'.Live(turn) && s'.runtimes[turn].lease == lease;
    } else if HasId(s.slots.active, turn) {
      ScheduledKeeps(s, capacity, StartFailure(turn));
      FinishedKeeps(s.Scheduled(Apply(s.slots, capacity, StartFailure(turn))), capacity, turn);
    }
  }

  /** A fork leaves every open runtime attached to its thread exactly when the thread had no
      runtime before. */
  lemma ForkExact(s: Supervisor, capacity: nat, turn: string)
    requires Books(s, capacity) && Attached(s) && turn in s.due && turn in s.tickets
    requires var thread := s.tickets[turn].thread; thread in s.pending && s.pending[thread] == turn
    ensures Attached(Launched(s, capacity, turn, true)) <==> s.tickets[turn].thread !in s.active
  {
    hide Inv, Apply;
    var s' := Launched(s, capacity, turn, true);
    var thread := s.tickets[turn].thread;
    if thread in s.active {
      var other := s.active[thread];
      assert s.Live(other) && !s.runtimes[other].closing;
      assert s'.Live(other) && !s'.Current(other);
    } else {
      forall id | s'.Live(id) && !s'.runtimes[id].closing ensures s'.Current(id) {
        if id != turn { assert s.Live(id) && s.Current(id); }
      }
    }
  }
}
