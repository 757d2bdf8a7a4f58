/**
 What becomes of a start: when a launch forks a child, what a stop prevents, and why no thread stays
 blocked. These hold in every run, late rejections and overlapping starts included.
 */
module SupervisorStops {
  import opened SchedulerSpec
  import opened SupervisorSpec

  // ---------------------------------------------------------------- waiting starts

  // The start waits in the queue, or its callback has yet to run.
  predicate Waits(s: Supervisor, turn: string) {
    turn in s.due || HasId(s.slots.queue, turn)
  }

  // A thread is pending only for a start of its own that still waits and has no child.
  ghost predicate NoDeadPending(s: Supervisor) {
    forall thread | thread in s.pending ::
      var turn := s.pending[thread];
      turn in s.tickets && s.tickets[turn].thread == thread && turn !in s.runtimes && Waits(s, turn)
  }

  lemma QueuedTask(tasks: seq<Lease>, id: string) returns (task: Lease)
    requires HasId(tasks, id)
    ensures task in tasks && task.id == id
  {
    var k :| 0 <= k < |tasks| && tasks[k].id == id;
    task := tasks[k];
  }

  lemma HasTask(tasks: seq<Lease>, task: Lease)
    requires task in tasks
    ensures HasId(tasks, task.id)
  {
    var k :| 0 <= k < |tasks| && tasks[k] == task;
  }

  // A task the scheduler has keeps its place or gets a slot, unless it is cancelled or freed.
  lemma TaskStays(s: Slots, capacity: nat, action: Action, task: Lease)
    requires task in s.queue && !(action.Cancel? && action.id == task.id) && !Frees(action, task.id)
    ensures task in Apply(s, capacity, action).active || task in Apply(s, capacity, action).queue
  {
    ApplyExact(s, capacity, action);
    hide Apply;
    var s' := Apply(s, capacity, action);
    assert task in Tasks(s);
    assert task in Tasks(s') || s' == s;
  }

  lemma ScheduledKeepsWaiting(s: Supervisor, capacity: nat, action: Action, turn: string)
    requires Inv(s.slots, capacity) && Waits(s, turn) && !(action.Cancel? && action.id == turn) && !Frees(action, turn)
    ensures Waits(s.Scheduled(Apply(s.slots, capacity, action)), turn)
  {
    if turn !in s.due {
      var task := QueuedTask(s.slots.queue, turn);
      TaskStays(s.slots, capacity, action, task);
      var next := Apply(s.slots, capacity, action);
      hide Apply, HasId, Inv;
      if task in next.queue {
        HasTask(next.queue, task);
      } else {
        assert turn !in Ids(s.slots.active) by {
          if turn in Ids(s.slots.active) {
            var running :| running in s.slots.active && running.id == turn;
            QueuedNotActive(s.slots, capacity, running);
          }
        }
      }
    }
  }

  lemma ScheduledKeepsPending(s: Supervisor, capacity: nat, action: Action)
    requires Inv(s.slots, capacity) && NoDeadPending(s)
    requires forall thread | thread in s.pending ::
               !(action.Cancel? && action.id == s.pending[thread]) && !Frees(action, s.pending[thread])
    ensures NoDeadPending(s.Scheduled(Apply(s.slots, capacity, action)))
  {
    hide Apply, Waits, Inv;
    forall thread | thread in s.pending ensures Waits(s.Scheduled(Apply(s.slots, capacity, action)), s.pending[thread]) {
      ScheduledKeepsWaiting(s, capacity, action, s.pending[thread]);
    }
  }

  lemma WaitsAlike(s: Supervisor, s': Supervisor)
    requires s'.due == s.due && s'.slots == s.slots
    ensures forall turn :: Waits(s', turn) == Waits(s, turn)
  {
  }

  lemma FinishedKeepsPending(s: Supervisor, capacity: nat, turn: string)
    requires Inv(s.slots, capacity) && NoDeadPending(s) && turn in s.runtimes
    ensures NoDeadPending(Finished(s, capacity, turn))
  {
    hide Apply, Waits, Inv;
    if s.Current(turn) {
      var r := s.runtimes[turn];
      var closed := s.(runtimes := s.runtimes[turn := r.(closing := true)], active := s.active - {r.thread});
      WaitsAlike(s, closed);
      if r.exited { ScheduledKeepsPending(closed, capacity, Release(turn)); }
    }
  }

  lemma ExitedKeepsPending(s: Supervisor, capacity: nat, turn: string)
    requires Inv(s.slots, capacity) && NoDeadPending(s) && turn in s.runtimes
    ensures NoDeadPending(Exited(s, capacity, turn))
  {
    hide Apply, Waits, Inv;
    var r := s.runtimes[turn];
    var gone := s.(runtimes := s.runtimes[turn := r.(exited := true)]);
    WaitsAlike(s, gone);
    if r.closing { ScheduledKeepsPending(gone, capacity, Release(turn)); } else { FinishedKeepsPending(gone, capacity, turn); }
  }

  lemma RejectedKeepsPending(s: Supervisor, capacity: nat, turn: string)
    requires Inv(s.slots, capacity) && NoDeadPending(s) && turn in s.runtimes
    ensures NoDeadPending(RejectedLate(s, capacity, turn))
  {
    hide Apply, Waits, Inv;
    if HasId(s.slots.active, turn) {
      ApplyKeepsInv(s.slots, capacity, StartFailure(turn));
      ScheduledKeepsPending(s, capacity, StartFailure(turn));
      FinishedKeepsPending(s.Scheduled(Apply(s.slots, capacity, StartFailure(turn))), capacity, turn);
    }
  }

  lemma StoppedKeepsPending(s: Supervisor, capacity: nat, thread: string)
    requires Inv(s.slots, capacity) && NoDeadPending(s)
    ensures NoDeadPending(Stopped(s, capacity, thread))
  {
    hide Apply, Waits, Inv;
    if thread in s.pending {
      var rest := s.(pending := s.pending - {thread});
      WaitsAlike(s, rest);
      ScheduledKeepsPending(rest, capacity, Cancel(s.pending[thread]));
    }
  }

  // The scheduler accepts an enqueued task exactly when it then has it.
  lemma Accepted(s: Slots, capacity: nat, task: Lease)
    ensures var answer := EnqueueAnswer(s, capacity, task);
            !answer.AlreadyScheduled? && !answer.QueueFull? ==>
              var s' := Apply(s, capacity, Enqueue(task)); task in s'.active || task in s'.queue
  {
    ApplyExact(s, capacity, Enqueue(task));
    HasIdIn(s.active, task.id);
    HasIdIn(s.queue, task.id);
    hide Apply, HasId;
    var s' := Apply(s, capacity, Enqueue(task));
    assert task in Tasks(s') ==> task in s'.active || task in s'.queue;
  }

  // The supervisor once the lease is known, with nobody pending for the thread yet.
  function Ticketed(s: Supervisor, turn: string, lease: Lease): Supervisor
    requires turn in s.resolving
  {
    var thread := s.resolving[turn];
    s.(resolving := s.resolving - {turn}, tickets := s.tickets[turn := Ticket(thread, lease)], pending := s.pending - {thread})
  }

  lemma TicketedPending(s: Supervisor, capacity: nat, turn: string, lease: Lease)
    requires Books(s, capacity) && NoDeadPending(s) && turn in s.resolving && lease.id == turn
    ensures NoDeadPending(Ticketed(s, turn, lease)) && turn !in s.runtimes
  {
    assert turn !in s.tickets;
    hide Inv, Waits;
    WaitsAlike(s, Ticketed(s, turn, lease));
  }

  lemma ResolvedIs(s: Supervisor, capacity: nat, turn: string, lease: Lease)
    requires turn in s.resolving
    ensures var answer, ticketed := EnqueueAnswer(s.slots, capacity, lease), Ticketed(s, turn, lease);
            Resolved(s, capacity, turn, lease)
            == if answer.AlreadyScheduled? || answer.QueueFull? then ticketed
               else var after := ticketed.Scheduled(Apply(s.slots, capacity, Enqueue(lease)));
                    after.(pending := after.pending[s.resolving[turn] := turn])
  {
    hide Apply, EnqueueAnswer;
    var thread := s.resolving[turn];
    assert s.pending[thread := turn] - {thread} == s.pending - {thread};
    assert (s.pending - {thread})[thread := turn] == s.pending[thread := turn];
  }

  // A start that waits can be what its thread is pending for.
  lemma PendingMore(s: Supervisor, thread: string, turn: string)
    requires NoDeadPending(s) && turn in s.tickets && s.tickets[turn].thread == thread && turn !in s.runtimes && Waits(s, turn)
    ensures NoDeadPending(s.(pending := s.pending[thread := turn]))
  {
    hide Waits;
    WaitsAlike(s, s.(pending := s.pending[thread := turn]));
  }

  lemma ResolvedKeepsPending(s: Supervisor, capacity: nat, turn: string, lease: Lease)
    requires Books(s, capacity) && NoDeadPending(s) && turn in s.resolving && lease.id == turn
    ensures NoDeadPending(Resolved(s, capacity, turn, lease))
  {
    var thread, ticketed := s.resolving[turn], Ticketed(s, turn, lease);
    TicketedPending(s, capacity, turn, lease);
    Accepted(s.slots, capacity, lease);
    assert Inv(s.slots, capacity);
    NotYetActive(s, capacity, turn);
    ResolvedIs(s, capacity, turn, lease);
    hide Apply, Waits, Inv, EnqueueAnswer, Resolved, NoDeadPending, Books;
    var next := Apply(s.slots, capacity, Enqueue(lease));
    assert forall other | other in ticketed.pending :: !Frees(Enqueue(lease), ticketed.pending[other]);
    ScheduledKeepsPending(ticketed, capacity, Enqueue(lease));
    var answer := EnqueueAnswer(s.slots, capacity, lease);
    if !answer.AlreadyScheduled? && !answer.QueueFull? {
      NewlyWaits(ticketed, next, lease);
      PendingMore(ticketed.Scheduled(next), thread, turn);
    }
  }

  lemma NotYetActive(s: Supervisor, capacity: nat, turn: string)
    requires Books(s, capacity) && turn in s.resolving
    ensures turn !in Ids(s.slots.active) && !HasId(s.slots.queue, turn)
  {
    hide Inv;
    if HasId(s.slots.queue, turn) { var task := QueuedTask(s.slots.queue, turn); }
  }

  lemma NewlyWaits(s: Supervisor, next: Slots, lease: Lease)
    requires lease.id !in Ids(s.slots.active) && (lease in next.active || lease in next.queue)
    ensures Waits(s.Scheduled(next), lease.id)
  {
    if lease in next.queue { HasTask(next.queue, lease); }
  }

  // The supervisor once the callback of a start has begun, and the start is no longer pending.
  function Begun(s: Supervisor, turn: string): Supervisor
    requires turn in s.tickets
  {
    var thread := s.tickets[turn].thread;
    s.(due := s.due - {turn}, pending := s.pending - if thread in s.pending && s.pending[thread] == turn then {thread} else {})
  }

  lemma BegunPending(s: Supervisor, turn: string)
    requires NoDeadPending(s) && turn in s.tickets
    ensures NoDeadPending(Begun(s, turn)) && forall thread | thread in Begun(s, turn).pending :: Begun(s, turn).pending[thread] != turn
  {
    hide HasId;
    var begun := Begun(s, turn);
    forall thread | thread in begun.pending ensures begun.pending[thread] != turn && Waits(begun, begun.pending[thread]) {
    }
  }

  lemma LaunchedIs(s: Supervisor, capacity: nat, turn: string, ready: bool)
    requires turn in s.tickets
    ensures var Ticket(thread, lease) := s.tickets[turn];
            var begun := Begun(s, turn);
            Launched(s, capacity, turn, ready)
            == if !ready || thread !in s.pending || s.pending[thread] != turn then
                 if HasId(s.slots.active, turn) then begun.Scheduled(Apply(s.slots, capacity, StartFailure(turn))) else s.(due := s.due - {turn})
               else begun.(runtimes := s.runtimes[turn := Runtime(thread, lease, false, false)], active := s.active[thread := turn])
  {
    hide Apply, HasId;
    var thread := s.tickets[turn].thread;
    assert Begun(s, turn).pending == if thread in s.pending && s.pending[thread] == turn then s.pending - {thread} else s.pending;
  }

  lemma LaunchedKeepsPending(s: Supervisor, capacity: nat, turn: string, ready: bool)
    requires Books(s, capacity) && NoDeadPending(s) && turn in s.due && turn in s.tickets
    ensures NoDeadPending(Launched(s, capacity, turn, ready))
  {
    assert Inv(s.slots, capacity);
    assert HasId(s.slots.active, turn) by {
      var task :| task in s.slots.active && task.id == turn;
      HasTask(s.slots.active, task);
    }
    var begun := Begun(s, turn);
    BegunPending(s, turn);
    LaunchedIs(s, capacity, turn, ready);
    hide Apply, Inv, HasId, Books, Waits, Launched;
    var thread := s.tickets[turn].thread;
    if !ready || thread !in s.pending || s.pending[thread] != turn {
      ScheduledKeepsPending(begun, capacity, StartFailure(turn));
    } else {
      WaitsAlike(begun, Launched(s, capacity, turn, ready));
    }
  }

  lemma NextKeepsPending(s: Supervisor, capacity: nat, step: Step)
    requires Enabled(s, step) && Books(s, capacity) && NoDeadPending(s)
    ensures NoDeadPending(Next(s, capacity, step))
  {
    assert Inv(s.slots, capacity);
    hide Apply, Inv, Books, Waits;
    match step
    case StartRequested(thread, turn) => WaitsAlike(s, Next(s, capacity, step));
    case StartResolved(turn, lease) => ResolvedKeepsPending(s, capacity, turn, lease);
    case Launch(turn, ready) => LaunchedKeepsPending(s, capacity, turn, ready);
    case Stop(thread) => StoppedKeepsPending(s, capacity, thread);
    case Finish(turn) => FinishedKeepsPending(s, capacity, turn);
    case ChildExit(turn) => ExitedKeepsPending(s, capacity, turn);
    case LateRejection(turn) => RejectedKeepsPending(s, capacity, turn);
  }

  /** In every state of every run a pending thread has a start that waits in the queue or whose
      callback has yet to run: no thread is blocked for nothing. */
  lemma {:induction false} RunsKeepPending(states: seq<Supervisor>, steps: seq<Step>, capacity: nat, n: nat)
    requires SupervisorSpec.IsRun(states, steps, capacity) && n < |states|
    ensures Books(states[n], capacity) && NoDeadPending(states[n])
  {
    RunKeepsBooks(states, steps, capacity, n);
    hide Next, Books, NoDeadPending;
    if n > 0 {
      RunsKeepPending(states, steps, capacity, n - 1);
      NextKeepsPending(states[n - 1], capacity, steps[n - 1]);
    } else {
      NothingPending();
    }
  }

  lemma NothingPending()
    ensures NoDeadPending(INITIAL)
  {
  }

  // ---------------------------------------------------------------- what a stop prevents

  // The start has no child, and no thread is pending for it.
  ghost predicate Dead(s: Supervisor, turn: string) {
    turn in s.tickets && turn !in s.runtimes && forall thread | thread in s.pending :: s.pending[thread] != turn
  }

  // Nothing here gives anybody a child or makes a thread pending.
  lemma DeadAlike(s: Supervisor, s': Supervisor, turn: string)
    requires Dead(s, turn) && s'.tickets.Keys >= s.tickets.Keys && s'.runtimes.Keys == s.runtimes.Keys
    requires forall thread | thread in s'.pending :: thread in s.pending && s'.pending[thread] == s.pending[thread]
    ensures Dead(s', turn)
  {
  }

  lemma ResolvedKeepsDead(s: Supervisor, capacity: nat, other: string, lease: Lease, turn: string)
    requires Books(s, capacity) && Dead(s, turn) && other in s.resolving
    ensures Dead(Resolved(s, capacity, other, lease), turn)
  {
    assert other != turn;
    ResolvedIs(s, capacity, other, lease);
    hide Resolved, Apply, EnqueueAnswer, Books;
  }

  lemma FinishedKeepsRecords(s: Supervisor, capacity: nat, turn: string)
    requires turn in s.runtimes
    ensures var s' := Finished(s, capacity, turn);
            s'.tickets == s.tickets && s'.runtimes.Keys == s.runtimes.Keys && s'.pending == s.pending && s'.resolving == s.resolving
  {
    hide Apply;
  }

  lemma NextKeepsDead(s: Supervisor, capacity: nat, step: Step, turn: string)
    requires Enabled(s, step) && Books(s, capacity) && Dead(s, turn)
    ensures Dead(Next(s, capacity, step), turn)
  {
    hide Apply, Books;
    match step
    case StartRequested(_, _) =>
    case StartResolved(other, lease) => ResolvedKeepsDead(s, capacity, other, lease, turn);
    case Launch(other, ready) => LaunchedKeepsDead(s, capacity, other, ready, turn);
    case Stop(thread) => DeadAlike(s, Stopped(s, capacity, thread), turn);
    case Finish(other) =>
      FinishedKeepsRecords(s, capacity, other);
      hide Finished;
    case ChildExit(other) =>
      FinishedKeepsRecords(s.(runtimes := s.runtimes[other := s.runtimes[other].(exited := true)]), capacity, other);
      hide Finished;
    case LateRejection(other) =>
      FinishedKeepsRecords(s.Scheduled(Apply(s.slots, capacity, StartFailure(other))), capacity, other);
      hide Finished;
  }

  lemma LaunchedKeepsDead(s: Supervisor, capacity: nat, other: string, ready: bool, turn: string)
    requires Dead(s, turn) && other in s.tickets
    ensures Dead(Launched(s, capacity, other, ready), turn)
  {
    LaunchedIs(s, capacity, other, ready);
    hide Apply, HasId, Launched;
  }

  lemma {:induction false} StaysDead(states: seq<Supervisor>, steps: seq<Step>, capacity: nat, turn: string, i: nat, n: nat)
    requires SupervisorSpec.IsRun(states, steps, capacity) && i <= n < |states| && Dead(states[i], turn)
    ensures Dead(states[n], turn)
  {
    hide Next, Books, Dead;
    if n > i {
      StaysDead(states, steps, capacity, turn, i, n - 1);
      RunKeepsBooks(states, steps, capacity, n - 1);
      NextKeepsDead(states[n - 1], capacity, steps[n - 1], turn);
    }
  }

  lemma StopKills(s: Supervisor, capacity: nat, thread: string)
    requires NoDeadPending(s) && thread in s.pending
    ensures Dead(Stopped(s, capacity, thread), s.pending[thread]) && thread !in Stopped(s, capacity, thread).pending
  {
    hide Apply, Waits;
  }

  /** A start that is stopped while its thread is pending never gets a child, whatever happens
      later; the thread is no longer pending, and unless it has a runtime it can be started again at
      once. */
  lemma StoppedNeverForks(states: seq<Supervisor>, steps: seq<Step>, capacity: nat, thread: string, i: nat, n: nat)
    requires SupervisorSpec.IsRun(states, steps, capacity) && i < n < |states|
    requires steps[i] == Stop(thread) && thread in states[i].pending
    ensures states[i].pending[thread] !in states[n].runtimes
    ensures thread !in states[i + 1].pending
    ensures thread !in states[i].active ==>
              forall turn | Enabled(states[i + 1], StartRequested(thread, turn)) ::
                turn in Next(states[i + 1], capacity, StartRequested(thread, turn)).resolving
  {
    var turn := states[i].pending[thread];
    RunsKeepPending(states, steps, capacity, i);
    StopKills(states[i], capacity, thread);
    assert states[i + 1] == Next(states[i], capacity, steps[i]);
    StaysDead(states, steps, capacity, turn, i + 1, n);
  }

  // ---------------------------------------------------------------- when a launch forks

  // The start is over: its callback has run or will never run.
  ghost predicate Spent(s: Supervisor, turn: string) {
    turn in s.tickets && !Waits(s, turn)
  }

  // The step withdraws or replaces the start its thread is pending for.
  predicate Withdraws(s: Supervisor, step: Step, thread: string)
    requires Enabled(s, step)
  {
    step == Stop(thread) || (step.StartResolved? && s.resolving[step.turn] == thread)
  }

  lemma ScheduledKeepsSpent(s: Supervisor, capacity: nat, action: Action, turn: string)
    requires Spent(s, turn) && !(action.Enqueue? && action.task.id == turn)
    ensures Spent(s.Scheduled(Apply(s.slots, capacity, action)), turn)
  {
    ApplyStems(s.slots, capacity, action);
    hide Apply;
    var next := Apply(s.slots, capacity, action);
    var s' := s.Scheduled(next);
    if HasId(next.queue, turn) {
      var task := QueuedTask(next.queue, turn);
      HasTask(s.slots.queue, task);
    }
    forall task | task in next.active && task.id == turn ensures task in s.slots.active {
      if task in s.slots.queue { HasTask(s.slots.queue, task); }
    }
  }

  lemma FinishedKeepsSpent(s: Supervisor, capacity: nat, other: string, turn: string)
    requires Spent(s, turn) && other in s.runtimes
    ensures Spent(Finished(s, capacity, other), turn)
  {
    hide Apply, Waits;
    if s.Current(other) {
      var r := s.runtimes[other];
      var closed := s.(runtimes := s.runtimes[other := r.(closing := true)], active := s.active - {r.thread});
      WaitsAlike(s, closed);
      if r.exited { ScheduledKeepsSpent(closed, capacity, Release(other), turn); }
    }
  }

  lemma LaunchedKeepsSpent(s: Supervisor, capacity: nat, other: string, ready: bool, turn: string)
    requires other in s.tickets && Spent(s.(due := s.due - {other}), turn)
    ensures Spent(Launched(s, capacity, other, ready), turn)
  {
    var taken, begun := s.(due := s.due - {other}), Begun(s, other);
    WaitsAlike(taken, begun);
    LaunchedIs(s, capacity, other, ready);
    hide Apply, Waits, HasId, Launched;
    ScheduledKeepsSpent(begun, capacity, StartFailure(other), turn);
    var thread := s.tickets[other].thread;
    if ready && thread in s.pending && s.pending[thread] == other { WaitsAlike(begun, Launched(s, capacity, other, ready)); }
  }

  lemma ResolvedKeepsSpent(s: Supervisor, capacity: nat, other: string, lease: Lease, turn: string)
    requires Books(s, capacity) && Spent(s, turn) && other in s.resolving && lease.id == other
    ensures Spent(Resolved(s, capacity, other, lease), turn)
  {
    assert other != turn;
    ResolvedIs(s, capacity, other, lease);
    var ticketed := Ticketed(s, other, lease);
    WaitsAlike(s, ticketed);
    hide Apply, Waits, Books, EnqueueAnswer, Resolved;
    ScheduledKeepsSpent(ticketed, capacity, Enqueue(lease), turn);
    var after := ticketed.Scheduled(Apply(s.slots, capacity, Enqueue(lease)));
    WaitsAlike(after, after.(pending := after.pending[s.resolving[other] := other]));
  }

  lemma StoppedKeepsSpent(s: Supervisor, capacity: nat, thread: string, turn: string)
    requires Spent(s, turn)
    ensures Spent(Stopped(s, capacity, thread), turn)
  {
    hide Apply, Waits;
    if thread in s.pending {
      var rest := s.(pending := s.pending - {thread});
      WaitsAlike(s, rest);
      ScheduledKeepsSpent(rest, capacity, Cancel(s.pending[thread]), turn);
    }
  }

  lemma ExitedKeepsSpent(s: Supervisor, capacity: nat, other: string, turn: string)
    requires Spent(s, turn) && other in s.runtimes
    ensures Spent(Exited(s, capacity, other), turn)
  {
    hide Apply, Waits;
    var gone := s.(runtimes := s.runtimes[other := s.runtimes[other].(exited := true)]);
    WaitsAlike(s, gone);
    if s.runtimes[other].closing {
      ScheduledKeepsSpent(gone, capacity, Release(other), turn);
    } else {
      FinishedKeepsSpent(gone, capacity, other, turn);
    }
  }

  lemma RejectedKeepsSpent(s: Supervisor, capacity: nat, other: string, turn: string)
    requires Spent(s, turn) && other in s.runtimes
    ensures Spent(RejectedLate(s, capacity, other), turn)
  {
    hide Apply, Waits, HasId;
    if HasId(s.slots.active, other) {
      ScheduledKeepsSpent(s, capacity, StartFailure(other), turn);
      FinishedKeepsSpent(s.Scheduled(Apply(s.slots, capacity, StartFailure(other))), capacity, other, turn);
    }
  }

  lemma NextKeepsSpent(s: Supervisor, capacity: nat, step: Step, turn: string)
    requires Enabled(s, step) && Books(s, capacity) && Spent(s, turn)
    ensures Spent(Next(s, capacity, step), turn)
  {
    hide Apply, Books, Waits;
    match step
    case StartRequested(_, _) => WaitsAlike(s, Next(s, capacity, step));
    case StartResolved(other, lease) => ResolvedKeepsSpent(s, capacity, other, lease, turn);
    case Launch(other, ready) =>
      TakenIsSpent(s, other, turn);
      LaunchedKeepsSpent(s, capacity, other, ready, turn);
    case Stop(thread) => StoppedKeepsSpent(s, capacity, thread, turn);
    case Finish(other) => FinishedKeepsSpent(s, capacity, other, turn);
    case ChildExit(other) => ExitedKeepsSpent(s, capacity, other, turn);
    case LateRejection(other) => RejectedKeepsSpent(s, capacity, other, turn);
  }

  lemma TakenIsSpent(s: Supervisor, other: string, turn: string)
    requires Spent(s, turn)
    ensures Spent(s.(due := s.due - {other}), turn)
  {
  }

  lemma LaunchSpends(s: Supervisor, capacity: nat, turn: string, ready: bool)
    requires Books(s, capacity) && turn in s.due && turn in s.tickets
    ensures Spent(Launched(s, capacity, turn, ready), turn)
  {
    var task :| task in s.slots.active && task.id == turn;
    QueuedNotActive(s.slots, capacity, task);
    if HasId(s.slots.queue, turn) { var queued := QueuedTask(s.slots.queue, turn); }
    hide Inv, Apply;
    LaunchedKeepsSpent(s, capacity, turn, ready, turn);
  }

  lemma {:induction false} StaysSpent(states: seq<Supervisor>, steps: seq<Step>, capacity: nat, turn: string, i: nat, n: nat)
    requires SupervisorSpec.IsRun(states, steps, capacity) && i <= n < |states| && Spent(states[i], turn)
    ensures Spent(states[n], turn)
  {
    hide Next, Books, Spent;
    if n > i {
      StaysSpent(states, steps, capacity, turn, i, n - 1);
      RunKeepsBooks(states, steps, capacity, n - 1);
      NextKeepsSpent(states[n - 1], capacity, steps[n - 1], turn);
    }
  }

  ghost predicate Held(s: Supervisor, thread: string, turn: string) {
    thread in s.pending && s.pending[thread] == turn && turn in s.tickets && s.tickets[turn].thread == thread
  }

  lemma ResolvedHolds(s: Supervisor, capacity: nat, turn: string, lease: Lease)
    requires Books(s, capacity) && turn in s.resolving && lease.id == turn
    ensures Held(Resolved(s, capacity, turn, lease), s.resolving[turn], turn) || Spent(Resolved(s, capacity, turn, lease), turn)
  {
    NotYetActive(s, capacity, turn);
    assert turn !in s.due;
    ResolvedIs(s, capacity, turn, lease);
    hide Apply, EnqueueAnswer, Resolved, Books, HasId;
  }

  lemma WithdrawKills(s: Supervisor, capacity: nat, step: Step, thread: string, turn: string)
    requires Enabled(s, step) && Books(s, capacity) && NoDeadPending(s) && Held(s, thread, turn) && Withdraws(s, step, thread)
    ensures Dead(Next(s, capacity, step), turn)
  {
    assert turn !in s.resolving;
    if step.Stop? {
      StopKills(s, capacity, thread);
    } else {
      ResolvedIs(s, capacity, step.turn, step.lease);
      hide Apply, EnqueueAnswer, Resolved, Books, Waits;
    }
  }

  // Nothing here changes what threads are pending for.
  lemma HeldAlike(s: Supervisor, s': Supervisor, thread: string, turn: string)
    requires Held(s, thread, turn) && s'.pending == s.pending && s'.tickets == s.tickets
    ensures Held(s', thread, turn)
  {
  }

  lemma ResolvedKeepsHeld(s: Supervisor, capacity: nat, other: string, lease: Lease, thread: string, turn: string)
    requires Books(s, capacity) && Held(s, thread, turn) && other in s.resolving && s.resolving[other] != thread
    ensures Held(Resolved(s, capacity, other, lease), thread, turn)
  {
    assert turn !in s.resolving;
    ResolvedIs(s, capacity, other, lease);
    hide Apply, Books, EnqueueAnswer, Resolved;
  }

  lemma LaunchedKeepsHeld(s: Supervisor, capacity: nat, other: string, ready: bool, thread: string, turn: string)
    requires Held(s, thread, turn) && other in s.tickets && other != turn
    ensures Held(Launched(s, capacity, other, ready), thread, turn)
  {
    LaunchedIs(s, capacity, other, ready);
    hide Apply, HasId, Launched;
  }

  lemma StoppedKeepsHeld(s: Supervisor, capacity: nat, other: string, thread: string, turn: string)
    requires Held(s, thread, turn) && other != thread
    ensures Held(Stopped(s, capacity, other), thread, turn)
  {
    hide Apply;
  }

  lemma NextKeepsHeld(s: Supervisor, capacity: nat, step: Step, thread: string, turn: string)
    requires Enabled(s, step) && Held(s, thread, turn) && !Withdraws(s, step, thread) && !(step.Launch? && step.turn == turn)
    requires Books(s, capacity)
    ensures Held(Next(s, capacity, step), thread, turn)
  {
    hide Apply, Books, Held, Finished, Resolved, Launched, Stopped, HasId;
    match step
    case StartRequested(_, _) => HeldAlike(s, Next(s, capacity, step), thread, turn);
    case StartResolved(other, lease) => ResolvedKeepsHeld(s, capacity, other, lease, thread, turn);
    case Launch(other, ready) => LaunchedKeepsHeld(s, capacity, other, ready, thread, turn);
    case Stop(other) => StoppedKeepsHeld(s, capacity, other, thread, turn);
    case Finish(other) =>
      FinishedKeepsRecords(s, capacity, other);
      HeldAlike(s, Next(s, capacity, step), thread, turn);
    case ChildExit(other) =>
      FinishedKeepsRecords(s.(runtimes := s.runtimes[other := s.runtimes[other].(exited := true)]), capacity, other);
      HeldAlike(s, Next(s, capacity, step), thread, turn);
    case LateRejection(other) =>
      FinishedKeepsRecords(s.Scheduled(Apply(s.slots, capacity, StartFailure(other))), capacity, other);
      HeldAlike(s, Next(s, capacity, step), thread, turn);
  }

  // Nothing has withdrawn the start between its resolution and state m.
  ghost predicate Untouched(states: seq<Supervisor>, steps: seq<Step>, capacity: nat, thread: string, r: nat, m: nat)
    requires SupervisorSpec.IsRun(states, steps, capacity) && m <= |steps|
  {
    forall k | r < k < m :: !Withdraws(states[k], steps[k], thread)
  }

  lemma {:induction false} HeldOrDead(states: seq<Supervisor>, steps: seq<Step>, capacity: nat, turn: string, r: nat, m: nat, n: nat)
    requires SupervisorSpec.IsRun(states, steps, capacity) && r < m <= n < |states|
    requires steps[r].StartResolved? && steps[r].turn == turn && turn in states[n].due
    ensures turn in states[r].resolving
    ensures if Untouched(states, steps, capacity, states[r].resolving[turn], r, m)
            then Held(states[m], states[r].resolving[turn], turn) else Dead(states[m], turn)
  {
    hide Next, Books, NoDeadPending, Held, Dead, Spent, Withdraws;
    assert Enabled(states[r], steps[r]);
    var thread, before := states[r].resolving[turn], states[m - 1];
    assert states[m] == Next(before, capacity, steps[m - 1]);
    RunsKeepPending(states, steps, capacity, m - 1);
    NotSpent(states, steps, capacity, turn, m, n);
    if m == r + 1 {
      ResolvedHolds(before, capacity, turn, steps[r].lease);
      assert Next(before, capacity, steps[r]) == Resolved(before, capacity, turn, steps[r].lease) by { NextResolved(before, capacity, turn, steps[r].lease); }
    } else {
      HeldOrDead(states, steps, capacity, turn, r, m - 1, n);
      if !Untouched(states, steps, capacity, thread, r, m - 1) {
        NextKeepsDead(before, capacity, steps[m - 1], turn);
      } else if Withdraws(before, steps[m - 1], thread) {
        WithdrawKills(before, capacity, steps[m - 1], thread, turn);
      } else {
        if steps[m - 1].Launch? && steps[m - 1].turn == turn {
          LaunchSpends(before, capacity, turn, steps[m - 1].ready);
          NextLaunched(before, capacity, turn, steps[m - 1].ready);
        }
        NextKeepsHeld(before, capacity, steps[m - 1], thread, turn);
      }
    }
  }

  lemma NextResolved(s: Supervisor, capacity: nat, turn: string, lease: Lease)
    requires Enabled(s, StartResolved(turn, lease))
    ensures Next(s, capacity, StartResolved(turn, lease)) == Resolved(s, capacity, turn, lease)
  {
  }

  lemma NextLaunched(s: Supervisor, capacity: nat, turn: string, ready: bool)
    requires Enabled(s, Launch(turn, ready))
    ensures Next(s, capacity, Launch(turn, ready)) == Launched(s, capacity, turn, ready)
  {
  }

  lemma NotSpent(states: seq<Supervisor>, steps: seq<Step>, capacity: nat, turn: string, m: nat, n: nat)
    requires SupervisorSpec.IsRun(states, steps, capacity) && m <= n < |states| && turn in states[n].due
    ensures !Spent(states[m], turn)
  {
    if Spent(states[m], turn) { StaysSpent(states, steps, capacity, turn, m, n); }
  }

  /** A launch whose callback finds everything ready forks a child exactly when, since the lease of
      its start was resolved, its thread was not stopped and no other start of the thread was
      resolved. */
  lemma LaunchForksExactly(states: seq<Supervisor>, steps: seq<Step>, capacity: nat, turn: string, r: nat, n: nat)
    requires SupervisorSpec.IsRun(states, steps, capacity) && r < n < |steps|
    requires steps[r].StartResolved? && steps[r].turn == turn && steps[n] == Launch(turn, true)
    ensures turn in states[r].resolving
    ensures turn in states[n + 1].runtimes <==>
            forall k | r < k < n ::
              && steps[k] != Stop(states[r].resolving[turn])
              && !(steps[k].StartResolved? && steps[k].turn in states[k].resolving
                   && states[k].resolving[steps[k].turn] == states[r].resolving[turn])
  {
    assert Enabled(states[r], steps[r]) && Enabled(states[n], steps[n]);
    var thread := states[r].resolving[turn];
    HeldOrDead(states, steps, capacity, turn, r, n, n);
    RunKeepsBooks(states, steps, capacity, n);
    assert turn !in states[n].runtimes;
    assert states[n + 1] == Next(states[n], capacity, steps[n]);
    forall k | r < k < n
      ensures Withdraws(states[k], steps[k], thread) <==>
              steps[k] == Stop(thread) || (steps[k].StartResolved? && steps[k].turn in states[k].resolving && states[k].resolving[steps[k].turn] == thread)
    {
      assert Enabled(states[k], steps[k]);
    }
    ForksIfHeld(states[n], capacity, thread, turn);
    hide Next, Books;
  }

  lemma ForksIfHeld(s: Supervisor, capacity: nat, thread: string, turn: string)
    requires turn in s.due && turn in s.tickets && turn !in s.runtimes && (Held(s, thread, turn) || Dead(s, turn))
    ensures turn in Launched(s, capacity, turn, true).runtimes <==> Held(s, thread, turn)
  {
    hide Apply;
  }

  // ---------------------------------------------------------------- when a thread is free

  /** A start is taken up exactly if its thread has neither a runtime nor a pending start. */
  lemma StartsExactly(s: Supervisor, capacity: nat, thread: string, turn: string)
    requires Enabled(s, StartRequested(thread, turn))
    ensures var s' := Next(s, capacity, StartRequested(thread, turn));
            if thread !in s.active && thread !in s.pending then s' == s.(resolving := s.resolving[turn := thread]) else s' == s
  {
  }

  /** When the current runtime of a thread ends, by its end, its child's exit or a late rejection of a
      start that has its slot, the runtime is closed and the thread has none; other threads keep
      theirs. A runtime that is not current leaves every thread its runtime, and so does the exit of
      one that was closed before. */
  lemma EndsExactly(s: Supervisor, capacity: nat, step: Step, turn: string)
    requires Enabled(s, step) && (step == Finish(turn) || step == ChildExit(turn) || step == LateRejection(turn))
    requires step.LateRejection? ==> HasId(s.slots.active, turn)
    ensures turn in s.runtimes && turn in Next(s, capacity, step).runtimes
    ensures if s.Current(turn) && !(step.ChildExit? && s.runtimes[turn].closing)
            then Next(s, capacity, step).active == s.active - {s.runtimes[turn].thread} && Next(s, capacity, step).runtimes[turn].closing
            else Next(s, capacity, step).active == s.active
  {
    hide Apply, HasId;
    match step
    case Finish(_) =>
    case ChildExit(_) => EndAlike(s, s.(runtimes := s.runtimes[turn := s.runtimes[turn].(exited := true)]), capacity, turn);
    case LateRejection(_) => EndAlike(s, s.Scheduled(Apply(s.slots, capacity, StartFailure(turn))), capacity, turn);
  }

  lemma EndAlike(s: Supervisor, s': Supervisor, capacity: nat, turn: string)
    requires turn in s.runtimes && turn in s'.runtimes && s'.active == s.active
    requires s'.runtimes[turn].thread == s.runtimes[turn].thread && s'.runtimes[turn].closing == s.runtimes[turn].closing
    ensures turn in Finished(s', capacity, turn).runtimes
    ensures if s.Current(turn)
            then Finished(s', capacity, turn).active == s.active - {s.runtimes[turn].thread} && Finished(s', capacity, turn).runtimes[turn].closing
            else Finished(s', capacity, turn).active == s.active
  {
    hide Apply;
  }
}
