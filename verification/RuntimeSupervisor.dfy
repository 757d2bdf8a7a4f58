/**
 The RuntimeSupervisor class (runtime-supervisor.ts), reduced to the maps and flags that decide
 about worker slots, proved step by step against SupervisorSpec. A runtime stays in `runtimes`
 after it has left `active`, because its exit handler still refers to it; `due` stands for the
 start callbacks the scheduler has put on the microtask queue.
 */
module RuntimeSupervision {
  import opened SchedulerSpec
  import opened SupervisorSpec
  import opened RuntimeScheduling

  class RuntimeSupervisor {
    const scheduler: RuntimeScheduler
    var pending: map<string, string>
    var active: map<string, string>
    var runtimes: map<string, Runtime>
    var tickets: map<string, Ticket>
    var resolving: map<string, string>
    var due: set<string>

    ghost predicate Valid()
      reads this, scheduler
    {
      scheduler.Valid()
    }

    function State(): Supervisor
      reads this, scheduler
    {
      Supervisor(scheduler.State(), pending, active, runtimes, tickets, resolving, due)
    }

    constructor (scheduler: RuntimeScheduler)
      requires scheduler.Valid() && scheduler.State() == Slots([], [])
      ensures Valid() && this.scheduler == scheduler && State() == INITIAL
    {
      this.scheduler := scheduler;
      pending, active, runtimes, tickets, resolving, due := map[], map[], map[], map[], map[], {};
    }

    // The synchronous part of start, up to the resolution of the lease.
    method Start(thread: string, turn: string) returns (accepted: bool)
      requires Valid() && Enabled(State(), StartRequested(thread, turn))
      modifies this
      ensures Valid() && accepted == !old(State()).HasThread(thread)
      ensures State() == Next(old(State()), scheduler.capacity, StartRequested(thread, turn))
    {
      if thread in active || thread in pending {
        return false;
      }
      resolving := resolving[turn := thread];
      accepted := true;
    }

    // The rest of start, once the lease is known. An enqueue that throws withdraws the start.
    method ContinueStart(turn: string, lease: Lease) returns (answer: Enqueued)
      requires Valid() && Enabled(State(), StartResolved(turn, lease))
      modifies this, scheduler
      ensures Valid()
      ensures answer == EnqueueAnswer(old(scheduler.State()), scheduler.capacity, lease)
      ensures State() == Next(old(State()), scheduler.capacity, StartResolved(turn, lease))
    {
      var thread := resolving[turn];
      resolving := resolving - {turn};
      tickets := tickets[turn := Ticket(thread, lease)];
      pending := pending[thread := turn];
      var before := Ids(scheduler.active);
      answer := scheduler.Enqueue(lease);
      if answer.AlreadyScheduled? || answer.QueueFull? {
        pending := pending - {thread};
      }
      due := due + (Ids(scheduler.active) - before);
    }

    // The start callback; ready says whether everything before the fork and the fork itself succeed.
    method Launch(turn: string, ready: bool)
      requires Valid() && Enabled(State(), Step.Launch(turn, ready))
      modifies this, scheduler
      ensures Valid()
      ensures State() == Next(old(State()), scheduler.capacity, Step.Launch(turn, ready))
    {
      due := due - {turn};
      var ticket := tickets[turn];
      if !ready || ticket.thread !in pending || pending[ticket.thread] != turn {
        StartRejected(turn);
        return;
      }
      pending := pending - {ticket.thread};
      runtimes := runtimes[turn := Runtime(ticket.thread, ticket.lease, false, false)];
      active := active[ticket.thread := turn];
    }

    // The scheduler's reaction to a start callback that threw before the fork.
    method StartRejected(turn: string)
      requires Valid() && turn in tickets
      modifies this, scheduler
      ensures Valid()
      ensures State() == FailedEarly(old(State()), scheduler.capacity, turn)
    {
      if HasId(scheduler.active, turn) {
        var thread := tickets[turn].thread;
        if thread in pending && pending[thread] == turn {
          pending := pending - {thread};
        }
        var before := Ids(scheduler.active);
        scheduler.StartFailed(turn);
        due := due + (Ids(scheduler.active) - before);
      }
    }

    method Stop(thread: string)
      requires Valid()
      modifies this, scheduler
      ensures Valid()
      ensures State() == Next(old(State()), scheduler.capacity, Step.Stop(thread))
    {
      if thread in pending {
        var turn := pending[thread];
        pending := pending - {thread};
        var before := Ids(scheduler.active);
        var cancelled := scheduler.Cancel(turn);
        due := due + (Ids(scheduler.active) - before);
      }
    }

    // The end of a turn, by its own report, by the timer of stop, or by a crash.
    method Finish(turn: string)
      requires Valid() && turn in runtimes
      modifies this, scheduler
      ensures Valid()
      ensures State() == Next(old(State()), scheduler.capacity, Step.Finish(turn))
    {
      var runtime := runtimes[turn];
      if runtime.thread !in active || active[runtime.thread] != turn {
        return;
      }
      runtimes := runtimes[turn := runtime.(closing := true)];
      active := active - {runtime.thread};
      if runtime.exited {
        ReleaseSlot(turn);
      }
    }

    method ReleaseSlot(turn: string)
      requires Valid()
      modifies this`due, scheduler
      ensures Valid()
      ensures State() == old(State()).Scheduled(Apply(old(scheduler.State()), scheduler.capacity, Action.Release(turn)))
    {
      var before := Ids(scheduler.active);
      var released := scheduler.Release(turn);
      due := due + (Ids(scheduler.active) - before);
    }

    method ChildExited(turn: string)
      requires Valid() && Enabled(State(), ChildExit(turn))
      modifies this, scheduler
      ensures Valid()
      ensures State() == Next(old(State()), scheduler.capacity, ChildExit(turn))
    {
      runtimes := runtimes[turn := runtimes[turn].(exited := true)];
      if runtimes[turn].closing {
        ReleaseSlot(turn);
      } else {
        Finish(turn);
      }
    }

    // A start callback that is rejected although its child was forked.
    method RejectLate(turn: string)
      requires Valid() && Enabled(State(), LateRejection(turn))
      modifies this, scheduler
      ensures Valid()
      ensures State() == Next(old(State()), scheduler.capacity, LateRejection(turn))
    {
      if HasId(scheduler.active, turn) {
        var before := Ids(scheduler.active);
        scheduler.StartFailed(turn);
        due := due + (Ids(scheduler.active) - before);
        Finish(turn);
      }
    }
  }
}
