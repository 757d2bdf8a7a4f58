/**
 When a worker slot is lost: the exact step that leaves a slot to nobody, and how long such a slot
 stays lost. Unlike the theorems of SupervisorSpec, these hold in every run, late rejections and
 overlapping starts included.
 */
module SupervisorLeaks {
  import opened SchedulerSpec
  import opened SupervisorSpec

  // A child exits whose runtime nobody has closed and which is no longer its thread's current one:
  // its exit handler does nothing about the slot.
  predicate Orphans(s: Supervisor, step: Step)
    requires Enabled(s, step)
  {
    && step.ChildExit? && !s.runtimes[step.turn].closing && !s.Current(step.turn)
    && step.turn in Ids(s.slots.active) && step.turn !in s.due
  }

  lemma NextKeepsInv(s: Supervisor, capacity: nat, step: Step)
    requires Enabled(s, step) && Inv(s.slots, capacity)
    ensures Inv(Next(s, capacity, step).slots, capacity)
  {
    hide Inv, Apply;
    forall action ensures Inv(Apply(s.slots, capacity, action), capacity) { ApplyKeepsInv(s.slots, capacity, action); }
    if step.LateRejection? && HasId(s.slots.active, step.turn) {
      ApplyKeepsInv(Apply(s.slots, capacity, StartFailure(step.turn)), capacity, Release(step.turn));
    }
  }

  lemma FinishedNoLeak(s: Supervisor, capacity: nat, turn: string)
    requires Inv(s.slots, capacity) && turn in s.runtimes
    requires forall task | task in s.slots.active ::
               task.id in s.due || s.Live(task.id) || (task.id == turn && s.Current(turn))
    ensures NoLeak(Finished(s, capacity, turn))
  {
    hide Inv, Apply;
    if s.Current(turn) {
      var r := s.runtimes[turn];
      var closed := s.(runtimes := s.runtimes[turn := r.(closing := true)], active := s.active - {r.thread});
      assert forall id :: closed.Live(id) == s.Live(id);
      if r.exited { ScheduledNoLeak(closed, capacity, Release(turn)); }
    }
  }

  lemma ExitedLeakExact(s: Supervisor, capacity: nat, turn: string)
    requires Inv(s.slots, capacity) && NoLeak(s) && s.Live(turn)
    ensures NoLeak(Exited(s, capacity, turn)) <==> !Orphans(s, ChildExit(turn))
  {
    hide Inv, Apply;
    var r := s.runtimes[turn];
    var gone := s.(runtimes := s.runtimes[turn := r.(exited := true)]);
    assert forall id | id != turn :: gone.Live(id) == s.Live(id);
    assert gone.Current(turn) == s.Current(turn);
    if r.closing {
      ScheduledNoLeak(gone, capacity, Release(turn));
    } else if s.Current(turn) {
      FinishedNoLeak(gone, capacity, turn);
    } else if Orphans(s, ChildExit(turn)) {
      var task :| task in gone.slots.active && task.id == turn;
      assert !gone.Live(task.id);
    }
  }

  lemma LaunchedNoLeak(s: Supervisor, capacity: nat, turn: string, ready: bool)
    requires Inv(s.slots, capacity) && NoLeak(s) && turn in s.tickets
    ensures NoLeak(Launched(s, capacity, turn, ready))
  {
    hide Inv, Apply;
    var taken := s.(due := s.due - {turn});
    var Ticket(thread, lease) := s.tickets[turn];
    if !ready || thread !in s.pending || s.pending[thread] != turn {
      var cleared := if thread in s.pending && s.pending[thread] == turn then taken.(pending := s.pending - {thread}) else taken;
      assert forall id :: cleared.Live(id) == s.Live(id);
      if HasId(s.slots.active, turn) {
        ScheduledNoLeak(cleared, capacity, StartFailure(turn));
      } else {
        forall task | task in s.slots.active ensures task.id != turn {
          var k :| 0 <= k < |s.slots.active| && s.slots.active[k] == task;
        }
      }
    } else {
      var forked := Launched(s, capacity, turn, ready);
      assert forall id | id != turn :: forked.Live(id) == s.Live(id);
      assert forked.Live(turn);
    }
  }

  lemma RejectedNoLeak(s: Supervisor, capacity: nat, turn: string)
    requires Inv(s.slots, capacity) && NoLeak(s) && turn in s.runtimes
    ensures NoLeak(RejectedLate(s, capacity, turn))
  {
    hide Inv, Apply;
    if HasId(s.slots.active, turn) {
      ApplyKeepsInv(s.slots, capacity, StartFailure(turn));
      ScheduledNoLeak(s, capacity, StartFailure(turn));
      FinishedNoLeak(s.Scheduled(Apply(s.slots, capacity, StartFailure(turn))), capacity, turn);
    }
  }

  lemma ScheduledStepNoLeak(s: Supervisor, capacity: nat, step: Step)
    requires Enabled(s, step) && Inv(s.slots, capacity) && NoLeak(s) && (step.StartResolved? || step.Stop?)
    ensures NoLeak(Next(s, capacity, step))
  {
    hide Inv, Apply;
    match step
    case StartResolved(turn, lease) =>
      var thread := s.resolving[turn];
      var waiting := s.(resolving := s.resolving - {turn}, tickets := s.tickets[turn := Ticket(thread, lease)],
                        pending := s.pending[thread := turn]);
      ScheduledNoLeak(waiting, capacity, Enqueue(lease));
    case Stop(thread) =>
      if thread in s.pending {
        ScheduledNoLeak(s.(pending := s.pending - {thread}), capacity, Cancel(s.pending[thread]));
      }
  }

  /** A step takes a slot from everybody exactly when it is the exit of an open runtime that another
      one has replaced. */
  lemma LeakExact(s: Supervisor, capacity: nat, step: Step)
    requires Enabled(s, step) && Inv(s.slots, capacity) && NoLeak(s)
    ensures NoLeak(Next(s, capacity, step)) <==> !Orphans(s, step)
  {
    hide Inv, Apply;
    match step
    case StartRequested(_, _) =>
    case StartResolved(_, _) => ScheduledStepNoLeak(s, capacity, step);
    case Stop(_) => ScheduledStepNoLeak(s, capacity, step);
    case Launch(turn, ready) => LaunchedNoLeak(s, capacity, turn, ready);
    case Finish(turn) => FinishedNoLeak(s, capacity, turn);
    case ChildExit(turn) => ExitedLeakExact(s, capacity, turn);
    case LateRejection(turn) => RejectedNoLeak(s, capacity, turn);
  }

  lemma {:induction false} RunKeepsSlotsInv(states: seq<Supervisor>, steps: seq<Step>, capacity: nat, n: nat)
    requires SupervisorSpec.IsRun(states, steps, capacity) && n < |states|
    ensures Inv(states[n].slots, capacity)
  {
    if n > 0 {
      RunKeepsSlotsInv(states, steps, capacity, n - 1);
      NextKeepsInv(states[n - 1], capacity, steps[n - 1]);
    }
  }

  /** No slot is lost up to some state of a run exactly when none of the steps up to there is such
      an exit. */
  lemma {:induction false} RunsLeakExactly(states: seq<Supervisor>, steps: seq<Step>, capacity: nat, n: nat)
    requires SupervisorSpec.IsRun(states, steps, capacity) && n < |states|
    ensures (forall i | 0 <= i <= n :: NoLeak(states[i])) <==> (forall i | 0 <= i < n :: !Orphans(states[i], steps[i]))
  {
    hide Next, NoLeak, Inv, Orphans;
    if n == 0 {
      assert NoLeak(INITIAL) by { NothingTaken(); }
    } else {
      RunsLeakExactly(states, steps, capacity, n - 1);
      RunKeepsSlotsInv(states, steps, capacity, n - 1);
      var last := n - 1;
      if NoLeak(states[last]) {
        LeakExact(states[last], capacity, steps[last]);
        assert NoLeak(states[n]) <==> !Orphans(states[last], steps[last]);
      }
      assert (forall i | 0 <= i <= n :: NoLeak(states[i])) <==> (forall i | 0 <= i <= last :: NoLeak(states[i])) && NoLeak(states[n]);
      assert (forall i | 0 <= i < n :: !Orphans(states[i], steps[i]))
        <==> (forall i | 0 <= i < last :: !Orphans(states[i], steps[i])) && !Orphans(states[last], steps[last]);
    }
  }

  lemma NothingTaken()
    ensures NoLeak(INITIAL)
  {
  }

  /** As long as living children hold their slots, the exit of a child is such an exit exactly when
      its runtime is open and not its thread's current one. */
  lemma OrphansOpenRuntimes(s: Supervisor, capacity: nat, turn: string)
    requires Books(s, capacity) && LiveHoldsSlot(s) && s.Live(turn)
    ensures Orphans(s, ChildExit(turn)) <==> !s.runtimes[turn].closing && !s.Current(turn)
  {
    hide Inv;
    assert s.runtimes[turn].lease in s.slots.active && s.runtimes[turn].lease.id == turn;
  }

  lemma SlotsAccounted(s: Supervisor, capacity: nat)
    requires Books(s, capacity) && LiveHoldsSlot(s)
    ensures NoLeak(s) <==> Ids(s.slots.active) == s.due + LiveTurns(s)
  {
    hide Inv;
    assert s.due + LiveTurns(s) <= Ids(s.slots.active);
    if Ids(s.slots.active) == s.due + LiveTurns(s) {
      forall task | task in s.slots.active ensures task.id in s.due || s.Live(task.id) {
        assert task.id in Ids(s.slots.active);
      }
    }
  }

  // The exit handler finds the runtime closed, or still its thread's current one.
  predicate ExitHandled(s: Supervisor, step: Step)
    requires Enabled(s, step)
  {
    step.ChildExit? ==> s.runtimes[step.turn].closing || s.Current(step.turn)
  }

  /** Without late rejections, the taken slots are, up to some state of a run, exactly those of
      living children and of callbacks still to run if and only if every exit handler up to there
      finds its runtime closed or current. */
  lemma RunsAccountExactly(states: seq<Supervisor>, steps: seq<Step>, capacity: nat, n: nat)
    requires SupervisorSpec.IsRun(states, steps, capacity) && n < |states|
    requires forall i | 0 <= i < n :: !steps[i].LateRejection?
    ensures (forall i | 0 <= i <= n :: Ids(states[i].slots.active) == states[i].due + LiveTurns(states[i]))
            <==> (forall i | 0 <= i < n :: ExitHandled(states[i], steps[i]))
  {
    hide Next, NoLeak, Books, LiveHoldsSlot, ChildrenSafe, LiveTurns, Ids;
    forall i | 0 <= i <= n
      ensures NoLeak(states[i]) <==> Ids(states[i].slots.active) == states[i].due + LiveTurns(states[i])
    {
      RunsAreSafe(states, steps, capacity, i);
      SlotsAccounted(states[i], capacity);
    }
    forall i | 0 <= i < n ensures ExitHandled(states[i], steps[i]) <==> !Orphans(states[i], steps[i]) {
      RunsAreSafe(states, steps, capacity, i);
      if steps[i].ChildExit? { OrphansOpenRuntimes(states[i], capacity, steps[i].turn); }
    }
    RunsLeakExactly(states, steps, capacity, n);
  }

  // ---------------------------------------------------------------- lost slots

  // The slot is taken for a child that has exited, and no callback or handler will release it.
  ghost predicate Lost(s: Supervisor, turn: string) {
    && turn in s.runtimes && s.runtimes[turn].exited && !s.runtimes[turn].closing && !s.Current(turn)
    && turn in Ids(s.slots.active) && turn !in s.due
  }

  lemma LostIsLeaked(s: Supervisor, turn: string)
    requires Lost(s, turn)
    ensures !NoLeak(s)
  {
    var task :| task in s.slots.active && task.id == turn;
    assert !s.Live(task.id);
  }

  lemma OrphansAreLost(s: Supervisor, capacity: nat, turn: string)
    requires s.Live(turn) && Orphans(s, ChildExit(turn))
    ensures Lost(Next(s, capacity, ChildExit(turn)), turn)
  {
    hide Apply;
  }

  lemma ApplyKeepsId(s: Slots, capacity: nat, action: Action, id: string)
    requires id in Ids(s.active) && !Frees(action, id)
    ensures id in Ids(Apply(s, capacity, action).active)
  {
    hide Apply;
    ApplyStems(s, capacity, action);
    var task :| task in s.active && task.id == id;
    assert task in Apply(s, capacity, action).active;
  }

  lemma ScheduledKeepsLost(s: Supervisor, capacity: nat, action: Action, turn: string)
    requires Lost(s, turn) && !Frees(action, turn)
    ensures Lost(s.Scheduled(Apply(s.slots, capacity, action)), turn)
  {
    hide Apply;
    ApplyKeepsId(s.slots, capacity, action, turn);
  }

  lemma FinishedKeepsLost(s: Supervisor, capacity: nat, turn: string, other: string)
    requires Lost(s, turn) && other in s.runtimes
    ensures Lost(Finished(s, capacity, other), turn)
  {
    hide Apply;
    if s.Current(other) {
      var r := s.runtimes[other];
      var closed := s.(runtimes := s.runtimes[other := r.(closing := true)], active := s.active - {r.thread});
      assert other != turn && Lost(closed, turn);
      if r.exited { ScheduledKeepsLost(closed, capacity, Release(other), turn); }
    }
  }

  lemma LaunchedKeepsLost(s: Supervisor, capacity: nat, turn: string, other: string, ready: bool)
    requires Lost(s, turn) && other in s.due && other in s.tickets
    ensures Lost(Launched(s, capacity, other, ready), turn)
  {
    hide Apply;
    var thread := s.tickets[other].thread;
    var taken := s.(due := s.due - {other});
    assert Lost(taken, turn);
    if !ready || thread !in s.pending || s.pending[thread] != other {
      var cleared := if thread in s.pending && s.pending[thread] == other then taken.(pending := s.pending - {thread}) else taken;
      assert Lost(cleared, turn);
      ScheduledKeepsLost(cleared, capacity, StartFailure(other), turn);
    }
  }

  lemma OtherStepsKeepLost(s: Supervisor, capacity: nat, step: Step, turn: string)
    requires Enabled(s, step) && Lost(s, turn) && step != LateRejection(turn)
    ensures Lost(Next(s, capacity, step), turn)
  {
    hide Apply;
    match step
    case StartRequested(_, _) =>
    case StartResolved(other, lease) =>
      var waiting := s.(resolving := s.resolving - {other}, tickets := s.tickets[other := Ticket(s.resolving[other], lease)],
                        pending := s.pending[s.resolving[other] := other]);
      assert Lost(waiting, turn);
      ScheduledKeepsLost(waiting, capacity, Enqueue(lease), turn);
    case Launch(other, ready) => LaunchedKeepsLost(s, capacity, turn, other, ready);
    case Stop(thread) =>
      if thread in s.pending {
        var waiting := s.(pending := s.pending - {thread});
        assert Lost(waiting, turn);
        ScheduledKeepsLost(waiting, capacity, Cancel(s.pending[thread]), turn);
      }
    case Finish(other) => FinishedKeepsLost(s, capacity, turn, other);
    case ChildExit(other) =>
      var gone := s.(runtimes := s.runtimes[other := s.runtimes[other].(exited := true)]);
      assert Lost(gone, turn);
      if s.runtimes[other].closing {
        ScheduledKeepsLost(gone, capacity, Release(other), turn);
      } else {
        FinishedKeepsLost(gone, capacity, turn, other);
      }
    case LateRejection(other) =>
      if HasId(s.slots.active, other) {
        ScheduledKeepsLost(s, capacity, StartFailure(other), turn);
        FinishedKeepsLost(s.Scheduled(Apply(s.slots, capacity, StartFailure(other))), capacity, turn, other);
      }
  }

  /** The only thing that ever gives a lost slot back is the late rejection of the very start it was
      taken for. */
  lemma LostExact(s: Supervisor, capacity: nat, step: Step, turn: string)
    requires Enabled(s, step) && Lost(s, turn) && Inv(s.slots, capacity)
    ensures Lost(Next(s, capacity, step), turn) <==> step != LateRejection(turn)
  {
    if step == LateRejection(turn) {
      hide Inv, Apply;
      var task :| task in s.slots.active && task.id == turn;
      var k :| 0 <= k < |s.slots.active| && s.slots.active[k] == task;
      assert HasId(s.slots.active, turn);
      FreedIsGone(s.slots, capacity, StartFailure(turn), turn);
    } else {
      OtherStepsKeepLost(s, capacity, step, turn);
    }
  }

  /** A lost slot stays lost through any further steps but that one. */
  lemma {:induction false} StaysLost(states: seq<Supervisor>, steps: seq<Step>, capacity: nat, turn: string, i: nat, n: nat)
    requires SupervisorSpec.IsRun(states, steps, capacity) && i <= n < |states| && Lost(states[i], turn)
    requires forall k | i <= k < n :: steps[k] != LateRejection(turn)
    ensures Lost(states[n], turn) && !NoLeak(states[n])
  {
    hide Next, Lost, NoLeak;
    if n > i {
      StaysLost(states, steps, capacity, turn, i, n - 1);
      OtherStepsKeepLost(states[n - 1], capacity, steps[n - 1], turn);
    }
    LostIsLeaked(states[n], turn);
  }
}
