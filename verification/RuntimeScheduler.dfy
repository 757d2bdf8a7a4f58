/**
 The RuntimeScheduler class (runtime-scheduler.ts), whose drain loop rescans the queue from the
 start after every task it starts, proved against the one-pass account of SchedulerSpec.
 Starting a task only puts it among the active ones here: its start callback runs later, and a
 callback that rejects arrives as a call of StartFailed.
 */
module RuntimeScheduling {
  import opened Common
  import opened SchedulerSpec

  class RuntimeScheduler {
    const capacity: nat
    var active: seq<Lease>
    var queue: seq<Lease>

    ghost predicate Valid()
      reads this
    {
      MIN_RUNTIME_WORKERS <= capacity <= MAX_RUNTIME_WORKERS && Inv(State(), capacity)
    }

    function State(): Slots
      reads this
    {
      Slots(active, queue)
    }

    constructor (capacity: nat)
      requires MIN_RUNTIME_WORKERS <= capacity <= MAX_RUNTIME_WORKERS
      ensures Valid() && this.capacity == capacity && State() == Slots([], [])
    {
      this.capacity := capacity;
      active, queue := [], [];
    }

    // The checks of the original constructor, which rejects other capacities.
    static method Create(capacity: int) returns (scheduler: Option<RuntimeScheduler>)
      ensures scheduler.Some? <==> MIN_RUNTIME_WORKERS <= capacity <= MAX_RUNTIME_WORKERS
      ensures scheduler.Some? ==>
                fresh(scheduler.value) && scheduler.value.Valid() && scheduler.value.capacity == capacity
                && scheduler.value.State() == Slots([], [])
    {
      if capacity < MIN_RUNTIME_WORKERS || capacity > MAX_RUNTIME_WORKERS {
        return None;
      }
      var s := new RuntimeScheduler(capacity);
      return Some(s);
    }

    method Enqueue(task: Lease) returns (answer: Enqueued)
      requires Valid()
      modifies this
      ensures Valid()
      ensures answer == EnqueueAnswer(old(State()), capacity, task)
      ensures State() == Apply(old(State()), capacity, Action.Enqueue(task))
    {
      ApplyKeepsInv(State(), capacity, Action.Enqueue(task));
      if HasId(active, task.id) || HasId(queue, task.id) {
        return AlreadyScheduled;
      }
      if |queue| >= MAX_QUEUED_RUNTIMES {
        return QueueFull;
      }
      queue := queue + [task];
      Drain();
      answer := if HasId(active, task.id) then DidStart else DidQueue;
    }

    method Cancel(id: string) returns (cancelled: bool)
      requires Valid()
      modifies this
      ensures Valid()
      ensures cancelled == HasId(old(queue), id)
      ensures State() == Apply(old(State()), capacity, Action.Cancel(id))
    {
      ApplyKeepsInv(State(), capacity, Action.Cancel(id));
      if !HasId(queue, id) {
        return false;
      }
      queue := Without(queue, id);
      Drain();
      cancelled := true;
    }

    method Release(id: string) returns (released: bool)
      requires Valid()
      modifies this
      ensures Valid()
      ensures released == HasId(old(active), id)
      ensures State() == Apply(old(State()), capacity, Action.Release(id))
    {
      ApplyKeepsInv(State(), capacity, Action.Release(id));
      if !HasId(active, id) {
        return false;
      }
      active := Without(active, id);
      Drain();
      released := true;
    }

    method StartFailed(id: string)
      requires Valid()
      modifies this
      ensures Valid()
      ensures State() == Apply(old(State()), capacity, Action.StartFailure(id))
    {
      ApplyKeepsInv(State(), capacity, Action.StartFailure(id));
      if HasId(active, id) {
        active := Without(active, id);
        Drain();
      }
    }

    predicate CanStart(task: Lease, queueIndex: nat)
      requires queueIndex <= |queue|
      reads this
    {
      Startable(active, queue, capacity, task, queueIndex)
    }

    method Drain()
      modifies this`active, this`queue
      ensures State() == Drained(old(State()), capacity)
    {
      hide Stuck, Outcome, Drained, Startable;
      ghost var goal := Drained(State(), capacity);
      ghost var scanned := 0;  // how much of the queue the drain knows to be stuck
      NothingScanned(State(), capacity);
      var started := true;
      while started && |active| < capacity
        invariant scanned <= |queue| && Stuck(State(), capacity, scanned)
        invariant Outcome(State(), capacity, scanned) == goal
        invariant !started ==> scanned == |queue|
        decreases |queue|, if started then 1 else 0
      {
        started := false;
        var index := 0;
        ghost var before := State();
        while index < |queue|
          invariant index <= scanned && State() == before && !started
          invariant scanned <= |queue| && Stuck(State(), capacity, scanned)
          invariant Outcome(State(), capacity, scanned) == goal
        {
          var task := queue[index];
          StuckTask(State(), capacity, scanned, index);
          if CanStart(task, index) {
            StartNext(State(), capacity, scanned);
            queue := queue[..index] + queue[index + 1..];
            active := active + [task];
            started := true;
            break;
          }
          if index == scanned {
            PassOver(State(), capacity, scanned);
            scanned := scanned + 1;
          }
          index := index + 1;
        }
      }
      NothingLeft(State(), capacity, scanned);
    }
  }

  predicate Startable(active: seq<Lease>, queue: seq<Lease>, capacity: nat, task: Lease, queueIndex: nat)
    requires queueIndex <= |queue|
  {
    && |active| < capacity
    && !(exists candidate | candidate in active :: LeasesConflict(candidate, task))
    && !(exists earlier | earlier in queue[..queueIndex] :: LeasesConflict(earlier, task))
  }

  // The first tasks of the queue, none of which can start.
  ghost predicate Stuck(s: Slots, capacity: nat, scanned: nat) {
    scanned <= |s.queue| && forall k | 0 <= k < scanned :: !Startable(s.active, s.queue, capacity, s.queue[k], k)
  }

  // Where a drain ends that passes over the first tasks of the queue.
  ghost function Outcome(s: Slots, capacity: nat, scanned: nat): Slots
    requires scanned <= |s.queue|
  {
    var front := Elements(s.active) + Elements(s.queue[..scanned]);
    var room := Room(s.active, capacity);
    Slots(s.active + Started(front, s.queue[scanned..], room),
          s.queue[..scanned] + Waiting(front, s.queue[scanned..], room))
  }

  lemma StuckTask(s: Slots, capacity: nat, scanned: nat, k: nat)
    requires Stuck(s, capacity, scanned)
    ensures k < scanned ==> !Startable(s.active, s.queue, capacity, s.queue[k], k)
  {
  }

  lemma NothingScanned(s: Slots, capacity: nat)
    ensures Stuck(s, capacity, 0) && Outcome(s, capacity, 0) == Drained(s, capacity)
  {
    assert s.queue[..0] == [] && s.queue[0..] == s.queue;
    assert Elements(s.active) + Elements(s.queue[..0]) == Elements(s.active);
  }

  lemma FrontGrows(s: Slots, scanned: nat)
    requires scanned < |s.queue|
    ensures Elements(s.active) + Elements(s.queue[..scanned]) + {s.queue[scanned]}
            == Elements(s.active) + Elements(s.queue[..scanned + 1])
    ensures s.queue[scanned..][0] == s.queue[scanned] && s.queue[scanned..][1..] == s.queue[scanned + 1..]
  {
    assert s.queue[..scanned + 1] == s.queue[..scanned] + [s.queue[scanned]];
  }

  lemma StartableIffNotBlocked(s: Slots, capacity: nat, k: nat)
    requires k < |s.queue| && |s.active| < capacity
    ensures Startable(s.active, s.queue, capacity, s.queue[k], k)
            <==> !Blocked(s.queue[k], Elements(s.active) + Elements(s.queue[..k]))
  {
  }

  lemma PassOver(s: Slots, capacity: nat, scanned: nat)
    requires Stuck(s, capacity, scanned) && scanned < |s.queue| && |s.active| < capacity
    requires !Startable(s.active, s.queue, capacity, s.queue[scanned], scanned)
    ensures Stuck(s, capacity, scanned + 1)
    ensures Outcome(s, capacity, scanned + 1) == Outcome(s, capacity, scanned)
  {
    FrontGrows(s, scanned);
    StartableIffNotBlocked(s, capacity, scanned);
    var rest := Waiting(Elements(s.active) + Elements(s.queue[..scanned + 1]), s.queue[scanned + 1..], Room(s.active, capacity));
    assert s.queue[..scanned] + ([s.queue[scanned]] + rest) == s.queue[..scanned + 1] + rest;
  }

  lemma ElementsAppend(tasks: seq<Lease>, task: Lease)
    ensures Elements(tasks + [task]) == Elements(tasks) + {task}
  {
  }

  lemma StartedOne(front: set<Lease>, queue: seq<Lease>, room: nat)
    requires queue != [] && room > 0 && !Blocked(queue[0], front)
    ensures Started(front, queue, room) == [queue[0]] + Started(front + {queue[0]}, queue[1..], room - 1)
    ensures Waiting(front, queue, room) == Waiting(front + {queue[0]}, queue[1..], room - 1)
  {
  }

  function AfterStart(s: Slots, k: nat): Slots
    requires k < |s.queue|
  {
    Slots(s.active + [s.queue[k]], s.queue[..k] + s.queue[k + 1..])
  }

  lemma StuckStays(s: Slots, capacity: nat, scanned: nat)
    requires Stuck(s, capacity, scanned) && scanned < |s.queue|
    ensures Stuck(AfterStart(s, scanned), capacity, scanned)
  {
    var s' := AfterStart(s, scanned);
    forall k | 0 <= k < scanned ensures !Startable(s'.active, s'.queue, capacity, s'.queue[k], k) {
      assert !Startable(s.active, s.queue, capacity, s.queue[k], k);
      assert s'.queue[..k] == s.queue[..k];
    }
  }

  lemma OutcomeStays(s: Slots, capacity: nat, scanned: nat)
    requires scanned < |s.queue| && |s.active| < capacity
    requires !Blocked(s.queue[scanned], Elements(s.active) + Elements(s.queue[..scanned]))
    ensures Outcome(AfterStart(s, scanned), capacity, scanned) == Outcome(s, capacity, scanned)
  {
    hide Blocked, Elements, Started, Waiting;
    var task, s' := s.queue[scanned], AfterStart(s, scanned);
    assert s'.queue[..scanned] == s.queue[..scanned] && s'.queue[scanned..] == s.queue[scanned..][1..];
    var front := Elements(s.active) + Elements(s.queue[..scanned]);
    var front' := Elements(s'.active) + Elements(s'.queue[..scanned]);
    ElementsAppend(s.active, task);
    assert front' == front + {task};
    var room := Room(s.active, capacity);
    StartedOne(front, s.queue[scanned..], room);
    var rest := Started(front', s'.queue[scanned..], room - 1);
    assert s.active + ([task] + rest) == s'.active + rest;
  }

  lemma StartNext(s: Slots, capacity: nat, scanned: nat)
    requires Stuck(s, capacity, scanned) && scanned < |s.queue|
    requires Startable(s.active, s.queue, capacity, s.queue[scanned], scanned)
    ensures Stuck(AfterStart(s, scanned), capacity, scanned)
    ensures Outcome(AfterStart(s, scanned), capacity, scanned) == Outcome(s, capacity, scanned)
  {
    hide Outcome;
    StuckStays(s, capacity, scanned);
    StartableIffNotBlocked(s, capacity, scanned);
    OutcomeStays(s, capacity, scanned);
  }

  lemma NothingLeft(s: Slots, capacity: nat, scanned: nat)
    requires scanned <= |s.queue| && (scanned == |s.queue| || |s.active| >= capacity)
    ensures Outcome(s, capacity, scanned) == s
  {
    assert s.queue[..scanned] + s.queue[scanned..] == s.queue;
  }
}
