/**
 The runtime scheduler (runtime-scheduler.ts): a bounded queue of read and write leases in
 front of one to four worker slots. This module states what each operation does to the pair of
 active and queued tasks, and what every run of operations keeps; RuntimeScheduler proves the
 class with its restarting drain loop against it.
 */
module SchedulerSpec {
  import opened Common

  const MIN_RUNTIME_WORKERS := 1
  const MAX_RUNTIME_WORKERS := 4
  const MAX_QUEUED_RUNTIMES := 32

  datatype Mode = Read | Write

  datatype Lease = Lease(id: string, workspace: string, gitCommonDirectory: Option<string>, mode: Mode)

  predicate SharesResource(left: Lease, right: Lease) {
    || left.workspace == right.workspace
    || (left.gitCommonDirectory.Some? && left.gitCommonDirectory == right.gitCommonDirectory)
  }

  predicate LeasesConflict(left: Lease, right: Lease) {
    SharesResource(left, right) && (left.mode == Write || right.mode == Write)
  }

  // Active tasks in the order they started, queued tasks in the order they arrived.
  datatype Slots = Slots(active: seq<Lease>, queue: seq<Lease>)

  function Room(active: seq<Lease>, capacity: nat): nat {
    if |active| < capacity then capacity - |active| else 0
  }

  // ---------------------------------------------------------------- draining, in one pass

  function Elements(tasks: seq<Lease>): set<Lease> {
    set task | task in tasks
  }

  predicate Blocked(task: Lease, obstacles: set<Lease>) {
    exists other | other in obstacles :: LeasesConflict(other, task)
  }

  // One pass over the queue: whatever has been passed, started or not, stands in the way of the rest.
  function Started(obstacles: set<Lease>, queue: seq<Lease>, room: nat): (tasks: seq<Lease>)
    ensures |tasks| <= room
    decreases queue
  {
    if queue == [] || room == 0 then []
    else if Blocked(queue[0], obstacles) then Started(obstacles + {queue[0]}, queue[1..], room)
    else [queue[0]] + Started(obstacles + {queue[0]}, queue[1..], room - 1)
  }

  function Waiting(obstacles: set<Lease>, queue: seq<Lease>, room: nat): (tasks: seq<Lease>)
    ensures |tasks| == |queue| - |Started(obstacles, queue, room)|
    decreases queue
  {
    if queue == [] || room == 0 then queue
    else if Blocked(queue[0], obstacles) then [queue[0]] + Waiting(obstacles + {queue[0]}, queue[1..], room)
    else Waiting(obstacles + {queue[0]}, queue[1..], room - 1)
  }

  function Drained(s: Slots, capacity: nat): Slots {
    var room := Room(s.active, capacity);
    Slots(s.active + Started(Elements(s.active), s.queue, room), Waiting(Elements(s.active), s.queue, room))
  }

  // The closed form: whoever is active, or queued before the task, at the outset and has its
  // workspace or its Git directory only reads, as the task itself does.
  predicate Eligible(active: seq<Lease>, queue: seq<Lease>, k: nat)
    requires k < |queue|
  {
    forall task | task in active + queue[..k] ::
      task.workspace == queue[k].workspace || (task.gitCommonDirectory.Some? && task.gitCommonDirectory == queue[k].gitCommonDirectory)
      ==> task.mode == Read && queue[k].mode == Read
  }

  function EligibleFrom(active: seq<Lease>, queue: seq<Lease>, k: nat): seq<Lease>
    requires k <= |queue|
    decreases |queue| - k
  {
    if k == |queue| then []
    else (if Eligible(active, queue, k) then [queue[k]] else []) + EligibleFrom(active, queue, k + 1)
  }

  // What is left of the queue once the first eligible tasks have been taken out.
  function RestFrom(active: seq<Lease>, queue: seq<Lease>, k: nat, room: nat): seq<Lease>
    requires k <= |queue|
    decreases |queue| - k
  {
    if k == |queue| then []
    else if room > 0 && Eligible(active, queue, k) then RestFrom(active, queue, k + 1, room - 1)
    else [queue[k]] + RestFrom(active, queue, k + 1, room)
  }

  lemma {:induction false} NoRoomNoChange(active: seq<Lease>, queue: seq<Lease>, k: nat)
    requires k <= |queue|
    ensures RestFrom(active, queue, k, 0) == queue[k..]
    decreases |queue| - k
  {
    if k < |queue| { NoRoomNoChange(active, queue, k + 1); }
  }

  function Take(tasks: seq<Lease>, n: nat): seq<Lease> {
    if |tasks| <= n then tasks else tasks[..n]
  }

  lemma EligibleIsFree(active: seq<Lease>, queue: seq<Lease>, k: nat)
    requires k < |queue|
    ensures Blocked(queue[k], Elements(active) + Elements(queue[..k])) <==> !Eligible(active, queue, k)
  {
    assert forall task :: task in Elements(active) + Elements(queue[..k]) <==> task in active + queue[..k];
  }

  // What stands in front of the k-th queued task.
  function InFront(active: seq<Lease>, queue: seq<Lease>, k: nat): set<Lease>
    requires k <= |queue|
  {
    Elements(active) + Elements(queue[..k])
  }

  lemma InFrontGrows(active: seq<Lease>, queue: seq<Lease>, k: nat)
    requires k < |queue|
    ensures queue[k..] != [] && queue[k..][0] == queue[k] && queue[k..][1..] == queue[k + 1..]
    ensures InFront(active, queue, k) + {queue[k]} == InFront(active, queue, k + 1)
    ensures Blocked(queue[k], InFront(active, queue, k)) <==> !Eligible(active, queue, k)
  {
    assert queue[..k + 1] == queue[..k] + [queue[k]];
    EligibleIsFree(active, queue, k);
  }

  lemma {:induction false} StartedFrom(active: seq<Lease>, queue: seq<Lease>, k: nat, room: nat)
    requires k <= |queue|
    ensures Started(InFront(active, queue, k), queue[k..], room) == Take(EligibleFrom(active, queue, k), room)
    decreases |queue| - k
  {
    hide Blocked, Eligible, InFront;
    if room > 0 && k < |queue| {
      InFrontGrows(active, queue, k);
      StartedFrom(active, queue, k + 1, if Eligible(active, queue, k) then room - 1 else room);
    }
  }

  lemma {:induction false} WaitingFrom(active: seq<Lease>, queue: seq<Lease>, k: nat, room: nat)
    requires k <= |queue|
    ensures Waiting(InFront(active, queue, k), queue[k..], room) == RestFrom(active, queue, k, room)
    decreases |queue| - k
  {
    hide Blocked, Eligible, InFront;
    if room == 0 {
      NoRoomNoChange(active, queue, k);
    } else if k < |queue| {
      InFrontGrows(active, queue, k);
      WaitingFrom(active, queue, k + 1, if Eligible(active, queue, k) then room - 1 else room);
    }
  }

  /** Draining starts exactly the first eligible tasks, as many as there are free slots, in
      queue order, and leaves the others waiting in theirs. */
  lemma DrainedClosedForm(s: Slots, capacity: nat)
    ensures Drained(s, capacity).active
            == s.active + Take(EligibleFrom(s.active, s.queue, 0), Room(s.active, capacity))
    ensures Drained(s, capacity).queue == RestFrom(s.active, s.queue, 0, Room(s.active, capacity))
  {
    StartedFrom(s.active, s.queue, 0, Room(s.active, capacity));
    WaitingFrom(s.active, s.queue, 0, Room(s.active, capacity));
    assert s.queue[0..] == s.queue;
    assert Elements(s.active) + Elements(s.queue[..0]) == Elements(s.active);
  }

  // ---------------------------------------------------------------- operations

  // How many of the tasks carry the id.
  function Count(tasks: seq<Lease>, id: string): nat {
    if tasks == [] then 0 else (if tasks[0].id == id then 1 else 0) + Count(tasks[1..], id)
  }

  predicate HasId(tasks: seq<Lease>, id: string) {
    exists k | 0 <= k < |tasks| :: tasks[k].id == id
  }

  function Without(tasks: seq<Lease>, id: string): seq<Lease> {
    if tasks == [] then []
    else if tasks[0].id == id then tasks[1..]
    else [tasks[0]] + Without(tasks[1..], id)
  }

  datatype Enqueued = DidStart | DidQueue | AlreadyScheduled | QueueFull

  datatype Action =
    | Enqueue(task: Lease)
    | Cancel(id: string)
    | Release(id: string)
    | StartFailure(id: string)

  // What an enqueue answers, given the state before it.
  function EnqueueAnswer(s: Slots, capacity: nat, task: Lease): Enqueued {
    if HasId(s.active, task.id) || HasId(s.queue, task.id) then AlreadyScheduled
    else if |s.queue| >= MAX_QUEUED_RUNTIMES then QueueFull
    else if HasId(Drained(Slots(s.active, s.queue + [task]), capacity).active, task.id) then DidStart
    else DidQueue
  }

  function Apply(s: Slots, capacity: nat, action: Action): Slots {
    match action
    case Enqueue(task) =>
      var answer := EnqueueAnswer(s, capacity, task);
      if answer.AlreadyScheduled? || answer.QueueFull? then s
      else Drained(Slots(s.active, s.queue + [task]), capacity)
    case Cancel(id) =>
      if HasId(s.queue, id) then Drained(Slots(s.active, Without(s.queue, id)), capacity) else s
    case Release(id) =>
      if HasId(s.active, id) then Drained(Slots(Without(s.active, id), s.queue), capacity) else s
    case StartFailure(id) =>
      if HasId(s.active, id) then Drained(Slots(Without(s.active, id), s.queue), capacity) else s
  }

  // ---------------------------------------------------------------- the invariant

  ghost predicate Compatible(active: seq<Lease>) {
    forall i, j | 0 <= i < j < |active| :: !LeasesConflict(active[i], active[j])
  }

  ghost predicate UniqueIds(s: Slots) {
    forall id :: Count(s.active, id) + Count(s.queue, id) <= 1
  }

  // No queued task could be started: the slots are full, or it conflicts with an active task or
  // with a task queued before it.
  ghost predicate Saturated(s: Slots, capacity: nat) {
    forall k | 0 <= k < |s.queue| ::
      || |s.active| >= capacity
      || Blocked(s.queue[k], Elements(s.active) + Elements(s.queue[..k]))
  }

  ghost predicate Bounded(s: Slots, capacity: nat) {
    && |s.active| <= capacity
    && |s.queue| <= MAX_QUEUED_RUNTIMES
    && Compatible(s.active)
    && UniqueIds(s)
  }

  ghost predicate Inv(s: Slots, capacity: nat) {
    Bounded(s, capacity) && Saturated(s, capacity)
  }

  lemma {:induction false} CountSplit(left: seq<Lease>, right: seq<Lease>, id: string)
    ensures Count(left + right, id) == Count(left, id) + Count(right, id)
  {
    if left == [] {
      assert left + right == right;
    } else {
      CountSplit(left[1..], right, id);
      assert (left + right)[1..] == left[1..] + right;
    }
  }

  lemma {:induction false} CountHas(tasks: seq<Lease>, id: string)
    ensures HasId(tasks, id) <==> Count(tasks, id) > 0
  {
    if tasks != [] {
      CountHas(tasks[1..], id);
      if HasId(tasks, id) && tasks[0].id != id {
        var k :| 0 <= k < |tasks| && tasks[k].id == id;
        assert tasks[1..][k - 1].id == id;
      } else if HasId(tasks[1..], id) {
        var k :| 0 <= k < |tasks[1..]| && tasks[1..][k].id == id;
        assert tasks[k + 1].id == id;
      }
    }
  }

  lemma {:induction false} WithoutKeepsOrder(tasks: seq<Lease>, id: string) returns (cut: nat)
    requires HasId(tasks, id)
    ensures cut < |tasks| && tasks[cut].id == id
    ensures Without(tasks, id) == tasks[..cut] + tasks[cut + 1..]
  {
    if tasks[0].id == id {
      cut := 0;
    } else {
      var k :| 0 <= k < |tasks| && tasks[k].id == id;
      assert tasks[1..][k - 1].id == id;
      var c := WithoutKeepsOrder(tasks[1..], id);
      cut := c + 1;
      hide Without;
      assert Without(tasks, id) == [tasks[0]] + Without(tasks[1..], id);
      assert tasks[..c + 1] == [tasks[0]] + tasks[1..][..c];
      assert tasks[c + 2..] == tasks[1..][c + 1..];
    }
  }

  lemma WithoutCount(tasks: seq<Lease>, id: string, other: string)
    requires HasId(tasks, id)
    ensures |Without(tasks, id)| == |tasks| - 1
    ensures Count(Without(tasks, id), other) == Count(tasks, other) - if other == id then 1 else 0
  {
    var cut := WithoutKeepsOrder(tasks, id);
    CountSplit(tasks[..cut], tasks[cut + 1..], other);
    CountSplit(tasks[..cut], tasks[cut..], other);
    assert tasks == tasks[..cut] + tasks[cut..];
    assert tasks[cut..][1..] == tasks[cut + 1..];
  }

  lemma {:induction false} StartedCount(obstacles: set<Lease>, queue: seq<Lease>, room: nat, id: string)
    ensures Count(Started(obstacles, queue, room), id) + Count(Waiting(obstacles, queue, room), id) == Count(queue, id)
    decreases queue
  {
    if queue != [] && room > 0 {
      if Blocked(queue[0], obstacles) {
        StartedCount(obstacles + {queue[0]}, queue[1..], room, id);
      } else {
        StartedCount(obstacles + {queue[0]}, queue[1..], room - 1, id);
      }
    }
  }

  lemma {:induction false} StartedCompatible(active: seq<Lease>, obstacles: set<Lease>, queue: seq<Lease>, room: nat)
    requires Compatible(active) && Elements(active) <= obstacles
    ensures Compatible(active + Started(obstacles, queue, room))
    decreases queue
  {
    if queue == [] || room == 0 {
      assert active + Started(obstacles, queue, room) == active;
    } else if Blocked(queue[0], obstacles) {
      StartedCompatible(active, obstacles + {queue[0]}, queue[1..], room);
    } else {
      CompatibleMore(active, obstacles, queue[0]);
      hide Compatible, Blocked;
      assert Elements(active + [queue[0]]) == Elements(active) + {queue[0]};
      StartedCompatible(active + [queue[0]], obstacles + {queue[0]}, queue[1..], room - 1);
      assert active + [queue[0]] + Started(obstacles + {queue[0]}, queue[1..], room - 1)
          == active + Started(obstacles, queue, room);
    }
  }

  lemma CompatibleMore(active: seq<Lease>, obstacles: set<Lease>, task: Lease)
    requires Compatible(active) && Elements(active) <= obstacles && !Blocked(task, obstacles)
    ensures Compatible(active + [task])
  {
    assert forall k | 0 <= k < |active| :: active[k] in Elements(active);
  }

  lemma BlockedByMore(task: Lease, few: set<Lease>, many: set<Lease>)
    requires few <= many && Blocked(task, few)
    ensures Blocked(task, many)
  {
  }

  // A task left waiting was blocked by something that is still in front of it.
  lemma {:induction false} WaitingBlocked(obstacles: set<Lease>, queue: seq<Lease>, room: nat, k: nat)
    requires k < |Waiting(obstacles, queue, room)| && |Started(obstacles, queue, room)| < room
    ensures Blocked(Waiting(obstacles, queue, room)[k],
                    obstacles + Elements(Started(obstacles, queue, room)) + Elements(Waiting(obstacles, queue, room)[..k]))
    decreases queue
  {
    hide Blocked;
    var started, waiting := Started(obstacles, queue, room), Waiting(obstacles, queue, room);
    var front := obstacles + Elements(started) + Elements(waiting[..k]);
    var obstacles' := obstacles + {queue[0]};
    if Blocked(queue[0], obstacles) {
      if k == 0 {
        BlockedByMore(queue[0], obstacles, front);
      } else {
        WaitingBlocked(obstacles', queue[1..], room, k - 1);
        var rest := Waiting(obstacles', queue[1..], room);
        assert waiting[..k] == [queue[0]] + rest[..k - 1];
        BlockedByMore(waiting[k], obstacles' + Elements(started) + Elements(rest[..k - 1]), front);
      }
    } else {
      WaitingBlocked(obstacles', queue[1..], room - 1, k);
      var rest := Started(obstacles', queue[1..], room - 1);
      assert started == [queue[0]] + rest;
      BlockedByMore(waiting[k], obstacles' + Elements(rest) + Elements(waiting[..k]), front);
    }
  }

  lemma DrainedSaturated(s: Slots, capacity: nat)
    ensures Saturated(Drained(s, capacity), capacity)
  {
    var room, obstacles := Room(s.active, capacity), Elements(s.active);
    var started, waiting := Started(obstacles, s.queue, room), Waiting(obstacles, s.queue, room);
    forall k | 0 <= k < |waiting| && |s.active + started| < capacity
      ensures Blocked(waiting[k], Elements(s.active + started) + Elements(waiting[..k]))
    {
      WaitingBlocked(obstacles, s.queue, room, k);
      assert obstacles + Elements(started) == Elements(s.active + started);
    }
  }

  lemma DrainedUnique(s: Slots, capacity: nat)
    requires UniqueIds(s)
    ensures UniqueIds(Drained(s, capacity))
  {
    var room, obstacles := Room(s.active, capacity), Elements(s.active);
    forall id ensures Count(Drained(s, capacity).active, id) + Count(Drained(s, capacity).queue, id) <= 1 {
      assert Count(s.active, id) + Count(s.queue, id) <= 1;
      CountSplit(s.active, Started(obstacles, s.queue, room), id);
      StartedCount(obstacles, s.queue, room, id);
    }
  }

  /** Draining a bounded state makes it saturated and keeps every bound. */
  lemma DrainedInv(s: Slots, capacity: nat)
    requires |s.active| <= capacity && Compatible(s.active) && UniqueIds(s)
    requires |s.queue| <= MAX_QUEUED_RUNTIMES
    ensures Inv(Drained(s, capacity), capacity)
  {
    DrainedSaturated(s, capacity);
    DrainedUnique(s, capacity);
    StartedCompatible(s.active, Elements(s.active), s.queue, Room(s.active, capacity));
  }

  lemma WithoutUnique(s: Slots, id: string)
    requires UniqueIds(s)
    ensures HasId(s.active, id) ==> UniqueIds(Slots(Without(s.active, id), s.queue))
    ensures HasId(s.queue, id) ==> UniqueIds(Slots(s.active, Without(s.queue, id)))
  {
    forall other
      ensures HasId(s.active, id) ==> Count(Without(s.active, id), other) <= Count(s.active, other)
      ensures HasId(s.queue, id) ==> Count(Without(s.queue, id), other) <= Count(s.queue, other)
      ensures Count(s.active, other) + Count(s.queue, other) <= 1
    {
      if HasId(s.active, id) { WithoutCount(s.active, id, other); }
      if HasId(s.queue, id) { WithoutCount(s.queue, id, other); }
    }
  }

  lemma ReleasedInv(s: Slots, capacity: nat, id: string)
    requires Inv(s, capacity) && HasId(s.active, id)
    ensures Inv(Drained(Slots(Without(s.active, id), s.queue), capacity), capacity)
  {
    WithoutUnique(s, id);
    var cut := WithoutKeepsOrder(s.active, id);
    DrainedInv(Slots(Without(s.active, id), s.queue), capacity);
  }

  lemma CancelledInv(s: Slots, capacity: nat, id: string)
    requires Inv(s, capacity) && HasId(s.queue, id)
    ensures Inv(Drained(Slots(s.active, Without(s.queue, id)), capacity), capacity)
  {
    WithoutUnique(s, id);
    var cut := WithoutKeepsOrder(s.queue, id);
    DrainedInv(Slots(s.active, Without(s.queue, id)), capacity);
  }

  lemma EnqueuedInv(s: Slots, capacity: nat, task: Lease)
    requires Inv(s, capacity) && !HasId(s.active, task.id) && !HasId(s.queue, task.id)
    requires |s.queue| < MAX_QUEUED_RUNTIMES
    ensures Inv(Drained(Slots(s.active, s.queue + [task]), capacity), capacity)
  {
    forall id ensures Count(s.active, id) + Count(s.queue + [task], id) <= 1 {
      assert Count(s.active, id) + Count(s.queue, id) <= 1;
      CountSplit(s.queue, [task], id);
      CountHas(s.active, task.id);
      CountHas(s.queue, task.id);
    }
    DrainedInv(Slots(s.active, s.queue + [task]), capacity);
  }

  /** Every operation keeps the invariant. */
  lemma ApplyKeepsInv(s: Slots, capacity: nat, action: Action)
    requires Inv(s, capacity)
    ensures Inv(Apply(s, capacity, action), capacity)
  {
    hide Inv, Drained;
    match action
    case Enqueue(task) =>
      var answer := EnqueueAnswer(s, capacity, task);
      if !answer.AlreadyScheduled? && !answer.QueueFull? { EnqueuedInv(s, capacity, task); }
    case Cancel(id) =>
      if HasId(s.queue, id) { CancelledInv(s, capacity, id); }
    case Release(id) =>
      if HasId(s.active, id) { ReleasedInv(s, capacity, id); }
    case StartFailure(id) =>
      if HasId(s.active, id) { ReleasedInv(s, capacity, id); }
  }

  // ---------------------------------------------------------------- nothing lost, nothing invented

  lemma {:induction false} StartedMultiset(obstacles: set<Lease>, queue: seq<Lease>, room: nat)
    ensures multiset(Started(obstacles, queue, room)) + multiset(Waiting(obstacles, queue, room)) == multiset(queue)
    decreases queue
  {
    if queue != [] && room > 0 {
      assert queue == [queue[0]] + queue[1..];
      StartedMultiset(obstacles + {queue[0]}, queue[1..], if Blocked(queue[0], obstacles) then room else room - 1);
    }
  }

  function Tasks(s: Slots): multiset<Lease> {
    multiset(s.active) + multiset(s.queue)
  }

  lemma DrainedTasks(s: Slots, capacity: nat)
    ensures Tasks(Drained(s, capacity)) == Tasks(s) && s.active <= Drained(s, capacity).active
  {
    StartedMultiset(Elements(s.active), s.queue, Room(s.active, capacity));
  }

  lemma {:induction false} WithoutTask(tasks: seq<Lease>, id: string) returns (task: Lease)
    requires HasId(tasks, id)
    ensures task in tasks && task.id == id && multiset(Without(tasks, id)) + multiset{task} == multiset(tasks)
  {
    assert tasks == [tasks[0]] + tasks[1..];
    if tasks[0].id == id {
      task := tasks[0];
    } else {
      assert HasId(tasks[1..], id) by { var k :| 0 <= k < |tasks| && tasks[k].id == id; assert tasks[1..][k - 1].id == id; }
      task := WithoutTask(tasks[1..], id);
    }
  }

  /** What each operation does to the tasks there are: an enqueued task is added unless its
      identifier is known or 32 tasks wait, a cancelled one was waiting, a released or failed one was
      active, and nothing else comes or goes. Running tasks keep running. */
  lemma ApplyExact(s: Slots, capacity: nat, action: Action)
    ensures var s' := Apply(s, capacity, action);
            match action
            case Enqueue(task) =>
              if (exists other :: other in s.active + s.queue && other.id == task.id) || |s.queue| >= 32 then s' == s
              else Tasks(s') == Tasks(s) + multiset{task} && s.active <= s'.active
            case Cancel(id) =>
              if exists task :: task in s.queue && task.id == id
              then s.active <= s'.active && exists task :: task in s.queue && task.id == id && Tasks(s') + multiset{task} == Tasks(s)
              else s' == s
            case Release(id) => ReleasesOne(s, s', id)
            case StartFailure(id) => ReleasesOne(s, s', id)
  {
    hide Drained, Without, HasId, Apply;
    match action
    case Enqueue(task) => EnqueueOne(s, capacity, task);
    case Cancel(id) => CancelOne(s, capacity, id);
    case Release(id) => ReleaseOne(s, capacity, id);
    case StartFailure(id) =>
      ReleaseOne(s, capacity, id);
      assert Apply(s, capacity, StartFailure(id)) == Apply(s, capacity, Release(id)) by { FailureIsRelease(s, capacity, id); }
  }

  lemma FailureIsRelease(s: Slots, capacity: nat, id: string)
    ensures Apply(s, capacity, StartFailure(id)) == Apply(s, capacity, Release(id))
  {
  }

  lemma EnqueueOne(s: Slots, capacity: nat, task: Lease)
    ensures var s' := Apply(s, capacity, Enqueue(task));
            if (exists other :: other in s.active + s.queue && other.id == task.id) || |s.queue| >= 32 then s' == s
            else Tasks(s') == Tasks(s) + multiset{task} && s.active <= s'.active
  {
    hide Drained;
    HasIdIn(s.active, task.id);
    HasIdIn(s.queue, task.id);
    DrainedTasks(Slots(s.active, s.queue + [task]), capacity);
    hide HasId;
  }

  lemma CancelOne(s: Slots, capacity: nat, id: string)
    ensures var s' := Apply(s, capacity, Cancel(id));
            if exists task :: task in s.queue && task.id == id
            then s.active <= s'.active && exists task :: task in s.queue && task.id == id && Tasks(s') + multiset{task} == Tasks(s)
            else s' == s
  {
    hide Drained, Without;
    HasIdIn(s.queue, id);
    if HasId(s.queue, id) {
      var task := WithoutTask(s.queue, id);
      DrainedTasks(Slots(s.active, Without(s.queue, id)), capacity);
    }
  }

  lemma HasIdIn(tasks: seq<Lease>, id: string)
    ensures HasId(tasks, id) <==> exists task :: task in tasks && task.id == id
  {
  }

  ghost predicate ReleasesOne(s: Slots, s': Slots, id: string) {
    if exists task :: task in s.active && task.id == id
    then exists task :: task in s.active && task.id == id && Tasks(s') + multiset{task} == Tasks(s)
    else s' == s
  }

  lemma ReleaseOne(s: Slots, capacity: nat, id: string)
    ensures ReleasesOne(s, Apply(s, capacity, Release(id)), id)
  {
    hide Drained, Without;
    HasIdIn(s.active, id);
    if HasId(s.active, id) {
      var task := WithoutTask(s.active, id);
      DrainedTasks(Slots(Without(s.active, id), s.queue), capacity);
    }
  }

  // ---------------------------------------------------------------- runs

  ghost predicate IsRun(states: seq<Slots>, actions: seq<Action>, capacity: nat) {
    && |states| == |actions| + 1
    && states[0] == Slots([], [])
    && forall i | 0 <= i < |actions| :: states[i + 1] == Apply(states[i], capacity, actions[i])
  }

  lemma NothingActive(s: Slots, capacity: nat)
    requires Inv(s, capacity) && capacity > 0 && s.active == []
    ensures s.queue == []
  {
    assert s.queue != [] ==> !Blocked(s.queue[0], Elements(s.active) + Elements(s.queue[..0]));
  }

  /** In every state of every run the bounds hold and nothing startable is left waiting; in
      particular nothing waits while nothing is active. */
  lemma {:induction false} RunKeepsInv(states: seq<Slots>, actions: seq<Action>, capacity: nat, n: nat)
    requires IsRun(states, actions, capacity) && n < |states| && capacity > 0
    ensures Inv(states[n], capacity)
    ensures states[n].active == [] ==> states[n].queue == []
  {
    if n > 0 {
      RunKeepsInv(states, actions, capacity, n - 1);
      ApplyKeepsInv(states[n - 1], capacity, actions[n - 1]);
    }
    if states[n].active == [] { NothingActive(states[n], capacity); }
  }

  // A running or earlier waiting task has its workspace or its Git directory in common with the
  // waiting one, and one of the two writes.
  ghost predicate HasObstacle(s: Slots, k: nat)
    requires k < |s.queue|
  {
    var task := s.queue[k];
    exists other | other in s.active + s.queue[..k] ::
      && (other.workspace == task.workspace || (other.gitCommonDirectory.Some? && other.gitCommonDirectory == task.gitCommonDirectory))
      && (other.mode == Write || task.mode == Write)
  }

  /** In every state of every run: no more tasks run than there are slots and no more than 32 wait;
      two running tasks of one workspace, or of one Git directory, both read; and a task that waits
      beside a free slot has its workspace or its Git directory in common with a running or earlier
      waiting one, and one of the two writes. */
  lemma RunRespectsLeases(states: seq<Slots>, actions: seq<Action>, capacity: nat, n: nat)
    requires IsRun(states, actions, capacity) && n < |states| && capacity > 0
    ensures |states[n].active| <= capacity && |states[n].queue| <= 32
    ensures forall i, j | 0 <= i < j < |states[n].active| ::
              var left, right := states[n].active[i], states[n].active[j];
              left.workspace == right.workspace || (left.gitCommonDirectory.Some? && left.gitCommonDirectory == right.gitCommonDirectory)
              ==> left.mode == Read && right.mode == Read
    ensures |states[n].active| < capacity ==> forall k | 0 <= k < |states[n].queue| :: HasObstacle(states[n], k)
  {
    RunKeepsInv(states, actions, capacity, n);
    var s := states[n];
    forall i, j | 0 <= i < j < |s.active|
      ensures var left, right := s.active[i], s.active[j];
              left.workspace == right.workspace || (left.gitCommonDirectory.Some? && left.gitCommonDirectory == right.gitCommonDirectory)
              ==> left.mode == Read && right.mode == Read
    {
      assert !LeasesConflict(s.active[i], s.active[j]);
    }
    forall k | 0 <= k < |s.queue| && |s.active| < capacity { WaitsForSharer(s, capacity, k); }
  }

  lemma WaitsForSharer(s: Slots, capacity: nat, k: nat)
    requires Inv(s, capacity) && |s.active| < capacity && k < |s.queue|
    ensures HasObstacle(s, k)
  {
    EligibleIsFree(s.active, s.queue, k);
    var other :| other in s.active + s.queue[..k] && LeasesConflict(other, s.queue[k]);
  }

  ghost predicate Precedes(queue: seq<Lease>, x: Lease, y: Lease) {
    forall p, q | 0 <= p < |queue| && 0 <= q < |queue| && queue[p] == x && queue[q] == y :: p < q
  }

  // y has not started, and stands in the queue only behind x.
  ghost predicate Behind(s: Slots, x: Lease, y: Lease) {
    y !in s.active && Precedes(s.queue, x, y)
  }

  lemma {:induction false} WaitingComesFromQueue(obstacles: set<Lease>, queue: seq<Lease>, room: nat)
    ensures forall k | 0 <= k < |Waiting(obstacles, queue, room)| :: Waiting(obstacles, queue, room)[k] in queue
    decreases queue
  {
    if queue != [] && room > 0 {
      WaitingComesFromQueue(obstacles + {queue[0]}, queue[1..], if Blocked(queue[0], obstacles) then room else room - 1);
    }
  }

  lemma PrecedesInTail(queue: seq<Lease>, x: Lease, y: Lease)
    requires queue != [] && Precedes(queue, x, y) && x != y
    ensures Precedes(queue[1..], x, y)
    ensures queue[0] == y ==> x !in queue[1..]
  {
    assert forall p | 0 <= p < |queue[1..]| :: queue[1..][p] == queue[p + 1];
  }

  lemma PrecedesWithHead(head: Lease, rest: seq<Lease>, x: Lease, y: Lease)
    requires Precedes(rest, x, y) && x != y && (head == y ==> x !in rest)
    ensures Precedes([head] + rest, x, y)
  {
    var queue := [head] + rest;
    forall p, q | 0 <= p < |queue| && 0 <= q < |queue| && queue[p] == x && queue[q] == y ensures p < q {
      if p > 0 && q > 0 { assert rest[p - 1] == x && rest[q - 1] == y; }
    }
  }

  lemma {:induction false} DrainingKeepsBehind(obstacles: set<Lease>, queue: seq<Lease>, room: nat, x: Lease, y: Lease)
    requires LeasesConflict(x, y) && x != y && Precedes(queue, x, y)
    requires x in obstacles || x in queue
    ensures y !in Started(obstacles, queue, room)
    ensures Precedes(Waiting(obstacles, queue, room), x, y)
    decreases queue
  {
    if queue != [] && room > 0 {
      hide Precedes;
      var room' := if Blocked(queue[0], obstacles) then room else room - 1;
      PrecedesInTail(queue, x, y);
      DrainingKeepsBehind(obstacles + {queue[0]}, queue[1..], room', x, y);
      assert queue[0] == y ==> Blocked(y, obstacles);
      var rest := Waiting(obstacles + {queue[0]}, queue[1..], room');
      WaitingComesFromQueue(obstacles + {queue[0]}, queue[1..], room');
      assert x in rest ==> x in queue[1..];
      PrecedesWithHead(queue[0], rest, x, y);
    }
  }

  lemma DrainedKeepsBehind(s: Slots, capacity: nat, x: Lease, y: Lease)
    requires LeasesConflict(x, y) && x != y && Behind(s, x, y) && x in Drained(s, capacity).queue
    ensures Behind(Drained(s, capacity), x, y)
  {
    WaitingComesFromQueue(Elements(s.active), s.queue, Room(s.active, capacity));
    DrainingKeepsBehind(Elements(s.active), s.queue, Room(s.active, capacity), x, y);
  }

  lemma WithoutKeepsBehind(s: Slots, id: string, x: Lease, y: Lease)
    requires Behind(s, x, y)
    ensures HasId(s.queue, id) ==> Behind(Slots(s.active, Without(s.queue, id)), x, y)
    ensures HasId(s.active, id) ==> Behind(Slots(Without(s.active, id), s.queue), x, y)
  {
    hide HasId, Without;
    if HasId(s.queue, id) {
      var cut := WithoutKeepsOrder(s.queue, id);
      CutKeepsPrecedes(s.queue, cut, x, y);
      hide Precedes;
    }
    if HasId(s.active, id) {
      var cut := WithoutKeepsOrder(s.active, id);
      assert y !in s.active[..cut] && y !in s.active[cut + 1..];
      hide Precedes;
    }
  }

  lemma CutKeepsPrecedes(queue: seq<Lease>, cut: nat, x: Lease, y: Lease)
    requires cut < |queue| && Precedes(queue, x, y)
    ensures Precedes(queue[..cut] + queue[cut + 1..], x, y)
  {
    var shorter := queue[..cut] + queue[cut + 1..];
    forall p, q | 0 <= p < |shorter| && 0 <= q < |shorter| && shorter[p] == x && shorter[q] == y ensures p < q {
      assert shorter[p] == queue[if p < cut then p else p + 1];
      assert shorter[q] == queue[if q < cut then q else q + 1];
    }
  }

  lemma ArrivalKeepsBehind(s: Slots, task: Lease, x: Lease, y: Lease)
    requires Behind(s, x, y) && x in s.queue && !HasId(s.queue, task.id)
    ensures Behind(Slots(s.active, s.queue + [task]), x, y)
  {
    var k :| 0 <= k < |s.queue| && s.queue[k] == x;
    assert task != x;
  }

  lemma ApplyKeepsBehind(s: Slots, capacity: nat, action: Action, x: Lease, y: Lease)
    requires LeasesConflict(x, y) && x != y
    requires Behind(s, x, y) && x in s.queue && x in Apply(s, capacity, action).queue
    ensures Behind(Apply(s, capacity, action), x, y)
  {
    hide Behind, Drained, LeasesConflict, HasId;
    match action
    case Enqueue(task) =>
      var answer := EnqueueAnswer(s, capacity, task);
      if !answer.AlreadyScheduled? && !answer.QueueFull? {
        ArrivalKeepsBehind(s, task, x, y);
        DrainedKeepsBehind(Slots(s.active, s.queue + [task]), capacity, x, y);
      }
    case Cancel(id) =>
      if HasId(s.queue, id) {
        WithoutKeepsBehind(s, id, x, y);
        DrainedKeepsBehind(Slots(s.active, Without(s.queue, id)), capacity, x, y);
      }
    case Release(id) =>
      if HasId(s.active, id) {
        WithoutKeepsBehind(s, id, x, y);
        DrainedKeepsBehind(Slots(Without(s.active, id), s.queue), capacity, x, y);
      }
    case StartFailure(id) =>
      if HasId(s.active, id) {
        WithoutKeepsBehind(s, id, x, y);
        DrainedKeepsBehind(Slots(Without(s.active, id), s.queue), capacity, x, y);
      }
  }

  // x is enqueued at step i and is neither started nor cancelled up to state n.
  ghost predicate WaitsFrom(states: seq<Slots>, actions: seq<Action>, x: Lease, i: nat, n: nat) {
    && |states| == |actions| + 1 && i < |actions| && n < |states|
    && actions[i] == Enqueue(x)
    && forall m | i < m <= n :: x in states[m].queue
  }

  /** Conflicting tasks start in the order they were enqueued: a task enqueued while a
      conflicting earlier one is still waiting does not start before that one has left the
      queue. */
  lemma {:induction false} NoOvertaking(states: seq<Slots>, actions: seq<Action>, capacity: nat, x: Lease, i: nat, y: Lease, j: nat, n: nat)
    requires IsRun(states, actions, capacity)
    requires WaitsFrom(states, actions, x, i, n) && i < j < n
    requires actions[j] == Enqueue(y) && y !in states[j].active && y !in states[j].queue
    requires x.workspace == y.workspace || (x.gitCommonDirectory.Some? && x.gitCommonDirectory == y.gitCommonDirectory)
    requires x.mode == Write || y.mode == Write
    ensures Behind(states[n], x, y)
  {
    assert states[n] == Apply(states[n - 1], capacity, actions[n - 1]);
    assert x in states[n].queue && x in states[j].queue && x in states[n - 1].queue;
    if j == n - 1 {
      ApplyKeepsBehind(states[j], capacity, actions[j], x, y);
    } else {
      NoOvertaking(states, actions, capacity, x, i, y, j, n - 1);
      ApplyKeepsBehind(states[n - 1], capacity, actions[n - 1], x, y);
    }
  }

  // ---------------------------------------------------------------- progress

  function Scheduled(s: Slots): nat {
    |s.active| + |s.queue|
  }

  // Releasing active tasks one after the other.
  ghost predicate IsReleaseRun(states: seq<Slots>, released: seq<Lease>, capacity: nat) {
    && |states| == |released| + 1
    && forall i | 0 <= i < |released| ::
         released[i] in states[i].active && states[i + 1] == Apply(states[i], capacity, Release(released[i].id))
  }

  lemma ReleaseCounts(s: Slots, capacity: nat, task: Lease)
    requires task in s.active
    ensures Scheduled(Apply(s, capacity, Release(task.id))) == Scheduled(s) - 1
  {
    var k :| 0 <= k < |s.active| && s.active[k] == task;
    WithoutCount(s.active, task.id, task.id);
  }

  /** No task is stranded: as long as running tasks get released, every waiting task gets its
      turn after as many releases as there are scheduled tasks. */
  lemma {:induction false} EveryTaskGetsATurn(states: seq<Slots>, released: seq<Lease>, capacity: nat)
    requires IsReleaseRun(states, released, capacity) && Inv(states[0], capacity) && capacity > 0
    ensures Inv(states[|released|], capacity)
    ensures Scheduled(states[|released|]) == Scheduled(states[0]) - |released|
    ensures states[|released|].active == [] <==> |released| == Scheduled(states[0])
  {
    var n := |released|;
    if n > 0 {
      EveryTaskGetsATurn(states[..n], released[..n - 1], capacity);
      assert states[n] == Apply(states[n - 1], capacity, Release(released[n - 1].id));
      ReleaseCounts(states[n - 1], capacity, released[n - 1]);
      ApplyKeepsInv(states[n - 1], capacity, Release(released[n - 1].id));
    }
    if states[n].active == [] { NothingActive(states[n], capacity); }
  }
}
