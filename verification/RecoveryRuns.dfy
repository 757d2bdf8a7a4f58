/**
 Runs of deletes, moves and restores (structured-files.ts), with failures of the file system in any
 place: the limits of the recovery vault, and how long what was deleted can be restored.
 */
module RecoveryRuns {
  import opened Common
  import opened FileTree
  import opened RecoverySpec

  // ---------------------------------------------------------------- runs

  // What can happen to a workspace: operations and restores with or without file system failures,
  // any change outside the vault, and the removal of an entry of the vault.
  datatype Step =
    | Operate(request: Request, fault: Option<Fault>)
    | Recover(manifest: RestoreManifest, problem: Option<RestoreFault>)
    | Elsewhere(outside: Node)
    | Discard(id: string)

  ghost predicate Possible(w: Workspace, step: Step, recordSize: nat) {
    match step
    case Operate(request, fault) => request.path != [] && request.size <= recordSize && PossibleFault(request, fault)
    case Recover(m, problem) => Genuine(m) && PossibleRestoreFault(w, m, problem)
    case _ => true
  }

  ghost function Next(w: Workspace, step: Step, recordSize: nat): Workspace
    requires Possible(w, step, recordSize)
  {
    match step
    case Operate(request, fault) => Execute(w, request, fault).0
    case Recover(m, problem) => Restore(w, m, problem).0
    case Elsewhere(outside) => Workspace(outside, w.vault)
    case Discard(id) => Workspace(w.outside, w.vault - {id})
  }

  ghost predicate Run(w: Workspace, steps: seq<Step>, end: Workspace, recordSize: nat)
    decreases |steps|
  {
    if steps == [] then w == end
    else Possible(w, steps[0], recordSize) && Run(Next(w, steps[0], recordSize), steps[1..], end, recordSize)
  }

  // Admission counts the directories of a source but not the size of the record.
  ghost predicate Bounded(w: Workspace, recordSize: nat) {
    && Total(Dir(w.vault), Files) <= MAX_RECOVERY_ENTRIES
    && Total(Dir(w.vault), Bytes) <= MAX_RECOVERY_BYTES + recordSize
  }

  lemma KeptTotal(request: Request, measure: Measure)
    requires request.path != [] && measure != Entries
    ensures Total(Kept(request), measure)
         == Total(request.expected, measure) + if Base(request.path) == RECORD then 0 else Total(RecordOf(request), measure)
  {
    hide Total, TotalOf;
    var none: map<string, Node> := map[];
    var record := none[RECORD := RecordOf(request)];
    TotalEmpty(measure);
    TotalPut(none, RECORD, RecordOf(request), measure);
    assert none - {RECORD} == none && record == map[RECORD := RecordOf(request)];
    TotalPut(record, Base(request.path), request.expected, measure);
    assert record - {Base(request.path)} == if Base(request.path) == RECORD then none else record;
  }

  lemma NewEntryTotal(vault: map<string, Node>, id: string, entry: Node, measure: Measure)
    requires id !in vault
    ensures Total(Dir(vault[id := entry]), measure) == Total(Dir(vault), measure) + Total(entry, measure)
  {
    hide Total, TotalOf;
    TotalPut(vault, id, entry, measure);
    assert vault - {id} == vault;
  }

  // What a delete or a move adds to the vault: the payload and its record, unless the payload has
  // replaced it, or what a failed clean-up left.
  ghost function Added(w: Workspace, request: Request, fault: Option<Fault>, measure: Measure): nat
    requires request.path != []
  {
    if Refusal(w, request).Some? then 0
    else if fault.Some? then (match fault.value.left case None => 0 case Some(left) => Total(left, measure))
    else if !Feasible(w.outside, request) then 0
    else Total(request.expected, measure) + if Base(request.path) == RECORD then 0 else Total(RecordOf(request), measure)
  }

  /** Exactly what every delete and move adds to the vault, in files and in bytes. */
  lemma OperateAdds(w: Workspace, request: Request, fault: Option<Fault>, measure: Measure)
    requires request.path != [] && PossibleFault(request, fault) && measure != Entries
    ensures Total(Dir(Execute(w, request, fault).0.vault), measure) == Total(Dir(w.vault), measure) + Added(w, request, fault, measure)
  {
    hide Total, TotalOf, PartOf, Get, MakeDirs, CanMakeDirs, Drop, Put, Fits, TargetDiffers, Room;
    if Refusal(w, request).None? {
      NotRefused(w, request);
      assert w.vault - {request.id} == w.vault;
      if fault.Some? {
        if fault.value.left.Some? { NewEntryTotal(w.vault, request.id, fault.value.left.value, measure); }
      } else if Feasible(w.outside, request) {
        NewEntryTotal(w.vault, request.id, Kept(request), measure);
        KeptTotal(request, measure);
      }
    }
  }

  lemma WrittenTotal(request: Request, measure: Measure)
    requires request.path != [] && measure != Entries
    ensures Total(Written(request), measure) <= Total(RecordOf(request), measure) + Total(request.expected, measure)
  {
    hide Total, TotalOf;
    var none: map<string, Node> := map[];
    if request.destination.None? || Base(request.path) == RECORD {
      TotalEmpty(measure);
      TotalPut(none, RECORD, RecordOf(request), measure);
      assert none - {RECORD} == none && none[RECORD := RecordOf(request)] == map[RECORD := RecordOf(request)];
    } else {
      KeptTotal(request, measure);
      assert Written(request) == Kept(request);
    }
  }

  // An operation never adds more than its payload and its record.
  lemma AddedAtMost(w: Workspace, request: Request, fault: Option<Fault>, measure: Measure)
    requires request.path != [] && PossibleFault(request, fault) && measure != Entries
    ensures Added(w, request, fault, measure) <= Total(RecordOf(request), measure) + Total(request.expected, measure)
  {
    hide Total, TotalOf, PartOf, Refusal;
    if fault.Some? && fault.value.left.Some? {
      PartTotal(fault.value.left.value, Written(request), measure);
      WrittenTotal(request, measure);
    }
  }

  lemma LeftAfterRestore(w: Workspace, m: RestoreManifest, left: Node, measure: Measure)
    requires m.target != [] && m.id in w.vault && w.vault[m.id].Dir? && PartOf(left, Remaining(w, m))
    ensures Total(Dir(w.vault[m.id := left]), measure) <= Total(Dir(w.vault), measure)
  {
    hide Total, TotalOf, PartOf;
    PartTotal(left, Remaining(w, m), measure);
    TotalDropped(w.vault[m.id].children, Base(m.target), measure);
    TotalPut(w.vault, m.id, left, measure);
    TotalSplit(w.vault, m.id, measure);
  }

  lemma NextIsBounded(w: Workspace, step: Step, recordSize: nat)
    requires Bounded(w, recordSize) && Possible(w, step, recordSize)
    ensures Bounded(Next(w, step, recordSize), recordSize)
  {
    hide Total, TotalOf, PartOf, Get, MakeDirs, CanMakeDirs, Drop, Put, Fits, TargetDiffers, Protected;
    match step
    case Operate(request, fault) => OperateIsBounded(w, request, fault, recordSize);
    case Recover(m, problem) => RecoverIsBounded(w, m, problem, recordSize);
    case Elsewhere(_) =>
    case Discard(id) => TotalDropped(w.vault, id, Files); TotalDropped(w.vault, id, Bytes);
  }

  lemma OperateIsBounded(w: Workspace, request: Request, fault: Option<Fault>, recordSize: nat)
    requires Bounded(w, recordSize) && request.path != [] && request.size <= recordSize && PossibleFault(request, fault)
    ensures Bounded(Execute(w, request, fault).0, recordSize)
  {
    assert Total(RecordOf(request), Files) == 1 && Total(RecordOf(request), Bytes) == request.size;
    hide Total, TotalOf, PartOf, Execute, Refusal;
    OperateAdds(w, request, fault, Files);
    OperateAdds(w, request, fault, Bytes);
    if Refusal(w, request).None? {
      NotRefused(w, request);
      FilesAreEntries(request.expected);
      AddedAtMost(w, request, fault, Files);
      AddedAtMost(w, request, fault, Bytes);
    }
  }

  lemma RecoverIsBounded(w: Workspace, m: RestoreManifest, problem: Option<RestoreFault>, recordSize: nat)
    requires Bounded(w, recordSize) && Genuine(m) && PossibleRestoreFault(w, m, problem)
    ensures Bounded(Restore(w, m, problem).0, recordSize)
  {
    hide Total, TotalOf, PartOf, Get, MakeDirs, CanMakeDirs, Drop, Put, Fits, TargetDiffers, RestoreRefusal;
    TotalDropped(w.vault, m.id, Files);
    TotalDropped(w.vault, m.id, Bytes);
    if problem.Some? && problem.value.AfterRename? && problem.value.left.Some? {
      LeftAfterRestore(w, m, problem.value.left.value, Files);
      LeftAfterRestore(w, m, problem.value.left.value, Bytes);
    }
  }

  /** Over any run, whatever fails in it, the vault never holds more than 100 files, nor more bytes
      than its limit and one record. */
  lemma {:induction false} VaultStaysBounded(w: Workspace, steps: seq<Step>, end: Workspace, recordSize: nat)
    requires Bounded(w, recordSize) && Run(w, steps, end, recordSize)
    ensures Bounded(end, recordSize)
    decreases |steps|
  {
    hide Bounded, Next, Possible;
    if steps != [] {
      NextIsBounded(w, steps[0], recordSize);
      VaultStaysBounded(Next(w, steps[0], recordSize), steps[1..], end, recordSize);
    }
  }

  // ---------------------------------------------------------------- the byte limit, exactly

  ghost predicate WithinLimit(w: Workspace) {
    Total(Dir(w.vault), Bytes) <= MAX_RECOVERY_BYTES
  }

  /** After a successful delete or move the vault is within 50 MiB exactly when it had room for the
      payload and the record; admission looks at the payload only. */
  lemma WithinLimitExact(w: Workspace, request: Request)
    requires request.path != [] && Execute(w, request, None).1.None?
    ensures var after := Total(Dir(w.vault), Bytes) + Total(request.expected, Bytes) + if Base(request.path) == RECORD then 0 else request.size;
            && Total(Dir(Execute(w, request, None).0.vault), Bytes) == after
            && (WithinLimit(Execute(w, request, None).0) <==> after <= MAX_RECOVERY_BYTES)
  {
    assert Total(RecordOf(request), Bytes) == request.size;
    hide Total, TotalOf;
    EntryAfter(w, request);
    OperateAdds(w, request, None, Bytes);
  }

  // The step has room in the vault for all that it adds.
  ghost predicate StepFits(w: Workspace, step: Step)
    requires step.Operate? ==> step.request.path != []
  {
    step.Operate? ==> Total(Dir(w.vault), Bytes) + Added(w, step.request, step.fault, Bytes) <= MAX_RECOVERY_BYTES
  }

  lemma NextWithinExactly(w: Workspace, step: Step, recordSize: nat)
    requires WithinLimit(w) && Possible(w, step, recordSize)
    ensures WithinLimit(Next(w, step, recordSize)) <==> StepFits(w, step)
  {
    hide Total, TotalOf, PartOf, Get, MakeDirs, CanMakeDirs, Drop, Put, Fits, TargetDiffers, Protected, RestoreRefusal, Execute, Added;
    match step
    case Operate(request, fault) => OperateAdds(w, request, fault, Bytes);
    case Recover(m, problem) =>
      TotalDropped(w.vault, m.id, Bytes);
      if problem.Some? && problem.value.AfterRename? && problem.value.left.Some? {
        LeftAfterRestore(w, m, problem.value.left.value, Bytes);
      }
    case Elsewhere(_) =>
    case Discard(id) => TotalDropped(w.vault, id, Bytes);
  }

  // The vault is within its limit in every state of the run.
  ghost predicate AlwaysWithin(w: Workspace, steps: seq<Step>, end: Workspace, recordSize: nat)
    requires Run(w, steps, end, recordSize)
    decreases |steps|
  {
    WithinLimit(w) && (steps != [] ==> AlwaysWithin(Next(w, steps[0], recordSize), steps[1..], end, recordSize))
  }

  ghost predicate AllFit(w: Workspace, steps: seq<Step>, end: Workspace, recordSize: nat)
    requires Run(w, steps, end, recordSize)
    decreases |steps|
  {
    steps != [] ==> StepFits(w, steps[0]) && AllFit(Next(w, steps[0], recordSize), steps[1..], end, recordSize)
  }

  /** A run keeps the vault within 50 MiB throughout exactly when each of its deletes and moves had
      room for its record too. */
  lemma {:induction false} RunWithinExactly(w: Workspace, steps: seq<Step>, end: Workspace, recordSize: nat)
    requires WithinLimit(w) && Run(w, steps, end, recordSize)
    ensures AlwaysWithin(w, steps, end, recordSize) <==> AllFit(w, steps, end, recordSize)
    decreases |steps|
  {
    hide WithinLimit, Next, StepFits;
    if steps != [] {
      var next := Next(w, steps[0], recordSize);
      NextWithinExactly(w, steps[0], recordSize);
      if WithinLimit(next) { RunWithinExactly(next, steps[1..], end, recordSize); }
    }
  }

  // ---------------------------------------------------------------- a run over the limit

  function FileOf(size: nat): Node {
    File(Raw(seq(size, _ => 0)))
  }

  // The request that deletes a file of the workspace, with a record of 300 bytes.
  function Deletion(name: string, size: nat): Request {
    Request(name, [name], None, FileOf(size), 300)
  }

  lemma DeleteFile(w: Workspace, name: string, size: nat) returns (after: Workspace)
    requires w.outside.Dir? && name in w.outside.children && w.outside.children[name] == FileOf(size)
    requires name !in [".git", ".ssh", ".aws", ".adrouter-recovery", RECORD]
    requires size <= MAX_OPERATION_BYTES && name !in w.vault
    requires Total(Dir(w.vault), Files) + 2 <= MAX_RECOVERY_ENTRIES && Total(Dir(w.vault), Bytes) + size <= MAX_RECOVERY_BYTES
    ensures Possible(w, Operate(Deletion(name, size), None), 300) && after == Next(w, Operate(Deletion(name, size), None), 300)
    ensures after.outside == Dir(w.outside.children - {name}) && after.vault.Keys == w.vault.Keys + {name}
    ensures Total(Dir(after.vault), Files) == Total(Dir(w.vault), Files) + 2
    ensures Total(Dir(after.vault), Bytes) == Total(Dir(w.vault), Bytes) + size + 300
  {
    var request := Deletion(name, size);
    assert [name][1..] == [];
    assert Get(w.outside, [name]) == Some(FileOf(size));
    assert Total(FileOf(size), Bytes) == size && Total(FileOf(size), Entries) == 1 && Total(FileOf(size), Files) == 1;
    assert Total(RecordOf(request), Bytes) == 300 && Total(RecordOf(request), Files) == 1;
    hide Total, TotalOf, Get;
    assert Refusal(w, request).None? && Feasible(w.outside, request);
    OperateAdds(w, request, None, Files);
    OperateAdds(w, request, None, Bytes);
    after := Next(w, Operate(request, None), 300);
  }

  // Files of the workspace, by name and size, that can be deleted one after the other.
  ghost predicate Deletable(w: Workspace, files: seq<(string, nat)>) {
    && w.outside.Dir?
    && (forall k | 0 <= k < |files| ::
          && files[k].0 in w.outside.children && w.outside.children[files[k].0] == FileOf(files[k].1)
          && files[k].0 !in [".git", ".ssh", ".aws", ".adrouter-recovery", RECORD]
          && files[k].1 <= MAX_OPERATION_BYTES && files[k].0 !in w.vault)
    && forall i, j | 0 <= i < j < |files| :: files[i].0 != files[j].0
  }

  function SizeOf(files: seq<(string, nat)>): nat {
    if files == [] then 0 else files[0].1 + SizeOf(files[1..])
  }

  function Deletions(files: seq<(string, nat)>): seq<Step> {
    if files == [] then [] else [Operate(Deletion(files[0].0, files[0].1), None)] + Deletions(files[1..])
  }

  /** Deletes are admitted as long as there is room for the payloads and the records before, and
      each leaves its payload and its record in the vault. */
  lemma {:induction false} DeleteAll(w: Workspace, files: seq<(string, nat)>) returns (end: Workspace)
    requires Deletable(w, files)
    requires Total(Dir(w.vault), Files) + 2 * |files| <= MAX_RECOVERY_ENTRIES
    requires files != [] ==> Total(Dir(w.vault), Bytes) + SizeOf(files) + 300 * (|files| - 1) <= MAX_RECOVERY_BYTES
    ensures Run(w, Deletions(files), end, 300)
    ensures Total(Dir(end.vault), Bytes) == Total(Dir(w.vault), Bytes) + SizeOf(files) + 300 * |files|
    decreases |files|
  {
    hide Total, TotalOf, Next, Possible, FileOf, Deletion;
    if files == [] {
      end := w;
    } else {
      var after := DeleteFile(w, files[0].0, files[0].1);
      end := DeleteAll(after, files[1..]);
      assert Deletions(files)[1..] == Deletions(files[1..]);
    }
  }

  const BIG := MAX_OPERATION_BYTES - 300
  const FIVE := [("a", BIG)] + ([("b", BIG)] + ([("c", BIG)] + ([("d", BIG)] + ([("e", MAX_OPERATION_BYTES)] + []))))
  const FIVE_FILES := Workspace(Dir(map["a" := FileOf(BIG), "b" := FileOf(BIG), "c" := FileOf(BIG), "d" := FileOf(BIG),
                                        "e" := FileOf(MAX_OPERATION_BYTES)]), map[])

  lemma SizeOfCons(file: (string, nat), files: seq<(string, nat)>)
    ensures SizeOf([file] + files) == file.1 + SizeOf(files)
  {
    assert ([file] + files)[1..] == files;
  }

  lemma FiveSizes()
    ensures SizeOf(FIVE) == 5 * MAX_OPERATION_BYTES - 1200
  {
    SizeOfCons(("e", MAX_OPERATION_BYTES), []);
    SizeOfCons(("d", BIG), [("e", MAX_OPERATION_BYTES)] + []);
    SizeOfCons(("c", BIG), [("d", BIG)] + ([("e", MAX_OPERATION_BYTES)] + []));
    SizeOfCons(("b", BIG), [("c", BIG)] + ([("d", BIG)] + ([("e", MAX_OPERATION_BYTES)] + [])));
    SizeOfCons(("a", BIG), [("b", BIG)] + ([("c", BIG)] + ([("d", BIG)] + ([("e", MAX_OPERATION_BYTES)] + []))));
  }

  lemma FiveDeletable()
    ensures Deletable(FIVE_FILES, FIVE)
  {
    hide FileOf;
  }

  /** For example, five deletes of files of 10 MiB or 300 bytes less are all admitted to an empty
      vault and leave 300 bytes more than 50 MiB in it. */
  lemma OvershootExample() returns (end: Workspace)
    ensures FIVE_FILES.vault == map[] && Run(FIVE_FILES, Deletions(FIVE), end, 300)
    ensures Total(Dir(end.vault), Bytes) == MAX_RECOVERY_BYTES + 300 && !WithinLimit(end)
  {
    TotalEmpty(Files);
    TotalEmpty(Bytes);
    FiveSizes();
    FiveDeletable();
    hide Total, TotalOf, Deletable, SizeOf, Deletions, FileOf;
    end := DeleteAll(FIVE_FILES, FIVE);
  }

  // ---------------------------------------------------------------- staying recoverable

  // Operations may even try to use the same identifier: they are refused.
  predicate Spares(step: Step, id: string) {
    (step.Recover? ==> step.manifest.id != id) && (step.Discard? ==> step.id != id)
  }

  lemma NextKeepsEntry(w: Workspace, step: Step, id: string, recordSize: nat)
    requires Possible(w, step, recordSize) && Spares(step, id) && id in w.vault
    ensures id in Next(w, step, recordSize).vault && Next(w, step, recordSize).vault[id] == w.vault[id]
  {
    hide Total, TotalOf, PartOf, Get, MakeDirs, CanMakeDirs, Drop, Put, Fits, TargetDiffers, Room, RestoreRefusal;
  }

  lemma {:induction false} RunKeepsEntry(w: Workspace, steps: seq<Step>, end: Workspace, id: string, recordSize: nat)
    requires Run(w, steps, end, recordSize) && id in w.vault && forall step | step in steps :: Spares(step, id)
    ensures id in end.vault && end.vault[id] == w.vault[id]
    decreases |steps|
  {
    hide Next, Possible, Spares;
    if steps != [] {
      NextKeepsEntry(w, steps[0], id, recordSize);
      RunKeepsEntry(Next(w, steps[0], recordSize), steps[1..], end, id, recordSize);
    }
  }

  /** What was deleted or moved stays recoverable through any run that spares its entry of the vault:
      the restore is offered exactly while nothing is at the original path, and where the parent
      directories can be made it brings back exactly what was there. */
  lemma StaysRecoverable(w: Workspace, request: Request, steps: seq<Step>, end: Workspace, recordSize: nat)
    requires request.path != [] && Base(request.path) != RECORD && request.size <= MAX_OPERATION_BYTES
    requires Execute(w, request, None).1.None?
    requires Run(Execute(w, request, None).0, steps, end, recordSize) && forall step | step in steps :: Spares(step, request.id)
    ensures Offer(end, request.id).Ok? <==> Get(end.outside, request.path).None?
    ensures Offer(end, request.id).Ok? && CanMakeDirs(end.outside, Parent(request.path)) ==>
      var restored := Restore(end, Offer(end, request.id).value, None);
      restored.1.None? && Get(restored.0.outside, request.path) == Some(request.expected) && restored.0.vault == end.vault - {request.id}
  {
    EntryAfter(w, request);
    var after := Execute(w, request, None).0;
    assert request.id in after.vault && after.vault[request.id] == Kept(request);
    RunKeepsEntry(after, steps, end, request.id, recordSize);
    EntryRecoverable(w, request, end);
  }

  lemma EntryRecoverable(w: Workspace, request: Request, end: Workspace)
    requires Refusal(w, request).None? && Base(request.path) != RECORD && request.size <= MAX_OPERATION_BYTES
    requires request.id in end.vault && end.vault[request.id] == Kept(request)
    ensures Offer(end, request.id).Ok? <==> Get(end.outside, request.path).None?
    ensures Offer(end, request.id).Ok? && CanMakeDirs(end.outside, Parent(request.path)) ==>
      var restored := Restore(end, Offer(end, request.id).value, None);
      restored.1.None? && Get(restored.0.outside, request.path) == Some(request.expected) && restored.0.vault == end.vault - {request.id}
  {
    hide Get, MakeDirs, CanMakeDirs, Drop, Put, Room, Total, TotalOf, Run;
    NotRefused(w, request);
    if Get(end.outside, request.path).None? {
      OfferedAfter(w, request, end);
      if CanMakeDirs(end.outside, Parent(request.path)) {
        MadeDirs(end.outside, Parent(request.path), Parent(request.path));
        GetPut(MakeDirs(end.outside, Parent(request.path)), request.path, request.expected);
      }
    } else {
      assert InVault(end, request.id, RECORD) == Some(RecordOf(request));
    }
  }
}
