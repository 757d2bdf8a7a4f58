/**
 Exactly when a delete, a move or a restore (structured-files.ts) is admitted, succeeds or is offered,
 in terms of the tree, the vault and the limits; and what no operation ever touches.
 */
module RecoveryExact {
  import opened Common
  import opened FileTree
  import opened RecoverySpec
  import opened RecoveryRuns

  // A path below the workspace on which no name is one of the protected directories'.
  predicate Open(path: Path) {
    path != [] && forall i | 0 <= i < |path| :: path[i] != ".git" && path[i] != ".ssh" && path[i] != ".aws" && path[i] != ".adrouter-recovery"
  }

  ghost predicate Small(node: Node) {
    Total(node, Entries) <= 2_000 && Total(node, Bytes) <= 10_485_760
  }

  lemma OpenExactly(path: Path)
    ensures Protected(path) <==> !Open(path)
  {
  }

  lemma FreeExactly(outside: Node, path: Path)
    ensures TargetDiffers(outside, path, None).None? <==> Open(path) && Get(outside, path).None?
  {
    hide Total, Get;
    OpenExactly(path);
  }

  /** An operation is admitted exactly if its source is open, small and as approved, its destination is
      open and free, the vault has room for 100 files and 50 MiB with it, and its identifier is new. */
  lemma AdmittedExactly(w: Workspace, request: Request)
    ensures Refusal(w, request).None? <==>
            && Open(request.path) && Get(w.outside, request.path) == Some(request.expected) && Small(request.expected)
            && (request.destination.Some? ==> Open(request.destination.value) && Get(w.outside, request.destination.value).None?)
            && Total(Dir(w.vault), Files) + Total(request.expected, Entries) + 1 <= 100
            && Total(Dir(w.vault), Bytes) + Total(request.expected, Bytes) <= 52_428_800
            && request.id !in w.vault
  {
    OpenExactly(request.path);
    if request.destination.Some? { FreeExactly(w.outside, request.destination.value); }
    hide Total, Get, Protected, Open;
  }

  /** A refusal names a reason that holds. */
  lemma RefusedForAReason(w: Workspace, request: Request)
    ensures match Refusal(w, request)
            case None => true
            case Some(Forbidden) => !Open(request.path) || (request.destination.Some? && !Open(request.destination.value))
            case Some(TooLarge) =>
              || (Get(w.outside, request.path).Some? && !Small(Get(w.outside, request.path).value))
              || (request.destination.Some? && Get(w.outside, request.destination.value).Some?)
            case Some(Changed) =>
              || Get(w.outside, request.path) != Some(request.expected)
              || (request.destination.Some? && Get(w.outside, request.destination.value).Some?)
            case Some(VaultFull) =>
              || Total(Dir(w.vault), Files) + Total(request.expected, Entries) + 1 > 100
              || Total(Dir(w.vault), Bytes) + Total(request.expected, Bytes) > 52_428_800
            case Some(IdTaken) => request.id in w.vault
            case _ => false
  {
    OpenExactly(request.path);
    if request.destination.Some? { OpenExactly(request.destination.value); }
    hide Total, Get, Protected, Open;
  }

  /** An admitted operation succeeds, if the file system does not fail, exactly when: a delete is not of
      a directory called like the record; a move is of nothing called like it, not into itself, and
      the directories of its destination can be made. */
  lemma SucceedsExactly(w: Workspace, request: Request)
    requires Refusal(w, request).None?
    ensures request.path != [] && (request.destination.Some? ==> request.destination.value != [])
    ensures Execute(w, request, None).1.None? <==>
            var name := request.path[|request.path| - 1];
            match request.destination
            case None => name != "record.json" || request.expected.File?
            case Some(destination) =>
              name != "record.json" && CanMakeDirs(w.outside, destination[..|destination| - 1]) && !(request.path <= destination)
  {
    NotRefused(w, request);
    hide Total, Get, Refusal, Prepared, Done, CanMakeDirs;
  }

  /** A restore is offered exactly if the record of the entry is a small record of this identifier with
      an original path, its payload is small and still what was recorded, and the path is open and free. */
  lemma OfferedExactly(w: Workspace, id: string)
    ensures Offer(w, id).Ok? <==> exists record: RecoveryRecord, size: nat ::
              && InVault(w, id, "record.json") == Some(File(RecordText(record, size))) && Small(File(RecordText(record, size)))
              && record.operationId == id && record.originalPath != []
              && InVault(w, id, record.originalPath[|record.originalPath| - 1]) == Some(record.before) && Small(record.before)
              && Open(record.originalPath) && Get(w.outside, record.originalPath).None?
  {
    var found := InVault(w, id, RECORD);
    if found.Some? && found.value.File? && found.value.content.RecordText? {
      var RecordText(record, size) := found.value.content;
      assert found == Some(File(RecordText(record, size)));
      FreeExactly(w.outside, record.originalPath);
    }
    hide Total, Get, TargetDiffers, Open;
  }

  /** What is offered succeeds, if the file system does not fail, exactly while nothing of it has changed
      and the directories of the original path can be made. */
  lemma RestoresExactly(w: Workspace, m: RestoreManifest)
    requires Genuine(m)
    ensures Restore(w, m, None).1.None? <==>
            && Open(m.target) && Get(w.outside, m.target).None?
            && InVault(w, m.id, "record.json") == Some(m.record) && Small(m.record)
            && InVault(w, m.id, m.target[|m.target| - 1]) == Some(m.stored) && Small(m.stored)
            && CanMakeDirs(w.outside, m.target[..|m.target| - 1])
  {
    FreeExactly(w.outside, m.target);
    hide Total, Get, TargetDiffers, Open, CanMakeDirs;
  }

  // ---------------------------------------------------------------- what is never touched

  lemma TopOfDrop(node: Node, path: Path, name: string)
    requires path != [] && Get(node, path).Some? && path[0] != name
    ensures Get(Drop(node, path), [name]) == Get(node, [name])
  {
    assert [name][1..] == [];
  }

  lemma TopOfPut(node: Node, path: Path, entry: Node, name: string)
    requires path != [] && HasParent(node, path) && path[0] != name
    ensures Get(Put(node, path, entry), [name]) == Get(node, [name])
  {
    assert [name][1..] == [];
    if |path| == 1 { assert Parent(path) == []; } else { assert Parent(path)[0] == path[0]; }
  }

  lemma TopOfDirs(node: Node, path: Path, name: string)
    requires CanMakeDirs(node, path) && (path != [] ==> path[0] != name)
    ensures Get(MakeDirs(node, path), [name]) == Get(node, [name])
  {
    MadeDirs(node, path, [name]);
  }

  predicate Guarded(name: string) {
    name == ".git" || name == ".ssh" || name == ".aws" || name == ".adrouter-recovery"
  }

  lemma OpenTop(path: Path, name: string)
    requires Open(path) && Guarded(name)
    ensures path[0] != name
  {
  }

  lemma TopOfPrepared(outside: Node, request: Request, made: nat, name: string)
    requires request.path != [] && (request.destination.Some? ==> request.destination.value != [] && request.destination.value[0] != name)
    ensures Get(Prepared(outside, request, made), [name]) == Get(outside, [name])
  {
    hide Get, MakeDirs, CanMakeDirs;
    if request.destination.Some? && Base(request.path) != RECORD && CanMakeDirs(outside, Parent(request.destination.value)) {
      var destination := request.destination.value;
      var count := if made < |destination| then made else |destination| - 1;
      PrefixCanBeMade(outside, Parent(destination), count);
      TopOfDirs(outside, Parent(destination)[..count], name);
    }
  }

  lemma TopOfDone(w: Workspace, request: Request, name: string)
    requires Refusal(w, request).None? && Feasible(w.outside, request) && request.path[0] != name
    requires request.destination.Some? ==> request.destination.value[0] != name
    ensures Get(Done(w, request).outside, [name]) == Get(w.outside, [name])
  {
    hide Get, MakeDirs, CanMakeDirs, Drop, Put, Fits, Room;
    NotRefused(w, request);
    match request.destination
    case None => TopOfDrop(w.outside, request.path, name);
    case Some(destination) =>
      MoveCanRename(w, request);
      var made := MakeDirs(w.outside, Parent(destination));
      TopOfDirs(w.outside, Parent(destination), name);
      PutAndDropCommute(made, request.path, destination, request.expected);
      TopOfDrop(made, request.path, name);
      TopOfPut(Drop(made, request.path), destination, request.expected, name);
  }

  lemma TopOfExecute(w: Workspace, request: Request, fault: Option<Fault>, name: string)
    requires request.path != [] && PossibleFault(request, fault) && Guarded(name)
    ensures Get(Execute(w, request, fault).0.outside, [name]) == Get(w.outside, [name])
  {
    if Refusal(w, request).None? {
      AdmittedExactly(w, request);
      OpenTop(request.path, name);
      if request.destination.Some? { OpenTop(request.destination.value, name); }
      hide Get, Refusal, Prepared, Done, Feasible, Total;
      if fault.Some? {
        TopOfPrepared(w.outside, request, fault.value.made, name);
      } else if !Feasible(w.outside, request) {
        TopOfPrepared(w.outside, request, if request.destination.Some? then |request.destination.value| else 0, name);
      } else {
        TopOfDone(w, request, name);
      }
    }
  }

  lemma TopOfRestore(w: Workspace, m: RestoreManifest, problem: Option<RestoreFault>, name: string)
    requires Genuine(m) && PossibleRestoreFault(w, m, problem) && Guarded(name)
    ensures Get(Restore(w, m, problem).0.outside, [name]) == Get(w.outside, [name])
  {
    if RestoreRefusal(w, m).None? && CanMakeDirs(w.outside, Parent(m.target)) {
      FreeExactly(w.outside, m.target);
      OpenTop(m.target, name);
      var parent := Parent(m.target);
      hide Get, MakeDirs, CanMakeDirs, Put, RestoreRefusal, Total;
      TopOfDirs(w.outside, parent, name);
      MadeDirs(w.outside, parent, parent);
      TopOfPut(MakeDirs(w.outside, parent), m.target, m.stored, name);
      if problem.Some? && problem.value.BeforeRename? {
        var count := if problem.value.made < |parent| then problem.value.made else |parent|;
        PrefixCanBeMade(w.outside, parent, count);
        TopOfDirs(w.outside, parent[..count], name);
      }
    }
  }

  /** Whatever operations and restores a run consists of, and wherever they fail, what the workspace
      holds under each protected name stays exactly as it is unless somebody else changes it. */
  lemma {:induction false} GuardedStays(w: Workspace, steps: seq<Step>, end: Workspace, recordSize: nat, name: string)
    requires Run(w, steps, end, recordSize) && Guarded(name) && forall step | step in steps :: !step.Elsewhere?
    ensures Get(end.outside, [name]) == Get(w.outside, [name])
    decreases |steps|
  {
    if steps != [] {
      hide Get, Execute, Restore, PossibleFault, PossibleRestoreFault, Genuine;
      var step := steps[0];
      assert !step.Elsewhere?;
      if step.Operate? {
        TopOfExecute(w, step.request, step.fault, name);
      } else if step.Recover? {
        TopOfRestore(w, step.manifest, step.problem, name);
      }
      GuardedStays(Next(w, step, recordSize), steps[1..], end, recordSize, name);
    }
  }
}
