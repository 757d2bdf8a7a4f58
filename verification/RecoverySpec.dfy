/**
 Deleting and moving workspace entries through the recovery vault, and restoring them. The vault
 directory is protected from the agent, so it is kept apart from the rest of the workspace: it maps
 an operation identifier to a directory with a record and a payload. A missing vault is an empty one.
 */
module RecoverySpec {
  import opened Common
  import opened FileTree

  const RECORD := "record.json"
  const MAX_OPERATION_BYTES := 10 * 1024 * 1024
  const MAX_OPERATION_ENTRIES := 2000
  const MAX_RECOVERY_BYTES := 50 * 1024 * 1024
  const MAX_RECOVERY_ENTRIES := 100

  datatype Workspace = Workspace(outside: Node, vault: map<string, Node>)

  // An approved delete, or a move when there is a destination; `expected` is the approved state of
  // the source and `size` the size of the serialised record.
  datatype Request = Request(id: string, path: Path, destination: Option<Path>, expected: Node, size: nat)

  datatype Failure = Forbidden | TooLarge | Changed | VaultFull | IdTaken | InvalidRecord | Mismatch | Broken

  // A failure of the file system: how many directories had been made for the destination, and what
  // the clean-up left behind in the vault.
  datatype Fault = Fault(made: nat, left: Option<Node>)

  predicate Protected(path: Path) {
    path == [] || exists i | 0 <= i < |path| :: path[i] in [".git", ".ssh", ".aws", ".adrouter-recovery"]
  }

  ghost predicate Fits(node: Node) {
    Total(node, Entries) <= MAX_OPERATION_ENTRIES && Total(node, Bytes) <= MAX_OPERATION_BYTES
  }

  // ---------------------------------------------------------------- what is refused beforehand

  // Comparing the state at a path with the approved one; None stands for a missing entry.
  ghost function Differs(found: Option<Node>, expected: Option<Node>): Option<Failure> {
    if found.Some? && !Fits(found.value) then Some(TooLarge)
    else if found != expected then Some(Changed)
    else None
  }

  ghost function TargetDiffers(outside: Node, path: Path, expected: Option<Node>): Option<Failure> {
    if Protected(path) then Some(Forbidden) else Differs(Get(outside, path), expected)
  }

  ghost predicate Room(vault: map<string, Node>, source: Node) {
    && Total(Dir(vault), Files) + Total(source, Entries) + 1 <= MAX_RECOVERY_ENTRIES
    && Total(Dir(vault), Bytes) + Total(source, Bytes) <= MAX_RECOVERY_BYTES
  }

  ghost function Refusal(w: Workspace, request: Request): Option<Failure> {
    var source := TargetDiffers(w.outside, request.path, Some(request.expected));
    var target := if request.destination.Some? then TargetDiffers(w.outside, request.destination.value, None) else None;
    if source.Some? then source
    else if target.Some? then target
    else if !Room(w.vault, request.expected) then Some(VaultFull)
    else if request.id in w.vault then Some(IdTaken)
    else None
  }

  lemma NotRefused(w: Workspace, request: Request)
    requires Refusal(w, request).None?
    ensures request.path != [] && Get(w.outside, request.path) == Some(request.expected) && Fits(request.expected)
    ensures request.destination.Some? ==> request.destination.value != [] && Get(w.outside, request.destination.value).None?
    ensures Room(w.vault, request.expected) && request.id !in w.vault
  {
  }

  // ---------------------------------------------------------------- what a delete or a move does

  function RecordOf(request: Request): Node {
    File(RecordText(RecoveryRecord(request.id, request.path, request.destination, request.expected), request.size))
  }

  // The entry of the vault once the record, and for a move the copy, have been written.
  function Written(request: Request): Node
    requires request.path != []
  {
    if request.destination.None? || Base(request.path) == RECORD then Dir(map[RECORD := RecordOf(request)])
    else Dir(map[RECORD := RecordOf(request), Base(request.path) := request.expected])
  }

  // A file named like the record replaces it when renamed over it; a directory cannot, and a copy
  // never overwrites. A tree cannot be renamed into itself.
  predicate Feasible(outside: Node, request: Request)
    requires request.path != []
  {
    match request.destination
    case None => Base(request.path) != RECORD || request.expected.File?
    case Some(destination) =>
      && destination != [] && Base(request.path) != RECORD
      && CanMakeDirs(outside, Parent(destination)) && !(request.path <= destination)
  }

  // The workspace with the first directories for the destination made.
  function Prepared(outside: Node, request: Request, made: nat): (r: Node)
    requires request.path != []
  {
    match request.destination
    case None => outside
    case Some(destination) =>
      if destination == [] || Base(request.path) == RECORD || !CanMakeDirs(outside, Parent(destination)) then outside
      else
        var count := if made < |destination| then made else |destination| - 1;
        PrefixCanBeMade(outside, Parent(destination), count);
        MakeDirs(outside, Parent(destination)[..count])
  }

  /** A destination is missing and a source is there, so the destination is not above the source. */
  lemma MissingIsNotAbove(outside: Node, path: Path, destination: Path)
    requires Get(outside, path).Some? && Get(outside, destination).None?
    ensures !(destination <= path)
  {
    var count := if |destination| <= |path| then |destination| else 0;
    GetSplit(outside, path[..count], path[count..]);
    assert path[..count] + path[count..] == path;
  }

  lemma MoveCanRename(w: Workspace, request: Request)
    requires Refusal(w, request).None? && request.destination.Some? && Feasible(w.outside, request)
    ensures CanRename(MakeDirs(w.outside, Parent(request.destination.value)), request.path, request.destination.value)
    ensures Get(MakeDirs(w.outside, Parent(request.destination.value)), request.path) == Some(request.expected)
  {
    var path, destination := request.path, request.destination.value;
    hide Fits, Room, MakeDirs, CanMakeDirs, Get;
    NotRefused(w, request);
    MissingIsNotAbove(w.outside, path, destination);
    MadeDirs(w.outside, Parent(destination), Parent(destination));
    MadeDirs(w.outside, Parent(destination), path);
    assert path <= Parent(destination) ==> path <= destination;
  }

  predicate CanRename(outside: Node, path: Path, destination: Path) {
    && path != [] && destination != [] && !(path <= destination) && !(destination <= path)
    && Get(outside, path).Some? && HasParent(outside, destination)
  }

  function Rename(outside: Node, path: Path, destination: Path): Node
    requires CanRename(outside, path, destination)
  {
    PutAndDropCommute(outside, path, destination, Get(outside, path).value);
    Put(Drop(outside, path), destination, Get(outside, path).value)
  }

  // The entry of the vault after a delete or a move.
  function Kept(request: Request): Node
    requires request.path != []
  {
    Dir(map[RECORD := RecordOf(request)][Base(request.path) := request.expected])
  }

  ghost predicate PossibleFault(request: Request, fault: Option<Fault>)
    requires request.path != []
  {
    fault.Some? && fault.value.left.Some? ==> PartOf(fault.value.left.value, Written(request))
  }

  function Leaving(vault: map<string, Node>, id: string, left: Option<Node>): map<string, Node> {
    match left case None => vault - {id} case Some(node) => vault[id := node]
  }

  ghost function Execute(w: Workspace, request: Request, fault: Option<Fault>): (r: (Workspace, Option<Failure>))
    requires request.path != [] ==> PossibleFault(request, fault)
  {
    if Refusal(w, request).Some? then (w, Refusal(w, request))
    else if fault.Some? then
      (Workspace(Prepared(w.outside, request, fault.value.made), Leaving(w.vault, request.id, fault.value.left)), Some(Broken))
    else if !Feasible(w.outside, request) then
      (Workspace(Prepared(w.outside, request, if request.destination.Some? then |request.destination.value| else 0), w.vault), Some(Broken))
    else
      (Done(w, request), None)
  }

  ghost function Done(w: Workspace, request: Request): Workspace
    requires Refusal(w, request).None? && Feasible(w.outside, request)
  {
    var vault := w.vault[request.id := Kept(request)];
    match request.destination
    case None => Workspace(Drop(w.outside, request.path), vault)
    case Some(destination) =>
      MoveCanRename(w, request);
      Workspace(Rename(MakeDirs(w.outside, Parent(destination)), request.path, destination), vault)
  }

  // ---------------------------------------------------------------- restoring

  // What is approved for a restore. It is bound to the approval, so it is still what Offer made.
  datatype RestoreManifest = RestoreManifest(id: string, target: Path, record: Node, stored: Node)

  // A failure before the payload is renamed, or while the rest of the entry is removed.
  datatype RestoreFault = BeforeRename(made: nat) | AfterRename(left: Option<Node>)

  predicate Genuine(m: RestoreManifest) {
    && m.record.File? && m.record.content.RecordText? && m.target != []
    && m.record.content.record.operationId == m.id && m.record.content.record.originalPath == m.target
    && m.record.content.record.before == m.stored
  }

  function InVault(w: Workspace, id: string, name: string): Option<Node> {
    if id in w.vault && w.vault[id].Dir? && name in w.vault[id].children then Some(w.vault[id].children[name]) else None
  }

  ghost function Offer(w: Workspace, id: string): (r: Result<RestoreManifest, Failure>)
    ensures r.Ok? ==> Genuine(r.value) && r.value.id == id
  {
    var record := InVault(w, id, RECORD);
    if record.None? then Err(Changed)
    else if !Fits(record.value) then Err(TooLarge)
    else if record.value.Dir? || record.value.content.Raw? || record.value.content.record.operationId != id
            || record.value.content.record.originalPath == [] then Err(InvalidRecord)
    else
      var claim := record.value.content.record;
      var stored := InVault(w, id, Base(claim.originalPath));
      if stored.None? then Err(Changed)
      else if !Fits(stored.value) then Err(TooLarge)
      else if stored.value != claim.before then Err(Mismatch)
      else if TargetDiffers(w.outside, claim.originalPath, None).Some? then
        Err(TargetDiffers(w.outside, claim.originalPath, None).value)
      else Ok(RestoreManifest(id, claim.originalPath, record.value, stored.value))
  }

  ghost function RestoreRefusal(w: Workspace, m: RestoreManifest): Option<Failure>
    requires Genuine(m)
  {
    var target := TargetDiffers(w.outside, m.target, None);
    var record := Differs(InVault(w, m.id, RECORD), Some(m.record));
    if target.Some? then target
    else if record.Some? then record
    else Differs(InVault(w, m.id, Base(m.target)), Some(m.stored))
  }

  // The entry of the vault once its payload has been renamed.
  function Remaining(w: Workspace, m: RestoreManifest): Node
    requires m.target != [] && m.id in w.vault && w.vault[m.id].Dir?
  {
    Dir(w.vault[m.id].children - {Base(m.target)})
  }

  ghost predicate PossibleRestoreFault(w: Workspace, m: RestoreManifest, fault: Option<RestoreFault>) {
    fault.Some? && fault.value.AfterRename? && fault.value.left.Some? ==>
      m.target != [] && m.id in w.vault && w.vault[m.id].Dir? && PartOf(fault.value.left.value, Remaining(w, m))
  }

  function SomeDirs(outside: Node, path: Path, made: nat): Node
    requires CanMakeDirs(outside, path)
  {
    var count := if made < |path| then made else |path|;
    PrefixCanBeMade(outside, path, count);
    MakeDirs(outside, path[..count])
  }

  function PutIn(outside: Node, target: Path, entry: Node): Node
    requires target != [] && CanMakeDirs(outside, Parent(target))
  {
    MadeDirs(outside, Parent(target), Parent(target));
    Put(MakeDirs(outside, Parent(target)), target, entry)
  }

  ghost function Restore(w: Workspace, m: RestoreManifest, fault: Option<RestoreFault>): (r: (Workspace, Option<Failure>))
    requires Genuine(m) && PossibleRestoreFault(w, m, fault)
  {
    if RestoreRefusal(w, m).Some? then (w, RestoreRefusal(w, m))
    else if !CanMakeDirs(w.outside, Parent(m.target)) then (w, Some(Broken))
    else
      match fault
      case Some(BeforeRename(made)) => (Workspace(SomeDirs(w.outside, Parent(m.target), made), w.vault), Some(Broken))
      case Some(AfterRename(left)) => (Workspace(PutIn(w.outside, m.target, m.stored), Leaving(w.vault, m.id, left)), Some(Broken))
      case None => (Workspace(PutIn(w.outside, m.target, m.stored), w.vault - {m.id}), None)
  }

  // ---------------------------------------------------------------- a failure loses nothing

  // Every file is still there with its content, and every directory is still a directory.
  ghost predicate StillHolds(after: Node, before: Node) {
    forall path :: match Get(before, path)
                   case None => true
                   case Some(File(content)) => Get(after, path) == Some(File(content))
                   case Some(Dir(_)) => Get(after, path).Some? && Get(after, path).value.Dir?
  }

  lemma PreparedHolds(outside: Node, request: Request, made: nat)
    requires request.path != []
    ensures StillHolds(Prepared(outside, request, made), outside)
    ensures request.destination.None? || !(request.path < request.destination.value) ==>
      Get(Prepared(outside, request, made), request.path) == Get(outside, request.path)
  {
    hide Get, MakeDirs, CanMakeDirs;
    if request.destination.Some? && request.destination.value != [] && Base(request.path) != RECORD
       && CanMakeDirs(outside, Parent(request.destination.value)) {
      var destination := request.destination.value;
      var count := if made < |destination| then made else |destination| - 1;
      var dirs := Parent(destination)[..count];
      PrefixCanBeMade(outside, Parent(destination), count);
      forall path: Path { MadeDirs(outside, dirs, path); }
      assert request.path <= dirs ==> request.path < destination;
    }
  }

  /** A delete that fails, wherever it fails, leaves everything outside the vault as it was; a move
      that fails loses no file and no directory, and leaves its source exactly as it was unless the
      destination was inside the source. */
  lemma FailureKeepsSource(w: Workspace, request: Request, fault: Option<Fault>)
    requires request.path != [] ==> PossibleFault(request, fault)
    requires Execute(w, request, fault).1.Some?
    ensures request.destination.None? ==> Execute(w, request, fault).0.outside == w.outside
    ensures StillHolds(Execute(w, request, fault).0.outside, w.outside)
    ensures request.destination.None? || !(request.path < request.destination.value) ==>
      Get(Execute(w, request, fault).0.outside, request.path) == Get(w.outside, request.path)
  {
    hide Get, MakeDirs, CanMakeDirs, Drop, Put, Room, Fits, PartOf;
    if request.path != [] {
      if fault.Some? {
        PreparedHolds(w.outside, request, fault.value.made);
      } else if request.destination.Some? {
        PreparedHolds(w.outside, request, |request.destination.value|);
      }
    }
  }

  /** Moving a directory into itself always fails, and leaves it as it was exactly when the parent
      of the destination was already there. */
  lemma MoveIntoItself(w: Workspace, request: Request)
    requires Refusal(w, request).None? && request.destination.Some? && request.path < request.destination.value
    requires Base(request.path) != RECORD && CanMakeDirs(w.outside, Parent(request.destination.value))
    ensures Execute(w, request, None).1 == Some(Broken)
    ensures Execute(w, request, None).0.vault == w.vault
    ensures Execute(w, request, None).0.outside == w.outside <==> Get(w.outside, Parent(request.destination.value)).Some?
  {
    hide Get, MakeDirs, CanMakeDirs, Drop, Put, Room, Fits, TargetDiffers;
    var parent := Parent(request.destination.value);
    assert parent[..|parent|] == parent;
    MakingExisting(w.outside, parent);
  }

  // No failure of the move changes anything outside the vault.
  ghost predicate FailuresChangeNothing(w: Workspace, request: Request)
    requires request.path != []
  {
    forall fault: Option<Fault> | PossibleFault(request, fault) && Execute(w, request, fault).1.Some? ::
      Execute(w, request, fault).0.outside == w.outside
  }

  ghost predicate FailuresKeepSource(w: Workspace, request: Request)
    requires request.path != []
  {
    forall fault: Option<Fault> | PossibleFault(request, fault) && Execute(w, request, fault).1.Some? ::
      Get(Execute(w, request, fault).0.outside, request.path) == Get(w.outside, request.path)
  }

  // The move fails before it makes a directory, or finds them all.
  predicate MakesNothing(outside: Node, request: Request)
    requires request.path != [] && request.destination.Some? && request.destination.value != []
  {
    var parent := Parent(request.destination.value);
    Base(request.path) == RECORD || !CanMakeDirs(outside, parent) || Get(outside, parent).Some?
  }

  lemma PreparedChangesNothing(outside: Node, request: Request, made: nat)
    requires request.path != [] && request.destination.Some? && request.destination.value != [] && MakesNothing(outside, request)
    ensures Prepared(outside, request, made) == outside
  {
    hide Get, MakeDirs, CanMakeDirs;
    var destination := request.destination.value;
    if Base(request.path) != RECORD && CanMakeDirs(outside, Parent(destination)) {
      var count := if made < |destination| then made else |destination| - 1;
      PrefixExists(outside, Parent(destination), count);
      PrefixCanBeMade(outside, Parent(destination), count);
      MakingExisting(outside, Parent(destination)[..count]);
    }
  }

  // The failure of the rename, after all directories were made and with the vault cleaned up.
  function RenameFails(request: Request): Option<Fault>
    requires request.destination.Some?
  {
    Some(Fault(|request.destination.value|, None))
  }

  lemma RenameFailsAfterMaking(w: Workspace, request: Request)
    requires Refusal(w, request).None? && request.destination.Some? && !MakesNothing(w.outside, request)
    ensures PossibleFault(request, RenameFails(request))
    ensures Execute(w, request, RenameFails(request)).1.Some?
    ensures Execute(w, request, RenameFails(request)).0.outside == MakeDirs(w.outside, Parent(request.destination.value))
  {
    hide Get, MakeDirs, CanMakeDirs, Room, Fits;
    NotRefused(w, request);
    var parent := Parent(request.destination.value);
    assert parent[..|parent|] == parent;
  }

  lemma ExecuteFailing(w: Workspace, request: Request, fault: Option<Fault>)
    requires Refusal(w, request).None? && PossibleFault(request, fault) && Execute(w, request, fault).1.Some?
    ensures exists made: nat :: Execute(w, request, fault).0.outside == Prepared(w.outside, request, made)
  {
    hide Prepared, Feasible, Refusal;
  }

  /** Whatever fails in a move, nothing outside the vault changes, exactly when the parent of the
      destination is there already or cannot be made, or the source is called like the record. */
  lemma FailedMoveExact(w: Workspace, request: Request)
    requires Refusal(w, request).None? && request.destination.Some?
    ensures FailuresChangeNothing(w, request) <==> MakesNothing(w.outside, request)
  {
    NotRefused(w, request);
    hide Get, MakeDirs, CanMakeDirs, Refusal, Feasible, Prepared, Execute, PossibleFault, MakesNothing;
    if MakesNothing(w.outside, request) {
      forall fault: Option<Fault> | PossibleFault(request, fault) && Execute(w, request, fault).1.Some?
        ensures Execute(w, request, fault).0.outside == w.outside
      {
        ExecuteFailing(w, request, fault);
        var made: nat :| Execute(w, request, fault).0.outside == Prepared(w.outside, request, made);
        PreparedChangesNothing(w.outside, request, made);
      }
    } else {
      RenameFailsAfterMaking(w, request);
      MakingChanges(w.outside, request);
      assert Execute(w, request, RenameFails(request)).0.outside != w.outside;
    }
  }

  lemma MakingChanges(outside: Node, request: Request)
    requires request.path != [] && request.destination.Some? && request.destination.value != [] && !MakesNothing(outside, request)
    ensures CanMakeDirs(outside, Parent(request.destination.value))
    ensures MakeDirs(outside, Parent(request.destination.value)) != outside
  {
    hide Get, MakeDirs, CanMakeDirs;
    MakingExisting(outside, Parent(request.destination.value));
  }

  /** Whatever fails in a move, the source stays as it was exactly when, moreover, the destination is
      not inside the source. */
  lemma FailedMoveSourceExact(w: Workspace, request: Request)
    requires Refusal(w, request).None? && request.destination.Some?
    ensures FailuresKeepSource(w, request) <==> MakesNothing(w.outside, request) || !(request.path < request.destination.value)
  {
    NotRefused(w, request);
    hide Get, MakeDirs, CanMakeDirs, Refusal, Feasible, Prepared, Execute, PossibleFault, MakesNothing;
    if MakesNothing(w.outside, request) {
      FailedMoveExact(w, request);
    } else if !(request.path < request.destination.value) {
      forall fault: Option<Fault> | PossibleFault(request, fault) && Execute(w, request, fault).1.Some?
        ensures Get(Execute(w, request, fault).0.outside, request.path) == Get(w.outside, request.path)
      {
        FailureKeepsSource(w, request, fault);
      }
    } else {
      RenameFailsAfterMaking(w, request);
      MakingChangesSource(w, request);
    }
  }

  lemma MakingChangesSource(w: Workspace, request: Request)
    requires Refusal(w, request).None? && request.destination.Some? && request.path < request.destination.value
    requires !MakesNothing(w.outside, request)
    ensures Get(MakeDirs(w.outside, Parent(request.destination.value)), request.path) != Get(w.outside, request.path)
  {
    hide Get, MakeDirs, CanMakeDirs, Fits, Room;
    NotRefused(w, request);
    var path, parent := request.path, Parent(request.destination.value);
    var rest := parent[|path|..];
    assert parent == path + rest;
    GetSplit(w.outside, path, rest);
    MadeInside(w.outside, path, rest);
    MakingExisting(request.expected, rest);
  }

  const ONE_DIRECTORY := Workspace(Dir(map["d" := EMPTY_DIR]), map[])

  /** For example, moving the empty directory d to d/x/y fails and leaves d/x behind. */
  lemma LeftoverExample(id: string, size: nat)
    ensures var (after, failure) := Execute(ONE_DIRECTORY, Request(id, ["d"], Some(["d", "x", "y"]), EMPTY_DIR, size), None);
            failure == Some(Broken) && after.outside != ONE_DIRECTORY.outside
  {
    var request := Request(id, ["d"], Some(["d", "x", "y"]), EMPTY_DIR, size);
    var outside := ONE_DIRECTORY.outside;
    assert ["d"][1..] == [] && ["d", "x", "y"][1..] == ["x", "y"] && ["d", "x"][1..] == ["x"] && ["x"][1..] == [];
    assert Parent(["d", "x", "y"]) == ["d", "x"];
    assert Get(outside, ["d"]) == Some(EMPTY_DIR) && Get(EMPTY_DIR, ["x", "y"]).None? && Get(EMPTY_DIR, ["x"]).None?;
    assert Get(outside, ["d", "x", "y"]).None? && Get(outside, ["d", "x"]).None?;
    assert CanMakeDirs(EMPTY_DIR, ["x"]) && CanMakeDirs(outside, ["d", "x"]);
    TotalEmpty(Entries);
    TotalEmpty(Files);
    TotalEmpty(Bytes);
    assert Fits(EMPTY_DIR) && Room(map[], EMPTY_DIR);
    assert ["d", "x", "y"][..1] == ["d"];
    assert Refusal(ONE_DIRECTORY, request).None?;
    MoveIntoItself(ONE_DIRECTORY, request);
  }

  // ---------------------------------------------------------------- delete or move, then restore

  lemma EntryAfter(w: Workspace, request: Request)
    requires request.path != [] && Execute(w, request, None).1.None?
    ensures Refusal(w, request).None? && Feasible(w.outside, request) && Execute(w, request, None).0 == Done(w, request)
    ensures Done(w, request).vault == w.vault[request.id := Kept(request)]
  {
    hide Get, MakeDirs, CanMakeDirs, Drop, Put, Room, Fits, TargetDiffers;
  }

  /** A delete followed by a restore gives back the whole workspace, in the vault and outside it. */
  lemma DeleteThenRestore(w: Workspace, request: Request)
    requires request.path != [] && request.destination.None? && Execute(w, request, None).1.None?
    requires Base(request.path) != RECORD && request.size <= MAX_OPERATION_BYTES
    ensures var deleted := Execute(w, request, None).0;
            var offer := Offer(deleted, request.id);
            && Get(deleted.outside, request.path).None?
            && offer.Ok? && offer.value.target == request.path && Restore(deleted, offer.value, None) == (w, None)
  {
    EntryAfter(w, request);
    NotRefused(w, request);
    var path := request.path;
    var deleted := Done(w, request);
    PutBack(w.outside, path);
    DropKeepsParent(w.outside, path);
    OfferedAfter(w, request, deleted);
    assert deleted.vault - {request.id} == w.vault;
  }

  lemma OfferedAfter(w: Workspace, request: Request, after: Workspace)
    requires Refusal(w, request).None? && Base(request.path) != RECORD && request.size <= MAX_OPERATION_BYTES
    requires request.id in after.vault && after.vault[request.id] == Kept(request) && Get(after.outside, request.path).None?
    ensures Offer(after, request.id) == Ok(RestoreManifest(request.id, request.path, RecordOf(request), request.expected))
    ensures RestoreRefusal(after, Offer(after, request.id).value).None?
  {
    hide Get, Room;
    NotRefused(w, request);
    var entry := after.vault[request.id];
    assert entry.children[RECORD] == RecordOf(request) && entry.children[Base(request.path)] == request.expected;
    assert Fits(RecordOf(request));
  }

  /** After a successful delete the restore is offered exactly when the deleted entry was not itself
      called like the record: such a file has replaced its own record. */
  lemma RestorableExactly(w: Workspace, request: Request)
    requires request.path != [] && request.destination.None? && Execute(w, request, None).1.None?
    requires request.size <= MAX_OPERATION_BYTES
    ensures Offer(Execute(w, request, None).0, request.id).Ok? <==> Base(request.path) != RECORD
  {
    EntryAfter(w, request);
    if Base(request.path) != RECORD {
      DeleteThenRestore(w, request);
    } else {
      LostRecord(Done(w, request), request);
    }
  }

  const EMPTY_FILE := File(Raw([]))
  const RECORD_FILE := Workspace(Dir(map[RECORD := EMPTY_FILE]), map[])

  /** For example, an empty file called like the record is deleted without an error and is lost. */
  lemma LostFileExample(id: string, size: nat)
    requires size <= MAX_OPERATION_BYTES
    ensures var request := Request(id, [RECORD], None, EMPTY_FILE, size);
            var (deleted, failure) := Execute(RECORD_FILE, request, None);
            failure.None? && Get(deleted.outside, [RECORD]).None? && Offer(deleted, id).Err?
  {
    var request := Request(id, [RECORD], None, EMPTY_FILE, size);
    assert [RECORD][1..] == [];
    assert Get(RECORD_FILE.outside, [RECORD]) == Some(EMPTY_FILE);
    TotalEmpty(Files);
    TotalEmpty(Bytes);
    assert Room(map[], EMPTY_FILE);
    RestorableExactly(RECORD_FILE, request);
    PutBack(RECORD_FILE.outside, [RECORD]);
  }

  // The content of a file is never a record of that same file.
  lemma LostRecord(after: Workspace, request: Request)
    requires request.path != [] && request.id in after.vault && after.vault[request.id] == Dir(map[RECORD := request.expected])
    ensures Offer(after, request.id).Err?
  {
    hide Fits, TargetDiffers;
    var entry := after.vault[request.id];
    assert InVault(after, request.id, RECORD) == Some(request.expected);
    if request.expected.File? && request.expected.content.RecordText? {
      var claim := request.expected.content.record;
      NotInItself(request.expected);
      if claim.originalPath != [] {
        var stored := InVault(after, request.id, Base(claim.originalPath));
        assert stored.Some? ==> stored.value == request.expected;
      }
    }
  }

  lemma NotInItself(node: Node)
    requires node.File? && node.content.RecordText?
    ensures node.content.record.before != node
  {
    assert node.content.record.before < node;
  }

  /** A move followed by a restore leaves a copy: the source is back and the destination is there. */
  lemma MoveThenRestore(w: Workspace, request: Request)
    requires request.path != [] && request.destination.Some? && Execute(w, request, None).1.None?
    requires request.size <= MAX_OPERATION_BYTES
    ensures var moved := Execute(w, request, None).0;
            var offer := Offer(moved, request.id);
            && Get(moved.outside, request.path).None? && Get(moved.outside, request.destination.value) == Some(request.expected)
            && offer.Ok? && offer.value.target == request.path
            && Restore(moved, offer.value, None) == (Workspace(PutIn(w.outside, request.destination.value, request.expected), w.vault), None)
  {
    EntryAfter(w, request);
    NotRefused(w, request);
    MoveCanRename(w, request);
    var moved := Done(w, request);
    MovedTree(MakeDirs(w.outside, Parent(request.destination.value)), request.path, request.destination.value, request.expected);
    OfferedAfter(w, request, moved);
    RestoredMove(w, request, moved);
  }

  lemma MovedTree(made: Node, path: Path, destination: Path, entry: Node)
    requires CanRename(made, path, destination) && Get(made, path) == Some(entry)
    ensures var moved := Rename(made, path, destination);
            && Get(moved, path).None? && Get(moved, destination) == Some(entry)
            && CanMakeDirs(moved, Parent(path)) && PutIn(moved, path, entry) == Put(made, destination, entry)
  {
    hide Get, MakeDirs, CanMakeDirs, Drop, Put;
    PutAndDropCommute(made, path, destination, entry);
    GetPut(Drop(made, path), destination, entry);
    var both := Put(made, destination, entry);
    PutBack(both, path);
    DropKeepsParent(both, path);
  }

  lemma RestoredMove(w: Workspace, request: Request, moved: Workspace)
    requires Refusal(w, request).None? && Feasible(w.outside, request) && request.destination.Some?
    requires moved.vault == w.vault[request.id := Kept(request)]
    requires CanMakeDirs(moved.outside, Parent(request.path))
    requires PutIn(moved.outside, request.path, request.expected) == PutIn(w.outside, request.destination.value, request.expected)
    requires Offer(moved, request.id) == Ok(RestoreManifest(request.id, request.path, RecordOf(request), request.expected))
    requires RestoreRefusal(moved, Offer(moved, request.id).value).None?
    ensures Restore(moved, Offer(moved, request.id).value, None)
         == (Workspace(PutIn(w.outside, request.destination.value, request.expected), w.vault), None)
  {
    hide Get, MakeDirs, CanMakeDirs, Drop, Put, Room, Fits, TargetDiffers, RestoreRefusal, Offer, PutIn;
    assert moved.vault - {request.id} == w.vault by { NotRefused(w, request); }
  }
}
