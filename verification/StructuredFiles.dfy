/**
 The structured file operations (structured-files.ts) as they change a workspace step by step,
 proved against RecoverySpec. A failing clean-up leaves what the fault says.
 */
module StructuredFiles {
  import opened Common
  import opened FileTree
  import opened RecoverySpec

  // The inventory walk: it stops at the first entry or byte over a limit. Entries are visited in
  // any order; the counters continue from those of the siblings before.
  method Inventory(node: Node, entries: nat, bytes: nat) returns (ok: bool, allEntries: nat, allBytes: nat)
    requires entries < MAX_OPERATION_ENTRIES && bytes <= MAX_OPERATION_BYTES
    ensures ok <==> entries + Total(node, Entries) <= MAX_OPERATION_ENTRIES && bytes + Total(node, Bytes) <= MAX_OPERATION_BYTES
    ensures ok ==> allEntries == entries + Total(node, Entries) && allBytes == bytes + Total(node, Bytes)
    decreases node
  {
    allEntries, allBytes := entries, bytes;
    if node.File? {
      allBytes := allBytes + ByteSize(node.content);
      if allBytes > MAX_OPERATION_BYTES {
        return false, allEntries, allBytes;
      }
      return true, allEntries + 1, allBytes;
    }
    allEntries := allEntries + 1;
    var left := node.children.Keys;
    while left != {}
      invariant left <= node.children.Keys
      invariant allEntries + TotalOf(node, left, Entries) == entries + Total(node, Entries)
      invariant allBytes + TotalOf(node, left, Bytes) == bytes + Total(node, Bytes)
      invariant allEntries <= MAX_OPERATION_ENTRIES && allBytes <= MAX_OPERATION_BYTES
      decreases |left|
    {
      var name :| name in left;
      TotalOfOne(node, left, name, Entries);
      TotalOfOne(node, left, name, Bytes);
      SomethingIsAnEntry(node.children[name]);
      if allEntries >= MAX_OPERATION_ENTRIES {
        return false, allEntries, allBytes;
      }
      ok, allEntries, allBytes := Inventory(node.children[name], allEntries, allBytes);
      if !ok {
        return;
      }
      left := left - {name};
    }
    ok := true;
  }

  lemma SomethingIsAnEntry(node: Node)
    ensures Total(node, Entries) >= 1
  {
  }

  // The walk over the vault: it stops counting once a limit is passed, so what it returns is exact
  // as long as it is within the limits, and over a limit only when the vault is.
  method RecoveryUsage(node: Node, files: nat, bytes: nat) returns (allFiles: nat, allBytes: nat)
    requires node.Dir?
    ensures files <= allFiles <= files + Total(node, Files) && bytes <= allBytes <= bytes + Total(node, Bytes)
    ensures allFiles <= MAX_RECOVERY_ENTRIES && allBytes <= MAX_RECOVERY_BYTES ==>
      allFiles == files + Total(node, Files) && allBytes == bytes + Total(node, Bytes)
    decreases node
  {
    allFiles, allBytes := files, bytes;
    var left := node.children.Keys;
    while left != {}
      invariant left <= node.children.Keys
      invariant files <= allFiles && allFiles + TotalOf(node, left, Files) == files + Total(node, Files)
      invariant bytes <= allBytes && allBytes + TotalOf(node, left, Bytes) == bytes + Total(node, Bytes)
      decreases |left|
    {
      var name :| name in left;
      TotalOfOne(node, left, name, Files);
      TotalOfOne(node, left, name, Bytes);
      var child := node.children[name];
      if child.Dir? {
        allFiles, allBytes := RecoveryUsage(child, allFiles, allBytes);
      } else {
        allFiles, allBytes := allFiles + 1, allBytes + ByteSize(child.content);
      }
      if allFiles > MAX_RECOVERY_ENTRIES || allBytes > MAX_RECOVERY_BYTES {
        return;
      }
      left := left - {name};
    }
  }

  // One target of verifyStructuredTargets.
  method CompareTarget(found: Option<Node>, expected: Option<Node>) returns (refusal: Option<Failure>)
    ensures refusal == Differs(found, expected)
  {
    if found.Some? {
      var ok, _, _ := Inventory(found.value, 0, 0);
      if !ok {
        return Some(TooLarge);
      }
    }
    return if found != expected then Some(Changed) else None;
  }

  class WorkspaceFiles {
    var outside: Node
    var vault: map<string, Node>

    constructor (outside: Node)
      ensures State() == Workspace(outside, map[])
    {
      this.outside, vault := outside, map[];
    }

    function State(): Workspace
      reads this
    {
      Workspace(outside, vault)
    }

    method VerifyTarget(path: Path, expected: Option<Node>) returns (refusal: Option<Failure>)
      ensures refusal == TargetDiffers(outside, path, expected)
    {
      if Protected(path) {
        return Some(Forbidden);
      }
      refusal := CompareTarget(Get(outside, path), expected);
    }

    // The checks of a delete or a move up to the creation of its vault entry.
    method Admit(request: Request) returns (refusal: Option<Failure>)
      ensures refusal == Refusal(State(), request)
    {
      refusal := VerifyTarget(request.path, Some(request.expected));
      if refusal.Some? {
        return;
      }
      if request.destination.Some? {
        refusal := VerifyTarget(request.destination.value, None);
        if refusal.Some? {
          return;
        }
      }
      var _, entries, bytes := Inventory(request.expected, 0, 0);
      var usedFiles, usedBytes := RecoveryUsage(Dir(vault), 0, 0);
      if usedFiles + entries + 1 > MAX_RECOVERY_ENTRIES || usedBytes + bytes > MAX_RECOVERY_BYTES {
        return Some(VaultFull);
      }
      return if request.id in vault then Some(IdTaken) else None;
    }

    method Execute(request: Request, fault: Option<Fault>) returns (failure: Option<Failure>)
      requires request.path != [] ==> PossibleFault(request, fault)
      modifies this
      ensures (State(), failure) == RecoverySpec.Execute(old(State()), request, fault)
    {
      failure := Admit(request);
      if failure.Some? {
        return;
      }
      var path, name := request.path, Base(request.path);
      ghost var before := vault;
      if fault.Some? {
        outside := Prepared(outside, request, fault.value.made);
        vault := Leaving(vault, request.id, fault.value.left);
        return Some(Broken);
      }
      vault := vault[request.id := Dir(map[RECORD := RecordOf(request)])];
      if request.destination.Some? {
        failure := Move(request);
      } else if name == RECORD && request.expected.Dir? {
        failure := Some(Broken);
      } else {
        vault := vault[request.id := Dir(vault[request.id].children[name := Get(outside, path).value])];
        outside := Drop(outside, path);
      }
      if failure.Some? {
        vault := vault - {request.id};
        assert vault == before;
      } else {
        assert vault == before[request.id := Kept(request)];
      }
    }

    // Copying the source to the vault entry, making the directories of the destination, renaming.
    method Move(request: Request) returns (failure: Option<Failure>)
      requires request.path != [] && request.destination.Some? && request.destination.value != []
      requires Get(outside, request.path) == Some(request.expected) && Get(outside, request.destination.value).None?
      requires request.id in vault && vault[request.id] == Dir(map[RECORD := RecordOf(request)])
      modifies this
      ensures failure == if Feasible(old(outside), request) then None else Some(Broken)
      ensures failure.Some? ==> outside == Prepared(old(outside), request, |request.destination.value|)
      ensures vault.Keys == old(vault).Keys && vault - {request.id} == old(vault) - {request.id}
      ensures failure.None? ==>
        && vault == old(vault)[request.id := Kept(request)]
        && CanRename(MakeDirs(old(outside), Parent(request.destination.value)), request.path, request.destination.value)
        && outside == Rename(MakeDirs(old(outside), Parent(request.destination.value)), request.path, request.destination.value)
    {
      var path, destination := request.path, request.destination.value;
      var name, parent := Base(path), Parent(destination);
      if name in vault[request.id].children {
        return Some(Broken);
      }
      vault := vault[request.id := Dir(vault[request.id].children[name := Get(outside, path).value])];
      if !CanMakeDirs(outside, parent) {
        return Some(Broken);
      }
      assert parent[..|parent|] == parent;
      MadeDirs(outside, parent, parent);
      MadeDirs(outside, parent, path);
      MissingIsNotAbove(outside, path, destination);
      assert path <= parent ==> path <= destination;
      outside := MakeDirs(outside, parent);
      if path <= destination {
        return Some(Broken);
      }
      outside := Rename(outside, path, destination);
      failure := None;
    }

    // Reading a record of the vault and offering its restore for approval.
    method CreateRestoreManifest(id: string) returns (manifest: Result<RestoreManifest, Failure>)
      ensures manifest == Offer(State(), id)
    {
      var record := InVault(State(), id, RECORD);
      if record.None? {
        return Err(Changed);
      }
      var refusal := CompareTarget(record, record);
      if refusal.Some? {
        return Err(TooLarge);
      }
      if record.value.Dir? || record.value.content.Raw? {
        return Err(InvalidRecord);
      }
      var claim := record.value.content.record;
      if claim.operationId != id || claim.originalPath == [] {
        return Err(InvalidRecord);
      }
      var stored := InVault(State(), id, Base(claim.originalPath));
      if stored.None? {
        return Err(Changed);
      }
      refusal := CompareTarget(stored, stored);
      if refusal.Some? {
        return Err(TooLarge);
      }
      if stored.value != claim.before {
        return Err(Mismatch);
      }
      refusal := VerifyTarget(claim.originalPath, None);
      if refusal.Some? {
        return Err(refusal.value);
      }
      return Ok(RestoreManifest(id, claim.originalPath, record.value, stored.value));
    }

    method ExecuteRestore(m: RestoreManifest, fault: Option<RestoreFault>) returns (failure: Option<Failure>)
      requires Genuine(m) && PossibleRestoreFault(State(), m, fault)
      modifies this
      ensures (State(), failure) == Restore(old(State()), m, fault)
    {
      failure := VerifyTarget(m.target, None);
      if failure.Some? {
        return;
      }
      failure := CompareTarget(InVault(State(), m.id, RECORD), Some(m.record));
      if failure.Some? {
        return;
      }
      failure := CompareTarget(InVault(State(), m.id, Base(m.target)), Some(m.stored));
      if failure.Some? {
        return;
      }
      var parent := Parent(m.target);
      if !CanMakeDirs(outside, parent) {
        return Some(Broken);
      }
      if fault.Some? && fault.value.BeforeRename? {
        outside := SomeDirs(outside, parent, fault.value.made);
        return Some(Broken);
      }
      MadeDirs(outside, parent, parent);
      outside := MakeDirs(outside, parent);
      outside := Put(outside, m.target, m.stored);
      if fault.Some? {
        vault := Leaving(vault, m.id, fault.value.left);
        return Some(Broken);
      }
      vault := vault - {m.id};
    }
  }
}
