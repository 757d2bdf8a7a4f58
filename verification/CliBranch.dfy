/**
 The active branch of an imported CLI session (session-service.ts): the records form a tree by
 parent identifiers, and the branch is the path from a root to the last record.
 */
module CliBranch {
  import opened Common

  datatype Entry = Entry(id: string, parentId: Option<string>, body: string)

  datatype Error = DuplicateId | UnresolvedParent | Cycle

  // Both a null and an empty parent identifier make a root.
  predicate IsRoot(e: Entry) {
    e.parentId.None? || e.parentId.value == ""
  }

  predicate UniqueIds(entries: seq<Entry>) {
    forall i, j | 0 <= i < j < |entries| :: entries[i].id != entries[j].id
  }

  predicate ParentsResolve(entries: seq<Entry>) {
    forall i | 0 <= i < |entries| && !IsRoot(entries[i]) :: exists j | 0 <= j < |entries| :: entries[j].id == entries[i].parentId.value
  }

  // Each entry is the child of the one before.
  predicate Linked(path: seq<Entry>) {
    forall i | 0 < i < |path| :: !IsRoot(path[i]) && path[i].parentId.value == path[i - 1].id
  }

  predicate EndsAtLeaf(path: seq<Entry>, entries: seq<Entry>) {
    && path != [] && entries != [] && path[|path| - 1] == entries[|entries| - 1]
    && Linked(path) && forall e | e in path :: e in entries
  }

  predicate IsBranch(path: seq<Entry>, entries: seq<Entry>) {
    EndsAtLeaf(path, entries) && IsRoot(path[0])
  }

  lemma SameId(entries: seq<Entry>, a: Entry, b: Entry)
    requires UniqueIds(entries) && a in entries && b in entries && a.id == b.id
    ensures a == b
  {
    var i :| 0 <= i < |entries| && entries[i] == a;
    var j :| 0 <= j < |entries| && entries[j] == b;
    assert i == j;
  }

  /** No entry appears twice on a branch. */
  lemma {:induction false} NoRepeats(entries: seq<Entry>, path: seq<Entry>, i: nat, j: nat)
    requires UniqueIds(entries) && IsBranch(path, entries) && i < j < |path|
    ensures path[i] != path[j]
    decreases i
  {
    if path[i] == path[j] && i > 0 {
      SameId(entries, path[i - 1], path[j - 1]);
      NoRepeats(entries, path, i - 1, j - 1);
    }
  }

  // Two paths to the last entry agree as far back as both go.
  lemma {:induction false} PathsAgree(entries: seq<Entry>, left: seq<Entry>, right: seq<Entry>, back: nat)
    requires UniqueIds(entries) && EndsAtLeaf(left, entries) && EndsAtLeaf(right, entries)
    requires back < |left| && back < |right|
    ensures left[|left| - 1 - back] == right[|right| - 1 - back]
  {
    if back > 0 {
      PathsAgree(entries, left, right, back - 1);
      SameId(entries, left[|left| - 1 - back], right[|right| - 1 - back]);
    }
  }

  /** There is at most one branch. */
  lemma BranchUnique(entries: seq<Entry>, left: seq<Entry>, right: seq<Entry>)
    requires UniqueIds(entries) && IsBranch(left, entries) && IsBranch(right, entries)
    ensures left == right
  {
    var shorter := if |left| <= |right| then |left| else |right|;
    PathsAgree(entries, left, right, shorter - 1);
    assert |left| == |right|;
    forall k | 0 <= k < |left| ensures left[k] == right[k] {
      PathsAgree(entries, left, right, |left| - 1 - k);
    }
  }

  // A path whose first entry has its parent on the path cannot be continued to a root.
  lemma NoBranch(entries: seq<Entry>, path: seq<Entry>, j: nat, branch: seq<Entry>)
    requires UniqueIds(entries) && EndsAtLeaf(path, entries) && j < |path|
    requires !IsRoot(path[0]) && path[0].parentId.value == path[j].id
    ensures !IsBranch(branch, entries)
  {
    if IsBranch(branch, entries) {
      if |branch| <= |path| {
        PathsAgree(entries, branch, path, |branch| - 1);
      } else {
        var gap := |branch| - |path|;
        PathsAgree(entries, branch, path, |path| - 1);
        PathsAgree(entries, branch, path, |path| - 1 - j);
        SameId(entries, branch[gap - 1], path[j]);
        NoRepeats(entries, branch, gap - 1, gap + j);
      }
    }
  }

  // The table from identifiers to entries.
  predicate Indexes(byId: map<string, Entry>, entries: seq<Entry>) {
    && (forall id | id in byId :: byId[id] in entries && byId[id].id == id)
    && forall e | e in entries :: e.id in byId && byId[e.id] == e
  }

  /** The import walks from the last entry to a root. It succeeds exactly when identifiers are unique,
      parents exist and the last entry has a root among its ancestors; what it returns is then the
      only branch. */
  method ActiveBranch(entries: seq<Entry>) returns (r: Result<seq<Entry>, Error>)
    ensures !UniqueIds(entries) ==> r == Err(DuplicateId)
    ensures UniqueIds(entries) && !ParentsResolve(entries) ==> r == Err(UnresolvedParent)
    ensures UniqueIds(entries) && ParentsResolve(entries) && entries == [] ==> r == Ok([])
    ensures UniqueIds(entries) && ParentsResolve(entries) && entries != [] ==>
      match r
      case Ok(branch) => IsBranch(branch, entries)
      case Err(error) => error == Cycle && forall branch :: !IsBranch(branch, entries)
  {
    var byId: map<string, Entry> := map[];
    for i := 0 to |entries|
      invariant UniqueIds(entries[..i]) && Indexes(byId, entries[..i])
    {
      assert entries[..i + 1] == entries[..i] + [entries[i]];
      if entries[i].id in byId {
        var k :| 0 <= k < i && entries[..i][k] == byId[entries[i].id];
        return Err(DuplicateId);
      }
      byId := byId[entries[i].id := entries[i]];
    }
    assert entries[..|entries|] == entries;
    for i := 0 to |entries|
      invariant forall k | 0 <= k < i && !IsRoot(entries[k]) :: entries[k].parentId.value in byId
    {
      if !IsRoot(entries[i]) && entries[i].parentId.value !in byId {
        return Err(UnresolvedParent);
      }
    }
    forall i | 0 <= i < |entries| && !IsRoot(entries[i])
      ensures exists j | 0 <= j < |entries| :: entries[j].id == entries[i].parentId.value
    {
      assert byId[entries[i].parentId.value] in entries;
    }
    if entries == [] {
      return Ok([]);
    }
    r := Walk(entries, byId);
  }

  // The state of the walk: the path so far and the entry to put in front of it next.
  predicate Walking(entries: seq<Entry>, branch: seq<Entry>, current: Option<Entry>)
    requires entries != []
  {
    && (current.Some? ==> current.value in entries)
    && if branch == [] then current == Some(entries[|entries| - 1])
       else
         && EndsAtLeaf(branch, entries)
         && match current
            case None => IsRoot(branch[0])
            case Some(entry) => !IsRoot(branch[0]) && branch[0].parentId.value == entry.id
  }

  lemma WalkOn(entries: seq<Entry>, branch: seq<Entry>, entry: Entry, next: Option<Entry>)
    requires entries != [] && Walking(entries, branch, Some(entry))
    requires match next
             case None => IsRoot(entry)
             case Some(parent) => parent in entries && !IsRoot(entry) && entry.parentId.value == parent.id
    ensures Walking(entries, [entry] + branch, next)
  {
    var path := [entry] + branch;
    forall k | 0 < k < |path| ensures !IsRoot(path[k]) && path[k].parentId.value == path[k - 1].id {
      assert path[k] == branch[k - 1];
    }
    forall e | e in path ensures e in entries {
    }
  }

  method Walk(entries: seq<Entry>, byId: map<string, Entry>) returns (r: Result<seq<Entry>, Error>)
    requires entries != [] && UniqueIds(entries) && Indexes(byId, entries)
    requires forall e | e in entries && !IsRoot(e) :: e.parentId.value in byId
    ensures match r
            case Ok(branch) => IsBranch(branch, entries)
            case Err(error) => error == Cycle && forall branch :: !IsBranch(branch, entries)
  {
    hide UniqueIds, EndsAtLeaf;
    var branch: seq<Entry> := [];
    var seen: set<string> := {};
    var current := Some(entries[|entries| - 1]);
    while current.Some?
      invariant Walking(entries, branch, current)
      invariant seen == set e | e in branch :: e.id
      invariant seen <= byId.Keys
      decreases |byId.Keys - seen|, current.Some?
    {
      var entry := current.value;
      if entry.id in seen {
        var j :| 0 <= j < |branch| && branch[j].id == entry.id;
        forall other ensures !IsBranch(other, entries) { NoBranch(entries, branch, j, other); }
        return Err(Cycle);
      }
      assert entry.id in byId.Keys - seen && byId.Keys - (seen + {entry.id}) == byId.Keys - seen - {entry.id};
      var parent := if IsRoot(entry) then None else Some(byId[entry.parentId.value]);
      WalkOn(entries, branch, entry, parent);
      seen := seen + {entry.id};
      branch := [entry] + branch;
      current := parent;
    }
    return Ok(branch);
  }
}
