/**
 File trees as the structured file operations see them: regular files and directories, addressed
 by paths of names. Names contain no separator, and there are no links. A directory does not order
 its entries.
 */
module FileTree {
  import opened Common

  type Path = seq<string>

  // File contents. Text that parses as a recovery record is kept in parsed form, with its size.
  datatype Content =
    | Raw(bytes: seq<bv8>)
    | RecordText(record: RecoveryRecord, size: nat)

  // The record written beside a payload. The digest of the payload is represented by the payload.
  datatype RecoveryRecord = RecoveryRecord(operationId: string, originalPath: Path, destinationPath: Option<Path>, before: Node)

  datatype Node =
    | File(content: Content)
    | Dir(children: map<string, Node>)

  const EMPTY_DIR := Dir(map[])

  function ByteSize(content: Content): nat {
    match content
    case Raw(bytes) => |bytes|
    case RecordText(_, size) => size
  }

  // ---------------------------------------------------------------- looking up and changing

  function Get(node: Node, path: Path): Option<Node>
    decreases |path|
  {
    if path == [] then Some(node)
    else if node.File? || path[0] !in node.children then None
    else Get(node.children[path[0]], path[1..])
  }

  // A missing entry counts as an empty directory where directories are made on the way.
  function Child(node: Node, name: string): Node
    requires node.Dir?
  {
    if name in node.children then node.children[name] else EMPTY_DIR
  }

  // mkdir with the recursive option: fails on a file in the way.
  predicate CanMakeDirs(node: Node, path: Path)
    decreases |path|
  {
    node.Dir? && (path != [] ==> CanMakeDirs(Child(node, path[0]), path[1..]))
  }

  function MakeDirs(node: Node, path: Path): Node
    requires CanMakeDirs(node, path)
    decreases |path|
  {
    if path == [] then node
    else Dir(node.children[path[0] := MakeDirs(Child(node, path[0]), path[1..])])
  }

  // Setting the entry at a path whose parent directory exists.
  function Put(node: Node, path: Path, entry: Node): Node
    requires path != [] && Get(node, path[..|path| - 1]).Some? && Get(node, path[..|path| - 1]).value.Dir?
    decreases |path|
  {
    if |path| == 1 then
      assert Get(node, path[..0]) == Some(node);
      Dir(node.children[path[0] := entry])
    else
      assert path[..|path| - 1][1..] == path[1..][..|path| - 2];
      Dir(node.children[path[0] := Put(node.children[path[0]], path[1..], entry)])
  }

  function Drop(node: Node, path: Path): Node
    requires path != [] && Get(node, path).Some?
    decreases |path|
  {
    if |path| == 1 then Dir(node.children - {path[0]})
    else Dir(node.children[path[0] := Drop(node.children[path[0]], path[1..])])
  }

  function Parent(path: Path): Path
    requires path != []
  {
    path[..|path| - 1]
  }

  function Base(path: Path): string
    requires path != []
  {
    path[|path| - 1]
  }

  predicate HasParent(node: Node, path: Path)
    requires path != []
  {
    Get(node, Parent(path)).Some? && Get(node, Parent(path)).value.Dir?
  }

  // ---------------------------------------------------------------- laws

  lemma {:induction false} GetSplit(node: Node, path: Path, more: Path)
    ensures Get(node, path + more) == (match Get(node, path) case None => None case Some(inner) => Get(inner, more))
    decreases |path|
  {
    if path == [] {
      assert path + more == more;
    } else {
      assert (path + more)[1..] == path[1..] + more;
      if node.Dir? && path[0] in node.children { GetSplit(node.children[path[0]], path[1..], more); }
    }
  }

  /** Taking an entry out and putting it back gives the same tree. */
  lemma {:induction false} PutBack(node: Node, path: Path)
    requires path != [] && Get(node, path).Some?
    ensures HasParent(Drop(node, path), path) && Get(Drop(node, path), path).None?
    ensures Put(Drop(node, path), path, Get(node, path).value) == node
    decreases |path|
  {
    var dropped := Drop(node, path);
    if |path| == 1 {
      assert Parent(path) == [] && Get(dropped, []) == Some(dropped);
      assert path[1..] == [];
      assert (node.children - {path[0]})[path[0] := node.children[path[0]]] == node.children;
    } else {
      PutBack(node.children[path[0]], path[1..]);
      assert Parent(path)[1..] == Parent(path[1..]);
      assert dropped.children[path[0] := node.children[path[0]]] == node.children;
    }
  }

  lemma {:induction false} GetPut(node: Node, path: Path, entry: Node)
    requires path != [] && HasParent(node, path)
    ensures Get(Put(node, path, entry), path) == Some(entry)
    decreases |path|
  {
    if |path| == 1 {
      assert path[1..] == [] && Parent(path) == [];
    } else {
      assert Parent(path)[1..] == Parent(path[1..]);
      GetPut(node.children[path[0]], path[1..], entry);
    }
  }

  lemma {:induction false} DropKeepsParent(node: Node, path: Path)
    requires path != [] && Get(node, path).Some?
    ensures CanMakeDirs(Drop(node, path), Parent(path)) && MakeDirs(Drop(node, path), Parent(path)) == Drop(node, path)
    decreases |path|
  {
    var dropped := Drop(node, path);
    if |path| == 1 {
      assert Parent(path) == [];
    } else {
      DropKeepsParent(node.children[path[0]], path[1..]);
      assert Parent(path)[1..] == Parent(path[1..]);
      assert dropped.children[path[0] := dropped.children[path[0]]] == dropped.children;
    }
  }

  // What the inventory records about a path.
  datatype Listed = Nothing | Directory | Regular(content: Content)

  function ListedAt(node: Node, path: Path): Listed {
    match Get(node, path)
    case None => Nothing
    case Some(File(content)) => Regular(content)
    case Some(Dir(_)) => Directory
  }

  /** A tree is determined by what the inventory lists at each of its paths; this is why the digest
      of the inventory can stand for the tree. */
  lemma {:induction false} InventoryDeterminesTree(left: Node, right: Node)
    requires forall path :: ListedAt(left, path) == ListedAt(right, path)
    ensures left == right
    decreases left
  {
    assert ListedAt(left, []) == ListedAt(right, []);
    if left.Dir? {
      forall name ensures name in left.children <==> name in right.children {
        assert ListedAt(left, [name]) == ListedAt(right, [name]);
        if name in left.children { assert Get(left, [name]) == Some(left.children[name]) by { assert [name][1..] == []; } }
        if name in right.children { assert Get(right, [name]) == Some(right.children[name]) by { assert [name][1..] == []; } }
      }
      forall name | name in left.children ensures left.children[name] == right.children[name] {
        forall path: Path ensures ListedAt(left.children[name], path) == ListedAt(right.children[name], path) {
          assert ([name] + path)[1..] == path;
          assert ListedAt(left, [name] + path) == ListedAt(right, [name] + path);
        }
        InventoryDeterminesTree(left.children[name], right.children[name]);
      }
      assert left.children == right.children;
    }
  }

  // ---------------------------------------------------------------- counting

  datatype Measure = Files | Entries | Bytes

  // What a tree adds up to: its files, its entries counting directories, or its bytes.
  ghost function Total(node: Node, measure: Measure): nat
    decreases node, 1
  {
    match node
    case File(content) => if measure == Bytes then ByteSize(content) else 1
    case Dir(children) => (if measure == Entries then 1 else 0) + TotalOf(node, children.Keys, measure)
  }

  ghost function TotalOf(dir: Node, names: set<string>, measure: Measure): nat
    requires dir.Dir? && names <= dir.children.Keys
    decreases dir, 0, names
  {
    if names == {} then 0
    else
      var name :| name in names;
      Total(dir.children[name], measure) + TotalOf(dir, names - {name}, measure)
  }

  lemma {:induction false} TotalOfOne(dir: Node, names: set<string>, name: string, measure: Measure)
    requires dir.Dir? && names <= dir.children.Keys && name in names
    ensures TotalOf(dir, names, measure) == Total(dir.children[name], measure) + TotalOf(dir, names - {name}, measure)
    decreases names
  {
    var pick :| pick in names && TotalOf(dir, names, measure) == Total(dir.children[pick], measure) + TotalOf(dir, names - {pick}, measure);
    if pick != name {
      TotalOfOne(dir, names - {pick}, name, measure);
      TotalOfOne(dir, names - {name}, pick, measure);
      assert names - {pick} - {name} == names - {name} - {pick};
    }
  }

  lemma {:induction false} TotalOfSame(left: Node, right: Node, names: set<string>, measure: Measure)
    requires left.Dir? && right.Dir? && names <= left.children.Keys && names <= right.children.Keys
    requires forall name | name in names :: left.children[name] == right.children[name]
    ensures TotalOf(left, names, measure) == TotalOf(right, names, measure)
    decreases names
  {
    if names != {} {
      var name :| name in names;
      TotalOfOne(left, names, name, measure);
      TotalOfOne(right, names, name, measure);
      TotalOfSame(left, right, names - {name}, measure);
    }
  }

  /** A directory adds up to one of its entries and the rest. */
  lemma TotalSplit(children: map<string, Node>, name: string, measure: Measure)
    requires name in children
    ensures Total(Dir(children), measure) == Total(Dir(children - {name}), measure) + Total(children[name], measure)
  {
    var all, rest := Dir(children), Dir(children - {name});
    TotalOfOne(all, children.Keys, name, measure);
    TotalOfSame(all, rest, children.Keys - {name}, measure);
    assert rest.children.Keys == children.Keys - {name};
  }

  lemma TotalPut(children: map<string, Node>, name: string, entry: Node, measure: Measure)
    ensures Total(Dir(children[name := entry]), measure) == Total(Dir(children - {name}), measure) + Total(entry, measure)
  {
    TotalSplit(children[name := entry], name, measure);
    assert children[name := entry] - {name} == children - {name};
  }

  lemma TotalDropped(children: map<string, Node>, name: string, measure: Measure)
    ensures Total(Dir(children - {name}), measure) <= Total(Dir(children), measure)
  {
    if name in children { TotalSplit(children, name, measure); } else { assert children - {name} == children; }
  }

  lemma TotalEmpty(measure: Measure)
    ensures Total(EMPTY_DIR, measure) == if measure == Entries then 1 else 0
  {
  }

  lemma {:induction false} FilesAreEntries(node: Node)
    ensures Total(node, Files) <= Total(node, Entries)
    decreases node, 1
  {
    if node.Dir? { FilesAreEntriesOf(node, node.children.Keys); }
  }

  lemma {:induction false} FilesAreEntriesOf(dir: Node, names: set<string>)
    requires dir.Dir? && names <= dir.children.Keys
    ensures TotalOf(dir, names, Files) <= TotalOf(dir, names, Entries)
    decreases dir, 0, names
  {
    if names != {} {
      var name :| name in names;
      FilesAreEntries(dir.children[name]);
      FilesAreEntriesOf(dir, names - {name});
      TotalOfOne(dir, names, name, Files);
      TotalOfOne(dir, names, name, Entries);
    }
  }

  // A tree of which some entries are missing and some files are shorter: what a copy or a removal
  // that stops half way can leave.
  ghost predicate PartOf(part: Node, whole: Node)
    decreases part
  {
    match part
    case File(content) => whole.File? && ByteSize(content) <= ByteSize(whole.content)
    case Dir(children) =>
      && whole.Dir? && children.Keys <= whole.children.Keys
      && forall name | name in children :: PartOf(children[name], whole.children[name])
  }

  lemma {:induction false} PartTotal(part: Node, whole: Node, measure: Measure)
    requires PartOf(part, whole)
    ensures Total(part, measure) <= Total(whole, measure)
    decreases part, 1
  {
    if part.Dir? {
      PartTotalOf(part, whole, part.children.Keys, measure);
      MoreNames(whole, part.children.Keys, whole.children.Keys, measure);
    }
  }

  lemma {:induction false} PartTotalOf(part: Node, whole: Node, names: set<string>, measure: Measure)
    requires part.Dir? && PartOf(part, whole) && names <= part.children.Keys
    ensures TotalOf(part, names, measure) <= TotalOf(whole, names, measure)
    decreases part, 0, names
  {
    if names != {} {
      var name :| name in names;
      PartTotal(part.children[name], whole.children[name], measure);
      PartTotalOf(part, whole, names - {name}, measure);
      TotalOfOne(part, names, name, measure);
      TotalOfOne(whole, names, name, measure);
    }
  }

  lemma {:induction false} MoreNames(dir: Node, fewer: set<string>, names: set<string>, measure: Measure)
    requires dir.Dir? && fewer <= names <= dir.children.Keys
    ensures TotalOf(dir, fewer, measure) <= TotalOf(dir, names, measure)
    decreases names
  {
    if fewer != names {
      var name :| name in names && name !in fewer;
      TotalOfOne(dir, names, name, measure);
      MoreNames(dir, fewer, names - {name}, measure);
    }
  }

  // ---------------------------------------------------------------- making directories

  lemma {:induction false} PrefixCanBeMade(node: Node, path: Path, count: nat)
    requires count <= |path| && CanMakeDirs(node, path)
    ensures CanMakeDirs(node, path[..count])
    decreases count
  {
    if count > 0 {
      PrefixCanBeMade(Child(node, path[0]), path[1..], count - 1);
      assert path[..count][1..] == path[1..][..count - 1];
    }
  }

  /** Directories can be made exactly where no file stands on the way. */
  lemma {:induction false} CanMakeExactly(node: Node, path: Path)
    ensures CanMakeDirs(node, path) <==> forall n | 0 <= n <= |path| :: !(Get(node, path[..n]).Some? && Get(node, path[..n]).value.File?)
    decreases |path|
  {
    assert path[..0] == [];
    if path != [] && node.Dir? {
      var inner := Child(node, path[0]);
      CanMakeExactly(inner, path[1..]);
      forall n | 0 < n <= |path|
        ensures (Get(node, path[..n]).Some? && Get(node, path[..n]).value.File?)
                <==> (Get(inner, path[1..][..n - 1]).Some? && Get(inner, path[1..][..n - 1]).value.File?)
      {
        assert path[..n][1..] == path[1..][..n - 1];
        if path[0] !in node.children { NothingInside(path[1..][..n - 1]); }
      }
      if !CanMakeDirs(inner, path[1..]) {
        var m :| 0 <= m <= |path[1..]| && Get(inner, path[1..][..m]).Some? && Get(inner, path[1..][..m]).value.File?;
        assert Get(node, path[..m + 1]).Some? && Get(node, path[..m + 1]).value.File?;
      }
    } else {
      assert Get(node, path[..0]) == Some(node);
    }
  }

  /** Making directories gives every directory on the way, and changes nothing off the way. */
  lemma {:induction false} MadeDirs(node: Node, path: Path, other: Path)
    requires CanMakeDirs(node, path)
    ensures Get(MakeDirs(node, path), path).Some? && Get(MakeDirs(node, path), path).value.Dir?
    ensures !(other <= path) ==> Get(MakeDirs(node, path), other) == Get(node, other)
    ensures match Get(node, other)
            case None => true
            case Some(File(_)) => Get(MakeDirs(node, path), other) == Get(node, other)
            case Some(Dir(_)) => Get(MakeDirs(node, path), other).Some? && Get(MakeDirs(node, path), other).value.Dir?
    decreases |path|
  {
    if path != [] {
      var inner := Child(node, path[0]);
      if other != [] && other[0] == path[0] {
        MadeDirs(inner, path[1..], other[1..]);
        assert !(other <= path) ==> !(other[1..] <= path[1..]);
        if path[0] !in node.children { assert Get(node, other) == None; NothingInside(other[1..]); }
      } else {
        MadeDirs(inner, path[1..], []);
      }
    }
  }

  lemma NothingInside(path: Path)
    ensures path != [] ==> Get(EMPTY_DIR, path) == None
  {
  }

  /** Making directories that are there changes nothing; otherwise the tree changes. */
  lemma {:induction false} MakingExisting(node: Node, path: Path)
    requires CanMakeDirs(node, path)
    ensures MakeDirs(node, path) == node <==> Get(node, path).Some?
    decreases |path|
  {
    MadeDirs(node, path, path);
    if path != [] && Get(node, path).Some? {
      MakingExisting(node.children[path[0]], path[1..]);
      assert node.children[path[0] := node.children[path[0]]] == node.children;
    }
  }

  /** Making directories below an entry makes them in that entry. */
  lemma {:induction false} MadeInside(node: Node, path: Path, rest: Path)
    requires CanMakeDirs(node, path + rest) && Get(node, path).Some?
    ensures CanMakeDirs(Get(node, path).value, rest)
    ensures Get(MakeDirs(node, path + rest), path) == Some(MakeDirs(Get(node, path).value, rest))
    decreases |path|
  {
    if path == [] {
      assert path + rest == rest;
    } else {
      assert (path + rest)[1..] == path[1..] + rest;
      MadeInside(node.children[path[0]], path[1..], rest);
    }
  }

  lemma PrefixExists(node: Node, path: Path, count: nat)
    requires count <= |path| && Get(node, path).Some?
    ensures Get(node, path[..count]).Some?
  {
    GetSplit(node, path[..count], path[count..]);
    assert path[..count] + path[count..] == path;
  }

  /** Entries at unrelated paths can be taken out and put in, in either order. */
  lemma {:induction false} PutAndDropCommute(node: Node, gone: Path, come: Path, entry: Node)
    requires gone != [] && come != [] && !(gone <= come) && !(come <= gone)
    requires Get(node, gone).Some? && HasParent(node, come)
    ensures HasParent(Drop(node, gone), come)
    ensures Get(Put(node, come, entry), gone) == Get(node, gone)
    ensures Put(Drop(node, gone), come, entry) == Drop(Put(node, come, entry), gone)
    decreases |gone|
  {
    if gone[0] == come[0] {
      assert gone == [gone[0]] + gone[1..] && come == [come[0]] + come[1..];
      assert |gone| > 1 && |come| > 1;
      assert Parent(come)[1..] == Parent(come[1..]);
      var inner := node.children[gone[0]];
      PutAndDropCommute(inner, gone[1..], come[1..], entry);
      var both := Put(Drop(inner, gone[1..]), come[1..], entry);
      assert node.children[gone[0] := Drop(inner, gone[1..])][come[0] := both] == node.children[come[0] := Put(inner, come[1..], entry)][gone[0] := both];
    } else {
      UnrelatedHeads(node, gone, come, entry);
    }
  }

  lemma UnrelatedHeads(node: Node, gone: Path, come: Path, entry: Node)
    requires gone != [] && come != [] && gone[0] != come[0]
    requires Get(node, gone).Some? && HasParent(node, come)
    ensures HasParent(Drop(node, gone), come)
    ensures Get(Put(node, come, entry), gone) == Get(node, gone)
    ensures Put(Drop(node, gone), come, entry) == Drop(Put(node, come, entry), gone)
  {
    var dropped, put := Drop(node, gone), Put(node, come, entry);
    if |come| == 1 {
      assert Parent(come) == [] && Get(dropped, []) == Some(dropped);
    } else {
      assert Parent(come)[1..] == Parent(come[1..]);
      assert dropped.children[come[0]] == node.children[come[0]];
    }
    assert put.children[gone[0]] == node.children[gone[0]];
    assert Put(dropped, come, entry).children == Drop(put, gone).children;
  }
}
