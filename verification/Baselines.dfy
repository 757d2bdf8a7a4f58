/**
 File baselines (database.ts) and the revert of agent changes (review-service.ts). The agent's
 runtime writes a file first and reports the write afterwards; the report is recorded when it is
 delivered. A hash is represented by the bytes it is taken of, which makes it injective, and each
 path names one file.
 */
module BaselineSpec {
  import opened Common

  type Bytes = seq<bv8>

  // What a path holds; None is a missing file.
  type Content = Option<Bytes>

  datatype Baseline = Baseline(original: Content, latestAgentHash: Content, status: string)

  datatype Mutation = Mutation(thread: string, path: string, before: Content, after: Content, status: string)

  type Key = (string, string)

  datatype Workspace = Workspace(
    files: map<string, Bytes>,
    baselines: map<Key, Baseline>,   // by thread and path
    mutations: seq<Mutation>,        // the recorded reports
    inbox: seq<Mutation>,            // reports on their way
    announced: seq<Key>)             // the diff.change events of reverts

  const EMPTY_BOOKS := Workspace(map[], map[], [], [], [])

  function ContentOf(files: map<string, Bytes>, path: string): Content {
    if path in files then Some(files[path]) else None
  }

  function WithContent(files: map<string, Bytes>, path: string, content: Content): map<string, Bytes> {
    match content
    case None => files - {path}
    case Some(bytes) => files[path := bytes]
  }

  datatype Action =
    | AgentWrite(thread: string, path: string, after: Content, status: string)
    | Deliver
    | OutsideEdit(path: string, content: Content)
    | Revert(thread: string, path: string)

  // recordFileMutation: the first report of a file fixes its original; later ones only move on.
  function Recorded(baselines: map<Key, Baseline>, m: Mutation): map<Key, Baseline> {
    var key := (m.thread, m.path);
    if key !in baselines then baselines[key := Baseline(m.before, m.after, m.status)]
    else baselines[key := baselines[key].(latestAgentHash := m.after, status := m.status)]
  }

  datatype Outcome = Reverted | Conflict | NoBaseline

  function RevertOutcome(w: Workspace, thread: string, path: string): Outcome {
    if (thread, path) !in w.baselines then NoBaseline
    else if ContentOf(w.files, path) != w.baselines[(thread, path)].latestAgentHash then Conflict
    else Reverted
  }

  function AfterRevert(w: Workspace, thread: string, path: string): Workspace {
    var key := (thread, path);
    match RevertOutcome(w, thread, path)
    case NoBaseline => w
    case Conflict => w.(baselines := w.baselines[key := w.baselines[key].(status := "conflict")])
    case Reverted =>
      var original := w.baselines[key].original;
      w.(files := WithContent(w.files, path, original),
         baselines := w.baselines[key := Baseline(original, original, "reverted")],
         announced := w.announced + [key])
  }

  function Apply(w: Workspace, a: Action): Workspace {
    match a
    case AgentWrite(thread, path, after, status) =>
      w.(files := WithContent(w.files, path, after),
         inbox := w.inbox + [Mutation(thread, path, ContentOf(w.files, path), after, status)])
    case Deliver =>
      if w.inbox == [] then w
      else w.(inbox := w.inbox[1..], mutations := w.mutations + [w.inbox[0]], baselines := Recorded(w.baselines, w.inbox[0]))
    case OutsideEdit(path, content) => w.(files := WithContent(w.files, path, content))
    case Revert(thread, path) => AfterRevert(w, thread, path)
  }

  // ---------------------------------------------------------------- reverting once and twice

  lemma ContentWritten(files: map<string, Bytes>, path: string, content: Content, other: string)
    ensures ContentOf(WithContent(files, path, content), other) == if other == path then content else ContentOf(files, other)
  {
  }

  /** A revert either reports a conflict, leaves every file alone and would conflict again, or restores the stored
      original and nothing else. A second one right after a success succeeds and changes no file and
      no baseline; it is announced like the first. */
  lemma RevertRestores(w: Workspace, thread: string, path: string)
    requires (thread, path) in w.baselines
    ensures var w' := AfterRevert(w, thread, path);
            var outcome := RevertOutcome(w, thread, path);
            && w'.baselines[(thread, path)].original == w.baselines[(thread, path)].original
            && (forall other | other != (thread, path) ::
                  (other in w'.baselines <==> other in w.baselines) && (other in w.baselines ==> w'.baselines[other] == w.baselines[other]))
            && w'.mutations == w.mutations && w'.inbox == w.inbox
            && (outcome.Conflict? ==>
                  && w'.files == w.files && w'.announced == w.announced && w'.baselines[(thread, path)].status == "conflict"
                  && w'.baselines[(thread, path)].latestAgentHash == w.baselines[(thread, path)].latestAgentHash
                  && RevertOutcome(w', thread, path) == Conflict)
            && (outcome.Reverted? ==>
                  && ContentOf(w'.files, path) == w.baselines[(thread, path)].original
                  && w'.baselines[(thread, path)].status == "reverted" && w'.announced == w.announced + [(thread, path)]
                  && (forall other | other != path :: ContentOf(w'.files, other) == ContentOf(w.files, other))
                  && RevertOutcome(w', thread, path) == Reverted
                  && AfterRevert(w', thread, path) == w'.(announced := w'.announced + [(thread, path)]))
  {
    var w' := AfterRevert(w, thread, path);
    var key, original := (thread, path), w.baselines[(thread, path)].original;
    forall other ensures ContentOf(WithContent(w.files, path, original), other) == if other == path then original else ContentOf(w.files, other) {
      ContentWritten(w.files, path, original, other);
    }
    if RevertOutcome(w, thread, path).Reverted? {
      assert WithContent(w'.files, path, original) == w'.files;
      assert w'.baselines[key := Baseline(original, original, "reverted")] == w'.baselines;
    }
  }

  /** A report sets what the agent left and its status; it sets the original only if there is none. */
  lemma RecordedExactly(baselines: map<Key, Baseline>, m: Mutation, other: Key)
    ensures var key, after := (m.thread, m.path), Recorded(baselines, m);
            && key in after && after[key].latestAgentHash == m.after && after[key].status == m.status
            && after[key].original == (if key in baselines then baselines[key].original else m.before)
            && (other != key ==> (other in after <==> other in baselines) && (other in baselines ==> after[other] == baselines[other]))
  {
  }

  // ---------------------------------------------------------------- reverting every file of a thread

  function AllReverted(w: Workspace, thread: string, paths: seq<string>): Workspace {
    if paths == [] then w
    else AfterRevert(AllReverted(w, thread, paths[..|paths| - 1]), thread, paths[|paths| - 1])
  }

  // The paths whose revert has this outcome, judged before any of them is reverted.
  function WithOutcome(w: Workspace, thread: string, paths: seq<string>, outcome: Outcome): seq<string> {
    if paths == [] then []
    else
      var last := paths[|paths| - 1];
      WithOutcome(w, thread, paths[..|paths| - 1], outcome) + if RevertOutcome(w, thread, last) == outcome then [last] else []
  }

  lemma {:induction false} OthersUntouched(w: Workspace, thread: string, paths: seq<string>, path: string)
    requires path !in paths
    ensures ContentOf(AllReverted(w, thread, paths).files, path) == ContentOf(w.files, path)
    ensures forall key: Key | key.1 == path || key.0 != thread ::
              (key in AllReverted(w, thread, paths).baselines <==> key in w.baselines)
              && (key in w.baselines ==> AllReverted(w, thread, paths).baselines[key] == w.baselines[key])
    ensures RevertOutcome(AllReverted(w, thread, paths), thread, path) == RevertOutcome(w, thread, path)
  {
    if paths != [] {
      var before, last := AllReverted(w, thread, paths[..|paths| - 1]), paths[|paths| - 1];
      OthersUntouched(w, thread, paths[..|paths| - 1], path);
      if RevertOutcome(before, thread, last).Reverted? {
        ContentWritten(before.files, last, before.baselines[(thread, last)].original, path);
      }
    }
  }

  predicate Distinct(paths: seq<string>) {
    forall i, j | 0 <= i < j < |paths| :: paths[i] != paths[j]
  }

  /** Reverting a thread's files one after the other does to each what a revert of it alone would. */
  lemma {:induction false} EachAsAlone(w: Workspace, thread: string, paths: seq<string>, path: string)
    requires Distinct(paths) && path in paths
    ensures var w' := AllReverted(w, thread, paths);
            var alone := AfterRevert(w, thread, path);
            && ContentOf(w'.files, path) == ContentOf(alone.files, path)
            && ((thread, path) in w'.baselines <==> (thread, path) in alone.baselines)
            && ((thread, path) in w'.baselines ==> w'.baselines[(thread, path)] == alone.baselines[(thread, path)])
  {
    var init, last := paths[..|paths| - 1], paths[|paths| - 1];
    var before := AllReverted(w, thread, init);
    assert paths == init + [last];
    if path == last {
      OthersUntouched(w, thread, init, path);
      if RevertOutcome(w, thread, path).Reverted? {
        ContentWritten(before.files, path, before.baselines[(thread, path)].original, path);
        ContentWritten(w.files, path, w.baselines[(thread, path)].original, path);
      }
    } else {
      EachAsAlone(w, thread, init, path);
      if RevertOutcome(before, thread, last).Reverted? {
        ContentWritten(before.files, last, before.baselines[(thread, last)].original, path);
      }
    }
  }

  lemma {:induction false} OutcomesPartition(w: Workspace, thread: string, paths: seq<string>)
    requires forall path | path in paths :: (thread, path) in w.baselines
    ensures |WithOutcome(w, thread, paths, Reverted)| + |WithOutcome(w, thread, paths, Conflict)| == |paths|
  {
    hide RevertOutcome;
    if paths != [] {
      OutcomesPartition(w, thread, paths[..|paths| - 1]);
      HasOutcome(w, thread, paths[|paths| - 1]);
    }
  }

  lemma {:induction false} OutcomeOf(w: Workspace, thread: string, paths: seq<string>, outcome: Outcome, path: string)
    ensures path in WithOutcome(w, thread, paths, outcome) <==> path in paths && RevertOutcome(w, thread, path) == outcome
  {
    hide RevertOutcome;
    if paths != [] {
      var init, last := paths[..|paths| - 1], paths[|paths| - 1];
      OutcomeOf(w, thread, init, outcome, path);
      assert paths == init + [last];
      assert path in paths <==> path in init || path == last;
    }
  }

  lemma NothingReverted(w: Workspace, thread: string)
    ensures AllReverted(w, thread, []) == w && forall outcome: Outcome :: WithOutcome(w, thread, [], outcome) == []
  {
  }

  lemma HasOutcome(w: Workspace, thread: string, path: string)
    ensures RevertOutcome(w, thread, path).NoBaseline? <==> (thread, path) !in w.baselines
  {
  }

  lemma OneMoreReverted(w: Workspace, thread: string, paths: seq<string>, k: nat)
    requires k < |paths| && Distinct(paths)
    ensures var before := AllReverted(w, thread, paths[..k]);
            var outcome := RevertOutcome(before, thread, paths[k]);
            && outcome == RevertOutcome(w, thread, paths[k])
            && AllReverted(w, thread, paths[..k + 1]) == AfterRevert(before, thread, paths[k])
            && forall some: Outcome :: WithOutcome(w, thread, paths[..k + 1], some)
                                       == WithOutcome(w, thread, paths[..k], some) + if outcome == some then [paths[k]] else []
  {
    assert paths[..k + 1][..k] == paths[..k];
    OthersUntouched(w, thread, paths[..k], paths[k]);
  }

  /** What reverting all files of a thread comes to, file by file. */
  lemma AllRevertedMeans(w: Workspace, thread: string, paths: seq<string>, path: string)
    requires Distinct(paths) && forall path :: path in paths <==> (thread, path) in w.baselines
    ensures var before, after := ContentOf(w.files, path), ContentOf(AllReverted(w, thread, paths).files, path);
            var reverted := WithOutcome(w, thread, paths, Reverted);
            var conflicts := WithOutcome(w, thread, paths, Conflict);
            if path !in paths then path !in reverted && path !in conflicts && after == before
            else if RevertOutcome(w, thread, path).Reverted?
            then path in reverted && path !in conflicts && after == w.baselines[(thread, path)].original
            else path in conflicts && path !in reverted && after == before
  {
    OutcomeOf(w, thread, paths, Reverted, path);
    OutcomeOf(w, thread, paths, Conflict, path);
    if path in paths {
      EachAsAlone(w, thread, paths, path);
      RevertRestores(w, thread, path);
    } else {
      OthersUntouched(w, thread, paths, path);
    }
  }

  // ---------------------------------------------------------------- runs

  ghost predicate IsRun(states: seq<Workspace>, actions: seq<Action>) {
    && |states| == |actions| + 1
    && states[0].baselines == map[] && states[0].mutations == [] && states[0].inbox == []
    && forall i | 0 <= i < |actions| :: states[i + 1] == Apply(states[i], actions[i])
  }

  // The reports of every write so far, in the order of the writes.
  function Writes(states: seq<Workspace>, actions: seq<Action>, n: nat): seq<Mutation>
    requires |states| == |actions| + 1 && n <= |actions|
  {
    if n == 0 then []
    else
      Writes(states, actions, n - 1)
      + match actions[n - 1]
        case AgentWrite(thread, path, after, status) =>
          [Mutation(thread, path, ContentOf(states[n - 1].files, path), after, status)]
        case _ => []
  }

  /** Reports are recorded in the order of the writes they are about, none twice and none lost. */
  lemma {:induction false} ReportsInOrder(states: seq<Workspace>, actions: seq<Action>, n: nat)
    requires IsRun(states, actions) && n <= |actions|
    ensures states[n].mutations + states[n].inbox == Writes(states, actions, n)
  {
    if n > 0 {
      ReportsInOrder(states, actions, n - 1);
      assert states[n] == Apply(states[n - 1], actions[n - 1]);
      var before := states[n - 1];
      if actions[n - 1].Deliver? && before.inbox != [] {
        assert before.mutations + before.inbox == before.mutations + [before.inbox[0]] + before.inbox[1..];
      }
    }
  }

  predicate About(m: Mutation, key: Key) {
    (m.thread, m.path) == key
  }

  function FirstAbout(mutations: seq<Mutation>, key: Key): Option<Mutation> {
    if mutations == [] then None
    else if About(mutations[0], key) then Some(mutations[0])
    else FirstAbout(mutations[1..], key)
  }

  lemma {:induction false} FirstOfAppended(mutations: seq<Mutation>, more: seq<Mutation>, key: Key)
    ensures FirstAbout(mutations + more, key)
            == if FirstAbout(mutations, key).Some? then FirstAbout(mutations, key) else FirstAbout(more, key)
  {
    if mutations == [] {
      assert mutations + more == more;
    } else {
      FirstOfAppended(mutations[1..], more, key);
      assert (mutations + more)[1..] == mutations[1..] + more;
    }
  }

  // Baselines exist exactly for the files with a recorded report, and hold what the first says.
  ghost predicate OriginalsKept(w: Workspace) {
    forall key :: if key in w.baselines then FirstAbout(w.mutations, key).Some? && FirstAbout(w.mutations, key).value.before == w.baselines[key].original
                  else FirstAbout(w.mutations, key).None?
  }

  lemma ApplyKeepsOriginals(w: Workspace, a: Action)
    requires OriginalsKept(w)
    ensures OriginalsKept(Apply(w, a))
  {
    if a.Deliver? && w.inbox != [] {
      var m := w.inbox[0];
      forall key ensures FirstAbout(w.mutations + [m], key)
                         == if FirstAbout(w.mutations, key).Some? then FirstAbout(w.mutations, key) else if About(m, key) then Some(m) else None
      {
        FirstOfAppended(w.mutations, [m], key);
      }
    }
  }

  lemma {:induction false} RunKeepsOriginals(states: seq<Workspace>, actions: seq<Action>, n: nat)
    requires IsRun(states, actions) && n <= |actions|
    ensures OriginalsKept(states[n])
  {
    if n > 0 {
      RunKeepsOriginals(states, actions, n - 1);
      hide OriginalsKept;
      ApplyKeepsOriginals(states[n - 1], actions[n - 1]);
      assert states[n] == Apply(states[n - 1], actions[n - 1]);
    }
  }

  predicate FirstWrite(actions: seq<Action>, i: nat, thread: string, path: string) {
    && i < |actions| && actions[i].AgentWrite? && actions[i].thread == thread && actions[i].path == path
    && forall k | 0 <= k < i :: !(actions[k].AgentWrite? && actions[k].thread == thread && actions[k].path == path)
  }

  lemma {:induction false} NoWriteYet(states: seq<Workspace>, actions: seq<Action>, n: nat, thread: string, path: string)
    requires |states| == |actions| + 1 && n <= |actions|
    requires forall k | 0 <= k < n :: !(actions[k].AgentWrite? && actions[k].thread == thread && actions[k].path == path)
    ensures FirstAbout(Writes(states, actions, n), (thread, path)).None?
  {
    if n > 0 {
      NoWriteYet(states, actions, n - 1, thread, path);
      FirstOfAppended(Writes(states, actions, n - 1), Writes(states, actions, n)[|Writes(states, actions, n - 1)|..], (thread, path));
      var last := Writes(states, actions, n)[|Writes(states, actions, n - 1)|..];
      assert Writes(states, actions, n) == Writes(states, actions, n - 1) + last;
      assert !(actions[n - 1].AgentWrite? && actions[n - 1].thread == thread && actions[n - 1].path == path);
    }
  }

  lemma {:induction false} FirstOfWrites(states: seq<Workspace>, actions: seq<Action>, n: nat, i: nat, thread: string, path: string)
    requires |states| == |actions| + 1 && i < n <= |actions| && FirstWrite(actions, i, thread, path)
    ensures FirstAbout(Writes(states, actions, n), (thread, path)).Some?
    ensures FirstAbout(Writes(states, actions, n), (thread, path)).value.before == ContentOf(states[i].files, path)
  {
    var before := Writes(states, actions, n - 1);
    var last := Writes(states, actions, n)[|before|..];
    assert Writes(states, actions, n) == before + last;
    FirstOfAppended(before, last, (thread, path));
    if n == i + 1 {
      NoWriteYet(states, actions, i, thread, path);
    } else {
      FirstOfWrites(states, actions, n - 1, i, thread, path);
    }
  }

  /** Whatever agents, users and reverts do in between, a stored original is what the file held
      right before the thread's first write to it. */
  lemma OriginalIsFirstBefore(states: seq<Workspace>, actions: seq<Action>, n: nat, i: nat, thread: string, path: string)
    requires IsRun(states, actions) && n <= |actions| && FirstWrite(actions, i, thread, path)
    requires (thread, path) in states[n].baselines
    ensures i < n
    ensures states[n].baselines[(thread, path)].original == ContentOf(states[i].files, path)
  {
    RunKeepsOriginals(states, actions, n);
    ReportsInOrder(states, actions, n);
    FirstOfAppended(states[n].mutations, states[n].inbox, (thread, path));
    if n <= i {
      NoWriteYet(states, actions, n, thread, path);
    } else {
      FirstOfWrites(states, actions, n, i, thread, path);
    }
  }

  // ---------------------------------------------------------------- when a revert succeeds

  function LastAbout(mutations: seq<Mutation>, key: Key): Option<Mutation> {
    if mutations == [] then None
    else if About(mutations[|mutations| - 1], key) then Some(mutations[|mutations| - 1])
    else LastAbout(mutations[..|mutations| - 1], key)
  }

  lemma {:induction false} LastOfTail(mutations: seq<Mutation>, key: Key)
    requires mutations != []
    ensures LastAbout(mutations, key)
            == if LastAbout(mutations[1..], key).Some? then LastAbout(mutations[1..], key)
               else if About(mutations[0], key) then Some(mutations[0]) else None
  {
    var n := |mutations| - 1;
    if n == 0 {
      assert mutations[..0] == [];
    } else if !About(mutations[n], key) {
      LastOfTail(mutations[..n], key);
      assert mutations[..n][1..] == mutations[1..][..n - 1];
    }
  }

  // The file is as the thread left it, and the books say so or will once the reports are in.
  ghost predicate AsLeft(w: Workspace, thread: string, path: string, left: Content) {
    var key := (thread, path);
    && ContentOf(w.files, path) == left
    && if LastAbout(w.inbox, key).Some? then LastAbout(w.inbox, key).value.after == left
       else key in w.baselines && w.baselines[key].latestAgentHash == left
  }

  // An action that leaves the file, and the thread's books about it, alone.
  predicate Elsewhere(a: Action, thread: string, path: string) {
    match a
    case AgentWrite(_, p, _, _) => p != path
    case Deliver => true
    case OutsideEdit(p, _) => p != path
    case Revert(t, p) => p != path
  }

  lemma StaysAsLeft(w: Workspace, a: Action, thread: string, path: string, left: Content)
    requires AsLeft(w, thread, path, left) && Elsewhere(a, thread, path)
    ensures AsLeft(Apply(w, a), thread, path, left)
  {
    match a
    case AgentWrite(t, p, after, status) =>
      var m := Mutation(t, p, ContentOf(w.files, p), after, status);
      assert (w.inbox + [m])[..|w.inbox|] == w.inbox;
      ContentWritten(w.files, p, after, path);
    case Deliver => if w.inbox != [] { LastOfTail(w.inbox, (thread, path)); }
    case OutsideEdit(p, content) => ContentWritten(w.files, p, content, path);
    case Revert(t, p) =>
      if RevertOutcome(w, t, p).Reverted? { ContentWritten(w.files, p, w.baselines[(t, p)].original, path); }
  }

  lemma {:induction false} RunStaysAsLeft(states: seq<Workspace>, actions: seq<Action>, i: nat, n: nat, thread: string, path: string)
    requires IsRun(states, actions) && i < n <= |actions|
    requires actions[i].AgentWrite? && actions[i].thread == thread && actions[i].path == path
    requires forall k | i < k < n :: Elsewhere(actions[k], thread, path)
    ensures AsLeft(states[n], thread, path, actions[i].after)
  {
    assert states[n] == Apply(states[n - 1], actions[n - 1]);
    if n == i + 1 {
      var w, a := states[i], actions[i];
      ContentWritten(w.files, path, a.after, path);
    } else {
      hide Apply, AsLeft;
      RunStaysAsLeft(states, actions, i, n - 1, thread, path);
      StaysAsLeft(states[n - 1], actions[n - 1], thread, path, actions[i].after);
    }
  }

  // Somebody else has changed the file since the thread left it, and the books are up to date.
  ghost predicate Edited(w: Workspace, thread: string, path: string, edit: Content) {
    && (thread, path) in w.baselines && LastAbout(w.inbox, (thread, path)).None?
    && w.baselines[(thread, path)].latestAgentHash != edit && ContentOf(w.files, path) == edit
  }

  lemma StaysEdited(w: Workspace, a: Action, thread: string, path: string, edit: Content)
    requires Edited(w, thread, path, edit) && (Elsewhere(a, thread, path) || a == Revert(thread, path))
    ensures Edited(Apply(w, a), thread, path, edit)
  {
    match a
    case AgentWrite(t, p, after, status) =>
      var m := Mutation(t, p, ContentOf(w.files, p), after, status);
      assert (w.inbox + [m])[..|w.inbox|] == w.inbox;
      ContentWritten(w.files, p, after, path);
    case Deliver => if w.inbox != [] { LastOfTail(w.inbox, (thread, path)); }
    case OutsideEdit(p, content) => ContentWritten(w.files, p, content, path);
    case Revert(t, p) =>
      if RevertOutcome(w, t, p).Reverted? { ContentWritten(w.files, p, w.baselines[(t, p)].original, path); }
  }

  /** An edit made by somebody else after the thread's last reported write survives every revert: each
      attempt reports a conflict, however often it is repeated. */
  lemma {:induction false} EditSurvives(states: seq<Workspace>, actions: seq<Action>, j: nat, n: nat, thread: string, path: string, edit: Content)
    requires IsRun(states, actions) && j < n <= |actions| && actions[j] == OutsideEdit(path, edit)
    requires (thread, path) in states[j].baselines && states[j].baselines[(thread, path)].latestAgentHash != edit
    requires LastAbout(states[j].inbox, (thread, path)).None?
    requires forall k | j < k < n :: Elsewhere(actions[k], thread, path) || actions[k] == Revert(thread, path)
    ensures Edited(states[n], thread, path, edit)
    ensures RevertOutcome(states[n], thread, path) == Conflict && ContentOf(states[n].files, path) == edit
  {
    assert states[n] == Apply(states[n - 1], actions[n - 1]);
    if n == j + 1 {
      ContentWritten(states[j].files, path, edit, path);
    } else {
      EditSurvives(states, actions, j, n - 1, thread, path, edit);
      StaysEdited(states[n - 1], actions[n - 1], thread, path, edit);
    }
  }

  /** Once the reports about a file are in, a thread's change can be reverted as long as nobody has touched the
      file since its last write; the revert brings back what the file held before its first. */
  lemma UndisturbedRevertSucceeds(states: seq<Workspace>, actions: seq<Action>, first: nat, last: nat, n: nat, thread: string, path: string)
    requires IsRun(states, actions) && first <= last < n <= |actions|
    requires FirstWrite(actions, first, thread, path)
    requires actions[last].AgentWrite? && actions[last].thread == thread && actions[last].path == path
    requires forall k | last < k < n :: Elsewhere(actions[k], thread, path)
    requires LastAbout(states[n].inbox, (thread, path)).None?
    ensures RevertOutcome(states[n], thread, path) == Reverted
    ensures ContentOf(AfterRevert(states[n], thread, path).files, path) == ContentOf(states[first].files, path)
  {
    RunStaysAsLeft(states, actions, last, n, thread, path);
    OriginalIsFirstBefore(states, actions, n, first, thread, path);
    RevertRestores(states[n], thread, path);
  }
}

/** The methods that record mutations and revert them. */
module Reviews {
  import opened Common
  import opened BaselineSpec

  class ReviewService {
    var files: map<string, Bytes>
    var baselines: map<Key, Baseline>
    var announced: seq<Key>

    function State(): Workspace
      reads this
    {
      EMPTY_BOOKS.(files := files, baselines := baselines, announced := announced)
    }

    constructor (files: map<string, Bytes>)
      ensures State() == EMPTY_BOOKS.(files := files)
    {
      this.files, baselines, announced := files, map[], [];
    }

    method RecordFileMutation(m: Mutation)
      modifies this`baselines
      ensures baselines == Recorded(old(baselines), m)
    {
      var key := (m.thread, m.path);
      if key !in baselines {
        baselines := baselines[key := Baseline(m.before, m.after, m.status)];
      } else {
        baselines := baselines[key := baselines[key].(latestAgentHash := m.after, status := m.status)];
      }
    }

    // The original is kept, and the next revert of the file conflicts unless the file holds what
    // is now recorded as the latest state.
    method UpdateBaselineStatus(key: Key, status: string, latestAgentHash: Content)
      modifies this`baselines
      ensures baselines.Keys == old(baselines).Keys
      ensures forall other | other in baselines && other != key :: baselines[other] == old(baselines)[other]
      ensures key in baselines ==>
                && baselines[key].original == old(baselines)[key].original && baselines[key].status == status
                && baselines[key].latestAgentHash == latestAgentHash
                && RevertOutcome(State(), key.0, key.1) == if ContentOf(files, key.1) == latestAgentHash then Reverted else Conflict
    {
      if key in baselines {
        baselines := baselines[key := baselines[key].(status := status, latestAgentHash := latestAgentHash)];
      }
    }

    method RevertFile(thread: string, path: string) returns (outcome: Outcome)
      modifies this
      ensures outcome == RevertOutcome(old(State()), thread, path)
      ensures State() == AfterRevert(old(State()), thread, path)
    {
      var key := (thread, path);
      if key !in baselines {
        return NoBaseline;
      }
      var baseline := baselines[key];
      var present := path in files;
      var currentHash := if present then Some(files[path]) else None;
      if currentHash != baseline.latestAgentHash {
        UpdateBaselineStatus(key, "conflict", baseline.latestAgentHash);
        assert baselines == old(baselines)[key := baseline.(status := "conflict")];
        return Conflict;
      }
      if baseline.original == None {
        if present {
          files := files - {path};
        }
      } else {
        files := files[path := baseline.original.value];
      }
      UpdateBaselineStatus(key, "reverted", baseline.original);
      assert baselines == old(baselines)[key := Baseline(baseline.original, baseline.original, "reverted")];
      announced := announced + [key];
      return Reverted;
    }

    // paths are the thread's baselines in the order of the query.
    method RevertAll(thread: string, paths: seq<string>) returns (reverted: seq<string>, conflicts: seq<string>)
      requires Distinct(paths) && forall path :: path in paths <==> (thread, path) in baselines
      modifies this
      ensures State() == AllReverted(old(State()), thread, paths)
      ensures reverted == WithOutcome(old(State()), thread, paths, Reverted)
      ensures conflicts == WithOutcome(old(State()), thread, paths, Conflict)
      ensures forall path | path in paths ::
                if RevertOutcome(old(State()), thread, path).Reverted?
                then path in reverted && path !in conflicts && ContentOf(files, path) == old(baselines)[(thread, path)].original
                else path in conflicts && path !in reverted && ContentOf(files, path) == ContentOf(old(files), path)
      ensures forall path | path !in paths ::
                path !in reverted && path !in conflicts && ContentOf(files, path) == ContentOf(old(files), path)
      ensures |reverted| + |conflicts| == |paths|
    {
      hide RevertOutcome, AfterRevert, ContentOf, AllReverted, WithOutcome;
      reverted, conflicts := [], [];
      ghost var w := State();
      NothingReverted(w, thread);
      for k := 0 to |paths|
        invariant State() == AllReverted(w, thread, paths[..k])
        invariant reverted == WithOutcome(w, thread, paths[..k], Reverted)
        invariant conflicts == WithOutcome(w, thread, paths[..k], Conflict)
      {
        OneMoreReverted(w, thread, paths, k);
        var outcome := RevertFile(thread, paths[k]);
        HasOutcome(w, thread, paths[k]);
        if outcome.Reverted? {
          reverted := reverted + [paths[k]];
        } else {
          conflicts := conflicts + [paths[k]];
        }
      }
      assert paths[..|paths|] == paths;
      OutcomesPartition(w, thread, paths);
      forall path: string { AllRevertedMeans(w, thread, paths, path); }
    }
  }
}
