/**
 Approvals (database.ts): a decision is made once, by the user or by the end of the turn, and an
 allow-once decision on a structured operation is consumed once.
 */
module ApprovalSpec {
  import opened Common

  datatype Decision = AllowOnce | AllowThread | Deny

  datatype Approval = Approval(
    version: nat, turn: string, binding: Option<string>, expiresAt: Option<int>, createdAt: int,
    decision: Option<Decision>, resolvedAt: Option<int>, consumedAt: Option<int>)

  type Table = map<string, Approval>

  datatype ResolveError = NotPending | OnlyOnce | ApprovalExpired

  datatype ConsumeError = NotBound | OperationExpired | AlreadyConsumed

  datatype Action =
    | Create(id: string, approval: Approval)
    | Resolve(id: string, decision: Decision, at: int)
    | Consume(id: string, binding: string, at: int)
    | DenyPending(turn: string, at: int)

  function ResolveAnswer(t: Table, id: string, decision: Decision, at: int): Option<ResolveError> {
    if id !in t || t[id].decision.Some? then Some(NotPending)
    else if t[id].version == 2 && decision == AllowThread then Some(OnlyOnce)
    else if t[id].version == 2 && decision == AllowOnce && (t[id].expiresAt.None? || t[id].expiresAt.value <= at) then
      Some(ApprovalExpired)
    else None
  }

  function ConsumeAnswer(t: Table, id: string, binding: string, at: int): Option<ConsumeError> {
    if id !in t || t[id].version != 2 || t[id].decision != Some(AllowOnce) || t[id].binding != Some(binding) then Some(NotBound)
    else if t[id].expiresAt.None? || t[id].expiresAt.value <= at then Some(OperationExpired)
    else if t[id].consumedAt.Some? then Some(AlreadyConsumed)
    else None
  }

  predicate PendingFor(a: Approval, turn: string) {
    a.turn == turn && a.decision.None?
  }

  // What the query for a turn's pending approvals yields: each once, the oldest first.
  ghost predicate PendingInOrder(t: Table, turn: string, ids: seq<string>) {
    && (forall id :: id in ids <==> id in t && PendingFor(t[id], turn))
    && (forall i, j | 0 <= i < j < |ids| :: ids[i] != ids[j] && ids[i] in t && ids[j] in t && t[ids[i]].createdAt <= t[ids[j]].createdAt)
  }

  function Denied(a: Approval, at: int): Approval {
    a.(decision := Some(Deny), resolvedAt := Some(at))
  }

  function Apply(t: Table, a: Action): Table {
    match a
    case Create(id, approval) => if id in t then t else t[id := approval.(consumedAt := None)]
    case Resolve(id, decision, at) =>
      if ResolveAnswer(t, id, decision, at).Some? then t else t[id := t[id].(decision := Some(decision), resolvedAt := Some(at))]
    case Consume(id, binding, at) =>
      if ConsumeAnswer(t, id, binding, at).Some? then t else t[id := t[id].(consumedAt := Some(at))]
    case DenyPending(turn, at) => map id | id in t :: if PendingFor(t[id], turn) then Denied(t[id], at) else t[id]
  }

  // ---------------------------------------------------------------- runs

  ghost predicate IsRun(states: seq<Table>, actions: seq<Action>) {
    && |states| == |actions| + 1
    && states[0] == map[]
    && forall i | 0 <= i < |actions| :: states[i + 1] == Apply(states[i], actions[i])
  }

  predicate Consumes(t: Table, a: Action, id: string) {
    a.Consume? && a.id == id && ConsumeAnswer(t, id, a.binding, a.at).None?
  }

  // What no action takes back once it is so.
  ghost predicate Settles(before: Approval, after: Approval) {
    && after.version == before.version && after.turn == before.turn
    && after.binding == before.binding && after.expiresAt == before.expiresAt && after.createdAt == before.createdAt
    && (before.decision.Some? ==> after.decision == before.decision && after.resolvedAt == before.resolvedAt)
    && (before.consumedAt.Some? ==> after.consumedAt == before.consumedAt)
  }

  lemma ApplySettles(t: Table, a: Action, id: string)
    requires id in t
    ensures id in Apply(t, a) && Settles(t[id], Apply(t, a)[id])
  {
  }

  /** A decision once set, and a consumption once recorded, never changes again. */
  lemma {:induction false} DecisionsAreFinal(states: seq<Table>, actions: seq<Action>, id: string, i: nat, j: nat)
    requires IsRun(states, actions) && i <= j < |states| && id in states[i]
    ensures id in states[j] && Settles(states[i][id], states[j][id])
    decreases j - i
  {
    if i < j {
      hide Apply;
      ApplySettles(states[i], actions[i], id);
      assert states[i + 1] == Apply(states[i], actions[i]);
      DecisionsAreFinal(states, actions, id, i + 1, j);
    }
  }

  /** Exactly which actions change an approval: an undecided one is decided by an answer, or denied with
      its turn; an answer needs no more than that, except that a version 2 operation is never allowed
      for the whole thread and is allowed once only before it expires. */
  lemma DecidedExactly(t: Table, a: Action, id: string)
    requires id in t && t[id].decision.None?
    ensures var after := Apply(t, a)[id];
            match a
            case Resolve(i, decision, at) =>
              if i == id && (t[id].version != 2 || decision == Deny
                             || (decision == AllowOnce && t[id].expiresAt.Some? && at < t[id].expiresAt.value))
              then after == t[id].(decision := Some(decision), resolvedAt := Some(at)) else after == t[id]
            case DenyPending(turn, at) =>
              if t[id].turn == turn then after == t[id].(decision := Some(Deny), resolvedAt := Some(at)) else after == t[id]
            case _ => after == t[id]
  {
  }

  /** A version 2 operation that was created undecided is never allowed for the whole thread. */
  lemma {:induction false} NeverForTheThread(states: seq<Table>, actions: seq<Action>, id: string, n: nat)
    requires IsRun(states, actions) && n < |states| && id in states[n] && states[n][id].version == 2
    ensures states[n][id].decision == Some(AllowThread) ==>
              exists i | 0 <= i < n :: actions[i].Create? && actions[i].id == id && actions[i].approval.decision == Some(AllowThread)
  {
    assert n > 0;
    var before, a := states[n - 1], actions[n - 1];
    assert states[n] == Apply(before, a);
    if id in before {
      NeverForTheThread(states, actions, id, n - 1);
      ApplySettles(before, a, id);
      if before[id].decision.None? { DecidedExactly(before, a, id); }
    }
  }

  /** An approval is created as given, and not consumed. */
  lemma CreatedAsGiven(t: Table, id: string, approval: Approval)
    requires id !in t
    ensures id in Apply(t, Create(id, approval)) && Apply(t, Create(id, approval))[id] == approval.(consumedAt := None)
    ensures forall other | other in t :: other in Apply(t, Create(id, approval)) && Apply(t, Create(id, approval))[other] == t[other]
  {
  }

  /** An approval is consumed exactly if it is a version 2 one, allowed once, with this binding, not
      expired, and no earlier attempt has consumed it. */
  lemma {:induction false} ConsumedExactly(states: seq<Table>, actions: seq<Action>, id: string, n: nat)
    requires IsRun(states, actions) && n < |actions| && actions[n].Consume? && actions[n].id == id
    ensures Consumes(states[n], actions[n], id) <==>
            && id in states[n] && states[n][id].version == 2 && states[n][id].decision == Some(AllowOnce)
            && states[n][id].binding == Some(actions[n].binding)
            && states[n][id].expiresAt.Some? && actions[n].at < states[n][id].expiresAt.value
            && forall i | 0 <= i < n :: !Consumes(states[i], actions[i], id)
  {
    if id in states[n] { ConsumedBefore(states, actions, id, n); }
    forall i | 0 <= i < n && Consumes(states[n], actions[n], id) ensures !Consumes(states[i], actions[i], id) {
      ConsumedAtMostOnce(states, actions, id, i, n);
    }
  }

  // A recorded consumption happened.
  lemma {:induction false} ConsumedBefore(states: seq<Table>, actions: seq<Action>, id: string, n: nat)
    requires IsRun(states, actions) && n < |states| && id in states[n]
    ensures states[n][id].consumedAt.Some? ==> exists i | 0 <= i < n :: Consumes(states[i], actions[i], id)
  {
    assert n > 0;
    var before, a := states[n - 1], actions[n - 1];
    assert states[n] == Apply(before, a);
    if id in before {
      ConsumedBefore(states, actions, id, n - 1);
      if states[n][id].consumedAt.Some? && before[id].consumedAt.None? { assert Consumes(before, a, id); }
    }
  }

  /** An approval is consumed at most once. */
  lemma ConsumedAtMostOnce(states: seq<Table>, actions: seq<Action>, id: string, i: nat, j: nat)
    requires IsRun(states, actions) && i < j < |actions|
    ensures !(Consumes(states[i], actions[i], id) && Consumes(states[j], actions[j], id))
  {
    if Consumes(states[i], actions[i], id) {
      assert states[i + 1] == Apply(states[i], actions[i]);
      DecisionsAreFinal(states, actions, id, i + 1, j);
    }
  }

  // The step that turned an undecided approval into an allow-once decision.
  predicate Allows(t: Table, a: Action, id: string) {
    a.Resolve? && a.id == id && a.decision == AllowOnce && ResolveAnswer(t, id, AllowOnce, a.at).None?
  }

  predicate CreatesAllowed(t: Table, a: Action, id: string) {
    a.Create? && a.id == id && id !in t && a.approval.decision == Some(AllowOnce)
  }

  // Where an allow-once decision comes from.
  lemma {:induction false} AllowedBy(states: seq<Table>, actions: seq<Action>, id: string, n: nat) returns (i: nat)
    requires IsRun(states, actions) && n < |states| && id in states[n] && states[n][id].decision == Some(AllowOnce)
    ensures i < n && (Allows(states[i], actions[i], id) || CreatesAllowed(states[i], actions[i], id))
    ensures Allows(states[i], actions[i], id) && states[n][id].version == 2 ==>
              states[n][id].expiresAt.Some? && actions[i].at < states[n][id].expiresAt.value
  {
    assert states[n] == Apply(states[n - 1], actions[n - 1]);
    if id in states[n - 1] && states[n - 1][id].decision == Some(AllowOnce) {
      i := AllowedBy(states, actions, id, n - 1);
      ApplySettles(states[n - 1], actions[n - 1], id);
    } else {
      i := n - 1;
    }
  }

  /** A consumption needs version 2, the matching binding, and a time before the expiry; and, for
      an approval that was created undecided, an earlier allow-once answer before the expiry. */
  lemma ConsumptionIsEarned(states: seq<Table>, actions: seq<Action>, id: string, n: nat) returns (i: nat)
    requires IsRun(states, actions) && n < |actions| && Consumes(states[n], actions[n], id)
    ensures var a := states[n][id];
            a.version == 2 && a.binding == Some(actions[n].binding) && a.expiresAt.Some? && actions[n].at < a.expiresAt.value
    ensures i < n && (CreatesAllowed(states[i], actions[i], id)
                      || (Allows(states[i], actions[i], id) && actions[i].at < states[n][id].expiresAt.value))
    ensures states[n + 1][id].consumedAt == Some(actions[n].at)
  {
    i := AllowedBy(states, actions, id, n);
    assert states[n + 1] == Apply(states[n], actions[n]);
  }

  /** What is still undecided when its turn ends is never consumed. */
  lemma EndedTurnIsNeverConsumed(states: seq<Table>, actions: seq<Action>, id: string, i: nat, j: nat)
    requires IsRun(states, actions) && i < j < |actions|
    requires actions[i].DenyPending? && id in states[i] && PendingFor(states[i][id], actions[i].turn)
    ensures !Consumes(states[j], actions[j], id)
    ensures id in states[j] && states[j][id].decision == Some(Deny)
  {
    assert states[i + 1] == Apply(states[i], actions[i]);
    DecisionsAreFinal(states, actions, id, i + 1, j);
  }
}

/** The approval methods of the AppDatabase class. */
module Approvals {
  import opened Common
  import opened ApprovalSpec

  class ApprovalTable {
    var rows: Table

    constructor ()
      ensures rows == map[]
    {
      rows := map[];
    }

    method CreateApproval(id: string, approval: Approval) returns (created: bool)
      modifies this
      ensures created == (id !in old(rows))
      ensures rows == Apply(old(rows), Create(id, approval))
    {
      if id in rows {
        return false;
      }
      rows := rows[id := approval.(consumedAt := None)];
      return true;
    }

    method ResolveApproval(id: string, decision: Decision, at: int) returns (error: Option<ResolveError>)
      modifies this
      ensures error == ResolveAnswer(old(rows), id, decision, at)
      ensures rows == Apply(old(rows), Resolve(id, decision, at))
    {
      if id !in rows || rows[id].decision.Some? {
        return Some(NotPending);
      }
      var approval := rows[id];
      if approval.version == 2 && decision == AllowThread {
        return Some(OnlyOnce);
      }
      if approval.version == 2 && decision == AllowOnce && (approval.expiresAt.None? || approval.expiresAt.value <= at) {
        return Some(ApprovalExpired);
      }
      rows := rows[id := approval.(decision := Some(decision), resolvedAt := Some(at))];
      return None;
    }

    method ConsumeOperationApproval(id: string, binding: string, at: int) returns (error: Option<ConsumeError>)
      modifies this
      ensures error == ConsumeAnswer(old(rows), id, binding, at)
      ensures rows == Apply(old(rows), Consume(id, binding, at))
    {
      if id !in rows {
        return Some(NotBound);
      }
      var approval := rows[id];
      if approval.version != 2 || approval.decision != Some(AllowOnce) || approval.binding != Some(binding) {
        return Some(NotBound);
      }
      if approval.expiresAt.None? || approval.expiresAt.value <= at {
        return Some(OperationExpired);
      }
      if approval.consumedAt.Some? {
        return Some(AlreadyConsumed);
      }
      rows := rows[id := approval.(consumedAt := Some(at))];
      return None;
    }

    // pending are the identifiers of the rows in the order of the query.
    method DenyPendingApprovalsForTurn(turn: string, pending: seq<string>, at: int) returns (denied: seq<Approval>)
      requires PendingInOrder(rows, turn, pending)
      modifies this
      ensures rows == Apply(old(rows), DenyPending(turn, at))
      ensures |denied| == |pending| && forall k | 0 <= k < |denied| :: denied[k] == rows[pending[k]] && denied[k].decision == Some(Deny)
      ensures forall i, j | 0 <= i < j < |denied| :: denied[i].createdAt <= denied[j].createdAt
    {
      hide ResolveAnswer, ConsumeAnswer;
      denied := [];
      for k := 0 to |pending|
        invariant rows.Keys == old(rows).Keys && |denied| == k
        invariant forall id | id in rows :: rows[id] == if id in pending[..k] then Denied(old(rows)[id], at) else old(rows)[id]
        invariant forall i | 0 <= i < k :: denied[i] == Denied(old(rows)[pending[i]], at)
      {
        var id := pending[k];
        assert id in pending && id !in pending[..k] && pending[..k + 1] == pending[..k] + [id];
        denied := denied + [Denied(rows[id], at)];
        if rows[id].decision.None? {
          rows := rows[id := Denied(rows[id], at)];
        }
      }
      assert pending[..|pending|] == pending;
      assert forall k | 0 <= k < |pending| :: pending[k] in pending;
    }
  }
}
