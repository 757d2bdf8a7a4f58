/**
 The projection of journal events to session entries (database.ts) and its replay by a fork
 (session-service.ts).
 */
module SessionProjection {
  import opened Common
  import opened Json

  datatype EventType =
    | MessageUser | MessageComplete | ToolResult | Compaction | SessionCheckpoint
    | Anchor(kind: AnchorType)
    | Other(name: string)

  // The event types that become context anchors.
  datatype AnchorType = ApprovalResolved | FileChange | DiffChange | OperationCompleted | RuntimeCrash

  datatype EntryKind = UserMessage | AssistantMessage | ToolResultEntry | CompactionEntry | ContextAnchor

  datatype Projection = Projection(kind: EntryKind, payload: Record)

  function AnchorName(t: AnchorType): string {
    match t
    case ApprovalResolved => "approval.resolved"
    case FileChange => "file.change"
    case DiffChange => "diff.change"
    case OperationCompleted => "operation.completed"
    case RuntimeCrash => "runtime.crash"
  }

  function AnchorOf(name: string): Option<AnchorType> {
    if name == "approval.resolved" then Some(ApprovalResolved)
    else if name == "file.change" then Some(FileChange)
    else if name == "diff.change" then Some(DiffChange)
    else if name == "operation.completed" then Some(OperationCompleted)
    else if name == "runtime.crash" then Some(RuntimeCrash)
    else None
  }

  function TokenCount(usage: Record, key: string): Json {
    if key in usage && usage[key].Num? && usage[key].number >= 0.0 then usage[key] else Num(0.0)
  }

  function UserPayload(payload: Record): Record
    requires HasText(payload, "text")
  {
    map["role" := Str("user"), "text" := payload["text"]]
    + if HasText(payload, "mode") then map["mode" := payload["mode"]] else map[]
  }

  function UsagePayload(usage: Record): Record {
    map["input" := TokenCount(usage, "input"), "output" := TokenCount(usage, "output"),
        "cacheRead" := TokenCount(usage, "cacheRead"), "cacheWrite" := TokenCount(usage, "cacheWrite"),
        "totalTokens" := TokenCount(usage, "totalTokens")]
  }

  function AssistantPayload(payload: Record): Record
    requires HasText(payload, "text")
  {
    map["role" := Str("assistant"),
        "text" := payload["text"],
        "content" := RemoveSponsorData(OrElse(payload, "content", Arr([]))),
        "model" := if HasText(payload, "model") then payload["model"] else Str("unknown"),
        "usage" := Obj(UsagePayload(SafeRecord(if "usage" in payload then payload["usage"] else Null)))]
  }

  predicate IsToolResult(payload: Record) {
    HasText(payload, "name") && HasText(payload, "toolCallId") && HasText(payload, "output")
  }

  function ToolPayload(payload: Record): Record
    requires IsToolResult(payload)
  {
    map["name" := payload["name"], "toolCallId" := payload["toolCallId"], "output" := payload["output"],
        "isError" := Bool("isError" in payload && Truthy(payload["isError"]))]
  }

  const COMPACTION_FIELDS := {"summary", "outcome", "droppedMessages", "tokensBefore", "tokensAfter", "modelAssisted"}

  function CompactionPayload(payload: Record): Record {
    Pick(payload, COMPACTION_FIELDS)["retainedMessages" := RemoveSponsorData(OrElse(payload, "retainedMessages", Arr([])))]
  }

  /** What an event contributes to the session, if anything. */
  function Project(t: EventType, payload: Record): Option<Projection> {
    if !SponsorFree(payload) then None
    else
      match t
      case MessageUser => if HasText(payload, "text") then Some(Projection(UserMessage, UserPayload(payload))) else None
      case MessageComplete =>
        if HasText(payload, "text") then Some(Projection(AssistantMessage, AssistantPayload(payload))) else None
      case ToolResult => if IsToolResult(payload) then Some(Projection(ToolResultEntry, ToolPayload(payload))) else None
      case Compaction =>
        if HasText(payload, "summary") then Some(Projection(CompactionEntry, CompactionPayload(payload))) else None
      case Anchor(kind) =>
        Some(Projection(ContextAnchor,
                        map["eventType" := Str(AnchorName(kind)), "value" := RemoveSponsorData(Obj(payload))]))
      case SessionCheckpoint => None
      case Other(_) => None
  }

  // The event that appendEntry writes for an entry, or None where it throws.
  function Replay(p: Projection): Option<(EventType, Record)> {
    match p.kind
    case UserMessage => if HasText(p.payload, "text") then Some((MessageUser, p.payload)) else None
    case AssistantMessage => if HasText(p.payload, "text") then Some((MessageComplete, p.payload)) else None
    case ToolResultEntry => if IsToolResult(p.payload) then Some((ToolResult, p.payload)) else None
    case CompactionEntry => if HasText(p.payload, "summary") then Some((Compaction, p.payload)) else None
    case ContextAnchor =>
      if !HasText(p.payload, "eventType") then None
      else
        var anchor := AnchorOf(p.payload["eventType"].text);
        if anchor.None? then None
        else Some((Anchor(anchor.value), SafeRecord(if "value" in p.payload then p.payload["value"] else Null)))
  }

  // ---------------------------------------------------------------- replaying a projection

  lemma FieldsSponsorFree(record: Record)
    requires forall key | key in record :: !SponsorKey(key) && !ContainsSponsorKey(record[key])
    ensures SponsorFree(record)
  {
  }

  const PLAIN_KEYS := {"role", "text", "mode", "content", "model", "usage", "input", "output", "cacheRead", "cacheWrite",
                       "totalTokens", "name", "toolCallId", "isError", "summary", "outcome", "droppedMessages",
                       "tokensBefore", "tokensAfter", "modelAssisted", "retainedMessages", "eventType", "value"}

  lemma NotSponsorKey(key: string)
    requires |key| >= 3
    requires || LowerChar(key[0]) !in {'a', 's', 'e'}
             || (key[0] == 's' && key[2] == 'm')
             || (key[0] == 'e' && key[1] == 'v')
    ensures !SponsorKey(key)
  {
    var lower := Lower(key);
    assert lower[0] == LowerChar(key[0]) && lower[1] == LowerChar(key[1]) && lower[2] == LowerChar(key[2]);
  }

  lemma PlainKeys()
    ensures forall key | key in PLAIN_KEYS :: !SponsorKey(key)
  {
    forall key | key in PLAIN_KEYS ensures !SponsorKey(key) { NotSponsorKey(key); }
  }

  lemma UserReplays(payload: Record)
    requires SponsorFree(payload) && HasText(payload, "text")
    ensures SponsorFree(UserPayload(payload)) && HasText(UserPayload(payload), "text")
    ensures UserPayload(UserPayload(payload)) == UserPayload(payload)
  {
    PlainKeys();
    FieldsSponsorFree(UserPayload(payload));
  }

  lemma UsageReplays(usage: Record)
    ensures SponsorFree(UsagePayload(usage)) && UsagePayload(UsagePayload(usage)) == UsagePayload(usage)
  {
    PlainKeys();
    FieldsSponsorFree(UsagePayload(usage));
  }

  lemma AssistantKeysPlain(payload: Record)
    requires HasText(payload, "text")
    ensures AssistantPayload(payload).Keys == {"role", "text", "content", "model", "usage"} <= PLAIN_KEYS
  {
    hide UsagePayload, RemoveSponsorData, OrElse;
  }

  lemma AssistantContent(payload: Record)
    requires SponsorFree(payload)
    ensures var content := OrElse(payload, "content", Arr([]));
            !ContainsSponsorKey(content) && RemoveSponsorData(content) == content
  {
    var content := OrElse(payload, "content", Arr([]));
    assert !ContainsSponsorKey(content);
    RemovingNothing(content);
  }

  lemma AssistantSponsorFree(payload: Record)
    requires SponsorFree(payload) && HasText(payload, "text")
    ensures SponsorFree(AssistantPayload(payload))
  {
    AssistantValues(payload);
    AssistantKeysPlain(payload);
    PlainKeys();
    hide SponsorKey, ContainsSponsorKey, AssistantPayload;
    FieldsSponsorFree(AssistantPayload(payload));
  }

  lemma AssistantValues(payload: Record)
    requires SponsorFree(payload) && HasText(payload, "text")
    ensures forall key | key in AssistantPayload(payload) :: !ContainsSponsorKey(AssistantPayload(payload)[key])
  {
    AssistantContent(payload);
    UsageReplays(SafeRecord(if "usage" in payload then payload["usage"] else Null));
    hide SponsorKey, UsagePayload, RemoveSponsorData, OrElse;
  }

  lemma AssistantContentKept(payload: Record)
    requires SponsorFree(payload) && HasText(payload, "text")
    ensures OrElse(AssistantPayload(payload), "content", Arr([])) == OrElse(payload, "content", Arr([]))
  {
    AssistantContent(payload);
    hide ContainsSponsorKey, UsagePayload, RemoveSponsorData, SponsorKey;
  }

  lemma AssistantReplays(payload: Record)
    requires SponsorFree(payload) && HasText(payload, "text")
    ensures HasText(AssistantPayload(payload), "text")
    ensures AssistantPayload(AssistantPayload(payload)) == AssistantPayload(payload)
  {
    AssistantContent(payload);
    AssistantContentKept(payload);
    UsageReplays(SafeRecord(if "usage" in payload then payload["usage"] else Null));
    hide ContainsSponsorKey, UsagePayload, RemoveSponsorData, SponsorKey, OrElse;
  }

  lemma ToolReplays(payload: Record)
    requires SponsorFree(payload) && IsToolResult(payload)
    ensures SponsorFree(ToolPayload(payload)) && IsToolResult(ToolPayload(payload))
    ensures ToolPayload(ToolPayload(payload)) == ToolPayload(payload)
  {
    PlainKeys();
    FieldsSponsorFree(ToolPayload(payload));
  }

  lemma CompactionReplays(payload: Record)
    requires SponsorFree(payload) && HasText(payload, "summary")
    ensures SponsorFree(CompactionPayload(payload)) && HasText(CompactionPayload(payload), "summary")
    ensures CompactionPayload(CompactionPayload(payload)) == CompactionPayload(payload)
  {
    var retained := OrElse(payload, "retainedMessages", Arr([]));
    assert !ContainsSponsorKey(retained);
    RemovingNothing(retained);
    PlainKeys();
    FieldsSponsorFree(CompactionPayload(payload));
  }

  /** Every projected entry can be replayed, and the event written for it projects to the same
      kind and payload. */
  lemma ReplayProjectsSame(t: EventType, payload: Record)
    requires Project(t, payload).Some?
    ensures var p := Project(t, payload).value;
            && Replay(p).Some?
            && Project(Replay(p).value.0, Replay(p).value.1) == Some(p)
  {
    hide UserPayload, AssistantPayload, ToolPayload, CompactionPayload;
    match t
    case MessageUser => UserReplays(payload);
    case MessageComplete =>
      AssistantSponsorFree(payload);
      AssistantReplays(payload);
    case ToolResult => ToolReplays(payload);
    case Compaction => CompactionReplays(payload);
    case Anchor(kind) => RemovingNothing(Obj(payload));
    case _ => assert false;
  }

  // ---------------------------------------------------------------- what a projection holds

  /** Exactly the sponsor-free messages with a text, tool results with name, call and output,
      compactions with a summary, and the five kinds of anchors contribute to a session. */
  lemma ProjectsExactly(t: EventType, payload: Record)
    ensures Project(t, payload).Some? <==>
            && !ContainsSponsorKey(Obj(payload))
            && match t
               case MessageUser => "text" in payload && payload["text"].Str?
               case MessageComplete => "text" in payload && payload["text"].Str?
               case ToolResult =>
                 && "name" in payload && payload["name"].Str? && "toolCallId" in payload && payload["toolCallId"].Str?
                 && "output" in payload && payload["output"].Str?
               case Compaction => "summary" in payload && payload["summary"].Str?
               case Anchor(_) => true
               case _ => false
  {
    hide ContainsSponsorKey;
  }

  /** The context of a user message is its text, and its mode if it has one. */
  lemma UserKeeps(payload: Record)
    requires Project(MessageUser, payload).Some?
    ensures var Projection(kind, context) := Project(MessageUser, payload).value;
            && kind == UserMessage && {"role", "text"} <= context.Keys <= {"role", "text", "mode"}
            && context["role"] == Str("user") && context["text"] == payload["text"]
            && ("mode" in context <==> "mode" in payload && payload["mode"].Str?)
            && ("mode" in context ==> context["mode"] == payload["mode"])
  {
    hide ContainsSponsorKey;
  }

  // A count as it is kept: a number that is not negative, or else zero.
  predicate KeptCount(usage: Record, context: Record, key: string) {
    && key in context
    && context[key] == if key in usage && usage[key].Num? && usage[key].number >= 0.0 then usage[key] else Num(0.0)
  }

  /** The context of an assistant message is its text, content, model and token counts. */
  lemma AssistantKeeps(payload: Record)
    requires Project(MessageComplete, payload).Some?
    ensures var Projection(kind, context) := Project(MessageComplete, payload).value;
            && kind == AssistantMessage && context.Keys == {"role", "text", "content", "model", "usage"}
            && context["role"] == Str("assistant") && context["text"] == payload["text"]
            && context["content"] == (if "content" in payload && payload["content"] != Null then payload["content"] else Arr([]))
            && context["model"] == (if "model" in payload && payload["model"].Str? then payload["model"] else Str("unknown"))
            && context["usage"].Obj?
  {
    AssistantContent(payload);
    AssistantKeysPlain(payload);
    hide ContainsSponsorKey, RemoveSponsorData, UsagePayload;
  }

  lemma AssistantKeepsUsage(payload: Record)
    requires Project(MessageComplete, payload).Some?
    ensures var context := Project(MessageComplete, payload).value.payload;
            "usage" in context && context["usage"].Obj?
            && var usage, counts := (if "usage" in payload && payload["usage"].Obj? then payload["usage"].fields else map[]), context["usage"].fields;
               && counts.Keys == {"input", "output", "cacheRead", "cacheWrite", "totalTokens"}
               && forall key | key in counts :: KeptCount(usage, counts, key)
  {
    hide ContainsSponsorKey, RemoveSponsorData, OrElse;
  }

  /** The context of a tool result is its name, call and output, and whether it reports an error. */
  lemma ToolKeeps(payload: Record)
    requires Project(ToolResult, payload).Some?
    ensures var Projection(kind, context) := Project(ToolResult, payload).value;
            && kind == ToolResultEntry && context.Keys == {"name", "toolCallId", "output", "isError"}
            && context["name"] == payload["name"] && context["toolCallId"] == payload["toolCallId"]
            && context["output"] == payload["output"] && context["isError"].Bool?
            && (context["isError"].flag <==>
                "isError" in payload && payload["isError"] != Null && payload["isError"] != Bool(false)
                && payload["isError"] != Num(0.0) && payload["isError"] != Str(""))
  {
    hide ContainsSponsorKey;
  }

  /** The context of a compaction is each of six fields it has, and the messages it retained. */
  lemma CompactionKeeps(payload: Record)
    requires Project(Compaction, payload).Some?
    ensures var Projection(kind, context) := Project(Compaction, payload).value;
            && kind == CompactionEntry && "retainedMessages" in context
            && context["retainedMessages"]
               == (if "retainedMessages" in payload && payload["retainedMessages"] != Null then payload["retainedMessages"] else Arr([]))
            && forall key | key != "retainedMessages" ::
                 (key in context <==>
                  key in payload && key in ["summary", "outcome", "droppedMessages", "tokensBefore", "tokensAfter", "modelAssisted"])
                 && (key in context ==> context[key] == payload[key])
  {
    var retained := OrElse(payload, "retainedMessages", Arr([]));
    assert !ContainsSponsorKey(retained);
    RemovingNothing(retained);
    hide ContainsSponsorKey, RemoveSponsorData;
  }

  /** The context of an anchor is the whole payload, and which kind of event it was. */
  lemma AnchorKeeps(anchor: AnchorType, payload: Record)
    requires Project(Anchor(anchor), payload).Some?
    ensures var Projection(kind, context) := Project(Anchor(anchor), payload).value;
            && kind == ContextAnchor && context.Keys == {"eventType", "value"} && context["value"] == Obj(payload)
            && context["eventType"] == Str(match anchor
                                           case ApprovalResolved => "approval.resolved"
                                           case FileChange => "file.change"
                                           case DiffChange => "diff.change"
                                           case OperationCompleted => "operation.completed"
                                           case RuntimeCrash => "runtime.crash")
  {
    RemovingNothing(Obj(payload));
    hide ContainsSponsorKey, RemoveSponsorData;
  }
}
