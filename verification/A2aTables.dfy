/**
 The tables behind the A2A surface (`tasks`, `a2a_task_map`, `sessions`, `messages`, `a2a_artifacts`)
 and what each writer and reader does to them. A database error inside a writer is part of the model:
 it stops the writer where it stands, and what earlier statements wrote stays written.
 */
module A2aTables {
  import opened Prelude
  import Utf8

  datatype Status =
    Pending | InProgress | Completed | Failed | Cancelled | Expired | RecurringActive | Delivered | Blocked

  /** The states of the A2A protocol. */
  datatype TaskState =
    Unknown | Submitted | Working | InputRequired | AuthRequired | StateCompleted | StateFailed | Canceled | Rejected

  /** `tasks.result`: the JSON object a close writes, or text that does not parse as one. */
  datatype Stored = CloseReason(reason: string) | PlainText(text: string)

  datatype Row = Row(agent: string, status: Status, firedAt: Option<nat>, completedAt: Option<nat>, updatedAt: nat,
                     result: Option<Stored>)

  datatype MapRow = MapRow(task: string, session: string, context: Option<string>)

  datatype Part = TextPart(text: string) | FilePart(name: Option<string>) | DataPart

  datatype Speaker = User | Agent

  /** A wire message; what the store gives back also names the task, which the caller already knows. */
  datatype Message = Message(messageId: string, speaker: Speaker, parts: seq<Part>, metadata: Option<string>)

  datatype Role = UserRole | AssistantRole | SystemRole | SummaryRole | ToolResultRole

  /** The JSON of the `metadata` column: a message's own, each field of which may be missing, or some other JSON. */
  datatype Meta =
    | Meta(taskId: Option<string>, messageId: string, parts: Option<seq<Part>>, metadata: Option<string>)
    | Foreign(taskId: Option<string>)

  datatype MessageRow = MessageRow(session: string, agent: string, role: Role, content: string, meta: Option<Meta>,
                                   trace: Option<string>)

  datatype Artifact = Artifact(parts: seq<Part>)

  datatype Tables = Tables(
    tasks: map<string, Row>, taskMap: map<string, MapRow>, sessions: map<string, string>,
    messages: seq<MessageRow>, artifacts: map<string, seq<Artifact>>)

  /** Where, if anywhere, the database fails a `create`. */
  datatype Fault = NoFault | AtLookup | AtSession | AtTask | AtMap

  // ---------------------------------------------------------------- the two status maps

  function TaskStatusOf(state: string): Status
  {
    match state
    case "submitted" => Pending
    case "working" => InProgress
    case "completed" => Completed
    case "failed" => Failed
    case "canceled" => Cancelled
    case _ => Pending
  }

  function A2aStateOf(status: Status): TaskState
  {
    match status
    case Pending => Submitted
    case InProgress => Working
    case Completed => StateCompleted
    case Delivered => StateCompleted
    case Failed => StateFailed
    case Expired => StateFailed
    case Cancelled => Canceled
    case Blocked => Working
    case RecurringActive => Submitted
  }

  // ---------------------------------------------------------------- create

  const MAX_CALLER_SESSION_ID_LEN: nat := 200

  predicate IsControl(c: char)
  {
    c as int < 0x20 || 0x7F <= c as int < 0xA0
  }

  /** A caller may name a session this agent already owns; it can never conjure one. */
  predicate Adoptable(sessions: map<string, string>, candidate: string, agent: string)
  {
    && candidate != ""
    && |Utf8.Encode(candidate)| <= MAX_CALLER_SESSION_ID_LEN
    && (forall i :: 0 <= i < |candidate| ==> !IsControl(candidate[i]))
    && candidate in sessions && sessions[candidate] == agent
  }

  predicate Adopts(sessions: map<string, string>, caller: Option<string>, agent: string, fault: Fault)
  {
    caller.Some? && !fault.AtLookup? && Adoptable(sessions, caller.value, agent)
  }

  function Minted(id: string): string
  {
    "a2a-" + id
  }

  function FreshRow(agent: string, now: nat): Row
  {
    Row(agent, Pending, None, None, now, None)
  }

  /** Three inserts, no transaction: session (unless adopted), task, mapping. */
  function Create(t: Tables, id: string, agent: string, context: Option<string>, caller: Option<string>, task: string,
                  now: nat, fault: Fault): (Tables, Option<string>)
  {
    var adopts := Adopts(t.sessions, caller, agent, fault);
    if !adopts && (fault.AtSession? || Minted(id) in t.sessions) then (t, None)
    else
      var session := if adopts then caller.value else Minted(id);
      var t1 := if adopts then t else t.(sessions := t.sessions[session := agent]);
      if fault.AtTask? || task in t.tasks then (t1, None)
      else
        var t2 := t1.(tasks := t1.tasks[task := FreshRow(agent, now)]);
        if fault.AtMap? || id in t.taskMap then (t2, None)
        else (t2.(taskMap := t2.taskMap[id := MapRow(task, session, context)]), Some(session))
  }

  // ---------------------------------------------------------------- the writers of a row

  predicate IsClosing(s: Status)
  {
    s == Completed || s == Failed || s == Cancelled
  }

  predicate IsLive(s: Status)
  {
    s == Pending || s == InProgress
  }

  /** One UPDATE: the transition and, when the turn starts, the first-start stamp. */
  function Moved(row: Row, status: Status, now: nat): Row
  {
    row.(status := status, updatedAt := now,
         completedAt := if IsClosing(status) then Some(now) else None,
         firedAt := if status == InProgress && row.firedAt.None? then Some(now) else row.firedAt)
  }

  function Closed(row: Row, status: Status, reason: string, now: nat): Row
  {
    row.(status := status, updatedAt := now, completedAt := Some(now), result := Some(CloseReason(reason)))
  }

  predicate Mapped(t: Tables, id: string)
  {
    id in t.taskMap && t.taskMap[id].task in t.tasks
  }

  function Update(t: Tables, id: string, state: string, now: nat): (Tables, bool)
  {
    if !Mapped(t, id) then (t, false)
    else
      var task := t.taskMap[id].task;
      (t.(tasks := t.tasks[task := Moved(t.tasks[task], TaskStatusOf(state), now)]), true)
  }

  function Abandon(t: Tables, id: string, reason: string, now: nat): (Tables, bool)
  {
    if !Mapped(t, id) || !IsLive(t.tasks[t.taskMap[id].task].status) then (t, false)
    else
      var task := t.taskMap[id].task;
      (t.(tasks := t.tasks[task := Closed(t.tasks[task], Cancelled, reason, now)]), true)
  }

  predicate Swept(row: Row, agent: string)
  {
    row.agent == agent && IsLive(row.status)
  }

  function Sweep(t: Tables, agent: string, reason: string, now: nat): (Tables, nat)
  {
    (t.(tasks := map k | k in t.tasks ::
          if Swept(t.tasks[k], agent) then Closed(t.tasks[k], Failed, reason, now) else t.tasks[k]),
     |set k | k in t.tasks && Swept(t.tasks[k], agent)|)
  }

  // ---------------------------------------------------------------- messages

  /** The text parts joined by line feeds, as the `content` column keeps them. */
  function ExtractText(parts: seq<Part>): string
  {
    if parts == [] then ""
    else
      var rest := ExtractText(parts[1..]);
      if !parts[0].TextPart? then rest
      else if HasText(parts[1..]) then parts[0].text + "\n" + rest
      else parts[0].text
  }

  predicate HasText(parts: seq<Part>)
  {
    exists i :: 0 <= i < |parts| && parts[i].TextPart?
  }

  function RowFor(id: string, session: string, agent: string, m: Message): MessageRow
  {
    MessageRow(session, agent, if m.speaker == User then UserRole else AssistantRole, ExtractText(m.parts),
               Some(Meta(Some(id), m.messageId, Some(m.parts), m.metadata)), None)
  }

  function Insert(t: Tables, id: string, agent: string, m: Message): (Tables, bool)
  {
    if id !in t.taskMap then (t, false)
    else (t.(messages := t.messages + [RowFor(id, t.taskMap[id].session, agent, m)]), true)
  }

  /** The agent loop's own save, stamped through `trace` (and possibly through its metadata). */
  function Save(t: Tables, row: MessageRow): (Tables, bool)
  {
    if row.session !in t.sessions then (t, false) else (t.(messages := t.messages + [row]), true)
  }

  predicate Stamped(row: MessageRow, id: string)
  {
    row.trace == Some(id) || (row.meta.Some? && row.meta.value.taskId == Some(id))
  }

  /** The read scope: this session, conversational rows, stamped with this task one way or the other. */
  predicate InScope(row: MessageRow, session: string, id: string)
  {
    row.session == session && (row.role == UserRole || row.role == AssistantRole) && Stamped(row, id)
  }

  function Recover(row: MessageRow): Message
  {
    var fallback := [TextPart(row.content)];
    var speaker := if row.role == AssistantRole then Agent else User;
    if row.meta.None? || row.meta.value.Foreign? then Message("", speaker, fallback, None)
    else Message(row.meta.value.messageId, speaker,
                 if row.meta.value.parts.Some? then row.meta.value.parts.value else fallback, row.meta.value.metadata)
  }

  function Scoped(rows: seq<MessageRow>, session: string, id: string): seq<Message>
  {
    if rows == [] then []
    else
      var last := rows[|rows| - 1];
      Scoped(rows[..|rows| - 1], session, id) + (if InScope(last, session, id) then [Recover(last)] else [])
  }

  /** SQLite's LIMIT: the first `n` rows, all of them for a negative `n`. */
  function Limited(messages: seq<Message>, limit: Option<int>): seq<Message>
  {
    if limit.Some? && 0 <= limit.value < |messages| then messages[..limit.value] else messages
  }

  function GetMessages(t: Tables, id: string, limit: Option<int>): seq<Message>
  {
    if id !in t.taskMap then [] else Limited(Scoped(t.messages, t.taskMap[id].session, id), limit)
  }

  function GetArtifacts(t: Tables, id: string): seq<Artifact>
  {
    if id in t.artifacts then t.artifacts[id] else []
  }

  // ---------------------------------------------------------------- the assembled task

  datatype Task = Task(
    id: string, context: Option<string>, state: TaskState, statusMessage: Option<Message>, updatedAt: nat,
    artifacts: Option<seq<Artifact>>, history: Option<seq<Message>>, closeReason: Option<string>)

  function LastAgent(messages: seq<Message>): Option<Message>
  {
    if messages == [] then None
    else if messages[|messages| - 1].speaker == Agent then Some(messages[|messages| - 1])
    else LastAgent(messages[..|messages| - 1])
  }

  /** `Ok(None)` for an unknown task; an error when the stored result is not a JSON object. */
  function BuildTask(t: Tables, id: string, limit: Option<int>): Result<Option<Task>, string>
  {
    if !Mapped(t, id) then Ok(None)
    else
      var row := t.tasks[t.taskMap[id].task];
      var messages := GetMessages(t, id, limit);
      var artifacts := GetArtifacts(t, id);
      if row.result.Some? && row.result.value.PlainText? then Err("metadata is not JSON")
      else Ok(Some(Task(
        id, t.taskMap[id].context, A2aStateOf(row.status), LastAgent(messages), row.updatedAt,
        if artifacts == [] then None else Some(artifacts),
        if messages == [] then None else Some(messages),
        if row.result.Some? then Some(row.result.value.reason) else None)))
  }

  // ---------------------------------------------------------------- runs

  datatype Event =
    | OpenSession(session: string, agent: string)
    | CreateTask(id: string, agent: string, context: Option<string>, caller: Option<string>, task: string, now: nat,
      fault: Fault)
    | UpdateState(id: string, state: string, now: nat)
    | AbandonIfLive(id: string, reason: string, now: nat)
    | SweepOrphans(agent: string, reason: string, now: nat)
    | InsertMessage(id: string, agent: string, message: Message)
    | SaveMessage(row: MessageRow)
    | PutArtifacts(id: string, artifacts: seq<Artifact>)

  function Step(t: Tables, e: Event): Tables
  {
    match e
    case OpenSession(session, agent) => if session in t.sessions then t
      else t.(sessions := t.sessions[session := agent])
    case CreateTask(id, agent, context, caller, task, now, fault) =>
      Create(t, id, agent, context, caller, task, now, fault).0
    case UpdateState(id, state, now) => Update(t, id, state, now).0
    case AbandonIfLive(id, reason, now) => Abandon(t, id, reason, now).0
    case SweepOrphans(agent, reason, now) => Sweep(t, agent, reason, now).0
    case InsertMessage(id, agent, message) => Insert(t, id, agent, message).0
    case SaveMessage(row) => Save(t, row).0
    case PutArtifacts(id, artifacts) => if id in t.taskMap then t.(artifacts := t.artifacts[id := artifacts]) else t
  }

  function Empty(): Tables
  {
    Tables(map[], map[], map[], [], map[])
  }

  function Run(t: Tables, events: seq<Event>): Tables
  {
    if events == [] then t else Step(Run(t, events[..|events| - 1]), events[|events| - 1])
  }
}
