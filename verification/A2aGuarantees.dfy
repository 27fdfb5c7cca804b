/** What every run of the A2A writers keeps, and what reading a task gives back. */
module A2aGuarantees {
  import opened Prelude
  import opened A2aTables
  import Utf8

  // ---------------------------------------------------------------- rows and mappings

  ghost predicate RowOk(row: Row)
  {
    && (row.completedAt.Some? <==> IsClosing(row.status))
    && (row.status == InProgress ==> row.firedAt.Some?)
    && (row.result.Some? ==> row.result.value.CloseReason?)
    && row.status in {Pending, InProgress, Completed, Failed, Cancelled}
  }

  ghost predicate RowsOk(t: Tables)
  {
    forall k :: k in t.tasks ==> RowOk(t.tasks[k])
  }

  /** A mapping names an existing task and an existing session, both of one agent. */
  ghost predicate Owned(t: Tables, id: string)
    requires id in t.taskMap
  {
    var m := t.taskMap[id];
    m.task in t.tasks && m.session in t.sessions && t.sessions[m.session] == t.tasks[m.task].agent
  }

  ghost predicate MappingsOk(t: Tables)
  {
    && (forall id :: id in t.taskMap ==> Owned(t, id))
    && (forall a, b :: a in t.taskMap && b in t.taskMap && a != b ==> t.taskMap[a].task != t.taskMap[b].task)
  }

  lemma RowsStep(t: Tables, e: Event)
    requires RowsOk(t)
    ensures RowsOk(Step(t, e))
  {
  }

  /** What a step may do to sessions, task rows and mappings: add new ones, move a row, nothing else. */
  ghost predicate Grows(s: Tables, t: Tables)
  {
    && (forall k :: k in s.sessions ==> k in t.sessions && t.sessions[k] == s.sessions[k])
    && (forall k :: k in s.taskMap ==> k in t.taskMap && t.taskMap[k] == s.taskMap[k])
    && (forall k :: k in s.tasks ==> k in t.tasks && SameOrigin(s.tasks[k], t.tasks[k]))
    && s.messages <= t.messages
  }

  ghost predicate SameOrigin(a: Row, b: Row)
  {
    b.agent == a.agent && (a.firedAt.Some? ==> b.firedAt == a.firedAt)
  }

  lemma GrowsCreate(t: Tables, id: string, agent: string, context: Option<string>, caller: Option<string>, task: string,
                    now: nat, fault: Fault)
    ensures Grows(t, Create(t, id, agent, context, caller, task, now, fault).0)
  {
  }

  lemma GrowsStep(t: Tables, e: Event)
    ensures Grows(t, Step(t, e))
  {
    if e.CreateTask? { GrowsCreate(t, e.id, e.agent, e.context, e.caller, e.task, e.now, e.fault); }
  }

  lemma MappingsCreate(t: Tables, id: string, agent: string, context: Option<string>, caller: Option<string>,
                       task: string, now: nat, fault: Fault)
    requires MappingsOk(t)
    ensures MappingsOk(Create(t, id, agent, context, caller, task, now, fault).0)
  {
    var u := Create(t, id, agent, context, caller, task, now, fault).0;
    forall k | k in u.taskMap ensures Owned(u, k) {
      if k in t.taskMap { assert Owned(t, k); }
    }
    forall a, b | a in u.taskMap && b in u.taskMap && a != b ensures u.taskMap[a].task != u.taskMap[b].task {
      if a in t.taskMap { assert Owned(t, a); }
      if b in t.taskMap { assert Owned(t, b); }
    }
  }

  lemma MappingsStep(t: Tables, e: Event)
    requires MappingsOk(t)
    ensures MappingsOk(Step(t, e))
  {
    if e.CreateTask? {
      MappingsCreate(t, e.id, e.agent, e.context, e.caller, e.task, e.now, e.fault);
    } else {
      GrowsStep(t, e);
      SameKeys(t, e);
      MappingsGrow(t, Step(t, e));
    }
  }

  lemma MappingsGrow(t: Tables, u: Tables)
    requires MappingsOk(t) && Grows(t, u) && u.taskMap == t.taskMap
    ensures MappingsOk(u)
  {
    forall k | k in u.taskMap ensures Owned(u, k) { assert Owned(t, k); }
  }

  /**
   Over every run of the A2A writers, with database errors anywhere: a row is closed in time exactly when
   its status is a closing one, a row in progress has been fired, a stored result is always a close
   object; and every mapped task and session exist and belong to one agent.
   */
  lemma {:induction false} EveryRunKeeps(events: seq<Event>)
    ensures RowsOk(Run(Empty(), events)) && MappingsOk(Run(Empty(), events))
  {
    if events != [] {
      var init := events[..|events| - 1];
      EveryRunKeeps(init);
      RowsStep(Run(Empty(), init), events[|events| - 1]);
      MappingsStep(Run(Empty(), init), events[|events| - 1]);
    }
  }

  lemma {:induction false} RunConcat(t: Tables, a: seq<Event>, b: seq<Event>)
    ensures Run(t, a + b) == Run(Run(t, a), b)
    decreases |b|
  {
    if b == [] {
      assert a + b == a;
    } else {
      assert (a + b)[..|a + b| - 1] == a + b[..|b| - 1];
      RunConcat(t, a, b[..|b| - 1]);
    }
  }

  /** The first-start stamp of a row never changes once set, and rows never change hands, however the run goes on. */
  lemma {:induction false} StampsNeverMove(t: Tables, events: seq<Event>)
    ensures Grows(t, Run(t, events))
  {
    if events != [] {
      var mid := Run(t, events[..|events| - 1]);
      StampsNeverMove(t, events[..|events| - 1]);
      GrowsStep(mid, events[|events| - 1]);
    }
  }

  /**
   A task is always readable, and a row whose last word was an abandon or a sweep reads back closed with
   that reason. A later state update moves the state but leaves the reason standing.
   */
  lemma BuildAlwaysReads(events: seq<Event>, id: string, limit: Option<int>)
    ensures var t := Run(Empty(), events);
      && BuildTask(t, id, limit).Ok?
      && (BuildTask(t, id, limit).value.Some? <==> id in t.taskMap)
  {
    EveryRunKeeps(events);
    var t := Run(Empty(), events);
    if id in t.taskMap { assert Owned(t, id); assert RowOk(t.tasks[t.taskMap[id].task]); }
  }

  lemma CloseReasonReadsBack(t: Tables, id: string, reason: string, now: nat, state: string, later: nat,
                             limit: Option<int>)
    requires Mapped(t, id)
    ensures var u := Abandon(t, id, reason, now).0;
      Abandon(t, id, reason, now).1 ==>
        && BuildTask(u, id, limit).Ok? && BuildTask(u, id, limit).value.Some?
        && BuildTask(u, id, limit).value.value.state == Canceled
        && BuildTask(u, id, limit).value.value.closeReason == Some(reason)
        && var v := BuildTask(Update(u, id, state, later).0, id, limit);
           v.Ok? && v.value.Some? && v.value.value.closeReason == Some(reason)
             && v.value.value.state == A2aStateOf(TaskStatusOf(state))
    ensures IsLive(t.tasks[t.taskMap[id].task].status) ==>
      var u := BuildTask(Sweep(t, t.tasks[t.taskMap[id].task].agent, reason, now).0, id, limit);
      u.Ok? && u.value.Some? && u.value.value.state == StateFailed && u.value.value.closeReason == Some(reason)
  {
  }

  // ---------------------------------------------------------------- what each writer leaves

  /**
   A create that succeeds runs in the session the caller names exactly when that name is not empty, has at
   most 200 bytes and no control character, and belongs to a session of this agent; in a minted one otherwise.
   */
  lemma AdoptsExactly(t: Tables, id: string, agent: string, context: Option<string>, named: string, task: string,
                      now: nat)
    requires Create(t, id, agent, context, Some(named), task, now, NoFault).1.Some?
    ensures Create(t, id, agent, context, Some(named), task, now, NoFault).1 ==
      if && named != "" && |Utf8.Encode(named)| <= 200
         && (forall i :: 0 <= i < |named| ==> 0x20 <= named[i] as int < 0x7F || 0xA0 <= named[i] as int)
         && named in t.sessions && t.sessions[named] == agent
      then Some(named) else Some("a2a-" + id)
  {
    AdoptableExactly(t.sessions, named, agent);
    SessionOfCreate(t, id, agent, context, Some(named), task, now);
  }

  lemma AdoptableExactly(sessions: map<string, string>, named: string, agent: string)
    ensures Adoptable(sessions, named, agent) <==>
      && named != "" && |Utf8.Encode(named)| <= 200
      && (forall i :: 0 <= i < |named| ==> 0x20 <= named[i] as int < 0x7F || 0xA0 <= named[i] as int)
      && named in sessions && sessions[named] == agent
  {
  }

  lemma SessionOfCreate(t: Tables, id: string, agent: string, context: Option<string>, caller: Option<string>,
                        task: string, now: nat)
    requires Create(t, id, agent, context, caller, task, now, NoFault).1.Some?
    ensures Create(t, id, agent, context, caller, task, now, NoFault).1
      == Some(if caller.Some? && Adoptable(t.sessions, caller.value, agent) then caller.value else "a2a-" + id)
  {
  }

  /** A new task reads back as submitted, in its context, without a close reason. */
  lemma CreatedIsSubmitted(t: Tables, id: string, agent: string, context: Option<string>, caller: Option<string>,
                           task: string, now: nat, limit: Option<int>)
    requires Create(t, id, agent, context, caller, task, now, NoFault).1.Some?
    ensures var r := BuildTask(Create(t, id, agent, context, caller, task, now, NoFault).0, id, limit);
      r.Ok? && r.value.Some? && r.value.value.state == Submitted && r.value.value.context == context
      && r.value.value.closeReason == None && r.value.value.updatedAt == now
  {
  }

  /** The times an update writes: when it was, the close if it closes, the first start if it starts. */
  lemma UpdateStampsExactly(t: Tables, id: string, state: string, now: nat)
    requires Mapped(t, id)
    ensures var was, row := t.tasks[t.taskMap[id].task], Update(t, id, state, now).0.tasks[t.taskMap[id].task];
      && row.updatedAt == now && row.agent == was.agent && row.result == was.result
      && row.completedAt == (if state in {"completed", "failed", "canceled"} then Some(now) else None)
      && row.firedAt == (if state == "working" && was.firedAt.None? then Some(now) else was.firedAt)
  {
  }

  /** A close keeps the agent and the start, and records the moment and the reason. */
  lemma ClosesExactly(t: Tables, id: string, agent: string, reason: string, now: nat)
    requires Mapped(t, id) && t.tasks[t.taskMap[id].task].status in {Pending, InProgress}
    ensures var k := t.taskMap[id].task; var was := t.tasks[k];
      && Abandon(t, id, reason, now).0.tasks[k]
           == Row(was.agent, Cancelled, was.firedAt, Some(now), now, Some(CloseReason(reason)))
      && Sweep(t, agent, reason, now).0.tasks[k]
           == if was.agent != agent then was
              else Row(agent, Failed, was.firedAt, Some(now), now, Some(CloseReason(reason)))
  {
  }

  /** Which rows read back as which state, rows of other writers included. */
  lemma ReadsBackAs(s: Status)
    ensures A2aStateOf(s) == StateCompleted <==> s in {Completed, Delivered}
    ensures A2aStateOf(s) == StateFailed <==> s in {Failed, Expired}
    ensures A2aStateOf(s) == Canceled <==> s == Cancelled
    ensures A2aStateOf(s) == Working <==> s in {InProgress, Blocked}
    ensures A2aStateOf(s) == Submitted <==> s in {Pending, RecurringActive}
  {
  }

  // ---------------------------------------------------------------- failed creates

  ghost predicate Unmapped(t: Tables, task: string)
  {
    task in t.tasks && forall id :: id in t.taskMap ==> t.taskMap[id].task != task
  }

  /**
   A create that fails leaves the tables as they were exactly when it failed at its first insert. Failing
   later it leaves what it had written: a session, or a live task row that no A2A id names.
   */
  lemma FailedCreate(t: Tables, id: string, agent: string, context: Option<string>, caller: Option<string>,
                     task: string, now: nat, fault: Fault)
    requires MappingsOk(t) && Create(t, id, agent, context, caller, task, now, fault).1.None?
    ensures var u := Create(t, id, agent, context, caller, task, now, fault).0;
      var adopts := Adopts(t.sessions, caller, agent, fault);
      && (u == t <==> if adopts then fault.AtTask? || task in t.tasks else fault.AtSession? || Minted(id) in t.sessions)
      && (u.tasks != t.tasks ==> Unmapped(u, task) && IsLive(u.tasks[task].status))
  {
    var u := Create(t, id, agent, context, caller, task, now, fault).0;
    if u.tasks != t.tasks {
      assert task !in t.tasks;
      forall k | k in u.taskMap ensures u.taskMap[k].task != task { assert Owned(t, k); }
    } else if u != t {
      assert Minted(id) in u.sessions && Minted(id) !in t.sessions;
    }
  }

  /** A create that fails at its last insert leaves a live row behind that no A2A id names. */
  lemma CreateLeavesAnOrphan()
    ensures var r := Create(Empty(), "a", "mika", None, None, "t", 0, AtMap);
      r.1.None? && r.0 != Empty() && Unmapped(r.0, "t") && IsLive(r.0.tasks["t"].status)
  {
    FailedCreate(Empty(), "a", "mika", None, None, "t", 0, AtMap);
  }

  /** No later event ever maps such a row, so only a sweep of its agent can close it. */
  lemma {:induction false} OrphanStaysUnmapped(t: Tables, events: seq<Event>, task: string)
    requires Unmapped(t, task)
    ensures Unmapped(Run(t, events), task)
    ensures (forall i :: 0 <= i < |events| ==> !(events[i].SweepOrphans? && events[i].agent == t.tasks[task].agent)) ==>
      Run(t, events).tasks[task] == t.tasks[task]
  {
    if events != [] {
      var init, e := events[..|events| - 1], events[|events| - 1];
      OrphanStaysUnmapped(t, init, task);
      OrphanStep(Run(t, init), e, task);
      StampsNeverMove(t, init);
      assert SameOrigin(t.tasks[task], Run(t, init).tasks[task]);
    }
  }

  lemma OrphanStep(t: Tables, e: Event, task: string)
    requires Unmapped(t, task)
    ensures Unmapped(Step(t, e), task)
    ensures !(e.SweepOrphans? && e.agent == t.tasks[task].agent) ==> Step(t, e).tasks[task] == t.tasks[task]
  {
  }

  // ---------------------------------------------------------------- task-scoped history

  /** What one event writes for task `id`, whose session is `session`. */
  function WrittenBy(t: Tables, e: Event, session: string, id: string): seq<Message>
  {
    match e
    case InsertMessage(to, _, m) => if to == id && id in t.taskMap then [m] else []
    case SaveMessage(row) => if row.session in t.sessions && InScope(row, session, id) then [Recover(row)] else []
    case _ => []
  }

  function Written(t: Tables, events: seq<Event>, session: string, id: string): seq<Message>
  {
    if events == [] then []
    else
      var init := events[..|events| - 1];
      Written(t, init, session, id) + WrittenBy(Run(t, init), events[|events| - 1], session, id)
  }

  /** A message inserted over A2A comes back exactly as it was sent. */
  lemma InsertedComesBack(id: string, session: string, agent: string, m: Message, other: string)
    ensures Recover(RowFor(id, session, agent, m)) == m
    ensures InScope(RowFor(id, session, agent, m), session, other) <==> other == id
  {
  }

  lemma ScopedPush(rows: seq<MessageRow>, row: MessageRow, session: string, id: string)
    ensures Scoped(rows + [row], session, id)
      == Scoped(rows, session, id) + (if InScope(row, session, id) then [Recover(row)] else [])
  {
    assert (rows + [row])[..|rows|] == rows;
  }

  lemma ScopedStep(t: Tables, e: Event, session: string, id: string)
    requires id in t.taskMap ==> t.taskMap[id].session == session
    ensures Scoped(Step(t, e).messages, session, id) == Scoped(t.messages, session, id) + WrittenBy(t, e, session, id)
  {
    var had := Scoped(t.messages, session, id);
    assert had + [] == had;
    if e.InsertMessage? && e.id in t.taskMap {
      var row := RowFor(e.id, t.taskMap[e.id].session, e.agent, e.message);
      ScopedPush(t.messages, row, session, id);
      InsertedComesBack(e.id, t.taskMap[e.id].session, e.agent, e.message, id);
    } else if e.SaveMessage? && e.row.session in t.sessions {
      ScopedPush(t.messages, e.row, session, id);
    }
  }

  lemma {:induction false} ScopedRun(t: Tables, events: seq<Event>, session: string, id: string)
    requires (id in Run(t, events).taskMap ==> Run(t, events).taskMap[id].session == session)
    ensures Scoped(Run(t, events).messages, session, id)
      == Scoped(t.messages, session, id) + Written(t, events, session, id)
  {
    if events != [] {
      var init, e := events[..|events| - 1], events[|events| - 1];
      var mid := Run(t, init);
      GrowsStep(mid, e);
      ScopedRun(t, init, session, id);
      ScopedStep(mid, e, session, id);
      Reassociate(Scoped(t.messages, session, id), Written(t, init, session, id), WrittenBy(mid, e, session, id));
    } else {
      assert Scoped(t.messages, session, id) + [] == Scoped(t.messages, session, id);
    }
  }

  lemma Reassociate(a: seq<Message>, b: seq<Message>, c: seq<Message>)
    ensures a + b + c == a + (b + c)
  {
  }

  /**
   Reading a task gives exactly the messages written for it, in the order they were written, over every
   interleaving of creates, inserts, loop saves and closes; a limit keeps the oldest ones.
   */
  lemma ReadsExactlyWhatWasWritten(events: seq<Event>, id: string, limit: Option<int>)
    requires id in Run(Empty(), events).taskMap
    ensures var t := Run(Empty(), events);
      GetMessages(t, id, limit) == Limited(Written(Empty(), events, t.taskMap[id].session, id), limit)
  {
    var session := Run(Empty(), events).taskMap[id].session;
    ScopedRun(Empty(), events, session, id);
    assert Scoped([], session, id) + Written(Empty(), events, session, id) == Written(Empty(), events, session, id);
  }

  /**
   What the agent loop saves under the trace of a task comes back as the last message of that task, spoken by
   whom its role says; under another trace it does not.
   */
  lemma SavedIsRead(t: Tables, id: string, row: MessageRow, speaker: Speaker)
    requires id in t.taskMap && row.session == t.taskMap[id].session && row.session in t.sessions && row.meta.None?
    requires (row.role == UserRole && speaker == User) || (row.role == AssistantRole && speaker == Agent)
    ensures row.trace == Some(id) ==>
      GetMessages(Save(t, row).0, id, None)
        == GetMessages(t, id, None) + [Message("", speaker, [TextPart(row.content)], None)]
    ensures row.trace != Some(id) ==> GetMessages(Save(t, row).0, id, None) == GetMessages(t, id, None)
  {
    ScopedPush(t.messages, row, row.session, id);
    assert Scoped(t.messages, row.session, id) + [] == Scoped(t.messages, row.session, id);
  }

  /** Rows of any other role, or in any other session, are never read. */
  lemma OnlyConversationIsRead(t: Tables, id: string, row: MessageRow)
    requires id in t.taskMap
    requires row.session != t.taskMap[id].session || row.role in {SystemRole, SummaryRole, ToolResultRole}
    ensures GetMessages(Save(t, row).0, id, None) == GetMessages(t, id, None)
  {
    ScopedPush(t.messages, row, t.taskMap[id].session, id);
    var had := Scoped(t.messages, t.taskMap[id].session, id);
    assert had + [] == had;
  }

  /** A row stamped through its metadata is read too, with its own parts or, failing those, its content. */
  lemma StampedSaveIsRead(t: Tables, id: string, row: MessageRow, speaker: Speaker)
    requires id in t.taskMap && row.session == t.taskMap[id].session && row.session in t.sessions
    requires row.meta.Some? && row.meta.value.taskId == Some(id)
    requires (row.role == UserRole && speaker == User) || (row.role == AssistantRole && speaker == Agent)
    ensures GetMessages(Save(t, row).0, id, None) == GetMessages(t, id, None) + [
      match row.meta.value
      case Foreign(_) => Message("", speaker, [TextPart(row.content)], None)
      case Meta(_, messageId, parts, metadata) =>
        Message(messageId, speaker, if parts.Some? then parts.value else [TextPart(row.content)], metadata)]
  {
    ScopedPush(t.messages, row, row.session, id);
  }

  /** A limit keeps the oldest messages, as many as it says; a negative one keeps them all. */
  lemma LimitKeepsTheOldest(t: Tables, id: string, n: int)
    ensures var all, some := GetMessages(t, id, None), GetMessages(t, id, Some(n));
      some <= all && |some| == if 0 <= n < |all| then n else |all|
  {
  }

  function TextsIn(parts: seq<Part>): seq<string>
  {
    if parts == [] then [] else (if parts[0].TextPart? then [parts[0].text] else []) + TextsIn(parts[1..])
  }

  function JoinLines(texts: seq<string>): string
  {
    if texts == [] then "" else if |texts| == 1 then texts[0] else texts[0] + "\n" + JoinLines(texts[1..])
  }

  lemma {:induction false} HasTextExactly(parts: seq<Part>)
    ensures HasText(parts) <==> TextsIn(parts) != []
  {
    if parts != [] {
      var rest := parts[1..];
      HasTextExactly(rest);
      if i :| 0 <= i < |rest| && rest[i].TextPart? { assert parts[i + 1] == rest[i]; }
      if i :| 0 <= i < |parts| && parts[i].TextPart? { if i > 0 { assert rest[i - 1] == parts[i]; } }
    }
  }

  /** The content column of an inserted message: its text parts, one line feed between any two. */
  lemma {:induction false} ContentIsJoined(parts: seq<Part>)
    ensures ExtractText(parts) == JoinLines(TextsIn(parts))
  {
    if parts != [] {
      var rest := TextsIn(parts[1..]);
      ContentIsJoined(parts[1..]);
      HasTextExactly(parts[1..]);
      if parts[0].TextPart? {
        assert TextsIn(parts) == [parts[0].text] + rest && ([parts[0].text] + rest)[1..] == rest;
      } else {
        assert TextsIn(parts) == rest;
      }
    }
  }

  /** What an insert stores: the joined text as content, the role of the speaker, the stamp in the metadata only. */
  lemma InsertedRow(id: string, session: string, agent: string, m: Message)
    ensures var row := RowFor(id, session, agent, m);
      && row.session == session && row.agent == agent && row.content == JoinLines(TextsIn(m.parts))
      && (row.role == AssistantRole <==> m.speaker == Agent) && (row.role == UserRole <==> m.speaker == User)
      && row.trace.None? && row.meta.Some? && row.meta.value.taskId == Some(id)
  {
    ContentIsJoined(m.parts);
  }

  /** Two stores that differ at most in what does not concern reading task `id`. */
  ghost predicate Agree(s: Tables, t: Tables, id: string)
  {
    && s.sessions == t.sessions && s.taskMap == t.taskMap && s.tasks.Keys == t.tasks.Keys
    && forall session :: Scoped(s.messages, session, id) == Scoped(t.messages, session, id)
  }

  /** Events about other tasks, and events that only move rows. */
  predicate Irrelevant(e: Event, id: string)
  {
    e.UpdateState? || e.AbandonIfLive? || e.SweepOrphans? || e.PutArtifacts?
    || (e.InsertMessage? && e.id != id) || (e.SaveMessage? && !Stamped(e.row, id))
  }

  /** The row an event appends, if it appends one: only the mappings and the sessions decide. */
  function Appended(t: Tables, e: Event): seq<MessageRow>
  {
    match e
    case InsertMessage(id, agent, m) => if id in t.taskMap then [RowFor(id, t.taskMap[id].session, agent, m)] else []
    case SaveMessage(row) => if row.session in t.sessions then [row] else []
    case _ => []
  }

  lemma StepAppends(t: Tables, e: Event)
    ensures Step(t, e).messages == t.messages + Appended(t, e)
  {
    assert t.messages + [] == t.messages;
  }

  lemma AgreeMessages(s: Tables, t: Tables, e: Event, id: string, session: string)
    requires Agree(s, t, id)
    ensures Scoped(Step(s, e).messages, session, id) == Scoped(Step(t, e).messages, session, id)
  {
    StepAppends(s, e);
    StepAppends(t, e);
    var rows := Appended(t, e);
    assert Appended(s, e) == rows;
    if rows == [] {
      assert s.messages + [] == s.messages && t.messages + [] == t.messages;
    } else {
      ScopedPush(s.messages, rows[0], session, id);
      ScopedPush(t.messages, rows[0], session, id);
    }
  }

  /** What a create leaves of the sessions and the mappings. */
  lemma CreateParts(t: Tables, id: string, agent: string, context: Option<string>, caller: Option<string>,
                    task: string, now: nat, fault: Fault)
    ensures var u := Create(t, id, agent, context, caller, task, now, fault).0;
      var adopts := Adopts(t.sessions, caller, agent, fault);
      var stops := !adopts && (fault.AtSession? || Minted(id) in t.sessions);
      && u.sessions == (if adopts || stops then t.sessions else t.sessions[Minted(id) := agent])
      && u.taskMap ==
         if stops || fault.AtTask? || task in t.tasks || fault.AtMap? || id in t.taskMap then t.taskMap
         else t.taskMap[id := MapRow(task, if adopts then caller.value else Minted(id), context)]
  {
  }

  lemma AgreeCreate(s: Tables, t: Tables, id: string, agent: string, context: Option<string>, caller: Option<string>,
                    task: string, now: nat, fault: Fault)
    requires s.sessions == t.sessions && s.taskMap == t.taskMap && s.tasks.Keys == t.tasks.Keys
    ensures var u := Create(s, id, agent, context, caller, task, now, fault).0;
      var v := Create(t, id, agent, context, caller, task, now, fault).0;
      u.sessions == v.sessions && u.taskMap == v.taskMap
  {
    CreateParts(s, id, agent, context, caller, task, now, fault);
    CreateParts(t, id, agent, context, caller, task, now, fault);
    assert task in s.tasks.Keys <==> task in t.tasks.Keys;
  }

  lemma AgreeCreateKeys(s: Tables, t: Tables, id: string, agent: string, context: Option<string>,
                        caller: Option<string>, task: string, now: nat, fault: Fault)
    requires s.sessions == t.sessions && s.taskMap == t.taskMap && s.tasks.Keys == t.tasks.Keys
    ensures Create(s, id, agent, context, caller, task, now, fault).0.tasks.Keys
      == Create(t, id, agent, context, caller, task, now, fault).0.tasks.Keys
  {
    CreateKeys(s, id, agent, context, caller, task, now, fault);
    CreateKeys(t, id, agent, context, caller, task, now, fault);
  }

  /** A task row is added unless the session could not be had, the insert fails or the row is there. */
  lemma CreateKeys(t: Tables, id: string, agent: string, context: Option<string>, caller: Option<string>, task: string,
                   now: nat, fault: Fault)
    ensures var adopts := Adopts(t.sessions, caller, agent, fault);
      Create(t, id, agent, context, caller, task, now, fault).0.tasks.Keys
      == if (!adopts && (fault.AtSession? || Minted(id) in t.sessions))
        || fault.AtTask? then t.tasks.Keys else t.tasks.Keys + {task}
  {
  }

  lemma AgreeSkeleton(s: Tables, t: Tables, e: Event)
    requires s.sessions == t.sessions && s.taskMap == t.taskMap && s.tasks.Keys == t.tasks.Keys
    ensures var u, v := Step(s, e), Step(t, e);
      u.sessions == v.sessions && u.taskMap == v.taskMap && u.tasks.Keys == v.tasks.Keys
  {
    if e.CreateTask? {
      AgreeCreate(s, t, e.id, e.agent, e.context, e.caller, e.task, e.now, e.fault);
      AgreeCreateKeys(s, t, e.id, e.agent, e.context, e.caller, e.task, e.now, e.fault);
    } else {
      SameKeys(s, e);
      SameKeys(t, e);
    }
  }

  lemma SameKeys(t: Tables, e: Event)
    requires !e.CreateTask?
    ensures Step(t, e).tasks.Keys == t.tasks.Keys && Step(t, e).taskMap == t.taskMap
  {
  }

  lemma AgreeStep(s: Tables, t: Tables, e: Event, id: string)
    requires Agree(s, t, id)
    ensures Agree(Step(s, e), Step(t, e), id)
  {
    AgreeSkeleton(s, t, e);
    forall session ensures Scoped(Step(s, e).messages, session, id) == Scoped(Step(t, e).messages, session, id) {
      AgreeMessages(s, t, e, id, session);
    }
  }

  lemma IrrelevantStep(t: Tables, e: Event, id: string)
    requires Irrelevant(e, id)
    ensures Agree(t, Step(t, e), id)
  {
    SameKeys(t, e);
    forall session ensures Scoped(t.messages, session, id) == Scoped(Step(t, e).messages, session, id) {
      IrrelevantMessages(t, e, id, session);
    }
  }

  lemma IrrelevantMessages(t: Tables, e: Event, id: string, session: string)
    requires Irrelevant(e, id)
    ensures Scoped(t.messages, session, id) == Scoped(Step(t, e).messages, session, id)
  {
    StepAppends(t, e);
    var rows := Appended(t, e);
    if rows == [] {
      assert t.messages + [] == t.messages;
    } else {
      ScopedPush(t.messages, rows[0], session, id);
    }
  }

  lemma {:induction false} AgreeRun(s: Tables, t: Tables, events: seq<Event>, id: string)
    requires Agree(s, t, id)
    ensures Agree(Run(s, events), Run(t, events), id)
  {
    if events != [] {
      AgreeRun(s, t, events[..|events| - 1], id);
      AgreeStep(Run(s, events[..|events| - 1]), Run(t, events[..|events| - 1]), events[|events| - 1], id);
    }
  }

  /**
   Isolation: putting any event about other tasks anywhere into a run, even one that shares the session,
   does not change what reading this task returns.
   */
  lemma OtherTasksDoNotShow(before: seq<Event>, e: Event, after: seq<Event>, id: string, limit: Option<int>)
    requires Irrelevant(e, id)
    ensures GetMessages(Run(Empty(), before + [e] + after), id, limit)
      == GetMessages(Run(Empty(), before + after), id, limit)
  {
    var t := Run(Empty(), before);
    InsertedIntoRun(before, e, after);
    IrrelevantStep(t, e, id);
    AgreeRun(t, Step(t, e), after, id);
  }

  /** Task `id` is mapped to this session, and the session is there. */
  ghost predicate Anchored(t: Tables, id: string, session: string)
  {
    id in t.taskMap && t.taskMap[id].session == session && session in t.sessions
  }

  lemma AnchoredStays(t: Tables, e: Event, id: string, session: string)
    requires Anchored(t, id, session)
    ensures Anchored(Step(t, e), id, session)
  {
    GrowsStep(t, e);
  }

  lemma {:induction false} SameWritten(s: Tables, t: Tables, events: seq<Event>, session: string, id: string)
    requires Anchored(s, id, session) && Anchored(t, id, session)
    ensures Written(s, events, session, id) == Written(t, events, session, id)
    ensures Anchored(Run(s, events), id, session) && Anchored(Run(t, events), id, session)
  {
    if events != [] {
      var init, e := events[..|events| - 1], events[|events| - 1];
      SameWritten(s, t, init, session, id);
      AnchoredStays(Run(s, init), e, id, session);
      AnchoredStays(Run(t, init), e, id, session);
    }
  }

  /**
   Isolation of a mapped task: whatever other event is put anywhere into the rest of a run, be it another
   task's create that adopts the very same session, reading this task returns the same, unless that event
   itself writes a message for this task.
   */
  lemma OtherEventsDoNotShow(before: seq<Event>, e: Event, after: seq<Event>, id: string, limit: Option<int>)
    requires var t := Run(Empty(), before); id in t.taskMap && WrittenBy(t, e, t.taskMap[id].session, id) == []
    ensures GetMessages(Run(Empty(), before + [e] + after), id, limit)
      == GetMessages(Run(Empty(), before + after), id, limit)
  {
    var t := Run(Empty(), before);
    var session := t.taskMap[id].session;
    InsertedIntoRun(before, e, after);
    EveryRunKeeps(before);
    assert Owned(t, id);
    AnchoredStays(t, e, id, session);
    ScopedStep(t, e, session, id);
    SameRead(t, Step(t, e), after, session, id, limit);
  }

  lemma InsertedIntoRun(before: seq<Event>, e: Event, after: seq<Event>)
    ensures Run(Empty(), before + after) == Run(Run(Empty(), before), after)
    ensures Run(Empty(), before + [e] + after) == Run(Step(Run(Empty(), before), e), after)
  {
    RunConcat(Empty(), before, after);
    RunConcat(Empty(), before + [e], after);
    assert (before + [e])[..|before|] == before;
  }

  lemma SameRead(s: Tables, t: Tables, after: seq<Event>, session: string, id: string, limit: Option<int>)
    requires Anchored(s, id, session) && Anchored(t, id, session)
    requires Scoped(s.messages, session, id) == Scoped(t.messages, session, id)
    ensures GetMessages(Run(s, after), id, limit) == GetMessages(Run(t, after), id, limit)
  {
    SameWritten(s, t, after, session, id);
    ScopedRun(s, after, session, id);
    ScopedRun(t, after, session, id);
  }

  /** Before a task is mapped it is different: what others opened decides which session it adopts. */
  lemma EarlierSessionDecidesAdoption(create: Event)
    requires create == CreateTask("b", "mika", None, Some("s"), "t", 0, NoFault)
    ensures var shared := Step(Step(Empty(), OpenSession("s", "mika")), create);
      "b" in shared.taskMap && shared.taskMap["b"].session == "s"
    ensures "b" in Step(Empty(), create).taskMap && Step(Empty(), create).taskMap["b"].session == Minted("b")
  {
    var t := Step(Empty(), OpenSession("s", "mika"));
    ShortIsAdoptable();
    assert Adopts(t.sessions, Some("s"), "mika", NoFault);
  }

  lemma ShortIsAdoptable()
    ensures Adoptable(map["s" := "mika"], "s", "mika")
  {
    assert "s"[1..] == "" && Utf8.Encode("") == [];
    assert |Utf8.Encode("s")| <= 4;
  }

  // ---------------------------------------------------------------- the protocol machine

  predicate IsTerminal(s: TaskState)
  {
    s == StateCompleted || s == StateFailed || s == Canceled || s == Rejected
  }

  predicate CanTransition(from: TaskState, to: TaskState)
  {
    match from
    case Submitted => to in {Working, Canceled, Rejected}
    case Working => to in {StateCompleted, StateFailed, Canceled, InputRequired, AuthRequired}
    case InputRequired => to in {Working, Canceled, StateFailed}
    case AuthRequired => to in {Working, Canceled, StateFailed}
    case _ => false
  }

  function StateName(s: TaskState): string
  {
    match s
    case Unknown => "unknown"
    case Submitted => "submitted"
    case Working => "working"
    case InputRequired => "input-required"
    case AuthRequired => "auth-required"
    case StateCompleted => "completed"
    case StateFailed => "failed"
    case Canceled => "canceled"
    case Rejected => "rejected"
  }

  /**
   The machine read by where its edges lead: an interrupted task goes back to work, any unfinished one can be
   canceled, one that has started can fail, and each other state is entered from one state or from none.
   */
  lemma EdgesInto(from: TaskState)
    ensures CanTransition(from, Working) <==> from in {Submitted, InputRequired, AuthRequired}
    ensures CanTransition(from, Canceled) <==> !IsTerminal(from) && from != Unknown
    ensures CanTransition(from, StateFailed) <==> !IsTerminal(from) && from !in {Unknown, Submitted}
    ensures CanTransition(from, Rejected) <==> from == Submitted
    ensures forall to :: to in {StateCompleted, InputRequired, AuthRequired} ==>
      (CanTransition(from, to) <==> from == Working)
    ensures !CanTransition(from, Submitted) && !CanTransition(from, Unknown)
  {
  }

  /** The states the store can tell apart; it files every other name under `pending`. */
  predicate IsMapped(s: TaskState)
  {
    s in {Submitted, Working, StateCompleted, StateFailed, Canceled}
  }

  ghost function StateOf(t: Tables, id: string): TaskState
  {
    if Mapped(t, id) then A2aStateOf(t.tasks[t.taskMap[id].task].status) else Unknown
  }

  /** A terminal state has no way out, and the store lands on the state it was told exactly for the five it maps. */
  lemma StoreLandsExactly(t: Tables, id: string, to: TaskState, now: nat)
    requires Mapped(t, id)
    ensures StateOf(Update(t, id, StateName(to), now).0, id) == to <==> IsMapped(to)
    ensures !IsMapped(to) ==> StateOf(Update(t, id, StateName(to), now).0, id) == Submitted
    ensures IsTerminal(StateOf(t, id)) ==> forall s :: !CanTransition(StateOf(t, id), s)
  {
  }

  /** A caller that respects the protocol: it asks only for mapped states the machine allows from here. */
  ghost predicate Lawful(t: Tables, e: Event)
  {
    e.UpdateState? ==> exists to :: IsMapped(to) && e.state == StateName(to) && CanTransition(StateOf(t, e.id), to)
  }

  ghost predicate LawfulRun(t: Tables, events: seq<Event>)
  {
    forall i :: 0 <= i < |events| ==> Lawful(Run(t, events[..i]), events[i])
  }

  /** One edge of the machine the store implements: a legal one, or sweep's submitted-to-failed. */
  ghost predicate Edge(e: Event, from: TaskState, to: TaskState)
  {
    from == to || CanTransition(from, to) || (e.SweepOrphans? && from == Submitted && to == StateFailed)
  }

  lemma LawfulUpdate(t: Tables, e: Event, id: string)
    requires MappingsOk(t) && id in t.taskMap && e.UpdateState? && Lawful(t, e)
    ensures var u := Step(t, e);
      Mapped(u, id) && (StateOf(u, id) == StateOf(t, id) || CanTransition(StateOf(t, id), StateOf(u, id)))
  {
    assert Owned(t, id);
    if e.id in t.taskMap {
      var to :| IsMapped(to) && e.state == StateName(to) && CanTransition(StateOf(t, e.id), to);
      assert Owned(t, e.id);
      StoreLandsExactly(t, e.id, to, e.now);
    }
  }

  lemma LawfulClose(t: Tables, e: Event, id: string)
    requires MappingsOk(t) && Mapped(t, id) && RowOk(t.tasks[t.taskMap[id].task])
      && (e.AbandonIfLive? || e.SweepOrphans?)
    ensures Mapped(Step(t, e), id) && Edge(e, StateOf(t, id), StateOf(Step(t, e), id))
    ensures IsTerminal(StateOf(t, id)) ==> Step(t, e).tasks[t.taskMap[id].task] == t.tasks[t.taskMap[id].task]
  {
  }

  lemma LawfulStep(t: Tables, e: Event, id: string)
    requires RowsOk(t) && MappingsOk(t) && id in t.taskMap && Lawful(t, e)
    ensures Mapped(Step(t, e), id) && Edge(e, StateOf(t, id), StateOf(Step(t, e), id))
  {
    assert Owned(t, id) && RowOk(t.tasks[t.taskMap[id].task]);
    if e.UpdateState? {
      LawfulUpdate(t, e, id);
    } else if e.AbandonIfLive? || e.SweepOrphans? {
      LawfulClose(t, e, id);
    } else if e.CreateTask? {
      CreateKeepsTask(t, id, e);
    }
  }

  lemma CreateKeepsTask(t: Tables, id: string, e: Event)
    requires Mapped(t, id) && e.CreateTask?
    ensures Mapped(Step(t, e), id) && StateOf(Step(t, e), id) == StateOf(t, id)
  {
  }

  /**
   Refinement: from the moment a task is mapped, every lawful run takes its state along a path of the
   protocol machine, whose only extra edge is the sweep's submitted-to-failed.
   */
  lemma RefinesProtocol(events: seq<Event>, id: string, k: nat)
    requires LawfulRun(Empty(), events) && k < |events| && id in Run(Empty(), events[..k]).taskMap
    ensures Edge(events[k], StateOf(Run(Empty(), events[..k]), id), StateOf(Run(Empty(), events[..k + 1]), id))
    ensures id in Run(Empty(), events[..k + 1]).taskMap
  {
    EveryRunKeeps(events[..k]);
    assert events[..k + 1][..k] == events[..k];
    LawfulStep(Run(Empty(), events[..k]), events[k], id);
  }

  /** After a sweep its agent has no live row; abandoning or sweeping twice changes nothing more. */
  lemma ClosersAreIdempotent(t: Tables, id: string, agent: string, reason: string, now: nat, again: string, later: nat)
    ensures forall k :: k in Sweep(t, agent, reason, now).0.tasks ==>
      !Swept(Sweep(t, agent, reason, now).0.tasks[k], agent)
    ensures Sweep(Sweep(t, agent, reason, now).0, agent, again, later) == (Sweep(t, agent, reason, now).0, 0)
    ensures Abandon(Abandon(t, id, reason, now).0, id, again, later) == (Abandon(t, id, reason, now).0, false)
    ensures forall k :: k in t.tasks && !IsLive(t.tasks[k].status) ==>
      Sweep(t, agent, reason, now).0.tasks[k] == t.tasks[k] && Abandon(t, id, reason, now).0.tasks[k] == t.tasks[k]
  {
    var u := Sweep(t, agent, reason, now).0;
    assert forall k :: k in u.tasks ==> !Swept(u.tasks[k], agent);
    assert (set k | k in u.tasks && Swept(u.tasks[k], agent)) == {};
    assert Sweep(u, agent, again, later).0.tasks == u.tasks;
  }
}
