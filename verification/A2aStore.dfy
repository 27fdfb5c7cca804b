/** The database object itself: the A2A methods change its tables in place, statement by statement. */
module A2aStore {
  import opened Prelude
  import opened A2aTables

  /** The search from the newest message back. */
  method FindLastAgent(history: seq<Message>) returns (r: Option<Message>)
    ensures r == LastAgent(history)
  {
    var n := |history|;
    assert history[..n] == history;
    while n > 0
      invariant 0 <= n <= |history| && LastAgent(history) == LastAgent(history[..n])
    {
      assert history[..n][..n - 1] == history[..n - 1];
      if history[n - 1].speaker == Agent { return Some(history[n - 1]); }
      n := n - 1;
    }
    r := None;
  }

  class Store {
    var tasks: map<string, Row>
    var taskMap: map<string, MapRow>
    var sessions: map<string, string>
    var messages: seq<MessageRow>
    var artifacts: map<string, seq<Artifact>>

    constructor ()
      ensures View() == Empty()
    {
      tasks, taskMap, sessions, messages, artifacts := map[], map[], map[], [], map[];
    }

    ghost function View(): Tables
      reads this
    {
      Tables(tasks, taskMap, sessions, messages, artifacts)
    }

    /** `task` is the fresh identifier the caller drew; `fault` is where the database fails, if it does. */
    method CreateTask(id: string, agent: string, context: Option<string>, caller: Option<string>, task: string,
                      now: nat, fault: Fault)
      returns (session: Option<string>)
      modifies this
      ensures (View(), session) == Create(old(View()), id, agent, context, caller, task, now, fault)
    {
      var sid: string;
      if Adopts(sessions, caller, agent, fault) {
        sid := caller.value;
      } else {
        sid := Minted(id);
        if fault.AtSession? || sid in sessions { return None; }
        sessions := sessions[sid := agent];
      }
      if fault.AtTask? || task in tasks { return None; }
      tasks := tasks[task := FreshRow(agent, now)];
      if fault.AtMap? || id in taskMap { return None; }
      taskMap := taskMap[id := MapRow(task, sid, context)];
      session := Some(sid);
    }

    method UpdateTaskState(id: string, state: string, now: nat) returns (found: bool)
      modifies this`tasks
      ensures (View(), found) == Update(old(View()), id, state, now)
    {
      if id !in taskMap || taskMap[id].task !in tasks { return false; }
      var task := taskMap[id].task;
      var row, status := tasks[task], TaskStatusOf(state);
      row := row.(status := status, updatedAt := now, completedAt := if IsClosing(status) then Some(now) else None);
      if status == InProgress && row.firedAt.None? { row := row.(firedAt := Some(now)); }
      tasks := tasks[task := row];
      found := true;
    }

    method AbandonTaskIfLive(id: string, reason: string, now: nat) returns (changed: bool)
      modifies this`tasks
      ensures (View(), changed) == Abandon(old(View()), id, reason, now)
    {
      if id !in taskMap || taskMap[id].task !in tasks { return false; }
      var task := taskMap[id].task;
      if tasks[task].status != Pending && tasks[task].status != InProgress { return false; }
      tasks := tasks[task := Closed(tasks[task], Cancelled, reason, now)];
      changed := true;
    }

    method SweepOrphans(agent: string, reason: string, now: nat) returns (count: nat)
      modifies this`tasks
      ensures (View(), count) == Sweep(old(View()), agent, reason, now)
    {
      ghost var after := Sweep(View(), agent, reason, now).0.tasks;
      var hit := set k | k in tasks && Swept(tasks[k], agent);
      tasks := map k | k in tasks :: if k in hit then Closed(tasks[k], Failed, reason, now) else tasks[k];
      assert tasks == after;
      count := |hit|;
    }

    method InsertMessage(id: string, agent: string, message: Message) returns (found: bool)
      modifies this`messages
      ensures (View(), found) == Insert(old(View()), id, agent, message)
    {
      if id !in taskMap { return false; }
      messages := messages + [RowFor(id, taskMap[id].session, agent, message)];
      found := true;
    }

    method SaveMessage(row: MessageRow) returns (saved: bool)
      modifies this`messages
      ensures (View(), saved) == Save(old(View()), row)
    {
      if row.session !in sessions { return false; }
      messages := messages + [row];
      saved := true;
    }

    /** The row loop: rows of this task in insertion order, stopped by the limit. */
    method ReadMessages(id: string, limit: Option<int>) returns (found: seq<Message>)
      ensures found == GetMessages(View(), id, limit)
    {
      if id !in taskMap { return []; }
      var session := taskMap[id].session;
      var all: seq<Message> := [];
      for i := 0 to |messages|
        invariant all == Scoped(messages[..i], session, id)
      {
        assert messages[..i + 1][..i] == messages[..i];
        if InScope(messages[i], session, id) { all := all + [Recover(messages[i])]; }
      }
      assert messages[..|messages|] == messages;
      found := Limited(all, limit);
    }

    method Build(id: string, limit: Option<int>) returns (r: Result<Option<Task>, string>)
      ensures r == BuildTask(View(), id, limit)
    {
      if id !in taskMap || taskMap[id].task !in tasks { return Ok(None); }
      var row := tasks[taskMap[id].task];
      var history := ReadMessages(id, limit);
      var carried := if id in artifacts then artifacts[id] else [];
      if row.result.Some? && row.result.value.PlainText? { return Err("metadata is not JSON"); }
      var last := FindLastAgent(history);
      r := Ok(Some(Task(
        id, taskMap[id].context, A2aStateOf(row.status), last, row.updatedAt,
        if carried == [] then None else Some(carried), if history == [] then None else Some(history),
        if row.result.Some? then Some(row.result.value.reason) else None)));
    }

    method OpenSession(session: string, agent: string)
      modifies this`sessions
      ensures View() == Step(old(View()), Event.OpenSession(session, agent))
    {
      if session !in sessions { sessions := sessions[session := agent]; }
    }

    method PutArtifacts(id: string, found: seq<Artifact>)
      modifies this`artifacts
      ensures View() == Step(old(View()), Event.PutArtifacts(id, found))
    {
      if id in taskMap { artifacts := artifacts[id := found]; }
    }

    method Handle(e: Event)
      modifies this
      ensures View() == Step(old(View()), e)
    {
      match e
      case OpenSession(session, agent) => OpenSession(session, agent);
      case CreateTask(id, agent, context, caller, task, now, fault) =>
        var created := CreateTask(id, agent, context, caller, task, now, fault);
      case UpdateState(id, state, now) => var found := UpdateTaskState(id, state, now);
      case AbandonIfLive(id, reason, now) => var closed := AbandonTaskIfLive(id, reason, now);
      case SweepOrphans(agent, reason, now) => var count := SweepOrphans(agent, reason, now);
      case InsertMessage(id, agent, message) => var found := InsertMessage(id, agent, message);
      case SaveMessage(row) => var saved := SaveMessage(row);
      case PutArtifacts(id, found) => PutArtifacts(id, found);
    }

    /** Any sequence of calls on the store is a run of the tables. */
    method HandleAll(events: seq<Event>)
      modifies this
      ensures View() == Run(old(View()), events)
    {
      for i := 0 to |events|
        invariant View() == Run(old(View()), events[..i])
      {
        assert events[..i + 1][..i] == events[..i];
        Handle(events[i]);
      }
      assert events[..|events|] == events;
    }
  }
}
