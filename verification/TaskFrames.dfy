/**
 The task wrappers of the actor: guarded updates that broadcast a lifecycle frame after a commit, the
 manual status write, which broadcasts a cancellation, and `update_task_status`, which reads first and
 writes in a second closure. Any statement may fail, and what ran before it stays written.
 */
module TaskFrames {
  import opened Prelude
  import opened Actor
  import opened ActorGuarantees

  datatype Status =
    Pending | InProgress | Completed | Failed | Cancelled | Expired | RecurringActive | Delivered | Blocked

  datatype Trigger = ManualTrigger | CallbackTrigger | OtherTrigger

  datatype Row = Row(agent: string, status: Status, parent: Option<string>, trigger: Trigger)

  type Tasks = map<string, Row>

  datatype Kind = Claimed | CompletedFrame | FailedFrame | CancelledFrame | DeliveredFrame

  datatype TaskFrame = TaskFrame(kind: Kind, id: string)

  /** The writers that own a frame. Only `Deliver` is not scoped by agent; only `SetManual` is not guarded by status. */
  datatype Write =
    | Claim(id: string, agent: string) | Complete(id: string, agent: string) | Fail(id: string, agent: string)
    | Promote(id: string, agent: string) | Cancel(id: string, agent: string) | Deliver(id: string)
    | SetManual(id: string, agent: string, status: Status)

  /** Where the database fails a write: at its first statement, or at the cascade that follows a cancel. */
  datatype Fault = NoFault | FirstFails | CascadeFails(panics: bool)

  datatype Reply = Flag(moved: bool) | Error | Found(status: Option<Status>) | Unit

  // ---------------------------------------------------------------- the writes

  predicate Guard(w: Write, row: Row)
  {
    match w
    case Claim(_, agent) => row.agent == agent && row.status in {Pending, RecurringActive}
    case Complete(_, agent) => row.agent == agent && row.status in {Pending, InProgress}
    case Fail(_, agent) => row.agent == agent && row.status !in {Completed, Failed, Cancelled, Expired, Delivered}
    case Promote(_, agent) => row.agent == agent && row.status == Failed
    case Cancel(_, agent) => row.agent == agent && row.status !in {Completed, Failed, Cancelled, Expired, Delivered}
    case Deliver(_) => row.status in {Completed, Failed}
    case SetManual(_, agent, _) => row.agent == agent && row.trigger == ManualTrigger
  }

  function Target(w: Write): Status
  {
    match w
    case Claim(_, _) => InProgress
    case Complete(_, _) => Completed
    case Fail(_, _) => Failed
    case Promote(_, _) => Completed
    case Cancel(_, _) => Cancelled
    case Deliver(_) => Delivered
    case SetManual(_, _, status) => status
  }

  function FrameFor(w: Write): TaskFrame
  {
    match w
    case Claim(id, _) => TaskFrame(Claimed, id)
    case Complete(id, _) => TaskFrame(CompletedFrame, id)
    case Fail(id, _) => TaskFrame(FailedFrame, id)
    case Promote(id, _) => TaskFrame(CompletedFrame, id)
    case Cancel(id, _) => TaskFrame(CancelledFrame, id)
    case Deliver(id) => TaskFrame(DeliveredFrame, id)
    case SetManual(id, _, _) => TaskFrame(CancelledFrame, id)
  }

  /** A manual write announces a cancellation and nothing else. */
  predicate Speaks(w: Write)
  {
    w.SetManual? ==> w.status == Cancelled
  }

  /** A cancelled task takes its live callback children of the same agent with it. */
  predicate Cascades(w: Write, id: string, row: Row)
  {
    w.Cancel? && id != w.id && row.parent == Some(w.id) && row.agent == w.agent && row.trigger == CallbackTrigger
    && row.status in {Pending, InProgress}
  }

  /** The row is there for this write to answer about. */
  predicate Answers(w: Write, tasks: Tasks)
  {
    w.id in tasks && Guard(w, tasks[w.id])
  }

  predicate Moves(w: Write, tasks: Tasks)
  {
    Answers(w, tasks) && tasks[w.id].status != Target(w)
  }

  /** The cancel is committed and the cascade after it fails. */
  predicate Broken(w: Write, fault: Fault, tasks: Tasks)
  {
    w.Cancel? && fault.CascadeFails? && Moves(w, tasks)
  }

  function Commit(w: Write, fault: Fault, tasks: Tasks): Tasks
  {
    if fault.FirstFails? || !Moves(w, tasks) then tasks
    else (map id | id in tasks ::
            if id == w.id then tasks[id].(status := Target(w))
            else if Cascades(w, id, tasks[id]) && !fault.CascadeFails? then tasks[id].(status := Cancelled)
            else tasks[id])
  }

  function Perform(w: Write, fault: Fault, tasks: Tasks): Outcome<Tasks, Reply>
  {
    var after := Commit(w, fault, tasks);
    if fault.FirstFails? then Returned(after, Error)
    else if Broken(w, fault, tasks) then (if fault.panics then Panicked(after) else Returned(after, Error))
    else Returned(after, Flag(Answers(w, tasks)))
  }

  /** The closure and the broadcast of one wrapper. */
  ghost function AsOp(w: Write, fault: Fault): Op<Tasks, Reply, TaskFrame>
  {
    Op((tasks: Tasks) => Perform(w, fault, tasks),
       (reply: Reply) => if reply == Flag(true) && Speaks(w) then Some(FrameFor(w)) else None)
  }

  ghost function Changed(before: Tasks, after: Tasks): set<string>
  {
    set id | id in before && (id !in after || after[id].status != before[id].status)
  }

  /** The children a cancel takes along. */
  ghost function Taken(w: Write, tasks: Tasks): set<string>
  {
    set id | id in tasks && Cascades(w, id, tasks[id])
  }

  /** Does the wrapper go on to broadcast? */
  ghost predicate Sends(w: Write, fault: Fault, tasks: Tasks)
  {
    Speaks(w) && Actor.Reply(Perform(w, fault, tasks)) == Some(Flag(true))
  }

  ghost function ChangedBy(w: Write, fault: Fault, tasks: Tasks): set<string>
  {
    Changed(tasks, Commit(w, fault, tasks))
  }

  /**
   What one write changes: nothing, the named row, or that row and, for a cancel whose cascade works, its
   live callback children. A guarded write broadcasts exactly when it changed a status and its cascade did
   not fail; so there are as many frames as changed rows exactly when neither happened: a cascade that
   failed after the cancel was committed, or one that took children along.
   */
  lemma FrameStandsForRows(w: Write, fault: Fault, tasks: Tasks)
    requires !w.SetManual?
    ensures ChangedBy(w, fault, tasks) ==
      if fault.FirstFails? || !Moves(w, tasks) then {} else {w.id} + (if fault.CascadeFails? then {}
        else Taken(w, tasks))
    ensures Sends(w, fault, tasks) <==> ChangedBy(w, fault, tasks) != {} && !Broken(w, fault, tasks)
    ensures (|ChangedBy(w, fault, tasks)| == if Sends(w, fault, tasks) then 1 else 0)
      <==> !Broken(w, fault, tasks) && !(fault.NoFault? && Moves(w, tasks) && Taken(w, tasks) != {})
    ensures Commit(w, fault, tasks).Keys == tasks.Keys
  {
    RowsOfWrite(w, fault, tasks);
    SendsExactly(w, fault, tasks);
    assert w.id !in Taken(w, tasks);
    if !w.Cancel? { assert Taken(w, tasks) == {}; }
  }

  lemma SendsExactly(w: Write, fault: Fault, tasks: Tasks)
    requires !w.SetManual?
    ensures Sends(w, fault, tasks) <==> !fault.FirstFails? && Moves(w, tasks) && !Broken(w, fault, tasks)
  {
    GuardMoves(w, tasks);
  }

  lemma RowsOfWrite(w: Write, fault: Fault, tasks: Tasks)
    ensures ChangedBy(w, fault, tasks) ==
      if fault.FirstFails? || !Moves(w, tasks) then {} else {w.id} + (if fault.CascadeFails? then {}
        else Taken(w, tasks))
  {
    if !fault.FirstFails? && Moves(w, tasks) {
      var after := Commit(w, fault, tasks);
      forall id | id in tasks
        ensures after[id].status != tasks[id].status
          <==> id == w.id || (Cascades(w, id, tasks[id]) && !fault.CascadeFails?)
      {
      }
      assert ChangedBy(w, fault, tasks) == {w.id} + (if fault.CascadeFails? then {} else Taken(w, tasks));
    }
  }

  // ---------------------------------------------------------------- each write by itself

  /** Nothing changes and nothing is sent. */
  ghost predicate Declines(w: Write, tasks: Tasks)
  {
    Perform(w, NoFault, tasks) == Returned(tasks, Flag(false)) && AsOp(w, NoFault).frame(Flag(false)).None?
  }

  /** The one row of `id` ends in this status, and this frame is sent. */
  ghost predicate Writes(w: Write, tasks: Tasks, id: string, status: Status, kind: Kind)
  {
    && id in tasks
    && Perform(w, NoFault, tasks) == Returned(tasks[id := tasks[id].(status := status)], Flag(true))
    && AsOp(w, NoFault).frame(Flag(true)) == Some(TaskFrame(kind, id))
  }

  /**
   What a failing statement leaves: nothing when it is the first; the cancelled parent alone when it is the
   cascade. The caller hears an error, or that the closure panicked, and nothing is sent.
   */
  lemma FaultsExactly(w: Write, fault: Fault, tasks: Tasks)
    ensures fault.FirstFails? ==> Perform(w, fault, tasks) == Returned(tasks, Error)
    ensures fault.CascadeFails? && w.Cancel? && Moves(w, tasks) ==>
      var left := tasks[w.id := tasks[w.id].(status := Cancelled)];
      Perform(w, fault, tasks) == if fault.panics then Panicked(left) else Returned(left, Error)
    ensures AsOp(w, fault).frame(Error).None?
  {
    if fault.CascadeFails? && w.Cancel? && Moves(w, tasks) {
      assert Commit(w, fault, tasks) == tasks[w.id := tasks[w.id].(status := Cancelled)];
    }
  }

  lemma OneRow(w: Write, tasks: Tasks)
    requires Moves(w, tasks) && !w.Cancel?
    ensures Commit(w, NoFault, tasks) == tasks[w.id := tasks[w.id].(status := Target(w))]
  {
  }

  lemma ClaimExactly(id: string, agent: string, tasks: Tasks)
    ensures if id in tasks && tasks[id].agent == agent && tasks[id].status in {Pending, RecurringActive}
      then Writes(Claim(id, agent), tasks, id, InProgress, Claimed) else Declines(Claim(id, agent), tasks)
  {
    if Moves(Claim(id, agent), tasks) { OneRow(Claim(id, agent), tasks); }
  }

  lemma CompleteExactly(id: string, agent: string, tasks: Tasks)
    ensures if id in tasks && tasks[id].agent == agent && tasks[id].status in {Pending, InProgress}
      then Writes(Complete(id, agent), tasks, id, Completed, CompletedFrame) else Declines(Complete(id, agent), tasks)
  {
    if Moves(Complete(id, agent), tasks) { OneRow(Complete(id, agent), tasks); }
  }

  lemma FailExactly(id: string, agent: string, tasks: Tasks)
    ensures if id in tasks && tasks[id].agent == agent
              && tasks[id].status in {Pending, InProgress, RecurringActive, Blocked}
      then Writes(Fail(id, agent), tasks, id, Failed, FailedFrame) else Declines(Fail(id, agent), tasks)
  {
    if Moves(Fail(id, agent), tasks) { OneRow(Fail(id, agent), tasks); }
  }

  lemma PromoteExactly(id: string, agent: string, tasks: Tasks)
    ensures if id in tasks && tasks[id].agent == agent && tasks[id].status == Failed
      then Writes(Promote(id, agent), tasks, id, Completed, CompletedFrame) else Declines(Promote(id, agent), tasks)
  {
    if Moves(Promote(id, agent), tasks) { OneRow(Promote(id, agent), tasks); }
  }

  /** Whoever's task it is, and from a failure too. */
  lemma DeliverExactly(id: string, tasks: Tasks)
    ensures if id in tasks && tasks[id].status in {Completed, Failed}
      then Writes(Deliver(id), tasks, id, Delivered, DeliveredFrame) else Declines(Deliver(id), tasks)
  {
    if Moves(Deliver(id), tasks) { OneRow(Deliver(id), tasks); }
  }

  /** Row `k` after the task `id` of `agent` was cancelled: itself and its live callback children are cancelled. */
  function CancelledRow(tasks: Tasks, id: string, agent: string, k: string): Row
    requires k in tasks
  {
    var row := tasks[k];
    var child := row.parent == Some(id) && row.agent == agent && row.trigger == CallbackTrigger
      && (row.status == Pending || row.status == InProgress);
    if k == id || child then row.(status := Cancelled) else row
  }

  lemma CancelExactly(id: string, agent: string, tasks: Tasks)
    ensures if id in tasks && tasks[id].agent == agent
              && tasks[id].status in {Pending, InProgress, RecurringActive, Blocked}
      then Perform(Cancel(id, agent), NoFault, tasks)
             == Returned(map k | k in tasks :: CancelledRow(tasks, id, agent, k), Flag(true))
           && AsOp(Cancel(id, agent), NoFault).frame(Flag(true)) == Some(TaskFrame(CancelledFrame, id))
      else Declines(Cancel(id, agent), tasks)
  {
    var w := Cancel(id, agent);
    if Moves(w, tasks) {
      var after := map k | k in tasks :: CancelledRow(tasks, id, agent, k);
      forall k | k in tasks ensures Commit(w, NoFault, tasks)[k] == after[k] { }
      assert Commit(w, NoFault, tasks) == after;
    }
  }

  /** Only the agent's own manual row, to any status; announced if that is cancelled. */
  lemma ManualExactly(id: string, agent: string, status: Status, tasks: Tasks)
    ensures var w := SetManual(id, agent, status);
      if id in tasks && tasks[id].agent == agent && tasks[id].trigger == ManualTrigger
      then Perform(w, NoFault, tasks) == Returned(tasks[id := tasks[id].(status := status)], Flag(true))
           && AsOp(w, NoFault).frame(Flag(true))
              == (if status == Cancelled then Some(TaskFrame(CancelledFrame, id)) else None)
      else Declines(w, tasks)
  {
    var w := SetManual(id, agent, status);
    if Moves(w, tasks) {
      OneRow(w, tasks);
    } else if Answers(w, tasks) {
      assert tasks[id := tasks[id].(status := status)] == tasks;
    }
  }

  /** A guarded write never finds its row where it wants to take it. */
  lemma GuardMoves(w: Write, tasks: Tasks)
    requires !w.SetManual?
    ensures Answers(w, tasks) <==> Moves(w, tasks)
  {
  }

  const PARENT: Row := Row("mika", InProgress, None, OtherTrigger)
  const CHILD: Row := Row("mika", Pending, Some("p"), CallbackTrigger)

  /** A cancel that closes a second row: the parent's frame is the only one sent. */
  lemma CascadeWithoutFrame()
    ensures var tasks := map["p" := PARENT, "c" := CHILD];
      ChangedBy(Cancel("p", "mika"), NoFault, tasks) == {"p", "c"} && Sends(Cancel("p", "mika"), NoFault, tasks)
  {
    var tasks, w := map["p" := PARENT, "c" := CHILD], Cancel("p", "mika");
    RowsOfWrite(w, NoFault, tasks);
    SendsExactly(w, NoFault, tasks);
    assert Moves(w, tasks) && Taken(w, tasks) == {"c"};
  }

  /** A cancel whose cascade fails: the parent is cancelled, the child is not, and no frame is sent. */
  lemma CancelWithoutFrame(panics: bool)
    ensures var tasks := map["p" := PARENT, "c" := CHILD];
      ChangedBy(Cancel("p", "mika"), CascadeFails(panics), tasks) == {"p"}
        && !Sends(Cancel("p", "mika"), CascadeFails(panics), tasks)
  {
    var tasks, w := map["p" := PARENT, "c" := CHILD], Cancel("p", "mika");
    RowsOfWrite(w, CascadeFails(panics), tasks);
    SendsExactly(w, CascadeFails(panics), tasks);
    assert Moves(w, tasks);
  }

  /**
   The manual write answers the prior status also when nothing changes, and a cancellation is announced
   on any answer: the frame stands for a transition exactly when the row was not cancelled already.
   */
  lemma ManualFrameExactly(id: string, agent: string, status: Status, tasks: Tasks)
    requires Answers(SetManual(id, agent, status), tasks)
    ensures Sends(SetManual(id, agent, status), NoFault, tasks) <==> status == Cancelled
    ensures ChangedBy(SetManual(id, agent, status), NoFault, tasks) == if tasks[id].status == status then {} else {id}
  {
    var w := SetManual(id, agent, status);
    RowsOfWrite(w, NoFault, tasks);
    assert Taken(w, tasks) == {};
  }

  lemma ManualFrameWithoutChange()
    ensures var tasks := map["m" := Row("mika", Cancelled, None, ManualTrigger)];
      var w := SetManual("m", "mika", Cancelled);
      Sends(w, NoFault, tasks) && ChangedBy(w, NoFault, tasks) == {}
  {
    ManualFrameExactly("m", "mika", Cancelled, map["m" := Row("mika", Cancelled, None, ManualTrigger)]);
  }

  // ---------------------------------------------------------------- when a frame is sent twice

  /** How far along its life a task is. No guarded write moves a row down or leaves a moved row level. */
  function Rank(s: Status): nat
  {
    match s
    case Pending => 0
    case RecurringActive => 0
    case InProgress => 1
    case Blocked => 1
    case Failed => 2
    case Completed => 3
    case Cancelled => 3
    case Delivered => 4
    case Expired => 4
  }

  /** The rank a frame announces. */
  function Announces(k: Kind): nat
  {
    match k
    case Claimed => 1
    case FailedFrame => 2
    case CompletedFrame => 3
    case CancelledFrame => 3
    case DeliveredFrame => 4
  }

  predicate Reached(tasks: Tasks, id: string, level: nat)
  {
    id in tasks && level <= Rank(tasks[id].status)
  }

  /** Whatever fails, a guarded write takes its own row strictly up to what it announces and lets no row sink. */
  lemma RankRises(w: Write, fault: Fault, tasks: Tasks, id: string, level: nat)
    requires !w.SetManual?
    ensures Reached(tasks, id, level) ==> Reached(Commit(w, fault, tasks), id, level)
    ensures Sends(w, fault, tasks) ==>
      !Reached(tasks, w.id, Announces(FrameFor(w).kind))
        && Reached(Commit(w, fault, tasks), w.id, Announces(FrameFor(w).kind))
  {
  }

  type TaskJob = Job<Tasks, Reply, TaskFrame>

  /** The tasks just before the `k`-th closure runs. */
  ghost function At(init: Tasks, jobs: seq<TaskJob>, k: nat): Tasks
    requires k <= |jobs|
  {
    StateAfter(init, jobs[..k])
  }

  /** The frame the `k`-th closure commits, if its wrapper has one to send. */
  ghost function FrameAt(init: Tasks, jobs: seq<TaskJob>, k: nat): Option<TaskFrame>
    requires k < |jobs|
  {
    var got := ReplyOf(init, jobs, k);
    if got.Some? then jobs[k].op.frame(got.value) else None
  }

  ghost predicate IsGuarded(op: Op<Tasks, Reply, TaskFrame>)
  {
    exists w, fault :: op == AsOp(w, fault) && !w.SetManual?
  }

  /** Closure `k` takes row `id` from `level` or above to below it, or deletes it. */
  ghost predicate PutsBack(init: Tasks, jobs: seq<TaskJob>, k: nat, id: string, level: nat)
    requires k < |jobs|
  {
    Reached(At(init, jobs, k), id, level) && !Reached(At(init, jobs, k + 1), id, level)
  }

  lemma SlotOfWrite(init: Tasks, jobs: seq<TaskJob>, k: nat, w: Write, fault: Fault)
    requires k < |jobs| && jobs[k].op == AsOp(w, fault)
    ensures At(init, jobs, k + 1) == Commit(w, fault, At(init, jobs, k))
    ensures FrameAt(init, jobs, k) == if Sends(w, fault, At(init, jobs, k)) then Some(FrameFor(w)) else None
  {
    assert jobs[..k + 1] == jobs[..k] + [jobs[k]];
    StateAfterPush(init, jobs[..k], jobs[k]);
  }

  lemma GuardedNeverPutsBack(init: Tasks, jobs: seq<TaskJob>, k: nat, id: string, level: nat)
    requires k < |jobs| && IsGuarded(jobs[k].op)
    ensures !PutsBack(init, jobs, k, id, level)
  {
    var w, fault :| jobs[k].op == AsOp(w, fault) && !w.SetManual?;
    SlotOfWrite(init, jobs, k, w, fault);
    RankRises(w, fault, At(init, jobs, k), id, level);
  }

  /** A guarded closure sends a frame only where its row is below what the frame announces, and takes it there. */
  lemma FrameAtRank(init: Tasks, jobs: seq<TaskJob>, k: nat)
    requires k < |jobs| && IsGuarded(jobs[k].op) && FrameAt(init, jobs, k).Some?
    ensures var f := FrameAt(init, jobs, k).value;
      !Reached(At(init, jobs, k), f.id, Announces(f.kind)) && Reached(At(init, jobs, k + 1), f.id, Announces(f.kind))
  {
    var w, fault :| jobs[k].op == AsOp(w, fault) && !w.SetManual?;
    SlotOfWrite(init, jobs, k, w, fault);
    RankRises(w, fault, At(init, jobs, k), w.id, 0);
  }

  lemma {:induction false} SomethingPutsBack(init: Tasks, jobs: seq<TaskJob>, i: nat, j: nat, id: string, level: nat)
    returns (k: nat)
    requires i <= j <= |jobs| && Reached(At(init, jobs, i), id, level) && !Reached(At(init, jobs, j), id, level)
    ensures i <= k < j && PutsBack(init, jobs, k, id, level)
    decreases j - i
  {
    if Reached(At(init, jobs, i + 1), id, level) {
      k := SomethingPutsBack(init, jobs, i + 1, j, id, level);
    } else {
      k := i;
    }
  }

  /**
   Whatever other closures run, two guarded wrappers commit the same frame only if some closure between
   them, and not a guarded one, put the row back below what the frame announces.
   */
  lemma NoSecondCommit(init: Tasks, jobs: seq<TaskJob>, i: nat, j: nat) returns (k: nat)
    requires i < j < |jobs| && IsGuarded(jobs[i].op) && IsGuarded(jobs[j].op)
    requires FrameAt(init, jobs, i).Some? && FrameAt(init, jobs, j) == FrameAt(init, jobs, i)
    ensures i < k < j && !IsGuarded(jobs[k].op)
    ensures var f := FrameAt(init, jobs, i).value; PutsBack(init, jobs, k, f.id, Announces(f.kind))
  {
    var f := FrameAt(init, jobs, i).value;
    FrameAtRank(init, jobs, i);
    FrameAtRank(init, jobs, j);
    k := SomethingPutsBack(init, jobs, i + 1, j, f.id, Announces(f.kind));
    if IsGuarded(jobs[k].op) {
      GuardedNeverPutsBack(init, jobs, k, f.id, Announces(f.kind));
      assert false;
    }
  }

  /**
   Exactly when a guarded write that has sent its frame sends it again: when its guard accepts the row
   once more. Then the row has been put back; and once it has been put back to a row the guard accepts,
   and is left alone until the write runs, the frame goes out again.
   */
  lemma SecondFrameExactly(init: Tasks, jobs: seq<TaskJob>, i: nat, j: nat, w: Write)
    requires i < j < |jobs| && !w.SetManual? && IsGuarded(jobs[i].op) && jobs[j].op == AsOp(w, NoFault)
    requires FrameAt(init, jobs, i) == Some(FrameFor(w))
    ensures FrameAt(init, jobs, j) == FrameAt(init, jobs, i) <==> Answers(w, At(init, jobs, j))
    ensures FrameAt(init, jobs, j) == FrameAt(init, jobs, i) ==>
      exists k :: i < k < j && PutsBack(init, jobs, k, w.id, Announces(FrameFor(w).kind))
    ensures (exists k: nat :: i < k < j && Answers(w, At(init, jobs, k + 1)) && Untouched(init, jobs, k, j, w.id)) ==>
      FrameAt(init, jobs, j) == FrameAt(init, jobs, i)
  {
    SlotOfWrite(init, jobs, j, w, NoFault);
    GuardMoves(w, At(init, jobs, j));
    if FrameAt(init, jobs, j) == FrameAt(init, jobs, i) {
      var k := NoSecondCommit(init, jobs, i, j);
    }
    if k: nat :| i < k < j && Answers(w, At(init, jobs, k + 1)) && Untouched(init, jobs, k, j, w.id) {
      UntouchedKeepsRow(init, jobs, k, j, w.id);
    }
  }

  /** The normal life of a recurring task: claimed, put back by its rescheduling, claimed again. */
  lemma RecurringClaimsTwice(a: nat, b: nat, c: nat)
    ensures var jobs := [Job(a, AsOp(Claim("t", "mika"), NoFault)), Job(b, PutOp("t", RecurringActive)), Job(c,
      AsOp(Claim("t", "mika"), NoFault))];
      var init := map["t" := Row("mika", RecurringActive, None, OtherTrigger)];
      FrameAt(init, jobs, 0) == Some(TaskFrame(Claimed, "t")) && FrameAt(init, jobs, 2) == FrameAt(init, jobs, 0)
  {
    var claim := Claim("t", "mika");
    var jobs := [Job(a, AsOp(claim, NoFault)), Job(b, PutOp("t", RecurringActive)), Job(c, AsOp(claim, NoFault))];
    var init := map["t" := Row("mika", RecurringActive, None, OtherTrigger)];
    assert jobs[..0] == [] && jobs[..1] == [] + [jobs[0]] && jobs[..2] == jobs[..1] + [jobs[1]];
    SlotOfWrite(init, jobs, 0, claim, NoFault);
    StateAfterPush(init, jobs[..1], jobs[1]);
    SlotOfWrite(init, jobs, 2, claim, NoFault);
  }

  ghost predicate SentByGuarded(s: State<Tasks, Reply, TaskFrame>, i: nat)
    requires i < |s.air.frames|
  {
    s.air.frames[i].call in s.calls && IsGuarded(s.calls[s.air.frames[i].call].op)
  }

  lemma FrameSlot(s: State<Tasks, Reply, TaskFrame>, i: nat) returns (k: nat)
    requires Inv(s) && i < |s.air.frames|
    ensures k < |s.pipe.executed| && s.pipe.executed[k].call == s.air.frames[i].call
    ensures FrameAt(s.pipe.init, s.pipe.executed, k) == Some(s.air.frames[i].body)
    ensures SentByGuarded(s, i) ==> IsGuarded(s.pipe.executed[k].op)
  {
    var c := s.air.frames[i].call;
    assert Finished(s.calls, c);
    DoneIsLinearised(s, c);
    k := s.calls[c].slot.value;
  }

  /** A closure that ran between those of calls `a` and `b` put row `id` back below `level`. */
  ghost predicate PutBackBetween(p: Pipe<Tasks, Reply, TaskFrame>, a: nat, b: nat, id: string, level: nat)
  {
    exists i, j, k ::
      && 0 <= i < k < j < |p.executed| && {p.executed[i].call, p.executed[j].call} == {a, b}
      && !IsGuarded(p.executed[k].op) && PutsBack(p.init, p.executed, k, id, level)
  }

  /**
   Over every interleaving of any closures, panics, dropped callers and shutdowns: two frames of guarded
   wrappers on the channel announce the same transition of the same task only if a closure that ran
   between theirs put the task back below it.
   */
  lemma NoDuplicateFrames(run: seq<State<Tasks, Reply, TaskFrame>>, steps: seq<Step<Tasks, Reply, TaskFrame>>,
                          n: nat, i: nat, j: nat)
    requires IsRun(run, steps) && n < |run| && i < j < |run[n].air.frames|
    requires SentByGuarded(run[n], i) && SentByGuarded(run[n], j)
    ensures var frames := run[n].air.frames; frames[i].body == frames[j].body ==>
      PutBackBetween(run[n].pipe, frames[i].call, frames[j].call, frames[i].body.id, Announces(frames[i].body.kind))
  {
    var s := run[n];
    InvHolds(run, steps, n);
    var a := FrameSlot(s, i);
    var b := FrameSlot(s, j);
    if s.air.frames[i].body == s.air.frames[j].body {
      if a < b {
        var k := NoSecondCommit(s.pipe.init, s.pipe.executed, a, b);
      } else {
        var k := NoSecondCommit(s.pipe.init, s.pipe.executed, b, a);
      }
    }
  }

  // ---------------------------------------------------------------- transitions, announced or not

  ghost predicate HasRun(s: State<Tasks, Reply, TaskFrame>, c: nat)
  {
    c in s.calls && s.calls[c].slot.Some? && s.calls[c].slot.value < |s.pipe.executed|
  }

  /** Call `c` is this write; its closure has run and changed the status of its row. */
  ghost predicate Transits(s: State<Tasks, Reply, TaskFrame>, c: nat, w: Write, fault: Fault)
  {
    HasRun(s, c) && s.calls[c].op == AsOp(w, fault) &&
    w.id in ChangedBy(w, fault, At(s.pipe.init, s.pipe.executed, s.calls[c].slot.value))
  }

  /** A cancel that was committed before its cascade failed. */
  ghost predicate Unannounced(s: State<Tasks, Reply, TaskFrame>, c: nat, w: Write, fault: Fault)
  {
    HasRun(s, c) && s.calls[c].op == AsOp(w, fault)
      && Broken(w, fault, At(s.pipe.init, s.pipe.executed, s.calls[c].slot.value))
  }

  /**
   Conservation of changed rows, in every reachable state and whatever else runs: a guarded call has
   changed the status of its row exactly when its frame is on the channel, went into a missing channel, is
   owed, or was lost with its caller, or when it is a cancel whose cascade failed; and never both.
   */
  lemma TransitionsConserved(run: seq<State<Tasks, Reply, TaskFrame>>, steps: seq<Step<Tasks, Reply, TaskFrame>>,
                             n: nat, c: nat, w: Write, fault: Fault)
    requires IsRun(run, steps) && n < |run| && !w.SetManual? && c in run[n].calls
      && run[n].calls[c].op == AsOp(w, fault)
    ensures var s := run[n]; var told := Emitters(s.air.frames) + s.air.muted + Owing(s) + Lost(s);
      && (Transits(s, c, w, fault) <==> c in told || Unannounced(s, c, w, fault))
      && !(c in told && Unannounced(s, c, w, fault))
  {
    var s := run[n];
    InvHolds(run, steps, n);
    FramesConserved(run, steps, n);
    assert CallOk(s.pipe, c, s.calls[c]);
    if HasRun(s, c) {
      var k := s.calls[c].slot.value;
      assert s.pipe.executed[k] == s.pipe.accepted[k] == Job(c, AsOp(w, fault));
      SlotOfWrite(s.pipe.init, s.pipe.executed, k, w, fault);
      RowsOfWrite(w, fault, At(s.pipe.init, s.pipe.executed, k));
      SendsExactly(w, fault, At(s.pipe.init, s.pipe.executed, k));
      assert Commits(s, c) <==> FrameAt(s.pipe.init, s.pipe.executed, k).Some?;
    }
    assert c in Committed(s) <==> Commits(s, c);
  }

  // ---------------------------------------------------------------- update_task_status

  /** The pre-fetch: it answers the row's status, or nothing for a missing row. */
  ghost function ReadOp(id: string): Op<Tasks, Reply, TaskFrame>
  {
    Op((tasks: Tasks) => Returned(tasks, Found(if id in tasks then Some(tasks[id].status)
      else None)), (reply: Reply) => None)
  }

  /** The unguarded UPDATE that answers the same whether or not a row moved. */
  ghost function PutOp(id: string, status: Status): Op<Tasks, Reply, TaskFrame>
  {
    Op((tasks: Tasks) => Returned(if id in tasks then tasks[id := tasks[id].(status := status)]
      else tasks, Unit), (reply: Reply) => None)
  }

  ghost predicate Live(tasks: Tasks, id: string)
  {
    id in tasks && tasks[id].status != Cancelled
  }

  /** What the wrapper decides to broadcast from its pre-fetch; a failed read counts as cancelled. */
  ghost predicate WouldEmit(got: Option<Reply>)
  {
    got.Some? && got.value.Found? && got.value.status.Some? && got.value.status.value != Cancelled
  }

  ghost predicate SameRow(a: Tasks, b: Tasks, id: string)
  {
    (id in a <==> id in b) && (id in a ==> a[id] == b[id])
  }

  /** No closure run strictly between the two slots touches row `id`. */
  ghost predicate Untouched(init: Tasks, jobs: seq<TaskJob>, i: nat, j: nat, id: string)
    requires i <= j <= |jobs|
  {
    forall k :: i < k < j ==> SameRow(StateAfter(init, jobs[..k]), StateAfter(init, jobs[..k + 1]), id)
  }

  lemma {:induction false} UntouchedKeepsRow(init: Tasks, jobs: seq<TaskJob>, i: nat, j: nat, id: string)
    requires i < j <= |jobs| && Untouched(init, jobs, i, j, id)
    ensures SameRow(StateAfter(init, jobs[..i + 1]), StateAfter(init, jobs[..j]), id)
    decreases j
  {
    if i + 1 < j {
      UntouchedKeepsRow(init, jobs, i, j - 1, id);
    }
  }

  /**
   `update_task_status(id, cancelled)` as two calls of one caller: the write begins only after the read
   has returned. It broadcasts a frame for a real transition, and only then, exactly when the row it
   read is still as live when the write runs; that is so in every run where no other writer touches the
   row between the two closures.
   */
  lemma ReadThenWriteIsExact(run: seq<State<Tasks, Reply, TaskFrame>>, steps: seq<Step<Tasks, Reply, TaskFrame>>,
                             m: nat, n: nat, read: nat, write: nat, id: string)
    requires IsRun(run, steps) && m <= n < |run|
    requires read in run[m].calls && run[m].calls[read].phase.Done? && run[m].calls[read].op == ReadOp(id)
    requires write !in run[m].calls && write in run[n].calls && run[n].calls[write].phase.Done?
    requires run[n].calls[write].op == PutOp(id, Cancelled)
    ensures read in run[n].calls && run[n].calls[read].phase.Done?
    ensures run[n].calls[read].slot.Some? && run[n].calls[write].slot.Some?
    ensures var jobs := run[n].pipe.executed; var init := run[n].pipe.init;
      var i := run[n].calls[read].slot.value; var j := run[n].calls[write].slot.value;
      && i < j < |jobs|
      && (WouldEmit(run[n].calls[read].phase.got) <==> Live(StateAfter(init, jobs[..i + 1]), id))
      && (id in Changed(StateAfter(init, jobs[..j]), StateAfter(init, jobs[..j + 1]))
        <==> Live(StateAfter(init, jobs[..j]), id))
      && ((WouldEmit(run[n].calls[read].phase.got) <==>
             id in Changed(StateAfter(init, jobs[..j]), StateAfter(init, jobs[..j + 1])))
          <==> (Live(StateAfter(init, jobs[..i + 1]), id) <==> Live(StateAfter(init, jobs[..j]), id)))
      && (Untouched(init, jobs, i, j, id) ==>
            (WouldEmit(run[n].calls[read].phase.got) <==>
             id in Changed(StateAfter(init, jobs[..j]), StateAfter(init, jobs[..j + 1]))))
  {
    CallerOrder(run, steps, m, n, read, write);
    PrefetchIsExact(run[n].pipe.init, run[n].pipe.executed, run[n].calls[read].slot.value,
      run[n].calls[write].slot.value, id);
  }

  lemma PrefetchIsExact(init: Tasks, jobs: seq<TaskJob>, i: nat, j: nat, id: string)
    requires i < j < |jobs| && jobs[i].op == ReadOp(id) && jobs[j].op == PutOp(id, Cancelled)
    ensures WouldEmit(ReplyOf(init, jobs, i)) <==> Live(At(init, jobs, i + 1), id)
    ensures id in Changed(At(init, jobs, j), At(init, jobs, j + 1)) <==> Live(At(init, jobs, j), id)
    ensures Untouched(init, jobs, i, j, id) ==> (Live(At(init, jobs, i + 1), id) <==> Live(At(init, jobs, j), id))
  {
    ReadSeesRow(init, jobs, i, id);
    WriteMovesLiveRow(init, jobs, j, id);
    if Untouched(init, jobs, i, j, id) { UntouchedKeepsRow(init, jobs, i, j, id); }
  }

  /** Two calls of one caller, the second begun after the first returned, run in that order. */
  lemma CallerOrder(run: seq<State<Tasks, Reply, TaskFrame>>, steps: seq<Step<Tasks, Reply, TaskFrame>>,
                    m: nat, n: nat, a: nat, b: nat)
    requires IsRun(run, steps) && m <= n < |run|
    requires a in run[m].calls && run[m].calls[a].phase.Done?
    requires b !in run[m].calls && b in run[n].calls && run[n].calls[b].phase.Done?
    ensures a in run[n].calls && run[n].calls[a].phase.Done? && run[n].calls[a].op == run[m].calls[a].op
    ensures Linearised(run[n].pipe.init, run[n].pipe.executed, a, run[n].calls[a])
    ensures Linearised(run[n].pipe.init, run[n].pipe.executed, b, run[n].calls[b])
    ensures run[n].calls[a].slot.value < run[n].calls[b].slot.value
  {
    InvHolds(run, steps, m);
    InvHolds(run, steps, n);
    RunExtends(run, steps, m, n);
    assert KeepsCall(run[m].calls[a], run[n].calls[a]);
    DoneIsLinearised(run[n], a);
    DoneIsLinearised(run[n], b);
    ReturnedBeforeBegun(run[m], run[n], a, b);
  }

  lemma ReadSeesRow(init: Tasks, jobs: seq<TaskJob>, i: nat, id: string)
    requires i < |jobs| && jobs[i].op == ReadOp(id)
    ensures WouldEmit(ReplyOf(init, jobs, i)) <==> Live(StateAfter(init, jobs[..i + 1]), id)
  {
    assert jobs[..i + 1] == jobs[..i] + [jobs[i]];
    StateAfterPush(init, jobs[..i], jobs[i]);
  }

  lemma WriteMovesLiveRow(init: Tasks, jobs: seq<TaskJob>, j: nat, id: string)
    requires j < |jobs| && jobs[j].op == PutOp(id, Cancelled)
    ensures id in Changed(StateAfter(init, jobs[..j]), StateAfter(init, jobs[..j + 1]))
      <==> Live(StateAfter(init, jobs[..j]), id)
  {
    assert jobs[..j + 1] == jobs[..j] + [jobs[j]];
    StateAfterPush(init, jobs[..j], jobs[j]);
  }

  /** A cancel by someone else between the read and the write makes the frame spurious. */
  lemma ReadThenWriteIsSpurious(read: nat, other: nat, write: nat)
    ensures var init := map["t" := Row("mika", Pending, None, OtherTrigger)];
      var jobs := [Job(read, ReadOp("t")), Job(other, AsOp(Cancel("t", "mika"), NoFault)), Job(write, PutOp("t",
        Cancelled))];
      && WouldEmit(ReplyOf(init, jobs, 0))
      && Changed(StateAfter(init, jobs[..2]), StateAfter(init, jobs[..3])) == {}
  {
    Race(read, other, write, Pending, AsOp(Cancel("t", "mika"), NoFault), Cancelled);
  }

  /** A revival by someone else makes a real transition silent. */
  lemma ReadThenWriteIsSilent(read: nat, other: nat, write: nat)
    ensures var init := map["t" := Row("mika", Cancelled, None, OtherTrigger)];
      var jobs := [Job(read, ReadOp("t")), Job(other, PutOp("t", Pending)), Job(write, PutOp("t", Cancelled))];
      && !WouldEmit(ReplyOf(init, jobs, 0))
      && Changed(StateAfter(init, jobs[..2]), StateAfter(init, jobs[..3])) == {"t"}
  {
    Race(read, other, write, Cancelled, PutOp("t", Pending), Pending);
  }

  lemma Race(read: nat, other: nat, write: nat, first: Status, op: Op<Tasks, Reply, TaskFrame>, later: Status)
    requires op.run(map["t" := Row("mika", first, None, OtherTrigger)]).db
      == map["t" := Row("mika", later, None, OtherTrigger)]
    ensures var jobs := [Job(read, ReadOp("t")), Job(other, op), Job(write, PutOp("t", Cancelled))];
      var init := map["t" := Row("mika", first, None, OtherTrigger)];
      && (WouldEmit(ReplyOf(init, jobs, 0)) <==> first != Cancelled)
      && Changed(StateAfter(init, jobs[..2]), StateAfter(init, jobs[..3])) == if later != Cancelled then {"t"} else {}
  {
    var jobs := [Job(read, ReadOp("t")), Job(other, op), Job(write, PutOp("t", Cancelled))];
    var init := map["t" := Row("mika", first, None, OtherTrigger)];
    assert jobs[..1] == [] + [jobs[0]] && jobs[..2] == jobs[..1] + [jobs[1]] && jobs[..3] == jobs[..2] + [jobs[2]];
    StateAfterPush(init, [], jobs[0]);
    StateAfterPush(init, jobs[..1], jobs[1]);
    WriteMovesLiveRow(init, jobs, 2, "t");
  }
}
