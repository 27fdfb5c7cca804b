/**
 The single-writer database actor.

 Any number of callers clone the master sender under a mutex and push a closure into a queue
 bounded at 512. One OS thread owns the database and runs the closures one at a time; a panic
 inside a closure is caught, drops that closure's reply channel and leaves the thread alive.
 `shutdown` clears the master sender and joins the thread under a second mutex.

 The protocol is a step system. Every `await`, every lock and every channel operation of the
 source is one step, and a caller's future may be dropped at any of its awaits.
 */
module Actor {
  import opened Prelude

  const CAPACITY: nat := 512

  /** What a closure does to the database it is handed. A panic keeps whatever it had written. */
  datatype Outcome<+Db, +R> = Returned(db: Db, reply: R) | Panicked(db: Db)

  /** A closure, and the frame its wrapper broadcasts for a given reply (None: it stays silent). */
  datatype Op<!Db, !R, !F> = Op(run: Db -> Outcome<Db, R>, frame: R -> Option<F>)

  /** Where one `with_db` call stands. `got` is None when the closure panicked. */
  datatype Phase<+R> =
    | Sending                  // holds a sender clone, waits for room in the queue
    | Waiting                  // closure accepted, awaits the reply
    | Replied(got: Option<R>)  // reply (or its absence) is in the oneshot, caller not yet polled
    | Done(got: Option<R>)     // returned to the caller
    | Dropped                  // the caller's future was dropped at an await
    | Refused                  // "database has been shut down"
    | SendFailed               // "database thread has stopped"

  /** `slot` records the place the closure took in the queue's order, once it was accepted. */
  datatype Call<!Db, !R, !F> = Call(op: Op<Db, R, F>, phase: Phase<R>, slot: Option<nat>)

  datatype Job<!Db, !R, !F> = Job(call: nat, op: Op<Db, R, F>)

  /** Where one `shutdown` call stands. `Joining` holds the handle mutex. */
  datatype Closing = Cleared | Joining | Closed

  datatype Frame<+F> = Frame(call: nat, body: F)

  /**
   The queue and the thread that owns the database. `accepted` and `executed` are histories: every
   closure the queue ever took, and every closure the worker ever ran, in order.
   */
  datatype Pipe<!Db, !R, !F> = Pipe(
    init: Db, db: Db, accepted: seq<Job<Db, R, F>>, queue: seq<Job<Db, R, F>>, hand: Option<Job<Db, R, F>>,
    executed: seq<Job<Db, R, F>>)

  /** The master sender, the thread handle and its mutex, and the `shutdown` calls under way. */
  datatype Gate = Gate(stopped: bool, master: bool, closings: map<nat, Closing>, handle: bool, joiner: Option<nat>)

  /** What went out on the broadcast channel, and the calls that broadcast before one was attached. */
  datatype Air<!F> = Air(attached: bool, frames: seq<Frame<F>>, muted: set<nat>)

  datatype State<!Db, !R, !F> = State(pipe: Pipe<Db, R, F>, calls: Calls<Db, R, F>, gate: Gate, air: Air<F>)

  type Calls<!Db, !R, !F> = map<nat, Call<Db, R, F>>

  datatype Step<!Db, !R, !F> =
    | Begin(c: nat, op: Op<Db, R, F>) | Send(c: nat) | SendFails(c: nat) | Take | Run | Finish(c: nat)
    | Drop(c: nat) | Exit | Clear(d: nat) | Lock(d: nat) | Join(d: nat) | Attach

  // ---------------------------------------------------------------- sequential meaning

  /** The database after running `jobs` one after the other: the simple, single-threaded reading. */
  ghost function StateAfter<Db, R, F>(init: Db, jobs: seq<Job<Db, R, F>>): Db
  {
    if jobs == [] then init
    else jobs[|jobs| - 1].op.run(StateAfter(init, jobs[..|jobs| - 1])).db
  }

  ghost function Reply<Db, R>(o: Outcome<Db, R>): Option<R>
  {
    if o.Returned? then Some(o.reply) else None
  }

  /** What the `k`-th of `jobs` answers when they run one after the other; None if it panics. */
  ghost function ReplyOf<Db, R, F>(init: Db, jobs: seq<Job<Db, R, F>>, k: nat): Option<R>
    requires k < |jobs|
  {
    Reply(jobs[k].op.run(StateAfter(init, jobs[..k])))
  }

  // ---------------------------------------------------------------- the step system

  ghost predicate HoldsSender<R>(p: Phase<R>)
  {
    p.Sending? || p.Waiting? || p.Replied?
  }

  ghost predicate NoSender<Db, R, F>(calls: Calls<Db, R, F>)
  {
    forall c :: c in calls ==> !HoldsSender(calls[c].phase)
  }

  ghost function Start<Db, R, F>(db: Db): State<Db, R, F>
  {
    State(Pipe(db, db, [], [], None, []), map[], Gate(false, true, map[], true, None), Air(false, [], {}))
  }

  ghost predicate InPhase<Db, R, F>(s: State<Db, R, F>, c: nat, p: Phase<R>)
  {
    c in s.calls && s.calls[c].phase == p
  }

  ghost predicate Enabled<Db, R, F>(s: State<Db, R, F>, step: Step<Db, R, F>)
  {
    match step
    case Begin(c, op) => c !in s.calls
    case Send(c) => InPhase(s, c, Sending) && !s.gate.stopped && |s.pipe.queue| < CAPACITY
    case SendFails(c) => InPhase(s, c, Sending) && s.gate.stopped
    case Take => !s.gate.stopped && s.pipe.hand.None? && s.pipe.queue != []
    case Run => s.pipe.hand.Some?
    case Finish(c) => c in s.calls && s.calls[c].phase.Replied?
    case Drop(c) => c in s.calls && HoldsSender(s.calls[c].phase)
    // `blocking_recv` returns None only with the queue drained and every sender gone
    case Exit => !s.gate.stopped && Drained(s)
    case Clear(d) => d !in s.gate.closings
    case Lock(d) => d in s.gate.closings && s.gate.closings[d].Cleared? && s.gate.joiner.None?
    case Join(d) => d in s.gate.closings && s.gate.closings[d].Joining? && s.gate.stopped
    case Attach => true
  }

  ghost predicate Drained<Db, R, F>(s: State<Db, R, F>)
  {
    s.pipe.queue == [] && s.pipe.hand.None? && !s.gate.master && NoSender(s.calls)
  }

  ghost function WithPhase<Db, R, F>(calls: Calls<Db, R, F>, c: nat, p: Phase<R>): Calls<Db, R, F>
    requires c in calls
  {
    calls[c := calls[c].(phase := p)]
  }

  ghost function SendPipe<Db, R, F>(p: Pipe<Db, R, F>, job: Job<Db, R, F>): Pipe<Db, R, F>
  {
    p.(queue := p.queue + [job], accepted := p.accepted + [job])
  }

  ghost function TakePipe<Db, R, F>(p: Pipe<Db, R, F>): Pipe<Db, R, F>
    requires p.queue != []
  {
    p.(hand := Some(p.queue[0]), queue := p.queue[1..])
  }

  ghost function RunPipe<Db, R, F>(p: Pipe<Db, R, F>): Pipe<Db, R, F>
    requires p.hand.Some?
  {
    p.(db := p.hand.value.op.run(p.db).db, executed := p.executed + [p.hand.value], hand := None)
  }

  /** The closure answers through its oneshot; if the caller is gone the answer is ignored. */
  ghost function RunCalls<Db, R, F>(p: Pipe<Db, R, F>, calls: Calls<Db, R, F>): Calls<Db, R, F>
    requires p.hand.Some?
  {
    var job := p.hand.value;
    if job.call in calls && calls[job.call].phase.Waiting?
    then WithPhase(calls, job.call, Replied(Reply(job.op.run(p.db))))
    else calls
  }

  /** The caller is polled with its reply; a guarded wrapper broadcasts before returning. */
  ghost function FinishAir<Db, R, F>(air: Air<F>, c: nat, call: Call<Db, R, F>): Air<F>
  {
    if Owes(call).None? then air
    else if air.attached then air.(frames := air.frames + [Frame(c, Owes(call).value)])
    else air.(muted := air.muted + {c})
  }

  ghost function LockGate(g: Gate, d: nat): Gate
  {
    if g.handle then g.(handle := false, joiner := Some(d), closings := g.closings[d := Joining])
    else g.(closings := g.closings[d := Closed])
  }

  ghost function Apply<Db, R, F>(s: State<Db, R, F>, step: Step<Db, R, F>): State<Db, R, F>
    requires Enabled(s, step)
  {
    match step
    case Begin(c, op) => s.(calls := s.calls[c := Call(op, if s.gate.master then Sending else Refused, None)])
    case Send(c) =>
      s.(pipe := SendPipe(s.pipe, Job(c, s.calls[c].op)),
         calls := s.calls[c := Call(s.calls[c].op, Waiting, Some(|s.pipe.accepted|))])
    case SendFails(c) => s.(calls := WithPhase(s.calls, c, SendFailed))
    case Take => s.(pipe := TakePipe(s.pipe))
    case Run => s.(pipe := RunPipe(s.pipe), calls := RunCalls(s.pipe, s.calls))
    case Finish(c) =>
      s.(calls := WithPhase(s.calls, c, Done(s.calls[c].phase.got)), air := FinishAir(s.air, c, s.calls[c]))
    case Drop(c) => s.(calls := WithPhase(s.calls, c, Dropped))
    case Exit => s.(gate := s.gate.(stopped := true))
    case Clear(d) => s.(gate := s.gate.(master := false, closings := s.gate.closings[d := Cleared]))
    case Lock(d) => s.(gate := LockGate(s.gate, d))
    case Join(d) => s.(gate := s.gate.(joiner := None, closings := s.gate.closings[d := Closed]))
    case Attach => s.(air := s.air.(attached := true))
  }

  /** `run[0]` is a fresh actor and each state follows from the one before by the matching step. */
  ghost predicate IsRun<Db, R, F>(run: seq<State<Db, R, F>>, steps: seq<Step<Db, R, F>>)
  {
    && |run| == |steps| + 1
    && run[0] == Start(run[0].pipe.init)
    && forall i :: 0 <= i < |steps| ==> Enabled(run[i], steps[i]) && run[i + 1] == Apply(run[i], steps[i])
  }

  // ---------------------------------------------------------------- the inductive invariant

  ghost function Hand<Db, R, F>(p: Pipe<Db, R, F>): seq<Job<Db, R, F>>
  {
    if p.hand.Some? then [p.hand.value] else []
  }

  /** First in, first out, and nothing falls between the queue, the worker's hand and the history. */
  ghost predicate Flow<Db, R, F>(p: Pipe<Db, R, F>)
  {
    && |p.queue| <= CAPACITY
    && p.accepted == p.executed + Hand(p) + p.queue
    && p.db == StateAfter(p.init, p.executed)
  }

  ghost predicate Slots<Db, R, F>(accepted: seq<Job<Db, R, F>>, calls: Calls<Db, R, F>)
  {
    forall k :: 0 <= k < |accepted| ==>
      && accepted[k].call in calls
      && calls[accepted[k].call].slot == Some(k)
      && calls[accepted[k].call].op == accepted[k].op
  }

  ghost predicate Answered<Db, R, F>(p: Pipe<Db, R, F>, call: Call<Db, R, F>, got: Option<R>)
  {
    call.slot.Some? && call.slot.value < |p.executed| && got == ReplyOf(p.init, p.executed, call.slot.value)
  }

  ghost predicate CallOk<Db, R, F>(p: Pipe<Db, R, F>, c: nat, call: Call<Db, R, F>)
  {
    && (call.slot.Some? ==> call.slot.value < |p.accepted| && p.accepted[call.slot.value].call == c)
    && match call.phase
       case Sending => call.slot.None?
       case Waiting => call.slot.Some? && |p.executed| <= call.slot.value
       case Replied(got) => Answered(p, call, got)
       case Done(got) => Answered(p, call, got)
       case Dropped => true
       case Refused => call.slot.None?
       case SendFailed => false
  }

  ghost predicate Answering<Db, R, F>(p: Pipe<Db, R, F>, calls: Calls<Db, R, F>)
  {
    forall c :: c in calls ==> CallOk(p, c, calls[c])
  }

  ghost predicate Closes<Db, R, F>(s: State<Db, R, F>)
  {
    && (s.gate.stopped ==> Drained(s))
    && (s.gate.closings != map[] ==> !s.gate.master)
  }

  /** Whoever finds the thread handle gone and the mutex free knows the thread has ended. */
  ghost predicate Handles(g: Gate)
  {
    && (g.joiner.Some? ==> !g.handle && g.joiner.value in g.closings && g.closings[g.joiner.value].Joining?)
    && (forall d :: d in g.closings && g.closings[d].Joining? ==> g.joiner == Some(d))
    && (forall d :: d in g.closings && g.closings[d].Closed? ==> g.stopped)
    && (!g.handle && g.joiner.None? ==> g.stopped)
  }

  /** The frame a call's reply owes, if any. */
  ghost function Owes<Db, R, F>(call: Call<Db, R, F>): Option<F>
  {
    if (call.phase.Replied? || call.phase.Done?) && call.phase.got.Some? then call.op.frame(call.phase.got.value)
    else None
  }

  ghost function Emitters<F>(frames: seq<Frame<F>>): set<nat>
  {
    set i | 0 <= i < |frames| :: frames[i].call
  }

  ghost predicate Finished<Db, R, F>(calls: Calls<Db, R, F>, c: nat)
  {
    c in calls && calls[c].phase.Done? && Owes(calls[c]).Some?
  }

  /** Every broadcast belongs to one finished call that owed it, and every such call has broadcast. */
  ghost predicate Broadcasting<Db, R, F>(calls: Calls<Db, R, F>, air: Air<F>)
  {
    && (forall i :: 0 <= i < |air.frames| ==>
          && Finished(calls, air.frames[i].call)
          && Owes(calls[air.frames[i].call]) == Some(air.frames[i].body)
          && air.frames[i].call !in air.muted)
    && (forall i, j :: 0 <= i < j < |air.frames| ==> air.frames[i].call != air.frames[j].call)
    && (forall c :: c in air.muted ==> Finished(calls, c))
    && (forall c :: Finished(calls, c) ==> c in Emitters(air.frames) || c in air.muted)
  }

  ghost predicate Inv<Db, R, F>(s: State<Db, R, F>)
  {
    && Flow(s.pipe) && Slots(s.pipe.accepted, s.calls) && Answering(s.pipe, s.calls)
    && Closes(s) && Handles(s.gate) && Broadcasting(s.calls, s.air)
  }

  // ---------------------------------------------------------------- preservation, group by group

  lemma ReplyOfPrefix<Db, R, F>(init: Db, jobs: seq<Job<Db, R, F>>, more: seq<Job<Db, R, F>>, k: nat)
    requires k < |jobs|
    ensures ReplyOf(init, jobs + more, k) == ReplyOf(init, jobs, k)
  {
    assert (jobs + more)[..k] == jobs[..k];
  }

  lemma StateAfterPush<Db, R, F>(init: Db, jobs: seq<Job<Db, R, F>>, job: Job<Db, R, F>)
    ensures StateAfter(init, jobs + [job]) == job.op.run(StateAfter(init, jobs)).db
  {
    assert (jobs + [job])[..|jobs|] == jobs;
  }

  lemma FlowSend<Db, R, F>(p: Pipe<Db, R, F>, job: Job<Db, R, F>)
    requires Flow(p) && |p.queue| < CAPACITY
    ensures Flow(SendPipe(p, job))
  {
    assert p.executed + Hand(p) + (p.queue + [job]) == p.accepted + [job];
  }

  lemma FlowTake<Db, R, F>(p: Pipe<Db, R, F>)
    requires Flow(p) && p.hand.None? && p.queue != []
    ensures Flow(TakePipe(p))
  {
    assert p.executed + [] + p.queue == p.executed + [p.queue[0]] + p.queue[1..];
  }

  lemma FlowRun<Db, R, F>(p: Pipe<Db, R, F>)
    requires Flow(p) && p.hand.Some?
    ensures Flow(RunPipe(p))
  {
    StateAfterPush(p.init, p.executed, p.hand.value);
    assert p.executed + [p.hand.value] + p.queue == (p.executed + [p.hand.value]) + [] + p.queue;
  }

  /** The part of a call that only `Send` may write is the same in both maps. */
  ghost predicate SameSlots<Db, R, F>(s: Calls<Db, R, F>, t: Calls<Db, R, F>)
  {
    forall c :: c in s ==> c in t && t[c].op == s[c].op && t[c].slot == s[c].slot
  }

  lemma SlotsSend<Db, R, F>(s: State<Db, R, F>, c: nat)
    requires Slots(s.pipe.accepted, s.calls) && Enabled(s, Send(c)) && CallOk(s.pipe, c, s.calls[c])
    ensures Slots(Apply(s, Send(c)).pipe.accepted, Apply(s, Send(c)).calls)
  {
    var t := Apply(s, Send(c));
    forall k | 0 <= k < |t.pipe.accepted|
      ensures t.pipe.accepted[k].call in t.calls
              && t.calls[t.pipe.accepted[k].call].slot == Some(k)
              && t.calls[t.pipe.accepted[k].call].op == t.pipe.accepted[k].op
    {
      if k < |s.pipe.accepted| { assert t.pipe.accepted[k] == s.pipe.accepted[k]; }
    }
  }

  lemma AnsweringSend<Db, R, F>(s: State<Db, R, F>, c: nat)
    requires Flow(s.pipe) && Answering(s.pipe, s.calls) && Enabled(s, Send(c))
    ensures Answering(Apply(s, Send(c)).pipe, Apply(s, Send(c)).calls)
  {
    var t := Apply(s, Send(c));
    assert |s.pipe.executed| <= |s.pipe.accepted|;
    forall e | e in t.calls ensures CallOk(t.pipe, e, t.calls[e]) {
      assert CallOk(s.pipe, e, s.calls[e]);
    }
  }

  /** Running a closure leaves every earlier answer standing. */
  lemma CallOkRun<Db, R, F>(p: Pipe<Db, R, F>, c: nat, call: Call<Db, R, F>)
    requires Flow(p) && p.hand.Some? && CallOk(p, c, call)
    requires call.phase.Waiting? ==> c != p.hand.value.call
    ensures CallOk(RunPipe(p), c, call)
  {
    assert p.accepted[|p.executed|] == p.hand.value;
    if call.slot.Some? && call.slot.value < |p.executed| {
      ReplyOfPrefix(p.init, p.executed, [p.hand.value], call.slot.value);
    }
  }

  lemma CallOkAnswer<Db, R, F>(p: Pipe<Db, R, F>, c: nat, call: Call<Db, R, F>)
    requires Flow(p) && p.hand.Some? && CallOk(p, c, call) && c == p.hand.value.call && call.slot == Some(|p.executed|)
    ensures CallOk(RunPipe(p), c, call.(phase := Replied(Reply(p.hand.value.op.run(p.db)))))
  {
    assert RunPipe(p).executed[..|p.executed|] == p.executed;
  }

  lemma AnsweringRun<Db, R, F>(p: Pipe<Db, R, F>, calls: Calls<Db, R, F>)
    requires Flow(p) && Slots(p.accepted, calls) && Answering(p, calls) && p.hand.Some?
    ensures Answering(RunPipe(p), RunCalls(p, calls))
  {
    assert p.accepted[|p.executed|] == p.hand.value;
    forall c | c in calls ensures CallOk(RunPipe(p), c, RunCalls(p, calls)[c]) {
      assert CallOk(p, c, calls[c]);
      if c == p.hand.value.call && calls[c].phase.Waiting? {
        CallOkAnswer(p, c, calls[c]);
      } else {
        CallOkRun(p, c, calls[c]);
      }
    }
  }

  /** A step that leaves the pipe alone writes at most one call, and writes it well. */
  lemma CallsStep<Db, R, F>(s: State<Db, R, F>, step: Step<Db, R, F>)
    requires Slots(s.pipe.accepted, s.calls) && Answering(s.pipe, s.calls) && Closes(s) && Enabled(s, step)
    requires step.Begin? || step.Finish? || step.Drop? || step.SendFails?
    ensures Slots(s.pipe.accepted, Apply(s, step).calls) && Answering(s.pipe, Apply(s, step).calls)
  {
    var t := Apply(s, step).calls;
    assert SameSlots(s.calls, t);
    assert step.c in s.calls ==> CallOk(s.pipe, step.c, s.calls[step.c]);
    forall e | e in t ensures CallOk(s.pipe, e, t[e]) {
      if e != step.c { assert CallOk(s.pipe, e, s.calls[e]); }
    }
  }

  lemma ClosesStep<Db, R, F>(s: State<Db, R, F>, step: Step<Db, R, F>)
    requires Closes(s) && Enabled(s, step)
    ensures Closes(Apply(s, step))
  {
  }

  lemma HandlesStep<Db, R, F>(s: State<Db, R, F>, step: Step<Db, R, F>)
    requires Handles(s.gate) && Enabled(s, step)
    ensures Handles(Apply(s, step).gate)
  {
  }

  /** Broadcasting survives whatever leaves the finished calls alone. */
  lemma BroadcastingFrame<Db, R, F>(s: Calls<Db, R, F>, t: Calls<Db, R, F>, air: Air<F>)
    requires Broadcasting(s, air)
    requires forall c :: c in s && s[c].phase.Done? ==> c in t && t[c] == s[c]
    requires forall c :: c in t && t[c].phase.Done? ==> c in s && t[c] == s[c]
    ensures Broadcasting(t, air)
  {
    assert forall c :: Finished(s, c) <==> Finished(t, c);
  }

  lemma EmittersPush<F>(frames: seq<Frame<F>>, f: Frame<F>)
    ensures Emitters(frames + [f]) == Emitters(frames) + {f.call}
  {
    var more := frames + [f];
    assert more[|frames|] == f;
    forall c | c in Emitters(frames) + {f.call} ensures c in Emitters(more) {
      if c in Emitters(frames) {
        var i :| 0 <= i < |frames| && frames[i].call == c;
        assert more[i] == frames[i];
      }
    }
  }

  lemma BroadcastingFinish<Db, R, F>(calls: Calls<Db, R, F>, air: Air<F>, c: nat)
    requires Broadcasting(calls, air) && c in calls && calls[c].phase.Replied?
    ensures Broadcasting(WithPhase(calls, c, Done(calls[c].phase.got)), FinishAir(air, c, calls[c]))
  {
    var after := WithPhase(calls, c, Done(calls[c].phase.got));
    assert forall e :: e != c ==> (Finished(calls, e) <==> Finished(after, e));
    assert !Finished(calls, c);
    assert Owes(after[c]) == Owes(calls[c]);
    if Owes(calls[c]).Some? && air.attached {
      EmittersPush(air.frames, Frame(c, Owes(calls[c]).value));
    }
  }

  lemma BroadcastingStep<Db, R, F>(s: State<Db, R, F>, step: Step<Db, R, F>)
    requires Broadcasting(s.calls, s.air) && Enabled(s, step)
    ensures Broadcasting(Apply(s, step).calls, Apply(s, step).air)
  {
    if step.Finish? {
      BroadcastingFinish(s.calls, s.air, step.c);
    } else {
      BroadcastingFrame(s.calls, Apply(s, step).calls, s.air);
    }
  }

  lemma AnsweringTake<Db, R, F>(p: Pipe<Db, R, F>, calls: Calls<Db, R, F>)
    requires Answering(p, calls) && p.queue != []
    ensures Answering(TakePipe(p), calls)
  {
    forall c | c in calls ensures CallOk(TakePipe(p), c, calls[c]) {
      assert CallOk(p, c, calls[c]);
    }
  }

  lemma SlotsFrame<Db, R, F>(accepted: seq<Job<Db, R, F>>, s: Calls<Db, R, F>, t: Calls<Db, R, F>)
    requires Slots(accepted, s) && SameSlots(s, t)
    ensures Slots(accepted, t)
  {
  }

  lemma RunStep<Db, R, F>(p: Pipe<Db, R, F>, calls: Calls<Db, R, F>)
    requires Flow(p) && Slots(p.accepted, calls) && Answering(p, calls) && p.hand.Some?
    ensures Flow(RunPipe(p)) && Slots(RunPipe(p).accepted, RunCalls(p, calls))
      && Answering(RunPipe(p), RunCalls(p, calls))
  {
    FlowRun(p);
    AnsweringRun(p, calls);
    SlotsFrame(p.accepted, calls, RunCalls(p, calls));
  }

  lemma PipeStep<Db, R, F>(s: State<Db, R, F>, step: Step<Db, R, F>)
    requires Inv(s) && Enabled(s, step)
    ensures var t := Apply(s, step); Flow(t.pipe) && Slots(t.pipe.accepted, t.calls) && Answering(t.pipe, t.calls)
  {
    if step.Send? {
      FlowSend(s.pipe, Job(step.c, s.calls[step.c].op));
      SlotsSend(s, step.c);
      AnsweringSend(s, step.c);
    } else if step.Take? {
      FlowTake(s.pipe);
      AnsweringTake(s.pipe, s.calls);
    } else if step.Run? {
      RunStep(s.pipe, s.calls);
    } else if step.Begin? || step.Finish? || step.Drop? || step.SendFails? {
      CallsStep(s, step);
    }
  }

  lemma InvStep<Db, R, F>(s: State<Db, R, F>, step: Step<Db, R, F>)
    requires Inv(s) && Enabled(s, step)
    ensures Inv(Apply(s, step))
  {
    PipeStep(s, step);
    ClosesStep(s, step);
    HandlesStep(s, step);
    BroadcastingStep(s, step);
  }

  /** Every state of every run satisfies the invariant. */
  lemma {:induction false} InvHolds<Db, R, F>(run: seq<State<Db, R, F>>, steps: seq<Step<Db, R, F>>, n: nat)
    requires IsRun(run, steps) && n < |run|
    ensures Inv(run[n])
  {
    if n > 0 {
      InvHolds(run, steps, n - 1);
      InvStep(run[n - 1], steps[n - 1]);
    }
  }
}
