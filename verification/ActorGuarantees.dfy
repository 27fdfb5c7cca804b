/**
 What the database actor guarantees over every interleaving of callers, enqueues, worker steps,
 panics, dropped futures and shutdowns.
 */
module ActorGuarantees {
  import opened Prelude
  import opened Actor

  // ---------------------------------------------------------------- what later states keep

  /** `t` extends `s`: histories only grow, finished calls keep their answer, closed gates stay closed. */
  ghost predicate Extends<Db, R, F>(s: State<Db, R, F>, t: State<Db, R, F>)
  {
    && t.pipe.init == s.pipe.init
    && s.pipe.accepted <= t.pipe.accepted && s.pipe.executed <= t.pipe.executed
    && (s.gate.stopped ==> t.gate.stopped) && (!s.gate.master ==> !t.gate.master)
    && (forall c :: c in s.calls ==> c in t.calls && KeepsCall(s.calls[c], t.calls[c]))
    && (forall c :: c in t.calls && c !in s.calls && !s.gate.master ==> t.calls[c].phase.Refused?)
    && s.air.frames <= t.air.frames && s.air.muted <= t.air.muted
  }

  ghost predicate KeepsCall<Db, R, F>(a: Call<Db, R, F>, b: Call<Db, R, F>)
  {
    && b.op == a.op && (a.slot.Some? ==> b.slot == a.slot)
    && (a.phase.Done? || a.phase.Refused? || a.phase.Dropped? ==> b.phase == a.phase)
  }

  lemma ExtendsStep<Db, R, F>(s: State<Db, R, F>, step: Step<Db, R, F>)
    requires Inv(s) && Enabled(s, step)
    ensures Extends(s, Apply(s, step))
  {
    if step.Send? {
      ExtendsSend(s, step.c);
    } else if step.Run? {
      ExtendsRun(s);
    } else if step.Begin? {
      ExtendsBegin(s, step.c, step.op);
    } else if step.Finish? || step.Drop? || step.SendFails? {
      ExtendsCalls(s, step);
    }
  }

  lemma ExtendsBegin<Db, R, F>(s: State<Db, R, F>, c: nat, op: Op<Db, R, F>)
    requires Enabled(s, Begin(c, op))
    ensures Extends(s, Apply(s, Begin(c, op)))
  {
  }

  lemma ExtendsCalls<Db, R, F>(s: State<Db, R, F>, step: Step<Db, R, F>)
    requires Inv(s) && Enabled(s, step) && (step.Finish? || step.Drop? || step.SendFails?)
    ensures Extends(s, Apply(s, step))
  {
  }

  lemma ExtendsSend<Db, R, F>(s: State<Db, R, F>, c: nat)
    requires Inv(s) && Enabled(s, Step<Db, R, F>.Send(c))
    ensures Extends(s, Apply(s, Step<Db, R, F>.Send(c)))
  {
    assert CallOk(s.pipe, c, s.calls[c]);
  }

  lemma ExtendsRun<Db, R, F>(s: State<Db, R, F>)
    requires Inv(s) && Enabled(s, Step<Db, R, F>.Run)
    ensures Extends(s, Apply(s, Step<Db, R, F>.Run))
  {
  }

  lemma ExtendsTransitive<Db, R, F>(s: State<Db, R, F>, t: State<Db, R, F>, u: State<Db, R, F>)
    requires Extends(s, t) && Extends(t, u)
    ensures Extends(s, u)
  {
    forall c | c in s.calls ensures c in u.calls && KeepsCall(s.calls[c], u.calls[c]) {
      assert KeepsCall(s.calls[c], t.calls[c]) && KeepsCall(t.calls[c], u.calls[c]);
    }
    forall c | c in u.calls && c !in s.calls && !s.gate.master ensures u.calls[c].phase.Refused? {
      if c in t.calls { assert KeepsCall(t.calls[c], u.calls[c]); }
    }
  }

  lemma RunExtends<Db, R, F>(run: seq<State<Db, R, F>>, steps: seq<Step<Db, R, F>>, m: nat, n: nat)
    requires IsRun(run, steps) && m <= n < |run|
    ensures Extends(run[m], run[n])
  {
    forall k | 0 <= k < |run| - 1 ensures Extends(run[k], run[k + 1]) { NextExtends(run, steps, k); }
    ChainExtends(run, m, n);
  }

  ghost predicate IsChain<Db, R, F>(run: seq<State<Db, R, F>>)
  {
    forall k :: 0 <= k < |run| - 1 ==> Extends(run[k], run[k + 1])
  }

  lemma {:induction false} ChainExtends<Db, R, F>(run: seq<State<Db, R, F>>, m: nat, n: nat)
    requires IsChain(run) && m <= n < |run|
    ensures Extends(run[m], run[n])
    decreases n
  {
    if m < n {
      ChainExtends(run, m, n - 1);
      assert Extends(run[n - 1], run[n]);
      ExtendsTransitive(run[m], run[n - 1], run[n]);
    } else {
      ExtendsItself(run[m]);
    }
  }

  lemma NextExtends<Db, R, F>(run: seq<State<Db, R, F>>, steps: seq<Step<Db, R, F>>, k: nat)
    requires IsRun(run, steps) && k < |steps|
    ensures Extends(run[k], run[k + 1])
  {
    InvHolds(run, steps, k);
    ExtendsStep(run[k], steps[k]);
  }

  lemma ExtendsItself<Db, R, F>(s: State<Db, R, F>)
    ensures Extends(s, s)
  {
  }

  // ---------------------------------------------------------------- linearisability

  /**
   The order in which the queue accepted closures is a linearisation of the run. Running the executed
   prefix one closure at a time, from the initial database, gives the database the worker holds and
   gives every returned call exactly the answer it returned (none if and only if its closure panicked
   there); each call is in that order at most once; and a call that had returned by an earlier state
   precedes every call that had not yet begun there.
   */
  lemma Linearisable<Db, R, F>(run: seq<State<Db, R, F>>, steps: seq<Step<Db, R, F>>, m: nat, n: nat)
    requires IsRun(run, steps) && m <= n < |run|
    ensures var s := run[n];
      && s.pipe.db == StateAfter(run[0].pipe.init, s.pipe.executed)
      && s.pipe.executed <= s.pipe.accepted
      && (forall i, j :: 0 <= i < j < |s.pipe.accepted| ==> s.pipe.accepted[i].call != s.pipe.accepted[j].call)
    ensures forall c :: c in run[n].calls && run[n].calls[c].phase.Done? ==>
      Linearised(run[0].pipe.init, run[n].pipe.executed, c, run[n].calls[c])
    ensures forall a, b :: a in run[m].calls && run[m].calls[a].phase.Done?
                           && b !in run[m].calls && b in run[n].calls && run[n].calls[b].slot.Some? ==>
      a in run[n].calls && run[n].calls[a].slot.Some? && run[n].calls[a].slot.value < run[n].calls[b].slot.value
  {
    InvHolds(run, steps, m);
    InvHolds(run, steps, n);
    RunExtends(run, steps, 0, n);
    RunExtends(run, steps, m, n);
    var s := run[n];
    forall i, j | 0 <= i < j < |s.pipe.accepted| ensures s.pipe.accepted[i].call != s.pipe.accepted[j].call {
      assert s.calls[s.pipe.accepted[i].call].slot == Some(i);
      assert s.calls[s.pipe.accepted[j].call].slot == Some(j);
    }
    forall c | c in s.calls && s.calls[c].phase.Done?
      ensures Linearised(run[0].pipe.init, s.pipe.executed, c, s.calls[c])
    {
      DoneIsLinearised(s, c);
    }
    forall a, b | a in run[m].calls && run[m].calls[a].phase.Done?
                  && b !in run[m].calls && b in s.calls && s.calls[b].slot.Some?
      ensures a in s.calls && s.calls[a].slot.Some? && s.calls[a].slot.value < s.calls[b].slot.value
    {
      ReturnedBeforeBegun(run[m], s, a, b);
    }
  }

  /** Call `c` sits in the executed order at its slot, with its own closure, and got that slot's answer. */
  ghost predicate Linearised<Db, R, F>(init: Db, executed: seq<Job<Db, R, F>>, c: nat, call: Call<Db, R, F>)
    requires call.phase.Done?
  {
    && call.slot.Some? && call.slot.value < |executed|
    && executed[call.slot.value] == Job(c, call.op)
    && call.phase.got == ReplyOf(init, executed, call.slot.value)
  }

  lemma DoneIsLinearised<Db, R, F>(s: State<Db, R, F>, c: nat)
    requires Inv(s) && c in s.calls && s.calls[c].phase.Done?
    ensures Linearised(s.pipe.init, s.pipe.executed, c, s.calls[c])
  {
    assert CallOk(s.pipe, c, s.calls[c]);
    var k := s.calls[c].slot.value;
    assert s.pipe.accepted[k] == s.pipe.executed[k];
  }

  lemma ReturnedBeforeBegun<Db, R, F>(s: State<Db, R, F>, t: State<Db, R, F>, a: nat, b: nat)
    requires Inv(s) && Inv(t) && Extends(s, t)
    requires a in s.calls && s.calls[a].phase.Done? && b !in s.calls && b in t.calls && t.calls[b].slot.Some?
    ensures a in t.calls && t.calls[a].slot.Some? && t.calls[a].slot.value < t.calls[b].slot.value
  {
    assert CallOk(s.pipe, a, s.calls[a]) && KeepsCall(s.calls[a], t.calls[a]);
    assert CallOk(t.pipe, b, t.calls[b]);
    var k := t.calls[b].slot.value;
    assert forall i :: 0 <= i < |s.pipe.accepted| ==>
      t.pipe.accepted[i] == s.pipe.accepted[i] && t.pipe.accepted[i].call != b;
  }

  // ---------------------------------------------------------------- shutdown

  /**
   The queue never holds more than 512 closures; every accepted closure has run, is in the worker's
   hand or is still queued, in order; no send ever finds the receiver gone; a call that begins after
   the master sender was cleared is refused and never reaches the queue; and once any `shutdown` has
   returned, however many were racing, the thread has ended, every accepted closure has run and no
   caller is left holding a sender.
   */
  lemma ShutdownIsClean<Db, R, F>(run: seq<State<Db, R, F>>, steps: seq<Step<Db, R, F>>, m: nat, n: nat)
    requires IsRun(run, steps) && m <= n < |run|
    ensures var p := run[n].pipe; |p.queue| <= 512 && p.accepted == p.executed + Hand(p) + p.queue
    ensures forall c :: c in run[n].calls ==> !run[n].calls[c].phase.SendFailed?
    ensures forall c :: !run[m].gate.master && c !in run[m].calls && c in run[n].calls ==>
      run[n].calls[c].phase.Refused? && forall k :: 0 <= k < |run[n].pipe.accepted| ==>
        run[n].pipe.accepted[k].call != c
    ensures forall d :: d in run[n].gate.closings && run[n].gate.closings[d].Closed? ==>
      run[n].gate.stopped && run[n].pipe.executed == run[n].pipe.accepted && NoSender(run[n].calls)
  {
    InvHolds(run, steps, n);
    RunExtends(run, steps, m, n);
    var s := run[n];
    assert forall c :: c in s.calls ==> CallOk(s.pipe, c, s.calls[c]);
    assert s.pipe.executed + [] + [] == s.pipe.executed;
  }

  // ---------------------------------------------------------------- frames

  /** The calls whose executed closure committed a transition its wrapper must broadcast. */
  ghost function Committed<Db, R, F>(s: State<Db, R, F>): set<nat>
  {
    set c | c in s.calls && Commits(s, c)
  }

  ghost predicate Commits<Db, R, F>(s: State<Db, R, F>, c: nat)
    requires c in s.calls
  {
    var call := s.calls[c];
    call.slot.Some? && call.slot.value < |s.pipe.executed| &&
    var got := ReplyOf(s.pipe.init, s.pipe.executed, call.slot.value);
    got.Some? && call.op.frame(got.value).Some?
  }

  /** Callers between the commit and the broadcast. */
  ghost function Owing<Db, R, F>(s: State<Db, R, F>): set<nat>
  {
    set c | c in s.calls && s.calls[c].phase.Replied? && Owes(s.calls[c]).Some?
  }

  /** Commits whose caller was dropped before it could broadcast. */
  ghost function Lost<Db, R, F>(s: State<Db, R, F>): set<nat>
  {
    set c | c in Committed(s) && s.calls[c].phase.Dropped?
  }

  lemma EmittersCount<F>(frames: seq<Frame<F>>)
    requires forall i, j :: 0 <= i < j < |frames| ==> frames[i].call != frames[j].call
    ensures |Emitters(frames)| == |frames|
  {
    if frames != [] {
      var rest := frames[..|frames| - 1];
      EmittersCount(rest);
      EmittersPush(rest, frames[|frames| - 1]);
      assert rest + [frames[|frames| - 1]] == frames;
    }
  }

  lemma CommitsByPhase<Db, R, F>(s: State<Db, R, F>, c: nat)
    requires Inv(s) && c in s.calls
    ensures Commits(s, c) ==> s.calls[c].phase.Replied? || s.calls[c].phase.Done? || s.calls[c].phase.Dropped?
    ensures s.calls[c].phase.Replied? || s.calls[c].phase.Done? ==> (Commits(s, c) <==> Owes(s.calls[c]).Some?)
  {
    assert CallOk(s.pipe, c, s.calls[c]);
  }

  /**
   Frame conservation, in every reachable state: the committed transitions are split, without overlap,
   into those already broadcast, those broadcast into a missing channel, those still owed by a caller
   between its commit and its broadcast, and those whose caller was dropped. So no frame precedes its
   commit, none is sent twice, and the counts agree once nobody owes and nobody was dropped.
   */
  lemma FramesConserved<Db, R, F>(run: seq<State<Db, R, F>>, steps: seq<Step<Db, R, F>>, n: nat)
    requires IsRun(run, steps) && n < |run|
    ensures var s := run[n];
      && Committed(s) == Emitters(s.air.frames) + s.air.muted + Owing(s) + Lost(s)
      && Emitters(s.air.frames) !! s.air.muted !! Owing(s) !! Lost(s)
      && |Committed(s)| == |s.air.frames| + |s.air.muted| + |Owing(s)| + |Lost(s)|
    ensures forall i :: 0 <= i < |run[n].air.frames| ==>
      var f := run[n].air.frames[i];
      f.call in run[n].calls && Commits(run[n], f.call) && Owes(run[n].calls[f.call]) == Some(f.body)
  {
    InvHolds(run, steps, n);
    var s := run[n];
    forall c | c in s.calls
      ensures Commits(s, c) ==> s.calls[c].phase.Replied? || s.calls[c].phase.Done? || s.calls[c].phase.Dropped?
      ensures s.calls[c].phase.Replied? || s.calls[c].phase.Done? ==> (Commits(s, c) <==> Owes(s.calls[c]).Some?)
    {
      CommitsByPhase(s, c);
    }
    PartitionOf(s);
  }

  lemma PartitionOf<Db, R, F>(s: State<Db, R, F>)
    requires Broadcasting(s.calls, s.air)
    requires forall c :: c in s.calls && Commits(s, c) ==>
      s.calls[c].phase.Replied? || s.calls[c].phase.Done? || s.calls[c].phase.Dropped?
    requires forall c :: c in s.calls && (s.calls[c].phase.Replied? || s.calls[c].phase.Done?) ==>
      (Commits(s, c) <==> Owes(s.calls[c]).Some?)
    ensures Committed(s) == Emitters(s.air.frames) + s.air.muted + Owing(s) + Lost(s)
    ensures Emitters(s.air.frames) !! s.air.muted !! Owing(s) !! Lost(s)
    ensures |Committed(s)| == |s.air.frames| + |s.air.muted| + |Owing(s)| + |Lost(s)|
  {
    var sent := Emitters(s.air.frames) + s.air.muted;
    forall c ensures c in sent <==> Finished(s.calls, c) {
      if c in Emitters(s.air.frames) {
        var i :| 0 <= i < |s.air.frames| && s.air.frames[i].call == c;
      }
    }
    assert Emitters(s.air.frames) !! s.air.muted;
    EmittersCount(s.air.frames);
    SplitByPhase(s, sent);
  }

  lemma SplitByPhase<Db, R, F>(s: State<Db, R, F>, sent: set<nat>)
    requires forall c :: c in sent <==> Finished(s.calls, c)
    requires forall c :: c in s.calls && Commits(s, c) ==>
      s.calls[c].phase.Replied? || s.calls[c].phase.Done? || s.calls[c].phase.Dropped?
    requires forall c :: c in s.calls && (s.calls[c].phase.Replied? || s.calls[c].phase.Done?) ==>
      (Commits(s, c) <==> Owes(s.calls[c]).Some?)
    ensures Committed(s) == sent + Owing(s) + Lost(s)
    ensures sent !! Owing(s) !! Lost(s)
  {
  }

  /** A channel is attached exactly when an attach came before, and one may come at any time. */
  lemma {:induction false} AttachedExactly<Db, R, F>(run: seq<State<Db, R, F>>, steps: seq<Step<Db, R, F>>, n: nat)
    requires IsRun(run, steps) && n < |run|
    ensures run[n].air.attached <==> exists k :: 0 <= k < n && steps[k].Attach?
    ensures Enabled(run[n], Attach)
  {
    if n > 0 {
      AttachedExactly(run, steps, n - 1);
      assert run[n] == Apply(run[n - 1], steps[n - 1]);
    }
  }

  /**
   A caller that returns with a frame to send puts it on the channel exactly when one has been attached by
   then, and goes unheard otherwise; no other step puts anything there.
   */
  lemma BroadcastExactly<Db, R, F>(run: seq<State<Db, R, F>>, steps: seq<Step<Db, R, F>>, k: nat)
    requires IsRun(run, steps) && k < |steps|
    ensures var before, after := run[k].air, run[k + 1].air;
      if steps[k].Finish? && Owes(run[k].calls[steps[k].c]).Some?
      then var c := steps[k].c;
        if exists j :: 0 <= j < k && steps[j].Attach?
        then after.frames == before.frames + [Frame(c, Owes(run[k].calls[c]).value)] && after.muted == before.muted
        else after.frames == before.frames && after.muted == before.muted + {c}
      else after.frames == before.frames && after.muted == before.muted
  {
    AttachedExactly(run, steps, k);
  }

  // ---------------------------------------------------------------- who is let in

  /** The master sender is there exactly until a shutdown clears it. */
  lemma {:induction false} OpenExactly<Db, R, F>(run: seq<State<Db, R, F>>, steps: seq<Step<Db, R, F>>, n: nat)
    requires IsRun(run, steps) && n < |run|
    ensures run[n].gate.master <==> forall k :: 0 <= k < n ==> !steps[k].Clear?
  {
    if n > 0 {
      OpenExactly(run, steps, n - 1);
      assert run[n] == Apply(run[n - 1], steps[n - 1]);
    }
  }

  /** A call is refused exactly when a shutdown has begun before it; any other gets its sender. */
  lemma RefusedExactly<Db, R, F>(run: seq<State<Db, R, F>>, steps: seq<Step<Db, R, F>>, k: nat)
    requires IsRun(run, steps) && k < |steps| && steps[k].Begin?
    ensures var call := run[k + 1].calls[steps[k].c];
      call.op == steps[k].op
      && call.phase == if exists j :: 0 <= j < k && steps[j].Clear? then Refused else Sending
  {
    OpenExactly(run, steps, k);
  }

  // ---------------------------------------------------------------- draining terminates

  ghost function Senders<Db, R, F>(calls: Calls<Db, R, F>): set<nat>
  {
    set c | c in calls && calls[c].phase.Sending?
  }

  ghost function Awaiting<Db, R, F>(calls: Calls<Db, R, F>): set<nat>
  {
    set c | c in calls && (calls[c].phase.Waiting? || calls[c].phase.Replied?)
  }

  /** An upper bound on the work left before the thread can end. */
  ghost function WorkLeft<Db, R, F>(s: State<Db, R, F>): nat
  {
    4 * |Senders(s.calls)| + |Awaiting(s.calls)| + 2 * |s.pipe.queue| + |Hand(s.pipe)| + (if s.gate.stopped then 0
      else 1)
  }

  ghost predicate IsWork<Db, R, F>(step: Step<Db, R, F>)
  {
    step.Send? || step.Take? || step.Run? || step.Finish? || step.Drop? || step.Exit?
  }

  /**
   Once the master sender is gone, draining cannot deadlock and cannot go on for ever: every step of a
   caller or of the worker uses up some of the work left, every other step adds none, and as long as
   the thread is alive some such step can be taken.
   */
  lemma DrainingTerminates<Db, R, F>(s: State<Db, R, F>, step: Step<Db, R, F>)
    requires Inv(s) && !s.gate.master && Enabled(s, step)
    ensures IsWork(step) ==> WorkLeft(Apply(s, step)) < WorkLeft(s)
    ensures !IsWork(step) ==> WorkLeft(Apply(s, step)) == WorkLeft(s)
  {
    var t := Apply(s, step);
    if step.Begin? || step.Send? || step.Finish? || step.Drop? || step.SendFails? {
      Recount(s.calls, step.c, t.calls[step.c]);
    } else if step.Run? {
      RunUsesWork(s);
    }
  }

  lemma RunUsesWork<Db, R, F>(s: State<Db, R, F>)
    requires Inv(s) && Enabled(s, Step<Db, R, F>.Run)
    ensures WorkLeft(Apply(s, Step<Db, R, F>.Run)) < WorkLeft(s)
  {
    var t := Apply(s, Step<Db, R, F>.Run);
    if t.calls != s.calls {
      var c := s.pipe.hand.value.call;
      Recount(s.calls, c, t.calls[c]);
    }
  }

  /** Rewriting one call moves only that call between the two counts. */
  lemma Recount<Db, R, F>(calls: Calls<Db, R, F>, c: nat, call: Call<Db, R, F>)
    ensures Senders(calls[c := call]) == if call.phase.Sending? then Senders(calls) + {c} else Senders(calls) - {c}
    ensures Awaiting(calls[c := call])
         == if call.phase.Waiting? || call.phase.Replied? then Awaiting(calls) + {c} else Awaiting(calls) - {c}
  {
  }

  ghost function WorkIn<Db, R, F>(steps: seq<Step<Db, R, F>>, m: nat, n: nat): nat
    requires m <= n <= |steps|
  {
    if m == n then 0 else WorkIn(steps, m, n - 1) + (if IsWork(steps[n - 1]) then 1 else 0)
  }

  lemma DrainingStep<Db, R, F>(run: seq<State<Db, R, F>>, steps: seq<Step<Db, R, F>>, k: nat)
    requires IsRun(run, steps) && k < |steps| && !run[k].gate.master
    ensures !run[k + 1].gate.master
    ensures WorkLeft(run[k + 1]) + (if IsWork(steps[k]) then 1 else 0) <= WorkLeft(run[k])
  {
    InvHolds(run, steps, k);
    DrainingTerminates(run[k], steps[k]);
  }

  /** From the moment the sender is cleared, a run has room for at most `WorkLeft` more working steps. */
  lemma {:induction false} DrainingIsBounded<Db, R, F>(run: seq<State<Db, R, F>>, steps: seq<Step<Db, R, F>>, m: nat,
                                                       n: nat)
    requires IsRun(run, steps) && m <= n < |run| && !run[m].gate.master
    ensures !run[n].gate.master && WorkIn(steps, m, n) + WorkLeft(run[n]) <= WorkLeft(run[m])
    decreases n
  {
    if m < n {
      DrainingIsBounded(run, steps, m, n - 1);
      DrainingStep(run, steps, n - 1);
    }
  }

  lemma DrainingIsLive<Db, R, F>(s: State<Db, R, F>)
    requires Inv(s) && !s.gate.master && !s.gate.stopped
    ensures exists step: Step<Db, R, F> :: Enabled(s, step) && IsWork(step) && !step.Drop?
  {
    if s.pipe.hand.Some? {
      assert Enabled(s, Step<Db, R, F>.Run) && IsWork(Step<Db, R, F>.Run);
    } else if s.pipe.queue != [] {
      assert Enabled(s, Step<Db, R, F>.Take) && IsWork(Step<Db, R, F>.Take);
    } else if c :| c in s.calls && HoldsSender(s.calls[c].phase) {
      assert CallOk(s.pipe, c, s.calls[c]);
      if s.calls[c].phase.Sending? {
        assert Enabled(s, Step<Db, R, F>.Send(c)) && IsWork(Step<Db, R, F>.Send(c));
      } else {
        assert Enabled(s, Step<Db, R, F>.Finish(c)) && IsWork(Step<Db, R, F>.Finish(c));
      }
    } else {
      assert Enabled(s, Step<Db, R, F>.Exit) && IsWork(Step<Db, R, F>.Exit);
    }
  }

  /** At any time, whoever has a closure under way can get on, or the worker can. */
  lemma ServiceIsLive<Db, R, F>(s: State<Db, R, F>)
    requires Inv(s) && !NoSender(s.calls)
    ensures exists step: Step<Db, R, F> :: Enabled(s, step) && IsWork(step) && !step.Drop?
  {
    var c :| c in s.calls && HoldsSender(s.calls[c].phase);
    assert CallOk(s.pipe, c, s.calls[c]);
    if s.pipe.hand.Some? {
      assert Enabled(s, Step<Db, R, F>.Run) && IsWork(Step<Db, R, F>.Run);
    } else if s.pipe.queue != [] {
      assert Enabled(s, Step<Db, R, F>.Take) && IsWork(Step<Db, R, F>.Take);
    } else if s.calls[c].phase.Sending? {
      assert Enabled(s, Step<Db, R, F>.Send(c)) && IsWork(Step<Db, R, F>.Send(c));
    } else {
      assert Enabled(s, Step<Db, R, F>.Finish(c)) && IsWork(Step<Db, R, F>.Finish(c));
    }
  }

  // ---------------------------------------------------------------- the worker thread itself

  ghost function Replies<Db, R, F>(init: Db, jobs: seq<Job<Db, R, F>>): (r: seq<Option<R>>)
    ensures |r| == |jobs| && forall k :: 0 <= k < |jobs| ==> r[k] == ReplyOf(init, jobs, k)
  {
    seq(|jobs|, k requires 0 <= k < |jobs| => ReplyOf(init, jobs, k))
  }

  lemma RunOne<Db, R, F>(init: Db, jobs: seq<Job<Db, R, F>>, i: nat)
    requires i < |jobs|
    ensures var outcome := jobs[i].op.run(StateAfter(init, jobs[..i]));
      StateAfter(init, jobs[..i + 1]) == outcome.db && ReplyOf(init, jobs, i) == Reply(outcome)
  {
    assert jobs[..i] + [jobs[i]] == jobs[..i + 1];
    StateAfterPush(init, jobs[..i], jobs[i]);
  }

  /** The thread that owns the database: it takes closures in order and survives the ones that panic. */
  class DbThread<Db(!new), R(!new), F(!new)> {
    var db: Db

    constructor (db: Db)
      ensures this.db == db
    {
      this.db := db;
    }

    /** The receive loop over everything the queue delivers before the last sender is dropped. */
    method Serve(jobs: seq<Job<Db, R, F>>) returns (replies: seq<Option<R>>)
      modifies this
      ensures db == StateAfter(old(db), jobs)
      ensures |replies| == |jobs| && forall k :: 0 <= k < |jobs| ==> replies[k] == ReplyOf(old(db), jobs, k)
    {
      replies := [];
      ghost var init := db;
      for i := 0 to |jobs|
        invariant db == StateAfter(init, jobs[..i])
        invariant replies == Replies(init, jobs)[..i]
      {
        RunOne(init, jobs, i);
        assert Replies(init, jobs)[..i + 1] == Replies(init, jobs)[..i] + [ReplyOf(init, jobs, i)];
        var outcome := jobs[i].op.run(db);
        db := outcome.db;
        replies := replies + [if outcome.Returned? then Some(outcome.reply) else None];
      }
      assert jobs[..|jobs|] == jobs;
    }
  }
}
