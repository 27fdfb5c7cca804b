/**
 Compactions that overlap. The server spawns one after each turn, outside the agent's lock, and each takes
 the stored summary, then a batch, then asks the model, and only then deletes and stores; so a slow one can
 land after a faster one that began later.
 */
module CompactionRaces {
  import opened Prelude
  import opened Compaction
  import opened CompactionClock

  /**
   One compaction under way. `base` is what the summary it took was made from, `gone` what had been deleted
   by then; `shown` is the batch it was shown, `before` what had been deleted when it read it.
   */
  datatype Flight =
    | Begun(base: set<Message>, gone: set<Message>)
    | Ready(through: nat, base: set<Message>, shown: set<Message>, gone: set<Message>, before: set<Message>)
  {
    /** What its summary will have been made from. */
    function Seen(): set<Message>
      requires Ready?
    {
      base + shown
    }
  }

  /** `covered` is what the stored summary was made from, directly or through the summaries before it. */
  datatype Room = Room(messages: set<Message>, deleted: set<Message>, covered: set<Message>, flights: map<nat, Flight>)

  datatype Step =
    | Write(m: Message) | Begin(c: nat)
    | Read(c: nat, through: nat, shown: set<Message>)
    | Land(c: nat) | GiveUp(c: nat)

  ghost predicate Enabled(s: Room, step: Step)
  {
    match step
    case Write(m) => forall x :: x in s.messages + s.deleted ==> x.id < m.id
    case Begin(c) => c !in s.flights
    case Read(c, through, shown) =>
      c in s.flights && s.flights[c].Begun? && exists x :: x in s.messages && x.id == through
    case Land(c) => c in s.flights && s.flights[c].Ready?
    case GiveUp(c) => c in s.flights
  }

  ghost function Taken(s: Room, through: nat): set<Message>
  {
    set m | m in s.messages && m.id <= through
  }

  ghost function Apply(s: Room, step: Step): Room
    requires Enabled(s, step)
  {
    match step
    case Write(m) => s.(messages := s.messages + {m})
    case Begin(c) => s.(flights := s.flights[c := Begun(s.covered, s.deleted)])
    case Read(c, through, shown) =>
      var f := s.flights[c];
      s.(flights := s.flights[c := Ready(through, f.base, shown, f.gone, s.deleted)])
    case Land(c) =>
      var f := s.flights[c];
      Room(s.messages - Taken(s, f.through), s.deleted + Taken(s, f.through), f.Seen(), s.flights - {c})
    case GiveUp(c) => s.(flights := s.flights - {c})
  }

  const START: Room := Room({}, {}, {}, map[])

  ghost predicate IsRun(run: seq<Room>, steps: seq<Step>)
  {
    && |run| == |steps| + 1 && run[0] == START
    && forall i :: 0 <= i < |steps| ==> Enabled(run[i], steps[i]) && run[i + 1] == Apply(run[i], steps[i])
  }

  /** Every deleted message is in what the stored summary was made from. */
  ghost predicate NothingForgotten(s: Room)
  {
    s.deleted <= s.covered
  }

  /** Every row the batch will delete was shown. */
  ghost predicate Faithful(s: Room, step: Step)
  {
    step.Read? ==> Taken(s, step.through) <= step.shown
  }

  /** A batch that fits the prompt and cuts cleanly is what makes a read faithful, and nothing else does. */
  lemma FaithfulExactly(ms: seq<Message>, n: nat, s: Room, c: nat)
    requires ById(ms) && |ms| > CONTEXT_WINDOW && IsLongestFit(Batch(ms), n) && s.messages == Elements(ms)
    ensures Faithful(s, Read(c, Through(ms), Elements(Batch(ms)[..n])))
      <==> |Transcript(Batch(ms))| <= MAX_COMPACTION_INPUT_CHARS && CutsCleanly(ms)
  {
    NothingUnsummarisedExactly(ms, n);
    forall m ensures m in Taken(s, Through(ms)) <==> m in UpTo(ms, Through(ms)) { UpToHas(ms, Through(ms), m); }
  }

  ghost predicate AllFaithful(run: seq<Room>, steps: seq<Step>)
    requires |run| == |steps| + 1
  {
    forall i :: 0 <= i < |steps| ==> Faithful(run[i], steps[i])
  }

  /** Nothing was deleted behind this compaction's back that it has not seen itself. */
  ghost predicate NotOvertaken(s: Room, step: Step)
  {
    step.Land? && step.c in s.flights && s.flights[step.c].Ready? ==>
      s.deleted - s.flights[step.c].gone <= s.flights[step.c].Seen()
  }

  // ---------------------------------------------------------------- what every run keeps

  ghost predicate FlightOk(s: Room, f: Flight)
  {
    match f
    case Begun(base, gone) => gone <= base
    case Ready(through, base, shown, gone, _) =>
      gone <= base + shown && Taken(s, through) <= shown && exists x :: x in s.messages + s.deleted && x.id == through
  }

  ghost predicate FlightsOk(s: Room)
  {
    forall c :: c in s.flights ==> FlightOk(s, s.flights[c])
  }

  lemma FlightsStep(s: Room, step: Step)
    requires FlightsOk(s) && NothingForgotten(s) && Enabled(s, step) && Faithful(s, step)
    ensures FlightsOk(Apply(s, step))
  {
    var t := Apply(s, step);
    forall c | c in t.flights ensures FlightOk(t, t.flights[c]) {
      if c in s.flights && t.flights[c] == s.flights[c] { FlightStays(s, step, s.flights[c]); }
    }
  }

  lemma FlightStays(s: Room, step: Step, f: Flight)
    requires FlightOk(s, f) && Enabled(s, step)
    ensures FlightOk(Apply(s, step), f)
  {
    if f.Ready? {
      var t := Apply(s, step);
      var x :| x in s.messages + s.deleted && x.id == f.through;
      assert x in t.messages + t.deleted && (step.Write? ==> x.id < step.m.id);
      assert Taken(t, f.through) <= Taken(s, f.through);
    }
  }

  /**
   At one landing: if nothing is forgotten before it, nothing is forgotten after it if and only if the
   compaction was not overtaken.
   */
  lemma StepForgetsExactly(s: Room, step: Step)
    requires FlightsOk(s) && NothingForgotten(s) && Enabled(s, step)
    ensures NothingForgotten(Apply(s, step)) <==> NotOvertaken(s, step)
  {
    if step.Land? { assert FlightOk(s, s.flights[step.c]); }
  }

  /**
   Over every run of overlapping compactions whose batches were shown in full: no state ever forgets a
   deleted message if and only if no compaction lands after another one deleted something it had not seen.
   */
  lemma {:induction false} NeverForgetsExactly(run: seq<Room>, steps: seq<Step>)
    requires IsRun(run, steps) && AllFaithful(run, steps)
    ensures NeverForgets(run) <==> NeverOvertaken(run, steps)
    ensures NeverForgets(run) ==> FlightsOk(run[|steps|])
    decreases |steps|
  {
    if steps != [] {
      var n := |steps| - 1;
      var r, q := run[..n + 1], steps[..n];
      assert run == r + [run[n + 1]] && steps == q + [steps[n]];
      NeverForgetsExactly(r, q);
      LastStep(r, q, run[n + 1], steps[n]);
      if NeverForgets(r) {
        assert NothingForgotten(r[n]);
        StepForgetsExactly(r[n], steps[n]);
        FlightsStep(r[n], steps[n]);
      }
    }
  }

  ghost predicate NeverForgets(run: seq<Room>)
  {
    forall i :: 0 <= i < |run| ==> NothingForgotten(run[i])
  }

  ghost predicate NeverOvertaken(run: seq<Room>, steps: seq<Step>)
    requires |run| == |steps| + 1
  {
    forall i :: 0 <= i < |steps| ==> NotOvertaken(run[i], steps[i])
  }

  lemma LastStep(r: seq<Room>, q: seq<Step>, last: Room, step: Step)
    requires |r| == |q| + 1
    ensures NeverForgets(r + [last]) <==> NeverForgets(r) && NothingForgotten(last)
    ensures NeverOvertaken(r + [last], q + [step]) <==> NeverOvertaken(r, q) && NotOvertaken(r[|q|], step)
  {
    var run, steps := r + [last], q + [step];
    assert forall i :: 0 <= i < |r| ==> run[i] == r[i];
    assert run[|r|] == last && steps[|q|] == step;
    assert forall i :: 0 <= i < |q| ==> steps[i] == q[i];
  }

  // ---------------------------------------------------------------- in terms of the schedule

  /** What was shown is what the batch will delete, no more and no less, as with a clock that never steps back. */
  ghost predicate Exact(s: Room, step: Step)
  {
    step.Read? ==> step.shown == Taken(s, step.through)
  }

  ghost predicate AllExact(run: seq<Room>, steps: seq<Step>)
    requires |run| == |steps| + 1
  {
    forall i :: 0 <= i < |steps| ==> Exact(run[i], steps[i])
  }

  /**
   Nothing was deleted between a compaction's taking the summary and its reading the batch, and nothing but
   what it was shown between that and its landing.
   */
  ghost predicate OnTime(s: Room, step: Step)
  {
    step.Land? && step.c in s.flights && s.flights[step.c].Ready? ==>
      var f := s.flights[step.c]; f.before == f.gone && s.deleted - f.before <= f.shown
  }

  ghost predicate AllOnTime(run: seq<Room>, steps: seq<Step>)
    requires |run| == |steps| + 1
  {
    forall i :: 0 <= i < |steps| ==> OnTime(run[i], steps[i])
  }

  ghost predicate TightFlight(s: Room, f: Flight)
  {
    && f.base <= f.gone <= s.deleted
    && (f.Ready? ==>
          && f.gone <= f.before <= s.deleted && f.shown !! f.before && f.shown <= s.messages + s.deleted
          && forall m :: m in f.shown ==> m.id <= f.through)
  }

  /** Where every read is exact, the stored summary is made of deleted messages only. */
  ghost predicate Tight(s: Room)
  {
    s.messages !! s.deleted && s.covered <= s.deleted && forall c :: c in s.flights ==> TightFlight(s, s.flights[c])
  }

  lemma TightFlightStays(s: Room, step: Step, f: Flight)
    requires TightFlight(s, f) && Enabled(s, step)
    ensures TightFlight(Apply(s, step), f)
  {
    var t := Apply(s, step);
    assert s.deleted <= t.deleted && s.messages + s.deleted <= t.messages + t.deleted;
  }

  lemma LandsTight(s: Room, c: nat)
    requires Tight(s) && Enabled(s, Land(c))
    ensures var t := Apply(s, Land(c)); t.messages !! t.deleted && t.covered <= t.deleted
  {
    var f := s.flights[c];
    assert TightFlight(s, f);
    assert forall m :: m in f.shown && m in s.messages ==> m in Taken(s, f.through);
  }

  lemma WritesTight(s: Room, m: Message)
    requires Tight(s) && Enabled(s, Write(m))
    ensures var t := Apply(s, Write(m)); t.messages !! t.deleted && t.covered <= t.deleted
  {
    assert forall x :: x in s.messages + s.deleted ==> x.id < m.id;
    assert m !in s.messages + s.deleted;
  }

  lemma ReadsTight(s: Room, step: Step)
    requires Tight(s) && Enabled(s, step) && Exact(s, step) && step.Read?
    ensures TightFlight(Apply(s, step), Apply(s, step).flights[step.c])
  {
    assert TightFlight(s, s.flights[step.c]);
  }

  lemma TightStep(s: Room, step: Step)
    requires Tight(s) && Enabled(s, step) && Exact(s, step)
    ensures Tight(Apply(s, step))
  {
    var t := Apply(s, step);
    match step
    case Write(m) => WritesTight(s, m);
    case Land(c) => LandsTight(s, c);
    case Read(_, _, _) => ReadsTight(s, step);
    case _ =>
    forall c | c in t.flights ensures TightFlight(t, t.flights[c]) {
      if c in s.flights && t.flights[c] == s.flights[c] { TightFlightStays(s, step, s.flights[c]); }
    }
  }

  lemma {:induction false} TightHolds(run: seq<Room>, steps: seq<Step>, n: nat)
    requires IsRun(run, steps) && AllExact(run, steps) && n < |run|
    ensures Tight(run[n])
  {
    if n > 0 {
      TightHolds(run, steps, n - 1);
      TightStep(run[n - 1], steps[n - 1]);
    }
  }

  lemma OnTimeExactly(s: Room, step: Step)
    requires Tight(s)
    ensures NotOvertaken(s, step) <==> OnTime(s, step)
  {
    if step.Land? && step.c in s.flights && s.flights[step.c].Ready? {
      var f := s.flights[step.c];
      assert TightFlight(s, f);
      assert f.before - f.gone <= s.deleted - f.gone;
    }
  }

  /**
   The same as a condition on the schedule: no deleted message is ever forgotten if and only if each
   compaction that lands took its summary and read its batch without a landing in between that deleted
   anything, and was overtaken afterwards only by deletions of what it had been shown.
   */
  lemma NeverForgetsOnSchedule(run: seq<Room>, steps: seq<Step>)
    requires IsRun(run, steps) && AllExact(run, steps)
    ensures NeverForgets(run) <==> AllOnTime(run, steps)
  {
    assert AllFaithful(run, steps);
    NeverForgetsExactly(run, steps);
    forall i | 0 <= i < |steps| ensures NotOvertaken(run[i], steps[i]) <==> OnTime(run[i], steps[i]) {
      TightHolds(run, steps, i);
      OnTimeExactly(run[i], steps[i]);
    }
  }

  // ---------------------------------------------------------------- a race

  /** What is there when a slow compaction of fifty-one messages and a fast one of fifty-two have both read. */
  ghost function Racing(ms: seq<Message>): Room
    requires |ms| == 52
  {
    Room(Elements(ms), {}, {},
         map[1 := Ready(31, {}, Elements(ms[..31]), {}, {}), 2 := Ready(32, {}, Elements(ms[..32]), {}, {})])
  }

  /** Some run comes here in which every compaction was shown exactly what it will delete. */
  ghost predicate Reachable(s: Room)
  {
    exists run, steps :: IsRun(run, steps) && AllExact(run, steps) && run[|steps|] == s
  }

  lemma ReachStep(s: Room, step: Step)
    requires Reachable(s) && Enabled(s, step) && Exact(s, step)
    ensures Reachable(Apply(s, step))
  {
    var run, steps :| IsRun(run, steps) && AllExact(run, steps) && run[|steps|] == s;
    var r, q := run + [Apply(s, step)], steps + [step];
    assert IsRun(r, q) && AllExact(r, q) && r[|q|] == Apply(s, step);
  }

  lemma {:induction false} WritesReach(n: nat)
    ensures Reachable(Room(Elements(Empties(n)), {}, {}, map[]))
  {
    if n == 0 {
      assert Elements(Empties(0)) == {};
      assert IsRun([START], []) && AllExact([START], []);
    } else {
      var s, m := Room(Elements(Empties(n - 1)), {}, {}, map[]), Empties(n)[n - 1];
      WritesReach(n - 1);
      assert Empties(n) == Empties(n - 1) + [m];
      ReachStep(s, Write(m));
      assert Apply(s, Write(m)).messages == Elements(Empties(n));
    }
  }

  /** A compaction of messages that all came within one second begins and reads its batch at once. */
  lemma BeginAndRead(s: Room, c: nat, ms: seq<Message>, through: nat, shown: set<Message>)
    requires Reachable(s) && c !in s.flights && |ms| > COMPACTION_THRESHOLD && s.messages == Elements(ms)
    requires ById(ms) && ClockAdvances(ms) && through == Through(ms) && shown == Elements(Batch(ms))
    ensures Reachable(s.(flights := s.flights[c := Ready(through, s.covered, shown, s.deleted, s.deleted)]))
  {
    ReachStep(s, Begin(c));
    var t, step := Apply(s, Begin(c)), Read(c, through, shown);
    SteadyReadIsExact(t, ms, c);
    LastOfBatchIsHeld(ms);
    assert Batch(ms)[|Batch(ms)| - 1] in t.messages;
    ReachStep(t, step);
    assert Apply(t, step).flights == s.flights[c := Ready(through, s.covered, shown, s.deleted, s.deleted)];
  }

  /** With a clock that never steps back, a batch shown in full is shown exactly. */
  lemma SteadyReadIsExact(s: Room, ms: seq<Message>, c: nat)
    requires ById(ms) && ClockAdvances(ms) && |ms| > CONTEXT_WINDOW && s.messages == Elements(ms)
    ensures Exact(s, Read(c, Through(ms), Elements(Batch(ms))))
  {
    CompactsExactly(ms);
    forall m ensures m in Taken(s, Through(ms)) <==> m in Batch(ms) { UpToHas(ms, Through(ms), m); }
  }

  lemma RacingReads(ms: seq<Message>)
    requires ms == Empties(52)
    ensures Batch(ms[..51]) == ms[..31] && Through(ms[..51]) == 31 && Batch(ms) == ms[..32] && Through(ms) == 32
  {
    BatchExactly(ms[..51]);
    BatchExactly(ms);
    assert ms[..51][..31] == ms[..31];
  }

  lemma RacingIsReachable(ms: seq<Message>)
    requires ms == Empties(52)
    ensures Reachable(Racing(ms))
  {
    var first := ms[..51];
    assert first == Empties(51) && ms == first + [ms[51]];
    RacingReads(ms);
    WritesReach(51);
    BothRead(ms, first, Elements(ms[..31]), Elements(ms[..32]));
  }

  lemma BothRead(ms: seq<Message>, first: seq<Message>, slow: set<Message>, fast: set<Message>)
    requires |ms| == 52 && first == ms[..51] && ById(ms) && ClockAdvances(ms)
    requires Reachable(Room(Elements(first), {}, {}, map[]))
    requires slow == Elements(Batch(first)) && fast == Elements(Batch(ms)) && Through(first) == 31 && Through(ms) == 32
    ensures Reachable(Room(Elements(ms), {}, {},
                           map[1 := Ready(31, {}, slow, {}, {}), 2 := Ready(32, {}, fast, {}, {})]))
  {
    var s0 := Room(Elements(first), {}, {}, map[]);
    var one := map[1 := Ready(31, {}, slow, {}, {})];
    BeginAndRead(s0, 1, first, 31, slow);
    assert s0.flights[1 := Ready(31, {}, slow, {}, {})] == one;
    var s1 := s0.(flights := one);
    WriteLast(s1, ms, first);
    var s2 := s1.(messages := Elements(ms));
    BeginAndRead(s2, 2, ms, 32, fast);
    var both := map[1 := Ready(31, {}, slow, {}, {}), 2 := Ready(32, {}, fast, {}, {})];
    assert one[2 := Ready(32, {}, fast, {}, {})] == both;
  }

  lemma WriteLast(s: Room, ms: seq<Message>, first: seq<Message>)
    requires |ms| == 52 && first == ms[..51] && ById(ms)
    requires Reachable(s) && s.messages == Elements(first) && s.deleted == {}
    ensures Reachable(s.(messages := Elements(ms)))
  {
    assert ms == first + [ms[51]];
    forall x | x in s.messages + s.deleted ensures x.id < ms[51].id {
      var i :| 0 <= i < 51 && first[i] == x;
      assert ms[i] == x;
    }
    ReachStep(s, Write(ms[51]));
    assert s.messages + {ms[51]} == Elements(ms);
  }

  /** The fast one lands, then the slow one: the thirty-second message is deleted and in no summary. */
  lemma SlowLandingForgets(ms: seq<Message>)
    requires ms == Empties(52)
    ensures var s := Racing(ms);
      Enabled(s, Land(2)) && NothingForgotten(Apply(s, Land(2))) && Enabled(Apply(s, Land(2)), Land(1))
    ensures var u := Apply(Apply(Racing(ms), Land(2)), Land(1));
      ms[31] in u.deleted && ms[31] !in u.covered
  {
    var s := Racing(ms);
    assert ms[31] in s.messages;
    forall m | m in Taken(s, 32) ensures m in ms[..32] {
      var i :| 0 <= i < 52 && ms[i] == m;
      assert ms[..32][i] == m;
    }
    assert forall i :: 0 <= i < 31 ==> ms[..31][i].id <= 31;
  }
}
