/**
 Whole runs of turns: messages arrive, the ceremony or the hand-off is resolved, the agent may write a
 deposition, replies are added, and a compaction may follow. Everything the environment decides is free.
 */
module HandsoffRuns {
  import opened Prelude
  import opened Compaction
  import opened CompactionClock
  import opened Handsoff

  datatype World = World(messages: seq<Message>, files: set<string>)

  /**
   `arrivals` are stored before the count is taken, `replies` after it, `late` ones after the compaction that
   follows. A turn whose message could not be stored has no arrivals. Compactions land in two places: the
   server spawns one after each turn without holding on to it, so one of an earlier turn may land between
   the arrivals and the count (`early`); the command line runs its own at the end of the turn (`compacted`).
   Each is given by the number of messages it had found. `counted`, `lists` and `writes` say whether the
   count, the listing and the receipt succeeded; `hidden` receipts cannot be probed; `removed` files are
   taken away by hand.
   */
  datatype Turn = Turn(
    arrivals: seq<Message>, early: Option<nat>, counted: bool, lists: bool, hidden: set<string>, writes: bool,
    deposit: Option<string>, removed: set<string>, replies: seq<Message>, compacted: Option<nat>, late: seq<Message>,
    imminent: bool, served: Option<string>)

  /** The threshold in force, and what a compaction leaves of the messages it finds. */
  datatype Setting = Setting(pct: nat, condense: seq<Message> -> seq<Message>)

  /** A compaction that found the first so many messages, with something outside the window, goes through. */
  predicate Lands(ms: seq<Message>, found: Option<nat>)
  {
    found.Some? && CONTEXT_WINDOW < found.value <= |ms|
  }

  /** What was stored after it read is not touched. */
  function Landed(rule: Setting, ms: seq<Message>, found: Option<nat>): seq<Message>
  {
    if Lands(ms, found) then rule.condense(ms[..found.value]) + ms[found.value..] else ms
  }

  /** However a compaction condenses what it read, all that was stored since is still there, last and in order. */
  lemma LateMessagesStay(rule: Setting, ms: seq<Message>, found: Option<nat>)
    requires found.Some? && CONTEXT_WINDOW < found.value <= |ms|
    ensures var after := Landed(rule, ms, found);
      |after| >= |ms| - found.value && after[|after| - (|ms| - found.value)..] == ms[found.value..]
  {
  }

  function Arrived(w: World, t: Turn): seq<Message>
  {
    w.messages + t.arrivals
  }

  /** What the count counts. */
  function Counted(rule: Setting, w: World, t: Turn): seq<Message>
  {
    Landed(rule, Arrived(w, t), t.early)
  }

  function Stored(rule: Setting, w: World, t: Turn): seq<Message>
  {
    Counted(rule, w, t) + t.replies
  }

  function Deposited(files: set<string>, deposit: Option<string>): set<string>
  {
    if deposit.Some? then files + {deposit.value} else files
  }

  ghost predicate Step(rule: Setting, w: World, t: Turn, next: World)
  {
    && ById(Arrived(w, t)) && ById(Stored(rule, w, t) + t.late)
    && (t.imminent <==> t.counted && CeremonyDue(|Counted(rule, w, t)|, rule.pct))
    && (if t.imminent || !t.lists then t.served.None? else NewestUnread(w.files, t.hidden, t.served))
    && (t.deposit.Some? ==> IsHandsoff(t.deposit.value))
    && next.files == Deposited(AfterServing(w.files, t.served, t.writes), t.deposit) - t.removed
    && next.messages == Landed(rule, Stored(rule, w, t), t.compacted) + t.late
  }

  ghost predicate IsRun(rule: Setting, worlds: seq<World>, turns: seq<Turn>)
  {
    |worlds| == |turns| + 1 && forall i :: 0 <= i < |turns| ==> Step(rule, worlds[i], turns[i], worlds[i + 1])
  }

  // ---------------------------------------------------------------- one turn

  /** The two are exclusive: a turn that bears witness serves nothing and lays no receipt. */
  lemma ImminentConsumesNothing(rule: Setting, w: World, t: Turn, next: World)
    requires Step(rule, w, t, next) && t.imminent
    ensures t.served.None?
    ensures forall name :: Receipt(name) in next.files ==> Receipt(name) in w.files
  {
    forall name | Receipt(name) in next.files ensures Receipt(name) in w.files { OnlyDepositionsAreDepositions(name); }
  }

  /** Nothing hinders the reading: the listing succeeds, the receipts are seen, written and left in place. */
  ghost predicate Orderly(t: Turn)
  {
    t.lists && t.hidden == {} && t.writes && t.removed == {}
  }

  // ---------------------------------------------------------------- at most once

  lemma {:induction false} ReceiptVanishes(rule: Setting, worlds: seq<World>, turns: seq<Turn>, i: nat, j: nat,
                                           name: string)
    returns (k: nat)
    requires IsRun(rule, worlds, turns) && i <= j < |worlds|
    requires Receipt(name) in worlds[i].files && Receipt(name) !in worlds[j].files
    ensures i <= k < j && Receipt(name) in turns[k].removed
    decreases j - i
  {
    assert Step(rule, worlds[i], turns[i], worlds[i + 1]);
    if Receipt(name) in worlds[i + 1].files {
      k := ReceiptVanishes(rule, worlds, turns, i + 1, j, name);
    } else {
      k := i;
    }
  }

  /** Why a deposition served at turn `i` could be served again at turn `j`. */
  ghost predicate ReceiptLost(turns: seq<Turn>, i: nat, j: nat, name: string)
    requires i < j < |turns|
  {
    !turns[i].writes || Receipt(name) in turns[j].hidden || exists k :: i <= k < j && Receipt(name) in turns[k].removed
  }

  /**
   Over every run, whatever else fails in it: a deposition is served a second time only if its receipt was
   not written the first time, cannot be probed the second time, or was removed in between.
   */
  lemma ServedAgainExplained(rule: Setting, worlds: seq<World>, turns: seq<Turn>, i: nat, j: nat)
    requires IsRun(rule, worlds, turns) && i < j < |turns| && turns[i].served.Some?
      && turns[j].served == turns[i].served
    ensures ReceiptLost(turns, i, j, turns[i].served.value)
  {
    var name := turns[i].served.value;
    assert Step(rule, worlds[i], turns[i], worlds[i + 1]) && Step(rule, worlds[j], turns[j], worlds[j + 1]);
    assert Unread(worlds[j].files, turns[j].hidden, name);
    if turns[i].writes && Receipt(name) !in turns[j].hidden && Receipt(name) !in turns[i].removed {
      assert Receipt(name) in worlds[i + 1].files;
      var k := ReceiptVanishes(rule, worlds, turns, i + 1, j, name);
    }
  }

  /** So over every run in which receipts are written, seen and left in place, each is served at most once. */
  lemma ServedAtMostOnce(rule: Setting, worlds: seq<World>, turns: seq<Turn>, i: nat, j: nat)
    requires IsRun(rule, worlds, turns) && i < j < |turns| && turns[i].served.Some?
    requires !ReceiptLost(turns, i, j, turns[i].served.value)
    ensures turns[j].served != turns[i].served
  {
    if turns[j].served == turns[i].served { ServedAgainExplained(rule, worlds, turns, i, j); }
  }

  /** A receipt that was not written: unless something newer arrived, the same deposition comes again. */
  lemma UnwrittenReceiptServesAgain(rule: Setting, w: World, t: Turn, next: World, again: Turn, after: World)
    requires Step(rule, w, t, next) && Step(rule, next, again, after)
    requires t.served.Some? && !t.writes && t.deposit.None? && t.hidden == {} && t.removed == {}
    requires !again.imminent && again.lists && again.hidden == {}
    ensures again.served == t.served
  {
    assert next.files == w.files;
    NewestIsUnique(w.files, {}, t.served, again.served);
  }

  // ---------------------------------------------------------------- draining

  ghost function Pending(files: set<string>): set<string>
  {
    set name | name in files && Unread(files, {}, name)
  }

  ghost predicate Quiet(t: Turn)
  {
    Orderly(t) && t.deposit.None?
  }

  /** One quiet turn takes the greatest pending deposition off, or finds none pending, or is imminent. */
  lemma QuietTurn(rule: Setting, w: World, t: Turn, next: World)
    requires Step(rule, w, t, next) && Quiet(t)
    ensures t.served.None? ==> next.files == w.files && (t.imminent || Pending(w.files) == {})
    ensures t.served.Some? ==>
      && t.served.value in Pending(w.files) && Pending(next.files) == Pending(w.files) - {t.served.value}
      && forall name :: name in Pending(next.files) ==> Less(name, t.served.value)
  {
    if t.served.Some? {
      var name := t.served.value;
      assert next.files == w.files + {Receipt(name)};
      OnlyDepositionsAreDepositions(name);
      forall x ensures x in Pending(next.files) <==> x in Pending(w.files) && x != name {
        if Receipt(x) == Receipt(name) { ReceiptIsOwn(x, name); }
      }
    }
  }

  function Open(turns: seq<Turn>): nat
  {
    if turns == [] then 0 else Open(turns[..|turns| - 1]) + if turns[|turns| - 1].imminent then 0 else 1
  }

  function Servings(turns: seq<Turn>): seq<string>
  {
    if turns == [] then []
    else Servings(turns[..|turns| - 1]) + if turns[|turns| - 1].served.Some? then [turns[|turns| - 1].served.value]
      else []
  }

  ghost predicate Downwards(names: seq<string>)
  {
    forall i, j :: 0 <= i < j < |names| ==> Less(names[j], names[i])
  }

  /** What the servings of a quiet run and what is left have to do with what was pending when it began. */
  ghost predicate Drains(before: set<string>, served: seq<string>, after: set<string>, open: nat)
  {
    && (forall x :: x in before <==> x in served || x in after)
    && (forall i :: 0 <= i < |served| ==> served[i] !in after && forall x :: x in after ==> Less(x, served[i]))
    && Downwards(served)
    && |before| == |served| + |after|
    && |served| == if open < |before| then open else |before|
  }

  /**
   Over every quiet run the depositions pending at its beginning are served newest first, one in each turn
   that is not imminent, until none is left: N of them take exactly N such turns.
   */
  lemma {:induction false} DrainsExactly(rule: Setting, worlds: seq<World>, turns: seq<Turn>)
    requires IsRun(rule, worlds, turns) && forall k :: 0 <= k < |turns| ==> Quiet(turns[k])
    ensures Drains(Pending(worlds[0].files), Servings(turns), Pending(worlds[|turns|].files), Open(turns))
  {
    if turns != [] {
      var last := |turns| - 1;
      var shorter := turns[..last];
      assert IsRun(rule, worlds[..|worlds| - 1], shorter);
      DrainsExactly(rule, worlds[..|worlds| - 1], shorter);
      assert Step(rule, worlds[last], turns[last], worlds[last + 1]) && Quiet(turns[last]);
      QuietTurn(rule, worlds[last], turns[last], worlds[last + 1]);
      DrainStep(Pending(worlds[0].files), Servings(shorter), Pending(worlds[last].files), Open(shorter),
        turns[last], Pending(worlds[last + 1].files));
    }
  }

  lemma DrainStep(before: set<string>, served: seq<string>, after: set<string>, open: nat, t: Turn, next: set<string>)
    requires Drains(before, served, after, open)
    requires t.imminent ==> t.served.None?
    requires t.served.None? ==> next == after && (t.imminent || after == {})
    requires t.served.Some? ==>
      t.served.value in after && next == after - {t.served.value} && forall x :: x in next ==> Less(x, t.served.value)
    ensures Drains(before, served + (if t.served.Some? then [t.served.value]
      else []), next, open + if t.imminent then 0 else 1)
  {
  }

  /** At 85 per cent, a turn that begins below the threshold and overshoots it is compacted without a ceremony. */
  lemma CompactedWithoutCeremony(rule: Setting, w: World, t: Turn)
    requires rule.pct == DEFAULT_THRESHOLD_PCT && w == World(Empties(51)[..41], {})
    requires t == Turn([Empties(51)[41]], None, true, true, {}, true, None, {}, Empties(51)[42..], Some(51), [],
                       false, None)
    ensures Lands(Stored(rule, w, t), t.compacted) && Step(rule, w, t, World(rule.condense(Empties(51)), {}))
  {
    var all := Empties(51);
    assert Arrived(w, t) == all[..42] && Stored(rule, w, t) == all && all[..51] == all && all[51..] == [];
    assert all + [] == all && rule.condense(all) + [] + [] == rule.condense(all);
  }

  // ---------------------------------------------------------------- the author does not read back

  /**
   While no compaction goes through and no count fails, every turn after an imminent one is imminent too.
   So a deposition written at an imminent turn is not served before the conversation has been compacted.
   */
  lemma {:induction false} NotServedBeforeCompaction(rule: Setting, worlds: seq<World>, turns: seq<Turn>, i: nat,
                                                     j: nat)
    requires IsRun(rule, worlds, turns) && i <= j < |turns| && turns[i].imminent
    requires forall k :: i < k <= j ==> turns[k].counted && !Lands(Arrived(worlds[k], turns[k]), turns[k].early)
    requires forall k :: i <= k < j ==> !Lands(Stored(rule, worlds[k], turns[k]), turns[k].compacted)
    ensures turns[j].imminent && turns[j].served.None?
  {
    assert Step(rule, worlds[j], turns[j], worlds[j + 1]);
    if i < j {
      NotServedBeforeCompaction(rule, worlds, turns, i, j - 1);
      assert Step(rule, worlds[j - 1], turns[j - 1], worlds[j]);
      DueGrows(|Counted(rule, worlds[j - 1], turns[j - 1])|, |Counted(rule, worlds[j], turns[j])|, rule.pct);
    }
  }

  lemma DueGrows(a: nat, b: nat, pct: nat)
    requires CeremonyDue(a, pct) && a <= b
    ensures CeremonyDue(b, pct)
  {
  }

  // ---------------------------------------------------------------- settings that never serve

  /** The clock does not step back over what a compaction may find in this turn. */
  ghost predicate Steady(rule: Setting, w: World, t: Turn)
  {
    ClockAdvances(Arrived(w, t)) && ClockAdvances(Stored(rule, w, t))
  }

  /** Of messages whose stamps do not step back, a compaction leaves twenty at least. */
  ghost predicate KeepsTwenty(rule: Setting)
  {
    forall ms :: ById(ms) && ClockAdvances(ms) && |ms| > CONTEXT_WINDOW ==> |rule.condense(ms)| >= CONTEXT_WINDOW
  }

  lemma LandedKeepsTwenty(rule: Setting, ms: seq<Message>, found: Option<nat>)
    requires KeepsTwenty(rule) && ById(ms) && ClockAdvances(ms)
    ensures |Landed(rule, ms, found)| >= |ms| || |Landed(rule, ms, found)| >= CONTEXT_WINDOW
  {
    if Lands(ms, found) {
      var read := ms[..found.value];
      assert forall i :: 0 <= i < |read| ==> read[i] == ms[i];
      assert ById(read) && ClockAdvances(read);
    }
  }

  /** With a steady clock a turn counts what there was and what arrived, or twenty at least, and so it goes on. */
  lemma SteadyCounts(rule: Setting, w: World, t: Turn, next: World, u: Turn, after: World)
    requires Step(rule, w, t, next) && Step(rule, next, u, after)
    requires KeepsTwenty(rule) && Steady(rule, w, t) && Steady(rule, next, u)
    ensures var a, b := |Counted(rule, w, t)|, |Counted(rule, next, u)|; a <= b || CONTEXT_WINDOW <= b
    ensures var a, b := |Counted(rule, w, t)|, |Counted(rule, next, u)|;
      u.early.None? && |u.arrivals| >= 1 ==> a < b || CONTEXT_WINDOW < b
  {
    StoredById(rule, w, t);
    LandedKeepsTwenty(rule, Stored(rule, w, t), t.compacted);
    LandedKeepsTwenty(rule, Arrived(next, u), u.early);
  }

  lemma StoredById(rule: Setting, w: World, t: Turn)
    requires ById(Stored(rule, w, t) + t.late)
    ensures ById(Stored(rule, w, t))
  {
    var some, all := Stored(rule, w, t), Stored(rule, w, t) + t.late;
    assert forall i :: 0 <= i < |some| ==> all[i] == some[i];
  }

  /** The command line's way: each turn stores its message and compacts at its own end only. */
  ghost predicate Inline(t: Turn)
  {
    t.early.None? && |t.arrivals| >= 1
  }

  /**
   With a steady clock and a threshold of 40 per cent or less, one imminent turn makes every later turn
   imminent; on the command line up to 42 per cent.
   */
  lemma {:induction false} LowThresholdStaysImminent(rule: Setting, worlds: seq<World>, turns: seq<Turn>, i: nat,
                                                     j: nat)
    requires KeepsTwenty(rule) && IsRun(rule, worlds, turns) && i <= j < |turns| && turns[i].imminent
    requires forall k :: i <= k <= j ==> turns[k].counted && Steady(rule, worlds[k], turns[k])
    requires rule.pct <= 40 || (rule.pct <= 42 && forall k :: i <= k <= j ==> Inline(turns[k]))
    ensures turns[j].imminent && turns[j].served.None?
  {
    assert Step(rule, worlds[j], turns[j], worlds[j + 1]);
    if i < j {
      LowThresholdStaysImminent(rule, worlds, turns, i, j - 1);
      assert rule.pct > 40 ==> Inline(turns[j]);
      ImminentAgain(rule, worlds[j - 1], turns[j - 1], worlds[j], turns[j], worlds[j + 1]);
    }
  }

  lemma ImminentAgain(rule: Setting, w: World, t: Turn, next: World, u: Turn, after: World)
    requires Step(rule, w, t, next) && Step(rule, next, u, after)
    requires KeepsTwenty(rule) && Steady(rule, w, t) && Steady(rule, next, u)
    requires t.imminent && u.counted && (rule.pct <= 40 || (rule.pct <= 42 && Inline(u)))
    ensures u.imminent
  {
    SteadyCounts(rule, w, t, next, u, after);
    DueAgain(|Counted(rule, w, t)|, |Counted(rule, next, u)|, rule.pct);
  }

  lemma DueAgain(a: nat, b: nat, pct: nat)
    requires CeremonyDue(a, pct) && (a <= b || (pct <= 40 && CONTEXT_WINDOW <= b) || (pct <= 42 && CONTEXT_WINDOW < b))
    ensures CeremonyDue(b, pct)
  {
  }

  /** In this run a deposition written at an imminent turn is served at a later one. */
  ghost predicate Reaches(rule: Setting, worlds: seq<World>, turns: seq<Turn>, i: nat, j: nat)
  {
    && IsRun(rule, worlds, turns) && i < j < |turns|
    && (forall k :: 0 <= k < |turns| ==> turns[k].counted)
    && turns[i].imminent && turns[i].deposit.Some? && turns[j].served == turns[i].deposit
  }

  ghost predicate AllSteady(rule: Setting, worlds: seq<World>, turns: seq<Turn>)
    requires |worlds| >= |turns|
  {
    forall k :: 0 <= k < |turns| ==> Steady(rule, worlds[k], turns[k])
  }

  ghost predicate AllInline(turns: seq<Turn>)
  {
    forall k :: 0 <= k < |turns| ==> Inline(turns[k])
  }

  /** The compaction as it is: rows picked by stamp, deleted by id. */
  ghost predicate IsReal(rule: Setting)
  {
    1 <= rule.pct <= 100 && forall ms :: rule.condense(ms) == Condensed(ms)
  }

  ghost function Real(pct: nat): (rule: Setting)
    requires 1 <= pct <= 100
    ensures IsReal(rule) && rule.pct == pct
  {
    Setting(pct, Condensed)
  }

  lemma RealCondenses(rule: Setting, ms: seq<Message>)
    requires IsReal(rule)
    ensures rule.condense(ms) == Condensed(ms)
  {
  }

  lemma RealKeepsTwenty(rule: Setting)
    requires IsReal(rule)
    ensures KeepsTwenty(rule)
  {
    forall ms | ById(ms) && ClockAdvances(ms) && |ms| > CONTEXT_WINDOW
      ensures |rule.condense(ms)| >= CONTEXT_WINDOW
    {
      RealCondenses(rule, ms);
      CondensedKeepsTwenty(ms);
    }
  }

  lemma CondensedKeepsTwenty(ms: seq<Message>)
    requires ById(ms) && ClockAdvances(ms) && |ms| > CONTEXT_WINDOW
    ensures |Condensed(ms)| >= CONTEXT_WINDOW
  {
    CompactsExactly(ms);
  }

  // ---------------------------------------------------------------- which settings ever serve

  ghost predicate CanServe(rule: Setting)
  {
    exists worlds, turns, i: nat, j: nat :: Reaches(rule, worlds, turns, i, j)
  }

  ghost predicate CanServeSteadily(rule: Setting)
  {
    exists worlds, turns, i: nat, j: nat :: Reaches(rule, worlds, turns, i, j) && AllSteady(rule, worlds, turns)
  }

  ghost predicate CanServeInline(rule: Setting)
  {
    exists worlds, turns, i: nat, j: nat :: Reaches(rule, worlds, turns, i, j) && AllInline(turns)
  }

  ghost predicate CanServeInlineSteadily(rule: Setting)
  {
    exists worlds, turns, i: nat, j: nat ::
      Reaches(rule, worlds, turns, i, j) && AllInline(turns) && AllSteady(rule, worlds, turns)
  }

  /**
   With a clock that never steps back, the hand-off ever reaches a successor if and only if the threshold
   is at least 41 per cent: at 40, the twenty messages a compaction leaves are due again, whether or not
   the next one has arrived when it lands.
   */
  lemma ServesAtAllExactly(rule: Setting)
    requires IsReal(rule)
    ensures CanServeSteadily(rule) <==> rule.pct >= 41
  {
    if rule.pct >= 41 {
      RealCondenses(rule, Empties(52));
      EmptiesCondense(52);
      EarlyWitness(rule);
    } else {
      RealKeepsTwenty(rule);
      NeverReaches(rule);
    }
  }

  /** On the command line the next message has always arrived, and the threshold is 43 per cent. */
  lemma ServesInlineExactly(rule: Setting)
    requires IsReal(rule)
    ensures CanServeInlineSteadily(rule) <==> rule.pct >= 43
  {
    if rule.pct >= 43 {
      RealCondenses(rule, Empties(51));
      EmptiesCondense(51);
      InlineWitness(rule);
    } else {
      RealKeepsTwenty(rule);
      NeverReachesInline(rule);
    }
  }

  lemma NeverReaches(rule: Setting)
    requires rule.pct <= 40 && KeepsTwenty(rule)
    ensures !CanServeSteadily(rule)
  {
    forall worlds, turns, i: nat, j: nat | Reaches(rule, worlds, turns, i, j)
      ensures !AllSteady(rule, worlds, turns)
    {
      if AllSteady(rule, worlds, turns) { LowThresholdStaysImminent(rule, worlds, turns, i, j); }
    }
  }

  lemma NeverReachesInline(rule: Setting)
    requires rule.pct <= 42 && KeepsTwenty(rule)
    ensures !CanServeInlineSteadily(rule)
  {
    forall worlds, turns, i: nat, j: nat | Reaches(rule, worlds, turns, i, j) && AllInline(turns)
      ensures !AllSteady(rule, worlds, turns)
    {
      if AllSteady(rule, worlds, turns) { LowThresholdStaysImminent(rule, worlds, turns, i, j); }
    }
  }

  /**
   With any clock every setting can serve: a compaction that lands between the arrival and the count can
   delete every message there is, and none at all is never due.
   */
  lemma EverySettingCanServe(rule: Setting)
    requires IsReal(rule)
    ensures CanServe(rule)
  {
    RealCondenses(rule, Skewed(99));
    SkewedCondenses();
    SkewedWitness(rule);
  }

  /** On the command line that takes 3 per cent: at 2 or less a single message is due, and no turn has fewer. */
  lemma ServesInlineUnderAnyClockExactly(rule: Setting)
    requires IsReal(rule)
    ensures CanServeInline(rule) <==> rule.pct >= 3
  {
    if rule.pct >= 3 {
      RealCondenses(rule, Skewed(99));
      SkewedCondenses();
      SkewedInlineWitness(rule);
    } else {
      AlwaysImminentInline(rule);
    }
  }

  lemma AlwaysImminentInline(rule: Setting)
    requires rule.pct <= 2
    ensures !CanServeInline(rule)
  {
    forall worlds, turns, i: nat, j: nat | Reaches(rule, worlds, turns, i, j) ensures !AllInline(turns) {
      if AllInline(turns) { OneMessageIsDue(rule, worlds[j], turns[j], worlds[j + 1]); }
    }
  }

  lemma OneMessageIsDue(rule: Setting, w: World, t: Turn, next: World)
    requires rule.pct <= 2 && Step(rule, w, t, next) && t.counted && Inline(t)
    ensures t.imminent && t.served.None?
  {
  }

  // ---------------------------------------------------------------- the runs that serve

  const NAME: string := "0" + SUFFIX

  function Writing(m: Message, compacted: Option<nat>): Turn
  {
    Turn([m], None, true, true, {}, true, Some(NAME), {}, [], compacted, [], true, None)
  }

  function Serving(m: Message, early: Option<nat>): Turn
  {
    Turn([m], early, true, true, {}, true, None, {}, [], None, [], false, Some(NAME))
  }

  lemma WritingStep(rule: Setting, had: seq<Message>, m: Message, compacted: Option<nat>)
    requires ById(had + [m]) && |had + [m]| > COMPACTION_THRESHOLD && 1 <= rule.pct <= 100
    ensures var w, t := World(had, {}), Writing(m, compacted);
      Stored(rule, w, t) == had + [m] && Step(rule, w, t, World(Landed(rule, had + [m], compacted), {NAME}))
  {
    EndsWithAppended("0", SUFFIX);
    var left := Landed(rule, had + [m], compacted);
    assert had + [m] + [] == had + [m] && left + [] == left;
    DueExactly(|had| + 1, rule.pct);
  }

  lemma ServingStep(rule: Setting, left: seq<Message>, next: Message, early: Option<nat>)
    requires ById(left + [next]) && ById(Landed(rule, left + [next], early))
    requires !CeremonyDue(|Landed(rule, left + [next], early)|, rule.pct)
    ensures var w, t, seen := World(left, {NAME}), Serving(next, early), Landed(rule, left + [next], early);
      Stored(rule, w, t) == seen && Step(rule, w, t, World(seen, {NAME, Receipt(NAME)}))
  {
    EndsWithAppended("0", SUFFIX);
    OnlyDepositionsAreDepositions(NAME);
    var w, seen := World(left, {NAME}), Landed(rule, left + [next], early);
    assert seen + [] == seen;
    assert Unread(w.files, {}, NAME);
  }

  /** Two turns: one writes and may be compacted, before the count of the next one another compaction may land. */
  lemma TwoTurns(rule: Setting, had: seq<Message>, m: Message, compacted: Option<nat>, next: Message,
                 early: Option<nat>)
    returns (worlds: seq<World>, turns: seq<Turn>)
    requires ById(had + [m]) && |had + [m]| > COMPACTION_THRESHOLD && 1 <= rule.pct <= 100
    requires var arrived := Landed(rule, had + [m], compacted) + [next];
      ById(arrived) && ById(Landed(rule, arrived, early)) && !CeremonyDue(|Landed(rule, arrived, early)|, rule.pct)
    ensures Reaches(rule, worlds, turns, 0, 1) && (early.None? ==> AllInline(turns))
    ensures var arrived := Landed(rule, had + [m], compacted) + [next];
      ClockAdvances(had + [m]) && ClockAdvances(arrived) && ClockAdvances(Landed(rule, arrived, early)) ==>
        AllSteady(rule, worlds, turns)
  {
    var left := Landed(rule, had + [m], compacted);
    var seen := Landed(rule, left + [next], early);
    WritingStep(rule, had, m, compacted);
    ServingStep(rule, left, next, early);
    worlds := [World(had, {}), World(left, {NAME}), World(seen, {NAME, Receipt(NAME)})];
    turns := [Writing(m, compacted), Serving(next, early)];
    assert IsRun(rule, worlds, turns);
  }

  lemma EmptiesCondense(n: nat)
    requires 50 < n <= 120
    ensures Condensed(Empties(n)) == Empties(n)[n - 20..]
  {
    CompactsExactly(Empties(n));
  }

  /** Fifty-one messages, one more arrives, and the compaction that finds them all lands before the count. */
  lemma EarlyWitness(rule: Setting)
    requires 41 <= rule.pct <= 100 && rule.condense(Empties(52)) == Empties(52)[32..]
    ensures CanServeSteadily(rule)
  {
    var all := Empties(52);
    assert all[..50] + [all[50]] == all[..51] && all[..51] + [all[51]] == all && all[..52] == all && all[52..] == [];
    assert all[32..] + [] == all[32..];
    var worlds, turns := TwoTurns(rule, all[..50], all[50], None, all[51], Some(52));
  }

  lemma InlineWitness(rule: Setting)
    requires 43 <= rule.pct <= 100 && rule.condense(Empties(51)) == Empties(51)[31..]
    ensures CanServeInlineSteadily(rule)
  {
    var all := Empties(52);
    var first := all[..51];
    assert first == Empties(51) && first == all[..50] + [all[50]] && first[..51] == first && first[51..] == [];
    assert first[31..] + [] == first[31..] && first[31..] + [all[51]] == all[31..];
    var worlds, turns := TwoTurns(rule, all[..50], all[50], Some(51), all[51], None);
  }

  lemma SkewedCondenses()
    ensures Condensed(Skewed(99)) == []
  {
    SkewedLosesEverything(Skewed(99));
  }

  /** A hundred and nineteen messages, one more arrives, and the compaction before the count leaves none. */
  lemma SkewedWitness(rule: Setting)
    requires 1 <= rule.pct <= 100 && rule.condense(Skewed(99)) == []
    ensures CanServe(rule)
  {
    var all := Skewed(99);
    assert all[..118] + [all[118]] == all[..119] && all[..119] + [all[119]] == all;
    assert all[..120] == all && all[120..] == [];
    var worlds, turns := TwoTurns(rule, all[..118], all[118], None, all[119], Some(120));
  }

  /** A hundred and twenty messages whose compaction leaves none, and one more. */
  lemma SkewedInlineWitness(rule: Setting)
    requires 3 <= rule.pct <= 100 && rule.condense(Skewed(99)) == []
    ensures CanServeInline(rule)
  {
    var all := Skewed(99);
    assert all[..119] + [all[119]] == all && all[..120] == all && all[120..] == [];
    var worlds, turns := TwoTurns(rule, all[..119], all[119], Some(120), Message(121, 3, [], [], []), None);
  }
}
