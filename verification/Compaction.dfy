/**
 Compaction of a conversation: when more than fifty messages are held, the oldest ones outside a window of
 twenty are summarised, at most a hundred at a time, and deleted.
 */
module Compaction {
  import opened Prelude
  import opened Utf8

  const COMPACTION_THRESHOLD: nat := 50
  const CONTEXT_WINDOW: nat := 20
  const MAX_COMPACTION_BATCH: nat := 100
  const MAX_SUMMARY_BYTES: nat := 4000
  const MAX_COMPACTION_INPUT_CHARS: nat := 50000

  /** `stamp` is the wall clock at insertion; `tools` is the suffix that names the tools the message used. */
  datatype Message = Message(id: nat, stamp: int, role: seq<byte>, content: seq<byte>, tools: seq<byte>)

  datatype Summary = Summary(text: seq<byte>, through: nat)

  // ---------------------------------------------------------------- the capped summary

  /** `floor_char_boundary`: the last boundary at or before `i`. */
  function Floor(s: seq<byte>, i: nat): (r: nat)
    requires i <= |s|
    ensures r <= i && (r == 0 || IsBoundary(s, r)) && forall k :: r < k <= i ==> !IsBoundary(s, k)
  {
    if i == 0 || IsBoundary(s, i) then i else Floor(s, i - 1)
  }

  function CapSummary(text: seq<byte>): seq<byte>
  {
    if |text| <= MAX_SUMMARY_BYTES then text else text[..Floor(text, MAX_SUMMARY_BYTES)]
  }

  /** In a valid string a boundary is never more than three bytes back. */
  lemma {:induction false} BoundaryIsNear(s: seq<byte>, i: nat)
    requires Valid(s) && i <= |s|
    ensures IsBoundary(s, Floor(s, i)) && i <= Floor(s, i) + 3
  {
    if i > 0 {
      var w := Width(s[0]);
      if i < w {
        assert forall k :: 1 <= k <= i ==> !IsBoundary(s, k);
      } else {
        BoundaryIsNear(s[w..], i - w);
        assert forall k :: w <= k <= |s| ==> (IsBoundary(s, k) <==> IsBoundary(s[w..], k - w));
        FloorIs(s, i, w + Floor(s[w..], i - w));
      }
    }
  }

  lemma FloorIs(s: seq<byte>, i: nat, r: nat)
    requires r <= i <= |s| && IsBoundary(s, r) && forall k :: r < k <= i ==> !IsBoundary(s, k)
    ensures Floor(s, i) == r
  {
  }

  /**
   The cap never cuts a character in two and never panics: the result is a valid prefix of the summary,
   within the budget, and no longer valid prefix would fit.
   */
  lemma CapSummaryExactly(text: seq<byte>)
    requires Valid(text)
    ensures var r := CapSummary(text);
      && r <= text && Valid(r) && |r| <= 4000
      && (|text| <= 4000 ==> r == text)
      && (|text| > 4000 ==> 3997 <= |r|)
      && (forall n :: |r| < n <= 4000 && n <= |text| ==> !IsBoundary(text, n))
  {
    if |text| > MAX_SUMMARY_BYTES {
      BoundaryIsNear(text, MAX_SUMMARY_BYTES);
      CutAtBoundary(text, Floor(text, MAX_SUMMARY_BYTES));
    }
  }

  // ---------------------------------------------------------------- what the summariser is shown

  const COLON_SPACE: seq<byte> := [58, 32]

  function Line(m: Message): seq<byte>
  {
    m.role + COLON_SPACE + m.content + m.tools + [10]
  }

  function Transcript(ms: seq<Message>): seq<byte>
  {
    if ms == [] then [] else Transcript(ms[..|ms| - 1]) + Line(ms[|ms| - 1])
  }

  /** The budget loop: it shows the longest prefix of the batch whose lines fit the budget. */
  method ShowBatch(ms: seq<Message>) returns (prompt: seq<byte>, included: nat)
    ensures included <= |ms| && prompt == Transcript(ms[..included])
    ensures forall n :: 0 <= n <= |ms| ==> (|Transcript(ms[..n])| <= 50000 <==> n <= included)
  {
    prompt, included := [], 0;
    var charCount := 0;
    while included < |ms|
      invariant included <= |ms| && prompt == Transcript(ms[..included])
        && charCount == |prompt| <= MAX_COMPACTION_INPUT_CHARS
    {
      var m := ms[included];
      var chars := |m.role| + 2 + |m.content| + |m.tools| + 1;
      assert ms[..included + 1][..included] == ms[..included];
      if charCount + chars > MAX_COMPACTION_INPUT_CHARS { break; }
      charCount := charCount + chars;
      ghost var had := prompt;
      prompt := prompt + m.role;
      prompt := prompt + [58, 32];
      prompt := prompt + m.content;
      if m.tools != [] { prompt := prompt + m.tools; }
      prompt := prompt + [10];
      assert prompt == had + Line(m);
      included := included + 1;
    }
    forall n | 0 <= n <= |ms| ensures |Transcript(ms[..n])| <= MAX_COMPACTION_INPUT_CHARS <==> n <= included {
      if n <= included { TranscriptGrows(ms, n, included); } else { TranscriptGrows(ms, included + 1, n); }
    }
  }

  lemma {:induction false} TranscriptGrows(ms: seq<Message>, a: nat, b: nat)
    requires a <= b <= |ms|
    ensures |Transcript(ms[..a])| <= |Transcript(ms[..b])|
  {
    if a < b {
      TranscriptGrows(ms, a, b - 1);
      assert ms[..b][..b - 1] == ms[..b - 1];
    }
  }

  // ---------------------------------------------------------------- reading order and the window

  /** `ORDER BY created_at, id`. */
  predicate Before(a: Message, b: Message)
  {
    a.stamp < b.stamp || (a.stamp == b.stamp && a.id < b.id)
  }

  predicate Sorted(ms: seq<Message>)
  {
    forall i, j :: 0 <= i < j < |ms| ==> Before(ms[i], ms[j])
  }

  /** Rows are held in the order of their ids, which is the order of insertion. */
  predicate ById(ms: seq<Message>)
  {
    forall i, j :: 0 <= i < j < |ms| ==> ms[i].id < ms[j].id
  }

  /** The wall clock never stepped back while these messages were written. */
  predicate ClockAdvances(ms: seq<Message>)
  {
    forall i, j :: 0 <= i < j < |ms| ==> ms[i].stamp <= ms[j].stamp
  }

  function Insert(ms: seq<Message>, m: Message): (r: seq<Message>)
    ensures |r| == |ms| + 1
  {
    if ms == [] || Before(ms[|ms| - 1], m) then ms + [m] else Insert(ms[..|ms| - 1], m) + [ms[|ms| - 1]]
  }

  function Ordered(ms: seq<Message>): (r: seq<Message>)
    ensures |r| == |ms|
  {
    if ms == [] then [] else Insert(Ordered(ms[..|ms| - 1]), ms[|ms| - 1])
  }

  /** Rows with an id up to `id`. */
  function UpTo(ms: seq<Message>, id: nat): seq<Message>
  {
    if ms == [] then []
    else UpTo(ms[..|ms| - 1], id) + if ms[|ms| - 1].id <= id then [ms[|ms| - 1]] else []
  }

  /** Rows with a larger id. */
  function After(ms: seq<Message>, id: nat): seq<Message>
  {
    if ms == [] then []
    else After(ms[..|ms| - 1], id) + if ms[|ms| - 1].id > id then [ms[|ms| - 1]] else []
  }

  lemma {:induction false} InsertKeeps(ms: seq<Message>, m: Message)
    requires Sorted(ms) && forall i :: 0 <= i < |ms| ==> ms[i].id != m.id
    ensures Sorted(Insert(ms, m)) && multiset(Insert(ms, m)) == multiset(ms) + multiset{m}
  {
    if ms != [] && !Before(ms[|ms| - 1], m) {
      var last := |ms| - 1;
      assert ms == ms[..last] + [ms[last]];
      InsertKeeps(ms[..last], m);
      InsertedBefore(Insert(ms[..last], m), ms, m);
    }
  }

  lemma InsertedBefore(inner: seq<Message>, ms: seq<Message>, m: Message)
    requires ms != [] && Sorted(ms) && Sorted(inner) && !Before(ms[|ms| - 1], m) && ms[|ms| - 1].id != m.id
    requires multiset(inner) == multiset(ms[..|ms| - 1]) + multiset{m}
    ensures Sorted(inner + [ms[|ms| - 1]])
  {
    var last := |ms| - 1;
    forall i | 0 <= i < |inner| ensures Before(inner[i], ms[last]) {
      assert inner[i] in multiset(inner);
      if inner[i] != m { assert inner[i] in ms[..last]; }
    }
  }

  /** Reading order is a rearrangement of the rows, sorted by stamp and then id. */
  lemma {:induction false} OrderedExactly(ms: seq<Message>)
    requires ById(ms)
    ensures Sorted(Ordered(ms)) && multiset(Ordered(ms)) == multiset(ms)
  {
    if ms != [] {
      var last := |ms| - 1;
      assert ms == ms[..last] + [ms[last]];
      OrderedExactly(ms[..last]);
      var inner := Ordered(ms[..last]);
      forall i | 0 <= i < |inner| ensures inner[i].id != ms[last].id {
        assert inner[i] in multiset(inner);
        assert inner[i] in ms[..last];
      }
      InsertKeeps(inner, ms[last]);
    }
  }

  lemma {:induction false} UpToHas(ms: seq<Message>, id: nat, m: Message)
    ensures m in UpTo(ms, id) <==> m in ms && m.id <= id
    ensures m in After(ms, id) <==> m in ms && m.id > id
  {
    if ms != [] {
      assert ms == ms[..|ms| - 1] + [ms[|ms| - 1]];
      UpToHas(ms[..|ms| - 1], id, m);
    }
  }

  /** The newest message outside the window. */
  function Cutoff(ms: seq<Message>): Message
    requires |ms| > CONTEXT_WINDOW
  {
    Ordered(ms)[|ms| - CONTEXT_WINDOW - 1]
  }

  /** The newest twenty messages. */
  function Window(ms: seq<Message>): seq<Message>
    requires |ms| > CONTEXT_WINDOW
  {
    Ordered(ms)[|ms| - CONTEXT_WINDOW..]
  }

  /** Everything up to the newest message outside the window, in reading order. */
  function BeforeWindow(ms: seq<Message>): seq<Message>
  {
    if |ms| <= CONTEXT_WINDOW then [] else UpTo(Ordered(ms), Cutoff(ms).id)
  }

  function Batch(ms: seq<Message>): seq<Message>
  {
    var older := BeforeWindow(ms);
    if |older| > MAX_COMPACTION_BATCH then older[..MAX_COMPACTION_BATCH] else older
  }

  /** Up to which id a compaction deletes. */
  function Through(ms: seq<Message>): nat
  {
    if Batch(ms) == [] then 0 else Batch(ms)[|Batch(ms)| - 1].id
  }

  /** What a compaction that goes through leaves. */
  function Condensed(ms: seq<Message>): seq<Message>
  {
    After(ms, Through(ms))
  }

  // ---------------------------------------------------------------- the conversation

  /** A summariser: any reply to any prompt, or a failure. */
  type Summariser = (Option<Summary>, seq<byte>) -> Option<seq<byte>>

  class Conversation {
    var messages: seq<Message>
    var summary: Option<Summary>

    /** Every message ever written, every one deleted, and every one a stored summary was made from. */
    ghost var written: seq<Message>
    ghost var deleted: seq<Message>
    ghost var shown: set<Message>

    ghost predicate Valid()
      reads this
    {
      ById(messages) && ById(written) && Conserves(written, messages, deleted)
    }

    constructor ()
      ensures Valid() && messages == [] && written == []
    {
      messages, summary, written, deleted, shown := [], None, [], [], {};
    }

    method Append(m: Message)
      requires Valid() && forall i :: 0 <= i < |written| ==> written[i].id < m.id
      modifies this
      ensures Valid() && messages == old(messages) + [m] && written == old(written) + [m]
      ensures deleted == old(deleted) && shown == old(shown) && summary == old(summary)
    {
      HeldIsWritten(messages, written, deleted);
      messages := messages + [m];
      written := written + [m];
    }

    /** One transaction: the rows up to `through` go, and the new summary takes the place of the old one. */
    method ReplaceWithSummary(text: seq<byte>, through: nat)
      requires Valid()
      modifies this`messages, this`summary, this`deleted
      ensures Valid()
      ensures messages == After(old(messages), through) && deleted == old(deleted) + UpTo(old(messages), through)
      ensures summary == Some(Summary(text, through))
    {
      var kept := After(messages, through);
      ghost var gone := UpTo(messages, through);
      StillById(messages, through);
      Split(messages, through);
      Conserved(written, messages, deleted, kept, gone);
      messages := kept;
      deleted := deleted + gone;
      summary := Some(Summary(text, through));
    }

    /** One call after a turn. A failing summariser or a failing store leaves everything as it was. */
    method MaybeCompact(llm: Summariser, stores: bool) returns (ok: bool, ghost plan: Plan)
      requires Valid()
      modifies this
      ensures Valid() && written == old(written)
      ensures |old(messages)| <= COMPACTION_THRESHOLD ==> ok
      ensures |old(messages)| <= COMPACTION_THRESHOLD || !ok ==>
        messages == old(messages) && summary == old(summary) && deleted == old(deleted) && shown == old(shown)
      ensures ok && |old(messages)| > COMPACTION_THRESHOLD ==>
        && Plans(llm, old(messages), old(summary), plan)
        && messages == After(old(messages), plan.through)
        && deleted == old(deleted) + UpTo(old(messages), plan.through)
        && shown == old(shown) + Elements(plan.shown)
        && summary == Some(Summary(plan.text, plan.through))
    {
      plan := Plan([], 0, []);
      if |messages| <= COMPACTION_THRESHOLD { return true, plan; }
      var made := MakePlan(llm, messages, summary);
      if made.None? || !stores { return false, plan; }
      shown := shown + Elements(made.value.shown);
      ReplaceWithSummary(made.value.text, made.value.through);
      ok, plan := true, made.value;
    }
  }

  /** What one compaction writes, up to which id it deletes, and the messages the summariser saw. */
  datatype Plan = Plan(text: seq<byte>, through: nat, shown: seq<Message>)

  /**
   The text is the capped reply to a prompt made of the old summary and the longest prefix of the batch
   that fits, whatever the summariser does; the deletion runs through the whole batch.
   */
  ghost predicate Plans(llm: Summariser, ms: seq<Message>, was: Option<Summary>, plan: Plan)
  {
    var reply := llm(was, Transcript(plan.shown));
    && IsLongestFit(Batch(ms), |plan.shown|) && plan.shown == Batch(ms)[..|plan.shown|]
    && reply.Some? && plan.text == CapSummary(reply.value)
    && plan.through == Through(ms)
  }

  method MakePlan(llm: Summariser, ms: seq<Message>, was: Option<Summary>) returns (r: Option<Plan>)
    requires |ms| > CONTEXT_WINDOW
    ensures r.Some? ==> Plans(llm, ms, was, r.value)
  {
    var batch := Batch(ms);
    BatchIsNotEmpty(ms);
    var prompt, n := ShowBatch(batch);
    var reply := llm(was, prompt);
    if reply.None? { return None; }
    r := Some(Plan(CapSummary(reply.value), batch[|batch| - 1].id, batch[..n]));
  }

  lemma Conserved(written: seq<Message>, messages: seq<Message>, deleted: seq<Message>, kept: seq<Message>,
                  gone: seq<Message>)
    requires Conserves(written, messages, deleted) && Conserves(messages, gone, kept)
    ensures Conserves(written, kept, deleted + gone)
  {
  }

  /** Every one of `all` is on exactly one of the two sides. */
  ghost predicate Conserves(all: seq<Message>, left: seq<Message>, right: seq<Message>)
  {
    (forall m :: m in all <==> m in left || m in right) && (forall m :: m in left ==> m !in right)
  }

  lemma HeldIsWritten(messages: seq<Message>, written: seq<Message>, deleted: seq<Message>)
    requires Conserves(written, messages, deleted)
    ensures forall i :: 0 <= i < |messages| ==> messages[i] in written
  {
  }

  /** `n` is the length of the longest prefix of the batch that fits the budget. */
  ghost predicate IsLongestFit(batch: seq<Message>, n: nat)
  {
    n <= |batch| && forall k :: 0 <= k <= |batch| ==>
      (|Transcript(batch[..k])| <= MAX_COMPACTION_INPUT_CHARS <==> k <= n)
  }

  function Elements(ms: seq<Message>): set<Message>
  {
    set m | m in ms
  }

  lemma BatchIsNotEmpty(ms: seq<Message>)
    requires |ms| > CONTEXT_WINDOW
    ensures Batch(ms) != []
  {
    UpToHas(Ordered(ms), Cutoff(ms).id, Cutoff(ms));
  }

  /** A deletion by id takes every row to exactly one side. */
  lemma {:induction false} Split(ms: seq<Message>, id: nat)
    ensures Conserves(ms, UpTo(ms, id), After(ms, id)) && |ms| == |UpTo(ms, id)| + |After(ms, id)|
  {
    forall m ensures (m in UpTo(ms, id) <==> m in ms && m.id <= id) && (m in After(ms, id) <==> m in ms && m.id > id) {
      UpToHas(ms, id, m);
    }
    SplitSizes(ms, id);
  }

  lemma {:induction false} SplitSizes(ms: seq<Message>, id: nat)
    ensures |ms| == |UpTo(ms, id)| + |After(ms, id)|
  {
    if ms != [] { SplitSizes(ms[..|ms| - 1], id); }
  }

  lemma {:induction false} StillById(ms: seq<Message>, id: nat)
    requires ById(ms)
    ensures ById(After(ms, id))
  {
    if ms != [] {
      var last := |ms| - 1;
      StillById(ms[..last], id);
      var rest := After(ms[..last], id);
      forall i | 0 <= i < |rest| ensures rest[i].id < ms[last].id { UpToHas(ms[..last], id, rest[i]); }
    }
  }

  // ---------------------------------------------------------------- what a compaction keeps

  /** With a clock that never steps back, reading order is the order of insertion. */
  lemma {:induction false} OrderIsInsertion(ms: seq<Message>)
    requires ById(ms) && ClockAdvances(ms)
    ensures Ordered(ms) == ms
  {
    if ms != [] {
      OrderIsInsertion(ms[..|ms| - 1]);
    }
  }

  lemma {:induction false} SplitAt(ms: seq<Message>, k: nat)
    requires ById(ms) && k < |ms|
    ensures UpTo(ms, ms[k].id) == ms[..k + 1] && After(ms, ms[k].id) == ms[k + 1..]
  {
    var last := |ms| - 1;
    if k < last {
      SplitAt(ms[..last], k);
      assert ms[..last][..k + 1] == ms[..k + 1] && ms[..last][k + 1..] + [ms[last]] == ms[k + 1..];
    } else {
      AllUpTo(ms, ms[last].id);
      NoneAfter(ms, ms[last].id);
    }
  }

  lemma {:induction false} AllUpTo(ms: seq<Message>, id: nat)
    requires forall i :: 0 <= i < |ms| ==> ms[i].id <= id
    ensures UpTo(ms, id) == ms
  {
    if ms != [] {
      var init, m := ms[..|ms| - 1], ms[|ms| - 1];
      AllUpTo(init, id);
      assert ms == init + [m];
    }
  }

  lemma {:induction false} NoneAfter(ms: seq<Message>, id: nat)
    requires forall i :: 0 <= i < |ms| ==> ms[i].id <= id
    ensures After(ms, id) == []
  {
    if ms != [] { NoneAfter(ms[..|ms| - 1], id); }
  }

  /** How many messages one compaction takes. */
  function Taken(n: nat): nat
    requires n > CONTEXT_WINDOW
  {
    if n - CONTEXT_WINDOW > MAX_COMPACTION_BATCH then MAX_COMPACTION_BATCH else n - CONTEXT_WINDOW
  }

  /** With such a clock a compaction deletes exactly its batch, the oldest messages, and keeps all the others. */
  lemma CompactsExactly(ms: seq<Message>)
    requires ById(ms) && ClockAdvances(ms) && |ms| > CONTEXT_WINDOW
    ensures Batch(ms) == ms[..Taken(|ms|)] == UpTo(ms, Through(ms)) && After(ms, Through(ms)) == ms[Taken(|ms|)..]
  {
    BatchExactly(ms);
    SplitAt(ms, Taken(|ms|) - 1);
  }

  lemma BatchExactly(ms: seq<Message>)
    requires ById(ms) && ClockAdvances(ms) && |ms| > CONTEXT_WINDOW
    ensures Batch(ms) == ms[..Taken(|ms|)] && Through(ms) == ms[Taken(|ms|) - 1].id
  {
    BeforeWindowExactly(ms);
  }

  lemma BeforeWindowExactly(ms: seq<Message>)
    requires ById(ms) && ClockAdvances(ms) && |ms| > CONTEXT_WINDOW
    ensures BeforeWindow(ms) == ms[..|ms| - CONTEXT_WINDOW]
  {
    OrderIsInsertion(ms);
    SplitAt(ms, |ms| - CONTEXT_WINDOW - 1);
  }

  /** Successful compactions one after the other, each on what the one before it left. */
  ghost predicate Compactions(states: seq<seq<Message>>)
  {
    states != [] && forall i :: 0 <= i < |states| - 1 ==> Compacts(states[i], states[i + 1])
  }

  ghost predicate Compacts(before: seq<Message>, after: seq<Message>)
  {
    |before| > COMPACTION_THRESHOLD && after == Condensed(before)
  }

  lemma CompactsToSuffix(before: seq<Message>, after: seq<Message>)
    requires ById(before) && ClockAdvances(before) && Compacts(before, after)
    ensures after == before[Taken(|before|)..] && ById(after) && ClockAdvances(after)
  {
    CompactsExactly(before);
  }

  /** `last` is what is left of `first`: the newest ones, at least twenty of more than fifty. */
  ghost predicate Leaves(first: seq<Message>, last: seq<Message>)
  {
    && |last| <= |first| && last == first[|first| - |last|..]
    && (|first| <= COMPACTION_THRESHOLD ==> last == first)
    && (|first| > COMPACTION_THRESHOLD ==> CONTEXT_WINDOW <= |last|)
    && (|last| <= COMPACTION_THRESHOLD ==> |last| == SettledSize(|first|))
  }

  /**
   However many messages there were, repeated compaction only ever leaves the newest ones, at least twenty
   of them; once it has nothing to do, twenty to fifty are left, and how many is known beforehand.
   */
  lemma {:induction false} CompactionsSettle(states: seq<seq<Message>>)
    requires Compactions(states) && ById(states[0]) && ClockAdvances(states[0])
    ensures Leaves(states[0], states[|states| - 1])
    decreases |states|
  {
    if |states| > 1 {
      assert Compacts(states[0], states[1]);
      CompactsToSuffix(states[0], states[1]);
      CompactionsRest(states);
      CompactionsSettle(states[1..]);
      LeavesStep(states[0], states[1], states[|states| - 1]);
    }
  }

  lemma LeavesStep(first: seq<Message>, next: seq<Message>, last: seq<Message>)
    requires |first| > COMPACTION_THRESHOLD && next == first[Taken(|first|)..] && Leaves(next, last)
    ensures Leaves(first, last)
  {
    SettledStep(|first|);
    Suffixes(first, Taken(|first|), next, |last|);
  }

  lemma CompactionsRest(states: seq<seq<Message>>)
    requires Compactions(states) && |states| > 1
    ensures Compactions(states[1..])
  {
    var rest := states[1..];
    forall i | 0 <= i < |rest| - 1 ensures Compacts(rest[i], rest[i + 1]) {
      assert rest[i] == states[i + 1] && rest[i + 1] == states[i + 2];
    }
  }

  /** How many are left, in closed form. */
  function SettledSize(n: nat): nat
  {
    if n <= COMPACTION_THRESHOLD then n
    else
      var low := (n - CONTEXT_WINDOW - 1) % MAX_COMPACTION_BATCH + CONTEXT_WINDOW + 1;
      if low <= COMPACTION_THRESHOLD then low else CONTEXT_WINDOW
  }

  lemma SettledStep(n: nat)
    requires n > COMPACTION_THRESHOLD
    ensures SettledSize(n) == SettledSize(n - Taken(n)) && CONTEXT_WINDOW <= SettledSize(n) <= n - Taken(n)
  {
    if n > 120 {
      assert (n - 21) % 100 == (n - 121) % 100;
    }
  }

  lemma Suffixes(ms: seq<Message>, k: nat, rest: seq<Message>, n: nat)
    requires k <= |ms| && rest == ms[k..] && n <= |rest|
    ensures rest[|rest| - n..] == ms[|ms| - n..]
  {
  }

  /** Whatever the clock did, a compaction takes at least one row: the last of its batch. */
  lemma CompactionShrinks(before: seq<Message>, after: seq<Message>)
    requires Compacts(before, after) && ById(before)
    ensures |after| < |before|
  {
    BatchIsNotEmpty(before);
    LastOfBatchIsHeld(before);
    var t := Batch(before)[|Batch(before)| - 1];
    UpToHas(before, t.id, t);
    Split(before, t.id);
  }

  /** The last row of the batch is a row of the table, with an id up to the cutoff's. */
  lemma LastOfBatchIsHeld(ms: seq<Message>)
    requires ById(ms) && |ms| > CONTEXT_WINDOW
    ensures Batch(ms) != [] && var t := Batch(ms)[|Batch(ms)| - 1];
      t in ms && t in Ordered(ms) && t in BeforeWindow(ms) && t.id == Through(ms) <= Cutoff(ms).id
  {
    BatchIsNotEmpty(ms);
    var t := Batch(ms)[|Batch(ms)| - 1];
    assert t in BeforeWindow(ms);
    UpToHas(Ordered(ms), Cutoff(ms).id, t);
    InOrder(ms, t);
  }

  lemma InOrder(ms: seq<Message>, m: Message)
    requires ById(ms)
    ensures m in Ordered(ms) <==> m in ms
  {
    OrderedExactly(ms);
    assert m in multiset(Ordered(ms)) <==> m in multiset(ms);
  }
}
