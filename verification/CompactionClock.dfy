/**
 What a compaction really deletes. Rows are picked by wall-clock stamp and deleted by id, so a clock that
 steps back, a batch cut at a hundred rows and a prompt cut at its budget each have a say in it.
 */
module CompactionClock {
  import opened Prelude
  import opened Utf8
  import opened Compaction

  // ---------------------------------------------------------------- reading order

  lemma {:induction false} UpToIsSorted(ms: seq<Message>, id: nat)
    requires Sorted(ms)
    ensures Sorted(UpTo(ms, id))
  {
    if ms != [] {
      var last := |ms| - 1;
      UpToIsSorted(ms[..last], id);
      var r := UpTo(ms[..last], id);
      forall i | 0 <= i < |r| ensures Before(r[i], ms[last]) { UpToHas(ms[..last], id, r[i]); }
    }
  }

  /** The last row of the batch is the newest of those with an id up to the cutoff's. */
  lemma LastOfBatch(ms: seq<Message>, m: Message)
    requires ById(ms) && |ms| > CONTEXT_WINDOW && |BeforeWindow(ms)| <= MAX_COMPACTION_BATCH
    requires m in Ordered(ms) && m.id <= Cutoff(ms).id
    ensures Batch(ms) != [] && var t := Batch(ms)[|Batch(ms)| - 1];
      t in Ordered(ms) && t.id <= Cutoff(ms).id && (t == m || Before(m, t))
  {
    OrderedExactly(ms);
    LastUpTo(Ordered(ms), Cutoff(ms).id, m);
  }

  lemma LastUpTo(order: seq<Message>, id: nat, m: Message)
    requires Sorted(order) && m in order && m.id <= id
    ensures UpTo(order, id) != [] && var t := UpTo(order, id)[|UpTo(order, id)| - 1];
      t in order && t.id <= id && (t == m || Before(m, t))
  {
    var r := UpTo(order, id);
    UpToIsSorted(order, id);
    UpToHas(order, id, m);
    UpToHas(order, id, r[|r| - 1]);
  }

  lemma WindowIsNewer(ms: seq<Message>, w: Message)
    requires ById(ms) && |ms| > CONTEXT_WINDOW && w in Window(ms)
    ensures Before(Cutoff(ms), w) && w in Ordered(ms) && w in ms && Cutoff(ms) in Ordered(ms)
  {
    OrderedExactly(ms);
    assert w in multiset(Ordered(ms));
  }

  ghost predicate SameRows(a: seq<Message>, b: seq<Message>)
  {
    forall m :: m in a <==> m in b
  }

  /** There is only one sorted rearrangement of the rows. */
  lemma {:induction false} SortedIsUnique(a: seq<Message>, b: seq<Message>)
    requires Sorted(a) && Sorted(b) && SameRows(a, b)
    ensures a == b
  {
    assert (a != [] ==> a[0] in a) && (b != [] ==> b[0] in b);
    if a != [] {
      var x, y := a[..|a| - 1], b[..|b| - 1];
      SameLast(a, b);
      DropLast(a, x);
      DropLast(b, y);
      SortedIsUnique(x, y);
    }
  }

  lemma DropLast(a: seq<Message>, x: seq<Message>)
    requires Sorted(a) && a != [] && x == a[..|a| - 1]
    ensures Sorted(x) && a == x + [a[|a| - 1]] && forall m :: m in x <==> m in a && m != a[|a| - 1]
  {
    assert a == x + [a[|a| - 1]];
    assert a[|a| - 1] !in x;
  }

  lemma SameLast(a: seq<Message>, b: seq<Message>)
    requires Sorted(a) && Sorted(b) && SameRows(a, b) && a != [] && b != []
    ensures a[|a| - 1] == b[|b| - 1]
  {
    assert a[|a| - 1] in b && b[|b| - 1] in a;
    var i :| 0 <= i < |b| && b[i] == a[|a| - 1];
    var j :| 0 <= j < |a| && a[j] == b[|b| - 1];
  }

  lemma OrderedIs(ms: seq<Message>, order: seq<Message>)
    requires ById(ms) && Sorted(order) && SameRows(order, ms)
    ensures Ordered(ms) == order
  {
    OrderedExactly(ms);
    forall m ensures m in Ordered(ms) <==> m in ms { InOrder(ms, m); }
    SortedIsUnique(Ordered(ms), order);
  }

  lemma {:induction false} UpToPrefix(order: seq<Message>, k: nat, id: nat)
    requires k <= |order| && forall i :: 0 <= i < |order| ==> (order[i].id <= id <==> i < k)
    ensures UpTo(order, id) == order[..k]
  {
    if order != [] {
      var last := |order| - 1;
      var init := order[..last];
      if k <= last {
        UpToPrefix(init, k, id);
        assert init[..k] == order[..k];
      } else {
        AllUpTo(order, id);
        assert order[..k] == order;
      }
    }
  }

  // ---------------------------------------------------------------- is everything deleted also shown?

  /** Past its first hundred rows, the backlog holds no id up to the last of them. */
  predicate CutsCleanly(ms: seq<Message>)
  {
    forall k :: MAX_COMPACTION_BATCH <= k < |BeforeWindow(ms)| ==> BeforeWindow(ms)[k].id > Through(ms)
  }

  /**
   The header of the summariser promises a record of what is deleted. Two things can break it: a batch
   that does not fit the prompt, and a batch cut at a hundred rows while a row read later has a smaller
   id. Every deleted message is shown to the summariser if and only if neither is the case.
   */
  lemma NothingUnsummarisedExactly(ms: seq<Message>, n: nat)
    requires ById(ms) && |ms| > CONTEXT_WINDOW && IsLongestFit(Batch(ms), n)
    ensures (forall m :: m in UpTo(ms, Through(ms)) ==> m in Batch(ms)[..n])
      <==> |Transcript(Batch(ms))| <= MAX_COMPACTION_INPUT_CHARS && CutsCleanly(ms)
  {
    var batch, older := Batch(ms), BeforeWindow(ms);
    BatchOfBacklog(ms);
    forall m ensures m in UpTo(ms, Through(ms)) <==> m in older && m.id <= Through(ms) { DeletedIsBacklog(ms, m); }
    assert batch[..|batch|] == batch;
    ShownExactly(older, |batch|, n, Through(ms));
  }

  lemma BatchOfBacklog(ms: seq<Message>)
    requires ById(ms) && |ms| > CONTEXT_WINDOW
    ensures var batch, older := Batch(ms), BeforeWindow(ms);
      && Sorted(older) && 0 < |batch| <= |older| && batch == older[..|batch|] && batch[|batch| - 1].id == Through(ms)
      && (CutsCleanly(ms) <==> forall k :: |batch| <= k < |older| ==> older[k].id > Through(ms))
  {
    OrderedExactly(ms);
    UpToIsSorted(Ordered(ms), Cutoff(ms).id);
    BatchIsNotEmpty(ms);
  }

  lemma DeletedIsBacklog(ms: seq<Message>, m: Message)
    requires ById(ms) && |ms| > CONTEXT_WINDOW
    ensures m in UpTo(ms, Through(ms)) <==> m in BeforeWindow(ms) && m.id <= Through(ms)
  {
    LastOfBatchIsHeld(ms);
    UpToHas(ms, Through(ms), m);
    UpToHas(Ordered(ms), Cutoff(ms).id, m);
    InOrder(ms, m);
  }

  /** Of a sorted backlog, the first `size` rows are the batch and the first `n` of them are shown. */
  lemma ShownExactly(older: seq<Message>, size: nat, n: nat, through: nat)
    requires Sorted(older) && n <= size <= |older| && size > 0 && older[size - 1].id == through
    ensures (forall m :: m in older && m.id <= through ==> m in older[..size][..n])
      <==> n == size && forall k :: size <= k < |older| ==> older[k].id > through
  {
    assert older[..size][..n] == older[..n];
    if forall m :: m in older && m.id <= through ==> m in older[..n] {
      InPrefix(older, size - 1, n);
      forall k | size <= k < |older| ensures older[k].id > through {
        if older[k].id <= through { InPrefix(older, k, n); }
      }
    }
    if n == size && forall k :: size <= k < |older| ==> older[k].id > through {
      forall m | m in older && m.id <= through ensures m in older[..n] {
        var k :| 0 <= k < |older| && older[k] == m;
        assert older[..n][k] == m;
      }
    }
  }

  lemma InPrefix(older: seq<Message>, k: nat, n: nat)
    requires Sorted(older) && n <= |older| && k < |older| && older[k] in older[..n]
    ensures k < n
  {
    var i :| 0 <= i < n && older[..n][i] == older[k];
    assert older[i] == older[k];
  }

  /** With a clock that never steps back only the budget is left to decide. */
  lemma NothingUnsummarisedWhenSteady(ms: seq<Message>, n: nat)
    requires ById(ms) && ClockAdvances(ms) && |ms| > CONTEXT_WINDOW && IsLongestFit(Batch(ms), n)
    ensures (forall m :: m in UpTo(ms, Through(ms)) ==> m in Batch(ms)[..n])
      <==> |Transcript(ms[..Taken(|ms|)])| <= MAX_COMPACTION_INPUT_CHARS
  {
    BatchExactly(ms);
    BeforeWindowExactly(ms);
    NothingUnsummarisedExactly(ms, n);
  }

  /** A hundred and thirty empty messages; the first was stamped after the hundred and five that follow it. */
  function Displaced(): (ms: seq<Message>)
    ensures |ms| == 130 && ById(ms)
    ensures forall i :: 0 <= i < 130 ==>
      ms[i] == Message(i + 1, if i == 0 then 1 else if i < 106 then 0 else 2, [], [], [])
  {
    seq(130, i requires 0 <= i < 130 => Message(i + 1, if i == 0 then 1 else if i < 106 then 0 else 2, [], [], []))
  }

  lemma DisplacedOrder(ms: seq<Message>)
    requires ms == Displaced()
    ensures Ordered(ms) == ms[1..106] + [ms[0]] + ms[106..]
  {
    var order := ms[1..106] + [ms[0]] + ms[106..];
    assert ms == [ms[0]] + ms[1..106] + ms[106..];
    OrderedIs(ms, order);
  }

  lemma DisplacedBatch(ms: seq<Message>)
    requires ms == Displaced()
    ensures Batch(ms) == ms[1..101] && Through(ms) == 101
  {
    DisplacedOrder(ms);
    var order := ms[1..106] + [ms[0]] + ms[106..];
    assert order[109] == ms[109];
    UpToPrefix(order, 110, 110);
    assert order[..110][..100] == ms[1..101];
  }

  /** Its first message is deleted by a compaction whose batch, which fits any budget, never held it. */
  lemma DisplacedIsDeletedUnseen(ms: seq<Message>)
    requires ms == Displaced()
    ensures ms[0] in UpTo(ms, Through(ms)) && ms[0] !in Batch(ms)
  {
    DisplacedBatch(ms);
    UpToHas(ms, 101, ms[0]);
  }

  /** Messages without content, all written within one second. */
  function Empties(n: nat): (ms: seq<Message>)
    ensures |ms| == n && ById(ms) && ClockAdvances(ms)
    ensures forall i :: 0 <= i < n ==> ms[i] == Message(i + 1, 0, [], [], [])
  {
    seq(n, i requires 0 <= i < n => Message(i + 1, 0, [], [], []))
  }

  /** Fifty-one messages, the first of which alone exceeds the budget. */
  function Oversized(): (ms: seq<Message>)
    ensures |ms| == 51 && ById(ms) && ClockAdvances(ms) && |ms[0].content| == MAX_COMPACTION_INPUT_CHARS
  {
    Empties(51)[0 := Message(1, 0, [], seq(MAX_COMPACTION_INPUT_CHARS, i => 0), [])]
  }

  /** The whole batch of thirty-one is deleted and none of it is shown. */
  lemma OversizedIsDeletedUnseen(ms: seq<Message>, n: nat)
    requires ms == Oversized() && IsLongestFit(Batch(ms), n)
    ensures n == 0 && forall i :: 0 <= i < 31 ==> ms[i] in UpTo(ms, Through(ms)) && ms[i] !in Batch(ms)[..n]
  {
    CompactsExactly(ms);
    var batch := Batch(ms);
    assert batch == ms[..31];
    assert batch[..1] == [ms[0]];
    OneLine(ms[0]);
  }

  lemma OneLine(m: Message)
    ensures |Transcript([m])| > |m.content|
  {
    assert [m][..0] == [];
  }

  // ---------------------------------------------------------------- does the window survive?

  /**
   The newest twenty messages survive a compaction if and only if each of them has a larger id than the
   last row of the batch.
   */
  lemma WindowSurvivesExactly(ms: seq<Message>)
    requires ById(ms) && |ms| > CONTEXT_WINDOW
    ensures (forall w :: w in Window(ms) ==> w in After(ms, Through(ms)))
      <==> (forall w :: w in Window(ms) ==> Through(ms) < w.id)
  {
    forall w | w in Window(ms) ensures w in After(ms, Through(ms)) <==> Through(ms) < w.id {
      WindowIsNewer(ms, w);
      UpToHas(ms, Through(ms), w);
    }
  }

  /** Whatever its size, the batch never ends above the cutoff, so a window above the cutoff survives. */
  lemma WindowAboveCutoffSurvives(ms: seq<Message>)
    requires ById(ms) && |ms| > CONTEXT_WINDOW && forall w :: w in Window(ms) ==> Cutoff(ms).id < w.id
    ensures forall w :: w in Window(ms) ==> w in After(ms, Through(ms))
  {
    LastOfBatchIsHeld(ms);
    WindowSurvivesExactly(ms);
  }

  /** A batch that is not cut reaches a misplaced row of the window, so there the cutoff decides both ways. */
  lemma UncutWindowSurvivesExactly(ms: seq<Message>)
    requires ById(ms) && |ms| > CONTEXT_WINDOW && |BeforeWindow(ms)| <= MAX_COMPACTION_BATCH
    ensures (forall w :: w in Window(ms) ==> w in After(ms, Through(ms)))
      <==> (forall w :: w in Window(ms) ==> Cutoff(ms).id < w.id)
  {
    WindowSurvivesExactly(ms);
    LastOfBatchIsHeld(ms);
    if w :| w in Window(ms) && w.id <= Cutoff(ms).id {
      WindowIsNewer(ms, w);
      LastOfBatch(ms, w);
      LastIsInWindow(ms, Batch(ms)[|Batch(ms)| - 1], w);
    }
  }

  /** A row of the table that is not older than a row of the window is itself in the window. */
  lemma LastIsInWindow(ms: seq<Message>, t: Message, w: Message)
    requires ById(ms) && |ms| > CONTEXT_WINDOW && w in Window(ms) && t in Ordered(ms) && (t == w || Before(w, t))
    ensures t in Window(ms)
  {
    OrderedExactly(ms);
    NewerStays(Ordered(ms), |ms| - CONTEXT_WINDOW, t, w);
  }

  lemma NewerStays(order: seq<Message>, edge: nat, t: Message, w: Message)
    requires Sorted(order) && edge <= |order| && w in order[edge..] && t in order && (t == w || Before(w, t))
    ensures t in order[edge..]
  {
    var i :| 0 <= i < |order| && order[i] == t;
    var j :| edge <= j < |order| && order[j] == w;
    if i < edge { assert false; }
    assert order[edge..][i - edge] == t;
  }

  /** `head` messages, twenty more, and a last one whose stamp lies between the two. */
  function Skewed(head: nat): (ms: seq<Message>)
    ensures |ms| == head + 21 && ById(ms)
    ensures forall i :: 0 <= i < head + 21 ==>
      ms[i] == Message(i + 1, if i < head then 0 else if i < head + 20 then 2 else 1, [], [], [])
  {
    seq(head + 21, i requires 0 <= i < head + 21 =>
      Message(i + 1, if i < head then 0 else if i < head + 20 then 2 else 1, [], [], []))
  }

  lemma SkewedOrder(head: nat, ms: seq<Message>)
    requires ms == Skewed(head)
    ensures Ordered(ms) == ms[..head] + [ms[head + 20]] + ms[head..head + 20]
  {
    var order := ms[..head] + [ms[head + 20]] + ms[head..head + 20];
    assert ms == ms[..head] + ms[head..head + 20] + [ms[head + 20]];
    OrderedIs(ms, order);
  }

  /** The newest message outside the window has the largest id of all, so the backlog is the whole table. */
  lemma SkewedBacklog(head: nat, ms: seq<Message>)
    requires ms == Skewed(head)
    ensures BeforeWindow(ms) == ms[..head] + [ms[head + 20]] + ms[head..head + 20]
  {
    var order := ms[..head] + [ms[head + 20]] + ms[head..head + 20];
    SkewedOrder(head, ms);
    assert order[head] == ms[head + 20];
    AllUpTo(order, head + 21);
  }

  /** Of these fifty-one messages a compaction keeps one. */
  lemma SkewedLosesTheWindow(ms: seq<Message>)
    requires ms == Skewed(30)
    ensures After(ms, Through(ms)) == [ms[50]]
  {
    SkewedBacklog(30, ms);
    assert BeforeWindow(ms)[50] == ms[49];
    SplitAt(ms, 49);
  }

  /** Of these hundred and twenty it keeps none: the hundredth in reading order has the largest id. */
  lemma SkewedLosesEverything(ms: seq<Message>)
    requires ms == Skewed(99)
    ensures After(ms, Through(ms)) == []
  {
    SkewedBacklog(99, ms);
    assert BeforeWindow(ms)[99] == ms[119];
    assert Through(ms) == 120;
    NoneAfter(ms, 120);
  }
}
