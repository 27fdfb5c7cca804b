/**
 The ceremony before a compaction and the hand-off after it. Near the ceiling an agent is asked to write a
 deposition; once the conversation has been compacted, the newest deposition not yet read is served, once.
 The directory itself is the only state: a deposition counts as read when its receipt lies beside it.
 */
module Handsoff {
  import opened Prelude
  import opened Compaction

  // ---------------------------------------------------------------- the threshold

  const DEFAULT_THRESHOLD_PCT: nat := 85

  /** `raw` is the setting: absent, or present and either a number or not one. */
  function ResolveThresholdPct(raw: Option<Option<nat>>): (pct: nat)
    ensures 1 <= pct <= 100
    ensures pct != 85 ==> raw == Some(Some(pct))
    ensures raw.Some? && raw.value.Some? && 1 <= raw.value.value <= 100 ==> pct == raw.value.value
  {
    if raw.Some? && raw.value.Some? && 1 <= raw.value.value <= 100 then raw.value.value else DEFAULT_THRESHOLD_PCT
  }

  predicate CeremonyDue(count: nat, pct: nat)
  {
    count * 100 >= pct * COMPACTION_THRESHOLD
  }

  function Ceiling(a: nat, b: nat): nat
    requires b > 0
  {
    (a + b - 1) / b
  }

  function Threshold(pct: nat): nat
  {
    Ceiling(pct * COMPACTION_THRESHOLD, 100)
  }

  /** Due at exactly the ceiling of the percentage, and always when a compaction can fire. */
  lemma DueExactly(count: nat, pct: nat)
    requires 1 <= pct <= 100
    ensures CeremonyDue(count, pct) <==> count >= Threshold(pct)
    ensures 1 <= Threshold(pct) <= COMPACTION_THRESHOLD
    ensures count > COMPACTION_THRESHOLD ==> CeremonyDue(count, pct)
  {
    assert Threshold(pct) == (pct + 1) / 2;
  }

  /**
   The count is taken when a turn begins and the compaction runs when it ends. So a compaction is never
   without its ceremony if and only if no turn adds more messages than the margin above the threshold.
   */
  lemma CeremonyComesFirstExactly(pct: nat, replies: nat)
    requires 1 <= pct <= 100
    ensures (forall count: nat :: count + replies > COMPACTION_THRESHOLD ==> CeremonyDue(count, pct))
      <==> replies + Threshold(pct) <= COMPACTION_THRESHOLD + 1
  {
    forall count: nat ensures CeremonyDue(count, pct) <==> count >= Threshold(pct) { DueExactly(count, pct); }
    DueExactly(0, pct);
    var below := Threshold(pct) - 1;
    assert !CeremonyDue(below, pct);
  }

  // ---------------------------------------------------------------- names

  const SUFFIX: string := "-compaction-handsoff.md"

  predicate EndsWith(s: string, suffix: string)
  {
    |suffix| <= |s| && s[|s| - |suffix|..] == suffix
  }

  predicate IsHandsoff(name: string)
  {
    |name| > |SUFFIX| && EndsWith(name, SUFFIX)
  }

  function ResponseName(name: string): string
  {
    if EndsWith(name, ".md") then name[..|name| - 3] + "-response.md" else name + "-response.md"
  }

  /** A receipt lies in the same directory, hidden. */
  function Receipt(name: string): string
  {
    "." + name + ".read"
  }

  lemma SuffixOfSuffix(s: string, short: string, long: string)
    requires EndsWith(s, short) && EndsWith(s, long) && |short| <= |long|
    ensures EndsWith(long, short)
  {
    var n := |long| - |short|;
    assert s[|s| - |short|..] == s[|s| - |long|..][n..];
  }

  lemma EndsWithAppended(head: string, tail: string)
    ensures EndsWith(head + tail, tail)
  {
  }

  /** Neither a receipt nor a response is ever taken for a deposition, whatever it was made from. */
  lemma OnlyDepositionsAreDepositions(name: string)
    ensures !IsHandsoff(Receipt(name)) && !IsHandsoff(ResponseName(name))
  {
    EndsWithAppended("." + name, ".read");
    assert SUFFIX[|SUFFIX| - 5..][3] == 'm';
    if IsHandsoff(Receipt(name)) {
      SuffixOfSuffix(Receipt(name), ".read", SUFFIX);
      assert false;
    }
    var stem := if EndsWith(name, ".md") then name[..|name| - 3] else name;
    EndsWithAppended(stem, "-response.md");
    assert SUFFIX[|SUFFIX| - 12..][1] == 'h';
    if IsHandsoff(ResponseName(name)) {
      SuffixOfSuffix(ResponseName(name), "-response.md", SUFFIX);
      assert false;
    }
  }

  /** Something must stand before the suffix; the response to a deposition takes the place of its extension. */
  lemma NamesExactly(stem: string)
    ensures IsHandsoff(stem + SUFFIX) <==> stem != ""
    ensures ResponseName(stem + ".md") == stem + "-response.md" && Receipt(stem) == "." + stem + ".read"
    ensures !EndsWith(stem, ".md") ==> ResponseName(stem) == stem + "-response.md"
  {
    EndsWithAppended(stem, SUFFIX);
    EndsWithAppended(stem, ".md");
    assert (stem + ".md")[..|stem|] == stem;
  }

  /** No deposition is marked read by another one's receipt. */
  lemma ReceiptIsOwn(a: string, b: string)
    requires Receipt(a) == Receipt(b)
    ensures a == b
  {
    assert |a| == |b|;
    assert Receipt(a)[1..|a| + 1] == a && Receipt(b)[1..|b| + 1] == b;
  }

  // ---------------------------------------------------------------- the order of names

  /** Lexicographic order; on names that open with a fixed-width instant it is the order of time. */
  predicate Less(a: string, b: string)
  {
    b != [] && (a == [] || a[0] < b[0] || (a[0] == b[0] && Less(a[1..], b[1..])))
  }

  /** At the first place where they differ the one has ended, or has the smaller character. */
  ghost predicate ComesBefore(a: string, b: string, k: nat)
  {
    k <= |a| && k < |b| && a[..k] == b[..k] && (k == |a| || a[k] < b[k])
  }

  /** The order is the lexicographic one. */
  lemma {:induction false} LessExactly(a: string, b: string)
    ensures Less(a, b) <==> exists k: nat :: ComesBefore(a, b, k)
  {
    if b != [] && (a == [] || a[0] < b[0]) {
      assert ComesBefore(a, b, 0);
    } else if a != [] && b != [] && a[0] == b[0] {
      var x, y := a[1..], b[1..];
      LessExactly(x, y);
      assert a == [a[0]] + x && b == [b[0]] + y;
      if k: nat :| ComesBefore(x, y, k) {
        assert a[..k + 1] == [a[0]] + x[..k] && b[..k + 1] == [b[0]] + y[..k];
        assert ComesBefore(a, b, k + 1);
      }
      if k: nat :| ComesBefore(a, b, k) {
        assert x[..k - 1] == a[..k][1..] && y[..k - 1] == b[..k][1..];
        assert ComesBefore(x, y, k - 1);
      }
    } else if a != [] && b != [] {
      forall k: nat ensures ComesBefore(a, b, k) ==> k == 0 || a[0] == b[0] { HeadsAgree(a, b, k); }
    }
  }

  lemma HeadsAgree(a: string, b: string, k: nat)
    requires a != [] && b != []
    ensures ComesBefore(a, b, k) ==> k == 0 || a[0] == b[0]
  {
    if ComesBefore(a, b, k) && k > 0 { assert a[..k][0] == a[0] && b[..k][0] == b[0]; }
  }

  lemma {:induction false} LessIsTotal(a: string, b: string)
    ensures a == b || Less(a, b) || Less(b, a)
    ensures !(Less(a, b) && Less(b, a)) && !Less(a, a)
  {
    if a != [] {
      LessIsTotal(a[1..], a[1..]);
      if b != [] && a[0] == b[0] {
        LessIsTotal(a[1..], b[1..]);
        assert a == [a[0]] + a[1..] && b == [b[0]] + b[1..];
      }
    }
  }

  lemma {:induction false} LessIsTransitive(a: string, b: string, c: string)
    requires Less(a, b) && Less(b, c)
    ensures Less(a, c)
  {
    if a != [] && a[0] == b[0] && b[0] == c[0] { LessIsTransitive(a[1..], b[1..], c[1..]); }
  }

  /** No later name in the list is greater than an earlier one. */
  predicate Descending(names: seq<string>)
  {
    forall i, j :: 0 <= i < j < |names| ==> !Less(names[i], names[j])
  }

  function Insert(names: seq<string>, name: string): (r: seq<string>)
    ensures multiset(r) == multiset(names) + multiset{name}
  {
    if names == [] then [name]
    else
      assert names == [names[0]] + names[1..];
      if Less(names[0], name) then [name] + names else [names[0]] + Insert(names[1..], name)
  }

  function SortDescending(names: seq<string>): (r: seq<string>)
    ensures multiset(r) == multiset(names)
  {
    if names == [] then []
    else
      assert names == [names[0]] + names[1..];
      Insert(SortDescending(names[1..]), names[0])
  }

  lemma {:induction false} InsertDescends(names: seq<string>, name: string)
    requires Descending(names)
    ensures Descending(Insert(names, name))
  {
    if names != [] {
      if Less(names[0], name) {
        forall j | 0 <= j < |names| ensures !Less(name, names[j]) {
          if Less(name, names[j]) {
            LessIsTransitive(names[0], name, names[j]);
            LessIsTotal(names[0], names[0]);
          }
        }
      } else {
        InsertDescends(names[1..], name);
        HeadStays(names, name);
      }
    }
  }

  lemma HeadStays(names: seq<string>, name: string)
    requires names != [] && Descending(names) && !Less(names[0], name) && Descending(Insert(names[1..], name))
    ensures Descending([names[0]] + Insert(names[1..], name))
  {
    var inner := Insert(names[1..], name);
    forall j | 0 <= j < |inner| ensures !Less(names[0], inner[j]) {
      InsertedFrom(names[1..], name, j);
    }
    ConsDescends(names[0], inner);
  }

  lemma ConsDescends(head: string, names: seq<string>)
    requires Descending(names) && forall j :: 0 <= j < |names| ==> !Less(head, names[j])
    ensures Descending([head] + names)
  {
  }

  lemma InsertedFrom(names: seq<string>, name: string, j: nat)
    requires j < |Insert(names, name)|
    ensures Insert(names, name)[j] == name || Insert(names, name)[j] in names
  {
    var r := Insert(names, name);
    assert r[j] in multiset(r);
  }

  lemma {:induction false} SortDescends(names: seq<string>)
    ensures Descending(SortDescending(names))
  {
    if names != [] {
      SortDescends(names[1..]);
      InsertDescends(SortDescending(names[1..]), names[0]);
    }
  }

  // ---------------------------------------------------------------- what is served

  /** Depositions in the directory whose receipt is not seen. A receipt that cannot be probed is not seen. */
  ghost predicate Unread(files: set<string>, hidden: set<string>, name: string)
  {
    name in files && IsHandsoff(name) && (Receipt(name) !in files || Receipt(name) in hidden)
  }

  ghost predicate NewestUnread(files: set<string>, hidden: set<string>, r: Option<string>)
  {
    if r.None? then forall name :: !Unread(files, hidden, name)
    else Unread(files, hidden, r.value) && forall name :: Unread(files, hidden, name) && name != r.value ==>
      Less(name, r.value)
  }

  lemma NewestIsUnique(files: set<string>, hidden: set<string>, a: Option<string>, b: Option<string>)
    requires NewestUnread(files, hidden, a) && NewestUnread(files, hidden, b)
    ensures a == b
  {
    if a.Some? && b.Some? { LessIsTotal(a.value, b.value); }
  }

  /** Of two unread depositions that first differ at `k`, the one with the smaller character there is not served. */
  lemma LaterIsServedFirst(files: set<string>, hidden: set<string>, older: string, newer: string, k: nat,
                           served: Option<string>)
    requires Unread(files, hidden, older) && Unread(files, hidden, newer) && NewestUnread(files, hidden, served)
    requires k < |older| && k < |newer| && older[..k] == newer[..k] && older[k] < newer[k]
    ensures served.Some? && served != Some(older)
  {
    assert ComesBefore(older, newer, k);
    LessExactly(older, newer);
    LessIsTotal(older, newer);
  }

  const FIRST: string := "2026-01-01-0900-compaction-handsoff.md"
  const SECOND: string := "2026-01-02-0900-compaction-handsoff.md"

  /** Of the depositions of two days the later one is served. */
  lemma SecondDayIsServed(served: Option<string>)
    requires NewestUnread({FIRST, SECOND}, {}, served)
    ensures served == Some(SECOND)
  {
    DaysAreDepositions();
    LaterIsServedFirst({FIRST, SECOND}, {}, FIRST, SECOND, 9, served);
  }

  lemma DaysAreDepositions()
    ensures Unread({FIRST, SECOND}, {}, FIRST) && Unread({FIRST, SECOND}, {}, SECOND)
    ensures FIRST[..9] == SECOND[..9] && FIRST[9] < SECOND[9]
  {
    assert FIRST[15..] == SUFFIX && SECOND[15..] == SUFFIX;
    assert Receipt(FIRST)[0] == '.' && Receipt(SECOND)[0] == '.';
  }

  datatype Ceremony = Imminent(count: nat) | Serve(name: string, response: string)

  function Entries(listing: seq<string>): set<string>
  {
    set name | name in listing
  }

  class Home {
    /** The directory as the file system lists it, in no particular order. */
    var listing: seq<string>

    method Scan() returns (names: seq<string>)
      ensures Descending(names)
      ensures forall name :: name in names <==> name in listing && IsHandsoff(name)
    {
      names := [];
      for i := 0 to |listing|
        invariant forall name :: name in names <==> name in listing[..i] && IsHandsoff(name)
      {
        assert listing[..i + 1] == listing[..i] + [listing[i]];
        if IsHandsoff(listing[i]) { names := names + [listing[i]]; }
      }
      assert listing[..|listing|] == listing;
      SortDescends(names);
      SameMembers(names);
      names := SortDescending(names);
    }

    /** The newest deposition this agent has not read: the first in descending order without a receipt. */
    method FindUnread(hidden: set<string>) returns (r: Option<string>)
      ensures NewestUnread(Entries(listing), hidden, r)
    {
      var names := Scan();
      for i := 0 to |names|
        invariant forall k :: 0 <= k < i ==> !Unread(Entries(listing), hidden, names[k])
      {
        if Receipt(names[i]) in listing && Receipt(names[i]) !in hidden { continue; }
        FirstIsNewest(names, i, Entries(listing), hidden);
        return Some(names[i]);
      }
      r := None;
    }

    /**
     Resolving and consuming are one operation. A turn that bears witness touches no receipt; any other
     serves the newest unread deposition and lays its receipt, if it can be written.
     */
    method Resolve(imminent: Option<nat>, lists: bool, hidden: set<string>, writes: bool) returns (r: Option<Ceremony>)
      modifies this
      ensures imminent.Some? ==> r == Some(Imminent(imminent.value)) && listing == old(listing)
      ensures imminent.None? && !lists ==> r == None && listing == old(listing)
      ensures imminent.None? && lists ==> exists served ::
        && NewestUnread(old(Entries(listing)), hidden, served)
        && r == (if served.None? then None else Some(Serve(served.value, ResponseName(served.value))))
        && Entries(listing) == AfterServing(old(Entries(listing)), served, writes)
    {
      if imminent.Some? { return Some(Imminent(imminent.value)); }
      if !lists { return None; }
      var served := FindUnread(hidden);
      if served.None? { return None; }
      if writes && Receipt(served.value) !in listing { listing := listing + [Receipt(served.value)]; }
      r := Some(Serve(served.value, ResponseName(served.value)));
    }
  }

  function AfterServing(files: set<string>, served: Option<string>, writes: bool): set<string>
  {
    if served.Some? && writes then files + {Receipt(served.value)} else files
  }

  lemma SameMembers(names: seq<string>)
    ensures forall name :: name in SortDescending(names) <==> name in names
  {
    var r := SortDescending(names);
    forall name ensures name in r <==> name in names { assert name in multiset(r) <==> name in multiset(names); }
  }

  lemma FirstIsNewest(names: seq<string>, i: nat, files: set<string>, hidden: set<string>)
    requires i < |names| && Descending(names) && Unread(files, hidden, names[i])
    requires forall name :: name in names <==> name in files && IsHandsoff(name)
    requires forall k :: 0 <= k < i ==> !Unread(files, hidden, names[k])
    ensures NewestUnread(files, hidden, Some(names[i]))
  {
    forall name | Unread(files, hidden, name) && name != names[i] ensures Less(name, names[i]) {
      var k :| 0 <= k < |names| && names[k] == name;
      LessIsTotal(name, names[i]);
    }
  }
}
