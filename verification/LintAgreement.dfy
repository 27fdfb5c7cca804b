/**
 The lint's second scanner keeps, line by line, whether it is inside a raw string. Here its state is held
 against what Rust reads: when the two agree, what follows when they do, and that nothing less will do.
 */
module LintAgreement {
  import opened Prelude
  import opened LintScanners
  import opened RustText

  /** The scanner believes what is so: outside everything, or inside a raw string of that many hashes. */
  predicate Matches(state: RawState, reading: Reading)
  {
    match reading
    case Code => state.None?
    case Raw(hashes) => state == Some(hashes)
    case Str => false
    case Block(_) => false
  }

  /** The state the scanner should have; for a string or a comment there is none. */
  function View(reading: Reading): RawState
  {
    if reading.Raw? then Some(reading.hashes) else None
  }

  // ---------------------------------------------------------------- one line

  /** Where the opening the scanner goes by begins. */
  function OpensAt(opening: Opening): int
  {
    opening.end - 2 - opening.hashes
  }

  /** That opening is one: Rust comes by it in code, and the `r` belongs to no identifier. */
  predicate Genuine(line: string, opening: Opening)
  {
    var q := OpensAt(opening);
    0 <= q < |line| && Arrives(line, 0, Code, q) && StartsToken(line, q)
  }

  /** What Rust has open at the end of a line, past the closing at `at` of a raw string of so many hashes. */
  function Past(line: string, at: nat, hashes: nat): Reading
  {
    Read(line, at + 1 + hashes, Code)
  }

  /**
   The text of a line that does not lead the scanner astray. Without an opening, nothing may be left open.
   A genuine opening may stay open; if it is closed, nothing may be left open after that. An opening that
   is none, being in a string or a comment or the end of an identifier, must be made up for by the rest of
   the line. A line that begins inside a raw string must leave nothing open after its closing.
   */
  predicate Clean(line: string, reading: Reading)
  {
    match reading
    case Raw(hashes) =>
      var at := FindClosing(line, hashes, 0);
      at.Some? ==> Past(line, at.value, hashes) == Code
    case Code =>
      var opening := SearchOpening(line, 0);
      if opening.None? then Read(line, 0, Code) == Code
      else
        var at := FindClosing(line, opening.value.hashes, opening.value.end);
        if Genuine(line, opening.value) then (at.Some? ==> Past(line, at.value, opening.value.hashes) == Code)
        else Read(line, 0, Code) == if at.Some? then Code else Raw(opening.value.hashes)
    case Str => true
    case Block(_) => true
  }

  lemma ContainsIffFound(line: string, hashes: nat)
    ensures Contains(line, Closing(hashes)) <==> FindClosing(line, hashes, 0).Some?
  {
  }

  lemma LeavesOpenExactly(line: string, opening: Opening)
    requires SearchOpening(line, 0) == Some(opening)
    ensures var at := FindClosing(line, opening.hashes, opening.end);
      LeavesOpen(line) == if at.None? then Some(opening.hashes) else None
  {
    ContainsTail(line, Closing(opening.hashes), opening.end);
  }

  /** A genuine opening takes Rust where the scanner looks on. */
  lemma GenuineReads(line: string, opening: Opening)
    requires SearchOpening(line, 0) == Some(opening) && Genuine(line, opening)
    ensures Read(line, 0, Code) == ReadRaw(line, opening.end, opening.hashes)
  {
    GenuineStart(line, opening, OpensAt(opening));
    RawReads(line, opening.end, opening.hashes);
  }

  lemma GenuineStart(line: string, opening: Opening, q: nat)
    requires SearchOpening(line, 0) == Some(opening) && Genuine(line, opening) && q == OpensAt(opening)
    ensures Read(line, 0, Code) == Read(line, opening.end, Raw(opening.hashes))
  {
    ArrivesReads(line, 0, Code, q);
    GenuineNext(line, opening);
  }

  lemma GenuineNext(line: string, opening: Opening)
    requires SearchOpening(line, 0) == Some(opening) && Genuine(line, opening)
    ensures Read(line, OpensAt(opening), Code) == Read(line, opening.end, Raw(opening.hashes))
  {
    OpeningNext(line, OpensAt(opening), opening.hashes);
  }

  lemma OpeningNext(line: string, q: nat, hashes: nat)
    requires q < |line| && RawOpens(line, q, hashes) && StartsToken(line, q)
    ensures NextInCode(line, q) == Place(q + 2 + hashes, Raw(hashes))
  {
    OpensHereExactly(line, q);
    RawOpensChars(line, q, hashes);
  }

  /** From a state that is so, the scanner comes to one that is so if and only if the line is clean. */
  lemma ScanLineExactly(line: string, reading: Reading)
    requires reading.Code? || reading.Raw?
    ensures Matches(ScanLine(line, View(reading)), Read(line, 0, reading)) <==> Clean(line, reading)
  {
    if reading.Raw? {
      RawReads(line, 0, reading.hashes);
      ContainsIffFound(line, reading.hashes);
    } else if SearchOpening(line, 0).Some? {
      CodeLineExactly(line, SearchOpening(line, 0).value);
    }
  }

  lemma CodeLineExactly(line: string, opening: Opening)
    requires SearchOpening(line, 0) == Some(opening)
    ensures Matches(ScanLine(line, None), Read(line, 0, Code)) <==> Clean(line, Code)
  {
    LeavesOpenExactly(line, opening);
    if Genuine(line, opening) { GenuineLineExactly(line, opening); }
  }

  lemma GenuineLineExactly(line: string, opening: Opening)
    requires SearchOpening(line, 0) == Some(opening) && Genuine(line, opening)
    ensures Matches(ScanLine(line, None), Read(line, 0, Code)) <==> Clean(line, Code)
  {
    LeavesOpenExactly(line, opening);
    GenuineReads(line, opening);
    var at := FindClosing(line, opening.hashes, opening.end);
    var past := if at.None? then Code else Past(line, at.value, opening.hashes);
    MatchExactly(ScanLine(line, None), Read(line, 0, Code), Clean(line, Code), at.Some?, opening.hashes, past);
  }

  lemma MatchExactly(scan: RawState, reading: Reading, clean: bool, closed: bool, hashes: nat, past: Reading)
    requires scan == (if closed then None else Some(hashes)) && reading == (if closed then past else Raw(hashes))
    requires clean <==> (closed ==> past == Code)
    ensures Matches(scan, reading) <==> clean
  {
  }

  // ---------------------------------------------------------------- whole files

  /** The scanner, which set out at line `from`, is right at the head of line `i`. */
  predicate Agrees(lines: seq<string>, from: nat, i: nat)
    requires from <= i <= |lines|
  {
    Matches(Scanned(lines, from, i), ReadTo(lines, i))
  }

  /** It is right at the head of every line up to `n`. */
  predicate AllAgree(lines: seq<string>, from: nat, n: nat)
    requires from <= n <= |lines|
  {
    Agrees(lines, from, n) && (n == from || AllAgree(lines, from, n - 1))
  }

  /** Every line from `from` up to `n` is clean as Rust reads it. */
  predicate AllClean(lines: seq<string>, from: nat, n: nat)
    requires from <= n <= |lines|
  {
    n == from || (AllClean(lines, from, n - 1) && Clean(lines[n - 1], ReadTo(lines, n - 1)))
  }

  lemma NextAgrees(lines: seq<string>, from: nat, i: nat)
    requires from <= i < |lines| && Agrees(lines, from, i)
    ensures Agrees(lines, from, i + 1) <==> Clean(lines[i], ReadTo(lines, i))
  {
    var reading := ReadTo(lines, i);
    assert Scanned(lines, from, i) == View(reading);
    ScanLineExactly(lines[i], reading);
  }

  /** It is right all the way down if and only if it set out in code and every line is clean. */
  lemma {:induction false} StatesAgreeExactly(lines: seq<string>, from: nat, n: nat)
    requires from <= n <= |lines|
    ensures AllAgree(lines, from, n) <==> ReadTo(lines, from) == Code && AllClean(lines, from, n)
    decreases n
  {
    if from < n {
      StatesAgreeExactly(lines, from, n - 1);
      if AllAgree(lines, from, n - 1) { NextAgrees(lines, from, n - 1); }
    }
  }

  // ---------------------------------------------------------------- the report

  /** An item of code: at column zero, and the line begins outside every string and comment. */
  predicate IsItemLine(p: Patterns, lines: seq<string>, i: nat)
    requires i < |lines|
  {
    ReadTo(lines, i) == Code && p.item(lines[i])
  }

  ghost predicate FirstItemLine(p: Patterns, lines: seq<string>, from: nat, r: Option<nat>)
    requires from <= |lines|
  {
    && (r.Some? ==> from <= r.value < |lines| && IsItemLine(p, lines, r.value))
    && (forall i :: from <= i < |lines| && (r.None? || i < r.value) ==> !IsItemLine(p, lines, i))
  }

  /** The scanner reports the first item of code, except when that item's own line leaves a raw string open. */
  ghost predicate ReportsRight(p: Patterns, lines: seq<string>, from: nat)
    requires from <= |lines|
  {
    forall meant: Option<nat>, found: Option<nat> ::
      FirstItemLine(p, lines, from, meant) && FirstReported(p, lines, from, found) ==>
      (found == meant <==> meant.None? || LeavesOpen(lines[meant.value]).None?)
  }

  /** Line `i` agrees and so on to the end: from there, what is reported is an item, and the other way round. */
  lemma ReportedIsItem(p: Patterns, lines: seq<string>, from: nat, i: nat)
    requires from <= i < |lines| && (Agrees(lines, from, i) || !p.item(lines[i]))
    ensures IsReported(p, lines, from, i) <==> IsItemLine(p, lines, i) && LeavesOpen(lines[i]).None?
  {
  }

  lemma RightWhereItAgrees(p: Patterns, lines: seq<string>, from: nat)
    requires from <= |lines|
    requires forall i :: from <= i < |lines| ==> Agrees(lines, from, i) || !p.item(lines[i])
    ensures ReportsRight(p, lines, from)
  {
    forall i | from <= i < |lines|
      ensures IsReported(p, lines, from, i) <==> IsItemLine(p, lines, i) && LeavesOpen(lines[i]).None?
    {
      ReportedIsItem(p, lines, from, i);
    }
    forall meant: Option<nat>, found: Option<nat>
      | FirstItemLine(p, lines, from, meant) && FirstReported(p, lines, from, found)
      ensures found == meant <==> meant.None? || LeavesOpen(lines[meant.value]).None?
    {
      RightPair(p, lines, from, meant, found);
    }
  }

  lemma RightPair(p: Patterns, lines: seq<string>, from: nat, meant: Option<nat>, found: Option<nat>)
    requires from <= |lines| && FirstItemLine(p, lines, from, meant) && FirstReported(p, lines, from, found)
    requires forall i :: from <= i < |lines| ==>
      (IsReported(p, lines, from, i) <==> IsItemLine(p, lines, i) && LeavesOpen(lines[i]).None?)
    ensures found == meant <==> meant.None? || LeavesOpen(lines[meant.value]).None?
  {
  }

  /**
   In a file that is clean from `from`, where code goes on, the scanner reports the first item of code
   there is, unless that item's own line leaves a raw string open.
   */
  lemma ReportsFirstItemWhenClean(p: Patterns, lines: seq<string>, from: nat)
    requires from <= |lines| && ReadTo(lines, from) == Code && AllClean(lines, from, |lines|)
    ensures ReportsRight(p, lines, from)
  {
    StatesAgreeExactly(lines, from, |lines|);
    forall i | from <= i < |lines| ensures Agrees(lines, from, i) { AgreesAt(lines, from, |lines|, i); }
    RightWhereItAgrees(p, lines, from);
  }

  lemma {:induction false} AgreesAt(lines: seq<string>, from: nat, n: nat, k: nat)
    requires from <= k <= n <= |lines| && AllAgree(lines, from, n)
    ensures Agrees(lines, from, k)
    decreases n
  {
    if k < n { AgreesAt(lines, from, n - 1, k); }
  }

  // ---------------------------------------------------------------- nothing less will do

  /** The one thing assumed of the item pattern: what it accepts begins with a letter. */
  ghost predicate ItemsBeginWithLetters(p: Patterns)
  {
    forall line :: p.item(line) ==> line != "" && IsIdent(line[0])
  }

  /** An item with nothing in it that could open or close anything. */
  ghost predicate IsProbe(p: Patterns, probe: string)
  {
    p.item(probe) && Inert(probe)
  }

  lemma PlainItemIsInert()
    ensures Inert("fn f() {")
  {
  }

  predicate ItemFree(p: Patterns, lines: seq<string>, from: nat)
    requires from <= |lines|
  {
    forall i :: from <= i < |lines| ==> !p.item(lines[i])
  }

  /** The file may go on like this: each further line is clean as Rust reads it. */
  predicate GoesOnCleanly(lines: seq<string>, more: seq<string>)
  {
    AllClean(lines + more, |lines|, |lines + more|)
  }

  lemma {:induction false} PrefixReads(lines: seq<string>, more: seq<string>, from: nat, i: nat)
    requires from <= i <= |lines|
    ensures ReadTo(lines + more, i) == ReadTo(lines, i) && Scanned(lines + more, from, i) == Scanned(lines, from, i)
    decreases i
  {
    if i > 0 { assert (lines + more)[i - 1] == lines[i - 1]; }
    if from < i {
      PrefixReads(lines, more, from, i - 1);
    } else if i > 0 {
      PrefixReads(lines, more, i - 1, i - 1);
    }
  }

  lemma {:induction false} AgreesOn(lines: seq<string>, from: nat, n: nat, i: nat)
    requires from <= n <= i <= |lines| && Agrees(lines, from, n) && AllClean(lines, n, i)
    ensures Agrees(lines, from, i)
    decreases i
  {
    if n < i {
      AgreesOn(lines, from, n, i - 1);
      NextAgrees(lines, from, i - 1);
    }
  }

  lemma {:induction false} CleanUpTo(lines: seq<string>, from: nat, n: nat, i: nat)
    requires from <= i <= n <= |lines| && AllClean(lines, from, n)
    ensures AllClean(lines, from, i)
    decreases n
  {
    if i < n { CleanUpTo(lines, from, n - 1, i); }
  }

  /** Once right, the scanner stays right, and reports right, however the file goes on cleanly. */
  lemma RightOnwards(p: Patterns, lines: seq<string>, from: nat, more: seq<string>)
    requires from <= |lines| && ItemFree(p, lines, from) && Agrees(lines, from, |lines|) && GoesOnCleanly(lines, more)
    ensures ReportsRight(p, lines + more, from)
  {
    var all := lines + more;
    PrefixReads(lines, more, from, |lines|);
    forall i | from <= i < |all| ensures Agrees(all, from, i) || !p.item(all[i]) {
      if i < |lines| {
        assert all[i] == lines[i];
      } else {
        CleanUpTo(all, |lines|, |all|, i);
        AgreesOn(all, from, |lines|, i);
      }
    }
    RightWhereItAgrees(p, all, from);
  }

  /** A single probe tells these two apart: one of them is in code and the other is not. */
  predicate Apart(state: RawState, reading: Reading)
  {
    (reading == Code) != state.None?
  }

  lemma ProbeIsClean(probe: string, reading: Reading)
    requires Inert(probe)
    ensures LeavesOpen(probe).None? && Clean(probe, reading) && Read(probe, 0, reading) == reading
  {
    InertKeeps(probe, 0, reading);
    NoOpening(probe);
    if reading.Raw? {
      forall k: nat | k < |probe| ensures !OccursAt(probe, Closing(reading.hashes), k) {
        NoQuoteNoClosing(probe, reading.hashes, k);
      }
    }
  }

  lemma NoOpening(line: string)
    requires '"' !in line || Inert(line)
    ensures SearchOpening(line, 0).None?
  {
    var opening := SearchOpening(line, 0);
    if opening.Some? { RawOpensChars(line, OpensAt(opening.value), opening.value.hashes); }
  }

  /** With such a difference at the end of the file, one more line, the probe, is reported wrongly. */
  lemma ProbeTells(p: Patterns, lines: seq<string>, from: nat, probe: string)
    requires from <= |lines| && ItemFree(p, lines, from) && IsProbe(p, probe)
    requires Apart(Scanned(lines, from, |lines|), ReadTo(lines, |lines|))
    ensures GoesOnCleanly(lines, [probe]) && !ReportsRight(p, lines + [probe], from)
  {
    var all, n := lines + [probe], |lines|;
    PrefixReads(lines, [probe], from, n);
    ProbeIsClean(probe, ReadTo(lines, n));
    assert all[n] == probe && AllClean(all, n, n);
    forall i | from <= i < n ensures !p.item(all[i]) { assert all[i] == lines[i]; }
    if ReadTo(lines, n) == Code {
      assert FirstItemLine(p, all, from, Some(n)) && FirstReported(p, all, from, None);
    } else {
      assert FirstItemLine(p, all, from, None) && FirstReported(p, all, from, Some(n));
    }
  }

  // ---------------------------------------------------------------- a line that brings a difference out

  /** A quote and some hashes: the closing of a raw string of as many. */
  lemma ClosingLine(n: nat, hashes: nat)
    ensures FindClosing(Closing(n), hashes, 0) == if hashes <= n then Some(0) else None
  {
    var line := Closing(n);
    if hashes <= n {
      assert line[..1 + hashes] == Closing(hashes);
      assert OccursAt(line, Closing(hashes), 0);
    } else {
      assert |line| < |Closing(hashes)|;
    }
  }

  lemma ClosingLineReads(n: nat, reading: Reading)
    ensures Read(Closing(n), 0, Str) == Code
    ensures reading.Block? ==> Read(Closing(n), 0, reading) == reading
    ensures reading.Raw? ==> Read(Closing(n), 0, reading) == if reading.hashes <= n then Code else reading
  {
    var line := Closing(n);
    assert line[0] == '"' && forall k :: 1 <= k < |line| ==> line[k] == '#';
    InertKeeps(line, 1, Code);
    if reading.Block? { InertKeeps(line, 1, reading); }
    if reading.Raw? {
      RawReads(line, 0, reading.hashes);
      ClosingLine(n, reading.hashes);
      if reading.hashes <= n { InertKeeps(line, 1 + reading.hashes, Code); }
    }
  }

  lemma ClosingLineIsClean(n: nat, reading: Reading)
    requires reading.Raw? && reading.hashes >= n
    ensures Clean(Closing(n), reading)
  {
    ClosingLine(n, reading.hashes);
    if reading.hashes == n { ClosingLineReads(n, reading); InertKeeps(Closing(n), 1 + n, Code); }
  }

  const ESCAPED: string := "\\\""

  /** An escaped quote closes no string, but the scanner takes it for the closing of a raw one. */
  lemma EscapedReads()
    ensures Read(ESCAPED, 0, Str) == Str && FindClosing(ESCAPED, 0, 0) == Some(1)
  {
    assert ESCAPED[0] == '\\' && |ESCAPED| == 2;
    assert Next(ESCAPED, 0, Str) == Place(2, Str);
    assert Closing(0) == "\"" && ESCAPED[1..2] == "\"" && ESCAPED[0..1] != "\"";
  }

  /** Any two states that do not match and that a probe does not tell apart are told apart after one more line. */
  lemma Telling(state: RawState, reading: Reading) returns (line: string)
    requires !Matches(state, reading) && !Apart(state, reading)
    ensures Apart(ScanLine(line, state), Read(line, 0, reading)) && Clean(line, reading)
    ensures line != "" && !IsIdent(line[0])
  {
    var k := state.value;
    match reading
    case Raw(hashes) =>
      line := if hashes < k then Closing(hashes) else Closing(k);
      TellingRaw(hashes, k, line);
    case Str =>
      line := if k == 0 then ESCAPED else Closing(0);
      EscapedReads();
      ClosingLineReads(0, reading);
      ClosingLine(0, k);
      ContainsIffFound(line, k);
    case Block(_) =>
      line := Closing(k);
      ClosingLineReads(k, reading);
      ClosingLine(k, k);
      ContainsIffFound(line, k);
  }

  lemma TellingRaw(hashes: nat, k: nat, line: string)
    requires hashes != k && line == Closing(if hashes < k then hashes else k)
    ensures Apart(ScanLine(line, Some(k)), Read(line, 0, Raw(hashes))) && Clean(line, Raw(hashes))
  {
    var n := if hashes < k then hashes else k;
    ClosingLineReads(n, Raw(hashes));
    ClosingLineIsClean(n, Raw(hashes));
    ClosingLine(n, k);
    ContainsIffFound(line, k);
  }

  /** Wherever the scanner is wrong at the end of an item-free file, a clean continuation shows it. */
  lemma WrongShows(p: Patterns, lines: seq<string>, from: nat, probe: string) returns (more: seq<string>)
    requires from <= |lines| && ItemFree(p, lines, from) && IsProbe(p, probe) && ItemsBeginWithLetters(p)
    requires !Agrees(lines, from, |lines|)
    ensures GoesOnCleanly(lines, more) && !ReportsRight(p, lines + more, from)
  {
    var state, reading := Scanned(lines, from, |lines|), ReadTo(lines, |lines|);
    if Apart(state, reading) {
      ProbeTells(p, lines, from, probe);
      more := [probe];
    } else {
      var line := Telling(state, reading);
      var longer := lines + [line];
      PrefixReads(lines, [line], from, |lines|);
      assert longer[|lines|] == line;
      assert Scanned(longer, from, |longer|) == ScanLine(line, state);
      assert ReadTo(longer, |longer|) == Read(line, 0, reading);
      ProbeTells(p, longer, from, probe);
      more := [line, probe];
      var all := longer + [probe];
      assert lines + more == all && all[|lines|] == line;
      PrefixReads(lines, more, |lines|, |lines|);
      CleanAfterwards(all, |lines|);
    }
  }

  lemma CleanAfterwards(all: seq<string>, n: nat)
    requires n + 2 == |all| && Clean(all[n], ReadTo(all, n)) && AllClean(all, n + 1, |all|)
    ensures AllClean(all, n, |all|)
  {
    CleanOne(all, n);
    CleanJoins(all, n, n + 1, n + 2);
  }

  lemma CleanOne(lines: seq<string>, i: nat)
    requires i < |lines| && Clean(lines[i], ReadTo(lines, i))
    ensures AllClean(lines, i, i + 1)
  {
    assert AllClean(lines, i, i);
  }

  lemma {:induction false} CleanJoins(lines: seq<string>, a: nat, b: nat, c: nat)
    requires a <= b <= c <= |lines| && AllClean(lines, a, b) && AllClean(lines, b, c)
    ensures AllClean(lines, a, c)
    decreases c
  {
    if b < c { CleanJoins(lines, a, b, c - 1); }
  }

  /**
   The scanner is right at the end of a part of the file without items if and only if, however the file
   goes on cleanly from there, it reports the first item of code, save one whose own line leaves a raw
   string open. So what it keeps is exactly what it needs: for every wrong state there is a continuation
   that brings out a missed item, or one reported from inside a string or a comment.
   */
  lemma ReportsFirstItemExactly(p: Patterns, lines: seq<string>, from: nat, probe: string)
    requires from <= |lines| && ItemFree(p, lines, from) && IsProbe(p, probe) && ItemsBeginWithLetters(p)
    ensures Agrees(lines, from, |lines|) <==>
      forall more :: GoesOnCleanly(lines, more) ==> ReportsRight(p, lines + more, from)
  {
    if Agrees(lines, from, |lines|) {
      forall more | GoesOnCleanly(lines, more) ensures ReportsRight(p, lines + more, from) {
        RightOnwards(p, lines, from, more);
      }
    } else {
      var more := WrongShows(p, lines, from, probe);
    }
  }

  // ---------------------------------------------------------------- witnesses

  /** A line whose only quote is its last character, with an `r` before it, leaves a raw string open. */
  lemma EndsInOpening(line: string)
    requires |line| >= 2 && line[|line| - 2] == 'r' && line[|line| - 1] == '"' && '"' !in line[..|line| - 1]
    ensures LeavesOpen(line) == Some(0)
  {
    var at := |line| - 2;
    assert forall k :: 0 <= k < |line| - 1 ==> line[k] == line[..|line| - 1][k];
    assert line[at..] == "r" + Hashes(0) + "\"";
    assert RawOpens(line, at, 0);
    var opening := SearchOpening(line, 0).value;
    RawOpensChars(line, opening.end - 2 - opening.hashes, opening.hashes);
    assert opening.end == |line|;
  }

  const FIXTURE: string := "const S:&str=r\""

  /** A one-line file tail that the scanner is silent about although an item stands at its column zero. */
  lemma ItemOpeningARawStringIsMissed(p: Patterns)
    requires p.item(FIXTURE)
    ensures FirstItemLine(p, [FIXTURE], 0, Some(0)) && FirstReported(p, [FIXTURE], 0, None)
  {
    EndsInOpening(FIXTURE);
  }

  const TWICE: string := "r\"\"r#\""

  /** A line that completes one raw string and opens a second: Rust is left inside it, the scanner is not. */
  lemma TwiceIsNotClean()
    ensures Read(TWICE, 0, Code) == Raw(1) && ScanLine(TWICE, None) == None
  {
    TwiceReads(TWICE);
    TwiceScans(TWICE);
  }

  predicate IsTwice(line: string)
  {
    && |line| == 6 && line[0] == 'r' && line[1] == '"' && line[2] == '"'
    && line[3] == 'r' && line[4] == '#' && line[5] == '"'
  }

  lemma TwiceReads(line: string)
    requires IsTwice(line)
    ensures Read(line, 0, Code) == Raw(1)
  {
    CountHashesTo(line, 1, 0);
    CountHashesTo(line, 4, 1);
    assert Closing(0) == "\"" && line[2..3] == "\"";
    assert Next(line, 0, Code) == Place(2, Raw(0));
    assert Next(line, 2, Raw(0)) == Place(3, Code);
    assert Next(line, 3, Code) == Place(6, Raw(1));
    assert Read(line, 3, Code) == Raw(1);
  }

  lemma TwiceScans(line: string)
    requires IsTwice(line)
    ensures ScanLine(line, None) == None
  {
    CountHashesTo(line, 1, 0);
    assert OpensHere(line, 0);
    assert Closing(0) == "\"" && line[2..3] == "\"";
    ClosedOnLine(line, Opening(0, 2), 2);
  }

  lemma ClosedOnLine(line: string, opening: Opening, k: nat)
    requires SearchOpening(line, 0) == Some(opening) && opening.end <= k && OccursAt(line, Closing(opening.hashes), k)
    ensures ScanLine(line, None) == None
  {
    LeavesOpenExactly(line, opening);
  }

  /** After such a line the scanner reports an item that stands inside the second raw string. */
  lemma ItemInsideARawStringIsReported(p: Patterns, inside: string)
    requires p.item(inside) && !p.item(TWICE) && LeavesOpen(inside).None?
    ensures var lines := [TWICE, inside]; FirstItemLine(p, lines, 0, None) && FirstReported(p, lines, 0, Some(1))
  {
    TwiceIsNotClean();
    var lines := [TWICE, inside];
    assert ReadTo(lines, 0) == Code && ReadTo(lines, 1) == Raw(1);
    assert Scanned(lines, 0, 0).None? && Scanned(lines, 0, 1) == None;
  }

  const BAR: string := "\"bar\";"

  /** An ordinary string that ends in `r` is taken for the opening of a raw one. */
  lemma BarIsNotClean()
    ensures Read(BAR, 0, Code) == Code && ScanLine(BAR, None) == Some(0)
  {
    BarReads(BAR);
    BarScans(BAR);
  }

  predicate IsBar(line: string)
  {
    && |line| == 6 && line[0] == '"' && line[1] == 'b' && line[2] == 'a' && line[3] == 'r'
    && line[4] == '"' && line[5] == ';'
  }

  lemma BarReads(line: string)
    requires IsBar(line)
    ensures Read(line, 0, Code) == Code
  {
    assert Next(line, 0, Code) == Place(1, Str);
    assert Read(line, 5, Code) == Code && Read(line, 4, Str) == Code;
    assert Read(line, 1, Str) == Read(line, 2, Str) == Read(line, 3, Str) == Read(line, 4, Str);
  }

  lemma BarScans(line: string)
    requires IsBar(line)
    ensures ScanLine(line, None) == Some(0)
  {
    CountHashesTo(line, 4, 0);
    assert SearchOpening(line, 3) == Some(Opening(0, 5));
    assert SearchOpening(line, 0) == SearchOpening(line, 1) == SearchOpening(line, 2) == SearchOpening(line, 3);
    NoQuoteNoClosing(line, 0, 5);
    LeavesOpenExactly(line, Opening(0, 5));
  }

  /** After such a line the scanner is silent about an item of code. */
  lemma ItemAfterAStringIsMissed(p: Patterns, item: string)
    requires p.item(item) && !p.item(BAR)
    ensures var lines := [BAR, item]; FirstItemLine(p, lines, 0, Some(1)) && FirstReported(p, lines, 0, None)
  {
    BarIsNotClean();
    var lines := [BAR, item];
    assert ReadTo(lines, 0) == Code && ReadTo(lines, 1) == Code;
    assert Scanned(lines, 0, 0).None? && Scanned(lines, 0, 1) == Some(0);
  }
}
