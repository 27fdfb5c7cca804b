/**
 The two line scanners of the egress-manifest lint. One keeps the production lines of a Rust file up to
 the first test module, the other looks for production that resumes after it. They must agree on where
 the file is cut, whatever the line patterns accept.
 */
module LintScanners {
  import opened Prelude

  /** What the scanners ask of a line. The patterns themselves are arbitrary. */
  datatype Patterns = Patterns(
    cfgTest: string -> bool,
    blank: string -> bool,
    comment: string -> bool,
    attribute: string -> bool,
    inlineMod: string -> bool,
    externalMod: string -> Option<string>,
    item: string -> bool)
  {
    /** A line that carries no item: a pending `#[cfg(test)]` passes over it. */
    predicate Skips(line: string)
    {
      blank(line) || comment(line) || attribute(line)
    }
  }

  datatype Slice = Slice(number: nat, line: string)

  // ---------------------------------------------------------------- the cut, without a scanner

  /** A `#[cfg(test)]` above line `i`, and nothing between the two that could have used it up. */
  ghost predicate Pending(p: Patterns, lines: seq<string>, i: nat)
    requires i <= |lines|
  {
    exists j :: 0 <= j < i && p.cfgTest(lines[j]) && forall k :: j < k < i ==> p.cfgTest(lines[k]) || p.Skips(lines[k])
  }

  /** The line a pending `#[cfg(test)]` applies to. */
  ghost predicate Governed(p: Patterns, lines: seq<string>, i: nat)
    requires i < |lines|
  {
    Pending(p, lines, i) && !p.cfgTest(lines[i]) && !p.Skips(lines[i])
  }

  ghost predicate Cuts(p: Patterns, lines: seq<string>, i: nat)
    requires i < |lines|
  {
    Governed(p, lines, i) && p.inlineMod(lines[i])
  }

  /** The file is cut at its first governed inline module; `|lines|` when there is none. */
  ghost predicate IsCut(p: Patterns, lines: seq<string>, cut: nat)
  {
    && cut <= |lines|
    && (cut < |lines| ==> Cuts(p, lines, cut))
    && (forall i :: 0 <= i < cut ==> !Cuts(p, lines, i))
  }

  /** Where the file is cut. */
  ghost function TheCut(p: Patterns, lines: seq<string>): (cut: nat)
    ensures IsCut(p, lines, cut)
  {
    CutFrom(p, lines, 0)
  }

  ghost function CutFrom(p: Patterns, lines: seq<string>, i: nat): (cut: nat)
    requires i <= |lines| && forall k :: 0 <= k < i ==> !Cuts(p, lines, k)
    ensures IsCut(p, lines, cut)
    decreases |lines| - i
  {
    if i == |lines| || Cuts(p, lines, i) then i else CutFrom(p, lines, i + 1)
  }

  /** Production: neither a comment nor a `#[cfg(test)]` nor anything a pending one consumes. */
  ghost predicate Kept(p: Patterns, lines: seq<string>, i: nat)
    requires i < |lines|
  {
    && !p.cfgTest(lines[i]) && !p.comment(lines[i])
    && (Pending(p, lines, i) ==> !p.Skips(lines[i]) && p.externalMod(lines[i]).None?)
  }

  ghost predicate NamesTestFile(p: Patterns, lines: seq<string>, i: nat)
    requires i < |lines|
  {
    Governed(p, lines, i) && p.externalMod(lines[i]).Some?
  }

  ghost function Production(p: Patterns, lines: seq<string>, n: nat): seq<Slice>
    requires n <= |lines|
  {
    if n == 0 then []
    else Production(p, lines, n - 1) + if Kept(p, lines, n - 1) then [Slice(n, lines[n - 1])] else []
  }

  ghost function TestFiles(p: Patterns, lines: seq<string>, n: nat): seq<string>
    requires n <= |lines|
  {
    if n == 0 then []
    else TestFiles(p, lines, n - 1) + if NamesTestFile(p, lines, n - 1) then [p.externalMod(lines[n - 1]).value] else []
  }

  lemma PendingStep(p: Patterns, lines: seq<string>, i: nat)
    requires i < |lines|
    ensures Pending(p, lines, i + 1) <==> p.cfgTest(lines[i]) || (Pending(p, lines, i) && p.Skips(lines[i]))
  {
    if p.cfgTest(lines[i]) {
      assert Pending(p, lines, i + 1);
    } else if Pending(p, lines, i) && p.Skips(lines[i]) {
      var j :| 0 <= j < i && p.cfgTest(lines[j]) && forall k :: j < k < i ==> p.cfgTest(lines[k]) || p.Skips(lines[k]);
      assert forall k :: j < k < i + 1 ==> p.cfgTest(lines[k]) || p.Skips(lines[k]);
    }
  }

  /**
   A blank line, a comment or another attribute after `#[cfg(test)]` leaves it pending; any other line that is
   not itself a `#[cfg(test)]` uses it up.
   */
  lemma PendingPassesOver(p: Patterns, lines: seq<string>, i: nat)
    requires i < |lines| && Pending(p, lines, i) && !p.cfgTest(lines[i])
    ensures Pending(p, lines, i + 1) <==> p.blank(lines[i]) || p.comment(lines[i]) || p.attribute(lines[i])
  {
    PendingStep(p, lines, i);
  }

  /** Two lines cannot both be the cut. */
  lemma CutIsUnique(p: Patterns, lines: seq<string>, a: nat, b: nat)
    requires IsCut(p, lines, a) && IsCut(p, lines, b)
    ensures a == b
  {
  }

  /** The slices hold exactly the kept lines before the cut, each once, in order, under its own number. */
  lemma {:induction false} ProductionExactly(p: Patterns, lines: seq<string>, n: nat)
    requires n <= |lines|
    ensures var out := Production(p, lines, n);
      && (forall a, b :: 0 <= a < b < |out| ==> out[a].number < out[b].number)
      && (forall s :: s in out ==> 1 <= s.number <= n)
      && (forall s :: s in out <==> 1 <= s.number <= n && s.line == lines[s.number - 1] && Kept(p, lines, s.number - 1))
  {
    if n > 0 {
      ProductionExactly(p, lines, n - 1);
      var before, out := Production(p, lines, n - 1), Production(p, lines, n);
      assert forall a :: 0 <= a < |before| ==> before[a] in before;
    }
  }

  /** The first scanner, with its pending flag. */
  method ProductionSlices(p: Patterns, lines: seq<string>) returns (out: seq<Slice>, mods: seq<string>)
    ensures out == Production(p, lines, TheCut(p, lines)) && mods == TestFiles(p, lines, TheCut(p, lines))
  {
    out, mods := [], [];
    var pending := false;
    for i := 0 to |lines|
      invariant pending <==> Pending(p, lines, i)
      invariant forall k :: 0 <= k < i ==> !Cuts(p, lines, k)
      invariant out == Production(p, lines, i) && mods == TestFiles(p, lines, i)
    {
      var raw := lines[i];
      PendingStep(p, lines, i);
      if p.cfgTest(raw) {
        pending := true;
        continue;
      }
      if pending {
        if p.Skips(raw) { continue; }
        pending := false;
        if p.inlineMod(raw) {
          CutIsUnique(p, lines, i, TheCut(p, lines));
          return;
        }
        if p.externalMod(raw).Some? {
          mods := mods + [p.externalMod(raw).value];
          continue;
        }
      }
      if p.comment(raw) { continue; }
      out := out + [Slice(i + 1, raw)];
    }
    CutIsUnique(p, lines, |lines|, TheCut(p, lines));
  }

  // ---------------------------------------------------------------- raw strings

  predicate OccursAt(s: string, pat: string, i: nat)
  {
    i + |pat| <= |s| && s[i..i + |pat|] == pat
  }

  /** Python's `pat in s`. */
  function Contains(s: string, pat: string): (r: bool)
    ensures r <==> exists i: nat :: OccursAt(s, pat, i)
  {
    ContainsFrom(s, pat, 0)
  }

  function ContainsFrom(s: string, pat: string, from: nat): (r: bool)
    ensures r <==> exists i: nat :: from <= i && OccursAt(s, pat, i)
    decreases |s| - from
  {
    if from + |pat| > |s| then false else OccursAt(s, pat, from) || ContainsFrom(s, pat, from + 1)
  }

  function Hashes(n: nat): (r: string)
    ensures |r| == n && forall i :: 0 <= i < n ==> r[i] == '#'
  {
    seq(n, i => '#')
  }

  function CountHashes(s: string, i: nat): (n: nat)
    requires i <= |s|
    ensures i + n <= |s| && (forall k :: i <= k < i + n ==> s[k] == '#') && (i + n < |s| ==> s[i + n] != '#')
    decreases |s| - i
  {
    if i < |s| && s[i] == '#' then 1 + CountHashes(s, i + 1) else 0
  }

  /** An `r`, `n` hashes and a quote stand at `i`. */
  ghost predicate RawOpens(s: string, i: nat, n: nat)
  {
    OccursAt(s, "r" + Hashes(n) + "\"", i)
  }

  predicate OpensHere(s: string, i: nat)
    requires i < |s|
  {
    s[i] == 'r' && var q := i + 1 + CountHashes(s, i + 1); q < |s| && s[q] == '"'
  }

  lemma OpensHereExactly(s: string, i: nat)
    requires i < |s|
    ensures OpensHere(s, i) ==> RawOpens(s, i, CountHashes(s, i + 1))
    ensures forall n: nat :: RawOpens(s, i, n) ==> OpensHere(s, i) && n == CountHashes(s, i + 1)
  {
    if OpensHere(s, i) {
      var n := CountHashes(s, i + 1);
      assert s[i..i + n + 2] == "r" + Hashes(n) + "\"";
    }
    forall n: nat | RawOpens(s, i, n) ensures OpensHere(s, i) && n == CountHashes(s, i + 1) {
      RawOpensChars(s, i, n);
      CountHashesTo(s, i + 1, n);
    }
  }

  lemma RawOpensChars(s: string, i: nat, n: nat)
    requires RawOpens(s, i, n)
    ensures i + n + 1 < |s| && s[i] == 'r' && s[i + n + 1] == '"' && forall k :: i + 1 <= k < i + 1 + n ==> s[k] == '#'
  {
    var pat := "r" + Hashes(n) + "\"";
    assert |pat| == n + 2;
    forall k | i <= k < i + n + 2 ensures s[k] == pat[k - i] { assert s[i..i + n + 2][k - i] == s[k]; }
    assert pat[n + 1] == '"';
    assert forall k :: 1 <= k < n + 1 ==> pat[k] == Hashes(n)[k - 1];
  }

  lemma {:induction false} CountHashesTo(s: string, i: nat, n: nat)
    requires i + n < |s| && s[i + n] != '#' && forall k :: i <= k < i + n ==> s[k] == '#'
    ensures CountHashes(s, i) == n
    decreases n
  {
    if n > 0 { CountHashesTo(s, i + 1, n - 1); }
  }

  datatype Opening = Opening(hashes: nat, end: nat)

  /** `re.search`: the leftmost opening of a raw string in the line. */
  function SearchOpening(s: string, from: nat): (r: Option<Opening>)
    ensures r.Some? ==> r.value.hashes + 2 <= r.value.end <= |s|
    ensures r.Some? ==> var i := r.value.end - 2 - r.value.hashes;
      from <= i && RawOpens(s, i, r.value.hashes) && forall k: nat, n: nat :: from <= k < i ==> !RawOpens(s, k, n)
    ensures r.None? ==> forall k: nat, n: nat :: from <= k ==> !RawOpens(s, k, n)
    decreases |s| - from
  {
    if from >= |s| then None
    else
      OpensHereExactly(s, from);
      if OpensHere(s, from) then Some(Opening(CountHashes(s, from + 1), from + CountHashes(s, from + 1) + 2))
      else SearchOpening(s, from + 1)
  }

  function Closing(hashes: nat): string
  {
    "\"" + Hashes(hashes)
  }

  /** The raw string that this line's first opening leaves open at the end of the line. */
  function LeavesOpen(line: string): Option<nat>
  {
    var opening := SearchOpening(line, 0);
    if opening.None? then None
    else if Contains(line[opening.value.end..], Closing(opening.value.hashes)) then None
    else Some(opening.value.hashes)
  }

  // ---------------------------------------------------------------- the scanner's state

  /** The number of hashes of the raw string the scanner believes to be in, if it believes to be in one. */
  type RawState = Option<nat>

  /** What one line does to it: the first opening of a line, or whether the line closes the open string. */
  function ScanLine(line: string, state: RawState): RawState
  {
    if state.None? then LeavesOpen(line)
    else if Contains(line, Closing(state.value)) then None
    else state
  }

  /** The leftmost closing at or after `from`. */
  function FindClosing(line: string, hashes: nat, from: nat): (r: Option<nat>)
    ensures r.Some? ==> from <= r.value && OccursAt(line, Closing(hashes), r.value)
    ensures r.Some? ==> forall k :: from <= k < r.value ==> !OccursAt(line, Closing(hashes), k)
    ensures r.None? ==> forall k :: from <= k ==> !OccursAt(line, Closing(hashes), k)
    decreases |line| - from
  {
    if from + hashes + 1 > |line| then None
    else if OccursAt(line, Closing(hashes), from) then Some(from)
    else FindClosing(line, hashes, from + 1)
  }

  lemma ContainsTail(line: string, pat: string, from: nat)
    requires from <= |line|
    ensures Contains(line[from..], pat) <==> exists k: nat :: from <= k && OccursAt(line, pat, k)
  {
    var tail := line[from..];
    forall k: nat | OccursAt(tail, pat, k) ensures OccursAt(line, pat, from + k) {
      assert tail[k..k + |pat|] == line[from + k..from + k + |pat|];
    }
    forall k: nat | from <= k && OccursAt(line, pat, k) ensures OccursAt(tail, pat, k - from) {
      assert tail[k - from..k - from + |pat|] == line[k..k + |pat|];
    }
  }

  /** The scanner's state at the head of line `i`, having started at line `from`. */
  function Scanned(lines: seq<string>, from: nat, i: nat): RawState
    requires from <= i <= |lines|
  {
    if i == from then None else ScanLine(lines[i - 1], Scanned(lines, from, i - 1))
  }

  // ---------------------------------------------------------------- where production resumes

  /** A line the scanner reports: by its own state, and if it leaves no raw string open itself. */
  predicate IsReported(p: Patterns, lines: seq<string>, from: nat, i: nat)
    requires from <= i < |lines|
  {
    Scanned(lines, from, i).None? && p.item(lines[i]) && LeavesOpen(lines[i]).None?
  }

  /** `r` is the first line from `from` on that is reported, if one is. */
  ghost predicate FirstReported(p: Patterns, lines: seq<string>, from: nat, r: Option<nat>)
    requires from <= |lines|
  {
    && (r.Some? ==> from <= r.value < |lines| && IsReported(p, lines, from, r.value))
    && (forall i :: from <= i < |lines| && (r.None? || i < r.value) ==> !IsReported(p, lines, from, i))
  }

  method FindCut(p: Patterns, lines: seq<string>) returns (cut: nat)
    ensures cut == TheCut(p, lines)
  {
    var pending := false;
    for i := 0 to |lines|
      invariant pending <==> Pending(p, lines, i)
      invariant forall k :: 0 <= k < i ==> !Cuts(p, lines, k)
    {
      PendingStep(p, lines, i);
      if p.cfgTest(lines[i]) {
        pending := true;
        continue;
      }
      if pending {
        if p.Skips(lines[i]) { continue; }
        pending := false;
        if p.inlineMod(lines[i]) {
          CutIsUnique(p, lines, i, TheCut(p, lines));
          return i;
        }
      }
    }
    cut := |lines|;
    CutIsUnique(p, lines, |lines|, TheCut(p, lines));
  }

  /**
   The second scanner: its own search for the cut, then the raw-string state line by line. The result
   is a line number.
   */
  method ProductionResumes(p: Patterns, lines: seq<string>) returns (r: Option<nat>)
    ensures TheCut(p, lines) == |lines| ==> r.None?
    ensures r.Some? ==> r.value > 0
    ensures TheCut(p, lines) < |lines| ==>
      FirstReported(p, lines, TheCut(p, lines) + 1, if r.Some? then Some(r.value - 1) else None)
  {
    var at := FindCut(p, lines);
    if at == |lines| { return None; }
    var found := FindResumption(p, lines, at + 1);
    r := if found.Some? then Some(found.value + 1) else None;
  }

  method FindResumption(p: Patterns, lines: seq<string>, from: nat) returns (r: Option<nat>)
    requires from <= |lines|
    ensures FirstReported(p, lines, from, r)
  {
    var i, open := from, None;
    while i < |lines|
      invariant from <= i <= |lines| && open == Scanned(lines, from, i)
      invariant forall k :: from <= k < i ==> !IsReported(p, lines, from, k)
    {
      var after := NextState(lines[i], open);
      if open.None? && after.None? && p.item(lines[i]) { return Some(i); }
      open, i := after, i + 1;
    }
    r := None;
  }

  /** A raw string opened and closed on the same line masks nothing; only one left open does. */
  method NextState(line: string, open: RawState) returns (after: RawState)
    ensures after == ScanLine(line, open)
  {
    if open.Some? {
      return if Contains(line, Closing(open.value)) then None else open;
    }
    var opening := SearchOpening(line, 0);
    if opening.Some? && !Contains(line[opening.value.end..], Closing(opening.value.hashes)) {
      return Some(opening.value.hashes);
    }
    after := None;
  }

  // ---------------------------------------------------------------- the two together

  /** Every production line stands before the cut and the line where production resumes stands after it. */
  lemma NothingIsCountedTwice(p: Patterns, lines: seq<string>, cut: nat, line: nat)
    requires cut == TheCut(p, lines) < |lines| && FirstReported(p, lines, cut + 1, Some(line))
    ensures forall s :: s in Production(p, lines, cut) ==> s.number <= cut < line
  {
    ProductionExactly(p, lines, cut);
  }
}
