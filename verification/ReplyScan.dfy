/**
 The line-by-line scans of an architect's reply, proved equal to plain searches over the whole text.
 A text is a byte string; what Rust calls `&str` is one that is valid UTF-8.
 */
module ReplyScan {
  import opened Prelude
  import opened Utf8

  const LF: byte := 10
  const CR: byte := 13

  datatype Span = Span(start: nat, end: nat)

  // ---------------------------------------------------------------- searching

  predicate Occurs(s: seq<byte>, pat: seq<byte>, p: nat)
  {
    p + |pat| <= |s| && s[p..p + |pat|] == pat
  }

  /** `str::find`: the leftmost occurrence at or after `from`. */
  function FindFrom(s: seq<byte>, pat: seq<byte>, from: nat): (r: Option<nat>)
    ensures r.Some? ==> from <= r.value && Occurs(s, pat, r.value) && forall p :: from <= p < r.value ==>
      !Occurs(s, pat, p)
    ensures r.None? ==> forall p :: from <= p ==> !Occurs(s, pat, p)
    decreases |s| - from
  {
    if from + |pat| > |s| then None
    else if Occurs(s, pat, from) then Some(from)
    else FindFrom(s, pat, from + 1)
  }

  function Find(s: seq<byte>, pat: seq<byte>): Option<nat>
  {
    FindFrom(s, pat, 0)
  }

  // ---------------------------------------------------------------- lines

  /** The end of the line that starts at `i`, line feed excluded. */
  function LineBreak(text: seq<byte>, i: nat): (b: nat)
    requires i <= |text|
    ensures i <= b <= |text| && (b < |text| ==> text[b] == LF) && forall k :: i <= k < b ==> text[k] != LF
    decreases |text| - i
  {
    if i == |text| || text[i] == LF then i else LineBreak(text, i + 1)
  }

  /** `str::lines` also takes off a carriage return, but only one that a line feed follows. */
  function LineEnd(text: seq<byte>, i: nat): (e: nat)
    requires i <= |text|
    ensures i <= e <= LineBreak(text, i) <= e + 1
    ensures e < LineBreak(text, i) ==> text[e] == CR
  {
    var b := LineBreak(text, i);
    if b < |text| && i < b && text[b - 1] == CR then b - 1 else b
  }

  /** A line ends at its line feed; a carriage return right before that goes too, but not one that ends the text. */
  lemma LinesExactly(before: seq<byte>, line: seq<byte>, rest: seq<byte>)
    requires 10 !in line
    ensures LineEnd(before + line, |before|) == |before + line|
    ensures line == [] || line[|line| - 1] != 13 ==> LineEnd(before + line + [10] + rest, |before|) == |before + line|
    ensures LineEnd(before + line + [13, 10] + rest, |before|) == |before + line|
  {
    BreakExactly(before, line, []);
    BreakExactly(before, line, [10] + rest);
    BreakExactly(before, line + [13], [10] + rest);
    assert before + line + [] == before + line;
    assert before + line + ([10] + rest) == before + line + [10] + rest;
    assert before + (line + [13]) + ([10] + rest) == before + line + [13, 10] + rest;
  }

  lemma BreakExactly(before: seq<byte>, line: seq<byte>, rest: seq<byte>)
    requires 10 !in line && (rest == [] || rest[0] == 10)
    ensures LineBreak(before + line + rest, |before|) == |before + line|
  {
    var text := before + line + rest;
    assert forall k :: |before| <= k < |before + line| ==> text[k] == line[k - |before|];
    assert rest != [] ==> text[|before + line|] == rest[0];
  }

  /** What a line scan may look for: something that holds no line feed and does not end in a carriage return. */
  predicate LinePattern(pat: seq<byte>)
  {
    pat != [] && LF !in pat && pat[|pat| - 1] != CR
  }

  /** The heart of it: an occurrence that starts on a line ends on that line, before the part `lines` takes off. */
  lemma OccursOnLine(text: seq<byte>, pat: seq<byte>, i: nat, p: nat)
    requires i <= |text| && LinePattern(pat) && i <= p <= LineBreak(text, i) && Occurs(text, pat, p)
    ensures p + |pat| <= LineEnd(text, i) && Occurs(text[i..LineEnd(text, i)], pat, p - i)
  {
    OccursBytes(text, pat, p);
    assert forall k :: p <= k < p + |pat| ==> text[k] != LF;
    assert p + |pat| <= LineBreak(text, i);
    var last := p + |pat| - 1;
    assert text[last] == pat[last - p];
    SliceOfSlice(text, i, LineEnd(text, i), p, p + |pat|);
  }

  lemma SliceOfSlice(s: seq<byte>, i: nat, e: nat, p: nat, q: nat)
    requires i <= p <= q <= e <= |s|
    ensures s[i..e][p - i..q - i] == s[p..q]
  {
    var inner := s[i..e][p - i..q - i];
    forall k | 0 <= k < q - p ensures inner[k] == s[p..q][k] {
      assert inner[k] == s[i..e][p - i + k];
    }
  }

  lemma OccursBytes(text: seq<byte>, pat: seq<byte>, p: nat)
    requires Occurs(text, pat, p)
    ensures forall k :: p <= k < p + |pat| ==> text[k] == pat[k - p]
  {
    forall k | p <= k < p + |pat| ensures text[k] == pat[k - p] {
      assert text[p..p + |pat|][k - p] == text[k];
    }
  }

  lemma LineOccursInText(text: seq<byte>, pat: seq<byte>, i: nat, at: nat)
    requires i <= |text| && Occurs(text[i..LineEnd(text, i)], pat, at)
    ensures Occurs(text, pat, i + at) && i + at + |pat| <= LineEnd(text, i)
  {
    SliceOfSlice(text, i, LineEnd(text, i), i + at, i + at + |pat|);
  }

  // ---------------------------------------------------------------- ASCII case folding

  function FoldByte(b: byte): byte
  {
    if 65 <= b <= 90 then b as int + 32 else b
  }

  /** `to_ascii_lowercase`: length and line structure are untouched. */
  function Fold(s: seq<byte>): (r: seq<byte>)
    ensures |r| == |s| && forall i :: 0 <= i < |s| ==> r[i] == FoldByte(s[i])
  {
    seq(|s|, i requires 0 <= i < |s| => FoldByte(s[i]))
  }

  /** No capital letter of ASCII is left, every other byte is untouched, and a letter only changes its case. */
  lemma FoldExactly(s: seq<byte>, i: nat)
    requires i < |s|
    ensures !(65 <= Fold(s)[i] <= 90)
    ensures Fold(s)[i] == s[i] || (65 <= s[i] <= 90 && Fold(s)[i] as int - 97 == s[i] as int - 65)
  {
  }

  lemma FoldSlice(s: seq<byte>, a: nat, b: nat)
    requires a <= b <= |s|
    ensures Fold(s)[a..b] == Fold(s[a..b])
  {
  }

  lemma {:induction false} FoldValid(s: seq<byte>)
    requires Valid(s)
    ensures Valid(Fold(s))
  {
    if s != [] {
      var w := Width(s[0]);
      FoldValid(s[w..]);
      FoldSlice(s, w, |s|);
      FoldOpens(s);
      assert Fold(s)[w..] == Fold(s[w..]);
    }
  }

  lemma FoldOpens(s: seq<byte>)
    requires Opens(s)
    ensures Opens(Fold(s)) && Width(Fold(s)[0]) == Width(s[0])
  {
    if s[0] >= 0x80 {
      assert forall i :: 0 <= i < Width(s[0]) ==> Fold(s)[i] == s[i];
      assert Scalar(Fold(s)) == Scalar(s);
    }
  }

  /**
   Where a valid pattern occurs in the folded text of a valid string, both ends are character boundaries
   of that string, so the slice the reader takes exists and is itself valid.
   */
  lemma MatchIsSliceable(text: seq<byte>, pat: seq<byte>, p: nat)
    requires Valid(text) && Valid(pat) && pat != [] && Occurs(Fold(text), pat, p)
    ensures IsBoundary(text, p) && IsBoundary(text, p + |pat|) && Valid(text[p..p + |pat|])
  {
    var hay, q := Fold(text), p + |pat|;
    FoldValid(text);
    assert hay[p] == pat[0];
    assert IsBoundary(hay, p);
    EndIsBoundary(hay, pat, p);
    SliceIsValid(text, p, q);
  }

  lemma EndIsBoundary(hay: seq<byte>, pat: seq<byte>, p: nat)
    requires Valid(hay) && Valid(pat) && Occurs(hay, pat, p) && IsBoundary(hay, p)
    ensures IsBoundary(hay, p + |pat|)
  {
    var q := p + |pat|;
    CutAtBoundary(hay, p);
    assert hay[p..] == pat + hay[q..];
    DropPrefix(pat, hay[q..]);
    assert q < |hay| ==> hay[q] == hay[p..][|pat|];
  }

  // ---------------------------------------------------------------- several patterns, in order

  /** The simple reading: for each pattern in turn, its leftmost occurrence in the whole text. */
  function FirstOf(text: seq<byte>, patterns: seq<seq<byte>>): Option<Span>
  {
    if patterns == [] then None
    else
      var at := Find(text, patterns[0]);
      if at.Some? then Some(Span(at.value, at.value + |patterns[0]|)) else FirstOf(text, patterns[1..])
  }

  /** The reader's nested loop: every line is folded and searched for one pattern before the next is tried. */
  method FirstMatch(text: seq<byte>, patterns: seq<seq<byte>>) returns (r: Option<Span>)
    requires forall k :: 0 <= k < |patterns| ==> LinePattern(patterns[k])
    ensures r == FirstOf(Fold(text), patterns)
  {
    assert patterns[0..] == patterns;
    for k := 0 to |patterns|
      invariant FirstOf(Fold(text), patterns) == FirstOf(Fold(text), patterns[k..])
    {
      var at := FindByLine(text, patterns[k]);
      if at.Some? { return Some(Span(at.value, at.value + |patterns[k]|)); }
      assert patterns[k..][1..] == patterns[k + 1..];
    }
    r := None;
  }

  /** Searching one line finds the leftmost occurrence that starts on it. */
  lemma LineSearch(text: seq<byte>, pat: seq<byte>, i: nat)
    requires i <= |text| && LinePattern(pat)
    ensures var at := Find(text[i..LineEnd(text, i)], pat);
      && (at.Some? ==> Occurs(text, pat, i + at.value) && forall p :: i <= p < i + at.value ==> !Occurs(text, pat, p))
      && (at.None? ==> forall p :: i <= p <= LineBreak(text, i) ==> !Occurs(text, pat, p))
  {
    var line := text[i..LineEnd(text, i)];
    var at := Find(line, pat);
    forall p | i <= p <= LineBreak(text, i) && Occurs(text, pat, p) ensures Occurs(line, pat, p - i) {
      OccursOnLine(text, pat, i, p);
    }
    if at.Some? { LineOccursInText(text, pat, i, at.value); }
  }

  /**
   Folding and searching line after line returns exactly what searching the whole folded text returns, at
   the same offset.
   */
  method FindByLine(text: seq<byte>, pat: seq<byte>) returns (r: Option<nat>)
    requires LinePattern(pat)
    ensures r == Find(Fold(text), pat)
  {
    ghost var hay := Fold(text);
    var i := 0;
    while i < |text|
      invariant forall p :: 0 <= p < i ==> !Occurs(hay, pat, p)
      decreases |text| - i
    {
      var at := Find(Fold(text[i..LineEnd(text, i)]), pat);
      FoldedLineSearch(text, pat, i);
      if at.Some? { return Some(i + at.value); }
      i := LineBreak(text, i) + 1;
    }
    r := None;
  }

  /**
   Folding the line alone and searching it finds the leftmost occurrence that starts on that line of
   the folded text.
   */
  lemma FoldedLineSearch(text: seq<byte>, pat: seq<byte>, i: nat)
    requires i <= |text| && LinePattern(pat)
    ensures var at := Find(Fold(text[i..LineEnd(text, i)]), pat);
      && (at.Some? ==> Occurs(Fold(text), pat, i + at.value) && forall p :: i <= p < i + at.value ==>
        !Occurs(Fold(text), pat, p))
      && (at.None? ==> forall p :: i <= p <= LineBreak(text, i) ==> !Occurs(Fold(text), pat, p))
  {
    var hay, e := Fold(text), LineEnd(text, i);
    FoldKeepsLines(text, i);
    FoldSlice(text, i, e);
    LineSearch(hay, pat, i);
    assert LineEnd(hay, i) == e && Fold(text[i..e]) == hay[i..e];
  }

  lemma {:induction false} FoldKeepsLines(text: seq<byte>, i: nat)
    requires i <= |text|
    ensures LineBreak(Fold(text), i) == LineBreak(text, i) && LineEnd(Fold(text), i) == LineEnd(text, i)
    decreases |text| - i
  {
    if i < |text| && text[i] != LF { FoldKeepsLines(text, i + 1); }
  }

  // ---------------------------------------------------------------- a marker at the head of a line

  /** The two arms of the shell's `case`: the text starts with the marker, or a line feed is followed by it. */
  ghost predicate TwoArms(text: seq<byte>, marker: seq<byte>)
  {
    marker <= text || exists p: nat :: Occurs(text, [LF] + marker, p)
  }

  /** Some line starts with the marker, and that is exactly what the two arms say. */
  method AtLineStart(text: seq<byte>, marker: seq<byte>) returns (r: bool)
    requires LinePattern(marker)
    ensures r <==> TwoArms(text, marker)
  {
    var i := 0;
    while i < |text|
      invariant i == 0 || (i <= |text| + 1 && (i <= |text| ==> text[i - 1] == LF))
      invariant forall p: nat :: p < i && Occurs(text, marker, p) ==> p != 0 && text[p - 1] != LF
      decreases |text| - i
    {
      if marker <= text[i..LineEnd(text, i)] {
        LineOccursInText(text, marker, i, 0);
        HeadOfLine(text, marker, i);
        return true;
      }
      var b := LineBreak(text, i);
      forall p | i <= p < b + 1 && Occurs(text, marker, p) ensures Occurs(text[i..LineEnd(text, i)], marker, p - i) {
        OccursOnLine(text, marker, i, p);
      }
      i := b + 1;
    }
    NoArm(text, marker);
    r := false;
  }

  lemma NoArm(text: seq<byte>, marker: seq<byte>)
    requires forall p: nat :: Occurs(text, marker, p) ==> p != 0 && text[p - 1] != LF
    ensures !TwoArms(text, marker)
  {
    forall p: nat ensures !Occurs(text, [LF] + marker, p) {
      if Occurs(text, [LF] + marker, p) { MarkerAfterFeed(text, marker, p); }
    }
    PrefixOccurs(text, marker);
  }

  lemma PrefixOccurs(text: seq<byte>, marker: seq<byte>)
    ensures marker <= text ==> Occurs(text, marker, 0)
  {
  }

  lemma MarkerAfterFeed(text: seq<byte>, marker: seq<byte>, p: nat)
    requires Occurs(text, [LF] + marker, p)
    ensures text[p] == LF && Occurs(text, marker, p + 1)
  {
    OccursBytes(text, [LF] + marker, p);
    assert text[p + 1..p + 1 + |marker|] == text[p..p + 1 + |marker|][1..];
  }

  lemma HeadOfLine(text: seq<byte>, marker: seq<byte>, i: nat)
    requires Occurs(text, marker, i) && (i == 0 || text[i - 1] == LF)
    ensures TwoArms(text, marker)
  {
    if i > 0 {
      assert text[i - 1..i + |marker|] == [LF] + text[i..i + |marker|];
      assert Occurs(text, [LF] + marker, i - 1);
    }
  }

  // ---------------------------------------------------------------- a tag, blanks, a token

  /** POSIX `[[:space:]]` in the C locale. */
  predicate IsSpace(b: byte)
  {
    b == 32 || 9 <= b <= 13
  }

  /** Tab, line feed, vertical tab, form feed, carriage return and space, and nothing else. */
  lemma SpacesExactly(b: byte)
    ensures IsSpace(b) <==> b in {9, 10, 11, 12, 13, 32}
  {
  }

  /** Skip the blanks of `s` from `j`. */
  function SkipSpace(s: seq<byte>, j: nat): (r: nat)
    requires j <= |s|
    ensures j <= r <= |s| && (r < |s| ==> !IsSpace(s[r])) && forall k :: j <= k < r ==> IsSpace(s[k])
    decreases |s| - j
  {
    if j < |s| && IsSpace(s[j]) then SkipSpace(s, j + 1) else j
  }

  /** The first of `tokens`, in table order, that stands at `j`. */
  function TokenAt(s: seq<byte>, j: nat, tokens: seq<seq<byte>>): Option<seq<byte>>
  {
    if tokens == [] then None
    else if Occurs(s, tokens[0], j) then Some(tokens[0])
    else TokenAt(s, j, tokens[1..])
  }

  /** `tag [[:space:]]* token` as `grep` sees it: nothing between the two is a line feed. */
  ghost predicate Labelled(text: seq<byte>, p: nat, tag: seq<byte>, token: seq<byte>)
  {
    Occurs(text, tag, p) && exists j: nat :: Gap(text, p + |tag|, j) && Occurs(text, token, j)
  }

  /** Nothing but blanks of one line from `from` up to `j`. */
  ghost predicate Gap(text: seq<byte>, from: nat, j: nat)
  {
    from <= j <= |text| && forall k :: from <= k < j ==> IsSpace(text[k]) && text[k] != LF
  }

  /** A token is a line pattern that does not itself start with a blank. */
  predicate IsToken(t: seq<byte>)
  {
    LinePattern(t) && !IsSpace(t[0])
  }

  /** No byte of a tag but its last equals its last, so two occurrences of it never overlap. */
  predicate Unbordered(tag: seq<byte>)
  {
    LinePattern(tag) && forall i :: 0 <= i < |tag| - 1 ==> tag[i] != tag[|tag| - 1]
  }

  lemma NoOverlap(s: seq<byte>, tag: seq<byte>, p: nat, q: nat)
    requires Unbordered(tag) && Occurs(s, tag, p) && Occurs(s, tag, q) && p < q
    ensures p + |tag| <= q
  {
    OccursBytes(s, tag, p);
    OccursBytes(s, tag, q);
    assert s[p + |tag| - 1] == tag[|tag| - 1];
    assert forall k :: q <= k < q + |tag| - 1 ==> s[k] != tag[|tag| - 1];
  }

  ghost predicate AnyLabelled(text: seq<byte>, p: nat, tag: seq<byte>, tokens: seq<seq<byte>>)
  {
    exists k :: 0 <= k < |tokens| && Labelled(text, p, tag, tokens[k])
  }

  /** `r` is the token of the leftmost labelled match in the whole text, if there is any. */
  ghost predicate LeftmostLabelled(text: seq<byte>, tag: seq<byte>, tokens: seq<seq<byte>>, r: Option<seq<byte>>)
  {
    if r.None? then forall p: nat :: !AnyLabelled(text, p, tag, tokens)
    else exists p: nat :: Labelled(text, p, tag, r.value) && r.value in tokens && forall q: nat :: q < p ==>
      !AnyLabelled(text, q, tag, tokens)
  }

  lemma {:induction false} TokenAtExactly(s: seq<byte>, j: nat, tokens: seq<seq<byte>>)
    ensures TokenAt(s, j, tokens).Some? ==>
      TokenAt(s, j, tokens).value in tokens && Occurs(s, TokenAt(s, j, tokens).value, j)
    ensures TokenAt(s, j, tokens).None? ==> forall k :: 0 <= k < |tokens| ==> !Occurs(s, tokens[k], j)
  {
    if tokens != [] && !Occurs(s, tokens[0], j) {
      TokenAtExactly(s, j, tokens[1..]);
      assert forall k :: 1 <= k < |tokens| ==> tokens[k] == tokens[1..][k - 1];
    }
  }

  lemma {:induction false} SkipSpaceTo(s: seq<byte>, j: nat, stop: nat)
    requires j <= stop < |s| && !IsSpace(s[stop]) && forall k :: j <= k < stop ==> IsSpace(s[k])
    ensures SkipSpace(s, j) == stop
    decreases stop - j
  {
    if j < stop { SkipSpaceTo(s, j + 1, stop); }
  }

  /** A labelled match that starts on a line is one the line alone shows. */
  lemma LabelledOnLine(text: seq<byte>, i: nat, p: nat, tag: seq<byte>, token: seq<byte>)
    requires i <= |text| && i <= p <= LineBreak(text, i) && LinePattern(tag) && IsToken(token)
      && Labelled(text, p, tag, token)
    ensures var line := text[i..LineEnd(text, i)];
      Occurs(line, tag, p - i) && Occurs(line, token, SkipSpace(line, p - i + |tag|))
  {
    OccursOnLine(text, tag, i, p);
    var j: nat :| Gap(text, p + |tag|, j) && Occurs(text, token, j);
    GapOnLine(text, i, p + |tag|, j, token);
  }

  lemma GapOnLine(text: seq<byte>, i: nat, from: nat, j: nat, token: seq<byte>)
    requires i <= |text| && i <= from <= LineEnd(text, i) && IsToken(token) && Gap(text, from, j)
      && Occurs(text, token, j)
    ensures var line := text[i..LineEnd(text, i)]; Occurs(line, token, SkipSpace(line, from - i))
  {
    assert j <= LineBreak(text, i);
    OccursOnLine(text, token, i, j);
    SkipTo(text, i, from, j, token);
  }

  lemma SkipTo(text: seq<byte>, i: nat, from: nat, j: nat, token: seq<byte>)
    requires i <= |text| && i <= from <= j < LineEnd(text, i) && IsToken(token)
      && Occurs(text[i..LineEnd(text, i)], token, j - i)
    requires forall k :: from <= k < j ==> IsSpace(text[k])
    ensures SkipSpace(text[i..LineEnd(text, i)], from - i) == j - i
  {
    var line := text[i..LineEnd(text, i)];
    OccursBytes(line, token, j - i);
    forall k | from - i <= k < j - i ensures IsSpace(line[k]) { assert line[k] == text[i + k]; }
    SkipSpaceTo(line, from - i, j - i);
  }

  lemma LineShowsLabelled(text: seq<byte>, i: nat, q: nat, tag: seq<byte>, token: seq<byte>)
    requires i <= |text|
    requires var line := text[i..LineEnd(text, i)];
      Occurs(line, tag, q) && Occurs(line, token, SkipSpace(line, q + |tag|))
    ensures Labelled(text, i + q, tag, token)
  {
    var line := text[i..LineEnd(text, i)];
    var j := SkipSpace(line, q + |tag|);
    LineOccursInText(text, tag, i, q);
    LineOccursInText(text, token, i, j);
    forall k | i + q + |tag| <= k < i + j ensures IsSpace(text[k]) && text[k] != LF { assert text[k] == line[k - i]; }
    assert Gap(text, i + q + |tag|, i + j);
  }

  /** What the inner loop tests at one occurrence of the label. */
  function HitAt(line: seq<byte>, q: nat, tag: seq<byte>, tokens: seq<seq<byte>>): Option<seq<byte>>
    requires Occurs(line, tag, q)
  {
    TokenAt(line, SkipSpace(line, q + |tag|), tokens)
  }

  /** On one line, the whole-text notion and the loop's test agree at every position. */
  lemma HitExactly(text: seq<byte>, i: nat, p: nat, tag: seq<byte>, tokens: seq<seq<byte>>)
    requires i <= |text| && i <= p <= LineBreak(text, i) && LinePattern(tag)
    requires forall k :: 0 <= k < |tokens| ==> IsToken(tokens[k])
    ensures var line := text[i..LineEnd(text, i)];
      AnyLabelled(text, p, tag, tokens) <==> Occurs(line, tag, p - i) && HitAt(line, p - i, tag, tokens).Some?
  {
    var line := text[i..LineEnd(text, i)];
    if AnyLabelled(text, p, tag, tokens) { LabelledIsHit(text, i, p, tag, tokens); }
    if Occurs(line, tag, p - i) && HitAt(line, p - i, tag, tokens).Some? { HitIsLabelled(text, i, p, tag, tokens); }
  }

  lemma LabelledIsHit(text: seq<byte>, i: nat, p: nat, tag: seq<byte>, tokens: seq<seq<byte>>)
    requires i <= |text| && i <= p <= LineBreak(text, i) && LinePattern(tag) && AnyLabelled(text, p, tag, tokens)
    requires forall k :: 0 <= k < |tokens| ==> IsToken(tokens[k])
    ensures var line := text[i..LineEnd(text, i)]; Occurs(line, tag, p - i) && HitAt(line, p - i, tag, tokens).Some?
  {
    var line := text[i..LineEnd(text, i)];
    var k :| 0 <= k < |tokens| && Labelled(text, p, tag, tokens[k]);
    LabelledOnLine(text, i, p, tag, tokens[k]);
    TokenAtExactly(line, SkipSpace(line, p - i + |tag|), tokens);
  }

  lemma HitIsLabelled(text: seq<byte>, i: nat, p: nat, tag: seq<byte>, tokens: seq<seq<byte>>)
    requires i <= |text| && i <= p
    requires var line := text[i..LineEnd(text, i)]; Occurs(line, tag, p - i) && HitAt(line, p - i, tag, tokens).Some?
    ensures AnyLabelled(text, p, tag, tokens)
  {
    var line := text[i..LineEnd(text, i)];
    TokenAtExactly(line, SkipSpace(line, p - i + |tag|), tokens);
    LineShowsLabelled(text, i, p - i, tag, HitAt(line, p - i, tag, tokens).value);
  }

  /**
   The nested loop over lines and non-overlapping occurrences of the label. It returns the token of the
   leftmost labelled match of the whole text: stepping over a whole label at a time misses none.
   */
  method FirstLabelledToken(text: seq<byte>, tag: seq<byte>, tokens: seq<seq<byte>>) returns (r: Option<seq<byte>>)
    requires Unbordered(tag) && forall k :: 0 <= k < |tokens| ==> IsToken(tokens[k])
    ensures LeftmostLabelled(text, tag, tokens, r)
  {
    var i := 0;
    while i < |text|
      invariant forall p: nat :: p < i ==> !AnyLabelled(text, p, tag, tokens)
      decreases |text| - i
    {
      r := ScanLine(text, i, tag, tokens);
      if r.Some? { return; }
      i := LineBreak(text, i) + 1;
    }
    r := None;
  }

  method ScanLine(text: seq<byte>, i: nat, tag: seq<byte>, tokens: seq<seq<byte>>) returns (r: Option<seq<byte>>)
    requires i < |text| && Unbordered(tag) && forall k :: 0 <= k < |tokens| ==> IsToken(tokens[k])
    requires forall p: nat :: p < i ==> !AnyLabelled(text, p, tag, tokens)
    ensures r.None? ==> forall p: nat :: p <= LineBreak(text, i) ==> !AnyLabelled(text, p, tag, tokens)
    ensures r.Some? ==> LeftmostLabelled(text, tag, tokens, r)
  {
    var line := text[i..LineEnd(text, i)];
    var hit := ScanTags(line, tag, tokens);
    forall p: nat | i <= p <= LineBreak(text, i)
      ensures AnyLabelled(text, p, tag, tokens) <==> Occurs(line, tag, p - i) && HitAt(line, p - i, tag, tokens).Some?
    {
      HitExactly(text, i, p, tag, tokens);
    }
    if hit.None? { return None; }
    r := HitAt(line, hit.value, tag, tokens);
    TokenAtExactly(line, SkipSpace(line, hit.value + |tag|), tokens);
    LineShowsLabelled(text, i, hit.value, tag, r.value);
  }

  /** `match_indices` over one line: the leftmost occurrence of the label that a token follows. */
  method ScanTags(line: seq<byte>, tag: seq<byte>, tokens: seq<seq<byte>>) returns (hit: Option<nat>)
    requires Unbordered(tag)
    ensures hit.Some? ==> Occurs(line, tag, hit.value) && HitAt(line, hit.value, tag, tokens).Some?
    ensures forall q: nat :: (hit.None? || q < hit.value) && Occurs(line, tag, q) ==> HitAt(line, q, tag, tokens).None?
  {
    var from := 0;
    while true
      invariant forall q: nat :: q < from && Occurs(line, tag, q) ==> HitAt(line, q, tag, tokens).None?
      invariant from <= |line|
      decreases |line| - from
    {
      var at := FindFrom(line, tag, from);
      if at.None? { return None; }
      if HitAt(line, at.value, tag, tokens).Some? { return at; }
      forall q: nat | at.value < q && Occurs(line, tag, q) ensures at.value + |tag| <= q {
        NoOverlap(line, tag, at.value, q);
      }
      from := at.value + |tag|;
    }
  }
}
