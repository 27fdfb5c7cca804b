/**
 The five tiers of an architect's reply. Each tier is stated as a fact about the whole text; the reader,
 which scans line by line, is proved to stop at the first tier that holds. The proofs are for every sound
 lexicon; `ReplyLexicon` shows that the protocol's own literals and tables make one.
 */
module ReplyReader {
  import opened Prelude
  import opened Utf8
  import opened ReplyScan

  datatype Pass = First | Second

  datatype Token = Ready | Iterate | Escalate | Groomed

  datatype Tier = Withheld | EngineEscalation | Literal | CarriedOver | Paraphrased | Unparsed

  /** `fragment` is a slice of the text itself, never the pattern that found it. */
  datatype Decision = Decision(token: Option<Token>, tier: Tier, fragment: Option<Span>)

  /** A row of a paraphrase table. */
  datatype Class = Class(token: Token, patterns: seq<seq<byte>>)

  /** A label and the tokens that may follow it. */
  datatype Form = Form(tag: seq<byte>, tokens: seq<Token>)

  datatype Lexicon = Lexicon(
    marker: seq<byte>,
    tail: seq<byte>,
    disposition: Form,
    verdict: Form,
    name: Token -> seq<byte>,
    first: seq<Class>,
    second: seq<Class>)
  {
    /** The first pass expects a disposition, the second a verdict; each tolerates the other's form. */
    function FormOf(pass: Pass, strict: bool): Form
    {
      if (pass == First) == strict then disposition else verdict
    }

    function TableOf(pass: Pass): seq<Class>
    {
      if pass == First then first else second
    }

    ghost predicate Sound()
    {
      && LinePattern(marker)
      && tail != [] && !IsDigit(tail[0])
      && Unbordered(disposition.tag) && Unbordered(verdict.tag)
      && SoundNames(name)
      && SoundTable(first) && SoundTable(second)
    }
  }

  predicate IsDigit(b: byte)
  {
    48 <= b <= 57
  }

  /** Token names are told apart by their first letter. */
  ghost predicate SoundNames(name: Token -> seq<byte>)
  {
    && (forall t :: IsToken(name(t)))
    && (forall a, b :: name(a)[0] == name(b)[0] ==> a == b)
  }

  predicate SoundPattern(pat: seq<byte>)
  {
    LinePattern(pat) && forall i :: 0 <= i < |pat| ==> pat[i] < 0x80
  }

  predicate SoundPatterns(patterns: seq<seq<byte>>)
  {
    forall k :: 0 <= k < |patterns| ==> SoundPattern(patterns[k])
  }

  predicate SoundTable(table: seq<Class>)
  {
    forall c :: 0 <= c < |table| ==> SoundPatterns(table[c].patterns)
  }

  // ---------------------------------------------------------------- the paraphrase tables

  datatype Reading = Reading(token: Token, fragment: Span)

  /** Over the whole folded text: the first class, and in it the first pattern, that occurs anywhere. */
  function FirstInTable(hay: seq<byte>, table: seq<Class>): Option<Reading>
  {
    if table == [] then None
    else
      var found := FirstOf(hay, table[0].patterns);
      if found.Some? then Some(Reading(table[0].token, found.value)) else FirstInTable(hay, table[1..])
  }

  method Paraphrase(text: seq<byte>, table: seq<Class>) returns (r: Option<Reading>)
    requires SoundTable(table)
    ensures r == FirstInTable(Fold(text), table)
  {
    assert table[0..] == table;
    for c := 0 to |table|
      invariant FirstInTable(Fold(text), table) == FirstInTable(Fold(text), table[c..])
    {
      assert table[c..][0] == table[c] && table[c..][1..] == table[c + 1..];
      assert SoundPatterns(table[c].patterns);
      var found := FirstMatch(text, table[c].patterns);
      if found.Some? { return Some(Reading(table[c].token, found.value)); }
    }
    r := None;
  }

  predicate PatternOccurs(hay: seq<byte>, pat: seq<byte>)
  {
    Find(hay, pat).Some?
  }

  /** No pattern of the row occurs in the text, at any place. */
  predicate NoneOccurs(hay: seq<byte>, patterns: seq<seq<byte>>)
  {
    forall j :: 0 <= j < |patterns| ==> !PatternOccurs(hay, patterns[j])
  }

  /** The pattern at (class, place) found the reading, and nothing earlier in the table occurs at all. */
  ghost predicate FoundAt(hay: seq<byte>, table: seq<Class>, c: nat, k: nat, r: Reading)
  {
    && c < |table| && k < |table[c].patterns|
    && r.token == table[c].token
    && Find(hay, table[c].patterns[k]) == Some(r.fragment.start)
    && r.fragment.end == r.fragment.start + |table[c].patterns[k]|
    && (forall d :: 0 <= d < c ==> NoneOccurs(hay, table[d].patterns))
    && NoneOccurs(hay, table[c].patterns[..k])
  }

  lemma {:induction false} FirstOfPlace(hay: seq<byte>, patterns: seq<seq<byte>>) returns (k: nat)
    ensures FirstOf(hay, patterns).None? ==> NoneOccurs(hay, patterns)
    ensures FirstOf(hay, patterns).Some? ==>
      && k < |patterns| && NoneOccurs(hay, patterns[..k])
      && var span := FirstOf(hay, patterns).value;
         Find(hay, patterns[k]) == Some(span.start) && span.end == span.start + |patterns[k]|
  {
    k := 0;
    if patterns != [] && !PatternOccurs(hay, patterns[0]) {
      var tail := patterns[1..];
      var rest := FirstOfPlace(hay, tail);
      k := rest + 1;
      assert forall j :: 1 <= j < |patterns| ==> patterns[j] == tail[j - 1];
      if FirstOf(hay, tail).Some? { assert patterns[..k] == [patterns[0]] + tail[..rest]; }
    }
  }

  /** A paraphrase reading names the first pattern of the table, class by class, that occurs in the text. */
  lemma {:induction false} TableOrder(hay: seq<byte>, table: seq<Class>)
    ensures FirstInTable(hay, table).Some? ==>
      exists c: nat, k: nat :: FoundAt(hay, table, c, k, FirstInTable(hay, table).value)
    ensures FirstInTable(hay, table).None? ==> forall c :: 0 <= c < |table| ==> NoneOccurs(hay, table[c].patterns)
  {
    if table != [] {
      var k := FirstOfPlace(hay, table[0].patterns);
      var rest := table[1..];
      if FirstOf(hay, table[0].patterns).Some? {
        assert FoundAt(hay, table, 0, k, FirstInTable(hay, table).value);
      } else {
        TableOrder(hay, rest);
        assert forall c :: 1 <= c < |table| ==> table[c] == rest[c - 1];
        if FirstInTable(hay, rest).Some? {
          var c: nat, j: nat :| FoundAt(hay, rest, c, j, FirstInTable(hay, rest).value);
          FoundLater(hay, table, c, j, FirstInTable(hay, rest).value);
        }
      }
    }
  }

  lemma FoundLater(hay: seq<byte>, table: seq<Class>, c: nat, k: nat, r: Reading)
    requires table != [] && FoundAt(hay, table[1..], c, k, r) && NoneOccurs(hay, table[0].patterns)
    ensures FoundAt(hay, table, c + 1, k, r)
  {
    assert table[c + 1] == table[1..][c];
    forall d | 0 <= d < c + 1 ensures NoneOccurs(hay, table[d].patterns) {
      if d > 0 { assert table[d] == table[1..][d - 1]; }
    }
  }

  lemma {:induction false} AsciiIsValid(s: seq<byte>)
    requires forall i :: 0 <= i < |s| ==> s[i] < 0x80
    ensures Valid(s)
  {
    if s != [] { AsciiIsValid(s[1..]); }
  }

  /** The fragment is a slice of the text that always exists: both its ends are character boundaries. */
  lemma FragmentIsSliceable(text: seq<byte>, table: seq<Class>)
    requires Valid(text) && SoundTable(table)
    ensures FirstInTable(Fold(text), table).Some? ==>
      var f := FirstInTable(Fold(text), table).value.fragment;
      f.start <= f.end <= |text| && IsBoundary(text, f.start) && IsBoundary(text, f.end) && Valid(text[f.start..f.end])
  {
    TableOrder(Fold(text), table);
    if FirstInTable(Fold(text), table).Some? {
      var r := FirstInTable(Fold(text), table).value;
      var c: nat, k: nat :| FoundAt(Fold(text), table, c, k, r);
      SliceOfReading(text, table, c, k, r);
    }
  }

  lemma SliceOfReading(text: seq<byte>, table: seq<Class>, c: nat, k: nat, r: Reading)
    requires Valid(text) && SoundTable(table) && FoundAt(Fold(text), table, c, k, r)
    ensures var f := r.fragment;
      f.start <= f.end <= |text| && IsBoundary(text, f.start) && IsBoundary(text, f.end) && Valid(text[f.start..f.end])
  {
    SliceOfPattern(text, table[c].patterns, k, r.fragment.start);
  }

  lemma SliceOfPattern(text: seq<byte>, patterns: seq<seq<byte>>, k: nat, at: nat)
    requires Valid(text) && SoundPatterns(patterns) && k < |patterns| && Find(Fold(text), patterns[k]) == Some(at)
    ensures var end := at + |patterns[k]|;
      end <= |text| && IsBoundary(text, at) && IsBoundary(text, end) && Valid(text[at..end])
  {
    assert SoundPattern(patterns[k]);
    AsciiIsValid(patterns[k]);
    MatchIsSliceable(text, patterns[k], at);
  }

  // ---------------------------------------------------------------- the engine's escalation line

  function SkipDigits(s: seq<byte>, j: nat): (r: nat)
    requires j <= |s|
    ensures j <= r <= |s| && (r < |s| ==> !IsDigit(s[r])) && forall k :: j <= k < r ==> IsDigit(s[k])
    decreases |s| - j
  {
    if j < |s| && IsDigit(s[j]) then SkipDigits(s, j + 1) else j
  }

  /** The anchored match, run left to right without backing up. */
  predicate IsAnchor(line: seq<byte>, tail: seq<byte>)
  {
    var j := SkipSpace(line, 0);
    j < |line| && line[j] == 70 &&
    var d := SkipDigits(line, j + 1);
    j + 1 < d && Occurs(line, tail, d)
  }

  ghost predicate AnchorParts(line: seq<byte>, tail: seq<byte>, j: nat, d: nat)
  {
    && j + 1 < d <= |line| && line[j] == 70
    && (forall k :: 0 <= k < j ==> IsSpace(line[k]))
    && (forall k :: j + 1 <= k < d ==> IsDigit(line[k]))
    && Occurs(line, tail, d)
  }

  /** Blanks, an `F`, at least one digit and the tail, as the expression reads. */
  ghost predicate MatchesAnchor(line: seq<byte>, tail: seq<byte>)
  {
    exists j: nat, d: nat :: AnchorParts(line, tail, j, d)
  }

  /** Running it without backing up loses no match: neither `F` nor the colon can be swallowed before it. */
  lemma AnchorExactly(line: seq<byte>, tail: seq<byte>)
    requires tail != [] && !IsDigit(tail[0])
    ensures IsAnchor(line, tail) <==> MatchesAnchor(line, tail)
  {
    if MatchesAnchor(line, tail) {
      var j: nat, d: nat :| AnchorParts(line, tail, j, d);
      SkipSpaceTo(line, 0, j);
      assert line[d] == line[d..d + |tail|][0];
      SkipDigitsTo(line, j + 1, d);
    }
    if IsAnchor(line, tail) {
      var j := SkipSpace(line, 0);
      assert AnchorParts(line, tail, j, SkipDigits(line, j + 1));
    }
  }

  lemma {:induction false} SkipDigitsTo(s: seq<byte>, j: nat, stop: nat)
    requires j <= stop < |s| && !IsDigit(s[stop]) && forall k :: j <= k < stop ==> IsDigit(s[k])
    ensures SkipDigits(s, j) == stop
    decreases stop - j
  {
    if j < stop { SkipDigitsTo(s, j + 1, stop); }
  }

  ghost predicate StartsLine(text: seq<byte>, i: nat)
  {
    i < |text| && (i == 0 || text[i - 1] == LF)
  }

  ghost predicate EscalatesAt(text: seq<byte>, tail: seq<byte>, i: nat)
  {
    StartsLine(text, i) && MatchesAnchor(text[i..LineEnd(text, i)], tail)
  }

  method EngineEscalationLine(text: seq<byte>, tail: seq<byte>) returns (r: Option<nat>)
    requires tail != [] && !IsDigit(tail[0])
    ensures r.Some? ==> EscalatesAt(text, tail, r.value) && forall i: nat :: i < r.value ==> !EscalatesAt(text, tail, i)
    ensures r.None? ==> forall i: nat :: !EscalatesAt(text, tail, i)
  {
    var i := 0;
    while i < |text|
      invariant i < |text| ==> StartsLine(text, i)
      invariant forall j: nat :: j < i ==> !EscalatesAt(text, tail, j)
      decreases |text| - i
    {
      AnchorExactly(text[i..LineEnd(text, i)], tail);
      if IsAnchor(text[i..LineEnd(text, i)], tail) { return Some(i); }
      var b := LineBreak(text, i);
      assert forall j: nat :: i < j <= b ==> !StartsLine(text, j);
      i := b + 1;
    }
    r := None;
  }

  // ---------------------------------------------------------------- the labelled tokens

  function Names(tokens: seq<Token>, name: Token -> seq<byte>): (r: seq<seq<byte>>)
    ensures |r| == |tokens| && forall i :: 0 <= i < |tokens| ==> r[i] == name(tokens[i])
  {
    seq(|tokens|, i requires 0 <= i < |tokens| => name(tokens[i]))
  }

  /** `t` is the token of the leftmost labelled match of the form in the whole text. */
  ghost predicate Labels(text: seq<byte>, form: Form, name: Token -> seq<byte>, t: Token)
  {
    t in form.tokens && LeftmostLabelled(text, form.tag, Names(form.tokens, name), Some(name(t)))
  }

  ghost predicate NoLabel(text: seq<byte>, form: Form, name: Token -> seq<byte>)
  {
    LeftmostLabelled(text, form.tag, Names(form.tokens, name), None)
  }

  method LabelledToken(text: seq<byte>, form: Form, name: Token -> seq<byte>) returns (r: Option<Token>)
    requires Unbordered(form.tag) && SoundNames(name)
    ensures r.Some? ==> Labels(text, form, name, r.value)
    ensures r.None? ==> NoLabel(text, form, name)
  {
    var names := Names(form.tokens, name);
    var found := FirstLabelledToken(text, form.tag, names);
    if found.None? { return None; }
    ghost var p := FoundIsLabelled(text, form.tag, names, found.value);
    r := Some(TokenNamed(form.tokens, name, found.value));
  }

  function TokenNamed(tokens: seq<Token>, name: Token -> seq<byte>, b: seq<byte>): (t: Token)
    requires b in Names(tokens, name)
    ensures t in tokens && name(t) == b
  {
    if name(tokens[0]) == b then tokens[0]
    else
      assert forall i :: 1 <= i < |tokens| ==> Names(tokens, name)[i] == Names(tokens[1..], name)[i - 1];
      TokenNamed(tokens[1..], name, b)
  }

  ghost predicate LeftmostAt(text: seq<byte>, tag: seq<byte>, names: seq<seq<byte>>, t: seq<byte>, p: nat)
  {
    Labelled(text, p, tag, t) && t in names && forall q: nat :: q < p ==> !AnyLabelled(text, q, tag, names)
  }

  lemma FoundIsLabelled(text: seq<byte>, tag: seq<byte>, names: seq<seq<byte>>, t: seq<byte>) returns (p: nat)
    requires LeftmostLabelled(text, tag, names, Some(t))
    ensures LeftmostAt(text, tag, names, t, p) && AnyLabelled(text, p, tag, names)
  {
    p :| Labelled(text, p, tag, t) && t in names && forall q: nat :: q < p ==> !AnyLabelled(text, q, tag, names);
    var k :| 0 <= k < |names| && names[k] == t;
  }

  /** Two tokens start with different letters, so the leftmost labelled match names one of them. */
  lemma LabelsIsUnique(text: seq<byte>, form: Form, name: Token -> seq<byte>, a: Token, b: Token)
    requires SoundNames(name) && Labels(text, form, name, a) && Labels(text, form, name, b)
    ensures a == b
  {
    var names := Names(form.tokens, name);
    var p := FoundIsLabelled(text, form.tag, names, name(a));
    var q := FoundIsLabelled(text, form.tag, names, name(b));
    assert p == q;
    SameHead(text, p, form.tag, name(a), name(b));
  }

  lemma SameHead(text: seq<byte>, p: nat, tag: seq<byte>, x: seq<byte>, y: seq<byte>)
    requires IsToken(x) && IsToken(y) && Labelled(text, p, tag, x) && Labelled(text, p, tag, y)
    ensures x[0] == y[0]
  {
    var i: nat :| Gap(text, p + |tag|, i) && Occurs(text, x, i);
    var j: nat :| Gap(text, p + |tag|, j) && Occurs(text, y, j);
    HeadAt(text, x, i);
    HeadAt(text, y, j);
  }

  lemma HeadAt(text: seq<byte>, x: seq<byte>, i: nat)
    requires IsToken(x) && Occurs(text, x, i)
    ensures i < |text| && text[i] == x[0] && !IsSpace(text[i])
  {
    OccursBytes(text, x, i);
  }

  lemma LabelOrNot(text: seq<byte>, form: Form, name: Token -> seq<byte>, t: Token)
    requires Labels(text, form, name, t)
    ensures !NoLabel(text, form, name)
  {
    var p := FoundIsLabelled(text, form.tag, Names(form.tokens, name), name(t));
  }

  // ---------------------------------------------------------------- the ladder

  function CarryOver(pass: Pass, matched: Token): Option<Token>
  {
    match (pass, matched)
    case (First, Groomed) => Some(Ready)
    case (First, Escalate) => Some(Escalate)
    case (Second, Ready) => Some(Groomed)
    case (Second, Escalate) => Some(Escalate)
    case _ => None
  }

  ghost predicate Escalates(text: seq<byte>, tail: seq<byte>)
  {
    exists i: nat :: EscalatesAt(text, tail, i)
  }

  ghost predicate Carries(text: seq<byte>, lex: Lexicon, pass: Pass, token: Token)
  {
    exists t :: Labels(text, lex.FormOf(pass, false), lex.name, t) && CarryOver(pass, t) == Some(token)
  }

  /** Does this tier's own condition hold of the text? */
  ghost predicate Holds(tier: Tier, text: seq<byte>, lex: Lexicon, pass: Pass)
  {
    match tier
    case Withheld => TwoArms(text, lex.marker)
    case EngineEscalation => Escalates(text, lex.tail)
    case Literal => !NoLabel(text, lex.FormOf(pass, true), lex.name)
    case CarriedOver => exists token :: Carries(text, lex, pass, token)
    case Paraphrased => FirstInTable(Fold(text), lex.TableOf(pass)).Some?
    case Unparsed => true
  }

  function Rank(tier: Tier): nat
  {
    match tier
    case Withheld => 0
    case EngineEscalation => 1
    case Literal => 2
    case CarriedOver => 3
    case Paraphrased => 4
    case Unparsed => 5
  }

  /** What a decision at its tier must carry. */
  ghost predicate Fits(d: Decision, text: seq<byte>, lex: Lexicon, pass: Pass)
  {
    match d.tier
    case Withheld => d.token.None? && d.fragment.None?
    case EngineEscalation => d.token == Some(Escalate) && d.fragment.None?
    case Literal => d.token.Some? && Labels(text, lex.FormOf(pass, true), lex.name, d.token.value) && d.fragment.None?
    case CarriedOver => d.token.Some? && Carries(text, lex, pass, d.token.value) && d.fragment.None?
    case Paraphrased => d.token.Some? && d.fragment.Some? &&
      FirstInTable(Fold(text), lex.TableOf(pass)) == Some(Reading(d.token.value, d.fragment.value))
    case Unparsed => d.token.None? && d.fragment.None?
  }

  /**
   The decision is taken at the least tier whose condition holds of the whole text, and carries what
   that tier says.
   */
  ghost predicate Decides(d: Decision, text: seq<byte>, lex: Lexicon, pass: Pass)
  {
    && Fits(d, text, lex, pass) && Holds(d.tier, text, lex, pass)
    && forall tier :: Rank(tier) < Rank(d.tier) ==> !Holds(tier, text, lex, pass)
  }

  lemma AtTier(d: Decision, text: seq<byte>, lex: Lexicon, pass: Pass)
    requires Fits(d, text, lex, pass) && Holds(d.tier, text, lex, pass)
    requires d.tier != Withheld ==> !Holds(Withheld, text, lex, pass)
    requires Rank(d.tier) > 1 ==> !Holds(EngineEscalation, text, lex, pass)
    requires Rank(d.tier) > 2 ==> !Holds(Literal, text, lex, pass)
    requires Rank(d.tier) > 3 ==> !Holds(CarriedOver, text, lex, pass)
    requires Rank(d.tier) > 4 ==> !Holds(Paraphrased, text, lex, pass)
    ensures Decides(d, text, lex, pass)
  {
  }

  /** The single entry point, over any sound lexicon. */
  method Decide(text: seq<byte>, lex: Lexicon, pass: Pass) returns (d: Decision)
    requires lex.Sound()
    ensures Decides(d, text, lex, pass)
  {
    var withheld := AtLineStart(text, lex.marker);
    if withheld {
      d := Decision(None, Withheld, None);
    } else {
      var line := EngineEscalationLine(text, lex.tail);
      if line.Some? {
        d := Decision(Some(Escalate), EngineEscalation, None);
      } else {
        d := ReadForms(text, lex, pass);
      }
    }
    AtTier(d, text, lex, pass);
  }

  /** The tiers below the engine's own two. */
  method ReadForms(text: seq<byte>, lex: Lexicon, pass: Pass) returns (d: Decision)
    requires lex.Sound()
    ensures Rank(d.tier) >= 2 && Fits(d, text, lex, pass) && Holds(d.tier, text, lex, pass)
    ensures Rank(d.tier) > 2 ==> !Holds(Literal, text, lex, pass)
    ensures Rank(d.tier) > 3 ==> !Holds(CarriedOver, text, lex, pass)
    ensures Rank(d.tier) > 4 ==> !Holds(Paraphrased, text, lex, pass)
  {
    var strict := LabelledToken(text, lex.FormOf(pass, true), lex.name);
    if strict.Some? {
      LabelOrNot(text, lex.FormOf(pass, true), lex.name, strict.value);
      return Decision(strict, Literal, None);
    }
    var carried := LabelledToken(text, lex.FormOf(pass, false), lex.name);
    if carried.Some? && CarryOver(pass, carried.value).Some? {
      assert Carries(text, lex, pass, CarryOver(pass, carried.value).value);
      return Decision(CarryOver(pass, carried.value), CarriedOver, None);
    }
    NothingCarried(text, lex, pass, carried);
    var reading := Paraphrase(text, lex.TableOf(pass));
    if reading.Some? { return Decision(Some(reading.value.token), Paraphrased, Some(reading.value.fragment)); }
    d := Decision(None, Unparsed, None);
  }

  /** Only the first match of the other pass's form counts: if it has no alias, nothing is carried over. */
  lemma NothingCarried(text: seq<byte>, lex: Lexicon, pass: Pass, found: Option<Token>)
    requires SoundNames(lex.name)
    requires found.None? ==> NoLabel(text, lex.FormOf(pass, false), lex.name)
    requires found.Some? ==>
      Labels(text, lex.FormOf(pass, false), lex.name, found.value) && CarryOver(pass, found.value).None?
    ensures forall token :: !Carries(text, lex, pass, token)
  {
    var form := lex.FormOf(pass, false);
    forall t | Labels(text, form, lex.name, t) ensures CarryOver(pass, t).None? {
      LabelOrNot(text, form, lex.name, t);
      LabelsIsUnique(text, form, lex.name, t, found.value);
    }
  }

  /** At most one decision fits a text: the tier, the token and the fragment are all determined. */
  lemma DecisionIsUnique(text: seq<byte>, lex: Lexicon, pass: Pass, a: Decision, b: Decision)
    requires SoundNames(lex.name) && Decides(a, text, lex, pass) && Decides(b, text, lex, pass)
    ensures a == b
  {
    RankIsInjective(a.tier, b.tier);
    match a.tier
    case Literal => LabelsIsUnique(text, lex.FormOf(pass, true), lex.name, a.token.value, b.token.value);
    case CarriedOver =>
      var form := lex.FormOf(pass, false);
      var s :| Labels(text, form, lex.name, s) && CarryOver(pass, s) == a.token;
      var t :| Labels(text, form, lex.name, t) && CarryOver(pass, t) == b.token;
      LabelsIsUnique(text, form, lex.name, s, t);
    case _ =>
  }

  lemma RankIsInjective(a: Tier, b: Tier)
    requires !(Rank(a) < Rank(b)) && !(Rank(b) < Rank(a))
    ensures a == b
  {
  }

  /** A fragment is there if and only if the tier is the paraphrase. */
  lemma FragmentExactly(text: seq<byte>, lex: Lexicon, pass: Pass, d: Decision)
    requires Valid(text) && lex.Sound() && Decides(d, text, lex, pass)
    ensures d.fragment.Some? <==> d.tier == Paraphrased
    ensures d.fragment.Some? ==>
      var f := d.fragment.value; f.start <= f.end <= |text| && Valid(text[f.start..f.end])
    ensures d.fragment.Some? ==>
      exists c: nat, k: nat :: FoundAt(Fold(text), lex.TableOf(pass), c, k, Reading(d.token.value, d.fragment.value))
  {
    if d.tier == Paraphrased {
      FragmentIsSliceable(text, lex.TableOf(pass));
      TableOrder(Fold(text), lex.TableOf(pass));
    }
  }

  /** Putting the withheld marker in as a line of its own, anywhere in any text, forces the first tier. */
  lemma MarkerLineWithholds(before: seq<byte>, after: seq<byte>, lex: Lexicon, pass: Pass, d: Decision)
    requires (before == [] || before[|before| - 1] == LF) && (after == [] || after[0] == LF)
    requires Decides(d, before + lex.marker + after, lex, pass)
    ensures d == Decision(None, Withheld, None)
  {
    var text := before + lex.marker + after;
    assert text[|before|..|before| + |lex.marker|] == lex.marker;
    assert before != [] ==> text[|before| - 1] == before[|before| - 1];
    HeadOfLine(text, lex.marker, |before|);
    assert Holds(Withheld, text, lex, pass);
    assert d.tier == Withheld;
  }

  // ---------------------------------------------------------------- what each pass makes of the other's form

  /** A label of the other pass that has an alias is not passed over. */
  lemma CarriedWhenLabelled(text: seq<byte>, lex: Lexicon, pass: Pass, t: Token, d: Decision)
    requires Decides(d, text, lex, pass) && CarryOver(pass, t).Some?
    ensures Labels(text, lex.FormOf(pass, false), lex.name, t) ==> d.tier !in {Paraphrased, Unparsed}
  {
    if Labels(text, lex.FormOf(pass, false), lex.name, t) {
      assert Carries(text, lex, pass, CarryOver(pass, t).value);
      assert Holds(CarriedOver, text, lex, pass);
    }
  }

  /** In the first pass GROOMED stands for READY, ESCALATE for itself, and that is all. */
  lemma CarriedInFirstPass(text: seq<byte>, lex: Lexicon, d: Decision)
    requires SoundNames(lex.name) && Decides(d, text, lex, First) && d.tier == CarriedOver
    ensures d.token == Some(Ready) <==> Labels(text, lex.FormOf(First, false), lex.name, Groomed)
    ensures d.token == Some(Escalate) <==> Labels(text, lex.FormOf(First, false), lex.name, Escalate)
    ensures d.token == Some(Ready) || d.token == Some(Escalate)
  {
    var form := lex.FormOf(First, false);
    var s :| Labels(text, form, lex.name, s) && CarryOver(First, s) == d.token;
    if Labels(text, form, lex.name, Groomed) { LabelsIsUnique(text, form, lex.name, s, Groomed); }
    if Labels(text, form, lex.name, Escalate) { LabelsIsUnique(text, form, lex.name, s, Escalate); }
  }

  /** In the second pass READY stands for GROOMED, ESCALATE for itself, and ITERATE carries nothing. */
  lemma CarriedInSecondPass(text: seq<byte>, lex: Lexicon, d: Decision)
    requires SoundNames(lex.name) && Decides(d, text, lex, Second) && d.tier == CarriedOver
    ensures d.token == Some(Groomed) <==> Labels(text, lex.FormOf(Second, false), lex.name, Ready)
    ensures d.token == Some(Escalate) <==> Labels(text, lex.FormOf(Second, false), lex.name, Escalate)
    ensures d.token == Some(Groomed) || d.token == Some(Escalate)
  {
    var form := lex.FormOf(Second, false);
    var s :| Labels(text, form, lex.name, s) && CarryOver(Second, s) == d.token;
    if Labels(text, form, lex.name, Ready) { LabelsIsUnique(text, form, lex.name, s, Ready); }
    if Labels(text, form, lex.name, Escalate) { LabelsIsUnique(text, form, lex.name, s, Escalate); }
  }

  // ---------------------------------------------------------------- a reply of one line

  /** A line that begins with neither a blank nor an `F`, and not with the marker, and has no line feed. */
  ghost predicate PlainLine(text: seq<byte>, lex: Lexicon)
  {
    text != [] && !IsSpace(text[0]) && text[0] != 70 && LF !in text && !(lex.marker <= text)
  }

  lemma PlainLineIsNoEngineLine(text: seq<byte>, lex: Lexicon)
    requires PlainLine(text, lex)
    ensures !TwoArms(text, lex.marker) && !Escalates(text, lex.tail)
  {
    forall p: nat ensures !Occurs(text, [LF] + lex.marker, p) {
      if Occurs(text, [LF] + lex.marker, p) { MarkerAfterFeed(text, lex.marker, p); }
    }
    forall i: nat ensures !EscalatesAt(text, lex.tail, i) {
      if i == 0 { NoAnchor(text[0..LineEnd(text, 0)], text, lex.tail); }
    }
  }

  lemma NoAnchor(line: seq<byte>, text: seq<byte>, tail: seq<byte>)
    requires line <= text && text != [] && !IsSpace(text[0]) && text[0] != 70
    ensures !MatchesAnchor(line, tail)
  {
    forall j: nat, d: nat ensures !AnchorParts(line, tail, j, d) {
      if j < |line| { assert line[0] == text[0]; }
    }
  }

  /** The label of the pass, some blanks and one of its tokens: read as that token. */
  lemma LabelledLineIsRead(lex: Lexicon, pass: Pass, t: Token, gap: seq<byte>, text: seq<byte>, d: Decision)
    requires lex.Sound() && t in lex.FormOf(pass, true).tokens && text == lex.FormOf(pass, true).tag + gap + lex.name(t)
    requires (forall i :: 0 <= i < |gap| ==> IsSpace(gap[i])) && PlainLine(text, lex) && Decides(d, text, lex, pass)
    ensures d == Decision(Some(t), Literal, None)
  {
    var form := lex.FormOf(pass, true);
    PlainLineIsNoEngineLine(text, lex);
    LabelOfLine(form, lex.name, t, gap, text);
    LabelOrNot(text, form, lex.name, t);
    assert Holds(Literal, text, lex, pass) && !Holds(Withheld, text, lex, pass);
    assert !Holds(EngineEscalation, text, lex, pass);
    RankIsTwo(d.tier);
    LabelsIsUnique(text, form, lex.name, t, d.token.value);
  }

  lemma RankIsTwo(tier: Tier)
    requires tier != Withheld && tier != EngineEscalation && !(2 < Rank(tier))
    ensures tier == Literal
  {
  }

  lemma LabelOfLine(form: Form, name: Token -> seq<byte>, t: Token, gap: seq<byte>, text: seq<byte>)
    requires t in form.tokens && text == form.tag + gap + name(t) && LF !in text
    requires forall i :: 0 <= i < |gap| ==> IsSpace(gap[i])
    ensures Labels(text, form, name, t)
  {
    var tag, from := form.tag, |form.tag| + |gap|;
    assert text[0..|tag|] == tag && text[from..from + |name(t)|] == name(t);
    forall k | |tag| <= k < from ensures IsSpace(text[k]) && text[k] != LF {
      assert text[k] == gap[k - |tag|];
      assert text[k] in text;
    }
    assert Occurs(text, tag, 0) && Gap(text, 0 + |tag|, from) && Occurs(text, name(t), from);
    var names := Names(form.tokens, name);
    var i :| 0 <= i < |form.tokens| && form.tokens[i] == t;
    assert names[i] == name(t);
    assert Labelled(text, 0, tag, name(t)) && name(t) in names;
  }
}

/** The protocol's own literals and tables, shown to be a sound lexicon. */
module ReplyLexicon {
  import opened Prelude
  import opened Utf8
  import opened ReplyScan
  import opened ReplyReader

  /** Every literal of the protocol and of the tables is printable ASCII. */
  predicate Printable(s: string)
  {
    s != "" && forall i :: 0 <= i < |s| ==> 32 <= s[i] as int < 127
  }

  function Bytes(s: string): (r: seq<byte>)
    requires Printable(s)
    ensures |r| == |s| && forall i :: 0 <= i < |s| ==> r[i] == s[i] as int
    ensures SoundPattern(r)
  {
    seq(|s|, i requires 0 <= i < |s| => s[i] as int)
  }

  const MARKER: string := "Disposition-Withheld: REVIEW-ANCHOR-MISSING"
  const ANCHOR_TAIL: string := ": (BLOCKING) [mika-engine] review-anchor:"

  lemma MarkerIsPrintable()
    ensures Printable(MARKER)
  {
  }

  lemma TailIsPrintable()
    ensures Printable(ANCHOR_TAIL)
  {
  }

  function Disposition(): (r: seq<byte>)
    ensures Unbordered(r)
  {
    assert Printable("Disposition:");
    Bytes("Disposition:")
  }

  function Verdict(): (r: seq<byte>)
    ensures Unbordered(r)
  {
    assert Printable("Verdict:");
    Bytes("Verdict:")
  }

  function TokenName(t: Token): (r: string)
    ensures Printable(r) && r[0] == match t case Ready => 'R' case Iterate => 'I' case Escalate => 'E' case Groomed =>
      'G'
  {
    match t
    case Ready => "READY"
    case Iterate => "ITERATE"
    case Escalate => "ESCALATE"
    case Groomed => "GROOMED"
  }

  function TokenBytes(t: Token): (r: seq<byte>)
    ensures IsToken(r) && r[0] == TokenName(t)[0] as int
  {
    Bytes(TokenName(t))
  }

  predicate AllPrintable(patterns: seq<string>)
  {
    forall k :: 0 <= k < |patterns| ==> Printable(patterns[k])
  }

  function Row(token: Token, patterns: seq<string>): (r: Class)
    requires AllPrintable(patterns)
    ensures r.token == token && SoundPatterns(r.patterns)
    ensures |r.patterns| == |patterns| && forall k :: 0 <= k < |patterns| ==> r.patterns[k] == Bytes(patterns[k])
  {
    Class(token, seq(|patterns|, k requires 0 <= k < |patterns| => Bytes(patterns[k])))
  }

  function EscalateWord(): seq<byte>
  {
    assert Printable("escalate");
    Bytes("escalate")
  }

  function FirstEscalate(): (r: Class)
    ensures SoundPatterns(r.patterns) && r.token == Escalate && r.patterns != [] && r.patterns[0] == EscalateWord()
  {
    assert Printable("escalate") && Printable("human review") && Printable("cannot proceed");
    assert Printable("fundamental") && Printable("out of scope for");
    Row(Escalate, ["escalate", "human review", "cannot proceed", "fundamental", "out of scope for"])
  }

  function FirstIterate(): (r: Class)
    ensures SoundPatterns(r.patterns)
  {
    assert Printable("needs revision") && Printable("another pass") && Printable("revise");
    assert Printable("address the following") && Printable("concerns that require");
    Row(Iterate, ["needs revision", "another pass", "revise", "address the following", "concerns that require"])
  }

  function FirstReady(): (r: Class)
    ensures SoundPatterns(r.patterns)
  {
    assert Printable("proceed") && Printable("ship it") && Printable("dispatch");
    assert Printable("good to go") && Printable("plan is clean");
    Row(Ready, ["proceed", "ship it", "dispatch", "good to go", "plan is clean"])
  }

  function SecondEscalate(): (r: Class)
    ensures SoundPatterns(r.patterns) && r.token == Escalate && r.patterns != [] && r.patterns[0] == EscalateWord()
  {
    assert Printable("escalate") && Printable("cannot approve");
    assert Printable("human review needed") && Printable("fundamental issues remain");
    Row(Escalate, ["escalate", "cannot approve", "human review needed", "fundamental issues remain"])
  }

  function SecondGroomed(): (r: Class)
    ensures SoundPatterns(r.patterns)
  {
    assert Printable("groomed") && Printable("approved") && Printable("plan is ready");
    assert Printable("ship it") && Printable("no remaining concerns");
    Row(Groomed, ["groomed", "approved", "plan is ready", "ship it", "no remaining concerns"])
  }

  function TheLexicon(): (lex: Lexicon)
    ensures lex.Sound()
  {
    MarkerIsPrintable();
    TailIsPrintable();
    Lexicon(
      Bytes(MARKER), Bytes(ANCHOR_TAIL),
      Form(Disposition(), [Ready, Iterate, Escalate]), Form(Verdict(), [Groomed, Escalate]),
      TokenBytes,
      [FirstEscalate(), FirstIterate(), FirstReady()], [SecondEscalate(), SecondGroomed()])
  }

  /**
   In both passes the word `escalate`, in any case and anywhere in the text, outweighs every other
   paraphrase wherever it stands: the order of the table decides before the order of the text.
   */
  lemma EscalateOutweighs(text: seq<byte>, pass: Pass, d: Decision)
    requires Find(Fold(text), EscalateWord()).Some? && Decides(d, text, TheLexicon(), pass)
    ensures d.tier == Paraphrased || Rank(d.tier) < Rank(Paraphrased)
    ensures d.tier == Paraphrased ==>
      var at := Find(Fold(text), EscalateWord()).value;
      d.token == Some(Escalate) && d.fragment == Some(Span(at, at + |EscalateWord()|))
  {
    var table := TheLexicon().TableOf(pass);
    assert table[0] == if pass == First then FirstEscalate() else SecondEscalate();
    FirstRowFirst(Fold(text), table);
    assert Holds(Paraphrased, text, TheLexicon(), pass);
  }

  lemma FirstRowFirst(hay: seq<byte>, table: seq<Class>)
    requires table != [] && table[0].patterns != [] && Find(hay, table[0].patterns[0]).Some?
    ensures var at := Find(hay, table[0].patterns[0]).value;
      FirstInTable(hay, table) == Some(Reading(table[0].token, Span(at, at + |table[0].patterns[0]|)))
  {
  }

  /** `decide` as the engine runs it. */
  method DecideReply(text: seq<byte>, pass: Pass) returns (d: Decision)
    ensures Decides(d, text, TheLexicon(), pass)
  {
    d := Decide(text, TheLexicon(), pass);
  }

  // ---------------------------------------------------------------- the two passes

  const DISPOSITIONS: seq<Token> := [Ready, Iterate, Escalate]
  const VERDICTS: seq<Token> := [Groomed, Escalate]

  lemma FormsOfPasses()
    ensures TheLexicon().name == TokenBytes
    ensures TheLexicon().FormOf(First, true) == TheLexicon().FormOf(Second, false) == Form(Disposition(), DISPOSITIONS)
    ensures TheLexicon().FormOf(First, false) == TheLexicon().FormOf(Second, true) == Form(Verdict(), VERDICTS)
    ensures TheLexicon().TableOf(First) == [FirstEscalate(), FirstIterate(), FirstReady()]
    ensures TheLexicon().TableOf(Second) == [SecondEscalate(), SecondGroomed()]
  {
  }

  /**
   The first pass reads a disposition, READY, ITERATE or ESCALATE; failing that it takes over a verdict,
   GROOMED as READY and ESCALATE as itself; failing that it goes by its own three rows of paraphrases.
   */
  lemma FirstPassReads(text: seq<byte>, d: Decision)
    requires Decides(d, text, TheLexicon(), First)
    ensures d.tier !in {Withheld, EngineEscalation} ==>
      (d.tier == Literal <==> !NoLabel(text, Form(Disposition(), DISPOSITIONS), TokenBytes))
    ensures d.tier == Literal ==>
      d.token.Some? && Labels(text, Form(Disposition(), DISPOSITIONS), TokenBytes, d.token.value)
    ensures d.tier in {CarriedOver, Paraphrased, Unparsed} ==>
      (d.tier == CarriedOver <==>
         || Labels(text, Form(Verdict(), VERDICTS), TokenBytes, Groomed)
         || Labels(text, Form(Verdict(), VERDICTS), TokenBytes, Escalate))
    ensures d.tier == CarriedOver ==>
      && (d.token == Some(Ready) <==> Labels(text, Form(Verdict(), VERDICTS), TokenBytes, Groomed))
      && (d.token == Some(Escalate) <==> Labels(text, Form(Verdict(), VERDICTS), TokenBytes, Escalate))
      && (d.token == Some(Ready) || d.token == Some(Escalate))
    ensures d.tier == Paraphrased ==>
      && d.token.Some? && d.fragment.Some?
      && FirstInTable(Fold(text), [FirstEscalate(), FirstIterate(), FirstReady()])
           == Some(Reading(d.token.value, d.fragment.value))
  {
    FormsOfPasses();
    if d.tier == CarriedOver { CarriedInFirstPass(text, TheLexicon(), d); }
    CarriedWhenLabelled(text, TheLexicon(), First, Groomed, d);
    CarriedWhenLabelled(text, TheLexicon(), First, Escalate, d);
    assert d.tier in {CarriedOver, Paraphrased, Unparsed} ==> !Holds(Literal, text, TheLexicon(), First);
  }

  /**
   The second pass reads a verdict, GROOMED or ESCALATE; failing that it takes over a disposition, READY as
   GROOMED and ESCALATE as itself, while an ITERATE carries nothing; then its own two rows of paraphrases.
   */
  lemma SecondPassReads(text: seq<byte>, d: Decision)
    requires Decides(d, text, TheLexicon(), Second)
    ensures d.tier !in {Withheld, EngineEscalation} ==>
      (d.tier == Literal <==> !NoLabel(text, Form(Verdict(), VERDICTS), TokenBytes))
    ensures d.tier == Literal ==>
      d.token.Some? && Labels(text, Form(Verdict(), VERDICTS), TokenBytes, d.token.value)
    ensures d.tier in {CarriedOver, Paraphrased, Unparsed} ==>
      (d.tier == CarriedOver <==>
         || Labels(text, Form(Disposition(), DISPOSITIONS), TokenBytes, Ready)
         || Labels(text, Form(Disposition(), DISPOSITIONS), TokenBytes, Escalate))
    ensures d.tier == CarriedOver ==>
      && (d.token == Some(Groomed) <==> Labels(text, Form(Disposition(), DISPOSITIONS), TokenBytes, Ready))
      && (d.token == Some(Escalate) <==> Labels(text, Form(Disposition(), DISPOSITIONS), TokenBytes, Escalate))
      && (d.token == Some(Groomed) || d.token == Some(Escalate))
    ensures d.tier == Paraphrased ==>
      && d.token.Some? && d.fragment.Some?
      && FirstInTable(Fold(text), [SecondEscalate(), SecondGroomed()])
           == Some(Reading(d.token.value, d.fragment.value))
  {
    FormsOfPasses();
    if d.tier == CarriedOver { CarriedInSecondPass(text, TheLexicon(), d); }
    CarriedWhenLabelled(text, TheLexicon(), Second, Ready, d);
    CarriedWhenLabelled(text, TheLexicon(), Second, Escalate, d);
    assert d.tier in {CarriedOver, Paraphrased, Unparsed} ==> !Holds(Literal, text, TheLexicon(), Second);
  }

  // ---------------------------------------------------------------- replies as they are written

  /** `Disposition:`, a space and one of the three words: that word, at the literal tier of the first pass. */
  lemma DispositionLine(t: Token, word: string, text: seq<byte>, d: Decision)
    requires (t == Ready && word == "READY") || (t == Iterate && word == "ITERATE")
      || (t == Escalate && word == "ESCALATE")
    requires Printable("Disposition:") && Printable(word) && text == Bytes("Disposition:") + [32] + Bytes(word)
    requires Decides(d, text, TheLexicon(), First)
    ensures d == Decision(Some(t), Literal, None)
  {
    FormsOfPasses();
    assert word == TokenName(t);
    NotTheMarker(text);
    LabelledLineIsRead(TheLexicon(), First, t, [32], text, d);
  }

  /** `Verdict:`, a space and one of the two words: that word, at the literal tier of the second pass. */
  lemma VerdictLine(t: Token, word: string, text: seq<byte>, d: Decision)
    requires (t == Groomed && word == "GROOMED") || (t == Escalate && word == "ESCALATE")
    requires Printable("Verdict:") && Printable(word) && text == Bytes("Verdict:") + [32] + Bytes(word)
    requires Decides(d, text, TheLexicon(), Second)
    ensures d == Decision(Some(t), Literal, None)
  {
    FormsOfPasses();
    assert word == TokenName(t);
    NotTheMarker(text);
    LabelledLineIsRead(TheLexicon(), Second, t, [32], text, d);
  }

  lemma NotTheMarker(text: seq<byte>)
    requires |text| < 43
    ensures !(TheLexicon().marker <= text)
  {
    MarkerIsPrintable();
    assert |MARKER| == 43;
  }

  lemma WithheldLine(text: seq<byte>, pass: Pass, d: Decision)
    requires Printable("Disposition-Withheld: REVIEW-ANCHOR-MISSING")
    requires text == Bytes("Disposition-Withheld: REVIEW-ANCHOR-MISSING") && Decides(d, text, TheLexicon(), pass)
    ensures d == Decision(None, Withheld, None)
  {
    assert text == [] + TheLexicon().marker + [];
    MarkerLineWithholds([], [], TheLexicon(), pass, d);
  }

  /** A numbered, blocking finding of the engine about the review anchor, indented or not. */
  lemma EngineLine(indent: seq<byte>, number: seq<byte>, text: seq<byte>, pass: Pass, d: Decision)
    requires Printable(": (BLOCKING) [mika-engine] review-anchor:")
    requires forall i :: 0 <= i < |indent| ==> indent[i] == 32
    requires number != [] && forall i :: 0 <= i < |number| ==> '0' as int <= number[i] <= '9' as int
    requires text == indent + ['F' as int] + number + Bytes(": (BLOCKING) [mika-engine] review-anchor:")
    requires Decides(d, text, TheLexicon(), pass)
    ensures d == Decision(Some(Escalate), EngineEscalation, None)
  {
    TailIsPrintable();
    MarkerIsPrintable();
    assert MARKER[0] == 'D' && TheLexicon().marker == Bytes(MARKER) && TheLexicon().tail == Bytes(ANCHOR_TAIL);
    EngineLineEscalates(TheLexicon(), indent, number, text, pass, d);
  }

  lemma EngineLineEscalates(lex: Lexicon, indent: seq<byte>, number: seq<byte>, text: seq<byte>, pass: Pass,
                            d: Decision)
    requires lex.Sound() && text == indent + [70] + number + lex.tail && LF !in lex.tail
    requires forall i :: 0 <= i < |indent| ==> indent[i] == 32
    requires number != [] && forall i :: 0 <= i < |number| ==> 48 <= number[i] <= 57
    requires lex.marker[0] == 68 && Decides(d, text, lex, pass)
    ensures d == Decision(Some(Escalate), EngineEscalation, None)
  {
    var n, m := |indent|, |indent| + 1 + |number|;
    assert forall k :: 0 <= k < n ==> text[k] == indent[k];
    assert text[n] == 70 && text[m..] == lex.tail;
    assert forall k :: n < k < m ==> text[k] == number[k - n - 1];
    assert forall k :: m <= k < |text| ==> text[k] == lex.tail[k - m];
    assert LF !in text;
    WholeLine(text);
    assert AnchorParts(text, lex.tail, n, m);
    assert EscalatesAt(text, lex.tail, 0);
    NoFeedNoMarker(text, lex.marker);
    assert Holds(EngineEscalation, text, lex, pass) && !Holds(Withheld, text, lex, pass);
    RankIsOne(d.tier);
  }

  /** A finding's number is decimal. */
  lemma NumbersExactly(b: byte)
    ensures IsDigit(b) <==> '0' as int <= b <= '9' as int
  {
  }

  lemma RankIsOne(tier: Tier)
    requires tier != Withheld && !(1 < Rank(tier))
    ensures tier == EngineEscalation
  {
  }

  lemma WholeLine(text: seq<byte>)
    requires LF !in text
    ensures text[0..LineEnd(text, 0)] == text
  {
    assert LineBreak(text, 0) == |text|;
  }

  lemma NoFeedNoMarker(text: seq<byte>, marker: seq<byte>)
    requires LF !in text && text != [] && marker != [] && text[0] != marker[0]
    ensures !TwoArms(text, marker)
  {
    forall p: nat ensures !Occurs(text, [LF] + marker, p) {
      if Occurs(text, [LF] + marker, p) { MarkerAfterFeed(text, marker, p); }
    }
    if marker <= text { PrefixHead(marker, text); }
  }

  lemma PrefixHead(a: seq<byte>, b: seq<byte>)
    requires a != [] && a <= b
    ensures b != [] && a[0] == b[0]
  {
  }

  // ---------------------------------------------------------------- phrases as they are written

  /** The phrase stands at this place of the text, in any case. */
  predicate SaysAt(text: seq<byte>, phrase: string, p: nat)
  {
    p + |phrase| <= |text| && forall i :: 0 <= i < |phrase| ==> Fold(text)[p + i] == phrase[i] as int
  }

  ghost predicate Says(text: seq<byte>, phrase: string)
  {
    exists p: nat :: SaysAt(text, phrase, p)
  }

  ghost predicate SaysAny(text: seq<byte>, phrases: seq<string>)
  {
    exists k :: 0 <= k < |phrases| && Says(text, phrases[k])
  }

  lemma SaysExactly(text: seq<byte>, phrase: string)
    requires Printable(phrase)
    ensures Says(text, phrase) <==> PatternOccurs(Fold(text), Bytes(phrase))
  {
    var hay, pat := Fold(text), Bytes(phrase);
    forall p: nat ensures SaysAt(text, phrase, p) <==> Occurs(hay, pat, p) {
      if p + |pat| <= |hay| {
        var part := hay[p..p + |pat|];
        assert forall i :: 0 <= i < |pat| ==> part[i] == hay[p + i];
      }
    }
    if PatternOccurs(hay, pat) { assert Occurs(hay, pat, Find(hay, pat).value); }
  }

  lemma RowIsSaid(text: seq<byte>, row: Class, token: Token, phrases: seq<string>)
    requires AllPrintable(phrases) && row == Row(token, phrases)
    ensures row.token == token && (FirstOf(Fold(text), row.patterns).Some? <==> SaysAny(text, phrases))
  {
    var k := FirstOfPlace(Fold(text), row.patterns);
    forall j | 0 <= j < |phrases|
      ensures Says(text, phrases[j]) <==> PatternOccurs(Fold(text), row.patterns[j])
    {
      SaysExactly(text, phrases[j]);
    }
    if FirstOf(Fold(text), row.patterns).Some? { assert Says(text, phrases[k]); }
  }

  lemma Rows(hay: seq<byte>, a: Class, b: Class, rest: seq<Class>)
    ensures FirstInTable(hay, [a, b] + rest).Some? <==>
      FirstOf(hay, a.patterns).Some? || FirstOf(hay, b.patterns).Some? || FirstInTable(hay, rest).Some?
    ensures FirstInTable(hay, [a, b] + rest).Some? ==>
      FirstInTable(hay, [a, b] + rest).value.token ==
        if FirstOf(hay, a.patterns).Some? then a.token
        else if FirstOf(hay, b.patterns).Some? then b.token else FirstInTable(hay, rest).value.token
  {
    assert ([a, b] + rest)[1..] == [b] + rest && ([b] + rest)[1..] == rest;
  }

  /**
   Which phrases mean what to the first pass: escalation before iteration before readiness, and nothing but
   these phrases means anything.
   */
  lemma FirstPassPhrases(text: seq<byte>, d: Decision)
    requires Decides(d, text, TheLexicon(), First) && d.tier in {Paraphrased, Unparsed}
    ensures d.token ==
      if SaysAny(text, ["escalate", "human review", "cannot proceed", "fundamental", "out of scope for"])
      then Some(Escalate)
      else if SaysAny(text, ["needs revision", "another pass", "revise", "address the following",
                             "concerns that require"])
      then Some(Iterate)
      else if SaysAny(text, ["proceed", "ship it", "dispatch", "good to go", "plan is clean"]) then Some(Ready)
      else None
  {
    FormsOfPasses();
    EscalateIsSaid(text);
    IterateIsSaid(text);
    ReadyIsSaid(text);
    var hay, last := Fold(text), [FirstReady()];
    Rows(hay, FirstEscalate(), FirstIterate(), last);
    assert FirstInTable(hay, last).Some? <==> FirstOf(hay, FirstReady().patterns).Some?;
    assert [FirstEscalate(), FirstIterate(), FirstReady()] == [FirstEscalate(), FirstIterate()] + last;
    assert d.tier == Unparsed ==> !Holds(Paraphrased, text, TheLexicon(), First);
  }

  lemma EscalateIsSaid(text: seq<byte>)
    ensures FirstEscalate().token == Escalate
    ensures FirstOf(Fold(text), FirstEscalate().patterns).Some? <==>
      SaysAny(text, ["escalate", "human review", "cannot proceed", "fundamental", "out of scope for"])
  {
    EscalatePhrases();
    RowIsSaid(text, FirstEscalate(), Escalate,
              ["escalate", "human review", "cannot proceed", "fundamental", "out of scope for"]);
  }

  lemma EscalatePhrases()
    ensures AllPrintable(["escalate", "human review", "cannot proceed", "fundamental", "out of scope for"])
  {
    assert Printable("escalate") && Printable("human review") && Printable("cannot proceed");
    assert Printable("fundamental") && Printable("out of scope for");
  }

  lemma IterateIsSaid(text: seq<byte>)
    ensures FirstIterate().token == Iterate
    ensures FirstOf(Fold(text), FirstIterate().patterns).Some? <==>
      SaysAny(text, ["needs revision", "another pass", "revise", "address the following", "concerns that require"])
  {
    IteratePhrases();
    RowIsSaid(text, FirstIterate(), Iterate,
              ["needs revision", "another pass", "revise", "address the following", "concerns that require"]);
  }

  lemma IteratePhrases()
    ensures AllPrintable(["needs revision", "another pass", "revise", "address the following", "concerns that require"])
  {
    assert Printable("needs revision") && Printable("another pass") && Printable("revise");
    assert Printable("address the following") && Printable("concerns that require");
  }

  lemma ReadyIsSaid(text: seq<byte>)
    ensures FirstReady().token == Ready
    ensures FirstOf(Fold(text), FirstReady().patterns).Some? <==>
      SaysAny(text, ["proceed", "ship it", "dispatch", "good to go", "plan is clean"])
  {
    ReadyPhrases();
    RowIsSaid(text, FirstReady(), Ready,
              ["proceed", "ship it", "dispatch", "good to go", "plan is clean"]);
  }

  lemma ReadyPhrases()
    ensures AllPrintable(["proceed", "ship it", "dispatch", "good to go", "plan is clean"])
  {
    assert Printable("proceed") && Printable("ship it") && Printable("dispatch");
    assert Printable("good to go") && Printable("plan is clean");
  }

  /** The same for the second pass, which knows escalation and approval. */
  lemma SecondPassPhrases(text: seq<byte>, d: Decision)
    requires Decides(d, text, TheLexicon(), Second) && d.tier in {Paraphrased, Unparsed}
    ensures d.token ==
      if SaysAny(text, ["escalate", "cannot approve", "human review needed", "fundamental issues remain"])
      then Some(Escalate)
      else if SaysAny(text, ["groomed", "approved", "plan is ready", "ship it", "no remaining concerns"])
      then Some(Groomed)
      else None
  {
    FormsOfPasses();
    RefusalIsSaid(text);
    ApprovalIsSaid(text);
    var table, none: seq<Class> := [SecondEscalate(), SecondGroomed()], [];
    Rows(Fold(text), SecondEscalate(), SecondGroomed(), none);
    assert table + none == table;
    assert d.tier == Unparsed ==> !Holds(Paraphrased, text, TheLexicon(), Second);
  }

  lemma RefusalIsSaid(text: seq<byte>)
    ensures SecondEscalate().token == Escalate
    ensures FirstOf(Fold(text), SecondEscalate().patterns).Some? <==>
      SaysAny(text, ["escalate", "cannot approve", "human review needed", "fundamental issues remain"])
  {
    RefusalPhrases();
    RowIsSaid(text, SecondEscalate(), Escalate,
              ["escalate", "cannot approve", "human review needed", "fundamental issues remain"]);
  }

  lemma RefusalPhrases()
    ensures AllPrintable(["escalate", "cannot approve", "human review needed", "fundamental issues remain"])
  {
    assert Printable("escalate") && Printable("cannot approve");
    assert Printable("human review needed") && Printable("fundamental issues remain");
  }

  lemma ApprovalIsSaid(text: seq<byte>)
    ensures SecondGroomed().token == Groomed
    ensures FirstOf(Fold(text), SecondGroomed().patterns).Some? <==>
      SaysAny(text, ["groomed", "approved", "plan is ready", "ship it", "no remaining concerns"])
  {
    ApprovalPhrases();
    RowIsSaid(text, SecondGroomed(), Groomed,
              ["groomed", "approved", "plan is ready", "ship it", "no remaining concerns"]);
  }

  lemma ApprovalPhrases()
    ensures AllPrintable(["groomed", "approved", "plan is ready", "ship it", "no remaining concerns"])
  {
    assert Printable("groomed") && Printable("approved") && Printable("plan is ready");
    assert Printable("ship it") && Printable("no remaining concerns");
  }
}
