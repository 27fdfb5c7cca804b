/**
 How Rust reads a line, character by character: ordinary strings with their escapes, raw strings with
 their hashes, character literals, and comments, of which the block ones nest. What is open at the end of
 a line stays open on the next, except a line comment.
 */
module RustText {
  import opened Prelude
  import opened LintScanners

  /** What the reader is in the middle of. */
  datatype Reading = Code | Str | Raw(hashes: nat) | Block(depth: nat)

  datatype Place = Place(at: nat, reading: Reading)

  predicate IsIdent(c: char)
  {
    'a' <= c <= 'z' || 'A' <= c <= 'Z' || '0' <= c <= '9' || c == '_' || c as int >= 0x80
  }

  /** An `r` here is a prefix of its own, or follows the `b` or `c` of a byte or C string, and ends no identifier. */
  predicate StartsToken(line: string, i: nat)
    requires i < |line|
  {
    || i == 0 || !IsIdent(line[i - 1])
    || (line[i - 1] in {'b', 'c'} && (i == 1 || !IsIdent(line[i - 2])))
  }

  predicate Pair(line: string, i: nat, a: char, b: char)
  {
    i + 1 < |line| && line[i] == a && line[i + 1] == b
  }

  /** Past the first apostrophe at or after `j`, or `j` itself when there is none. */
  function PastApostrophe(line: string, j: nat): (r: nat)
    ensures j <= r
  {
    if exists k :: j <= k < |line| && line[k] == '\'' then Apostrophe(line, j) + 1 else j
  }

  function Apostrophe(line: string, j: nat): (r: nat)
    requires exists k :: j <= k < |line| && line[k] == '\''
    ensures j <= r < |line| && line[r] == '\''
    decreases |line| - j
  {
    if line[j] == '\'' then j else Apostrophe(line, j + 1)
  }

  /** Past a character literal, or past the apostrophe of a lifetime. */
  function PastChar(line: string, i: nat): (r: nat)
    ensures i < r
  {
    if Pair(line, i, '\'', '\\') then PastApostrophe(line, i + 3)
    else if i + 2 < |line| && line[i + 2] == '\'' then i + 3
    else i + 1
  }

  function NextInCode(line: string, i: nat): (p: Place)
    requires i < |line|
    ensures p.at > i
  {
    if Pair(line, i, '/', '/') then Place(|line|, Code)
    else if Pair(line, i, '/', '*') then Place(i + 2, Block(1))
    else if OpensHere(line, i) && StartsToken(line, i) then
      Place(i + CountHashes(line, i + 1) + 2, Raw(CountHashes(line, i + 1)))
    else if line[i] == '"' then Place(i + 1, Str)
    else if line[i] == '\'' then Place(PastChar(line, i), Code)
    else Place(i + 1, Code)
  }

  function Next(line: string, i: nat, reading: Reading): (p: Place)
    requires i < |line|
    ensures p.at > i
  {
    match reading
    case Code => NextInCode(line, i)
    case Str =>
      if line[i] == '\\' then Place(i + 2, Str)
      else if line[i] == '"' then Place(i + 1, Code)
      else Place(i + 1, Str)
    case Raw(hashes) =>
      if OccursAt(line, Closing(hashes), i) then Place(i + 1 + hashes, Code) else Place(i + 1, reading)
    case Block(depth) =>
      if Pair(line, i, '*', '/') then Place(i + 2, if depth <= 1 then Code else Block(depth - 1))
      else if Pair(line, i, '/', '*') then Place(i + 2, Block(depth + 1))
      else Place(i + 1, reading)
  }

  /** What is open at the end of the line, reading from `i` on. */
  function Read(line: string, i: nat, reading: Reading): Reading
    decreases |line| - i
  {
    if i >= |line| then reading
    else
      var p := Next(line, i, reading);
      Read(line, p.at, p.reading)
  }

  /** What is open at the head of line `i` of a file. */
  function ReadTo(lines: seq<string>, i: nat): Reading
    requires i <= |lines|
  {
    if i == 0 then Code else Read(lines[i - 1], 0, ReadTo(lines, i - 1))
  }

  /** Reading from `i` comes by `q` outside every string and comment. */
  predicate Arrives(line: string, i: nat, reading: Reading, q: nat)
    decreases |line| - i
  {
    || (i == q && reading == Code)
    || (i < q && i < |line| && var p := Next(line, i, reading); Arrives(line, p.at, p.reading, q))
  }

  lemma {:induction false} ArrivesReads(line: string, i: nat, reading: Reading, q: nat)
    requires Arrives(line, i, reading, q) && q < |line|
    ensures Read(line, i, reading) == Read(line, q, Code)
    decreases |line| - i
  {
    if i < q {
      var p := Next(line, i, reading);
      ArrivesReads(line, p.at, p.reading, q);
    }
  }

  /** Past the first closing from `i` on of a raw string of so many hashes; inside it, if there is none. */
  function ReadRaw(line: string, i: nat, hashes: nat): Reading
  {
    var at := FindClosing(line, hashes, i);
    if at.None? then Raw(hashes) else Read(line, at.value + 1 + hashes, Code)
  }

  /** Inside a raw string only its own closing matters. */
  lemma {:induction false} RawReads(line: string, i: nat, hashes: nat)
    ensures Read(line, i, Raw(hashes)) == ReadRaw(line, i, hashes)
    decreases |line| - i
  {
    if i < |line| && !OccursAt(line, Closing(hashes), i) {
      RawReads(line, i + 1, hashes);
      FindClosingStep(line, hashes, i);
    }
  }

  lemma FindClosingStep(line: string, hashes: nat, i: nat)
    requires i < |line| && !OccursAt(line, Closing(hashes), i)
    ensures FindClosing(line, hashes, i) == FindClosing(line, hashes, i + 1)
  {
  }

  // ---------------------------------------------------------------- lines that open and close nothing

  predicate IsInert(c: char)
  {
    c !in {'"', '\'', '/', '*', '\\'}
  }

  predicate Inert(line: string)
  {
    forall i :: 0 <= i < |line| ==> IsInert(line[i])
  }

  /** A line without quotes, apostrophes, slashes, stars and backslashes leaves every reading as it was. */
  lemma {:induction false} InertKeeps(line: string, i: nat, reading: Reading)
    requires forall k :: i <= k < |line| ==> IsInert(line[k])
    ensures Read(line, i, reading) == reading
    decreases |line| - i
  {
    if i < |line| {
      InertStep(line, i, reading);
      InertKeeps(line, i + 1, reading);
    }
  }

  lemma InertStep(line: string, i: nat, reading: Reading)
    requires i < |line| && forall k :: i <= k < |line| ==> IsInert(line[k])
    ensures Next(line, i, reading) == Place(i + 1, reading)
  {
    if reading.Raw? { NoQuoteNoClosing(line, reading.hashes, i); }
  }

  lemma NoQuoteNoClosing(line: string, hashes: nat, i: nat)
    requires i < |line| && line[i] != '"'
    ensures !OccursAt(line, Closing(hashes), i)
  {
    var n := |Closing(hashes)|;
    assert Closing(hashes)[0] == '"' && (i + n <= |line| ==> line[i..i + n][0] == line[i]);
  }

  // ---------------------------------------------------------------- samples

  /** A quote in a character literal opens no string, escaped or not, and neither does an escaped apostrophe. */
  lemma QuoteAsACharacter(line: string, escaped: string, apostrophe: string)
    requires |line| == 3 && line[0] == '\'' && line[1] == '"' && line[2] == '\''
    requires |escaped| == 4 && escaped[0] == '\'' && escaped[1] == '\\' && escaped[2] == '"' && escaped[3] == '\''
    requires |apostrophe| == 4 && apostrophe[0] == '\'' && apostrophe[1] == '\\'
    requires apostrophe[2] == '\'' && apostrophe[3] == '\''
    ensures Read(line, 0, Code) == Read(escaped, 0, Code) == Read(apostrophe, 0, Code) == Code
  {
    assert Next(line, 0, Code) == Place(3, Code);
    assert Next(escaped, 0, Code) == Place(4, Code);
    assert Next(apostrophe, 0, Code) == Place(4, Code);
  }

  /** An escaped quote leaves a string open. */
  lemma QuoteEscaped(line: string)
    requires |line| == 3 && line[0] == '"' && line[1] == '\\' && line[2] == '"'
    ensures Read(line, 0, Code) == Str
  {
    assert Next(line, 0, Code) == Place(1, Str) && Next(line, 1, Str) == Place(3, Str);
    assert Read(line, 1, Str) == Read(line, 3, Str) == Str;
  }

  /** A quote after two slashes is a comment's; a block comment inside a block comment needs its own end. */
  lemma Comments(line: string, nested: string)
    requires |line| == 3 && line[0] == '/' && line[1] == '/' && line[2] == '"'
    requires |nested| == 6 && nested[0] == '/' && nested[1] == '*' && nested[2] == '/' && nested[3] == '*'
    requires nested[4] == '*' && nested[5] == '/'
    ensures Read(line, 0, Code) == Code && Read(nested, 0, Code) == Block(1)
  {
    assert Next(line, 0, Code) == Place(3, Code);
    assert Next(nested, 0, Code) == Place(2, Block(1)) && Next(nested, 2, Block(1)) == Place(4, Block(2));
    assert Next(nested, 4, Block(2)) == Place(6, Block(1));
    assert Read(nested, 4, Block(2)) == Block(1) && Read(nested, 2, Block(1)) == Block(1);
  }

  /** `br"` opens a raw byte string; the `r` at the end of an identifier opens nothing raw. */
  lemma RawPrefixes(bytes: string, word: string)
    requires |bytes| == 3 && bytes[0] == 'b' && bytes[1] == 'r' && bytes[2] == '"'
    requires |word| == 3 && word[0] == 'o' && word[1] == 'r' && word[2] == '"'
    ensures Read(bytes, 0, Code) == Raw(0) && Read(word, 0, Code) == Str
  {
    CountHashesTo(bytes, 2, 0);
    CountHashesTo(word, 2, 0);
    assert Next(bytes, 0, Code) == Place(1, Code) && Next(bytes, 1, Code) == Place(3, Raw(0));
    assert Next(word, 0, Code) == Place(1, Code) && Next(word, 1, Code) == Place(2, Code);
    assert Next(word, 2, Code) == Place(3, Str);
    assert Read(bytes, 3, Raw(0)) == Raw(0);
    assert Read(bytes, 1, Code) == Read(bytes, 3, Raw(0));
    assert Read(word, 3, Str) == Str;
    assert Read(word, 2, Code) == Read(word, 3, Str);
    assert Read(word, 1, Code) == Read(word, 2, Code);
  }
}
