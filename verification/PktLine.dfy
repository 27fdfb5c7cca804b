/**
 The command section at the head of a git receive-pack body: packets holding `<old> SP <new> SP <ref>`
 triplets, the first with capabilities after a NUL ("Reference Update Request and Packfile Transfer",
 gitprotocol-pack(5)).
 */
module PktLine {
  import opened Prelude
  import opened Utf8
  import opened PktFraming

  datatype Command = Command(oldId: string, newId: string, ref: string)

  const SP: byte := 0x20

  /** What Python's `bytes.strip()` strips. */
  predicate IsBlank(b: byte)
  {
    b == 0x20 || 0x09 <= b <= 0x0D
  }

  /** Tab, line feed, vertical tab, form feed, carriage return and space, and nothing else. */
  lemma BlanksExactly(b: byte)
    ensures IsBlank(b) <==> b in {9, 10, 11, 12, 13, 32}
  {
  }

  // ---------------------------------------------------------------- one command

  function BeforeNul(s: seq<byte>): seq<byte>
  {
    if s == [] || s[0] == 0 then [] else [s[0]] + BeforeNul(s[1..])
  }

  function StripLeft(s: seq<byte>): seq<byte>
  {
    if s != [] && IsBlank(s[0]) then StripLeft(s[1..]) else s
  }

  function StripRight(s: seq<byte>): seq<byte>
  {
    if s != [] && IsBlank(s[|s| - 1]) then StripRight(s[..|s| - 1]) else s
  }

  /** `s.split(b" ")`: always at least one part, and no part holds a space. */
  function SplitSpaces(s: seq<byte>): (parts: seq<seq<byte>>)
    ensures parts != []
  {
    if s == [] then [[]]
    else
      var rest := SplitSpaces(s[1..]);
      if s[0] == SP then [[]] + rest else [[s[0]] + rest[0]] + rest[1..]
  }

  /** What is left of a payload once everything from the first NUL on and the blanks around it are gone. */
  function CommandLine(payload: seq<byte>): seq<byte>
  {
    StripRight(StripLeft(BeforeNul(payload)))
  }

  function ParseRefCommand(payload: seq<byte>): Option<Command>
  {
    var parts := SplitSpaces(CommandLine(payload));
    if |parts| != 3 then None
    else
      var oldId, newId, ref := Decode(parts[0]), Decode(parts[1]), Decode(parts[2]);
      if oldId.None? || newId.None? || ref.None? then None
      else if oldId.value == [] || newId.value == [] || ref.value == [] then None
      else Some(Command(oldId.value, newId.value, ref.value))
  }

  // ---------------------------------------------------------------- the command section

  /** `None` is no body or an undecodable one; an empty list is the authentication probe. */
  function Commands(body: Option<seq<byte>>): Option<seq<Command>>
  {
    Section(body, ParseRefCommand)
  }

  method RefCommands(body: Option<seq<byte>>) returns (r: Option<seq<Command>>)
    ensures r == Commands(body)
  {
    r := ReadPackets(body, ParseRefCommand);
  }

  // ---------------------------------------------------------------- the round trip

  function HexDigit(n: nat): byte
    requires n < 16
  {
    if n < 10 then 0x30 + n else 0x61 + (n - 10)
  }

  function Header(n: nat): seq<byte>
    requires n < 0x10000
  {
    [HexDigit(n / 4096), HexDigit(n / 256 % 16), HexDigit(n / 16 % 16), HexDigit(n % 16)]
  }

  lemma DigitValue(n: nat)
    requires n < 16
    ensures HexValue(HexDigit(n)) == Some(n)
  {
  }

  lemma HeaderLength(n: nat)
    requires n < 0x10000
    ensures IsHeader(Header(n)) && Length(Header(n)) == n
  {
    DigitValue(n / 4096); DigitValue(n / 256 % 16); DigitValue(n / 16 % 16); DigitValue(n % 16);
    LengthDigits(Header(n));
    assert n / 16 == 16 * (n / 16 / 16) + n / 16 % 16 && n / 16 / 16 == n / 256;
    assert n / 256 == 16 * (n / 256 / 16) + n / 256 % 16 && n / 256 / 16 == n / 4096;
  }

  /** A command the reader gives back unchanged: three non-empty names without space or NUL, not blank at either end. */
  predicate WellFormed(c: Command)
  {
    && IsName(c.oldId) && IsName(c.newId) && IsName(c.ref)
    && !BlankChar(c.oldId[0]) && !BlankChar(c.ref[|c.ref| - 1])
  }

  predicate IsName(t: string)
  {
    t != [] && ' ' !in t && '\0' !in t
  }

  predicate BlankChar(c: char)
  {
    (c as int) < 0x80 && IsBlank(c as int)
  }

  function Triplet(c: Command): seq<byte>
  {
    Encode(c.oldId) + [SP] + Encode(c.newId) + [SP] + Encode(c.ref)
  }

  /** What may follow a triplet in its packet: blanks (a line feed), then nothing or a NUL and capabilities. */
  ghost predicate IsTail(tail: seq<byte>)
  {
    exists k: nat :: BlanksThenNul(tail, k)
  }

  ghost predicate BlanksThenNul(tail: seq<byte>, k: nat)
  {
    k <= |tail| && (forall i :: 0 <= i < k ==> IsBlank(tail[i])) && (k < |tail| ==> tail[k] == 0)
  }

  ghost function Packets(commands: seq<Command>, tails: seq<seq<byte>>): seq<Packet>
    requires |tails| == |commands|
    requires forall i :: 0 <= i < |commands| ==> Fits(commands[i], tails[i])
  {
    seq(|commands|, i requires 0 <= i < |commands| && Fits(commands[i], tails[i]) =>
      var payload := Triplet(commands[i]) + tails[i];
      Packet(Header(4 + |payload|), payload))
  }

  /** Four hexadecimal digits must be able to hold the packet's length. */
  ghost predicate Fits(c: Command, tail: seq<byte>)
  {
    4 + |Triplet(c)| + |tail| < 0x10000
  }

  /**
   Encoding any list of well-formed commands, each with any admissible tail (capabilities after a NUL on
   the first, say), then a flush-pkt, then any pack, reads back exactly that list.
   */
  lemma RoundTrip(commands: seq<Command>, tails: seq<seq<byte>>, pack: seq<byte>)
    requires |tails| == |commands|
    requires forall i :: 0 <= i < |commands| ==>
      WellFormed(commands[i]) && IsTail(tails[i]) && Fits(commands[i], tails[i])
    ensures Commands(Some(Flat(Packets(commands, tails)) + FLUSH + pack)) == Some(commands)
  {
    var packets := Packets(commands, tails);
    forall i | 0 <= i < |packets| ensures IsPacket(packets[i])
      && ParseRefCommand(packets[i].payload) == Some(commands[i]) {
      HeaderLength(4 + |packets[i].payload|);
      ParseTriplet(commands[i], tails[i]);
    }
    DecompositionIsRead(Flat(packets) + FLUSH + pack, packets, pack, commands, ParseRefCommand);
  }

  lemma {:induction false} EncodeAscii(t: string, b: byte)
    requires b < 0x80
    ensures b in Encode(t) <==> b as char in t
  {
    if t != [] {
      EncodeAscii(t[1..], b);
      assert t == [t[0]] + t[1..];
    }
  }

  lemma {:induction false} EncodeEnds(t: string)
    requires t != []
    ensures Encode(t) != []
    ensures IsBlank(Encode(t)[0]) <==> BlankChar(t[0])
    ensures IsBlank(Encode(t)[|Encode(t)| - 1]) <==> BlankChar(t[|t| - 1])
  {
    var head, rest := EncodeChar(t[0]), Encode(t[1..]);
    CharEnds(t[0]);
    assert Encode(t) == head + rest;
    if |t| == 1 {
      assert t[1..] == [] && rest == [] && head + rest == head;
    } else {
      EncodeEnds(t[1..]);
      assert t[1..][|t| - 2] == t[|t| - 1];
      ConcatEnds(head, rest);
    }
  }

  lemma ConcatEnds(a: seq<byte>, b: seq<byte>)
    requires a != [] && b != []
    ensures (a + b)[0] == a[0] && (a + b)[|a + b| - 1] == b[|b| - 1]
  {
  }

  lemma CharEnds(c: char)
    ensures IsBlank(EncodeChar(c)[0]) <==> BlankChar(c)
    ensures IsBlank(EncodeChar(c)[|EncodeChar(c)| - 1]) <==> BlankChar(c)
  {
  }

  lemma {:induction false} BeforeNulStops(s: seq<byte>, tail: seq<byte>)
    requires 0 !in s && (tail != [] ==> tail[0] == 0)
    ensures BeforeNul(s + tail) == s
  {
    if s != [] {
      assert (s + tail)[1..] == s[1..] + tail;
      BeforeNulStops(s[1..], tail);
    }
  }

  lemma {:induction false} StripRightStops(s: seq<byte>, blanks: seq<byte>)
    requires s != [] && !IsBlank(s[|s| - 1]) && forall i :: 0 <= i < |blanks| ==> IsBlank(blanks[i])
    ensures StripRight(s + blanks) == s
  {
    if blanks == [] {
      assert s + blanks == s;
    } else {
      var init := blanks[..|blanks| - 1];
      assert (s + blanks)[..|s + blanks| - 1] == s + init;
      StripRightStops(s, init);
    }
  }

  lemma {:induction false} SplitNoSpace(s: seq<byte>)
    requires SP !in s
    ensures SplitSpaces(s) == [s]
  {
    if s != [] {
      SplitNoSpace(s[1..]);
      assert [s[0]] + s[1..] == s;
    }
  }

  lemma {:induction false} SplitFirst(s: seq<byte>, rest: seq<byte>)
    requires SP !in s
    ensures SplitSpaces(s + [SP] + rest) == [s] + SplitSpaces(rest)
  {
    var whole := s + [SP] + rest;
    if s == [] {
      assert whole[1..] == rest;
    } else {
      assert whole[1..] == s[1..] + [SP] + rest;
      SplitFirst(s[1..], rest);
      assert [s[0]] + s[1..] == s;
    }
  }

  lemma SplitTriplet(a: seq<byte>, b: seq<byte>, c: seq<byte>)
    requires SP !in a && SP !in b && SP !in c
    ensures SplitSpaces(a + [SP] + b + [SP] + c) == [a, b, c]
  {
    assert a + [SP] + b + [SP] + c == a + [SP] + (b + [SP] + c);
    SplitFirst(a, b + [SP] + c);
    SplitFirst(b, c);
    SplitNoSpace(c);
  }

  lemma ParseTriplet(c: Command, tail: seq<byte>)
    requires WellFormed(c) && IsTail(tail)
    ensures ParseRefCommand(Triplet(c) + tail) == Some(c)
  {
    var line := Triplet(c);
    TripletShape(c);
    LineStripped(line, tail);
    SplitTriplet(Encode(c.oldId), Encode(c.newId), Encode(c.ref));
    DecodeEncode(c.oldId);
    DecodeEncode(c.newId);
    DecodeEncode(c.ref);
  }

  /** The tail goes away whole: its NUL part by the cut, its blanks by the strip. */
  lemma LineStripped(line: seq<byte>, tail: seq<byte>)
    requires IsTail(tail) && line != [] && !IsBlank(line[0]) && !IsBlank(line[|line| - 1]) && 0 !in line
    ensures CommandLine(line + tail) == line
  {
    var k: nat :| BlanksThenNul(tail, k);
    var blanks, rest := tail[..k], tail[k..];
    assert line + tail == (line + blanks) + rest;
    CutAndStripped(line, blanks, rest, line + tail);
  }

  lemma CutAndStripped(line: seq<byte>, blanks: seq<byte>, rest: seq<byte>, payload: seq<byte>)
    requires payload == (line + blanks) + rest
    requires line != [] && !IsBlank(line[0]) && !IsBlank(line[|line| - 1]) && 0 !in line
    requires (forall i :: 0 <= i < |blanks| ==> IsBlank(blanks[i])) && (rest != [] ==> rest[0] == 0)
    ensures CommandLine(payload) == line
  {
    var whole := line + blanks;
    assert 0 !in whole;
    BeforeNulStops(whole, rest);
    BlanksStripped(line, blanks);
  }

  lemma BlanksStripped(line: seq<byte>, blanks: seq<byte>)
    requires line != [] && !IsBlank(line[0]) && !IsBlank(line[|line| - 1])
    requires forall i :: 0 <= i < |blanks| ==> IsBlank(blanks[i])
    ensures StripRight(StripLeft(line + blanks)) == line
  {
    assert (line + blanks)[0] == line[0];
    StripRightStops(line, blanks);
  }

  lemma TripletShape(c: Command)
    requires WellFormed(c)
    ensures var line := Triplet(c); line != [] && !IsBlank(line[0]) && !IsBlank(line[|line| - 1]) && 0 !in line
    ensures SP !in Encode(c.oldId) && SP !in Encode(c.newId) && SP !in Encode(c.ref)
  {
    EncodeEnds(c.oldId);
    EncodeEnds(c.ref);
    EncodeAscii(c.oldId, SP); EncodeAscii(c.newId, SP); EncodeAscii(c.ref, SP);
    EncodeAscii(c.oldId, 0); EncodeAscii(c.newId, 0); EncodeAscii(c.ref, 0);
  }

  // ---------------------------------------------------------------- only well-formed commands come out

  lemma {:induction false} SplitParts(s: seq<byte>, b: byte)
    ensures forall i :: 0 <= i < |SplitSpaces(s)| ==> SP !in SplitSpaces(s)[i]
    ensures b !in s ==> forall i :: 0 <= i < |SplitSpaces(s)| ==> b !in SplitSpaces(s)[i]
  {
    if s != [] {
      SplitParts(s[1..], b);
    }
  }

  lemma {:induction false} SplitEnds(s: seq<byte>)
    ensures SplitSpaces(s)[0] <= s
    ensures |SplitSpaces(s)| > 1 && SplitSpaces(s)[|SplitSpaces(s)| - 1] != [] ==>
      s != [] && s[|s| - 1] == SplitSpaces(s)[|SplitSpaces(s)| - 1][|SplitSpaces(s)[|SplitSpaces(s)| - 1]| - 1]
    ensures |SplitSpaces(s)| == 1 ==> SplitSpaces(s)[0] == s
  {
    if s != [] {
      var rest := SplitSpaces(s[1..]);
      SplitEnds(s[1..]);
      assert s == [s[0]] + s[1..];
      if s[0] != SP && |rest| == 1 { assert SplitSpaces(s) == [[s[0]] + rest[0]]; }
    }
  }

  lemma {:induction false} BeforeNulHasNone(s: seq<byte>)
    ensures 0 !in BeforeNul(s)
  {
    if s != [] && s[0] != 0 { BeforeNulHasNone(s[1..]); }
  }

  lemma {:induction false} StripLeftEnds(s: seq<byte>)
    ensures StripLeft(s) != [] ==> !IsBlank(StripLeft(s)[0])
    ensures 0 !in s ==> 0 !in StripLeft(s)
  {
    if s != [] && IsBlank(s[0]) { StripLeftEnds(s[1..]); }
  }

  lemma {:induction false} StripRightEnds(s: seq<byte>)
    ensures StripRight(s) <= s && (StripRight(s) != [] ==> !IsBlank(StripRight(s)[|StripRight(s)| - 1]))
  {
    if s != [] && IsBlank(s[|s| - 1]) { StripRightEnds(s[..|s| - 1]); }
  }

  /** Whatever the payload, a command that comes out of it is well-formed, so it would survive a round trip. */
  lemma ParsedIsWellFormed(payload: seq<byte>)
    requires ParseRefCommand(payload).Some?
    ensures WellFormed(ParseRefCommand(payload).value)
  {
    var c, line := ParseRefCommand(payload).value, CommandLine(payload);
    var parts := SplitSpaces(line);
    LineIsClean(payload, line);
    PartsAreClean(line, parts);
    NameOfPart(parts[0], c.oldId);
    NameOfPart(parts[1], c.newId);
    NameOfPart(parts[2], c.ref);
  }

  lemma LineIsClean(payload: seq<byte>, line: seq<byte>)
    requires line == CommandLine(payload)
    ensures 0 !in line && (line != [] ==> !IsBlank(line[0]) && !IsBlank(line[|line| - 1]))
  {
    var cut := BeforeNul(payload);
    BeforeNulHasNone(payload);
    StripLeftEnds(cut);
    StripRightEnds(StripLeft(cut));
  }

  lemma PartsAreClean(line: seq<byte>, parts: seq<seq<byte>>)
    requires parts == SplitSpaces(line) && |parts| == 3 && 0 !in line
    requires line != [] ==> !IsBlank(line[0]) && !IsBlank(line[|line| - 1])
    ensures forall i :: 0 <= i < 3 ==> SP !in parts[i] && 0 !in parts[i]
    ensures parts[0] != [] ==> !IsBlank(parts[0][0])
    ensures parts[2] != [] ==> !IsBlank(parts[2][|parts[2]| - 1])
  {
    SplitParts(line, 0);
    SplitEnds(line);
  }

  lemma NameOfPart(part: seq<byte>, t: string)
    requires Decode(part) == Some(t) && t != [] && SP !in part && 0 !in part
    ensures IsName(t) && part != []
    ensures (IsBlank(part[0]) <==> BlankChar(t[0])) && (IsBlank(part[|part| - 1]) <==> BlankChar(t[|t| - 1]))
  {
    PartIsEncoded(part, t);
    EncodedIsName(part, t);
  }

  lemma PartIsEncoded(part: seq<byte>, t: string)
    requires Decode(part) == Some(t)
    ensures part == Encode(t)
  {
    EncodeDecode(part);
  }

  lemma EncodedIsName(part: seq<byte>, t: string)
    requires part == Encode(t) && t != [] && SP !in part && 0 !in part
    ensures IsName(t) && part != []
    ensures (IsBlank(part[0]) <==> BlankChar(t[0])) && (IsBlank(part[|part| - 1]) <==> BlankChar(t[|t| - 1]))
  {
    EncodeEnds(t);
    EncodeAscii(t, SP);
    EncodeAscii(t, 0);
  }

  // ---------------------------------------------------------------- exactly the payloads that parse

  ghost predicate AllBlank(s: seq<byte>)
  {
    forall i :: 0 <= i < |s| ==> IsBlank(s[i])
  }

  lemma {:induction false} BeforeNulSkips(lead: seq<byte>, s: seq<byte>)
    requires AllBlank(lead)
    ensures BeforeNul(lead + s) == lead + BeforeNul(s)
  {
    if lead == [] {
      assert lead + s == s;
    } else {
      assert (lead + s)[1..] == lead[1..] + s;
      BeforeNulSkips(lead[1..], s);
      assert lead == [lead[0]] + lead[1..];
    }
  }

  lemma {:induction false} StripLeftSkips(lead: seq<byte>, s: seq<byte>)
    requires AllBlank(lead)
    ensures StripLeft(lead + s) == StripLeft(s)
  {
    if lead == [] {
      assert lead + s == s;
    } else {
      assert (lead + s)[1..] == lead[1..] + s;
      StripLeftSkips(lead[1..], s);
    }
  }

  lemma LeadDoesNotMatter(lead: seq<byte>, s: seq<byte>)
    requires AllBlank(lead)
    ensures ParseRefCommand(lead + s) == ParseRefCommand(s)
  {
    BeforeNulSkips(lead, s);
    StripLeftSkips(lead, BeforeNul(s));
    assert CommandLine(lead + s) == CommandLine(s);
  }

  lemma {:induction false} BeforeNulSplits(s: seq<byte>) returns (rest: seq<byte>)
    ensures s == BeforeNul(s) + rest && (rest != [] ==> rest[0] == 0)
  {
    if s == [] || s[0] == 0 {
      rest := s;
    } else {
      rest := BeforeNulSplits(s[1..]);
      assert s == [s[0]] + s[1..];
    }
  }

  lemma {:induction false} StripLeftSplits(s: seq<byte>) returns (lead: seq<byte>)
    ensures s == lead + StripLeft(s) && AllBlank(lead)
  {
    lead := [];
    if s != [] && IsBlank(s[0]) {
      var more := StripLeftSplits(s[1..]);
      lead := [s[0]] + more;
      assert s == [s[0]] + s[1..];
    }
  }

  lemma {:induction false} StripRightSplits(s: seq<byte>) returns (trail: seq<byte>)
    ensures s == StripRight(s) + trail && AllBlank(trail)
  {
    trail := [];
    if s != [] && IsBlank(s[|s| - 1]) {
      var init := s[..|s| - 1];
      var more := StripRightSplits(init);
      trail := more + [s[|s| - 1]];
      assert s == init + [s[|s| - 1]];
    }
  }

  function JoinSpaces(parts: seq<seq<byte>>): seq<byte>
    requires parts != []
  {
    if |parts| == 1 then parts[0] else parts[0] + [SP] + JoinSpaces(parts[1..])
  }

  lemma {:induction false} SplitJoins(s: seq<byte>)
    ensures JoinSpaces(SplitSpaces(s)) == s
  {
    if s != [] {
      var rest := SplitSpaces(s[1..]);
      SplitJoins(s[1..]);
      assert s == [s[0]] + s[1..];
      if s[0] == SP { JoinEmptyHead(rest); } else { JoinLongerHead(s[0], rest); }
    }
  }

  lemma JoinEmptyHead(rest: seq<seq<byte>>)
    requires rest != []
    ensures JoinSpaces([[]] + rest) == [SP] + JoinSpaces(rest)
  {
    assert ([[]] + rest)[1..] == rest;
  }

  lemma JoinLongerHead(b: byte, rest: seq<seq<byte>>)
    requires rest != []
    ensures JoinSpaces([[b] + rest[0]] + rest[1..]) == [b] + JoinSpaces(rest)
  {
    var parts := [[b] + rest[0]] + rest[1..];
    assert parts[1..] == rest[1..];
    if |rest| > 1 {
      var tail := JoinSpaces(rest[1..]);
      assert [b] + rest[0] + [SP] + tail == [b] + (rest[0] + [SP] + tail);
    }
  }

  lemma JoinThree(parts: seq<seq<byte>>)
    requires |parts| == 3
    ensures JoinSpaces(parts) == parts[0] + [SP] + parts[1] + [SP] + parts[2]
  {
    var two, one := parts[1..], parts[2..];
    assert two[1..] == one && JoinSpaces(one) == parts[2] && JoinSpaces(two) == parts[1] + [SP] + parts[2];
    assert parts[0] + [SP] + (parts[1] + [SP] + parts[2]) == parts[0] + [SP] + parts[1] + [SP] + parts[2];
  }

  lemma LineOfCommand(payload: seq<byte>, c: Command)
    requires ParseRefCommand(payload) == Some(c)
    ensures CommandLine(payload) == Triplet(c)
  {
    var line := CommandLine(payload);
    var parts := SplitSpaces(line);
    SplitJoins(line);
    JoinThree(parts);
    PartIsEncoded(parts[0], c.oldId);
    PartIsEncoded(parts[1], c.newId);
    PartIsEncoded(parts[2], c.ref);
  }

  ghost predicate Surrounds(payload: seq<byte>, c: Command, lead: seq<byte>, tail: seq<byte>)
  {
    payload == lead + Triplet(c) + tail && AllBlank(lead) && IsTail(tail)
  }

  lemma LineIsInside(payload: seq<byte>) returns (lead: seq<byte>, tail: seq<byte>)
    ensures payload == lead + CommandLine(payload) + tail && AllBlank(lead) && IsTail(tail)
  {
    var cut := BeforeNul(payload);
    var open := StripLeft(cut);
    var rest := BeforeNulSplits(payload);
    lead := StripLeftSplits(cut);
    var trail := StripRightSplits(open);
    tail := trail + rest;
    TailOf(trail, rest);
    Assemble(payload, cut, rest, lead, open, StripRight(open), trail);
  }

  lemma TailOf(trail: seq<byte>, rest: seq<byte>)
    requires AllBlank(trail) && (rest != [] ==> rest[0] == 0)
    ensures IsTail(trail + rest)
  {
    assert BlanksThenNul(trail + rest, |trail|);
  }

  lemma Assemble(payload: seq<byte>, cut: seq<byte>, rest: seq<byte>, lead: seq<byte>, open: seq<byte>,
                 line: seq<byte>, trail: seq<byte>)
    requires payload == cut + rest && cut == lead + open && open == line + trail
    ensures payload == lead + line + (trail + rest)
  {
  }

  /**
   A payload parses to a command if and only if it is that command, well formed, with nothing but blanks
   before it and nothing but blanks, or a NUL and whatever follows, after it. So a payload of two or of four
   parts is refused, and what is read is what was sent.
   */
  lemma ParsesExactly(payload: seq<byte>, c: Command)
    ensures ParseRefCommand(payload) == Some(c) <==>
      WellFormed(c) && exists lead, tail :: Surrounds(payload, c, lead, tail)
  {
    if ParseRefCommand(payload) == Some(c) {
      ParsedIsWellFormed(payload);
      LineOfCommand(payload, c);
      var lead, tail := LineIsInside(payload);
      assert Surrounds(payload, c, lead, tail);
    }
    if WellFormed(c) && exists lead, tail :: Surrounds(payload, c, lead, tail) {
      var lead, tail :| Surrounds(payload, c, lead, tail);
      SurroundedParses(payload, c, lead, tail);
    }
  }

  lemma SurroundedParses(payload: seq<byte>, c: Command, lead: seq<byte>, tail: seq<byte>)
    requires WellFormed(c) && Surrounds(payload, c, lead, tail)
    ensures ParseRefCommand(payload) == Some(c)
  {
    ParseTriplet(c, tail);
    AfterLead(payload, lead, Triplet(c), tail);
  }

  lemma AfterLead(payload: seq<byte>, lead: seq<byte>, line: seq<byte>, tail: seq<byte>)
    requires payload == lead + line + tail && AllBlank(lead)
    ensures ParseRefCommand(payload) == ParseRefCommand(line + tail)
  {
    assert payload == lead + (line + tail);
    LeadDoesNotMatter(lead, line + tail);
  }

  /** No body, or one that cannot be read, is no command list; an empty body is an empty one. */
  lemma EmptyBodies()
    ensures Commands(None).None? && Commands(Some([])) == Some([])
  {
  }
}
