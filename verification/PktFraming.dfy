/**
 The pkt-line framing of a git receive-pack body ("pkt-line Format", gitprotocol-common(5)): a chain of
 packets, each opened by four hexadecimal digits giving its whole length, closed by a flush-pkt and
 followed by the pack. What a packet carries is left to the `parse` argument.
 */
module PktFraming {
  import opened Prelude
  import opened Utf8

  // ---------------------------------------------------------------- packets

  function HexValue(b: byte): Option<nat>
  {
    if 0x30 <= b <= 0x39 then Some(b as int - 0x30)
    else if 0x41 <= b <= 0x46 then Some(b as int - 0x41 + 10)
    else if 0x61 <= b <= 0x66 then Some(b as int - 0x61 + 10)
    else None
  }

  /** The sixteen digits, the letters in either case, and no other byte. */
  lemma DigitsExactly(b: byte)
    ensures HexValue(b).Some?
      <==> '0' as int <= b <= '9' as int || 'a' as int <= b <= 'f' as int || 'A' as int <= b <= 'F' as int
    ensures b <= '9' as int && HexValue(b).Some? ==> HexValue(b).value + '0' as int == b
    ensures b >= 'a' as int && HexValue(b).Some? ==> HexValue(b).value - 10 + 'a' as int == b
    ensures 'A' as int <= b < 'a' as int && HexValue(b).Some? ==> HexValue(b) == HexValue(b + 32)
  {
  }

  predicate IsHeader(h: seq<byte>)
  {
    |h| == 4 && AllHex(h)
  }

  predicate AllHex(h: seq<byte>)
  {
    forall i :: 0 <= i < |h| ==> HexValue(h[i]).Some?
  }

  /** `int(h, 16)`. */
  function Number(h: seq<byte>): nat
    requires AllHex(h)
  {
    if h == [] then 0 else Number(h[..|h| - 1]) * 16 + HexValue(h[|h| - 1]).value
  }

  function Length(h: seq<byte>): nat
    requires IsHeader(h)
  {
    Number(h)
  }

  lemma LengthDigits(h: seq<byte>)
    requires IsHeader(h)
    ensures Length(h)
         == HexValue(h[0]).value * 4096 + HexValue(h[1]).value * 256 + HexValue(h[2]).value * 16 + HexValue(h[3]).value
  {
    var one, two, three := h[..1], h[..2], h[..3];
    assert one[..0] == [] && two[..1] == one && three[..2] == two && h[..4] == h;
    assert Number(one) == HexValue(h[0]).value;
    assert Number(two) == Number(one) * 16 + HexValue(h[1]).value;
    assert Number(three) == Number(two) * 16 + HexValue(h[2]).value;
  }

  /** What the reader finds in the bytes that are left, as a plain recursion over packets. */
  function ReadSection<C>(s: seq<byte>, parse: seq<byte> -> Option<C>): Option<seq<C>>
    decreases |s|
  {
    if |s| < 4 || !IsHeader(s[..4]) then None
    else
      var length := Length(s[..4]);
      if length == 0 then Some([])
      else if length < 4 || length > |s| then None
      else
        var parsed := parse(s[4..length]);
        if parsed.None? then None else Prepend(parsed.value, ReadSection(s[length..], parse))
  }

  function Prepend<C>(c: C, rest: Option<seq<C>>): Option<seq<C>>
  {
    if rest.None? then None else Some([c] + rest.value)
  }

  function After<C>(done: seq<C>, rest: Option<seq<C>>): Option<seq<C>>
  {
    if rest.None? then None else Some(done + rest.value)
  }

  lemma AfterNothing<C>(rest: Option<seq<C>>)
    ensures After([], rest) == rest
  {
    if rest.Some? { assert [] + rest.value == rest.value; }
  }

  lemma AfterPrepend<C>(done: seq<C>, c: C, rest: Option<seq<C>>)
    ensures After(done, Prepend(c, rest)) == After(done + [c], rest)
  {
    if rest.Some? { assert done + ([c] + rest.value) == done + [c] + rest.value; }
  }

  /** `None` is no body or an undecodable one; an empty list is the authentication probe. */
  function Section<C>(body: Option<seq<byte>>, parse: seq<byte> -> Option<C>): Option<seq<C>>
  {
    if body.None? then None else if body.value == [] then Some([]) else ReadSection(body.value, parse)
  }

  /** One packet of the recursion, told in terms of the loop's index. */
  function ReadFrom<C>(bytes: seq<byte>, index: nat, parse: seq<byte> -> Option<C>): Option<seq<C>>
    requires index + 4 <= |bytes|
  {
    var header := bytes[index..index + 4];
    if !IsHeader(header) then None
    else if Length(header) == 0 then Some([])
    else if Length(header) < 4 || index + Length(header) > |bytes| then None
    else
      var parsed := parse(bytes[index + 4..index + Length(header)]);
      if parsed.None? then None else Prepend(parsed.value, ReadSection(bytes[index + Length(header)..], parse))
  }

  lemma ReadAt<C>(bytes: seq<byte>, index: nat, parse: seq<byte> -> Option<C>)
    requires index <= |bytes|
    ensures ReadSection(bytes[index..], parse) == if index + 4 > |bytes| then None else ReadFrom(bytes, index, parse)
  {
    if index + 4 <= |bytes| {
      var header := bytes[index..index + 4];
      assert bytes[index..][..4] == header;
      if IsHeader(header) && 4 <= Length(header) && index + Length(header) <= |bytes| {
        assert bytes[index..][4..Length(header)] == bytes[index + 4..index + Length(header)];
        assert bytes[index..][Length(header)..] == bytes[index + Length(header)..];
      }
    }
  }

  /** The reader's loop: it walks an index over the body and stops at the flush-pkt. */
  method ReadPackets<C>(body: Option<seq<byte>>, parse: seq<byte> -> Option<C>) returns (r: Option<seq<C>>)
    ensures r == Section(body, parse)
  {
    if body.None? { return None; }
    var bytes := body.value;
    if bytes == [] { return Some([]); }
    var commands: seq<C> := [];
    var index, total := 0, |bytes|;
    assert bytes[0..] == bytes;
    AfterNothing(ReadSection(bytes, parse));
    while true
      invariant 0 <= index <= total
      invariant After(commands, ReadSection(bytes[index..], parse)) == ReadSection(bytes, parse)
      decreases total - index
    {
      ReadAt(bytes, index, parse);
      if index + 4 > total { return None; }
      var header := bytes[index..index + 4];
      if !IsHeader(header) { return None; }
      var length := Length(header);
      if length == 0 {
        assert commands + [] == commands;
        return Some(commands);
      }
      if length < 4 || index + length > total { return None; }
      var parsed := parse(bytes[index + 4..index + length]);
      if parsed.None? { return None; }
      AfterPrepend(commands, parsed.value, ReadSection(bytes[index + length..], parse));
      commands := commands + [parsed.value];
      index := index + length;
    }
  }

  // ---------------------------------------------------------------- decompositions

  datatype Packet = Packet(header: seq<byte>, payload: seq<byte>)

  ghost predicate IsPacket(p: Packet)
  {
    IsHeader(p.header) && Length(p.header) == 4 + |p.payload|
  }

  const FLUSH: seq<byte> := [0x30, 0x30, 0x30, 0x30]

  ghost function Flat(packets: seq<Packet>): seq<byte>
  {
    if packets == [] then [] else packets[0].header + packets[0].payload + Flat(packets[1..])
  }

  /** `body` is these packets, then a flush-pkt, then `rest`. */
  ghost predicate Decomposes(body: seq<byte>, packets: seq<Packet>, rest: seq<byte>)
  {
    (forall i :: 0 <= i < |packets| ==> IsPacket(packets[i])) && body == Flat(packets) + FLUSH + rest
  }

  ghost predicate Carries<C>(packets: seq<Packet>, commands: seq<C>, parse: seq<byte> -> Option<C>)
  {
    |packets| == |commands| && forall i :: 0 <= i < |packets| ==> parse(packets[i].payload) == Some(commands[i])
  }

  lemma FlushIsZero(h: seq<byte>)
    requires IsHeader(h)
    ensures Length(h) == 0 <==> h == FLUSH
  {
    LengthDigits(h);
  }

  lemma FirstPacket(body: seq<byte>, packets: seq<Packet>, rest: seq<byte>)
    requires Decomposes(body, packets, rest) && packets != []
    ensures var n := 4 + |packets[0].payload|;
      && |body| >= n && body[..4] == packets[0].header && body[4..n] == packets[0].payload
      && Decomposes(body[n..], packets[1..], rest)
  {
    var tail := Flat(packets[1..]) + FLUSH + rest;
    assert body == packets[0].header + (packets[0].payload + tail);
    assert body == (packets[0].header + packets[0].payload) + tail;
  }

  lemma NoPacket(body: seq<byte>, rest: seq<byte>)
    requires Decomposes(body, [], rest)
    ensures |body| >= 4 && body[..4] == FLUSH && body[4..] == rest && IsHeader(FLUSH) && Length(FLUSH) == 0
  {
    assert body == FLUSH + rest;
    LengthDigits(FLUSH);
  }

  /** A body that decomposes into parsable packets is read, whatever follows the flush-pkt. */
  lemma {:induction false} DecompositionIsRead<C>(body: seq<byte>, packets: seq<Packet>, rest: seq<byte>,
                                                  commands: seq<C>, parse: seq<byte> -> Option<C>)
    requires Decomposes(body, packets, rest) && Carries(packets, commands, parse)
    ensures ReadSection(body, parse) == Some(commands)
    decreases |packets|
  {
    if packets == [] {
      NoPacket(body, rest);
    } else {
      FirstPacket(body, packets, rest);
      DecompositionIsRead(body[4 + |packets[0].payload|..], packets[1..], rest, commands[1..], parse);
      assert [commands[0]] + commands[1..] == commands;
    }
  }

  /** What was read came from a decomposition, which this lemma hands back. */
  lemma {:induction false} ReadHasDecomposition<C>(body: seq<byte>, parse: seq<byte> -> Option<C>)
    returns (packets: seq<Packet>, rest: seq<byte>)
    requires ReadSection(body, parse).Some?
    ensures Decomposes(body, packets, rest) && Carries(packets, ReadSection(body, parse).value, parse)
    decreases |body|
  {
    var length := Length(body[..4]);
    if length == 0 {
      FlushIsZero(body[..4]);
      packets, rest := [], body[4..];
      assert Flat([]) + FLUSH + rest == body;
    } else {
      var tail;
      tail, rest := ReadHasDecomposition(body[length..], parse);
      var first := Packet(body[..4], body[4..length]);
      packets := [first] + tail;
      assert body == body[..4] + body[4..length] + body[length..];
      PushPacket(first, body[length..], tail, rest);
      assert Carries(packets, [parse(first.payload).value] + ReadSection(body[length..], parse).value, parse);
    }
  }

  lemma PushPacket(first: Packet, body: seq<byte>, packets: seq<Packet>, rest: seq<byte>)
    requires IsPacket(first) && Decomposes(body, packets, rest)
    ensures Decomposes(first.header + first.payload + body, [first] + packets, rest)
  {
    assert ([first] + packets)[1..] == packets;
    assert first.header + first.payload + (Flat(packets) + FLUSH + rest)
        == first.header + first.payload + Flat(packets) + FLUSH + rest;
  }

  /** A body has at most one decomposition. */
  lemma {:induction false} DecompositionIsUnique(body: seq<byte>, p: seq<Packet>, r: seq<byte>, q: seq<Packet>,
                                                 s: seq<byte>)
    requires Decomposes(body, p, r) && Decomposes(body, q, s)
    ensures p == q && r == s
    decreases |p|
  {
    if p == [] && q == [] {
      NoPacket(body, r);
      NoPacket(body, s);
    } else if p == [] {
      NoPacket(body, r);
      FirstPacket(body, q, s);
    } else if q == [] {
      NoPacket(body, s);
      FirstPacket(body, p, r);
    } else {
      FirstPacket(body, p, r);
      FirstPacket(body, q, s);
      assert p[0] == q[0];
      DecompositionIsUnique(body[4 + |p[0].payload|..], p[1..], r, q[1..], s);
      assert p == [p[0]] + p[1..] && q == [q[0]] + q[1..];
    }
  }

  /**
   A non-empty body is read as `commands` if and only if it is exactly one list of well-formed packets
   carrying them, a flush-pkt, and anything at all; and any bytes may replace what follows the flush.
   */
  lemma ReadIsExact<C>(body: seq<byte>, commands: seq<C>, parse: seq<byte> -> Option<C>)
    ensures ReadSection(body, parse) == Some(commands) <==>
      exists packets, rest :: Decomposes(body, packets, rest) && Carries(packets, commands, parse)
    ensures ReadSection(body, parse) == Some(commands) ==>
      exists packets, rest ::
        && Decomposes(body, packets, rest)
        && (forall q, s :: Decomposes(body, q, s) ==> q == packets && s == rest)
        && forall pack: seq<byte> :: ReadSection(Flat(packets) + FLUSH + pack, parse) == Some(commands)
  {
    if packets, rest :| Decomposes(body, packets, rest) && Carries(packets, commands, parse) {
      DecompositionIsRead(body, packets, rest, commands, parse);
    }
    if ReadSection(body, parse) == Some(commands) {
      var packets, rest := ReadHasDecomposition(body, parse);
      forall q, s | Decomposes(body, q, s) ensures q == packets && s == rest {
        DecompositionIsUnique(body, q, s, packets, rest);
      }
      forall pack: seq<byte> ensures ReadSection(Flat(packets) + FLUSH + pack, parse) == Some(commands) {
        DecompositionIsRead(Flat(packets) + FLUSH + pack, packets, pack, commands, parse);
      }
    }
  }
}
