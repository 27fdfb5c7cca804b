/**
 UTF-8 as section 3 of RFC 3629 defines it: no overlong form, no surrogate, nothing above U+10FFFF.
 Rust's `str` and Python's strict `bytes.decode("utf-8")` both accept exactly these byte strings.
 */
module Utf8 {
  import opened Prelude

  type byte = b: int | 0 <= b < 256

  function EncodeChar(c: char): (r: seq<byte>)
    ensures 1 <= |r| <= 4
    ensures !Continues(r[0]) && forall i :: 1 <= i < |r| ==> Continues(r[i])
    ensures if c as int < 0x80 then r == [c as int] else forall i :: 0 <= i < |r| ==> r[i] >= 0x80
  {
    var n := c as int;
    if n < 0x80 then [n]
    else if n < 0x800 then [0xC0 + n / 64, 0x80 + n % 64]
    else if n < 0x10000 then [0xE0 + n / 4096, 0x80 + n / 64 % 64, 0x80 + n % 64]
    else [0xF0 + n / 262144, 0x80 + n / 4096 % 64, 0x80 + n / 64 % 64, 0x80 + n % 64]
  }

  /** A continuation byte: the one place where a byte string cannot be cut. */
  predicate Continues(b: byte)
  {
    0x80 <= b < 0xC0
  }

  /** How many bytes the sequence opened by `b` takes; 0 for a byte that opens none. */
  function Width(b: byte): nat
  {
    if b < 0x80 then 1 else if b < 0xC2 then 0 else if b < 0xE0 then 2
    else if b < 0xF0 then 3 else if b < 0xF5 then 4 else 0
  }

  /** What a byte carries once its marker bits are taken off. */
  function Bits(b: byte, marker: int): int
  {
    b as int - marker
  }

  function Scalar(s: seq<byte>): int
    requires s != [] && 0 < Width(s[0]) <= |s|
  {
    match Width(s[0])
    case 1 => s[0]
    case 2 => Bits(s[0], 0xC0) * 64 + Bits(s[1], 0x80)
    case 3 => Bits(s[0], 0xE0) * 4096 + Bits(s[1], 0x80) * 64 + Bits(s[2], 0x80)
    case _ => Bits(s[0], 0xF0) * 262144 + Bits(s[1], 0x80) * 4096 + Bits(s[2], 0x80) * 64 + Bits(s[3], 0x80)
  }

  /** The smallest scalar a sequence of this width may carry; anything below is an overlong form. */
  function Least(width: nat): int
  {
    if width <= 1 then 0 else if width == 2 then 0x80 else if width == 3 then 0x800 else 0x10000
  }

  /** Is there a complete, well-formed sequence at the head of `s`? */
  predicate Opens(s: seq<byte>)
  {
    && s != [] && 0 < Width(s[0]) <= |s|
    && (forall i :: 1 <= i < Width(s[0]) ==> Continues(s[i]))
    && Least(Width(s[0])) <= Scalar(s)
    && (Scalar(s) < 0xD800 || 0xE000 <= Scalar(s) < 0x110000)
  }

  function Encode(t: string): seq<byte>
  {
    if t == [] then [] else EncodeChar(t[0]) + Encode(t[1..])
  }

  function Decode(s: seq<byte>): Option<string>
  {
    if s == [] then Some([])
    else if !Opens(s) then None
    else
      var rest := Decode(s[Width(s[0])..]);
      if rest.None? then None else Some([Scalar(s) as char] + rest.value)
  }

  predicate Valid(s: seq<byte>)
  {
    Decode(s).Some?
  }

  // ---------------------------------------------------------------- the two round trips

  lemma OpensEncoded(c: char, rest: seq<byte>)
    ensures var s := EncodeChar(c) + rest; Opens(s) && Width(s[0]) == |EncodeChar(c)| && Scalar(s) == c as int
  {
    var n := c as int;
    var e := EncodeChar(c);
    var s := e + rest;
    assert forall i :: 0 <= i < |e| ==> s[i] == e[i];
    Recompose(n);
  }

  lemma Recompose(n: nat)
    ensures n == n / 64 * 64 + n % 64
    ensures n == n / 4096 * 4096 + n / 64 % 64 * 64 + n % 64
    ensures n == n / 262144 * 262144 + n / 4096 % 64 * 4096 + n / 64 % 64 * 64 + n % 64
    ensures n < 0x110000 ==> n / 262144 <= 4
  {
    assert n / 4096 == n / 64 / 64 && n / 262144 == n / 4096 / 64;
  }

  /** Peeling one six-bit digit off a number. */
  lemma Digit(q: int, r: int)
    requires 0 <= r < 64
    ensures (q * 64 + r) / 64 == q && (q * 64 + r) % 64 == r
  {
  }

  lemma EncodedHead(s: seq<byte>)
    requires Opens(s)
    ensures EncodeChar(Scalar(s) as char) == s[..Width(s[0])]
  {
    var w := Width(s[0]);
    if w == 2 {
      Digit(Bits(s[0], 0xC0), Bits(s[1], 0x80));
    } else if w == 3 {
      ThreeDigits(Bits(s[0], 0xE0), Bits(s[1], 0x80), Bits(s[2], 0x80));
    } else if w == 4 {
      FourDigits(Bits(s[0], 0xF0), Bits(s[1], 0x80), Bits(s[2], 0x80), Bits(s[3], 0x80));
    }
  }

  lemma ThreeDigits(a: int, b: int, c: int)
    requires 0 <= b < 64 && 0 <= c < 64
    ensures var n := a * 4096 + b * 64 + c; n / 4096 == a && n / 64 % 64 == b && n % 64 == c
  {
    Digit(a * 64 + b, c);
    Digit(a, b);
    var n := a * 4096 + b * 64 + c;
    assert n / 4096 == n / 64 / 64;
  }

  lemma FourDigits(a: int, b: int, c: int, d: int)
    requires 0 <= b < 64 && 0 <= c < 64 && 0 <= d < 64
    ensures var n := a * 262144 + b * 4096 + c * 64 + d;
      n / 262144 == a && n / 4096 % 64 == b && n / 64 % 64 == c && n % 64 == d
  {
    var n := a * 262144 + b * 4096 + c * 64 + d;
    Digit(a * 4096 + b * 64 + c, d);
    ThreeDigits(a, b, c);
    assert n / 4096 == n / 64 / 64 && n / 262144 == n / 64 / 4096;
  }

  /** Decoding what was encoded gives the text back. */
  lemma {:induction false} DecodeEncode(t: string)
    ensures Decode(Encode(t)) == Some(t)
  {
    if t != [] {
      OpensEncoded(t[0], Encode(t[1..]));
      DecodeEncode(t[1..]);
      assert Encode(t)[|EncodeChar(t[0])|..] == Encode(t[1..]);
      assert [t[0]] + t[1..] == t;
    }
  }

  /** A byte string that decodes at all is the one and only encoding of what it decodes to. */
  lemma {:induction false} EncodeDecode(s: seq<byte>)
    requires Valid(s)
    ensures Encode(Decode(s).value) == s
  {
    if s != [] {
      var w := Width(s[0]);
      var rest := DecodedTail(s);
      EncodeDecode(s[w..]);
      Glue(s, w, Scalar(s) as char, rest);
    }
  }

  lemma DecodedTail(s: seq<byte>) returns (rest: string)
    requires Valid(s) && s != []
    ensures Opens(s) && Decode(s[Width(s[0])..]) == Some(rest) && Decode(s) == Some([Scalar(s) as char] + rest)
    ensures EncodeChar(Scalar(s) as char) == s[..Width(s[0])]
  {
    rest := Decode(s[Width(s[0])..]).value;
    EncodedHead(s);
  }

  lemma Glue(s: seq<byte>, w: nat, c: char, rest: string)
    requires w <= |s| && EncodeChar(c) == s[..w] && Encode(rest) == s[w..]
    ensures Encode([c] + rest) == s
  {
    EncodeCons(c, rest);
    assert s == s[..w] + s[w..];
  }

  lemma EncodeCons(c: char, t: string)
    ensures Encode([c] + t) == EncodeChar(c) + Encode(t)
  {
    assert ([c] + t)[1..] == t;
  }

  // ---------------------------------------------------------------- where a string may be cut

  /** Rust's `is_char_boundary`. */
  predicate IsBoundary(s: seq<byte>, i: nat)
    requires i <= |s|
  {
    i == |s| || !Continues(s[i])
  }

  lemma OpensPrefix(s: seq<byte>, i: nat)
    requires Opens(s) && Width(s[0]) <= i <= |s|
    ensures Opens(s[..i]) && Scalar(s[..i]) == Scalar(s)
  {
  }

  /** Cutting a valid string at a boundary gives two valid strings. */
  lemma {:induction false} CutAtBoundary(s: seq<byte>, i: nat)
    requires Valid(s) && i <= |s| && IsBoundary(s, i)
    ensures Valid(s[..i]) && Valid(s[i..])
  {
    if i == 0 {
      assert s[i..] == s;
    } else {
      var w := Width(s[0]);
      BoundaryPastHead(s, i);
      var rest := s[w..];
      CutAtBoundary(rest, i - w);
      assert rest[i - w..] == s[i..];
      CutHead(s, i, rest);
    }
  }

  lemma BoundaryPastHead(s: seq<byte>, i: nat)
    requires Opens(s) && 0 < i <= |s| && IsBoundary(s, i)
    ensures Width(s[0]) <= i && (IsBoundary(s, i) <==> IsBoundary(s[Width(s[0])..], i - Width(s[0])))
  {
    assert forall k :: 1 <= k < Width(s[0]) ==> !IsBoundary(s, k);
  }

  lemma CutHead(s: seq<byte>, i: nat, rest: seq<byte>)
    requires Opens(s) && Width(s[0]) <= i <= |s| && rest == s[Width(s[0])..] && Valid(rest[..i - Width(s[0])])
    ensures Valid(s[..i])
  {
    OpensPrefix(s, i);
    assert s[..i][Width(s[0])..] == rest[..i - Width(s[0])];
  }

  /** The slice between two boundaries is itself valid, so taking it never fails. */
  lemma SliceIsValid(s: seq<byte>, a: nat, b: nat)
    requires Valid(s) && a <= b <= |s| && IsBoundary(s, a) && IsBoundary(s, b)
    ensures Valid(s[a..b])
  {
    CutAtBoundary(s, b);
    CutAtBoundary(s[..b], a);
    assert s[..b][a..] == s[a..b];
  }

  /** Removing a valid prefix leaves a valid string. */
  lemma {:induction false} DropPrefix(a: seq<byte>, b: seq<byte>)
    requires Valid(a) && Valid(a + b)
    ensures Valid(b) && IsBoundary(a + b, |a|)
  {
    if a == [] {
      assert a + b == b;
    } else {
      DropHead(a, b);
      DropPrefix(a[Width(a[0])..], b);
    }
    BoundaryOfRest(a, b);
  }

  lemma DropHead(a: seq<byte>, b: seq<byte>)
    requires a != [] && Valid(a) && Valid(a + b)
    ensures 0 < Width(a[0]) <= |a| && Valid(a[Width(a[0])..]) && Valid(a[Width(a[0])..] + b)
  {
    var w := Width(a[0]);
    assert (a + b)[0] == a[0] && (a + b)[w..] == a[w..] + b;
  }

  lemma BoundaryOfRest(a: seq<byte>, b: seq<byte>)
    requires Valid(b)
    ensures IsBoundary(a + b, |a|)
  {
    if b != [] { assert Opens(b) && (a + b)[|a|] == b[0]; }
  }
}
