/** UTF-8 (RFC 3629), as `new TextEncoder().encode(s)` produces it. A Dafny
    `char` is a Unicode scalar value, so every character has an encoding. The
    arithmetic is done on byte values (integers 0-255) and converted to bytes
    at the end. */
module Utf8 {
  import opened Wrappers
  import Bytes

  predicate IsByteValue(x: int)
  {
    0 <= x < 0x100
  }

  /** The byte values that encode the scalar value of `c`: one for U+0000-U+007F,
      two up to U+07FF, three up to U+FFFF, four above. */
  function EncodeChar(c: char): (u: seq<int>)
    ensures 1 <= |u| <= 4 && forall i :: 0 <= i < |u| ==> IsByteValue(u[i])
  {
    var n := c as int;
    if n < 0x80 then [n]
    else if n < 0x800 then [0xC0 + n / 0x40, 0x80 + n % 0x40]
    else if n < 0x1_0000 then [0xE0 + n / 0x1000, 0x80 + (n / 0x40) % 0x40, 0x80 + n % 0x40]
    else [0xF0 + n / 0x4_0000, 0x80 + (n / 0x1000) % 0x40, 0x80 + (n / 0x40) % 0x40, 0x80 + n % 0x40]
  }

  function EncodeValues(s: string): (u: seq<int>)
    ensures forall i :: 0 <= i < |u| ==> IsByteValue(u[i])
    ensures |s| <= |u| <= 4 * |s|
  {
    if s == [] then [] else EncodeChar(s[0]) + EncodeValues(s[1..])
  }

  /** `new TextEncoder().encode(s)`. */
  function Encode(s: string): (b: seq<bv8>)
    ensures |s| <= |b| <= 4 * |s|
  {
    var u := EncodeValues(s);
    seq(|u|, i requires 0 <= i < |u| => u[i] as bv8)
  }

  /** The payload bits of a continuation byte `10xxxxxx`, or -1 for any other byte. */
  function Continuation(x: int): (r: int)
  {
    if 0x80 <= x < 0xC0 then x - 0x80 else -1
  }

  predicate IsScalarValue(n: int)
  {
    0 <= n < 0xD800 || 0xE000 <= n < 0x11_0000
  }

  /** The length of the sequence that lead byte `lead` starts, 0 when no
      well-formed sequence starts with it. */
  function LeadLength(lead: int): (len: nat)
    ensures len <= 4
  {
    if 0 <= lead < 0x80 then 1 else if 0xC2 <= lead < 0xE0 then 2
    else if 0xE0 <= lead < 0xF0 then 3 else if 0xF0 <= lead < 0xF5 then 4 else 0
  }

  /** The smallest value a sequence of `len` bytes may carry (shorter forms are
      "overlong" and rejected). */
  function MinValue(len: nat): int
  {
    if len == 2 then 0x80 else if len == 3 then 0x800 else 0x1_0000
  }

  /** The scalar value carried by a lead byte and up to three continuation payloads. */
  function Assemble(len: nat, lead: int, c1: int, c2: int, c3: int): int
  {
    if len == 2 then (lead - 0xC0) * 0x40 + c1
    else if len == 3 then (lead - 0xE0) * 0x1000 + c1 * 0x40 + c2
    else (lead - 0xF0) * 0x4_0000 + c1 * 0x1000 + c2 * 0x40 + c3
  }

  /** Reads one character from the front of `u`: the character and the number
      of bytes it took, or None for a malformed, overlong or surrogate sequence. */
  function DecodeFirst(u: seq<int>): (r: Option<(char, nat)>)
    ensures r.Some? ==> 1 <= r.value.1 <= |u|
  {
    if u == [] then None
    else
      var lead := u[0];
      var len := LeadLength(lead);
      if len == 0 || |u| < len then None
      else if len == 1 then Some((lead as char, 1))
      else
        var c1 := Continuation(u[1]);
        var c2 := if len >= 3 then Continuation(u[2]) else 0;
        var c3 := if len == 4 then Continuation(u[3]) else 0;
        if c1 < 0 || c2 < 0 || c3 < 0 then None
        else
          var n := Assemble(len, lead, c1, c2, c3);
          if n < MinValue(len) || !IsScalarValue(n) then None
          else Some((n as char, len))
  }

  function DecodeValues(u: seq<int>): (r: Option<string>)
    ensures r.Some? ==> |r.value| <= |u|
    decreases |u|
  {
    if u == [] then Some([])
    else match DecodeFirst(u)
      case None => None
      case Some((c, len)) =>
        match DecodeValues(u[len..])
        case None => None
        case Some(rest) => Some([c] + rest)
  }

  /** The string whose UTF-8 encoding `b` is, or None when `b` is not well-formed. */
  function Decode(b: seq<bv8>): (r: Option<string>)
    ensures r.Some? ==> |r.value| <= |b|
  {
    DecodeValues(seq(|b|, i requires 0 <= i < |b| => b[i] as int))
  }

  lemma SplitThree(n: int)
    requires 0 <= n
    ensures (n / 0x1000) * 0x1000 + ((n / 0x40) % 0x40) * 0x40 + n % 0x40 == n
  {
    var q := n / 0x40;
    assert n == q * 0x40 + n % 0x40;
    assert q == (q / 0x40) * 0x40 + q % 0x40;
    assert n / 0x1000 == q / 0x40;
  }

  lemma SplitFour(n: int)
    requires 0 <= n
    ensures (n / 0x4_0000) * 0x4_0000 + ((n / 0x1000) % 0x40) * 0x1000
      + ((n / 0x40) % 0x40) * 0x40 + n % 0x40 == n
  {
    var q := n / 0x1000;
    SplitThree(n);
    assert q == (q / 0x40) * 0x40 + q % 0x40;
    assert n / 0x4_0000 == q / 0x40;
  }

  lemma DecodeThree(c: char, u: seq<int>)
    requires 0x800 <= c as int < 0x1_0000 && |u| >= 3 && u[..3] == EncodeChar(c)
    ensures DecodeFirst(u) == Some((c, 3))
  {
    SplitThree(c as int);
  }

  lemma DecodeFour(c: char, u: seq<int>)
    requires 0x1_0000 <= c as int && |u| >= 4 && u[..4] == EncodeChar(c)
    ensures DecodeFirst(u) == Some((c, 4))
  {
    SplitFour(c as int);
  }

  /** The first character of any text is read back from its encoding. */
  lemma DecodeFirstOfEncodeChar(c: char, rest: seq<int>)
    ensures DecodeFirst(EncodeChar(c) + rest) == Some((c, |EncodeChar(c)|))
  {
    var n := c as int;
    var u := EncodeChar(c) + rest;
    if n >= 0x800 {
      assert u[..|EncodeChar(c)|] == EncodeChar(c);
      if n < 0x1_0000 { DecodeThree(c, u); } else { DecodeFour(c, u); }
    }
  }

  lemma {:induction false} ValuesRoundTrip(s: string)
    ensures DecodeValues(EncodeValues(s)) == Some(s)
    decreases |s|
  {
    if s != [] {
      var e := EncodeChar(s[0]);
      DecodeFirstOfEncodeChar(s[0], EncodeValues(s[1..]));
      assert (e + EncodeValues(s[1..]))[|e|..] == EncodeValues(s[1..]);
      ValuesRoundTrip(s[1..]);
      assert s == [s[0]] + s[1..];
    }
  }

  /** Decoding the encoding of any string gives back that string. */
  lemma RoundTrip(s: string)
    ensures Decode(Encode(s)) == Some(s)
  {
    var u := EncodeValues(s);
    var b := Encode(s);
    forall i | 0 <= i < |u| ensures (u[i] as bv8) as int == u[i] {
      Bytes.IntByteRoundTrip(u[i]);
    }
    assert seq(|b|, i requires 0 <= i < |b| => b[i] as int) == u;
    ValuesRoundTrip(s);
  }

  /** An ASCII string is encoded as its own character codes, one byte each. */
  lemma {:induction false} AsciiEncoding(s: string)
    requires forall i :: 0 <= i < |s| ==> s[i] as int < 0x80
    ensures EncodeValues(s) == seq(|s|, i requires 0 <= i < |s| => s[i] as int)
    decreases |s|
  {
    if s != [] {
      AsciiEncoding(s[1..]);
    }
  }

  /** Encoding distributes over concatenation. */
  lemma {:induction false} EncodeConcat(s: string, t: string)
    ensures EncodeValues(s + t) == EncodeValues(s) + EncodeValues(t)
    decreases |s|
  {
    if s == [] {
      assert s + t == t;
    } else {
      assert (s + t)[0] == s[0] && (s + t)[1..] == s[1..] + t;
      EncodeConcat(s[1..], t);
    }
  }
}
